/** Slices that stop at the end of the sequence, as Python's do. */
module Sequences {

  /** `s[:n]` */
  function Take<T>(s: seq<T>, n: nat): seq<T> { if |s| <= n then s else s[..n] }

  /** `s[n:]` */
  function Drop<T>(s: seq<T>, n: nat): seq<T> { if n <= |s| then s[n..] else [] }
}
