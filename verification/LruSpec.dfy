/**
  What os_net/operating_system/examples/lru_cache.py promises, stated on plain sequences: a cache
  is its entries in recency order, most recent first. The heap structure that implements it is in
  LruCache; here are the laws of whole traces of get and put calls.
*/
module LruSpec {
  import opened Sequences

  datatype Entry<K, V> = Entry(key: K, value: V)

  datatype Op<K, V> = Get(key: K) | Put(key: K, value: V)

  type Cache<K, V> = seq<Entry<K, V>>

  predicate Has<K(==), V>(s: Cache<K, V>, k: K) {
    exists i :: 0 <= i < |s| && s[i].key == k
  }

  function Find<K(==), V>(s: Cache<K, V>, k: K): (e: Entry<K, V>)
    requires Has(s, k)
    ensures e in s && e.key == k
  {
    if s[0].key == k then s[0] else
      assert exists i :: 0 <= i < |s[1..]| && s[1..][i].key == k by {
        var i :| 0 <= i < |s| && s[i].key == k;
        assert s[1..][i - 1].key == k;
      }
      Find(s[1..], k)
  }

  /** The entries whose key is not k, in the same order. */
  function Without<K(==), V>(s: Cache<K, V>, k: K): Cache<K, V> {
    if s == [] then []
    else if s[0].key == k then Without(s[1..], k)
    else [s[0]] + Without(s[1..], k)
  }

  /** Recency order after one call: a hit moves its entry to the front, a put places its entry
      there, and what no longer fits falls off the far end. */
  function Step<K(==), V>(capacity: nat, s: Cache<K, V>, op: Op<K, V>): Cache<K, V> {
    match op
    case Get(k) => if Has(s, k) then [Find(s, k)] + Without(s, k) else s
    case Put(k, v) => Take([Entry(k, v)] + Without(s, k), capacity)
  }

  /** The cache after a whole trace, starting empty. */
  function Run<K(==), V>(capacity: nat, ops: seq<Op<K, V>>): Cache<K, V> {
    if ops == [] then [] else Step(capacity, Run(capacity, ops[..|ops| - 1]), ops[|ops| - 1])
  }

  ghost predicate Distinct<K, V>(s: Cache<K, V>) {
    forall i, j :: 0 <= i < j < |s| ==> s[i].key != s[j].key
  }

  // ---------- facts about Without ----------

  lemma {:induction false} WithoutContents<K, V>(s: Cache<K, V>, k: K)
    ensures forall e :: e in Without(s, k) <==> e in s && e.key != k
    ensures !Has(s, k) ==> Without(s, k) == s
    ensures Has(s, k) ==> |Without(s, k)| < |s|
    ensures |Without(s, k)| <= |s|
    ensures forall j :: 0 <= j < |Without(s, k)| ==> Without(s, k)[j] in s && Without(s, k)[j].key != k
  {
    if s != [] {
      WithoutContents(s[1..], k);
      assert s == [s[0]] + s[1..];
      assert forall i :: 0 <= i < |s| - 1 ==> s[1..][i] == s[i + 1];
      if s[0].key != k {
        assert Has(s, k) <==> Has(s[1..], k) by {
          if i :| 0 <= i < |s| && s[i].key == k {
            assert s[1..][i - 1].key == k;
          }
        }
      }
    }
  }

  /** With distinct keys, Without cuts out one position. */
  lemma {:induction false} WithoutAt<K, V>(s: Cache<K, V>, i: nat)
    requires Distinct(s) && i < |s|
    ensures Without(s, s[i].key) == s[..i] + s[i + 1..]
    ensures Has(s, s[i].key) && Find(s, s[i].key) == s[i]
  {
    if i == 0 {
      assert !Has(s[1..], s[0].key);
      WithoutContents(s[1..], s[0].key);
      assert s[..0] + s[1..] == s[1..];
    } else {
      var t := s[1..];
      assert t[i - 1] == s[i] && Distinct(t);
      WithoutAt(t, i - 1);
      assert s[..i] == [s[0]] + t[..i - 1] && s[i + 1..] == t[i..];
      assert s[..i] + s[i + 1..] == [s[0]] + (t[..i - 1] + t[i..]);
    }
  }

  lemma CutDistinct<K, V>(s: Cache<K, V>, i: nat)
    requires Distinct(s) && i < |s|
    ensures Distinct(s[..i] + s[i + 1..])
  {
  }

  lemma WithoutDistinct<K, V>(s: Cache<K, V>, k: K)
    requires Distinct(s)
    ensures Distinct(Without(s, k))
    ensures Has(s, k) ==> |Without(s, k)| == |s| - 1
  {
    if i :| 0 <= i < |s| && s[i].key == k {
      WithoutAt(s, i);
      CutDistinct(s, i);
    } else {
      WithoutContents(s, k);
    }
  }

  lemma FrontDistinct<K, V>(r: Cache<K, V>, e: Entry<K, V>)
    requires Distinct(r)
    ensures Distinct([e] + Without(r, e.key))
  {
    WithoutDistinct(r, e.key);
    WithoutContents(r, e.key);
  }

  lemma StepKeeps<K, V>(capacity: nat, s: Cache<K, V>, op: Op<K, V>)
    requires Distinct(s) && |s| <= capacity
    ensures Distinct(Step(capacity, s, op)) && |Step(capacity, s, op)| <= capacity
  {
    match op
    case Put(k, v) => FrontDistinct(s, Entry(k, v));
    case Get(k) =>
      if Has(s, k) {
        FrontDistinct(s, Find(s, k));
        WithoutContents(s, k);
      }
  }

  lemma {:induction false} RunKeeps<K, V>(capacity: nat, ops: seq<Op<K, V>>)
    ensures Distinct(Run(capacity, ops)) && |Run(capacity, ops)| <= capacity
  {
    if ops != [] {
      RunKeeps(capacity, ops[..|ops| - 1]);
      StepKeeps(capacity, Run(capacity, ops[..|ops| - 1]), ops[|ops| - 1]);
    }
  }

  // ---------- recency and values over a trace ----------

  /** Position of the last call that touched k (a put, or a get that hit), or -1. */
  function LastTouch<K(==), V>(capacity: nat, ops: seq<Op<K, V>>, k: K): int {
    if ops == [] then -1
    else
      var before, op := ops[..|ops| - 1], ops[|ops| - 1];
      if op.key == k && (op.Put? || Has(Run(capacity, before), k)) then |before|
      else LastTouch(capacity, before, k)
  }

  /** The value that a put to k in the trace ends up storing: the last one. */
  ghost predicate LastPut<K, V>(ops: seq<Op<K, V>>, k: K, v: V) {
    exists i :: 0 <= i < |ops| && ops[i] == Put(k, v) &&
                forall j :: i < j < |ops| && ops[j].Put? ==> ops[j].key != k
  }

  /** More recently touched entries stand nearer the front. */
  ghost predicate ByRecency<K, V>(capacity: nat, ops: seq<Op<K, V>>, s: Cache<K, V>) {
    forall i, j :: 0 <= i < j < |s| ==>
      LastTouch(capacity, ops, s[i].key) > LastTouch(capacity, ops, s[j].key)
  }

  /** Every entry ever touched, in order of last touch: the cache as it would be if nothing ever
      fell off, a get still hitting only within the first `capacity` places. */
  function History<K(==), V>(capacity: nat, ops: seq<Op<K, V>>): Cache<K, V> {
    if ops == [] then []
    else
      var r, op := History(capacity, ops[..|ops| - 1]), ops[|ops| - 1];
      match op
      case Get(k) => if Has(Take(r, capacity), k) then [Find(r, k)] + Without(r, k) else r
      case Put(k, v) => [Entry(k, v)] + Without(r, k)
  }

  /** Position of k, if it has one. */
  lemma Locate<K, V>(s: Cache<K, V>, k: K) returns (i: nat)
    requires Distinct(s) && Has(s, k)
    ensures i < |s| && s[i].key == k && Find(s, k) == s[i] && Without(s, k) == s[..i] + s[i + 1..]
  {
    i :| 0 <= i < |s| && s[i].key == k;
    WithoutAt(s, i);
  }

  lemma TakeCutInside<T>(r: seq<T>, i: nat, e: T, n: nat)
    requires i < |r| && i < n
    ensures Take([e] + (r[..i] + r[i + 1..]), n) == Take([e] + (Take(r, n)[..i] + Take(r, n)[i + 1..]), n)
  {
    if n < |r| {
      var w := r[..n];
      assert w[..i] == r[..i] && w[i + 1..] == r[i + 1..n];
    }
  }

  lemma TakeCutOutside<T>(r: seq<T>, i: nat, e: T, n: nat)
    requires n <= i < |r|
    ensures Take([e] + (r[..i] + r[i + 1..]), n) == Take([e] + Take(r, n), n)
  {
  }

  lemma TakeWhole<T>(r: seq<T>, e: T, n: nat)
    ensures Take([e] + r, n) == Take([e] + Take(r, n), n)
  {
  }

  /** Within the window a lookup in the history is a lookup in the cache. */
  lemma WindowFind<K, V>(r: Cache<K, V>, n: nat, k: K)
    requires Distinct(r) && Has(Take(r, n), k)
    ensures Has(r, k) && Find(r, k) == Find(Take(r, n), k)
  {
    var i := Locate(Take(r, n), k);
    assert r[i].key == k;
    WithoutAt(r, i);
  }

  /** Moving k to the front commutes with cutting the history down to the window. */
  lemma TouchedWindow<K, V>(r: Cache<K, V>, n: nat, k: K, e: Entry<K, V>)
    requires Distinct(r)
    ensures Take([e] + Without(r, k), n) == Take([e] + Without(Take(r, n), k), n)
  {
    var w := Take(r, n);
    if Has(r, k) {
      var i := Locate(r, k);
      if i < n {
        TakeCutInside(r, i, e, n);
        assert w[i] == r[i] && Distinct(w);
        WithoutAt(w, i);
      } else {
        TakeCutOutside(r, i, e, n);
        assert !Has(w, k);
        WithoutContents(w, k);
      }
    } else {
      assert !Has(w, k);
      WithoutContents(w, k);
      WithoutContents(r, k);
      TakeWhole(r, e, n);
    }
  }

  lemma HistoryStep<K, V>(capacity: nat, ops: seq<Op<K, V>>, r: Cache<K, V>)
    requires ops != [] && r == History(capacity, ops[..|ops| - 1]) && Distinct(r)
    requires Run(capacity, ops[..|ops| - 1]) == Take(r, capacity)
    ensures Distinct(History(capacity, ops))
    ensures Run(capacity, ops) == Take(History(capacity, ops), capacity)
  {
    var op := ops[|ops| - 1];
    var s := Take(r, capacity);
    match op
    case Put(k, v) =>
      TouchedWindow(r, capacity, k, Entry(k, v));
      FrontDistinct(r, Entry(k, v));
    case Get(k) =>
      if Has(s, k) {
        WindowFind(r, capacity, k);
        TouchedWindow(r, capacity, k, Find(s, k));
        FrontDistinct(r, Find(r, k));
        WithoutContents(s, k);
      }
  }

  /** The cache is exactly the `capacity` most recently touched entries. */
  lemma {:induction false} RunIsWindow<K, V>(capacity: nat, ops: seq<Op<K, V>>)
    ensures Distinct(History(capacity, ops))
    ensures Run(capacity, ops) == Take(History(capacity, ops), capacity)
  {
    if ops != [] {
      RunIsWindow(capacity, ops[..|ops| - 1]);
      HistoryStep(capacity, ops, History(capacity, ops[..|ops| - 1]));
    }
  }

  lemma {:induction false} TouchInTrace<K, V>(capacity: nat, ops: seq<Op<K, V>>, k: K)
    ensures -1 <= LastTouch(capacity, ops, k) < |ops|
    ensures LastTouch(capacity, ops, k) >= 0 ==> ops[LastTouch(capacity, ops, k)].key == k
  {
    if ops != [] {
      TouchInTrace(capacity, ops[..|ops| - 1], k);
    }
  }

  /** The history lists exactly the touched keys, most recent first. */
  lemma {:induction false} HistoryByRecency<K, V>(capacity: nat, ops: seq<Op<K, V>>)
    ensures ByRecency(capacity, ops, History(capacity, ops))
    ensures forall k :: Has(History(capacity, ops), k) <==> LastTouch(capacity, ops, k) >= 0
  {
    if ops != [] {
      var before, op := ops[..|ops| - 1], ops[|ops| - 1];
      HistoryByRecency(capacity, before);
      RunIsWindow(capacity, before);
      TouchStep(capacity, ops, History(capacity, before));
    }
  }

  /** The entry that op, when it touches, moves to the front of the history r. */
  ghost function Touched<K, V>(r: Cache<K, V>, op: Op<K, V>): Entry<K, V>
    requires op.Put? || Has(r, op.key)
  {
    if op.Put? then Entry(op.key, op.value) else Find(r, op.key)
  }

  lemma TouchStep<K, V>(capacity: nat, ops: seq<Op<K, V>>, r: Cache<K, V>)
    requires ops != [] && r == History(capacity, ops[..|ops| - 1]) && Distinct(r)
    requires Run(capacity, ops[..|ops| - 1]) == Take(r, capacity)
    requires ByRecency(capacity, ops[..|ops| - 1], r)
    requires forall k :: Has(r, k) <==> LastTouch(capacity, ops[..|ops| - 1], k) >= 0
    ensures ByRecency(capacity, ops, History(capacity, ops))
    ensures forall k :: Has(History(capacity, ops), k) <==> LastTouch(capacity, ops, k) >= 0
  {
    var op := ops[|ops| - 1];
    if op.Put? || Has(Take(r, capacity), op.key) {
      if op.Get? { WindowFind(r, capacity, op.key); }
      FrontOrder(capacity, ops, r, Touched(r, op));
      forall k
        ensures Has(History(capacity, ops), k) <==> LastTouch(capacity, ops, k) >= 0
      {
        FrontKeys(r, Touched(r, op), k);
      }
    }
  }

  lemma WithoutOrder<K, V>(capacity: nat, ops: seq<Op<K, V>>, r: Cache<K, V>, k: K)
    requires Distinct(r) && ByRecency(capacity, ops, r)
    ensures ByRecency(capacity, ops, Without(r, k))
  {
    if Has(r, k) {
      var i := Locate(r, k);
      CutOrder(capacity, ops, r, i);
    } else {
      WithoutContents(r, k);
    }
  }

  lemma CutOrder<K, V>(capacity: nat, ops: seq<Op<K, V>>, r: Cache<K, V>, i: nat)
    requires ByRecency(capacity, ops, r) && i < |r|
    ensures ByRecency(capacity, ops, r[..i] + r[i + 1..])
  {
    var w := r[..i] + r[i + 1..];
    assert forall j :: 0 <= j < |w| ==> w[j] == r[if j < i then j else j + 1];
  }

  lemma FrontOrder<K, V>(capacity: nat, ops: seq<Op<K, V>>, r: Cache<K, V>, e: Entry<K, V>)
    requires ops != [] && Distinct(r) && e.key == ops[|ops| - 1].key
    requires ops[|ops| - 1].Put? || Has(Run(capacity, ops[..|ops| - 1]), e.key)
    requires ByRecency(capacity, ops[..|ops| - 1], r)
    ensures ByRecency(capacity, ops, [e] + Without(r, e.key))
  {
    var before, w := ops[..|ops| - 1], Without(r, e.key);
    WithoutOrder(capacity, before, r, e.key);
    WithoutContents(r, e.key);
    assert LastTouch(capacity, ops, e.key) == |before|;
    forall j | 0 <= j < |w|
      ensures LastTouch(capacity, ops, w[j].key) == LastTouch(capacity, before, w[j].key) < |before|
    {
      TouchInTrace(capacity, before, w[j].key);
    }
  }

  lemma FrontKeys<K, V>(r: Cache<K, V>, e: Entry<K, V>, k: K)
    ensures Has([e] + Without(r, e.key), k) <==> k == e.key || Has(r, k)
  {
    KeptKeys(r, e.key, k);
    var w := Without(r, e.key);
    var h := [e] + w;
    assert h[0].key == e.key;
    if i :| 0 <= i < |w| && w[i].key == k {
      assert h[i + 1].key == k;
    }
  }

  lemma KeptKeys<K, V>(s: Cache<K, V>, k: K, other: K)
    ensures Has(Without(s, k), other) <==> Has(s, other) && other != k
  {
    WithoutContents(s, k);
    var w := Without(s, k);
    if i :| 0 <= i < |s| && s[i].key == other && other != k {
      assert s[i] in w;
      var j :| 0 <= j < |w| && w[j] == s[i];
    }
    if j :| 0 <= j < |w| && w[j].key == other {
      assert w[j] in s;
      var i :| 0 <= i < |s| && s[i] == w[j];
    }
  }

  lemma LastPutStays<K, V>(ops: seq<Op<K, V>>, op: Op<K, V>, k: K, v: V)
    requires LastPut(ops, k, v) && !(op.Put? && op.key == k)
    ensures LastPut(ops + [op], k, v)
  {
    var i :| 0 <= i < |ops| && ops[i] == Put(k, v) && forall j :: i < j < |ops| && ops[j].Put? ==> ops[j].key != k;
    assert (ops + [op])[i] == Put(k, v);
  }

  /** An entry of the history was put by the last call or was there before it. */
  lemma HistoryOrigin<K, V>(capacity: nat, ops: seq<Op<K, V>>, e: Entry<K, V>)
    requires e in History(capacity, ops)
    ensures ops != []
    ensures var op := ops[|ops| - 1];
            op == Put(e.key, e.value) || (e in History(capacity, ops[..|ops| - 1]) && !(op.Put? && op.key == e.key))
  {
    var before, op := ops[..|ops| - 1], ops[|ops| - 1];
    var r := History(capacity, before);
    WithoutContents(r, op.key);
    if op.Get? && Has(Take(r, capacity), op.key) {
      RunIsWindow(capacity, before);
      WindowFind(r, capacity, op.key);
    }
  }

  /** Every entry ever touched carries the last value put to its key. */
  lemma {:induction false} HistoryValues<K, V>(capacity: nat, ops: seq<Op<K, V>>, e: Entry<K, V>)
    requires e in History(capacity, ops)
    ensures LastPut(ops, e.key, e.value)
  {
    HistoryOrigin(capacity, ops, e);
    var before, op := ops[..|ops| - 1], ops[|ops| - 1];
    if op == Put(e.key, e.value) {
      assert ops[|before|] == Put(e.key, e.value);
    } else {
      HistoryValues(capacity, before, e);
      LastPutStays(before, op, e.key, e.value);
      assert ops == before + [op];
    }
  }

  /**
    Every trace, every capacity: the cache holds at most `capacity` entries with distinct keys,
    in order of last touch, each with the last value put to its key; and a key is in it exactly
    when it stands in the history within the capacity.
  */
  lemma TraceLaw<K, V>(capacity: nat, ops: seq<Op<K, V>>)
    ensures Distinct(Run(capacity, ops)) && |Run(capacity, ops)| <= capacity
    ensures ByRecency(capacity, ops, Run(capacity, ops))
    ensures forall e :: e in Run(capacity, ops) ==> LastPut(ops, e.key, e.value)
    ensures Run(capacity, ops) == Take(History(capacity, ops), capacity)
    ensures forall k :: Has(History(capacity, ops), k) <==> LastTouch(capacity, ops, k) >= 0
  {
    RunKeeps(capacity, ops);
    RunIsWindow(capacity, ops);
    HistoryByRecency(capacity, ops);
    forall e | e in Run(capacity, ops)
      ensures LastPut(ops, e.key, e.value)
    {
      HistoryValues(capacity, ops, e);
    }
  }

  /** The keys touched after the last touch of k. */
  ghost function Later<K, V>(capacity: nat, ops: seq<Op<K, V>>, k: K): set<K> {
    set i | 0 <= i < |ops| && LastTouch(capacity, ops, ops[i].key) > LastTouch(capacity, ops, k) :: ops[i].key
  }

  ghost function Keys<K, V>(s: Cache<K, V>): set<K> { set i | 0 <= i < |s| :: s[i].key }

  lemma {:induction false} KeyCount<K, V>(s: Cache<K, V>)
    requires Distinct(s)
    ensures |Keys(s)| == |s|
  {
    if s != [] {
      var front, last := s[..|s| - 1], s[|s| - 1].key;
      KeyCount(front);
      assert Keys(s) == Keys(front) + {last};
      assert last !in Keys(front);
    } else {
      assert Keys(s) == {};
    }
  }

  /** r lists touched keys, each once, most recent first. */
  ghost predicate Lists<K, V>(capacity: nat, ops: seq<Op<K, V>>, r: Cache<K, V>) {
    Distinct(r) && ByRecency(capacity, ops, r)
    && forall i :: 0 <= i < |r| ==> LastTouch(capacity, ops, r[i].key) >= 0
  }

  lemma LaterStandsInFront<K, V>(capacity: nat, ops: seq<Op<K, V>>, r: Cache<K, V>, i: nat, x: K)
    requires Lists(capacity, ops, r) && i < |r| && LastTouch(capacity, ops, x) > LastTouch(capacity, ops, r[i].key)
    requires Has(r, x)
    ensures x in Keys(r[..i])
  {
    var j :| 0 <= j < |r| && r[j].key == x;
    assert r[..i][j].key == x;
  }

  lemma FrontIsLater<K, V>(capacity: nat, ops: seq<Op<K, V>>, r: Cache<K, V>, i: nat, j: nat)
    requires Lists(capacity, ops, r) && j < i < |r|
    ensures r[j].key in Later(capacity, ops, r[i].key)
  {
    var x := r[j].key;
    TouchInTrace(capacity, ops, x);
    assert ops[LastTouch(capacity, ops, x)].key == x;
  }

  /** The keys in front of the i-th are those touched after it. */
  lemma LaterIsFront<K, V>(capacity: nat, ops: seq<Op<K, V>>, r: Cache<K, V>, i: nat)
    requires Lists(capacity, ops, r) && i < |r| && forall k :: LastTouch(capacity, ops, k) >= 0 ==> Has(r, k)
    ensures Later(capacity, ops, r[i].key) == Keys(r[..i])
  {
    forall x | x in Later(capacity, ops, r[i].key)
      ensures x in Keys(r[..i])
    {
      LaterStandsInFront(capacity, ops, r, i, x);
    }
    forall x | x in Keys(r[..i])
      ensures x in Later(capacity, ops, r[i].key)
    {
      var j :| 0 <= j < i && r[..i][j].key == x;
      FrontIsLater(capacity, ops, r, i, j);
    }
  }

  lemma WindowHas<K, V>(r: Cache<K, V>, n: nat, i: nat)
    requires Distinct(r) && i < |r|
    ensures Has(Take(r, n), r[i].key) <==> i < n
  {
    if i < n { assert Take(r, n)[i] == r[i]; }
  }

  lemma ListedIff<K, V>(capacity: nat, ops: seq<Op<K, V>>, r: Cache<K, V>, i: nat)
    requires Lists(capacity, ops, r) && i < |r| && forall k :: LastTouch(capacity, ops, k) >= 0 ==> Has(r, k)
    ensures Has(Take(r, capacity), r[i].key) <==> |Later(capacity, ops, r[i].key)| < capacity
  {
    LaterIsFront(capacity, ops, r, i);
    KeyCount(r[..i]);
    WindowHas(r, capacity, i);
  }

  /** A key is in the cache exactly when it was touched and fewer than `capacity` keys were touched
      after it. */
  lemma CachedIff<K, V>(capacity: nat, ops: seq<Op<K, V>>, k: K)
    ensures Has(Run(capacity, ops), k) <==>
            LastTouch(capacity, ops, k) >= 0 && |Later(capacity, ops, k)| < capacity
  {
    var r := History(capacity, ops);
    RunIsWindow(capacity, ops);
    HistoryByRecency(capacity, ops);
    forall i | 0 <= i < |r|
      ensures LastTouch(capacity, ops, r[i].key) >= 0
    {
      assert Has(r, r[i].key);
    }
    TouchedOrNot(capacity, ops, r, k);
  }

  lemma TouchedOrNot<K, V>(capacity: nat, ops: seq<Op<K, V>>, r: Cache<K, V>, k: K)
    requires Lists(capacity, ops, r) && forall k :: LastTouch(capacity, ops, k) >= 0 ==> Has(r, k)
    ensures Has(Take(r, capacity), k) <==> LastTouch(capacity, ops, k) >= 0 && |Later(capacity, ops, k)| < capacity
  {
    if i :| 0 <= i < |r| && r[i].key == k {
      ListedIff(capacity, ops, r, i);
    }
  }

  /** A put of a new key into a full cache drops one entry: the one touched longest ago. */
  lemma EvictsOldest<K, V>(capacity: nat, ops: seq<Op<K, V>>, k: K, v: V)
    requires |Run(capacity, ops)| == capacity > 0 && !Has(Run(capacity, ops), k)
    ensures var s := Run(capacity, ops);
            && Run(capacity, ops + [Put(k, v)]) == [Entry(k, v)] + s[..capacity - 1]
            && forall i :: 0 <= i < capacity - 1 ==>
                 LastTouch(capacity, ops, s[i].key) > LastTouch(capacity, ops, s[capacity - 1].key)
  {
    assert (ops + [Put(k, v)])[..|ops|] == ops;
    TraceLaw(capacity, ops);
    WithoutContents(Run(capacity, ops), k);
  }

  // ---------- counters ----------

  /** Puts that found their key absent. */
  function Insertions<K(==), V>(capacity: nat, ops: seq<Op<K, V>>): nat {
    if ops == [] then 0
    else
      var before, op := ops[..|ops| - 1], ops[|ops| - 1];
      Insertions(capacity, before) + if op.Put? && !Has(Run(capacity, before), op.key) then 1 else 0
  }

  /** Puts that found their key absent and the cache full. */
  function Evictions<K(==), V>(capacity: nat, ops: seq<Op<K, V>>): nat {
    if ops == [] then 0
    else
      var before, op := ops[..|ops| - 1], ops[|ops| - 1];
      var s := Run(capacity, before);
      Evictions(capacity, before) + if op.Put? && !Has(s, op.key) && |s| == capacity then 1 else 0
  }

  /** Every inserted key is still there or was evicted. */
  lemma {:induction false} EvictionsBalance<K, V>(capacity: nat, ops: seq<Op<K, V>>)
    ensures Evictions(capacity, ops) + |Run(capacity, ops)| == Insertions(capacity, ops)
  {
    if ops != [] {
      var before, op := ops[..|ops| - 1], ops[|ops| - 1];
      EvictionsBalance(capacity, before);
      RunKeeps(capacity, before);
      WithoutDistinct(Run(capacity, before), op.key);
      WithoutContents(Run(capacity, before), op.key);
    }
  }

  // ---------- a larger cache includes a smaller one ----------

  /** a is obtained from b by leaving entries out. */
  ghost predicate Sub<T>(a: seq<T>, b: seq<T>) {
    a == [] || (b != [] && ((a[0] == b[0] && Sub(a[1..], b[1..])) || Sub(a, b[1..])))
  }

  lemma {:induction false} SubMember<T>(a: seq<T>, b: seq<T>, x: T)
    requires Sub(a, b) && x in a
    ensures x in b
  {
    if a[0] == b[0] && Sub(a[1..], b[1..]) {
      if x != a[0] { SubMember(a[1..], b[1..], x); }
    } else {
      SubMember(a, b[1..], x);
    }
  }

  lemma {:induction false} SubLength<T>(a: seq<T>, b: seq<T>)
    requires Sub(a, b)
    ensures |a| <= |b| && (|a| == |b| ==> a == b)
  {
    if a != [] {
      if a[0] == b[0] && Sub(a[1..], b[1..]) {
        SubLength(a[1..], b[1..]);
      } else {
        SubLength(a, b[1..]);
      }
    }
  }

  lemma {:induction false} SubWithout<K, V>(a: Cache<K, V>, b: Cache<K, V>, k: K)
    requires Sub(a, b)
    ensures Sub(Without(a, k), Without(b, k))
    decreases |b|
  {
    if a != [] {
      if a[0] == b[0] && Sub(a[1..], b[1..]) {
        SubWithout(a[1..], b[1..], k);
      } else {
        SubWithout(a, b[1..], k);
      }
    }
  }

  /** Dropping the last entry of the smaller, or of the larger when the smaller is shorter by one. */
  lemma {:induction false} SubInit<T>(a: seq<T>, b: seq<T>)
    requires Sub(a, b) && a != []
    ensures Sub(a[..|a| - 1], b[..|b| - 1])
    decreases |b|
  {
    if a[0] == b[0] && Sub(a[1..], b[1..]) {
      if |a| > 1 {
        SubInit(a[1..], b[1..]);
        assert a[..|a| - 1][1..] == a[1..][..|a| - 2];
        SubLength(a[1..], b[1..]);
        assert b[..|b| - 1][1..] == b[1..][..|b| - 2];
      }
    } else {
      SubInit(a, b[1..]);
      SubLength(a, b[1..]);
      assert b[..|b| - 1][1..] == b[1..][..|b| - 2];
    }
  }

  lemma {:induction false} SubLonger<T>(a: seq<T>, b: seq<T>)
    requires b != [] && Sub(a, b[..|b| - 1])
    ensures Sub(a, b)
    decreases |b|
  {
    if a != [] {
      var c := b[..|b| - 1];
      assert c[1..] == b[1..][..|b| - 2];
      if a[0] == c[0] && Sub(a[1..], c[1..]) {
        SubLonger(a[1..], b[1..]);
      } else {
        SubLonger(a, b[1..]);
      }
    }
  }

  /** What the two caches keep between them: inclusion, and equality until the smaller is full. */
  ghost predicate Includes<K, V>(small: nat, a: Cache<K, V>, b: Cache<K, V>) {
    Sub(a, b) && (|a| < small ==> a == b)
  }

  lemma SharedFind<K, V>(a: Cache<K, V>, b: Cache<K, V>, k: K)
    requires Distinct(a) && Distinct(b) && Sub(a, b) && Has(a, k)
    ensures Has(b, k) && Find(b, k) == Find(a, k)
  {
    var i := Locate(a, k);
    SubMember(a, b, a[i]);
    var j :| 0 <= j < |b| && b[j] == a[i];
    WithoutAt(b, j);
  }

  lemma SubFront<T>(e: T, a: seq<T>, b: seq<T>)
    requires Sub(a, b)
    ensures Sub([e] + a, [e] + b) && Sub(a, [e] + b)
  {
    assert ([e] + a)[1..] == a && ([e] + b)[1..] == b;
  }

  lemma SubTake<T>(x: seq<T>, y: seq<T>, small: nat, large: nat)
    requires Sub(x, y) && |x| <= small + 1 && |y| <= large + 1
    requires |x| <= small ==> |y| <= large
    ensures Sub(Take(x, small), Take(y, large))
  {
    SubLength(x, y);
    if |x| > small {
      SubInit(x, y);
      if |y| <= large { SubLonger(x[..|x| - 1], y); }
    }
  }

  lemma IncludesPut<K, V>(small: nat, large: nat, a: Cache<K, V>, b: Cache<K, V>, k: K, v: V)
    requires small <= large && Distinct(a) && Distinct(b) && |a| <= small && |b| <= large
    requires Includes(small, a, b)
    ensures Includes(small, Step(small, a, Put(k, v)), Step(large, b, Put(k, v)))
  {
    var x, y := [Entry(k, v)] + Without(a, k), [Entry(k, v)] + Without(b, k);
    SubWithout(a, b, k);
    SubFront(Entry(k, v), Without(a, k), Without(b, k));
    WithoutContents(a, k);
    WithoutContents(b, k);
    WithoutDistinct(a, k);
    WithoutDistinct(b, k);
    if Has(a, k) { SharedFind(a, b, k); }
    SubTake(x, y, small, large);
  }

  lemma IncludesGet<K, V>(small: nat, large: nat, a: Cache<K, V>, b: Cache<K, V>, k: K)
    requires small <= large && Distinct(a) && Distinct(b) && |a| <= small && |b| <= large
    requires Includes(small, a, b)
    ensures Includes(small, Step(small, a, Get(k)), Step(large, b, Get(k)))
  {
    SubWithout(a, b, k);
    WithoutContents(a, k);
    WithoutDistinct(a, k);
    if Has(a, k) {
      SharedFind(a, b, k);
      SubFront(Find(a, k), Without(a, k), Without(b, k));
    } else if Has(b, k) {
      SubFront(Find(b, k), a, Without(b, k));
    }
  }

  /** On any shared trace the smaller cache is the larger one with entries left out, so the larger
      hits whenever the smaller does, and with the same value. */
  lemma {:induction false} LargerIncludesSmaller<K, V>(small: nat, large: nat, ops: seq<Op<K, V>>)
    requires small <= large
    ensures Includes(small, Run(small, ops), Run(large, ops))
    ensures forall k :: Has(Run(small, ops), k) ==>
              Has(Run(large, ops), k) && Find(Run(large, ops), k) == Find(Run(small, ops), k)
  {
    RunKeeps(small, ops);
    RunKeeps(large, ops);
    if ops != [] {
      var before := ops[..|ops| - 1];
      LargerIncludesSmaller(small, large, before);
      RunKeeps(small, before);
      RunKeeps(large, before);
      match ops[|ops| - 1]
      case Get(k) => IncludesGet(small, large, Run(small, before), Run(large, before), k);
      case Put(k, v) => IncludesPut(small, large, Run(small, before), Run(large, before), k, v);
    }
    forall k | Has(Run(small, ops), k)
      ensures Has(Run(large, ops), k) && Find(Run(large, ops), k) == Find(Run(small, ops), k)
    {
      SharedFind(Run(small, ops), Run(large, ops), k);
    }
  }

  // ---------- what a use guarantees ----------

  function Used<K, V>(ops: seq<Op<K, V>>): set<K> { set j | 0 <= j < |ops| :: ops[j].key }

  /** Entry e at place i, with only these keys in front of it. */
  predicate Stands<K(==), V(==)>(s: Cache<K, V>, e: Entry<K, V>, i: nat, ahead: set<K>) {
    i < |s| && s[i] == e && forall j :: 0 <= j < i ==> s[j].key in ahead
  }

  lemma {:induction false} Crowd<K, V>(s: Cache<K, V>, i: nat, ahead: set<K>)
    requires Distinct(s) && i <= |s| && forall j :: 0 <= j < i ==> s[j].key in ahead
    ensures i <= |ahead|
  {
    if i > 0 { Crowd(s, i - 1, ahead - {s[i - 1].key}); }
  }

  lemma CutStands<K, V>(s: Cache<K, V>, e: Entry<K, V>, i: nat, ahead: set<K>, p: nat) returns (n: nat)
    requires Stands(s, e, i, ahead) && p < |s| && p != i
    ensures Stands(s[..p] + s[p + 1..], e, n, ahead)
  {
    n := if p < i then i - 1 else i;
  }

  lemma PushStands<K, V>(s: Cache<K, V>, f: Entry<K, V>, e: Entry<K, V>, i: nat, ahead: set<K>)
    requires Stands(s, e, i, ahead)
    ensures Stands([f] + s, e, i + 1, ahead + {f.key})
  {
  }

  /** Another entry at the front moves it back by one place at most, and only for a new key. */
  lemma Overtaken<K, V>(s: Cache<K, V>, f: Entry<K, V>, e: Entry<K, V>, i: nat, ahead: set<K>) returns (n: nat)
    requires Distinct(s) && Stands(s, e, i, ahead) && f.key != e.key
    ensures Stands([f] + Without(s, f.key), e, n, ahead + {f.key})
  {
    n := i;
    if Has(s, f.key) {
      var p := Locate(s, f.key);
      n := CutStands(s, e, i, ahead, p);
    } else {
      WithoutContents(s, f.key);
    }
    PushStands(Without(s, f.key), f, e, n, ahead);
    n := n + 1;
  }

  /** The keys used but for k, with one more call. */
  lemma UsedSnoc<K, V>(ops: seq<Op<K, V>>, op: Op<K, V>, k: K)
    ensures Used(ops + [op]) - {k} == (Used(ops) - {k} + {op.key}) - {k}
    ensures |Used(ops) - {k}| <= |Used(ops + [op]) - {k}|
  {
    assert forall j :: 0 <= j < |ops| ==> (ops + [op])[j] == ops[j];
    assert (ops + [op])[|ops|] == op;
    Smaller(Used(ops) - {k}, Used(ops + [op]) - {k});
  }

  /** One more call: unless it puts the same key, the entry is still there as long as fewer than
      `capacity` keys can be in front of it. */
  lemma StepStands<K, V>(capacity: nat, s: Cache<K, V>, op: Op<K, V>, e: Entry<K, V>, i: nat, ahead: set<K>) returns (n: nat)
    requires Distinct(s) && |s| <= capacity && Stands(s, e, i, ahead) && (op.key == e.key ==> op.Get?)
    requires e.key !in ahead && |(ahead + {op.key}) - {e.key}| < capacity
    ensures Stands(Step(capacity, s, op), e, n, (ahead + {op.key}) - {e.key})
  {
    var more := (ahead + {op.key}) - {e.key};
    if op.key == e.key {
      WithoutAt(s, i);
      n := 0;
    } else if op.Get? && !Has(s, op.key) {
      n := i;
    } else {
      var f := if op.Put? then Entry(op.key, op.value) else Find(s, op.key);
      n := Overtaken(s, f, e, i, ahead);
      assert ahead + {op.key} == more;
      FrontDistinct(s, f);
      Crowd([f] + Without(s, f.key), n, more);
    }
  }

  lemma {:induction false} RunStands<K, V>(capacity: nat, before: seq<Op<K, V>>, e: Entry<K, V>, later: seq<Op<K, V>>) returns (n: nat)
    requires Stands(Run(capacity, before), e, 0, {})
    requires forall j :: 0 <= j < |later| && later[j].key == e.key ==> later[j].Get?
    requires |Used(later) - {e.key}| < capacity
    ensures Stands(Run(capacity, before + later), e, n, Used(later) - {e.key})
    decreases |later|
  {
    if later == [] {
      assert before + later == before;
      n := 0;
    } else {
      var front, op := later[..|later| - 1], later[|later| - 1];
      assert later == front + [op];
      UsedSnoc(front, op, e.key);
      n := RunStands(capacity, before, e, front);
      Continued(capacity, before, front, op);
      RunKeeps(capacity, before + front);
      n := StepStands(capacity, Run(capacity, before + front), op, e, n, Used(front) - {e.key});
    }
  }

  lemma Continued<K, V>(capacity: nat, before: seq<Op<K, V>>, front: seq<Op<K, V>>, op: Op<K, V>)
    ensures Run(capacity, before + (front + [op])) == Step(capacity, Run(capacity, before + front), op)
  {
    var all := before + (front + [op]);
    assert all[..|all| - 1] == before + front && all[|all| - 1] == op;
  }

  lemma {:induction false} Smaller<T>(a: set<T>, b: set<T>)
    requires a <= b
    ensures |a| <= |b|
  {
    if x :| x in a { Smaller(a - {x}, b - {x}); }
  }

  /** A key that was just put, or got with success, keeps its value in the cache until it is put again or
      `capacity` other keys have been used. */
  lemma UsedKeySurvives<K, V>(capacity: nat, ops: seq<Op<K, V>>, op: Op<K, V>, later: seq<Op<K, V>>)
    requires op.Get? ==> Has(Run(capacity, ops), op.key)
    requires forall j :: 0 <= j < |later| && later[j].key == op.key ==> later[j].Get?
    requires |Used(later) - {op.key}| < capacity
    ensures var s := Run(capacity, ops + [op] + later);
            Has(s, op.key)
            && Find(s, op.key).value == if op.Put? then op.value else Find(Run(capacity, ops), op.key).value
  {
    var s := Run(capacity, ops);
    var e := if op.Put? then Entry(op.key, op.value) else Find(s, op.key);
    assert (ops + [op])[..|ops|] == ops;
    assert Stands(Run(capacity, ops + [op]), e, 0, {});
    var n := RunStands(capacity, ops + [op], e, later);
    RunKeeps(capacity, ops + [op] + later);
    WithoutAt(Run(capacity, ops + [op] + later), n);
  }
}
