/** `SlidingWindowLog` of os_net/operating_system/examples/rate_limiter.py, with the clock as an input. */
module SlidingWindow {

  datatype Config = Config(limit: int, window: real)

  /** Evict from the front what has slid out. */
  function Prune(events: seq<real>, cutoff: real): (r: seq<real>)
    ensures |r| <= |events|
  {
    if events != [] && events[0] <= cutoff then Prune(events[1..], cutoff) else events
  }

  predicate Allowed(c: Config, events: seq<real>, now: real) { |Prune(events, now - c.window)| < c.limit }

  function Step(c: Config, events: seq<real>, now: real): seq<real> {
    var kept := Prune(events, now - c.window);
    if Allowed(c, events, now) then kept + [now] else kept
  }

  function Front(s: seq<real>): seq<real>
    requires s != []
  {
    s[..|s| - 1]
  }

  function Last(s: seq<real>): real
    requires s != []
  {
    s[|s| - 1]
  }

  /** The deque after calls at these times. */
  function Run(c: Config, calls: seq<real>): seq<real> {
    if calls == [] then [] else Step(c, Run(c, Front(calls)), Last(calls))
  }

  /** Every time a call was admitted at, never forgotten. */
  function Admitted(c: Config, calls: seq<real>): seq<real> {
    if calls == [] then []
    else if Allowed(c, Run(c, Front(calls)), Last(calls)) then Admitted(c, Front(calls)) + [Last(calls)]
    else Admitted(c, Front(calls))
  }

  predicate Ordered(s: seq<real>) { s == [] || (UpTo(Front(s), Last(s)) && Ordered(Front(s))) }

  predicate UpTo(s: seq<real>, t: real) { s == [] || (Last(s) <= t && UpTo(Front(s), t)) }

  /** How many of the times lie in (from, to]. */
  function Count(s: seq<real>, from: real, to: real): nat {
    if s == [] then 0 else Count(Front(s), from, to) + if from < Last(s) <= to then 1 else 0
  }

  // ---------- pruning ----------

  lemma {:induction false} PruneTwice(s: seq<real>, a: real, b: real)
    requires a <= b
    ensures Prune(Prune(s, a), b) == Prune(s, b)
  {
    if s != [] && s[0] <= a { PruneTwice(s[1..], a, b); }
  }

  lemma {:induction false} PruneSnoc(s: seq<real>, x: real, cutoff: real)
    ensures Prune(s + [x], cutoff)
         == if Prune(s, cutoff) != [] then Prune(s, cutoff) + [x] else if x <= cutoff then [] else [x]
  {
    if s == [] {
      assert s + [x] == [x] && [x][1..] == [];
    } else if s[0] <= cutoff {
      assert (s + [x])[1..] == s[1..] + [x];
      PruneSnoc(s[1..], x, cutoff);
    }
  }

  /** From this cutoff on, the deque and the history prune to the same. */
  ghost predicate Same(events: seq<real>, history: seq<real>, from: real) {
    forall cutoff: real :: from <= cutoff ==> Prune(events, cutoff) == Prune(history, cutoff)
  }

  lemma SameAt(events: seq<real>, history: seq<real>, from: real, cutoff: real)
    requires Same(events, history, from) && from <= cutoff
    ensures Prune(events, cutoff) == Prune(history, cutoff)
  {
  }

  lemma StepSame(c: Config, events: seq<real>, history: seq<real>, from: real, now: real)
    requires Same(events, history, from) && from <= now - c.window
    ensures Same(Step(c, events, now), if Allowed(c, events, now) then history + [now] else history, now - c.window)
  {
    var kept := Prune(events, now - c.window);
    forall cutoff: real | now - c.window <= cutoff
      ensures Prune(kept, cutoff) == Prune(history, cutoff)
      ensures Prune(kept + [now], cutoff) == Prune(history + [now], cutoff)
    {
      PruneTwice(events, now - c.window, cutoff);
      PruneSnoc(kept, now, cutoff);
      PruneSnoc(history, now, cutoff);
    }
  }

  lemma {:induction false} DequeIsHistory(c: Config, calls: seq<real>)
    requires Ordered(calls)
    ensures calls == [] ==> Run(c, calls) == Admitted(c, calls)
    ensures calls != [] ==> Same(Run(c, calls), Admitted(c, calls), Last(calls) - c.window)
  {
    if calls != [] {
      var before := Front(calls);
      DequeIsHistory(c, before);
      if before == [] {
        assert Same(Run(c, before), Admitted(c, before), Last(calls) - c.window);
        StepSame(c, Run(c, before), Admitted(c, before), Last(calls) - c.window, Last(calls));
      } else {
        assert Last(before) <= Last(calls);
        StepSame(c, Run(c, before), Admitted(c, before), Last(before) - c.window, Last(calls));
      }
    }
  }

  // ---------- counting ----------

  lemma {:induction false} UpToTrans(s: seq<real>, t: real, u: real)
    requires UpTo(s, t) && t <= u
    ensures UpTo(s, u)
  {
    if s != [] { UpToTrans(Front(s), t, u); }
  }

  lemma {:induction false} PruneCounts(s: seq<real>, cutoff: real, now: real)
    requires Ordered(s) && UpTo(s, now)
    ensures |Prune(s, cutoff)| == Count(s, cutoff, now)
  {
    if s != [] {
      PruneCounts(Front(s), cutoff, now);
      assert s == Front(s) + [Last(s)];
      PruneSnoc(Front(s), Last(s), cutoff);
      if Last(s) <= cutoff { NothingBeyond(Front(s), cutoff, now, Last(s)); }
    }
  }

  lemma {:induction false} NothingBeyond(s: seq<real>, cutoff: real, now: real, t: real)
    requires UpTo(s, t) && t <= cutoff
    ensures Count(s, cutoff, now) == 0
  {
    if s != [] { NothingBeyond(Front(s), cutoff, now, t); }
  }

  lemma {:induction false} AdmittedOrdered(c: Config, calls: seq<real>)
    requires Ordered(calls)
    ensures Ordered(Admitted(c, calls)) && (calls != [] ==> UpTo(Admitted(c, calls), Last(calls)))
  {
    if calls != [] {
      var before, now := Front(calls), Last(calls);
      AdmittedOrdered(c, before);
      var h := Admitted(c, before);
      if before != [] { UpToTrans(h, Last(before), now); }
      assert UpTo(h, now);
      assert Front(h + [now]) == h;
    }
  }

  lemma HistoryUpTo(c: Config, calls: seq<real>, now: real)
    requires Ordered(calls) && UpTo(calls, now)
    ensures Ordered(Admitted(c, calls)) && UpTo(Admitted(c, calls), now)
  {
    AdmittedOrdered(c, calls);
    if calls != [] { UpToTrans(Admitted(c, calls), Last(calls), now); }
  }

  lemma CountSnoc(s: seq<real>, x: real, from: real, to: real)
    ensures Count(s + [x], from, to) == Count(s, from, to) + if from < x <= to then 1 else 0
  {
    assert Front(s + [x]) == s;
  }

  /** At the next call the deque prunes to what the history does. */
  lemma DequeAgrees(c: Config, calls: seq<real>, now: real)
    requires Ordered(calls) && UpTo(calls, now)
    ensures Prune(Run(c, calls), now - c.window) == Prune(Admitted(c, calls), now - c.window)
  {
    DequeIsHistory(c, calls);
    if calls != [] {
      SameAt(Run(c, calls), Admitted(c, calls), Last(calls) - c.window, now - c.window);
    }
  }

  lemma HistoryCounts(c: Config, calls: seq<real>, now: real)
    requires Ordered(calls) && UpTo(calls, now)
    ensures |Prune(Admitted(c, calls), now - c.window)| == Count(Admitted(c, calls), now - c.window, now)
  {
    HistoryUpTo(c, calls, now);
    PruneCounts(Admitted(c, calls), now - c.window, now);
  }

  /** The pruned deque answers as a count over the whole history would. */
  lemma AllowedIffCount(c: Config, calls: seq<real>, now: real)
    requires Ordered(calls) && UpTo(calls, now)
    ensures Allowed(c, Run(c, calls), now) <==> Count(Admitted(c, calls), now - c.window, now) < c.limit
  {
    DequeAgrees(c, calls, now);
    HistoryCounts(c, calls, now);
  }

  /** The indices of the times in (from, to]. */
  function Within(s: seq<real>, from: real, to: real): set<int> { set i | 0 <= i < |s| && from < s[i] <= to }

  lemma {:induction false} CountIsSet(s: seq<real>, from: real, to: real)
    ensures Count(s, from, to) == |Within(s, from, to)|
  {
    if s != [] {
      var n := |s| - 1;
      CountIsSet(Front(s), from, to);
      assert forall i :: 0 <= i < n ==> Front(s)[i] == s[i];
      assert Within(s, from, to) == Within(Front(s), from, to) + if from < s[n] <= to then {n} else {};
    }
  }

  /** The next call is admitted exactly when fewer than `limit` admitted ones lie in the window that it ends. */
  lemma AdmittedIffFew(c: Config, calls: seq<real>, now: real)
    requires Ordered(calls) && UpTo(calls, now)
    ensures Admitted(c, calls + [now])
         == Admitted(c, calls) + if |Within(Admitted(c, calls), now - c.window, now)| < c.limit then [now] else []
  {
    assert Front(calls + [now]) == calls;
    AllowedIffCount(c, calls, now);
    CountIsSet(Admitted(c, calls), now - c.window, now);
  }

  lemma {:induction false} CountShrinks(s: seq<real>, from: real, to: real, from': real, to': real)
    requires from' <= from && UpTo(s, to')
    ensures Count(s, from, to) <= Count(s, from', to')
  {
    if s != [] { CountShrinks(Front(s), from, to, from', to'); }
  }

  /** In every window, wherever it ends, at most `limit` calls were admitted. */
  lemma {:induction false} NoWindowExceeds(c: Config, calls: seq<real>, t: real)
    requires Ordered(calls) && c.limit >= 0
    ensures |Within(Admitted(c, calls), t - c.window, t)| == Count(Admitted(c, calls), t - c.window, t) <= c.limit
  {
    CountIsSet(Admitted(c, calls), t - c.window, t);
    if calls != [] {
      var before, now := Front(calls), Last(calls);
      NoWindowExceeds(c, before, t);
      AllowedIffCount(c, before, now);
      HistoryUpTo(c, before, now);
      var h := Admitted(c, before);
      CountSnoc(h, now, t - c.window, t);
      if Allowed(c, Run(c, before), now) && now <= t {
        CountShrinks(h, t - c.window, t, now - c.window, now);
      }
    }
  }

  class SlidingWindowLog {
    const c: Config
    var events: seq<real>

    constructor (limit: int, window: real)
      ensures c == Config(limit, window) && events == Run(c, [])
    {
      c := Config(limit, window);
      events := [];
    }

    method Allow(now: real) returns (ok: bool)
      modifies this
      ensures ok == Allowed(c, old(events), now) && events == Step(c, old(events), now)
    {
      var cutoff := now - c.window;
      while events != [] && events[0] <= cutoff
        invariant Prune(events, cutoff) == Prune(old(events), cutoff)
        decreases |events|
      {
        events := events[1..];
      }
      if |events| < c.limit {
        events := events + [now];
        return true;
      }
      return false;
    }
  }
}
