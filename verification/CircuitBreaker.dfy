/**
  The circuit breaker of os_net/operating_system/examples/circuit_breaker.py. Each of its three critical
  sections is one step; any number of threads interleave them, and a call that was admitted long ago may
  report its result in any later state.
*/
module CircuitBreaker {

  datatype Config = Config(failThreshold: int, cooldown: real, successThreshold: int)

  datatype Mode = Closed | Open | HalfOpen

  datatype Breaker = Breaker(mode: Mode, failures: int, successes: int, openedAt: real, rejected: nat)

  /** A step, with the clock as read under the lock. */
  datatype Event = Admit(now: real) | Success(now: real) | Failure(now: real)

  const FRESH: Breaker := Breaker(Closed, 0, 0, 0.0, 0)

  /** The admission check lets the call through. */
  predicate Admits(c: Config, b: Breaker, now: real) {
    b.mode == Open ==> now - b.openedAt >= c.cooldown
  }

  function OnAdmit(c: Config, b: Breaker, now: real): Breaker {
    if b.mode != Open then b
    else if Admits(c, b, now) then b.(mode := HalfOpen, successes := 0)
    else b.(rejected := b.rejected + 1)
  }

  function OnSuccess(c: Config, b: Breaker): Breaker {
    if b.mode == HalfOpen then
      if b.successes + 1 >= c.successThreshold then b.(mode := Closed, failures := 0, successes := b.successes + 1)
      else b.(successes := b.successes + 1)
    else b.(failures := 0)
  }

  /** The failure sends the breaker to OPEN, or restarts its cooldown. */
  predicate Trips(c: Config, b: Breaker) {
    b.mode == HalfOpen || b.failures + 1 >= c.failThreshold
  }

  function OnFailure(c: Config, b: Breaker, now: real): Breaker {
    if b.mode == HalfOpen then b.(mode := Open, openedAt := now)
    else
      var counted := b.(failures := b.failures + 1);
      if Trips(c, b) then counted.(mode := Open, openedAt := now) else counted
  }

  function Step(c: Config, b: Breaker, e: Event): Breaker {
    match e
    case Admit(now) => OnAdmit(c, b, now)
    case Success(_) => OnSuccess(c, b)
    case Failure(now) => OnFailure(c, b, now)
  }

  function Front(ev: seq<Event>): seq<Event>
    requires ev != []
  {
    ev[..|ev| - 1]
  }

  function Last(ev: seq<Event>): Event
    requires ev != []
  {
    ev[|ev| - 1]
  }

  /** The breaker after a run. */
  function After(c: Config, ev: seq<Event>): Breaker {
    if ev == [] then FRESH else Step(c, After(c, Front(ev)), Last(ev))
  }

  lemma AfterNext(c: Config, ev: seq<Event>, k: nat)
    requires k < |ev|
    ensures After(c, ev[..k + 1]) == Step(c, After(c, ev[..k]), ev[k])
  {
    assert Front(ev[..k + 1]) == ev[..k];
  }

  predicate Ordered(ev: seq<Event>) { forall i, j :: 0 <= i < j < |ev| ==> ev[i].now <= ev[j].now }

  // ---------- nothing is admitted during a cooldown ----------

  predicate TripsAt(c: Config, ev: seq<Event>, k: nat) {
    k < |ev| && ev[k].Failure? && Trips(c, After(c, ev[..k]))
  }

  lemma {:induction false} StaysOpen(c: Config, ev: seq<Event>, k: nat, j: nat)
    requires Ordered(ev) && TripsAt(c, ev, k) && k < j <= |ev|
    requires j == k + 1 || ev[j - 1].now < ev[k].now + c.cooldown
    ensures After(c, ev[..j]).mode == Open && After(c, ev[..j]).openedAt >= ev[k].now
    decreases j
  {
    AfterNext(c, ev, j - 1);
    if j > k + 1 {
      StaysOpen(c, ev, k, j - 1);
    }
  }

  /** After a trip at time t, by whatever thread, no call is admitted before t + cooldown. */
  lemma NoAdmissionDuringCooldown(c: Config, ev: seq<Event>, k: nat, j: nat)
    requires Ordered(ev) && TripsAt(c, ev, k) && k < j < |ev|
    requires ev[j].Admit? && ev[j].now < ev[k].now + c.cooldown
    ensures !Admits(c, After(c, ev[..j]), ev[j].now)
    ensures After(c, ev[..j + 1]) == After(c, ev[..j]).(rejected := After(c, ev[..j]).rejected + 1)
  {
    StaysOpen(c, ev, k, j);
    AfterNext(c, ev, j);
  }

  /** OPEN is left only by an admission, for HALF_OPEN, and only when the cooldown of every failure
      that tripped or re-tripped before is over. */
  lemma OnlyAdmissionLeavesOpen(c: Config, ev: seq<Event>, j: nat)
    requires Ordered(ev) && j < |ev| && After(c, ev[..j]).mode == Open && After(c, ev[..j + 1]).mode != Open
    ensures ev[j].Admit? && After(c, ev[..j + 1]).mode == HalfOpen
    ensures forall k :: 0 <= k < j && TripsAt(c, ev, k) ==> ev[j].now >= ev[k].now + c.cooldown
  {
    AfterNext(c, ev, j);
    forall k | 0 <= k < j && TripsAt(c, ev, k)
      ensures ev[j].now >= ev[k].now + c.cooldown
    {
      if ev[j].now < ev[k].now + c.cooldown { StaysOpen(c, ev, k, j + 1); }
    }
  }

  // ---------- when OPEN admits ----------

  /** The last failure that tripped or re-tripped. */
  predicate LastTrip(c: Config, ev: seq<Event>, k: nat) {
    TripsAt(c, ev, k) && forall j :: k < j < |ev| ==> !TripsAt(c, ev, j)
  }

  lemma SameTrips(c: Config, ev: seq<Event>, j: nat)
    requires j < |ev| - 1
    ensures TripsAt(c, ev, j) <==> TripsAt(c, Front(ev), j)
  {
    assert Front(ev)[..j] == ev[..j];
  }

  /** OPEN dates from the last tripping failure. */
  lemma {:induction false} OpenSince(c: Config, ev: seq<Event>) returns (k: nat)
    requires After(c, ev).mode == Open
    ensures LastTrip(c, ev, k) && After(c, ev).openedAt == ev[k].now
  {
    var n := |ev| - 1;
    assert ev[..n] == Front(ev);
    k := n;
    if !TripsAt(c, ev, n) {
      k := OpenSince(c, Front(ev));
      forall j | 0 <= j < n
        ensures TripsAt(c, ev, j) <==> TripsAt(c, Front(ev), j)
      {
        SameTrips(c, ev, j);
      }
    }
  }

  /** OPEN admits a call, and goes to HALF_OPEN for it, exactly when the cooldown since the last tripping
      failure is over, whatever was rejected before; otherwise it only counts the rejection. */
  lemma OpenAdmitsIff(c: Config, ev: seq<Event>, now: real, k: nat)
    requires After(c, ev).mode == Open && LastTrip(c, ev, k)
    ensures Admits(c, After(c, ev), now) <==> now - ev[k].now >= c.cooldown
    ensures After(c, ev + [Admit(now)]) ==
            if now - ev[k].now >= c.cooldown then After(c, ev).(mode := HalfOpen, successes := 0)
            else After(c, ev).(rejected := After(c, ev).rejected + 1)
  {
    var t := OpenSince(c, ev);
    assert t == k;
    assert Front(ev + [Admit(now)]) == ev;
  }

  /** Any other state admits every call and is not changed by it. */
  lemma OthersAdmit(c: Config, ev: seq<Event>, now: real)
    requires After(c, ev).mode != Open
    ensures Admits(c, After(c, ev), now) && After(c, ev + [Admit(now)]) == After(c, ev)
  {
    assert Front(ev + [Admit(now)]) == ev;
  }

  /** An admission check that leaves OPEN as it is. */
  predicate RejectsAt(c: Config, ev: seq<Event>, i: nat) {
    i < |ev| && ev[i].Admit? && After(c, ev[..i]).mode == Open && After(c, ev[..i + 1]).mode == Open
  }

  ghost function Rejections(c: Config, ev: seq<Event>): set<int> {
    set i | 0 <= i < |ev| && RejectsAt(c, ev, i)
  }

  lemma SameRejects(c: Config, ev: seq<Event>, i: nat)
    requires i < |ev| - 1
    ensures RejectsAt(c, ev, i) <==> RejectsAt(c, Front(ev), i)
  {
    assert Front(ev)[..i] == ev[..i] && Front(ev)[..i + 1] == ev[..i + 1];
  }

  lemma RejectionsGrow(c: Config, ev: seq<Event>, n: nat)
    requires |ev| == n + 1
    ensures n !in Rejections(c, Front(ev))
    ensures Rejections(c, ev) == Rejections(c, Front(ev)) + if RejectsAt(c, ev, n) then {n} else {}
  {
    forall i | 0 <= i < n
      ensures RejectsAt(c, ev, i) <==> RejectsAt(c, Front(ev), i)
    {
      SameRejects(c, ev, i);
    }
  }

  lemma LastRejects(c: Config, ev: seq<Event>, n: nat)
    requires |ev| == n + 1
    ensures After(c, ev).rejected == After(c, Front(ev)).rejected + if RejectsAt(c, ev, n) then 1 else 0
  {
    assert ev[..n] == Front(ev) && ev[..n + 1] == ev;
  }

  /** The metric counts the rejected calls. */
  lemma {:induction false} RejectedCounts(c: Config, ev: seq<Event>)
    ensures After(c, ev).rejected == |Rejections(c, ev)|
  {
    if ev != [] {
      RejectedCounts(c, Front(ev));
      RejectionsGrow(c, ev, |ev| - 1);
      LastRejects(c, ev, |ev| - 1);
    }
  }

  // ---------- the failure counter in every state ----------

  /** A success met outside HALF_OPEN, or one that closes. */
  predicate ResetsAt(c: Config, ev: seq<Event>, i: nat) {
    i < |ev| && ev[i].Success? && (After(c, ev[..i]).mode == HalfOpen ==> After(c, ev[..i + 1]).mode == Closed)
  }

  /** A failure met outside HALF_OPEN. */
  predicate CountsAt(c: Config, ev: seq<Event>, i: nat) {
    i < |ev| && ev[i].Failure? && After(c, ev[..i]).mode != HalfOpen
  }

  /** The failures that count, back to the last reset. */
  function Consecutive(c: Config, ev: seq<Event>): nat {
    if ev == [] || ResetsAt(c, ev, |ev| - 1) then 0
    else Consecutive(c, Front(ev)) + if CountsAt(c, ev, |ev| - 1) then 1 else 0
  }

  lemma {:induction false} FailuresCount(c: Config, ev: seq<Event>)
    ensures After(c, ev).failures == Consecutive(c, ev)
  {
    if ev != [] {
      FailuresCount(c, Front(ev));
      assert ev[..|ev| - 1] == Front(ev) && ev[..|ev|] == ev;
    }
  }

  /** A late failure met in OPEN restarts the cooldown exactly when the count reaches the threshold again:
      a late success met there has reset it. */
  lemma OpenRetripsIff(c: Config, ev: seq<Event>, now: real)
    requires After(c, ev).mode == Open
    ensures var b := After(c, ev + [Failure(now)]);
            b.mode == Open && b.openedAt == if Consecutive(c, ev) + 1 >= c.failThreshold then now else After(c, ev).openedAt
  {
    assert Front(ev + [Failure(now)]) == ev;
    FailuresCount(c, ev);
  }

  // ---------- CLOSED counts consecutive failures ----------

  /** The run of failures at the end of the completions. */
  function Trailing(ev: seq<Event>): nat {
    if ev == [] || Last(ev).Success? then 0
    else Trailing(Front(ev)) + if Last(ev).Failure? then 1 else 0
  }

  lemma {:induction false} ClosedCounts(c: Config, ev: seq<Event>)
    requires c.failThreshold >= 1
    ensures After(c, ev).mode == Closed ==> After(c, ev).failures == Trailing(ev) < c.failThreshold
  {
    if ev != [] { ClosedCounts(c, Front(ev)); }
  }

  /** CLOSED trips exactly when the trailing run of failures reaches the threshold. */
  lemma ClosedTripsIff(c: Config, ev: seq<Event>, now: real)
    requires c.failThreshold >= 1 && After(c, ev).mode == Closed
    ensures After(c, ev + [Failure(now)]).mode == Open <==> Trailing(ev + [Failure(now)]) == c.failThreshold
  {
    assert Front(ev + [Failure(now)]) == ev;
    ClosedCounts(c, ev);
  }

  // ---------- HALF_OPEN closes after enough successes ----------

  predicate EntersAt(c: Config, ev: seq<Event>, k: nat) {
    k < |ev| && ev[k].Admit? && After(c, ev[..k]).mode == Open && After(c, ev[..k + 1]).mode == HalfOpen
  }

  predicate NoFailure(ev: seq<Event>) { ev == [] || (!Last(ev).Failure? && NoFailure(Front(ev))) }

  function Successes(ev: seq<Event>): nat {
    if ev == [] then 0 else Successes(Front(ev)) + if Last(ev).Success? then 1 else 0
  }

  /** HALF_OPEN was entered by an admission; since then nothing failed and it counts the successes. */
  lemma {:induction false} HalfOpenCounts(c: Config, ev: seq<Event>) returns (k: nat)
    requires After(c, ev).mode == HalfOpen
    ensures EntersAt(c, ev, k) && NoFailure(ev[k + 1..])
    ensures After(c, ev).successes == Successes(ev[k + 1..])
    ensures c.successThreshold >= 1 ==> After(c, ev).successes < c.successThreshold
  {
    var before := Front(ev);
    if After(c, before).mode == HalfOpen {
      k := HalfOpenCounts(c, before);
      assert before[..k] == ev[..k] && before[..k + 1] == ev[..k + 1];
      assert Front(ev[k + 1..]) == before[k + 1..];
    } else {
      k := |ev| - 1;
      assert ev[..k + 1] == ev;
    }
  }

  /** It closes exactly on the success that makes the required number since it was entered, with no
      failure in between. */
  lemma ClosesAfterSuccesses(c: Config, ev: seq<Event>, e: Event) returns (k: nat)
    requires c.successThreshold >= 1 && After(c, ev).mode == HalfOpen
    ensures EntersAt(c, ev, k)
    ensures var since := ev[k + 1..] + [e];
            After(c, ev + [e]).mode == Closed <==> NoFailure(since) && e.Success? && Successes(since) == c.successThreshold
    ensures After(c, ev + [e]).mode == Open <==> e.Failure?
  {
    k := HalfOpenCounts(c, ev);
    assert Front(ev + [e]) == ev;
    assert Front(ev[k + 1..] + [e]) == ev[k + 1..];
  }

  // ---------- how many probes ----------

  predicate Completes(e: Event) { !e.Admit? }

  /** How an event changes the number of calls under way. */
  function Change(c: Config, ev: seq<Event>, e: Event): int {
    if Completes(e) then -1 else if Admits(c, After(c, ev), e.now) then 1 else 0
  }

  /** Calls admitted and not yet completed. */
  function InFlight(c: Config, ev: seq<Event>): int {
    if ev == [] then 0 else InFlight(c, Front(ev)) + Change(c, Front(ev), Last(ev))
  }

  /** Some thread is free to call, or has a call to complete. */
  predicate Possible(c: Config, ev: seq<Event>, e: Event, threads: nat) {
    if Completes(e) then InFlight(c, ev) > 0 else InFlight(c, ev) < threads
  }

  /** A run of this many threads, each making one call at a time. */
  predicate Feasible(c: Config, ev: seq<Event>, threads: nat) {
    ev == [] || (Feasible(c, Front(ev), threads) && Possible(c, Front(ev), Last(ev), threads))
  }

  lemma {:induction false} InFlightBound(c: Config, ev: seq<Event>, threads: nat)
    requires Feasible(c, ev, threads)
    ensures 0 <= InFlight(c, ev) <= threads
  {
    if ev != [] { InFlightBound(c, Front(ev), threads); }
  }

  /** One more event. */
  lemma Extend(c: Config, ev: seq<Event>, e: Event, threads: nat)
    ensures After(c, ev + [e]) == Step(c, After(c, ev), e)
    ensures InFlight(c, ev + [e]) == InFlight(c, ev) + Change(c, ev, e)
    ensures Feasible(c, ev + [e], threads) <==> Feasible(c, ev, threads) && Possible(c, ev, e, threads)
  {
    assert Front(ev + [e]) == ev;
  }

  lemma LaterLast(ev: seq<Event>, e: Event)
    requires Ordered(ev) && UpTo(ev, e.now)
    ensures Ordered(ev + [e]) && UpTo(ev + [e], e.now)
  {
  }

  /** One thread, calling and failing n times at time zero. */
  function Failing(n: nat): seq<Event> {
    if n == 0 then [] else Failing(n - 1) + [Admit(0.0)] + [Failure(0.0)]
  }

  predicate AtZero(ev: seq<Event>) { forall i :: 0 <= i < |ev| ==> ev[i].now == 0.0 }

  lemma {:induction false} FailingTrips(c: Config, n: nat, threads: nat)
    requires threads >= 1 && n <= c.failThreshold
    ensures var b := After(c, Failing(n));
            Feasible(c, Failing(n), threads) && InFlight(c, Failing(n)) == 0 && AtZero(Failing(n))
            && b.failures == n && b.openedAt == 0.0 && (n < c.failThreshold ==> b.mode == Closed)
            && (0 < n == c.failThreshold ==> b.mode == Open)
  {
    if n > 0 {
      FailingTrips(c, n - 1, threads);
      Extend(c, Failing(n - 1), Admit(0.0), threads);
      Extend(c, Failing(n - 1) + [Admit(0.0)], Failure(0.0), threads);
    }
  }

  function Probing(c: Config, n: nat, now: real): seq<Event>
    requires c.failThreshold >= 1
  {
    if n == 0 then Failing(c.failThreshold) else Probing(c, n - 1, now) + [Admit(now)]
  }

  predicate UpTo(ev: seq<Event>, now: real) { forall i :: 0 <= i < |ev| ==> ev[i].now <= now }

  lemma ZeroIsOrdered(ev: seq<Event>, now: real)
    requires AtZero(ev) && now >= 0.0
    ensures Ordered(ev) && UpTo(ev, now)
  {
  }

  lemma {:induction false} ProbingOrdered(c: Config, n: nat, now: real)
    requires c.failThreshold >= 1 && now >= 0.0
    ensures Ordered(Probing(c, n, now)) && UpTo(Probing(c, n, now), now)
  {
    if n == 0 {
      FailingTrips(c, c.failThreshold, 1);
      ZeroIsOrdered(Failing(c.failThreshold), now);
    } else {
      ProbingOrdered(c, n - 1, now);
      LaterLast(Probing(c, n - 1, now), Admit(now));
    }
  }

  /** After a trip and its cooldown, as many probes as there are threads are admitted together. */
  lemma {:induction false} ManyProbes(c: Config, n: nat, now: real, threads: nat)
    requires c.failThreshold >= 1 && now >= c.cooldown && threads >= 1 && n <= threads
    ensures var ev := Probing(c, n, now);
            Feasible(c, ev, threads) && InFlight(c, ev) == n
            && (if n == 0 then After(c, ev).mode == Open && After(c, ev).openedAt == 0.0 else After(c, ev).mode == HalfOpen)
  {
    if n == 0 {
      FailingTrips(c, c.failThreshold, threads);
    } else {
      ManyProbes(c, n - 1, now, threads);
      Extend(c, Probing(c, n - 1, now), Admit(now), threads);
    }
  }

  ghost predicate SingleProbe(c: Config, threads: nat) {
    forall ev :: Feasible(c, ev, threads) && Ordered(ev) && After(c, ev).mode == HalfOpen ==> InFlight(c, ev) <= 1
  }

  /** HALF_OPEN limits nothing: at most one call is under way exactly when there is only one thread. */
  lemma SingleProbeIff(c: Config, threads: nat)
    requires c.failThreshold >= 1
    ensures SingleProbe(c, threads) <==> threads <= 1
  {
    if threads <= 1 {
      forall ev | Feasible(c, ev, threads)
        ensures InFlight(c, ev) <= 1
      {
        InFlightBound(c, ev, threads);
      }
    } else {
      var now := if c.cooldown >= 0.0 then c.cooldown else 0.0;
      ManyProbes(c, 2, now, threads);
      ProbingOrdered(c, 2, now);
    }
  }

  // ---------- the class ----------

  class CircuitBreaker {
    const c: Config
    var mode: Mode
    var failures: int
    var successes: int
    var openedAt: real
    var rejectedCalls: nat

    function View(): Breaker
      reads this
    {
      Breaker(mode, failures, successes, openedAt, rejectedCalls)
    }

    constructor (failThreshold: int, cooldown: real, successThreshold: int)
      ensures c == Config(failThreshold, cooldown, successThreshold) && View() == FRESH
    {
      c := Config(failThreshold, cooldown, successThreshold);
      mode, failures, successes, openedAt, rejectedCalls := Closed, 0, 0, 0.0, 0;
    }

    /** The first critical section of `call`; false where it raises CircuitOpenError. */
    method Enter(now: real) returns (admitted: bool)
      modifies this
      ensures View() == Step(c, old(View()), Admit(now)) && admitted == Admits(c, old(View()), now)
    {
      if mode == Open {
        if now - openedAt >= c.cooldown {
          mode := HalfOpen;
          successes := 0;
        } else {
          rejectedCalls := rejectedCalls + 1;
          return false;
        }
      }
      return true;
    }

    /** `_on_success` */
    method Succeeded(ghost now: real)
      modifies this
      ensures View() == Step(c, old(View()), Success(now))
    {
      if mode == HalfOpen {
        successes := successes + 1;
        if successes >= c.successThreshold {
          mode := Closed;
          failures := 0;
        }
      } else {
        failures := 0;
      }
    }

    /** `_on_failure` */
    method Failed(now: real)
      modifies this
      ensures View() == Step(c, old(View()), Failure(now))
    {
      if mode == HalfOpen {
        mode := Open;
        openedAt := now;
        return;
      }
      failures := failures + 1;
      if failures >= c.failThreshold {
        mode := Open;
        openedAt := now;
      }
    }

    /** `call`, when nothing else runs in between: the downstream call's result is an input. */
    method Call(succeeds: bool, now: real, later: real) returns (admitted: bool)
      modifies this
      ensures admitted == Admits(c, old(View()), now)
      ensures var entered := Step(c, old(View()), Admit(now));
              View() == if admitted then Step(c, entered, if succeeds then Success(later) else Failure(later)) else entered
    {
      admitted := Enter(now);
      if admitted {
        if succeeds {
          Succeeded(later);
        } else {
          Failed(later);
        }
      }
    }
  }
}
