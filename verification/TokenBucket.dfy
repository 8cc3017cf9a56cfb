/**
  The token buckets of os_net/comp_networking/examples/token_bucket_ratelimiter.py and
  os_net/operating_system/examples/rate_limiter.py, over the reals.
*/
module TokenBucket {

  datatype Config = Config(rate: real, capacity: real)

  datatype Bucket = Bucket(tokens: real, last: real)

  datatype Call = Call(cost: real, now: real)

  function Min(a: real, b: real): real { if b < a then b else a }

  /** What flows in between two times. */
  function Accrued(c: Config, from: real, to: real): real { (to - from) * c.rate }

  /** `_refill`: lazily, capped, and never for a clock that did not advance. */
  function Refill(c: Config, b: Bucket, now: real): Bucket {
    if now - b.last > 0.0 then Bucket(Min(c.capacity, b.tokens + Accrued(c, b.last, now)), now) else b
  }

  predicate Allowed(c: Config, b: Bucket, call: Call) { Refill(c, b, call.now).tokens >= call.cost }

  /** What the call takes out. */
  function Spent(c: Config, b: Bucket, call: Call): real { if Allowed(c, b, call) then call.cost else 0.0 }

  function Step(c: Config, b: Bucket, call: Call): Bucket {
    var r := Refill(c, b, call.now);
    r.(tokens := r.tokens - Spent(c, b, call))
  }

  function Run(c: Config, b: Bucket, calls: seq<Call>): Bucket
    decreases calls
  {
    if calls == [] then b else Run(c, Step(c, b, calls[0]), calls[1..])
  }

  function Answers(c: Config, b: Bucket, calls: seq<Call>): seq<bool>
    decreases calls
  {
    if calls == [] then [] else [Allowed(c, b, calls[0])] + Answers(c, Step(c, b, calls[0]), calls[1..])
  }

  /** The cost admitted by a run. */
  function Admitted(c: Config, b: Bucket, calls: seq<Call>): real
    decreases calls
  {
    if calls == [] then 0.0 else Spent(c, b, calls[0]) + Admitted(c, Step(c, b, calls[0]), calls[1..])
  }

  function Full(c: Config, now: real): Bucket { Bucket(c.capacity, now) }

  predicate Sane(c: Config) { c.rate >= 0.0 && c.capacity >= 0.0 }

  predicate Level(c: Config, b: Bucket) { 0.0 <= b.tokens <= c.capacity }

  predicate CostsOk(calls: seq<Call>) { forall i :: 0 <= i < |calls| ==> calls[i].cost >= 0.0 }

  // ---------- the bound on what is admitted ----------

  lemma AccruedGrows(c: Config, from: real, to: real)
    requires c.rate >= 0.0 && from <= to
    ensures Accrued(c, from, to) >= 0.0
  {
  }

  lemma AccruedAdds(c: Config, a: real, b: real, d: real)
    ensures Accrued(c, a, b) + Accrued(c, b, d) == Accrued(c, a, d)
  {
  }

  /** Tokens above the capacity that one refill throws away. */
  function Spill(c: Config, b: Bucket, now: real): real {
    if now > b.last && b.tokens + Accrued(c, b.last, now) > c.capacity then
      b.tokens + Accrued(c, b.last, now) - c.capacity
    else 0.0
  }

  /** What a refill does not spill it adds. */
  lemma RefillBalances(c: Config, b: Bucket, now: real)
    ensures Refill(c, b, now).tokens + Spill(c, b, now) == b.tokens + Accrued(c, b.last, Refill(c, b, now).last)
  {
  }

  lemma RefillKeeps(c: Config, b: Bucket, now: real)
    requires Sane(c) && Level(c, b)
    ensures Level(c, Refill(c, b, now)) && Refill(c, b, now).last >= b.last && Spill(c, b, now) >= 0.0
  {
    if now - b.last > 0.0 { AccruedGrows(c, b.last, now); }
  }

  lemma StepKeeps(c: Config, b: Bucket, call: Call)
    requires Sane(c) && Level(c, b) && call.cost >= 0.0
    ensures Level(c, Step(c, b, call)) && Step(c, b, call).last >= b.last
  {
    RefillKeeps(c, b, call.now);
  }

  /** Everything the cap threw away during a run. */
  function Spilled(c: Config, b: Bucket, calls: seq<Call>): real
    decreases calls
  {
    if calls == [] then 0.0 else Spill(c, b, calls[0].now) + Spilled(c, Step(c, b, calls[0]), calls[1..])
  }

  /** Tokens are conserved: what was there and what accrued is admitted, spilled or left. */
  lemma {:induction false} Conserved(c: Config, b: Bucket, calls: seq<Call>)
    ensures b.tokens + Accrued(c, b.last, Run(c, b, calls).last)
         == Admitted(c, b, calls) + Spilled(c, b, calls) + Run(c, b, calls).tokens
    decreases calls
  {
    if calls != [] {
      var next := Step(c, b, calls[0]);
      RefillBalances(c, b, calls[0].now);
      Conserved(c, next, calls[1..]);
      AccruedAdds(c, b.last, next.last, Run(c, b, calls).last);
    }
  }

  lemma {:induction false} RunKeeps(c: Config, b: Bucket, calls: seq<Call>)
    requires Sane(c) && Level(c, b) && CostsOk(calls)
    ensures Level(c, Run(c, b, calls)) && Run(c, b, calls).last >= b.last && Spilled(c, b, calls) >= 0.0
    decreases calls
  {
    if calls != [] {
      StepKeeps(c, b, calls[0]);
      RefillKeeps(c, b, calls[0].now);
      RunKeeps(c, Step(c, b, calls[0]), calls[1..]);
    }
  }

  /** Over any stretch of calls, clock readings in any order, at most a full bucket and what accrued
      while the recorded time advanced. */
  lemma AdmittedBound(c: Config, b: Bucket, calls: seq<Call>)
    requires Sane(c) && Level(c, b) && CostsOk(calls)
    ensures Admitted(c, b, calls) <= c.capacity + Accrued(c, b.last, Run(c, b, calls).last)
  {
    Conserved(c, b, calls);
    RunKeeps(c, b, calls);
  }

  // ---------- lazy refills compose ----------

  predicate Ordered(from: real, calls: seq<Call>)
    decreases calls
  {
    calls == [] || (from <= calls[0].now && Ordered(calls[0].now, calls[1..]))
  }

  lemma RefillTwice(c: Config, b: Bucket, t: real, u: real)
    requires c.rate >= 0.0 && b.tokens <= c.capacity && b.last <= t <= u
    ensures Refill(c, Refill(c, b, t), u) == Refill(c, b, u)
  {
    AccruedAdds(c, b.last, t, u);
    AccruedGrows(c, t, u);
  }

  /** Refilling early changes no later answer. */
  lemma EarlyRefill(c: Config, b: Bucket, t: real, calls: seq<Call>)
    requires c.rate >= 0.0 && b.tokens <= c.capacity && b.last <= t && Ordered(t, calls)
    ensures Answers(c, Refill(c, b, t), calls) == Answers(c, b, calls)
  {
    if calls != [] { RefillTwice(c, b, t, calls[0].now); }
  }

  /** A denied call changes no later answer. */
  lemma DeniedLeavesNoTrace(c: Config, b: Bucket, denied: Call, calls: seq<Call>)
    requires c.rate >= 0.0 && b.tokens <= c.capacity && Ordered(b.last, [denied] + calls)
    requires !Allowed(c, b, denied)
    ensures Answers(c, b, [denied] + calls) == [false] + Answers(c, b, calls)
  {
    assert ([denied] + calls)[1..] == calls;
    EarlyRefill(c, b, denied.now, calls);
    assert Step(c, b, denied) == Refill(c, b, denied.now);
  }

  /** With a clock that steps back it can, exactly when the next cost lies between the level at the
      earlier reading and the level the denied call already credited. */
  lemma DeniedMattersBackwards(c: Config, b: Bucket, denied: Call, call: Call)
    requires c.rate >= 0.0 && b.tokens <= c.capacity && b.last <= denied.now && call.now < denied.now
    requires !Allowed(c, b, denied)
    ensures Allowed(c, Step(c, b, denied), call) != Allowed(c, b, call)
       <==> Refill(c, b, call.now).tokens < call.cost <= Refill(c, b, denied.now).tokens
  {
    RefillIsMin(c, b, denied.now);
    if call.now > b.last {
      RefillIsMin(c, b, call.now);
      AccruedAdds(c, b.last, call.now, denied.now);
      AccruedGrows(c, call.now, denied.now);
    } else {
      AccruedGrows(c, b.last, denied.now);
    }
  }

  /** Some later calls, whatever their clock readings, are answered differently from two states. */
  ghost predicate Differ(c: Config, a: Bucket, b: Bucket) {
    exists calls :: CostsOk(calls) && Answers(c, a, calls) != Answers(c, b, calls)
  }

  lemma NoAccrual(c: Config, from: real, to: real)
    requires c.rate == 0.0
    ensures Accrued(c, from, to) == 0.0
  {
  }

  /** Without a rate the clock does not matter. */
  lemma {:induction false} NoRate(c: Config, a: Bucket, b: Bucket, calls: seq<Call>)
    requires c.rate == 0.0 && a.tokens == b.tokens <= c.capacity && CostsOk(calls)
    ensures Answers(c, a, calls) == Answers(c, b, calls)
    decreases calls
  {
    if calls != [] {
      NoRate(c, Step(c, a, calls[0]), Step(c, b, calls[0]), calls[1..]);
    }
  }

  /** Without a capacity the bucket stays empty. */
  lemma {:induction false} NoCapacity(c: Config, a: Bucket, b: Bucket, calls: seq<Call>)
    requires c.rate >= 0.0 && c.capacity == 0.0 && a.tokens == 0.0 && b.tokens == 0.0 && CostsOk(calls)
    ensures Answers(c, a, calls) == Answers(c, b, calls)
    decreases calls
  {
    if calls != [] {
      RefillKeeps(c, a, calls[0].now);
      RefillKeeps(c, b, calls[0].now);
      NoCapacity(c, Step(c, a, calls[0]), Step(c, b, calls[0]), calls[1..]);
    }
  }

  lemma OneAnswer(c: Config, b: Bucket, call: Call)
    ensures Answers(c, b, [call]) == [Allowed(c, b, call)]
  {
    assert [call][1..] == [];
  }

  lemma TwoAnswers(c: Config, b: Bucket, x: Call, y: Call)
    ensures Answers(c, b, [x, y]) == [Allowed(c, b, x), Allowed(c, Step(c, b, x), y)]
  {
    assert [x, y][1..] == [y];
    OneAnswer(c, Step(c, b, x), y);
  }

  /** Credited early: below the cap, a call that reads the old time tells the two apart. */
  lemma EarlyCreditShows(c: Config, b: Bucket, t: real)
    requires Sane(c) && Level(c, b) && c.rate > 0.0 && b.last < t && b.tokens < c.capacity
    ensures Differ(c, Refill(c, b, t), b)
  {
    AccruedPositive(c, b.last, t);
    var more := Refill(c, b, t);
    var call := Call(more.tokens, b.last);
    OneAnswer(c, more, call);
    OneAnswer(c, b, call);
    assert CostsOk([call]);
    assert Answers(c, more, [call])[0] != Answers(c, b, [call])[0];
  }

  lemma AccruedPositive(c: Config, from: real, to: real)
    requires c.rate > 0.0 && from < to
    ensures Accrued(c, from, to) > 0.0
  {
  }

  /** Credited in vain: from a full bucket, emptying it at the old time shows what was spilled. */
  lemma LostCreditShows(c: Config, b: Bucket, t: real)
    requires Sane(c) && c.rate > 0.0 && b.last < t && b.tokens == c.capacity > 0.0
    ensures Differ(c, Refill(c, b, t), b)
  {
    AccruedPositive(c, b.last, t);
    var more := Refill(c, b, t);
    var x := Call(c.capacity, b.last);
    var y := Call(Min(c.capacity, Accrued(c, b.last, t)), t);
    assert Step(c, more, x) == Bucket(0.0, t) && Step(c, b, x) == Bucket(0.0, b.last);
    TwoAnswers(c, more, x, y);
    TwoAnswers(c, b, x, y);
    assert CostsOk([x, y]);
    assert Answers(c, more, [x, y])[1] != Answers(c, b, [x, y])[1];
  }

  /** When clock readings may step back, a denied call changes some later run exactly when it moved
      the recorded time of a bucket that can fill. */
  lemma DeniedShowsIff(c: Config, b: Bucket, denied: Call)
    requires Sane(c) && Level(c, b) && !Allowed(c, b, denied)
    ensures Differ(c, Step(c, b, denied), b) <==> denied.now > b.last && c.rate > 0.0 && c.capacity > 0.0
  {
    var after := Step(c, b, denied);
    assert after == Refill(c, b, denied.now);
    RefillKeeps(c, b, denied.now);
    if denied.now > b.last && c.rate > 0.0 && c.capacity > 0.0 {
      if b.tokens < c.capacity {
        EarlyCreditShows(c, b, denied.now);
      } else {
        LostCreditShows(c, b, denied.now);
      }
    } else {
      forall calls | CostsOk(calls)
        ensures Answers(c, after, calls) == Answers(c, b, calls)
      {
        if denied.now > b.last {
          if c.rate == 0.0 {
            NoAccrual(c, b.last, denied.now);
            NoRate(c, after, b, calls);
          } else {
            NoCapacity(c, after, b, calls);
          }
        }
      }
    }
  }

  // ---------- the answer from the history alone ----------

  datatype Taken = Taken(cost: real, now: real)

  /** Each call's time and what it took. */
  function History(c: Config, b: Bucket, calls: seq<Call>): seq<Taken>
    decreases calls
  {
    if calls == [] then []
    else [Taken(Spent(c, b, calls[0]), calls[0].now)] + History(c, Step(c, b, calls[0]), calls[1..])
  }

  function Sum(h: seq<Taken>): real { if h == [] then 0.0 else h[0].cost + Sum(h[1..]) }

  /** From no earlier call on has more been taken than a full bucket and the accrual since. */
  predicate Conforms(c: Config, h: seq<Taken>, now: real, x: real) {
    h == [] || (x + Sum(h) <= c.capacity + Accrued(c, h[0].now, now) && Conforms(c, h[1..], now, x))
  }

  lemma RefillLevel(c: Config, b: Bucket, now: real, x: real)
    requires c.rate >= 0.0 && b.tokens <= c.capacity && b.last <= now
    ensures x <= Refill(c, b, now).tokens <==> x <= b.tokens + Accrued(c, b.last, now) && x <= c.capacity
    ensures Refill(c, b, now).last == now
  {
    AccruedGrows(c, b.last, now);
  }

  lemma RefillIsMin(c: Config, b: Bucket, now: real)
    requires c.rate >= 0.0 && b.tokens <= c.capacity && b.last <= now
    ensures Refill(c, b, now) == Bucket(Min(c.capacity, b.tokens + Accrued(c, b.last, now)), now)
  {
    AccruedGrows(c, b.last, now);
  }

  /** The level at any time is the tightest of the bounds the history sets. */
  lemma {:induction false} LevelIs(c: Config, b: Bucket, calls: seq<Call>, now: real, x: real)
    requires c.rate >= 0.0 && b.tokens <= c.capacity && CostsOk(calls) && Ordered(b.last, calls)
    requires Run(c, b, calls).last <= now
    ensures x <= Refill(c, Run(c, b, calls), now).tokens
       <==> x + Sum(History(c, b, calls)) <= b.tokens + Accrued(c, b.last, now) && x <= c.capacity
            && Conforms(c, History(c, b, calls), now, x)
    decreases calls
  {
    if calls == [] {
      RefillLevel(c, b, now, x);
    } else {
      var next, t := Step(c, b, calls[0]), calls[0].now;
      RefillIsMin(c, b, t);
      LevelIs(c, next, calls[1..], now, x);
      AccruedAdds(c, b.last, t, now);
      var h := History(c, b, calls);
      assert h[1..] == History(c, next, calls[1..]);
    }
  }

  lemma {:induction false} LastIs(c: Config, b: Bucket, calls: seq<Call>)
    requires c.rate >= 0.0 && b.tokens <= c.capacity && CostsOk(calls) && Ordered(b.last, calls)
    ensures b.last <= Run(c, b, calls).last
    decreases calls
  {
    if calls != [] {
      RefillIsMin(c, b, calls[0].now);
      LastIs(c, Step(c, b, calls[0]), calls[1..]);
    }
  }

  /** From a full bucket, with a clock that does not step back: a call is allowed exactly when from
      every earlier call on, and by itself, it stays within a full bucket plus the accrual since. */
  lemma AllowedIffConforms(c: Config, start: real, calls: seq<Call>, call: Call)
    requires c.rate >= 0.0 && CostsOk(calls) && Ordered(start, calls)
    requires Run(c, Full(c, start), calls).last <= call.now
    ensures Allowed(c, Run(c, Full(c, start), calls), call)
       <==> call.cost <= c.capacity && Conforms(c, History(c, Full(c, start), calls), call.now, call.cost)
  {
    var b := Full(c, start);
    LevelIs(c, b, calls, call.now, call.cost);
    LastIs(c, b, calls);
    AccruedGrows(c, start, call.now);
    if calls != [] {
      AccruedAdds(c, start, calls[0].now, call.now);
      AccruedGrows(c, start, calls[0].now);
    }
  }

  // ---------- the answer from the answers before ----------

  /** What was granted to calls answered so. */
  function Granted(calls: seq<Call>, answers: seq<bool>): real
    requires |calls| == |answers|
  {
    if calls == [] then 0.0 else (if answers[0] then calls[0].cost else 0.0) + Granted(calls[1..], answers[1..])
  }

  /** With x more, no more is taken from call i on than a full bucket and the rate times the time since. */
  predicate Within(c: Config, calls: seq<Call>, answers: seq<bool>, i: nat, now: real, x: real)
    requires i < |calls| == |answers|
  {
    x + Granted(calls[i..], answers[i..]) <= c.capacity + (now - calls[i].now) * c.rate
  }

  lemma {:induction false} SumIsGranted(c: Config, b: Bucket, calls: seq<Call>)
    ensures |Answers(c, b, calls)| == |calls| && Sum(History(c, b, calls)) == Granted(calls, Answers(c, b, calls))
    decreases calls
  {
    if calls != [] {
      var next := Step(c, b, calls[0]);
      SumIsGranted(c, next, calls[1..]);
      assert History(c, b, calls)[1..] == History(c, next, calls[1..]);
      assert Answers(c, b, calls)[1..] == Answers(c, next, calls[1..]);
    }
  }

  lemma WithinTail(c: Config, calls: seq<Call>, answers: seq<bool>, i: nat, now: real, x: real)
    requires 0 < i < |calls| == |answers|
    ensures Within(c, calls, answers, i, now, x) <==> Within(c, calls[1..], answers[1..], i - 1, now, x)
  {
    assert calls[1..][i - 1..] == calls[i..] && answers[1..][i - 1..] == answers[i..];
  }

  lemma {:induction false} ConformsMeans(c: Config, b: Bucket, calls: seq<Call>, now: real, x: real)
    ensures |Answers(c, b, calls)| == |calls|
    ensures Conforms(c, History(c, b, calls), now, x)
       <==> forall i :: 0 <= i < |calls| ==> Within(c, calls, Answers(c, b, calls), i, now, x)
    decreases calls
  {
    SumIsGranted(c, b, calls);
    if calls != [] {
      var h, a, next := History(c, b, calls), Answers(c, b, calls), Step(c, b, calls[0]);
      ConformsMeans(c, next, calls[1..], now, x);
      assert h[1..] == History(c, next, calls[1..]) && a[1..] == Answers(c, next, calls[1..]);
      assert calls[0..] == calls && a[0..] == a;
      forall i | 0 < i < |calls|
        ensures Within(c, calls, a, i, now, x) <==> Within(c, calls[1..], a[1..], i - 1, now, x)
      {
        WithinTail(c, calls, a, i, now, x);
      }
      assert Within(c, calls, a, 0, now, x) <==> x + Sum(h) <= c.capacity + Accrued(c, h[0].now, now);
      assert forall i :: 0 <= i < |calls[1..]| ==> (Within(c, calls[1..], a[1..], i, now, x) <==> Within(c, calls, a, i + 1, now, x));
    }
  }

  lemma {:induction false} NextAnswer(c: Config, b: Bucket, calls: seq<Call>, call: Call)
    ensures Answers(c, b, calls + [call]) == Answers(c, b, calls) + [Allowed(c, Run(c, b, calls), call)]
    decreases calls
  {
    if calls == [] {
      assert [] + [call] == [call];
      OneAnswer(c, b, call);
    } else {
      assert (calls + [call])[1..] == calls[1..] + [call];
      NextAnswer(c, Step(c, b, calls[0]), calls[1..], call);
    }
  }

  /** A new bucket's answers, each from the ones before it: the next call is allowed exactly when neither
      it nor any stretch of granted calls that it would end exceeds the capacity and the rate times the
      time of the stretch. */
  lemma AllowedIffWithin(c: Config, start: real, calls: seq<Call>, call: Call)
    requires c.rate >= 0.0 && CostsOk(calls) && Ordered(start, calls + [call])
    ensures var a := Answers(c, Full(c, start), calls);
            |a| == |calls|
            && Answers(c, Full(c, start), calls + [call])
               == a + [call.cost <= c.capacity && forall i :: 0 <= i < |calls| ==> Within(c, calls, a, i, call.now, call.cost)]
  {
    OrderedEnds(c, start, Full(c, start), calls, call);
    NextAnswer(c, Full(c, start), calls, call);
    ConformsMeans(c, Full(c, start), calls, call.now, call.cost);
    AllowedIffConforms(c, start, calls, call);
  }

  lemma {:induction false} OrderedEnds(c: Config, start: real, b: Bucket, calls: seq<Call>, call: Call)
    requires Ordered(start, calls + [call]) && b.last <= start
    ensures Ordered(start, calls) && Run(c, b, calls).last <= call.now
    decreases calls
  {
    assert (calls + [call])[0] == if calls == [] then call else calls[0];
    if calls != [] {
      assert (calls + [call])[1..] == calls[1..] + [call];
      OrderedEnds(c, calls[0].now, Step(c, b, calls[0]), calls[1..], call);
    }
  }

  // ---------- the classes ----------

  /** The bucket that reads its clock under a lock: it refills unconditionally. */
  function RefillAlways(c: Config, b: Bucket, now: real): Bucket {
    Bucket(Min(c.capacity, b.tokens + Accrued(c, b.last, now)), now)
  }

  predicate AllowedAlways(c: Config, b: Bucket, call: Call) { RefillAlways(c, b, call.now).tokens >= call.cost }

  function StepAlways(c: Config, b: Bucket, call: Call): Bucket {
    var r := RefillAlways(c, b, call.now);
    if AllowedAlways(c, b, call) then r.(tokens := r.tokens - call.cost) else r
  }

  function RunAlways(c: Config, b: Bucket, calls: seq<Call>): Bucket
    decreases calls
  {
    if calls == [] then b else RunAlways(c, StepAlways(c, b, calls[0]), calls[1..])
  }

  function AnswersAlways(c: Config, b: Bucket, calls: seq<Call>): seq<bool>
    decreases calls
  {
    if calls == [] then [] else [AllowedAlways(c, b, calls[0])] + AnswersAlways(c, StepAlways(c, b, calls[0]), calls[1..])
  }

  /** With a monotonic clock the two buckets answer alike and end alike, on every run. */
  lemma {:induction false} BucketsAgree(c: Config, b: Bucket, calls: seq<Call>)
    requires c.rate >= 0.0 && b.tokens <= c.capacity && CostsOk(calls) && Ordered(b.last, calls)
    ensures AnswersAlways(c, b, calls) == Answers(c, b, calls) && RunAlways(c, b, calls) == Run(c, b, calls)
    decreases calls
  {
    if calls != [] {
      RefillIsMin(c, b, calls[0].now);
      BucketsAgree(c, Step(c, b, calls[0]), calls[1..]);
    }
  }

  class RateLimiter {
    const c: Config
    var tokens: real
    var last: real

    function View(): Bucket
      reads this
    {
      Bucket(tokens, last)
    }

    constructor (rate: real, capacity: real, now: real)
      ensures c == Config(rate, capacity) && View() == Full(c, now)
    {
      c := Config(rate, capacity);
      tokens, last := capacity, now;
    }

    method RefillAt(now: real)
      modifies this
      ensures View() == Refill(c, old(View()), now)
    {
      var elapsed := now - last;
      if elapsed > 0.0 {
        tokens := Min(c.capacity, tokens + elapsed * c.rate);
        last := now;
      }
    }

    method Allow(cost: real, now: real) returns (ok: bool)
      modifies this
      ensures ok == Allowed(c, old(View()), Call(cost, now))
      ensures View() == Step(c, old(View()), Call(cost, now))
    {
      RefillAt(now);
      if tokens >= cost {
        tokens := tokens - cost;
        return true;
      }
      return false;
    }
  }

  class LockedTokenBucket {
    const c: Config
    var tokens: real
    var last: real

    function View(): Bucket
      reads this
    {
      Bucket(tokens, last)
    }

    constructor (rate: real, capacity: real, now: real)
      ensures c == Config(rate, capacity) && View() == Full(c, now)
    {
      c := Config(rate, capacity);
      tokens, last := capacity, now;
    }

    method RefillAt(now: real)
      modifies this
      ensures View() == RefillAlways(c, old(View()), now)
    {
      var elapsed := now - last;
      last := now;
      tokens := Min(c.capacity, tokens + elapsed * c.rate);
    }

    method Allow(cost: real, now: real) returns (ok: bool)
      modifies this
      ensures ok == AllowedAlways(c, old(View()), Call(cost, now))
      ensures View() == StepAlways(c, old(View()), Call(cost, now))
    {
      RefillAt(now);
      if tokens >= cost {
        tokens := tokens - cost;
        return true;
      }
      return false;
    }
  }
}
