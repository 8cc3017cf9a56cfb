/**
  `RawBoundedBuffer.put`/`get` and `run_with_raw_buffer` of
  os_net/operating_system/examples/producer_consumer.py in their own imperative form: a deque
  changed in place, and two condition variables that keep their waiters in arrival order.
  Every method is one critical section and is proved to be a step of the machine in BoundedBuffer.
*/
module BoundedBufferProgram {
  import opened BoundedBuffer

  ghost predicate Distinct(q: seq<nat>) {
    forall j, k :: 0 <= j < k < |q| ==> q[j] != q[k]
  }

  /** The queue lists exactly the consumers asleep on `not_empty`, each once. */
  ghost predicate Sleepers(q: seq<nat>, gs: seq<Getter>) {
    Distinct(q) && forall c: nat :: c in q <==> c < |gs| && gs[c].Asleep?
  }

  /** The queue lists exactly the putters asleep on `not_full`, each once. */
  ghost predicate Blocked(q: seq<nat>, ps: seq<Putter>) {
    Distinct(q) && forall p: nat :: p in q <==> p < |ps| && ps[p].status.Waiting?
  }

  lemma QueueNonEmpty(s: State, notEmpty: seq<nat>, notFull: seq<nat>)
    requires Sleepers(notEmpty, s.getters) && Blocked(notFull, s.putters)
    ensures SomeAsleep(s) <==> notEmpty != []
    ensures SomeWaiting(s) <==> notFull != []
    ensures notEmpty != [] ==> notEmpty[0] < |s.getters| && s.getters[notEmpty[0]].Asleep?
    ensures notFull != [] ==> notFull[0] < |s.putters| && s.putters[notFull[0]].status.Waiting?
  {
    assert notEmpty != [] ==> notEmpty[0] in notEmpty;
    assert notFull != [] ==> notFull[0] in notFull;
    if SomeAsleep(s) {
      var c: nat :| c < |s.getters| && s.getters[c].Asleep?;
      assert c in notEmpty;
    }
    if SomeWaiting(s) {
      var p: nat :| p < |s.putters| && s.putters[p].status.Waiting?;
      assert p in notFull;
    }
  }

  lemma SleeperJoins(q: seq<nat>, gs: seq<Getter>, c: nat)
    requires Sleepers(q, gs) && c < |gs| && !gs[c].Asleep?
    ensures Sleepers(q + [c], gs[c := Asleep])
  {
  }

  lemma PopDistinct(q: seq<nat>)
    requires Distinct(q) && q != []
    ensures Distinct(q[1..]) && forall x :: x in q[1..] <==> x in q && x != q[0]
  {
    forall x | x in q && x != q[0]
      ensures x in q[1..]
    {
      var k :| 0 <= k < |q| && q[k] == x;
      assert q[1..][k - 1] == x;
    }
  }

  lemma SleeperWoken(q: seq<nat>, gs: seq<Getter>)
    requires Sleepers(q, gs) && q != [] && q[0] < |gs|
    ensures Sleepers(q[1..], gs[q[0] := Woken])
  {
    PopDistinct(q);
  }

  lemma SleepersKept(q: seq<nat>, gs: seq<Getter>, c: nat, g: Getter)
    requires Sleepers(q, gs) && c < |gs| && !gs[c].Asleep? && !g.Asleep?
    ensures Sleepers(q, gs[c := g])
  {
  }

  lemma BlockedJoins(q: seq<nat>, ps: seq<Putter>, p: nat)
    requires Blocked(q, ps) && p < |ps| && !ps[p].status.Waiting?
    ensures Blocked(q + [p], ps[p := ps[p].(status := Waiting)])
  {
  }

  lemma BlockedWoken(q: seq<nat>, ps: seq<Putter>)
    requires Blocked(q, ps) && q != [] && q[0] < |ps|
    ensures Blocked(q[1..], ps[q[0] := ps[q[0]].(status := Notified)])
  {
    PopDistinct(q);
  }

  lemma BlockedKept(q: seq<nat>, ps: seq<Putter>, p: nat, t: Putter)
    requires Blocked(q, ps) && p < |ps| && !ps[p].status.Waiting? && !t.status.Waiting?
    ensures Blocked(q, ps[p := t])
  {
  }

  class Program {
    const cfg: Config
    var buf: seq<Item>
    var putters: seq<Putter>
    var getters: seq<Getter>
    var taken: seq<Item>
    var consumed: seq<Item>
    var notFull: seq<nat>   // waiters of `_not_full`, oldest first
    var notEmpty: seq<nat>  // waiters of `_not_empty`, oldest first

    function Snapshot(): State
      reads this
    {
      State(buf, putters, getters, taken, consumed)
    }

    ghost predicate Valid()
      reads this
    {
      && cfg.Valid() && Reachable(cfg, Snapshot()) && Shaped(cfg, Snapshot())
      && Sleepers(notEmpty, getters) && Blocked(notFull, putters)
    }

    constructor (cfg: Config)
      requires cfg.Valid()
      ensures Valid() && this.cfg == cfg && Snapshot() == Init(cfg)
    {
      this.cfg := cfg;
      buf, taken, consumed, notFull, notEmpty := [], [], [], [], [];
      putters, getters := Init(cfg).putters, Init(cfg).getters;
      new;
      assert Runs(cfg, Init(cfg), [], Init(cfg));
    }

    /** One pass of putter p through the critical section of `put`. The waiter it wakes is the one
        that has waited longest. */
    method Put(p: nat) returns (ghost woken: nat)
      requires Valid() && p < |putters| && putters[p].Active()
      modifies this
      ensures Valid()
      ensures Enabled(cfg, old(Snapshot()), Action.Put(p, woken))
      ensures Snapshot() == Apply(cfg, old(Snapshot()), Action.Put(p, woken))
      ensures |old(buf)| < cfg.capacity && old(notEmpty) != [] ==> woken == old(notEmpty)[0]
    {
      woken := if notEmpty == [] then |getters| else notEmpty[0];
      QueueNonEmpty(Snapshot(), notEmpty, notFull);
      ReachableStep(cfg, Snapshot(), Action.Put(p, woken));
      ghost var after := Apply(cfg, Snapshot(), Action.Put(p, woken));
      var t := putters[p];
      if |buf| >= cfg.capacity {
        BlockedJoins(notFull, putters, p);
        notFull := notFull + [p];
        putters := putters[p := t.(status := Waiting)];
      } else {
        buf := buf + [cfg.ItemOf(p, t.next)];
        BlockedKept(notFull, putters, p, AfterPut(cfg, p, t.next + 1, t.quota));
        putters := putters[p := AfterPut(cfg, p, t.next + 1, t.quota)];
        if notEmpty != [] {
          SleeperWoken(notEmpty, getters);
          getters := getters[notEmpty[0] := Woken];
          notEmpty := notEmpty[1..];
        }
      }
      assert Snapshot() == after;
    }

    /** One pass of consumer c through the critical section of `get`. */
    method Get(c: nat) returns (ghost woken: nat)
      requires Valid() && c < |getters| && getters[c].Active()
      modifies this
      ensures Valid()
      ensures Enabled(cfg, old(Snapshot()), Action.Get(c, woken))
      ensures Snapshot() == Apply(cfg, old(Snapshot()), Action.Get(c, woken))
      ensures old(buf) != [] && old(notFull) != [] ==> woken == old(notFull)[0]
    {
      woken := if notFull == [] then |putters| else notFull[0];
      QueueNonEmpty(Snapshot(), notEmpty, notFull);
      ReachableStep(cfg, Snapshot(), Action.Get(c, woken));
      ghost var after := Apply(cfg, Snapshot(), Action.Get(c, woken));
      if buf == [] {
        SleeperJoins(notEmpty, getters, c);
        notEmpty := notEmpty + [c];
        getters := getters[c := Asleep];
      } else {
        var x := buf[0];
        buf, taken := buf[1..], taken + [x];
        SleepersKept(notEmpty, getters, c, if x.Pill? then Exited else Holding(x));
        getters := getters[c := if x.Pill? then Exited else Holding(x)];
        if notFull != [] {
          BlockedWoken(notFull, putters);
          putters := putters[notFull[0] := putters[notFull[0]].(status := Notified)];
          notFull := notFull[1..];
        }
      }
      assert Snapshot() == after;
    }

    /** `consumed.append(item)` under `consumed_lock`. */
    method Record(c: nat)
      requires Valid() && c < |getters| && getters[c].Holding?
      modifies this
      ensures Valid() && Snapshot() == Apply(cfg, old(Snapshot()), Action.Record(c))
    {
      ReachableStep(cfg, Snapshot(), Action.Record(c));
      consumed := consumed + [getters[c].item];
      SleepersKept(notEmpty, getters, c, Hungry);
      getters := getters[c := Hungry];
    }

    /** Main's two joins. */
    method PassJoin()
      requires Valid()
      requires Enabled(cfg, Snapshot(), JoinProducers) || Enabled(cfg, Snapshot(), JoinConsumers)
      modifies this
      ensures Valid()
      ensures Snapshot() == Apply(cfg, old(Snapshot()),
                                  if old(putters[cfg.MainThread()].status.Joining?) then JoinProducers else JoinConsumers)
    {
      var m := putters[cfg.MainThread()];
      ReachableStep(cfg, Snapshot(), if m.status.Joining? then JoinProducers else JoinConsumers);
      BlockedKept(notFull, putters, cfg.MainThread(), m.(status := if m.status.Joining? then Runnable else Finished));
      putters := putters[cfg.MainThread() := m.(status := if m.status.Joining? then Runnable else Finished)];
    }

    /** Lets thread t (putters first, then consumers) run through its next critical section. */
    method Turn(t: nat)
      requires Valid() && Schedulable(cfg, Snapshot(), t)
      modifies this
      ensures Valid() && Measure(Snapshot()) < Measure(old(Snapshot()))
    {
      ghost var before := Snapshot();
      if t < |putters| {
        if putters[t].Active() {
          ghost var w := Put(t);
          StepShrinks(cfg, before, Action.Put(t, w));
        } else {
          StepShrinks(cfg, before, if putters[t].status.Joining? then JoinProducers else JoinConsumers);
          PassJoin();
        }
      } else if getters[t - |putters|].Active() {
        ghost var w := Get(t - |putters|);
        StepShrinks(cfg, before, Action.Get(t - |putters|, w));
      } else {
        StepShrinks(cfg, before, Action.Record(t - |putters|));
        Record(t - |putters|);
      }
    }
  }

  /** Thread t is not blocked. */
  predicate Schedulable(cfg: Config, s: State, t: nat)
    requires Shaped(cfg, s)
  {
    && t < |s.putters| + |s.getters|
    && if t < |s.putters| then
         || s.putters[t].Active()
         || (t == cfg.MainThread() && (Enabled(cfg, s, JoinProducers) || Enabled(cfg, s, JoinConsumers)))
       else
         var g := s.getters[t - |s.putters|];
         g.Active() || g.Holding?
  }

  lemma StepShrinks(cfg: Config, s: State, a: Action)
    requires cfg.Valid() && Reachable(cfg, s) && Shaped(cfg, s) && Enabled(cfg, s, a) && !a.Spurious()
    ensures Measure(Apply(cfg, s, a)) < Measure(s)
  {
    ReachableInv(cfg, s);
    StepDecreases(cfg, s, a);
  }

  /** In every reachable state with an unfinished thread, some thread is not blocked. */
  lemma SomeoneRuns(cfg: Config, s: State)
    requires cfg.Valid() && Reachable(cfg, s) && Shaped(cfg, s) && !Done(s)
    ensures exists t: nat :: Schedulable(cfg, s, t)
  {
    ReachableInv(cfg, s);
    var a := Progress(cfg, s);
    var t := match a
      case Put(p, _) => p
      case Get(c, _) => |s.putters| + c
      case Record(c) => |s.putters| + c
      case _ => cfg.MainThread();
    assert Schedulable(cfg, s, t);
  }

  /** The whole program under an arbitrary scheduler: it ends, and what it returns passes the
      source's own check. */
  method RunWithRawBuffer(cfg: Config) returns (consumed: seq<int>)
    requires cfg.Valid()
    ensures Verified(cfg, consumed)
  {
    var prog := new Program(cfg);
    while !Done(prog.Snapshot())
      invariant prog.Valid() && prog.cfg == cfg
      decreases Measure(prog.Snapshot())
    {
      SomeoneRuns(cfg, prog.Snapshot());
      var t: nat :| Schedulable(cfg, prog.Snapshot(), t);
      prog.Turn(t);
    }
    ReachableInv(cfg, prog.Snapshot());
    DoneVerifies(cfg, prog.Snapshot());
    consumed := Values(cfg, prog.consumed);
  }
}
