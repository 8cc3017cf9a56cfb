/**
  Lock acquisition in os_net/operating_system/examples/deadlock_demo.py, for any number of
  threads and locks: each thread takes its first lock, then its second, then releases the
  second and the first. The source's AB/BA demonstration and its global-order fix are two
  instances; the main theorem says exactly which acquisition orders can deadlock.
*/
module LockOrdering {
  import opened Totals

  /** The two locks of one thread, in the order in which it takes them. */
  datatype Order = Order(first: nat, second: nat)

  /** `Both` is the body in which the source sets `completed[who]`; `Leaving` has released the second lock. */
  datatype Pc = Idle | One | Both | Leaving | Finished

  type Program = seq<Order>
  type State = seq<Pc>

  function Init(prog: Program): State { seq(|prog|, _ => Idle) }

  predicate Holds(prog: Program, s: State, t: nat, lock: nat)
    requires t < |prog| == |s|
  {
    || ((s[t].One? || s[t].Both? || s[t].Leaving?) && prog[t].first == lock)
    || (s[t].Both? && prog[t].second == lock)
  }

  predicate Free(prog: Program, s: State, lock: nat)
    requires |prog| == |s|
  {
    forall t :: 0 <= t < |prog| ==> !Holds(prog, s, t, lock)
  }

  predicate Enabled(prog: Program, s: State, t: nat)
    requires |prog| == |s|
  {
    && t < |prog|
    && match s[t]
       case Idle => Free(prog, s, prog[t].first)
       case One => Free(prog, s, prog[t].second)
       case Both => true
       case Leaving => true
       case Finished => false
  }

  function Next(pc: Pc): Pc {
    match pc
    case Idle => One
    case One => Both
    case Both => Leaving
    case Leaving => Finished
    case Finished => Finished
  }

  function Step(s: State, t: nat): State
    requires t < |s|
  {
    s[t := Next(s[t])]
  }

  /** Runs from `s` by letting the threads in `schedule` take one step each, in turn. */
  ghost predicate Runs(prog: Program, s: State, schedule: seq<nat>, t: State)
    decreases |schedule|
  {
    |prog| == |s| &&
    if schedule == [] then s == t
    else Enabled(prog, s, schedule[0]) && Runs(prog, Step(s, schedule[0]), schedule[1..], t)
  }

  ghost predicate Reachable(prog: Program, s: State) {
    exists schedule :: Runs(prog, Init(prog), schedule, s)
  }

  predicate AllFinished(s: State) { forall t :: 0 <= t < |s| ==> s[t].Finished? }

  /** Some thread is unfinished and nobody can move. */
  predicate Stuck(prog: Program, s: State)
    requires |prog| == |s|
  {
    !AllFinished(s) && forall t :: 0 <= t < |s| ==> !Enabled(prog, s, t)
  }

  /** Threads c[0], c[1], ... with distinct first locks, each wanting next what its successor takes first. */
  predicate Cycle(prog: Program, c: seq<nat>) {
    && c != []
    && (forall i :: 0 <= i < |c| ==> c[i] < |prog|)
    && (forall i, j :: 0 <= i < j < |c| ==> prog[c[i]].first != prog[c[j]].first)
    && (forall i :: 0 <= i < |c| - 1 ==> prog[c[i]].second == prog[c[i + 1]].first)
    && prog[c[|c| - 1]].second == prog[c[0]].first
  }

  ghost predicate HasCycle(prog: Program) { exists c :: Cycle(prog, c) }

  // ---------- mutual exclusion ----------

  ghost predicate Exclusive(prog: Program, s: State)
    requires |prog| == |s|
  {
    forall t, u, lock :: 0 <= t < u < |s| && Holds(prog, s, t, lock) ==> !Holds(prog, s, u, lock)
  }

  lemma StepExclusive(prog: Program, s: State, t: nat)
    requires |prog| == |s| && Exclusive(prog, s) && Enabled(prog, s, t)
    ensures Exclusive(prog, Step(s, t))
  {
    var s' := Step(s, t);
    assert forall u, lock :: 0 <= u < |s| && u != t ==> Holds(prog, s', u, lock) == Holds(prog, s, u, lock);
    forall u, lock | 0 <= u < |s| && u != t && Holds(prog, s', t, lock)
      ensures !Holds(prog, s', u, lock)
    {
      if !Holds(prog, s, t, lock) {
        assert Free(prog, s, lock);
      }
    }
  }

  // ---------- every run is short ----------

  function Remaining(pc: Pc): nat {
    match pc
    case Idle => 4
    case One => 3
    case Both => 2
    case Leaving => 1
    case Finished => 0
  }

  lemma {:induction false} RunKeeps(prog: Program, s: State, schedule: seq<nat>, t: State)
    requires Runs(prog, s, schedule, t) && Exclusive(prog, s)
    ensures |t| == |s| && Exclusive(prog, t)
    ensures |schedule| + Total(t, Remaining) == Total(s, Remaining)
    decreases |schedule|
  {
    if schedule != [] {
      StepExclusive(prog, s, schedule[0]);
      TotalUpdate(s, schedule[0], Next(s[schedule[0]]), Remaining);
      RunKeeps(prog, Step(s, schedule[0]), schedule[1..], t);
    }
  }

  lemma {:induction false} RunThenStep(prog: Program, s: State, schedule: seq<nat>, t: State, u: nat)
    requires Runs(prog, s, schedule, t) && |prog| == |t| && Enabled(prog, t, u)
    ensures Runs(prog, s, schedule + [u], Step(t, u))
    decreases |schedule|
  {
    if schedule == [] {
      assert (schedule + [u])[1..] == [];
    } else {
      assert (schedule + [u])[1..] == schedule[1..] + [u];
      RunThenStep(prog, Step(s, schedule[0]), schedule[1..], t, u);
    }
  }

  lemma ReachableStep(prog: Program, s: State, t: nat)
    requires Reachable(prog, s) && |prog| == |s| && Enabled(prog, s, t)
    ensures Reachable(prog, Step(s, t))
  {
    var schedule :| Runs(prog, Init(prog), schedule, s);
    RunThenStep(prog, Init(prog), schedule, s, t);
  }

  lemma ReachableExclusive(prog: Program, s: State)
    requires Reachable(prog, s)
    ensures |s| == |prog| && Exclusive(prog, s)
  {
    var schedule :| Runs(prog, Init(prog), schedule, s);
    RunKeeps(prog, Init(prog), schedule, s);
  }

  // ---------- a stuck state contains a cycle ----------

  ghost predicate Path(prog: Program, s: State, path: seq<nat>)
    requires |prog| == |s|
  {
    && path != []
    && (forall i :: 0 <= i < |path| ==> path[i] < |s| && s[path[i]].One?)
    && (forall i, j :: 0 <= i < j < |path| ==> path[i] != path[j])
    && (forall i :: 0 <= i < |path| - 1 ==> prog[path[i]].second == prog[path[i + 1]].first)
  }

  lemma {:induction false} DistinctFit(path: seq<nat>, n: nat)
    requires forall i :: 0 <= i < |path| ==> path[i] < n
    requires forall i, j :: 0 <= i < j < |path| ==> path[i] != path[j]
    ensures |path| <= n
  {
    assert path != [] ==> path[0] < n;
    if n > 0 {
      if k :| 0 <= k < |path| && path[k] == n - 1 {
        DistinctFit(path[..k] + path[k + 1..], n - 1);
      } else {
        DistinctFit(path, n - 1);
      }
    }
  }

  /** A blocked thread waits for a thread that sits between its two locks. */
  lemma Waiter(prog: Program, s: State, lock: nat) returns (v: nat)
    requires |prog| == |s| && Stuck(prog, s) && !Free(prog, s, lock)
    ensures v < |s| && s[v].One? && prog[v].first == lock
  {
    v :| 0 <= v < |s| && Holds(prog, s, v, lock);
    assert !Enabled(prog, s, v);
  }

  lemma FollowWaits(prog: Program, s: State, path: seq<nat>)
    requires |prog| == |s| && Stuck(prog, s) && Exclusive(prog, s) && Path(prog, s, path)
    ensures HasCycle(prog)
    decreases |s| - |path|
  {
    DistinctFit(path, |s|);
    var last := path[|path| - 1];
    assert !Enabled(prog, s, last);
    var v := Waiter(prog, s, prog[last].second);
    if k :| 0 <= k < |path| && path[k] == v {
      var c := path[k..];
      forall i, j | 0 <= i < j < |c|
        ensures prog[c[i]].first != prog[c[j]].first
      {
        assert Holds(prog, s, c[i], prog[c[i]].first) && Holds(prog, s, c[j], prog[c[j]].first);
      }
      assert Cycle(prog, c);
    } else {
      DistinctFit(path + [v], |s|);
      FollowWaits(prog, s, path + [v]);
    }
  }

  lemma StuckHasCycle(prog: Program, s: State)
    requires |prog| == |s| && Stuck(prog, s) && Exclusive(prog, s)
    ensures HasCycle(prog)
  {
    var t :| 0 <= t < |s| && !s[t].Finished?;
    assert !Enabled(prog, s, t);
    var v := Waiter(prog, s, if s[t].Idle? then prog[t].first else prog[t].second);
    FollowWaits(prog, s, [v]);
  }

  // ---------- a cycle can get stuck ----------

  /** The first k threads of the cycle have taken their first locks and nobody else has moved. */
  ghost predicate TookFirst(prog: Program, c: seq<nat>, k: nat, s: State) {
    && |s| == |prog| && k <= |c|
    && (forall i :: 0 <= i < |c| ==> c[i] < |s|)
    && (forall i :: 0 <= i < k ==> s[c[i]].One?)
    && (forall t :: 0 <= t < |s| && t !in c[..k] ==> s[t].Idle?)
  }

  lemma {:induction false} TakeFirsts(prog: Program, c: seq<nat>, k: nat) returns (s: State)
    requires Cycle(prog, c) && k <= |c|
    ensures Reachable(prog, s) && TookFirst(prog, c, k, s)
  {
    if k == 0 {
      s := Init(prog);
      assert Runs(prog, s, [], s);
    } else {
      var r := TakeFirsts(prog, c, k - 1);
      assert c[k - 1] !in c[..k - 1];
      var lock := prog[c[k - 1]].first;
      forall t | 0 <= t < |r|
        ensures !Holds(prog, r, t, lock)
      {
        if t in c[..k - 1] {
          var i :| 0 <= i < k - 1 && c[i] == t;
        }
      }
      ReachableStep(prog, r, c[k - 1]);
      s := Step(r, c[k - 1]);
      assert c[..k] == c[..k - 1] + [c[k - 1]];
    }
  }

  ghost predicate Locked(prog: Program, c: seq<nat>, s: State) {
    |s| == |prog| && forall i :: 0 <= i < |c| ==> c[i] < |s| && s[c[i]].One?
  }

  lemma LockedBlocked(prog: Program, c: seq<nat>, s: State, i: nat)
    requires Cycle(prog, c) && Locked(prog, c, s) && i < |c|
    ensures !Enabled(prog, s, c[i])
  {
    var holder := c[if i == |c| - 1 then 0 else i + 1];
    assert Holds(prog, s, holder, prog[c[i]].second);
  }

  /** Whatever the other threads do, the threads of the cycle stay blocked. */
  lemma RunToStuck(prog: Program, c: seq<nat>, s: State) returns (t: State)
    requires Cycle(prog, c) && Locked(prog, c, s) && Reachable(prog, s)
    ensures Reachable(prog, t) && |t| == |prog| && Stuck(prog, t)
    decreases Total(s, Remaining)
  {
    if u :| 0 <= u < |s| && Enabled(prog, s, u) {
      forall i | 0 <= i < |c|
        ensures c[i] != u
      {
        LockedBlocked(prog, c, s, i);
      }
      ReachableStep(prog, s, u);
      TotalUpdate(s, u, Next(s[u]), Remaining);
      t := RunToStuck(prog, c, Step(s, u));
    } else {
      t := s;
      assert s[c[0]].One?;
    }
  }

  /** Exactly the cyclic acquisition orders can deadlock. */
  lemma DeadlockIffCycle(prog: Program)
    ensures (exists s :: Reachable(prog, s) && |s| == |prog| && Stuck(prog, s)) <==> HasCycle(prog)
  {
    if s :| Reachable(prog, s) && |s| == |prog| && Stuck(prog, s) {
      ReachableExclusive(prog, s);
      StuckHasCycle(prog, s);
    }
    if HasCycle(prog) {
      var c :| Cycle(prog, c);
      var s := TakeFirsts(prog, c, |c|);
      assert c[..|c|] == c;
      var t := RunToStuck(prog, c, s);
    }
  }

  // ---------- the source's two orders ----------

  /** `sorted((first_intended, second_intended), key=id)` */
  function Sorted(wish: Order): Order {
    if wish.second < wish.first then Order(wish.second, wish.first) else wish
  }

  function SortAll(wishes: Program): (prog: Program)
    ensures |prog| == |wishes|
    ensures forall t :: 0 <= t < |wishes| ==> prog[t] == Sorted(wishes[t])
  {
    seq(|wishes|, t requires 0 <= t < |wishes| => Sorted(wishes[t]))
  }

  lemma {:induction false} FirstsAscend(prog: Program, c: seq<nat>, i: nat)
    requires Cycle(prog, c) && i < |c|
    requires forall t :: 0 <= t < |prog| ==> prog[t].first <= prog[t].second
    ensures prog[c[0]].first <= prog[c[i]].first
    ensures i > 0 ==> prog[c[0]].first < prog[c[i]].first
  {
    if i > 0 {
      FirstsAscend(prog, c, i - 1);
      assert prog[c[i - 1]].second == prog[c[i]].first;
    }
  }

  /** With the global order, deadlock is possible exactly when some thread asks for one lock twice. */
  lemma SortedDeadlockIff(wishes: Program)
    ensures HasCycle(SortAll(wishes)) <==> exists t :: 0 <= t < |wishes| && wishes[t].first == wishes[t].second
  {
    var prog := SortAll(wishes);
    if HasCycle(prog) {
      var c :| Cycle(prog, c);
      FirstsAscend(prog, c, |c| - 1);
      assert prog[c[|c| - 1]].second == prog[c[0]].first;
      assert wishes[c[0]].first == wishes[c[0]].second;
    }
    if t :| 0 <= t < |wishes| && wishes[t].first == wishes[t].second {
      assert Cycle(prog, [t]);
    }
  }

  /** `fixed_with_global_ordering`: every run of sorted transfers over distinct locks takes at most
      four steps per thread, and ends only with every thread finished. */
  lemma SortedRunsFinish(wishes: Program, schedule: seq<nat>, s: State)
    requires forall t :: 0 <= t < |wishes| ==> wishes[t].first != wishes[t].second
    requires Runs(SortAll(wishes), Init(SortAll(wishes)), schedule, s)
    ensures |s| == |wishes| && |schedule| <= 4 * |wishes|
    ensures (forall t :: 0 <= t < |s| ==> !Enabled(SortAll(wishes), s, t)) <==> AllFinished(s)
    ensures AllFinished(s) <==> |schedule| == 4 * |wishes|
  {
    var prog := SortAll(wishes);
    SortedDeadlockIff(wishes);
    DeadlockIffCycle(prog);
    assert Reachable(prog, s);
    RunKeeps(prog, Init(prog), schedule, s);
    TotalConstant(Init(prog), Remaining, 4);
    if AllFinished(s) {
      TotalConstant(s, Remaining, 0);
    } else {
      var t :| 0 <= t < |s| && !s[t].Finished?;
      TotalCovers(s, t, Remaining);
      assert !Stuck(prog, s);
    }
  }

  /** `demonstrate_deadlock`: thread 1 takes a then b, thread 2 takes b then a. */
  lemma OppositeOrdersDeadlock(a: nat, b: nat)
    requires a != b
    ensures exists s :: Reachable([Order(a, b), Order(b, a)], s) && |s| == 2 && Stuck([Order(a, b), Order(b, a)], s)
  {
    var prog := [Order(a, b), Order(b, a)];
    assert Cycle(prog, [0, 1]);
    DeadlockIffCycle(prog);
  }

  /** The transfers run to the end under an arbitrary scheduler. */
  method RunTransfers(wishes: Program) returns (completed: seq<bool>)
    requires forall t :: 0 <= t < |wishes| ==> wishes[t].first != wishes[t].second
    ensures |completed| == |wishes| && forall t :: 0 <= t < |wishes| ==> completed[t]
  {
    var prog := SortAll(wishes);
    var s := Init(prog);
    completed := seq(|wishes|, _ => false);
    assert Runs(prog, s, [], s);
    while !AllFinished(s)
      invariant Reachable(prog, s) && |s| == |prog| && |completed| == |s|
      invariant forall t :: 0 <= t < |s| && (s[t].Both? || s[t].Leaving? || s[t].Finished?) ==> completed[t]
      decreases Total(s, Remaining)
    {
      ghost var schedule :| Runs(prog, Init(prog), schedule, s);
      SortedRunsFinish(wishes, schedule, s);
      var t: nat :| t < |s| && Enabled(prog, s, t);
      ReachableStep(prog, s, t);
      TotalUpdate(s, t, Next(s[t]), Remaining);
      s := Step(s, t);
      if s[t].Both? {
        completed := completed[t := true];
      }
    }
  }
}
