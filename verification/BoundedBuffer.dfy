/**
  The bounded buffer of os_net/operating_system/examples/producer_consumer.py as a machine of
  atomic steps taken at lock boundaries: one mutex, the conditions `not_full` and `not_empty`,
  any number of producers and consumers, and a main thread that joins the producers, puts one
  pill per consumer and joins the consumers.

  `notify()` wakes any one waiter of its condition (the scheduler chooses which), and a waiter
  may also wake spuriously.
*/
module BoundedBuffer {
  import opened Totals

  // ---------- data model ----------

  /** `Real(p, i)` is the i-th item of producer p; `Pill` is `_DONE`. */
  datatype Item = Real(pid: nat, index: nat) | Pill

  /** `Joining` and `Closing` are the main thread's two joins; `Waiting` is asleep on `not_full`;
      `Notified` was woken and has still to reacquire the lock and test its condition again. */
  datatype PutterStatus = Joining | Runnable | Waiting | Notified | Closing | Finished

  /** A thread that has performed `next` of its `quota` puts. */
  datatype Putter = Putter(next: nat, quota: nat, status: PutterStatus) {
    predicate Active() { status.Runnable? || status.Notified? }
  }

  /** A consumer: about to call `get`, asleep on `not_empty`, woken, holding an item it has not
      recorded yet, or gone after its pill. */
  datatype Getter = Hungry | Asleep | Woken | Holding(item: Item) | Exited {
    predicate Active() { Hungry? || Woken? }
  }

  datatype Config = Config(producers: nat, consumers: nat, perProducer: nat, capacity: nat) {
    predicate Valid() { consumers >= 1 && capacity >= 1 }
    function MainThread(): nat { producers }
    function ItemOf(p: nat, i: nat): Item { if p < producers then Real(p, i) else Pill }
    /** The integer `pid * per_producer + i` that the source puts for `Real(pid, i)`. */
    function Value(x: Item): nat
      requires x.Real?
    { x.pid * perProducer + x.index }
  }

  /** `taken` is the history of items in the order in which they left the buffer. */
  datatype State = State(buf: seq<Item>, putters: seq<Putter>, getters: seq<Getter>,
                         taken: seq<Item>, consumed: seq<Item>) {
    /** Everything ever put, in order of arrival. */
    function Line(): seq<Item> { taken + buf }
  }

  /** `Put` and `Get` carry the waiter that their `notify()` wakes, if there is one to wake. */
  datatype Action =
    | JoinProducers
    | Put(p: nat, wakes: nat)
    | Get(c: nat, wakes: nat)
    | Record(c: nat)
    | JoinConsumers
    | SpuriousPutter(p: nat)
    | SpuriousGetter(c: nat)
  {
    predicate Spurious() { SpuriousPutter? || SpuriousGetter? }
  }

  // ---------- transitions ----------

  function AfterPut(cfg: Config, p: nat, next: nat, quota: nat): Putter {
    Putter(next, quota,
           if next < quota then Runnable else if p == cfg.MainThread() then Closing else Finished)
  }

  function Init(cfg: Config): State {
    State([], seq(cfg.producers, p => Putter(0, cfg.perProducer, if 0 < cfg.perProducer then Runnable else Finished))
              + [Putter(0, cfg.consumers, Joining)],
          seq(cfg.consumers, c => Hungry), [], [])
  }

  predicate SomeAsleep(s: State) { exists c :: 0 <= c < |s.getters| && s.getters[c].Asleep? }

  predicate SomeWaiting(s: State) { exists p :: 0 <= p < |s.putters| && s.putters[p].status.Waiting? }

  predicate ProducersFinished(cfg: Config, s: State)
    requires |s.putters| == cfg.producers + 1
  {
    forall p :: 0 <= p < cfg.producers ==> s.putters[p].status.Finished?
  }

  predicate AllExited(s: State) { forall c :: 0 <= c < |s.getters| ==> s.getters[c].Exited? }

  /** Every thread of the program has ended. */
  predicate Done(s: State) {
    (forall p :: 0 <= p < |s.putters| ==> s.putters[p].status.Finished?) && AllExited(s)
  }

  predicate Shaped(cfg: Config, s: State) {
    |s.putters| == cfg.producers + 1 && |s.getters| == cfg.consumers
  }

  predicate Enabled(cfg: Config, s: State, a: Action)
    requires Shaped(cfg, s)
  {
    match a
    case JoinProducers => s.putters[cfg.MainThread()].status.Joining? && ProducersFinished(cfg, s)
    case Put(p, w) =>
      && p < |s.putters| && s.putters[p].Active()
      && (|s.buf| < cfg.capacity && SomeAsleep(s) ==> w < |s.getters| && s.getters[w].Asleep?)
    case Get(c, w) =>
      && c < |s.getters| && s.getters[c].Active()
      && (s.buf != [] && SomeWaiting(s) ==> w < |s.putters| && s.putters[w].status.Waiting?)
    case Record(c) => c < |s.getters| && s.getters[c].Holding?
    case JoinConsumers => s.putters[cfg.MainThread()].status.Closing? && AllExited(s)
    case SpuriousPutter(p) => p < |s.putters| && s.putters[p].status.Waiting?
    case SpuriousGetter(c) => c < |s.getters| && s.getters[c].Asleep?
  }

  /** `self._not_empty.notify()` */
  function NotifyGetter(s: State, w: nat): State {
    if w < |s.getters| && s.getters[w].Asleep? then s.(getters := s.getters[w := Woken]) else s
  }

  /** `self._not_full.notify()` */
  function NotifyPutter(s: State, w: nat): State {
    if w < |s.putters| && s.putters[w].status.Waiting?
    then s.(putters := s.putters[w := s.putters[w].(status := Notified)]) else s
  }

  function Apply(cfg: Config, s: State, a: Action): State
    requires Shaped(cfg, s) && Enabled(cfg, s, a)
  {
    match a
    case JoinProducers =>
      s.(putters := s.putters[cfg.MainThread() := s.putters[cfg.MainThread()].(status := Runnable)])
    case Put(p, w) =>
      var t := s.putters[p];
      if |s.buf| >= cfg.capacity then
        s.(putters := s.putters[p := t.(status := Waiting)])
      else
        NotifyGetter(s.(buf := s.buf + [cfg.ItemOf(p, t.next)],
                        putters := s.putters[p := AfterPut(cfg, p, t.next + 1, t.quota)]), w)
    case Get(c, w) =>
      if s.buf == [] then
        s.(getters := s.getters[c := Asleep])
      else
        var x := s.buf[0];
        NotifyPutter(s.(buf := s.buf[1..], taken := s.taken + [x],
                        getters := s.getters[c := if x.Pill? then Exited else Holding(x)]), w)
    case Record(c) =>
      s.(consumed := s.consumed + [s.getters[c].item], getters := s.getters[c := Hungry])
    case JoinConsumers =>
      s.(putters := s.putters[cfg.MainThread() := s.putters[cfg.MainThread()].(status := Finished)])
    case SpuriousPutter(p) => s.(putters := s.putters[p := s.putters[p].(status := Notified)])
    case SpuriousGetter(c) => s.(getters := s.getters[c := Woken])
  }

  // ---------- invariants ----------

  function WokenWeight(g: Getter): nat { if g.Woken? then 1 else 0 }
  function NotifiedWeight(t: Putter): nat { if t.status.Notified? then 1 else 0 }
  function ExitedWeight(g: Getter): nat { if g.Exited? then 1 else 0 }

  /** No wake-up is lost: while a thread sleeps un-notified, every unit it could be waiting for
      (an item, or a free slot) is matched by a thread already notified of it. */
  ghost predicate NoLostWakeup(cfg: Config, s: State) {
    && (SomeAsleep(s) ==> |s.buf| <= Total(s.getters, WokenWeight))
    && (SomeWaiting(s) ==> cfg.capacity - |s.buf| <= Total(s.putters, NotifiedWeight))
  }

  predicate PutterOk(cfg: Config, p: nat, t: Putter) {
    && t.quota == (if p == cfg.MainThread() then cfg.consumers else cfg.perProducer)
    && t.next <= t.quota
    && (t.status.Runnable? || t.status.Waiting? || t.status.Notified? ==> t.next < t.quota)
    && (t.status.Finished? || t.status.Closing? ==> t.next == t.quota)
    && (t.status.Joining? ==> p == cfg.MainThread() && t.next == 0)
    && (t.status.Closing? ==> p == cfg.MainThread())
  }

  ghost predicate ThreadsOk(cfg: Config, s: State) {
    && cfg.Valid() && Shaped(cfg, s)
    && (forall p :: 0 <= p < |s.putters| ==> PutterOk(cfg, p, s.putters[p]))
    && (!s.putters[cfg.MainThread()].status.Joining? ==> ProducersFinished(cfg, s))
    && (s.putters[cfg.MainThread()].status.Finished? ==> AllExited(s))
    && |s.buf| <= cfg.capacity
  }

  /** The arrival line holds exactly the items put so far, each producer's items in increasing
      order (hence each once), and all pills at its end. */
  ghost predicate LineOk(cfg: Config, putters: seq<Putter>, line: seq<Item>)
    requires |putters| == cfg.producers + 1
  {
    && (forall k :: 0 <= k < |line| && line[k].Real? ==>
          line[k].pid < cfg.producers && line[k].index < putters[line[k].pid].next)
    && (forall p, i :: 0 <= p < cfg.producers && 0 <= i < putters[p].next ==> Real(p, i) in line)
    && InOrder(line)
    && multiset(line)[Pill] == putters[cfg.MainThread()].next
  }

  ghost predicate InOrder(line: seq<Item>) {
    forall j, k :: 0 <= j < k < |line| ==> Before(line[j], line[k])
  }

  /** `x` may precede `y` in the arrival line. */
  predicate Before(x: Item, y: Item) {
    && (x.Pill? ==> y.Pill?)
    && (x.Real? && y.Real? && x.pid == y.pid ==> x.index < y.index)
  }

  /** How many consumers hold x. */
  ghost function Held(gs: seq<Getter>, x: Item): nat {
    if gs == [] then 0 else InHand(gs[0], x) + Held(gs[1..], x)
  }

  ghost function InHand(g: Getter, x: Item): nat { if g == Holding(x) then 1 else 0 }

  /** What left the buffer is recorded, held, or was a pill that ended a consumer. */
  ghost predicate Conserved(s: State) {
    && (forall c :: 0 <= c < |s.getters| && s.getters[c].Holding? ==> s.getters[c].item.Real?)
    && (forall k :: 0 <= k < |s.consumed| ==> s.consumed[k].Real?)
    && (forall x: Item :: x.Real? ==> multiset(s.taken)[x] == multiset(s.consumed)[x] + Held(s.getters, x))
    && multiset(s.taken)[Pill] == Total(s.getters, ExitedWeight)
  }

  ghost predicate Inv(cfg: Config, s: State) {
    ThreadsOk(cfg, s) && NoLostWakeup(cfg, s) && LineOk(cfg, s.putters, s.Line()) && Conserved(s)
  }

  // ---------- preservation ----------

  lemma {:induction false} HeldUpdate(gs: seq<Getter>, c: nat, g: Getter, x: Item)
    requires c < |gs|
    ensures Held(gs[c := g], x) + InHand(gs[c], x) == Held(gs, x) + InHand(g, x)
  {
    if c == 0 {
      assert gs[c := g][1..] == gs[1..];
    } else {
      assert gs[c := g][1..] == gs[1..][c - 1 := g];
      HeldUpdate(gs[1..], c - 1, g, x);
    }
  }

  lemma {:induction false} HeldNothing(gs: seq<Getter>, x: Item)
    requires forall c :: 0 <= c < |gs| ==> !gs[c].Holding?
    ensures Held(gs, x) == 0
  {
    if gs != [] {
      HeldNothing(gs[1..], x);
    }
  }

  lemma InitInv(cfg: Config)
    requires cfg.Valid()
    ensures Inv(cfg, Init(cfg))
  {
    var s := Init(cfg);
    TotalConstant(s.getters, ExitedWeight, 0);
    forall x: Item
      ensures Held(s.getters, x) == 0
    {
      HeldNothing(s.getters, x);
    }
  }

  lemma ThreadsPreserved(cfg: Config, s: State, a: Action)
    requires ThreadsOk(cfg, s) && Enabled(cfg, s, a)
    ensures ThreadsOk(cfg, Apply(cfg, s, a))
  {
  }

  lemma PutWakes(cfg: Config, s: State, p: nat, w: nat)
    requires ThreadsOk(cfg, s) && NoLostWakeup(cfg, s) && Enabled(cfg, s, Action.Put(p, w))
    ensures NoLostWakeup(cfg, Apply(cfg, s, Action.Put(p, w)))
  {
    var t := s.putters[p];
    TotalCovers(s.putters, p, NotifiedWeight);
    if |s.buf| >= cfg.capacity {
      TotalUpdate(s.putters, p, t.(status := Waiting), NotifiedWeight);
    } else {
      TotalUpdate(s.putters, p, AfterPut(cfg, p, t.next + 1, t.quota), NotifiedWeight);
      if w < |s.getters| { TotalUpdate(s.getters, w, Woken, WokenWeight); }
    }
  }

  lemma GetWakes(cfg: Config, s: State, c: nat, w: nat)
    requires ThreadsOk(cfg, s) && NoLostWakeup(cfg, s) && Enabled(cfg, s, Action.Get(c, w))
    ensures NoLostWakeup(cfg, Apply(cfg, s, Action.Get(c, w)))
  {
    TotalCovers(s.getters, c, WokenWeight);
    if s.buf == [] {
      TotalUpdate(s.getters, c, Asleep, WokenWeight);
    } else {
      TotalUpdate(s.getters, c, if s.buf[0].Pill? then Exited else Holding(s.buf[0]), WokenWeight);
      if w < |s.putters| { TotalUpdate(s.putters, w, s.putters[w].(status := Notified), NotifiedWeight); }
    }
  }

  /** The heart of the wake-up argument: a single `notify()` per operation is enough. */
  lemma WakeupPreserved(cfg: Config, s: State, a: Action)
    requires ThreadsOk(cfg, s) && NoLostWakeup(cfg, s) && Enabled(cfg, s, a)
    ensures NoLostWakeup(cfg, Apply(cfg, s, a))
  {
    match a
    case Put(p, w) => PutWakes(cfg, s, p, w);
    case Get(c, w) => GetWakes(cfg, s, c, w);
    case Record(c) => TotalUpdate(s.getters, c, Hungry, WokenWeight);
    case SpuriousGetter(c) => TotalUpdate(s.getters, c, Woken, WokenWeight);
    case SpuriousPutter(p) => TotalUpdate(s.putters, p, s.putters[p].(status := Notified), NotifiedWeight);
    case JoinProducers =>
      TotalUpdate(s.putters, cfg.MainThread(), s.putters[cfg.MainThread()].(status := Runnable), NotifiedWeight);
    case JoinConsumers =>
      TotalUpdate(s.putters, cfg.MainThread(), s.putters[cfg.MainThread()].(status := Finished), NotifiedWeight);
  }

  /** A successful put extends the line; the pill rule holds because main joins the producers first. */
  lemma LineExtended(cfg: Config, putters: seq<Putter>, line: seq<Item>, p: nat, t: Putter)
    requires |putters| == cfg.producers + 1 && p < |putters|
    requires LineOk(cfg, putters, line) && t.next == putters[p].next + 1
    requires multiset(line)[Pill] == 0 || p == cfg.MainThread()
    ensures LineOk(cfg, putters[p := t], line + [cfg.ItemOf(p, putters[p].next)])
  {
    var x := cfg.ItemOf(p, putters[p].next);
    var after := line + [x];
    assert x in after by { assert after[|line|] == x; }
    forall q, i | 0 <= q < cfg.producers && 0 <= i < putters[p := t][q].next
      ensures Real(q, i) in after
    {
      if q != p || i < putters[p].next {
        assert Real(q, i) in line;
      }
    }
    forall j | 0 <= j < |line|
      ensures Before(line[j], x)
    {
      if line[j].Pill? {
        assert Pill in multiset(line);
      }
    }
  }

  lemma LineKept(cfg: Config, before: seq<Putter>, after: seq<Putter>, line: seq<Item>)
    requires |before| == |after| == cfg.producers + 1 && LineOk(cfg, before, line)
    requires forall p :: 0 <= p < |before| ==> after[p].next == before[p].next
    ensures LineOk(cfg, after, line)
  {
  }

  /** Every step that puts nothing leaves the line and everyone's count alone. */
  lemma OnlyPutsExtend(cfg: Config, s: State, a: Action)
    requires Shaped(cfg, s) && Enabled(cfg, s, a) && !(a.Put? && |s.buf| < cfg.capacity)
    ensures var t := Apply(cfg, s, a);
            && t.Line() == s.Line() && |t.putters| == |s.putters|
            && forall p :: 0 <= p < |s.putters| ==> t.putters[p].next == s.putters[p].next
  {
  }

  lemma LinePreserved(cfg: Config, s: State, a: Action)
    requires ThreadsOk(cfg, s) && LineOk(cfg, s.putters, s.Line()) && Enabled(cfg, s, a)
    ensures LineOk(cfg, Apply(cfg, s, a).putters, Apply(cfg, s, a).Line())
  {
    var t := Apply(cfg, s, a);
    if a.Put? && |s.buf| < cfg.capacity {
      var after := AfterPut(cfg, a.p, s.putters[a.p].next + 1, s.putters[a.p].quota);
      assert t.putters == s.putters[a.p := after];
      assert t.Line() == s.Line() + [cfg.ItemOf(a.p, s.putters[a.p].next)];
      LineExtended(cfg, s.putters, s.Line(), a.p, after);
    } else {
      OnlyPutsExtend(cfg, s, a);
      LineKept(cfg, s.putters, t.putters, s.Line());
    }
  }

  lemma GetterMoved(gs: seq<Getter>, c: nat, g: Getter)
    requires c < |gs|
    ensures Total(gs[c := g], ExitedWeight) + ExitedWeight(gs[c]) == Total(gs, ExitedWeight) + ExitedWeight(g)
    ensures forall x :: Held(gs[c := g], x) + InHand(gs[c], x) == Held(gs, x) + InHand(g, x)
  {
    TotalUpdate(gs, c, g, ExitedWeight);
    forall x
      ensures Held(gs[c := g], x) + InHand(gs[c], x) == Held(gs, x) + InHand(g, x)
    {
      HeldUpdate(gs, c, g, x);
    }
  }

  lemma GetConserves(s: State, t: State, c: nat)
    requires Conserved(s) && c < |s.getters| && s.getters[c].Active() && s.buf != []
    requires t.taken == s.taken + [s.buf[0]] && t.consumed == s.consumed
    requires t.getters == s.getters[c := if s.buf[0].Pill? then Exited else Holding(s.buf[0])]
    ensures Conserved(t)
  {
    GetterMoved(s.getters, c, t.getters[c]);
  }

  lemma RecordConserves(s: State, t: State, c: nat)
    requires Conserved(s) && c < |s.getters| && s.getters[c].Holding?
    requires t.taken == s.taken && t.consumed == s.consumed + [s.getters[c].item]
    requires t.getters == s.getters[c := Hungry]
    ensures Conserved(t)
  {
    GetterMoved(s.getters, c, Hungry);
  }

  lemma NapConserves(s: State, t: State, c: nat, g: Getter)
    requires Conserved(s) && c < |s.getters| && (s.getters[c].Active() || s.getters[c].Asleep?)
    requires t.taken == s.taken && t.consumed == s.consumed
    requires t.getters == s.getters[c := g] && (g.Asleep? || g.Woken?)
    ensures Conserved(t)
  {
    GetterMoved(s.getters, c, g);
  }

  lemma ConservedPreserved(cfg: Config, s: State, a: Action)
    requires Shaped(cfg, s) && Conserved(s) && Enabled(cfg, s, a)
    ensures Conserved(Apply(cfg, s, a))
  {
    var t := Apply(cfg, s, a);
    if a.Get? && s.buf != [] {
      GetConserves(s, t, a.c);
    } else if a.Get? {
      NapConserves(s, t, a.c, Asleep);
    } else if a.Record? {
      RecordConserves(s, t, a.c);
    } else if a.SpuriousGetter? {
      NapConserves(s, t, a.c, Woken);
    } else if a.Put? && t.getters != s.getters {
      NapConserves(s, t, a.wakes, Woken);
    }
  }

  /** Every step of every thread keeps the whole invariant. */
  lemma StepPreserves(cfg: Config, s: State, a: Action)
    requires Inv(cfg, s) && Enabled(cfg, s, a)
    ensures Inv(cfg, Apply(cfg, s, a))
  {
    ThreadsPreserved(cfg, s, a);
    WakeupPreserved(cfg, s, a);
    LinePreserved(cfg, s, a);
    ConservedPreserved(cfg, s, a);
  }

  // ---------- progress ----------

  lemma NobodyActive(cfg: Config, s: State)
    requires ThreadsOk(cfg, s)
    requires forall p :: 0 <= p < |s.putters| ==> !s.putters[p].Active()
    requires forall c :: 0 <= c < |s.getters| ==> !s.getters[c].Active()
    ensures Total(s.getters, WokenWeight) == 0 && Total(s.putters, NotifiedWeight) == 0
  {
    TotalConstant(s.getters, WokenWeight, 0);
    TotalConstant(s.putters, NotifiedWeight, 0);
  }

  /** If nobody can run, a putter asleep on `not_full` leaves all consumers gone. */
  lemma FullMeansExited(cfg: Config, s: State)
    requires Inv(cfg, s) && SomeWaiting(s)
    requires forall p :: 0 <= p < |s.putters| ==> !s.putters[p].Active()
    requires forall c :: 0 <= c < |s.getters| ==> !s.getters[c].Active() && !s.getters[c].Holding?
    ensures Total(s.getters, ExitedWeight) == cfg.consumers
  {
    NobodyActive(cfg, s);
    assert |s.buf| >= 1;
    assert !SomeAsleep(s);
    assert forall c :: 0 <= c < |s.getters| ==> s.getters[c].Exited?;
    TotalConstant(s.getters, ExitedWeight, 1);
  }

  /** No reachable state is stuck: while some thread is unfinished, some thread can take a step
      that is not a spurious wake-up. */
  lemma Progress(cfg: Config, s: State) returns (a: Action)
    requires Inv(cfg, s) && !Done(s)
    ensures Enabled(cfg, s, a) && !a.Spurious()
  {
    var m := s.putters[cfg.MainThread()];
    if p :| 0 <= p < |s.putters| && s.putters[p].Active() {
      var w :| w >= 0 && (SomeAsleep(s) ==> w < |s.getters| && s.getters[w].Asleep?);
      return Put(p, w);
    }
    if c :| 0 <= c < |s.getters| && s.getters[c].Active() {
      var w :| w >= 0 && (SomeWaiting(s) ==> w < |s.putters| && s.putters[w].status.Waiting?);
      return Get(c, w);
    }
    if c :| 0 <= c < |s.getters| && s.getters[c].Holding? {
      return Record(c);
    }
    assert multiset(s.Line())[Pill] == multiset(s.taken)[Pill] + multiset(s.buf)[Pill];
    if SomeWaiting(s) {
      FullMeansExited(cfg, s);
      assert false;
    }
    if m.status.Joining? {
      assert ProducersFinished(cfg, s);
      return JoinProducers;
    }
    if AllExited(s) {
      assert m.status.Closing?;
      return JoinConsumers;
    }
    assert SomeAsleep(s) && m.status.Closing?;
    NobodyActive(cfg, s);
    assert s.buf == [];
    TotalAtMostLength(s.getters, ExitedWeight);
    assert false;
  }

  // ---------- termination ----------

  function StatusWeight(st: PutterStatus): nat {
    match st
    case Joining => 2
    case Runnable => 1
    case Notified => 1
    case Closing => 1
    case Waiting => 0
    case Finished => 0
  }

  function PutterWeight(t: Putter): nat {
    (if t.next <= t.quota then 6 * (t.quota - t.next) else 0) + StatusWeight(t.status)
  }

  function GetterWeight(g: Getter): nat {
    match g
    case Hungry => 1
    case Woken => 1
    case Holding(_) => 2
    case Asleep => 0
    case Exited => 0
  }

  /** Each remaining put costs two transfers (in and out), each buffered item one. */
  function Measure(s: State): nat {
    Total(s.putters, PutterWeight) + 3 * |s.buf| + Total(s.getters, GetterWeight)
  }

  lemma PutDecreases(cfg: Config, s: State, p: nat, w: nat)
    requires ThreadsOk(cfg, s) && Enabled(cfg, s, Action.Put(p, w))
    ensures Measure(Apply(cfg, s, Action.Put(p, w))) < Measure(s)
  {
    var t := s.putters[p];
    assert PutterOk(cfg, p, t);
    if |s.buf| >= cfg.capacity {
      TotalUpdate(s.putters, p, t.(status := Waiting), PutterWeight);
    } else {
      TotalUpdate(s.putters, p, AfterPut(cfg, p, t.next + 1, t.quota), PutterWeight);
      assert PutterWeight(AfterPut(cfg, p, t.next + 1, t.quota)) + 5 <= PutterWeight(t);
      if w < |s.getters| { TotalUpdate(s.getters, w, Woken, GetterWeight); }
    }
  }

  lemma GetDecreases(cfg: Config, s: State, c: nat, w: nat)
    requires ThreadsOk(cfg, s) && Enabled(cfg, s, Action.Get(c, w))
    ensures Measure(Apply(cfg, s, Action.Get(c, w))) < Measure(s)
  {
    if s.buf == [] {
      TotalUpdate(s.getters, c, Asleep, GetterWeight);
    } else {
      TotalUpdate(s.getters, c, if s.buf[0].Pill? then Exited else Holding(s.buf[0]), GetterWeight);
      if w < |s.putters| { TotalUpdate(s.putters, w, s.putters[w].(status := Notified), PutterWeight); }
    }
  }

  lemma QuietDecreases(cfg: Config, s: State, a: Action)
    requires Shaped(cfg, s) && Enabled(cfg, s, a) && !a.Put? && !a.Get?
    ensures Measure(Apply(cfg, s, a)) == if a.Spurious() then Measure(s) + 1 else Measure(s) - 1
  {
    var main := cfg.MainThread();
    match a
    case Record(c) => TotalUpdate(s.getters, c, Hungry, GetterWeight);
    case SpuriousGetter(c) => TotalUpdate(s.getters, c, Woken, GetterWeight);
    case SpuriousPutter(p) => TotalUpdate(s.putters, p, s.putters[p].(status := Notified), PutterWeight);
    case JoinProducers => TotalUpdate(s.putters, main, s.putters[main].(status := Runnable), PutterWeight);
    case JoinConsumers => TotalUpdate(s.putters, main, s.putters[main].(status := Finished), PutterWeight);
  }

  /** Every step uses up measure, except that a spurious wake-up hands one unit back. */
  lemma StepDecreases(cfg: Config, s: State, a: Action)
    requires ThreadsOk(cfg, s) && Enabled(cfg, s, a)
    ensures a.Spurious() ==> Measure(Apply(cfg, s, a)) == Measure(s) + 1
    ensures !a.Spurious() ==> Measure(Apply(cfg, s, a)) < Measure(s)
  {
    if a.Put? {
      PutDecreases(cfg, s, a.p, a.wakes);
    } else if a.Get? {
      GetDecreases(cfg, s, a.c, a.wakes);
    } else {
      QuietDecreases(cfg, s, a);
    }
  }

  /** Number of steps a run may take besides spurious wake-ups. */
  function StepBound(cfg: Config): nat {
    cfg.producers * (6 * cfg.perProducer + 1) + 7 * cfg.consumers + 2
  }

  lemma {:induction false} TotalSplit<T>(s: seq<T>, x: T, weight: T -> nat)
    ensures Total(s + [x], weight) == Total(s, weight) + weight(x)
  {
    if s != [] {
      assert (s + [x])[1..] == s[1..] + [x];
      TotalSplit(s[1..], x, weight);
    } else {
      assert s + [x] == [x];
    }
  }

  lemma {:induction false} TotalAtMost<T>(s: seq<T>, weight: T -> nat, k: nat)
    requires forall i :: 0 <= i < |s| ==> weight(s[i]) <= k
    ensures Total(s, weight) <= |s| * k
  {
    if s != [] {
      TotalAtMost(s[1..], weight, k);
    }
  }

  lemma InitMeasure(cfg: Config)
    ensures Measure(Init(cfg)) <= StepBound(cfg)
  {
    var s := Init(cfg);
    var producers := s.putters[..cfg.producers];
    assert s.putters == producers + [Putter(0, cfg.consumers, Joining)];
    TotalSplit(producers, Putter(0, cfg.consumers, Joining), PutterWeight);
    TotalAtMost(producers, PutterWeight, 6 * cfg.perProducer + 1);
    TotalConstant(s.getters, GetterWeight, 1);
  }

  // ---------- whole runs ----------

  ghost predicate Runs(cfg: Config, s: State, actions: seq<Action>, t: State)
    decreases |actions|
  {
    if actions == [] then s == t
    else Shaped(cfg, s) && Enabled(cfg, s, actions[0]) && Runs(cfg, Apply(cfg, s, actions[0]), actions[1..], t)
  }

  function SpuriousWeight(a: Action): nat { if a.Spurious() then 1 else 0 }

  lemma {:induction false} RunKeeps(cfg: Config, s: State, actions: seq<Action>, t: State)
    requires Inv(cfg, s) && Runs(cfg, s, actions, t)
    ensures Inv(cfg, t)
    ensures |actions| + Measure(t) <= Measure(s) + 2 * Total(actions, SpuriousWeight)
    decreases |actions|
  {
    if actions != [] {
      StepPreserves(cfg, s, actions[0]);
      StepDecreases(cfg, s, actions[0]);
      RunKeeps(cfg, Apply(cfg, s, actions[0]), actions[1..], t);
    }
  }

  /** Some run of the program leads to `s`. */
  ghost predicate Reachable(cfg: Config, s: State) {
    exists actions :: Runs(cfg, Init(cfg), actions, s)
  }

  lemma {:induction false} RunThenStep(cfg: Config, s: State, actions: seq<Action>, t: State, a: Action)
    requires Runs(cfg, s, actions, t) && Shaped(cfg, t) && Enabled(cfg, t, a)
    ensures Runs(cfg, s, actions + [a], Apply(cfg, t, a))
    decreases |actions|
  {
    if actions == [] {
      assert (actions + [a])[1..] == [];
    } else {
      assert (actions + [a])[1..] == actions[1..] + [a];
      RunThenStep(cfg, Apply(cfg, s, actions[0]), actions[1..], t, a);
    }
  }

  lemma ReachableStep(cfg: Config, s: State, a: Action)
    requires Reachable(cfg, s) && Shaped(cfg, s) && Enabled(cfg, s, a)
    ensures Reachable(cfg, Apply(cfg, s, a))
  {
    var actions :| Runs(cfg, Init(cfg), actions, s);
    RunThenStep(cfg, Init(cfg), actions, s, a);
  }

  lemma ReachableInv(cfg: Config, s: State)
    requires cfg.Valid() && Reachable(cfg, s)
    ensures Inv(cfg, s)
  {
    var actions :| Runs(cfg, Init(cfg), actions, s);
    InitInv(cfg);
    RunKeeps(cfg, Init(cfg), actions, s);
  }

  /** The source's `verify`: no duplicates, exactly the expected set, and the expected count. */
  ghost predicate Verified(cfg: Config, consumed: seq<int>) {
    && (forall j, k :: 0 <= j < k < |consumed| ==> consumed[j] != consumed[k])
    && (forall v :: v in consumed <==> 0 <= v < cfg.producers * cfg.perProducer)
    && |consumed| == cfg.producers * cfg.perProducer
  }

  function Values(cfg: Config, items: seq<Item>): (vs: seq<int>)
    requires forall k :: 0 <= k < |items| ==> items[k].Real?
    ensures |vs| == |items| && forall k :: 0 <= k < |items| ==> vs[k] == cfg.Value(items[k])
  {
    if items == [] then [] else [cfg.Value(items[0])] + Values(cfg, items[1..])
  }

  lemma PillsAfterPill(taken: seq<Item>, buf: seq<Item>)
    requires InOrder(taken + buf) && Pill in taken
    ensures forall j :: 0 <= j < |buf| ==> buf[j] == Pill
  {
    var k :| 0 <= k < |taken| && taken[k] == Pill;
    forall j | 0 <= j < |buf|
      ensures buf[j] == Pill
    {
      assert Before((taken + buf)[k], (taken + buf)[|taken| + j]);
    }
  }

  /** When all threads have ended nothing is left in the buffer or in anyone's hands. */
  lemma DoneDelivers(cfg: Config, s: State)
    requires Inv(cfg, s) && Done(s)
    ensures s.buf == []
    ensures forall p, i :: 0 <= p < cfg.producers && 0 <= i < cfg.perProducer ==> multiset(s.consumed)[Real(p, i)] == 1
    ensures forall x :: x in s.consumed ==> x.Real? && x.pid < cfg.producers && x.index < cfg.perProducer
  {
    forall x: Item
      ensures Held(s.getters, x) == 0
    {
      HeldNothing(s.getters, x);
    }
    TotalConstant(s.getters, ExitedWeight, 1);
    assert multiset(s.Line())[Pill] == multiset(s.taken)[Pill] + multiset(s.buf)[Pill];
    assert Pill in s.taken by { assert multiset(s.taken)[Pill] >= 1; }
    PillsAfterPill(s.taken, s.buf);
    PillCount(s.buf);
    assert s.Line() == s.taken;
    forall x | x in s.consumed
      ensures x.Real? && x.pid < cfg.producers && x.index < cfg.perProducer
    {
      assert x in multiset(s.consumed) && x in multiset(s.taken);
      assert x in s.taken;
    }
    forall p, i | 0 <= p < cfg.producers && 0 <= i < cfg.perProducer
      ensures multiset(s.consumed)[Real(p, i)] == 1
    {
      assert PutterOk(cfg, p, s.putters[p]);
      OnceInOrder(s.taken, Real(p, i));
    }
  }

  lemma {:induction false} PillCount(s: seq<Item>)
    requires forall k :: 0 <= k < |s| ==> s[k] == Pill
    ensures multiset(s)[Pill] == |s|
  {
    if s != [] {
      assert s == [s[0]] + s[1..];
      PillCount(s[1..]);
    }
  }

  lemma OnceInOrder(line: seq<Item>, x: Item)
    requires InOrder(line) && x.Real? && x in line
    ensures multiset(line)[x] == 1
  {
    var k :| 0 <= k < |line| && line[k] == x;
    assert line == line[..k] + [x] + line[k + 1..];
    assert x !in line[..k] by { assert forall j :: 0 <= j < k ==> Before(line[j], x); }
    assert x !in line[k + 1..] by { assert forall j :: k < j < |line| ==> Before(x, line[j]); }
  }

  /** Distinct items carry distinct integers, and the integers are exactly the expected range. */
  lemma ValueInjective(n: nat, p: nat, i: nat, q: nat, j: nat)
    requires i < n && j < n && (p, i) != (q, j)
    ensures p * n + i != q * n + j
  {
    assert p < q ==> (p + 1) * n <= q * n;
    assert q < p ==> (q + 1) * n <= p * n;
  }

  lemma ValueInRange(n: nat, producers: nat, p: nat, i: nat)
    requires p < producers && i < n
    ensures p * n + i < producers * n
  {
    assert (p + 1) * n <= producers * n;
  }

  lemma ValueSurjective(n: nat, producers: nat, v: nat) returns (p: nat, i: nat)
    requires v < producers * n
    ensures p < producers && i < n && v == p * n + i
  {
    assert n > 0;
    p, i := v / n, v % n;
    assert p >= producers ==> p * n >= producers * n;
  }

  lemma {:induction false} DistinctCount(s: seq<int>, n: nat)
    requires forall j, k :: 0 <= j < k < |s| ==> s[j] != s[k]
    requires forall v :: v in s <==> 0 <= v < n
    ensures |s| == n
  {
    if n == 0 {
      assert forall k :: 0 <= k < |s| ==> s[k] in s;
    } else {
      assert n - 1 in s;
      var k :| 0 <= k < |s| && s[k] == n - 1;
      var r := s[..k] + s[k + 1..];
      forall v
        ensures v in r <==> 0 <= v < n - 1
      {
        if v in s && v != n - 1 {
          var j :| 0 <= j < |s| && s[j] == v;
          assert v == r[if j < k then j else j - 1];
        }
      }
      DistinctCount(r, n - 1);
    }
  }

  lemma OnceIsDistinct(s: seq<Item>, j: nat, k: nat)
    requires j < k < |s| && multiset(s)[s[j]] == 1
    ensures s[j] != s[k]
  {
    assert s == s[..j] + [s[j]] + s[j + 1..k] + [s[k]] + s[k + 1..];
  }

  /** The consumed items are those of all producers, each exactly once. */
  ghost predicate Delivered(cfg: Config, consumed: seq<Item>) {
    && (forall p, i :: 0 <= p < cfg.producers && 0 <= i < cfg.perProducer ==> multiset(consumed)[Real(p, i)] == 1)
    && (forall x :: x in consumed ==> x.Real? && x.pid < cfg.producers && x.index < cfg.perProducer)
  }

  lemma ConsumedDistinct(cfg: Config, consumed: seq<Item>, j: nat, k: nat)
    requires Delivered(cfg, consumed) && j < k < |consumed|
    ensures consumed[j].Real? && consumed[k].Real? && cfg.Value(consumed[j]) != cfg.Value(consumed[k])
  {
    var x, y := consumed[j], consumed[k];
    assert x in consumed && y in consumed;
    assert x == Real(x.pid, x.index);
    OnceIsDistinct(consumed, j, k);
    ValueInjective(cfg.perProducer, x.pid, x.index, y.pid, y.index);
  }

  lemma ConsumedComplete(cfg: Config, consumed: seq<Item>, v: int)
    requires Delivered(cfg, consumed)
    ensures v in Values(cfg, consumed) <==> 0 <= v < cfg.producers * cfg.perProducer
  {
    var vs := Values(cfg, consumed);
    if v in vs {
      var k :| 0 <= k < |vs| && vs[k] == v;
      assert consumed[k] in consumed;
      ValueInRange(cfg.perProducer, cfg.producers, consumed[k].pid, consumed[k].index);
    }
    if 0 <= v < cfg.producers * cfg.perProducer {
      var p, i := ValueSurjective(cfg.perProducer, cfg.producers, v);
      assert Real(p, i) in multiset(consumed);
      var k :| 0 <= k < |consumed| && consumed[k] == Real(p, i);
      assert vs[k] == v;
    }
  }

  lemma DeliveredVerifies(cfg: Config, consumed: seq<Item>)
    requires Delivered(cfg, consumed)
    ensures Verified(cfg, Values(cfg, consumed))
  {
    var vs := Values(cfg, consumed);
    forall j, k | 0 <= j < k < |vs|
      ensures vs[j] != vs[k]
    {
      ConsumedDistinct(cfg, consumed, j, k);
    }
    forall v
      ensures v in vs <==> 0 <= v < cfg.producers * cfg.perProducer
    {
      ConsumedComplete(cfg, consumed, v);
    }
    DistinctCount(vs, cfg.producers * cfg.perProducer);
  }

  /** Once every thread has ended, the recorded integers pass the source's own check. */
  lemma DoneVerifies(cfg: Config, s: State)
    requires Inv(cfg, s) && Done(s)
    ensures Delivered(cfg, s.consumed) && Verified(cfg, Values(cfg, s.consumed))
  {
    DoneDelivers(cfg, s);
    DeliveredVerifies(cfg, s.consumed);
  }

  lemma StuckIffDone(cfg: Config, s: State)
    requires Inv(cfg, s)
    ensures (forall a :: Enabled(cfg, s, a) ==> a.Spurious()) <==> Done(s)
  {
    if !Done(s) {
      var a := Progress(cfg, s);
    }
  }

  /**
    Every run of the program, under every scheduler and every choice of whom `notify()` wakes:
    the invariant holds throughout; the number of steps is bounded (each spurious wake-up pays
    for itself and one re-test); and a run that cannot continue without a spurious wake-up has
    ended all threads and delivered every item exactly once.
  */
  lemma EveryRun(cfg: Config, actions: seq<Action>, t: State)
    requires cfg.Valid() && Runs(cfg, Init(cfg), actions, t)
    ensures Inv(cfg, t) && |t.buf| <= cfg.capacity
    ensures |actions| <= StepBound(cfg) + 2 * Total(actions, SpuriousWeight)
    ensures (forall a :: Enabled(cfg, t, a) ==> a.Spurious()) <==> Done(t)
    ensures Done(t) ==> Verified(cfg, Values(cfg, t.consumed))
  {
    InitInv(cfg);
    InitMeasure(cfg);
    RunKeeps(cfg, Init(cfg), actions, t);
    StuckIffDone(cfg, t);
    if Done(t) { DoneVerifies(cfg, t); }
  }

  /** A consumer is handed its pill only when every real item has been put and has left the
      buffer, and each consumer that has left took exactly one. */
  lemma PillsComeLast(cfg: Config, s: State)
    requires Inv(cfg, s)
    ensures s.buf != [] && s.buf[0].Pill? ==>
              (forall k :: 0 <= k < |s.buf| ==> s.buf[k].Pill?) &&
              (forall p, i :: 0 <= p < cfg.producers && 0 <= i < cfg.perProducer ==> Real(p, i) in s.taken)
    ensures multiset(s.taken)[Pill] == Total(s.getters, ExitedWeight) <= cfg.consumers
  {
    TotalAtMostLength(s.getters, ExitedWeight);
    if s.buf != [] && s.buf[0].Pill? {
      assert s.Line()[|s.taken|] == Pill;
      assert forall k :: 0 < k < |s.buf| ==> s.Line()[|s.taken| + k] == s.buf[k];
      assert Pill in multiset(s.Line());
      assert !s.putters[cfg.MainThread()].status.Joining?;
      forall p, i | 0 <= p < cfg.producers && 0 <= i < cfg.perProducer
        ensures Real(p, i) in s.taken
      {
        assert PutterOk(cfg, p, s.putters[p]);
        assert Real(p, i) in s.Line();
      }
    }
  }
}
