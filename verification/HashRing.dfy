/**
  The consistent-hash ring of os_net/comp_networking/examples/consistent_hash.py. The hash is an
  uninterpreted function, so every statement holds for every hash, collisions included.
*/
module HashRing {

  type Node = string

  /** How many points a node has, where its i-th point falls, and where a key falls. */
  datatype Config = Config(vnodes: nat, point: (Node, nat) -> nat, at: string -> nat)

  datatype State = State(ring: map<nat, Node>, keys: seq<nat>, nodes: set<Node>)

  datatype Answer = Empty | Owner(node: Node) | KeyError

  // ---------- bisect ----------

  /** The number of leading elements up to pos. */
  function BisectRight(s: seq<nat>, pos: nat): (i: nat)
    ensures i <= |s|
  {
    if s == [] || pos < s[0] then 0 else 1 + BisectRight(s[1..], pos)
  }

  /** The number of leading elements below pos. */
  function BisectLeft(s: seq<nat>, pos: nat): (i: nat)
    ensures i <= |s|
  {
    if s == [] || pos <= s[0] then 0 else 1 + BisectLeft(s[1..], pos)
  }

  function Count(s: seq<nat>, p: nat): nat {
    if s == [] then 0 else (if s[0] == p then 1 else 0) + Count(s[1..], p)
  }

  lemma {:induction false} CountIn(s: seq<nat>, p: nat)
    ensures Count(s, p) > 0 <==> p in s
  {
    if s != [] { CountIn(s[1..], p); }
  }

  predicate Sorted(s: seq<nat>) {
    |s| <= 1 || (s[0] <= s[1] && Sorted(s[1..]))
  }

  lemma {:induction false} SortedHead(s: seq<nat>, p: nat)
    requires Sorted(s) && p in s
    ensures s[0] <= p
  {
    if p != s[0] { SortedHead(s[1..], p); }
  }

  /** Put pos in, behind its equals. */
  function Insort(s: seq<nat>, pos: nat): seq<nat> {
    if s == [] || pos < s[0] then [pos] + s else [s[0]] + Insort(s[1..], pos)
  }

  /** Take out one occurrence, if there is one. */
  function Extract(s: seq<nat>, pos: nat): seq<nat> {
    if s == [] || pos < s[0] then s else if s[0] == pos then s[1..] else [s[0]] + Extract(s[1..], pos)
  }

  /** `bisect.insort` inserts at `bisect_right`. */
  lemma {:induction false} InsortIs(s: seq<nat>, pos: nat)
    ensures Insort(s, pos) == s[..BisectRight(s, pos)] + [pos] + s[BisectRight(s, pos)..]
  {
    if s != [] && pos >= s[0] {
      InsortIs(s[1..], pos);
    }
  }

  /** Popping at `bisect_left`, if pos is there. */
  lemma {:induction false} ExtractIs(s: seq<nat>, pos: nat)
    requires Sorted(s)
    ensures var i := BisectLeft(s, pos);
            Extract(s, pos) == if i < |s| && s[i] == pos then s[..i] + s[i + 1..] else s
  {
    if s != [] && pos > s[0] {
      ExtractIs(s[1..], pos);
    }
  }

  lemma {:induction false} InsortSorted(s: seq<nat>, pos: nat)
    requires Sorted(s)
    ensures Sorted(Insort(s, pos))
  {
    if s == [] || pos < s[0] {
      assert ([pos] + s)[1..] == s;
    } else {
      InsortSorted(s[1..], pos);
      assert ([s[0]] + Insort(s[1..], pos))[1..] == Insort(s[1..], pos);
    }
  }

  lemma {:induction false} InsortCount(s: seq<nat>, pos: nat, p: nat)
    ensures Count(Insort(s, pos), p) == Count(s, p) + (if p == pos then 1 else 0)
  {
    if s == [] || pos < s[0] {
      assert ([pos] + s)[1..] == s;
    } else {
      InsortCount(s[1..], pos, p);
      assert ([s[0]] + Insort(s[1..], pos))[1..] == Insort(s[1..], pos);
    }
  }

  lemma {:induction false} ExtractSorted(s: seq<nat>, pos: nat)
    requires Sorted(s)
    ensures Sorted(Extract(s, pos)) && (s != [] && Extract(s, pos) != [] ==> s[0] <= Extract(s, pos)[0])
  {
    if s != [] && s[0] < pos {
      ExtractSorted(s[1..], pos);
      assert ([s[0]] + Extract(s[1..], pos))[1..] == Extract(s[1..], pos);
    }
  }

  function Less(n: nat): nat { if n == 0 then 0 else n - 1 }

  lemma {:induction false} ExtractCount(s: seq<nat>, pos: nat, p: nat)
    requires Sorted(s)
    ensures Count(Extract(s, pos), p) == if p == pos then Less(Count(s, p)) else Count(s, p)
  {
    if s != [] {
      if pos < s[0] {
        CountIn(s, pos);
        if pos in s { SortedHead(s, pos); }
      } else if s[0] < pos {
        ExtractCount(s[1..], pos, p);
        assert ([s[0]] + Extract(s[1..], pos))[1..] == Extract(s[1..], pos);
      }
    }
  }

  // ---------- the operations ----------

  function AddPoint(s: State, node: Node, pos: nat): State {
    s.(ring := s.ring[pos := node], keys := Insort(s.keys, pos))
  }

  function RemovePoint(s: State, node: Node, pos: nat): State {
    if pos in s.ring && s.ring[pos] == node then
      s.(ring := s.ring - {pos}, keys := Extract(s.keys, pos))
    else s
  }

  /** The first k points of a node, placed. */
  function AddPoints(c: Config, s: State, node: Node, k: nat): State {
    if k == 0 then s else AddPoint(AddPoints(c, s, node, k - 1), node, c.point(node, k - 1))
  }

  function RemovePoints(c: Config, s: State, node: Node, k: nat): State {
    if k == 0 then s else RemovePoint(RemovePoints(c, s, node, k - 1), node, c.point(node, k - 1))
  }

  function Add(c: Config, s: State, node: Node): State {
    if node in s.nodes then s else AddPoints(c, s.(nodes := s.nodes + {node}), node, c.vnodes)
  }

  function Remove(c: Config, s: State, node: Node): State {
    if node !in s.nodes then s else RemovePoints(c, s.(nodes := s.nodes - {node}), node, c.vnodes)
  }

  /** The owner of a position: the first point beyond it, wrapping round. */
  function Lookup(s: State, pos: nat): Answer {
    if s.keys == [] then Empty
    else
      var i := BisectRight(s.keys, pos);
      var p := s.keys[if i == |s.keys| then 0 else i];
      if p in s.ring then Owner(s.ring[p]) else KeyError
  }

  // ---------- what one call does ----------

  function Points(c: Config, node: Node, k: nat): set<nat> {
    if k == 0 then {} else Points(c, node, k - 1) + {c.point(node, k - 1)}
  }

  /** How many of the first k points fall on p. */
  function Hits(c: Config, node: Node, k: nat, p: nat): nat {
    if k == 0 then 0 else Hits(c, node, k - 1, p) + if c.point(node, k - 1) == p then 1 else 0
  }

  lemma {:induction false} HitsIsPoint(c: Config, node: Node, k: nat, p: nat)
    ensures Hits(c, node, k, p) > 0 <==> p in Points(c, node, k)
  {
    if k > 0 { HitsIsPoint(c, node, k - 1, p); }
  }

  lemma {:induction false} PointsHave(c: Config, node: Node, k: nat, i: nat)
    requires i < k
    ensures c.point(node, i) in Points(c, node, k)
  {
    if i < k - 1 { PointsHave(c, node, k - 1, i); }
  }

  lemma {:induction false} PointsAre(c: Config, node: Node, k: nat, p: nat)
    requires p in Points(c, node, k)
    ensures exists i: nat :: i < k && c.point(node, i) == p
  {
    if p != c.point(node, k - 1) { PointsAre(c, node, k - 1, p); }
  }

  /** Adding overwrites the node's positions. */
  lemma {:induction false} AddRing(c: Config, s: State, node: Node, k: nat, p: nat)
    ensures var r := AddPoints(c, s, node, k);
            r.nodes == s.nodes && (p in r.ring <==> p in s.ring || p in Points(c, node, k))
            && (p in r.ring ==> r.ring[p] == if p in Points(c, node, k) then node else s.ring[p])
  {
    if k > 0 { AddRing(c, s, node, k - 1, p); }
  }

  /** Adding puts in one sorted entry for each point. */
  lemma {:induction false} AddCount(c: Config, s: State, node: Node, k: nat, p: nat)
    ensures Count(AddPoints(c, s, node, k).keys, p) == Count(s.keys, p) + Hits(c, node, k, p)
  {
    if k > 0 {
      AddCount(c, s, node, k - 1, p);
      InsortCount(AddPoints(c, s, node, k - 1).keys, c.point(node, k - 1), p);
    }
  }

  lemma {:induction false} AddSorted(c: Config, s: State, node: Node, k: nat)
    requires Sorted(s.keys)
    ensures Sorted(AddPoints(c, s, node, k).keys)
  {
    if k > 0 {
      AddSorted(c, s, node, k - 1);
      InsortSorted(AddPoints(c, s, node, k - 1).keys, c.point(node, k - 1));
    }
  }

  /** A position still owned by the node and among its first k points. */
  predicate Taken(c: Config, s: State, node: Node, k: nat, p: nat) {
    p in s.ring && s.ring[p] == node && p in Points(c, node, k)
  }

  /** Removing frees the positions the node still owns. */
  lemma {:induction false} RemoveRing(c: Config, s: State, node: Node, k: nat, p: nat)
    ensures var r := RemovePoints(c, s, node, k);
            r.nodes == s.nodes && (p in r.ring <==> p in s.ring && !Taken(c, s, node, k, p))
            && (p in r.ring ==> r.ring[p] == s.ring[p])
  {
    if k > 0 { RemoveRing(c, s, node, k - 1, p); }
  }

  lemma {:induction false} RemoveSorted(c: Config, s: State, node: Node, k: nat)
    requires Sorted(s.keys)
    ensures Sorted(RemovePoints(c, s, node, k).keys)
  {
    if k > 0 {
      RemoveSorted(c, s, node, k - 1);
      ExtractSorted(RemovePoints(c, s, node, k - 1).keys, c.point(node, k - 1));
    }
  }

  lemma RemovePointCount(t: State, node: Node, q: nat, p: nat)
    requires Sorted(t.keys)
    ensures Count(RemovePoint(t, node, q).keys, p)
         == if p == q && p in t.ring && t.ring[p] == node then Less(Count(t.keys, p)) else Count(t.keys, p)
  {
    ExtractCount(t.keys, q, p);
  }

  /** Removing takes out one sorted entry for each position freed, however many fell on it. */
  lemma {:induction false} RemoveCount(c: Config, s: State, node: Node, k: nat, p: nat)
    requires Sorted(s.keys)
    ensures Count(RemovePoints(c, s, node, k).keys, p)
         == if Taken(c, s, node, k, p) then Less(Count(s.keys, p)) else Count(s.keys, p)
  {
    if k > 0 {
      RemoveCount(c, s, node, k - 1, p);
      RemoveSorted(c, s, node, k - 1);
      RemoveRing(c, s, node, k - 1, p);
      RemovePointCount(RemovePoints(c, s, node, k - 1), node, c.point(node, k - 1), p);
    }
  }

  // ---------- who owns a position ----------

  /** The position a lookup ends at. */
  function NextOf(keys: seq<nat>, pos: nat): nat
    requires keys != []
  {
    var i := BisectRight(keys, pos);
    keys[if i == |keys| then 0 else i]
  }

  /** p is the first of the keys beyond pos or, when none is beyond, the first of all. */
  ghost predicate Next(keys: seq<nat>, pos: nat, p: nat) {
    p in keys
    && ((pos < p && forall q :: q in keys && pos < q ==> p <= q) || (forall q :: q in keys ==> p <= q <= pos))
  }

  lemma {:induction false} BisectSplits(s: seq<nat>, pos: nat, q: nat)
    requires Sorted(s) && q in s
    ensures var i := BisectRight(s, pos);
            (i < |s| ==> pos < s[i]) && (pos < q ==> i < |s| && s[i] <= q)
  {
    if pos < s[0] {
      SortedHead(s, q);
    } else if |s| > 1 {
      BisectSplits(s[1..], pos, if q in s[1..] then q else s[1]);
    }
  }

  lemma NextOfIsNext(keys: seq<nat>, pos: nat)
    requires Sorted(keys) && keys != []
    ensures Next(keys, pos, NextOf(keys, pos))
  {
    forall q | q in keys
      ensures var i := BisectRight(keys, pos);
              keys[0] <= q && (i < |keys| ==> pos < keys[i]) && (pos < q ==> i < |keys| && keys[i] <= q)
    {
      SortedHead(keys, q);
      BisectSplits(keys, pos, q);
    }
    assert keys[0] in keys;
  }

  /** A next key stays next when others go. */
  lemma NextAmongFewer(keys: seq<nat>, fewer: seq<nat>, pos: nat, p: nat)
    requires Next(keys, pos, p) && p in fewer && Sorted(fewer) && (forall q :: q in fewer ==> q in keys)
    ensures NextOf(fewer, pos) == p
  {
    NextOfIsNext(fewer, pos);
  }

  // ---------- the invariants ----------

  /** The sorted positions are those of the map. */
  ghost predicate Aligned(s: State) { forall p :: p in s.ring <==> p in s.keys }

  /** Every entry is for a present node, at one of its points. */
  ghost predicate Owned(c: Config, s: State) {
    forall p :: p in s.ring ==> s.ring[p] in s.nodes && p in Points(c, s.ring[p], c.vnodes)
  }

  const START: State := State(map[], [], {})

  lemma AddKeeps(c: Config, s: State, node: Node)
    requires Sorted(s.keys) && Aligned(s) && Owned(c, s)
    ensures var r := Add(c, s, node); Sorted(r.keys) && Aligned(r) && Owned(c, r)
  {
    if node !in s.nodes {
      var t := s.(nodes := s.nodes + {node});
      AddSorted(c, t, node, c.vnodes);
      forall p: nat
        ensures var r := Add(c, s, node);
                (p in r.ring <==> p in r.keys)
                && (p in r.ring ==> r.ring[p] in r.nodes && p in Points(c, r.ring[p], c.vnodes))
      {
        AddRing(c, t, node, c.vnodes, p);
        AddMembers(c, t, node, p);
      }
    }
  }

  lemma AddMembers(c: Config, t: State, node: Node, p: nat)
    ensures p in AddPoints(c, t, node, c.vnodes).keys <==> p in t.keys || p in Points(c, node, c.vnodes)
  {
    AddCount(c, t, node, c.vnodes, p);
    HitsIsPoint(c, node, c.vnodes, p);
    CountIn(t.keys, p);
    CountIn(AddPoints(c, t, node, c.vnodes).keys, p);
  }

  lemma NoMembers(fewer: seq<nat>, keys: seq<nat>)
    requires forall q :: q in fewer ==> q in keys
    ensures |keys| == 0 ==> |fewer| == 0
  {
    assert |fewer| > 0 ==> fewer[0] in keys;
  }

  /** Adding a node moves positions to it and nowhere else, collisions or not. */
  lemma AddMovesOnlyToIt(c: Config, s: State, node: Node, pos: nat)
    requires Sorted(s.keys) && Aligned(s)
    ensures Lookup(Add(c, s, node), pos) == Lookup(s, pos) || Lookup(Add(c, s, node), pos) == Owner(node)
  {
    if node !in s.nodes {
      var t := s.(nodes := s.nodes + {node});
      var r := AddPoints(c, t, node, c.vnodes);
      AddSorted(c, t, node, c.vnodes);
      forall q: nat
        ensures q in r.keys <==> q in s.keys || q in Points(c, node, c.vnodes)
      {
        AddMembers(c, t, node, q);
      }
      if r.keys == [] {
        NoMembers(s.keys, r.keys);
      } else {
        var p := NextOf(r.keys, pos);
        NextOfIsNext(r.keys, pos);
        AddRing(c, t, node, c.vnodes, p);
        if p !in Points(c, node, c.vnodes) {
          NextAmongFewer(r.keys, s.keys, pos, p);
        }
      }
    }
  }

  // ---------- removal ----------

  /** Two sorted entries at a position the node owns. */
  ghost predicate Doubled(s: State, node: Node) {
    exists p: nat :: p in s.ring && s.ring[p] == node && Count(s.keys, p) >= 2
  }

  lemma RemoveIs(c: Config, s: State, node: Node, p: nat)
    requires Sorted(s.keys) && Aligned(s) && Owned(c, s)
    ensures var r := Remove(c, s, node);
            (p in r.ring <==> p in s.ring && s.ring[p] != node) && (p in r.ring ==> r.ring[p] == s.ring[p])
            && (p in r.keys <==> p in s.keys && (s.ring[p] == node ==> Count(s.keys, p) >= 2))
  {
    CountIn(s.keys, p);
    if node in s.nodes {
      var t := s.(nodes := s.nodes - {node});
      RemoveRing(c, t, node, c.vnodes, p);
      RemoveCount(c, t, node, c.vnodes, p);
      CountIn(Remove(c, s, node).keys, p);
    }
  }

  lemma RemoveKeepsSorted(c: Config, s: State, node: Node)
    requires Sorted(s.keys)
    ensures Sorted(Remove(c, s, node).keys)
  {
    if node in s.nodes { RemoveSorted(c, s.(nodes := s.nodes - {node}), node, c.vnodes); }
  }

  lemma RemoveKeepsOwned(c: Config, s: State, node: Node)
    requires Sorted(s.keys) && Aligned(s) && Owned(c, s)
    ensures Owned(c, Remove(c, s, node)) && Remove(c, s, node).nodes == s.nodes - {node}
  {
    if node in s.nodes { RemoveRing(c, s.(nodes := s.nodes - {node}), node, c.vnodes, 0); }
    forall p: nat
      ensures var r := Remove(c, s, node);
              p in r.ring ==> p in s.ring && s.ring[p] == r.ring[p] && r.ring[p] != node
    {
      RemoveIs(c, s, node, p);
    }
  }

  /** Removal leaves a position without an owner exactly when some position of the node was doubled. */
  lemma RemoveAlignedIff(c: Config, s: State, node: Node)
    requires Sorted(s.keys) && Aligned(s) && Owned(c, s)
    ensures Aligned(Remove(c, s, node)) <==> !Doubled(s, node)
  {
    var r := Remove(c, s, node);
    forall p: nat
      ensures (p in r.ring <==> p in s.ring && s.ring[p] != node)
              && (p in r.keys <==> p in s.keys && (s.ring[p] == node ==> Count(s.keys, p) >= 2))
    {
      RemoveIs(c, s, node, p);
    }
    if Aligned(r) {
      forall p: nat | p in s.ring && s.ring[p] == node
        ensures Count(s.keys, p) < 2
      {
        assert p !in r.ring;
        assert p !in r.keys;
      }
    }
  }

  /** Removal changes only the positions the node owned. */
  lemma RemoveMovesOnlyItsOwn(c: Config, s: State, node: Node, pos: nat)
    requires Sorted(s.keys) && Aligned(s) && Owned(c, s)
    requires Lookup(s, pos) != Owner(node)
    ensures Lookup(Remove(c, s, node), pos) == Lookup(s, pos)
  {
    var r := Remove(c, s, node);
    RemoveKeepsSorted(c, s, node);
    forall q: nat
      ensures (q in r.keys ==> q in s.keys) && (q in s.keys && s.ring[q] != node ==> q in r.keys && q in r.ring && r.ring[q] == s.ring[q])
    {
      RemoveIs(c, s, node, q);
    }
    if s.keys == [] {
      NoMembers(r.keys, s.keys);
    } else {
      var p := NextOf(s.keys, pos);
      NextOfIsNext(s.keys, pos);
      NextAmongFewer(s.keys, r.keys, pos, p);
    }
  }

  /** A sorted position without an entry makes some lookup fail. */
  lemma DanglingFails(s: State, p: nat)
    requires Sorted(s.keys) && p in s.keys && p !in s.ring
    ensures exists pos: nat :: Lookup(s, pos) == KeyError
  {
    if p > 0 {
      NextOfIsNext(s.keys, p - 1);
      assert Lookup(s, p - 1) == KeyError;
    } else {
      var last := s.keys[|s.keys| - 1];
      LastIsMost(s.keys);
      NextOfIsNext(s.keys, last);
      assert Lookup(s, last) == KeyError;
    }
  }

  lemma {:induction false} LastIsMost(s: seq<nat>)
    requires Sorted(s) && s != []
    ensures forall q :: q in s ==> q <= s[|s| - 1]
  {
    if |s| > 1 {
      LastIsMost(s[1..]);
      assert s[|s| - 1] == s[1..][|s| - 2];
      forall q | q in s
        ensures q <= s[|s| - 1]
      {
        if q !in s[1..] { assert q == s[0] <= s[1] && s[1] in s[1..]; }
      }
    }
  }

  // ---------- whole histories ----------

  datatype Op = Join(node: Node) | Leave(node: Node)

  function Step(c: Config, s: State, op: Op): State {
    if op.Join? then Add(c, s, op.node) else Remove(c, s, op.node)
  }

  function Run(c: Config, ops: seq<Op>): State {
    if ops == [] then START else Step(c, Run(c, ops[..|ops| - 1]), ops[|ops| - 1])
  }

  ghost predicate Over(ops: seq<Op>, all: set<Node>) { forall i :: 0 <= i < |ops| ==> ops[i].node in all }

  /** No two points of these nodes fall together. */
  ghost predicate NoCollision(c: Config, all: set<Node>) {
    forall n, m, i: nat, j: nat ::
      n in all && m in all && i < c.vnodes && j < c.vnodes && c.point(n, i) == c.point(m, j) ==> n == m && i == j
  }

  /** Every point of every present node has its entry. */
  ghost predicate Complete(c: Config, s: State) {
    forall n, p: nat :: n in s.nodes && p in Points(c, n, c.vnodes) ==> p in s.ring && s.ring[p] == n
  }

  ghost predicate Single(s: State) { forall p: nat :: Count(s.keys, p) <= 1 }

  ghost predicate Good(c: Config, s: State) {
    Sorted(s.keys) && Aligned(s) && Owned(c, s) && Complete(c, s) && Single(s)
  }

  lemma PointsApart(c: Config, all: set<Node>, n: Node, m: Node, p: nat)
    requires NoCollision(c, all) && n in all && m in all
    requires p in Points(c, n, c.vnodes) && p in Points(c, m, c.vnodes)
    ensures n == m
  {
    PointsAre(c, n, c.vnodes, p);
    PointsAre(c, m, c.vnodes, p);
    var i: nat :| i < c.vnodes && c.point(n, i) == p;
    var j: nat :| j < c.vnodes && c.point(m, j) == p;
    assert c.point(n, i) == c.point(m, j);
  }

  lemma {:induction false} HitsOnce(c: Config, all: set<Node>, n: Node, k: nat, p: nat)
    requires NoCollision(c, all) && n in all && k <= c.vnodes
    ensures Hits(c, n, k, p) <= 1
  {
    if k > 0 {
      HitsOnce(c, all, n, k - 1, p);
      HitsIsPoint(c, n, k - 1, p);
      if c.point(n, k - 1) == p && p in Points(c, n, k - 1) {
        PointsAre(c, n, k - 1, p);
      }
    }
  }

  lemma AddGood(c: Config, all: set<Node>, s: State, node: Node)
    requires NoCollision(c, all) && Good(c, s) && s.nodes <= all && node in all
    ensures Good(c, Add(c, s, node)) && Add(c, s, node).nodes == s.nodes + {node}
  {
    AddKeeps(c, s, node);
    if node !in s.nodes {
      var t := s.(nodes := s.nodes + {node});
      var r := AddPoints(c, t, node, c.vnodes);
      AddRing(c, t, node, c.vnodes, 0);
      forall p: nat
        ensures Count(r.keys, p) <= 1
      {
        AddCount(c, t, node, c.vnodes, p);
        HitsOnce(c, all, node, c.vnodes, p);
        NewPointIsFree(c, all, s, node, p);
      }
      forall n, p: nat | n in r.nodes && p in Points(c, n, c.vnodes)
        ensures p in r.ring && r.ring[p] == n
      {
        AddRing(c, t, node, c.vnodes, p);
        if p in Points(c, node, c.vnodes) { PointsApart(c, all, n, node, p); }
      }
    }
  }

  lemma NewPointIsFree(c: Config, all: set<Node>, s: State, node: Node, p: nat)
    requires NoCollision(c, all) && Good(c, s) && s.nodes <= all && node in all && node !in s.nodes
    ensures Hits(c, node, c.vnodes, p) > 0 ==> Count(s.keys, p) == 0
  {
    HitsIsPoint(c, node, c.vnodes, p);
    CountIn(s.keys, p);
    if p in s.ring && p in Points(c, node, c.vnodes) {
      PointsApart(c, all, s.ring[p], node, p);
    }
  }

  lemma RemoveGood(c: Config, s: State, node: Node)
    requires Good(c, s)
    ensures Good(c, Remove(c, s, node)) && Remove(c, s, node).nodes == s.nodes - {node}
  {
    var r := Remove(c, s, node);
    RemoveKeepsSorted(c, s, node);
    RemoveKeepsOwned(c, s, node);
    RemoveAlignedIff(c, s, node);
    forall p: nat
      ensures Count(r.keys, p) <= 1 && (p in s.ring && s.ring[p] != node ==> p in r.ring && r.ring[p] == s.ring[p])
    {
      RemoveIs(c, s, node, p);
      if node in s.nodes { RemoveCount(c, s.(nodes := s.nodes - {node}), node, c.vnodes, p); }
    }
  }

  /** Without collisions every reachable ring is exactly the points of its nodes. */
  lemma {:induction false} RunGood(c: Config, all: set<Node>, ops: seq<Op>)
    requires NoCollision(c, all) && Over(ops, all)
    ensures Good(c, Run(c, ops)) && Run(c, ops).nodes <= all
  {
    if ops != [] {
      var s, op := Run(c, ops[..|ops| - 1]), ops[|ops| - 1];
      RunGood(c, all, ops[..|ops| - 1]);
      if op.Join? { AddGood(c, all, s, op.node); } else { RemoveGood(c, s, op.node); }
    }
  }

  lemma SameRing(c: Config, s: State, t: State)
    requires Good(c, s) && Good(c, t) && s.nodes == t.nodes
    ensures s.ring == t.ring
  {
    forall p: nat
      ensures (p in s.ring <==> p in t.ring) && (p in s.ring ==> s.ring[p] == t.ring[p])
    {
    }
  }

  lemma HeadCounts(s: seq<nat>)
    ensures s != [] ==> Count(s, s[0]) > 0
  {
  }

  lemma {:induction false} SortedUnique(a: seq<nat>, b: seq<nat>)
    requires Sorted(a) && Sorted(b) && (forall p: nat :: Count(a, p) == Count(b, p))
    ensures a == b
  {
    HeadCounts(b);
    if a != [] {
      CountIn(b, a[0]);
      assert Count(a, a[0]) > 0;
      SortedHead(b, a[0]);
      CountIn(a, b[0]);
      assert Count(b, b[0]) > 0;
      SortedHead(a, b[0]);
      assert forall p: nat :: Count(a[1..], p) == Count(a, p) - (if a[0] == p then 1 else 0);
      assert forall p: nat :: Count(b[1..], p) == Count(b, p) - (if b[0] == p then 1 else 0);
      SortedUnique(a[1..], b[1..]);
    }
  }

  /** The whole state, and so every answer, depends on the node set alone. */
  lemma GoodUnique(c: Config, s: State, t: State)
    requires Good(c, s) && Good(c, t) && s.nodes == t.nodes
    ensures s == t
  {
    SameRing(c, s, t);
    forall p: nat
      ensures Count(s.keys, p) == Count(t.keys, p)
    {
      CountIn(s.keys, p);
      CountIn(t.keys, p);
    }
    SortedUnique(s.keys, t.keys);
  }

  lemma HistoryIrrelevant(c: Config, all: set<Node>, a: seq<Op>, b: seq<Op>)
    requires NoCollision(c, all) && Over(a, all) && Over(b, all) && Run(c, a).nodes == Run(c, b).nodes
    ensures Run(c, a) == Run(c, b)
    ensures forall pos: nat :: Lookup(Run(c, a), pos) == Lookup(Run(c, b), pos)
  {
    RunGood(c, all, a);
    RunGood(c, all, b);
    GoodUnique(c, Run(c, a), Run(c, b));
  }

  /** The last call about n added it. */
  ghost predicate Present(ops: seq<Op>, n: Node) {
    exists i :: LastJoin(ops, n, i)
  }

  predicate LastJoin(ops: seq<Op>, n: Node, i: int) {
    0 <= i < |ops| && ops[i] == Join(n) && forall j :: i < j < |ops| ==> ops[j].node != n
  }

  /** Whatever collides, the nodes are those whose last call added them. */
  lemma {:induction false} NodesArePresent(c: Config, ops: seq<Op>, n: Node)
    ensures n in Run(c, ops).nodes <==> Present(ops, n)
  {
    if ops != [] {
      var before, op := ops[..|ops| - 1], ops[|ops| - 1];
      NodesArePresent(c, before, n);
      PresentNext(before, op, n);
      assert ops == before + [op];
      StepNodes(c, Run(c, before), op);
    }
  }

  lemma PresentNext(ops: seq<Op>, op: Op, n: Node)
    ensures Present(ops + [op], n) <==> if op.node == n then op.Join? else Present(ops, n)
  {
    var t := ops + [op];
    assert t[|ops|] == op;
    if op == Join(n) { assert LastJoin(t, n, |ops|); }
    if op.node != n {
      forall i | 0 <= i < |ops|
        ensures LastJoin(t, n, i) <==> LastJoin(ops, n, i)
      {
        assert forall j :: i < j < |ops| ==> t[j] == ops[j];
      }
      assert !LastJoin(t, n, |ops|);
    }
  }

  lemma StepNodes(c: Config, s: State, op: Op)
    ensures Step(c, s, op).nodes == if op.Join? then s.nodes + {op.node} else s.nodes - {op.node}
  {
    AddRing(c, s.(nodes := s.nodes + {op.node}), op.node, c.vnodes, 0);
    RemoveRing(c, s.(nodes := s.nodes - {op.node}), op.node, c.vnodes, 0);
  }

  /** The node, of those given, with the first point clockwise from pos. */
  ghost predicate Clockwise(c: Config, nodes: set<Node>, pos: nat, n: Node) {
    n in nodes && exists i: nat :: i < c.vnodes && First(c, nodes, pos, c.point(n, i))
  }

  ghost predicate First(c: Config, nodes: set<Node>, pos: nat, p: nat) {
    forall m, j: nat :: m in nodes && j < c.vnodes ==>
      var q := c.point(m, j);
      if pos < p then q <= pos || p <= q else p <= q <= pos
  }

  /** A reference definition of the answer, with no ring in it. */
  lemma LookupIsClockwise(c: Config, s: State, pos: nat, n: Node)
    requires Good(c, s)
    ensures Lookup(s, pos) == Owner(n) <==> Clockwise(c, s.nodes, pos, n)
  {
    if s.keys != [] { NextIsClockwise(c, s, pos); }
    if Clockwise(c, s.nodes, pos, n) {
      var i: nat :| i < c.vnodes && First(c, s.nodes, pos, c.point(n, i));
      var q := c.point(n, i);
      PointsHave(c, n, c.vnodes, i);
      PointHasKey(c, s, n, q);
      var p := NextOf(s.keys, pos);
      NextOfIsNext(s.keys, pos);
      assert p in s.ring && p in Points(c, s.ring[p], c.vnodes) && s.ring[p] in s.nodes;
      PointsAre(c, s.ring[p], c.vnodes, p);
      assert q == p;
    }
  }

  /** p is the first point clockwise from pos of all nodes present. */
  ghost predicate Leads(c: Config, ops: seq<Op>, pos: nat, p: nat) {
    forall m, j: nat :: Present(ops, m) && j < c.vnodes ==>
      var q := c.point(m, j);
      if pos < p then q <= pos || p <= q else p <= q <= pos
  }

  /** After any history without collisions a position belongs to the present node whose point comes
      first clockwise. */
  lemma OwnerFromHistory(c: Config, all: set<Node>, ops: seq<Op>, pos: nat, n: Node)
    requires NoCollision(c, all) && Over(ops, all)
    ensures Lookup(Run(c, ops), pos) == Owner(n)
       <==> Present(ops, n) && exists i: nat :: i < c.vnodes && Leads(c, ops, pos, c.point(n, i))
  {
    RunGood(c, all, ops);
    LookupIsClockwise(c, Run(c, ops), pos, n);
    forall m
      ensures m in Run(c, ops).nodes <==> Present(ops, m)
    {
      NodesArePresent(c, ops, m);
    }
    forall i: nat | i < c.vnodes
      ensures First(c, Run(c, ops).nodes, pos, c.point(n, i)) <==> Leads(c, ops, pos, c.point(n, i))
    {
    }
  }

  lemma PointHasKey(c: Config, s: State, n: Node, q: nat)
    requires Good(c, s) && n in s.nodes && q in Points(c, n, c.vnodes)
    ensures q in s.keys && q in s.ring && s.ring[q] == n
  {
  }

  lemma NextIsClockwise(c: Config, s: State, pos: nat)
    requires Good(c, s) && s.keys != []
    ensures Lookup(s, pos).Owner? && Clockwise(c, s.nodes, pos, Lookup(s, pos).node)
  {
    var p := NextOf(s.keys, pos);
    NextOfIsNext(s.keys, pos);
    assert p in s.ring;
    forall m, j: nat | m in s.nodes && j < c.vnodes
      ensures var q := c.point(m, j); if pos < p then q <= pos || p <= q else p <= q <= pos
    {
      PointsHave(c, m, c.vnodes, j);
      PointHasKey(c, s, m, c.point(m, j));
    }
    PointsAre(c, s.ring[p], c.vnodes, p);
    assert First(c, s.nodes, pos, p);
  }

  // ---------- collisions ----------

  lemma {:induction false} HitsTwice(c: Config, n: Node, k: nat, i: nat, j: nat, p: nat)
    requires i < j < k && c.point(n, i) == p && c.point(n, j) == p
    ensures Hits(c, n, k, p) >= 2
  {
    if j < k - 1 {
      HitsTwice(c, n, k - 1, i, j, p);
    } else {
      PointsHave(c, n, k - 1, i);
      HitsIsPoint(c, n, k - 1, p);
    }
  }

  lemma DoubledFails(c: Config, s: State, node: Node)
    requires Sorted(s.keys) && Aligned(s) && Owned(c, s) && Doubled(s, node)
    ensures exists pos: nat :: Lookup(Remove(c, s, node), pos) == KeyError
  {
    RemoveKeepsSorted(c, s, node);
    var p: nat :| p in s.ring && s.ring[p] == node && Count(s.keys, p) >= 2;
    RemoveIs(c, s, node, p);
    DanglingFails(Remove(c, s, node), p);
  }

  lemma Joins(c: Config, s: State, n: Node, i: nat)
    requires Sorted(s.keys) && Aligned(s) && Owned(c, s) && n !in s.nodes && i < c.vnodes
    ensures var r, p := Add(c, s, n), c.point(n, i);
            Sorted(r.keys) && Aligned(r) && Owned(c, r) && p in r.ring && r.ring[p] == n && r.nodes == s.nodes + {n}
            && Count(r.keys, p) == Count(s.keys, p) + Hits(c, n, c.vnodes, p) > Count(s.keys, p)
  {
    var t, p := s.(nodes := s.nodes + {n}), c.point(n, i);
    AddKeeps(c, s, n);
    PointsHave(c, n, c.vnodes, i);
    HitsIsPoint(c, n, c.vnodes, p);
    AddRing(c, t, n, c.vnodes, p);
    AddCount(c, t, n, c.vnodes, p);
  }

  /** Two points of one node together: join, leave, and some lookup fails. */
  lemma OwnCollisionFails(c: Config, n: Node, i: nat, j: nat)
    requires i < j < c.vnodes && c.point(n, i) == c.point(n, j)
    ensures exists pos: nat :: Lookup(Remove(c, Add(c, START, n), n), pos) == KeyError
  {
    Joins(c, START, n, i);
    HitsTwice(c, n, c.vnodes, i, j, c.point(n, i));
    DoubledFails(c, Add(c, START, n), n);
  }

  /** Points of two nodes together: both join, the later one leaves, and some lookup fails. */
  lemma CollisionFails(c: Config, n: Node, m: Node, i: nat, j: nat)
    requires n != m && i < c.vnodes && j < c.vnodes && c.point(n, i) == c.point(m, j)
    ensures exists pos: nat :: Lookup(Remove(c, Add(c, Add(c, START, n), m), m), pos) == KeyError
  {
    Joins(c, START, n, i);
    var s := Add(c, START, n);
    Joins(c, s, m, j);
    DoubledFails(c, Add(c, s, m), m);
  }

  lemma RunOfTwo(c: Config, a: Op, b: Op)
    ensures Run(c, [a, b]) == Step(c, Step(c, START, a), b)
  {
    assert [a][..0] == [];
    assert Run(c, [a]) == Step(c, START, a);
    assert [a, b][..1] == [a];
  }

  lemma RunOfThree(c: Config, a: Op, b: Op, d: Op)
    ensures Run(c, [a, b, d]) == Step(c, Step(c, Step(c, START, a), b), d)
  {
    assert [a, b, d][..2] == [a, b];
    RunOfTwo(c, a, b);
  }

  ghost predicate Fails(c: Config, ops: seq<Op>) { exists pos: nat :: Lookup(Run(c, ops), pos) == KeyError }

  lemma SomeHistoryFails(c: Config, all: set<Node>, n: Node, m: Node, i: nat, j: nat)
    requires n in all && m in all && i < c.vnodes && j < c.vnodes && c.point(n, i) == c.point(m, j) && (n != m || i < j)
    ensures exists ops :: Over(ops, all) && Fails(c, ops)
  {
    if n == m {
      OwnCollisionFails(c, n, i, j);
      RunOfTwo(c, Join(n), Leave(n));
      assert Over([Join(n), Leave(n)], all) && Fails(c, [Join(n), Leave(n)]);
    } else {
      CollisionFails(c, n, m, i, j);
      RunOfThree(c, Join(n), Join(m), Leave(m));
      assert Over([Join(n), Join(m), Leave(m)], all) && Fails(c, [Join(n), Join(m), Leave(m)]);
    }
  }

  lemma GoodNeverFails(c: Config, s: State, pos: nat)
    requires Good(c, s)
    ensures Lookup(s, pos) != KeyError
  {
    if s.keys != [] { NextOfIsNext(s.keys, pos); }
  }

  /** No history over these nodes ever makes a lookup fail exactly when none of their points collide. */
  lemma SafeIffNoCollision(c: Config, all: set<Node>)
    ensures NoCollision(c, all) <==> forall ops :: Over(ops, all) ==> !Fails(c, ops)
  {
    if NoCollision(c, all) {
      forall ops | Over(ops, all)
        ensures !Fails(c, ops)
      {
        RunGood(c, all, ops);
        forall pos: nat
          ensures Lookup(Run(c, ops), pos) != KeyError
        {
          GoodNeverFails(c, Run(c, ops), pos);
        }
      }
    } else {
      var n, m, i: nat, j: nat :|
        n in all && m in all && i < c.vnodes && j < c.vnodes && c.point(n, i) == c.point(m, j) && !(n == m && i == j);
      if n == m && j < i { SomeHistoryFails(c, all, m, n, j, i); } else { SomeHistoryFails(c, all, n, m, i, j); }
    }
  }

  /** Histories with one final node set always answer alike. */
  ghost predicate NodesDecide(c: Config, all: set<Node>) {
    forall a, b, pos: nat :: Over(a, all) && Over(b, all) && Run(c, a).nodes == Run(c, b).nodes ==>
      Lookup(Run(c, a), pos) == Lookup(Run(c, b), pos)
  }

  /** A lookup that fails, against another history to the same nodes whose lookups do not. */
  lemma HistoriesDisagree(c: Config, all: set<Node>, a: seq<Op>, b: seq<Op>)
    requires Over(a, all) && Over(b, all) && Run(c, a).nodes == Run(c, b).nodes
    requires Fails(c, a) && Sorted(Run(c, b).keys) && Aligned(Run(c, b))
    ensures !NodesDecide(c, all)
  {
    var pos: nat :| Lookup(Run(c, a), pos) == KeyError;
    AlignedNeverFails(Run(c, b), pos);
  }

  lemma AlignedNeverFails(s: State, pos: nat)
    requires Sorted(s.keys) && Aligned(s)
    ensures Lookup(s, pos) != KeyError
  {
    if s.keys != [] { NextOfIsNext(s.keys, pos); }
  }

  /** A node with two points together: joining and leaving is not the same as never joining. */
  lemma OwnCollisionDisagrees(c: Config, all: set<Node>, n: Node, i: nat, j: nat)
    requires n in all && i < j < c.vnodes && c.point(n, i) == c.point(n, j)
    ensures !NodesDecide(c, all)
  {
    Joins(c, START, n, i);
    OwnCollisionFails(c, n, i, j);
    RunOfTwo(c, Join(n), Leave(n));
    StepNodes(c, Add(c, START, n), Leave(n));
    HistoriesDisagree(c, all, [Join(n), Leave(n)], []);
  }

  /** Two nodes with points together: the later joining and leaving is not the same as its never joining. */
  lemma CollisionDisagrees(c: Config, all: set<Node>, n: Node, m: Node, i: nat, j: nat)
    requires n in all && m in all && n != m && i < c.vnodes && j < c.vnodes && c.point(n, i) == c.point(m, j)
    ensures !NodesDecide(c, all)
  {
    var first := Add(c, START, n);
    Joins(c, START, n, i);
    CollisionFails(c, n, m, i, j);
    RunOfThree(c, Join(n), Join(m), Leave(m));
    Joins(c, first, m, j);
    StepNodes(c, Add(c, first, m), Leave(m));
    assert [Join(n)][..0] == [];
    HistoriesDisagree(c, all, [Join(n), Join(m), Leave(m)], [Join(n)]);
  }

  /** Lookups depend on the node set alone, over all histories, exactly when no points collide. */
  lemma NodesDecideIff(c: Config, all: set<Node>)
    ensures NodesDecide(c, all) <==> NoCollision(c, all)
  {
    if NoCollision(c, all) {
      forall a, b, pos: nat | Over(a, all) && Over(b, all) && Run(c, a).nodes == Run(c, b).nodes
        ensures Lookup(Run(c, a), pos) == Lookup(Run(c, b), pos)
      {
        HistoryIrrelevant(c, all, a, b);
      }
    } else {
      var n, m, i: nat, j: nat :|
        n in all && m in all && i < c.vnodes && j < c.vnodes && c.point(n, i) == c.point(m, j) && !(n == m && i == j);
      if n != m {
        CollisionDisagrees(c, all, n, m, i, j);
      } else {
        OwnCollisionDisagrees(c, all, n, if i < j then i else j, if i < j then j else i);
      }
    }
  }

  // ---------- the class ----------

  class ConsistentHashRing {
    const c: Config
    var ring: map<nat, Node>
    var sortedKeys: seq<nat>
    var nodes: set<Node>

    function View(): State
      reads this
    {
      State(ring, sortedKeys, nodes)
    }

    constructor (c: Config, initial: seq<Node>)
      ensures this.c == c
      ensures View() == Run(c, seq(|initial|, i requires 0 <= i < |initial| => Join(initial[i])))
      ensures Sorted(sortedKeys)
    {
      this.c := c;
      ring, sortedKeys, nodes := map[], [], {};
      new;
      var k := 0;
      ghost var ops: seq<Op> := [];
      while k < |initial|
        invariant 0 <= k <= |initial| && Sorted(sortedKeys)
        invariant ops == seq(k, i requires 0 <= i < k => Join(initial[i])) && View() == Run(c, ops)
      {
        AddNode(initial[k]);
        assert (ops + [Join(initial[k])])[..k] == ops;
        ops := ops + [Join(initial[k])];
        k := k + 1;
      }
    }

    method AddNode(node: Node)
      requires Sorted(sortedKeys)
      modifies this
      ensures View() == Add(c, old(View()), node) && Sorted(sortedKeys)
    {
      if node in nodes {
        return;
      }
      nodes := nodes + {node};
      ghost var s := View();
      for i := 0 to c.vnodes
        invariant View() == AddPoints(c, s, node, i)
      {
        var pos := c.point(node, i);
        ring := ring[pos := node];
        var k := BisectRight(sortedKeys, pos);
        InsortIs(sortedKeys, pos);
        sortedKeys := sortedKeys[..k] + [pos] + sortedKeys[k..];
      }
      AddSorted(c, s, node, c.vnodes);
    }

    method RemoveNode(node: Node)
      requires Sorted(sortedKeys)
      modifies this
      ensures View() == Remove(c, old(View()), node) && Sorted(sortedKeys)
    {
      if node !in nodes {
        return;
      }
      nodes := nodes - {node};
      ghost var s := View();
      for i := 0 to c.vnodes
        invariant Sorted(sortedKeys) && View() == RemovePoints(c, s, node, i)
      {
        var pos := c.point(node, i);
        if pos in ring && ring[pos] == node {
          ring := ring - {pos};
          ExtractIs(sortedKeys, pos);
          ExtractSorted(sortedKeys, pos);
          var k := BisectLeft(sortedKeys, pos);
          if k < |sortedKeys| && sortedKeys[k] == pos {
            sortedKeys := sortedKeys[..k] + sortedKeys[k + 1..];
          }
        }
      }
    }

    method GetNode(key: string) returns (r: Answer)
      ensures r == Lookup(View(), c.at(key))
    {
      if sortedKeys == [] {
        return Empty;
      }
      var i := BisectRight(sortedKeys, c.at(key));
      if i == |sortedKeys| {
        i := 0;
      }
      var p := sortedKeys[i];
      return if p in ring then Owner(ring[p]) else KeyError;
    }
  }
}
