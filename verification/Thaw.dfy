/** Thawing a snapshot's topology: the Kahn walk that recovers a staging order valid for both
    CSR directions at once, and the restage built on it. */
module Thaw {
  import opened StableSort
  import opened Csr
  import opened InToOut

  // ---- the constraint graph ---------------------------------------------------------------

  /** Owning nodes of both directions and the two position maps. Each outgoing position has at
      most two predecessors: the one before it in its source's range, and the one whose
      incoming position is just before its own in its destination's range. */
  datatype Chains = Chains(src: seq<nat>, dst: seq<nat>, inToOut: seq<nat>, outToIn: seq<nat>) {
    ghost predicate Valid() {
      && |src| == |dst| == |inToOut| == |outToIn|
      && IsPerm(inToOut) && IsPerm(outToIn)
      && (forall q :: 0 <= q < |src| ==> outToIn[inToOut[q]] == q)
      && (forall p :: 0 <= p < |src| ==> inToOut[outToIn[p]] == p)
    }

    ghost predicate HasOutPred(p: nat)
      requires Valid() && p < |src|
    {
      p > 0 && src[p - 1] == src[p]
    }

    ghost predicate HasInPred(p: nat)
      requires Valid() && p < |src|
    {
      outToIn[p] > 0 && dst[outToIn[p] - 1] == dst[outToIn[p]]
    }

    ghost function InPred(p: nat): (r: nat)
      requires Valid() && p < |src| && HasInPred(p)
      ensures r < |src|
    {
      inToOut[outToIn[p] - 1]
    }

    /** How many of `p`'s predecessors are still missing from `outDone` / `inDone`. */
    ghost function Pending(p: nat, outDone: set<nat>, inDone: set<nat>): nat
      requires Valid() && p < |src|
    {
      (if HasOutPred(p) && p - 1 !in outDone then 1 else 0) +
      (if HasInPred(p) && InPred(p) !in inDone then 1 else 0)
    }

    ghost predicate PredsIn(p: nat, s: seq<nat>)
      requires Valid() && p < |src|
    {
      (HasOutPred(p) ==> p - 1 in s) && (HasInPred(p) ==> InPred(p) in s)
    }

    /** A queue in which every entry comes after its predecessors. */
    ghost predicate Ordered(queue: seq<nat>)
      requires Valid()
    {
      && (forall k :: 0 <= k < |queue| ==> queue[k] < |src|)
      && (forall k, l :: 0 <= k < l < |queue| ==> queue[k] != queue[l])
      && (forall k :: 0 <= k < |queue| ==> PredsIn(queue[k], queue[..k]))
    }

    /** `rank` climbs along every constraint, so the constraint graph has no cycle. */
    ghost predicate Climbs(rank: seq<nat>)
      requires Valid()
    {
      |rank| == |src| &&
      forall p :: 0 <= p < |src| ==>
        (HasOutPred(p) ==> rank[p - 1] < rank[p]) && (HasInPred(p) ==> rank[InPred(p)] < rank[p])
    }
  }

  ghost function Elems(s: seq<nat>): set<nat> {
    set x | x in s
  }

  /** The walk's invariant between dequeues (`outDone == inDone`) and between the two releases
      of one dequeue (`inDone` lags by the dequeued entry). */
  ghost predicate Walk(c: Chains, indeg: seq<nat>, queue: seq<nat>, outDone: set<nat>, inDone: set<nat>)
    requires c.Valid()
  {
    && |indeg| == |c.src| && c.Ordered(queue)
    && outDone <= Elems(queue) && inDone <= outDone
    && (forall p :: 0 <= p < |c.src| ==> indeg[p] == c.Pending(p, outDone, inDone))
    && (forall p :: 0 <= p < |c.src| ==> (p in queue <==> indeg[p] == 0))
  }

  /** One `release`: decrement, and enqueue on reaching zero. */
  function Release(indeg: seq<nat>, queue: seq<nat>, p: nat): (seq<nat>, seq<nat>)
    requires p < |indeg| && indeg[p] > 0
  {
    (indeg[p := indeg[p] - 1], if indeg[p] == 1 then queue + [p] else queue)
  }

  /** The release `p` owes its successor in its source's range, if it has one. */
  ghost function OutStep(c: Chains, indeg: seq<nat>, queue: seq<nat>, p: nat): (seq<nat>, seq<nat>)
    requires c.Valid() && p < |c.src| == |indeg|
    requires p + 1 < |c.src| && c.src[p + 1] == c.src[p] ==> indeg[p + 1] > 0
  {
    if p + 1 < |c.src| && c.src[p + 1] == c.src[p] then Release(indeg, queue, p + 1) else (indeg, queue)
  }

  /** The release `p` owes its successor in its destination's range, if it has one. */
  ghost function InStep(c: Chains, indeg: seq<nat>, queue: seq<nat>, p: nat): (seq<nat>, seq<nat>)
    requires c.Valid() && p < |c.src| == |indeg|
    requires var q := c.outToIn[p];
             q + 1 < |c.src| && c.dst[q + 1] == c.dst[q] ==> indeg[c.inToOut[q + 1]] > 0
  {
    var q := c.outToIn[p];
    if q + 1 < |c.src| && c.dst[q + 1] == c.dst[q] then Release(indeg, queue, c.inToOut[q + 1]) else (indeg, queue)
  }

  lemma EnqueueReady(c: Chains, queue: seq<nat>, p: nat, outDone: set<nat>, inDone: set<nat>)
    requires c.Valid() && c.Ordered(queue) && p < |c.src| && p !in queue
    requires outDone <= Elems(queue) && inDone <= Elems(queue) && c.Pending(p, outDone, inDone) == 0
    ensures c.Ordered(queue + [p])
  {
    var longer := queue + [p];
    assert longer[..|queue|] == queue;
    forall k | 0 <= k < |longer| ensures c.PredsIn(longer[k], longer[..k]) {
      if k < |queue| {
        assert c.PredsIn(queue[k], queue[..k]);
        assert longer[..k] == queue[..k];
      }
    }
  }

  /** A release is right when the enlarged done-sets lower exactly `s`'s pending count. */
  lemma ReleaseKeepsWalk(c: Chains, indeg: seq<nat>, queue: seq<nat>,
                         outDone: set<nat>, inDone: set<nat>, outDone': set<nat>, inDone': set<nat>, s: nat)
    requires c.Valid() && Walk(c, indeg, queue, outDone, inDone) && s < |c.src|
    requires outDone' <= Elems(queue) && inDone' <= outDone'
    requires c.Pending(s, outDone, inDone) == c.Pending(s, outDone', inDone') + 1
    requires forall x :: 0 <= x < |c.src| && x != s ==> c.Pending(x, outDone', inDone') == c.Pending(x, outDone, inDone)
    ensures indeg[s] > 0
    ensures var (i, q) := Release(indeg, queue, s); Walk(c, i, q, outDone', inDone')
  {
    var (i, q) := Release(indeg, queue, s);
    assert s !in queue;
    if indeg[s] == 1 {
      EnqueueReady(c, queue, s, outDone', inDone');
    }
    assert forall x :: x in queue ==> x in q;
    assert forall x :: x in q ==> x in queue || (x == s && indeg[s] == 1);
  }

  lemma OutPendingChange(c: Chains, done: set<nat>, p: nat, x: nat)
    requires c.Valid() && p !in done && p < |c.src| && x < |c.src|
    ensures c.Pending(x, done, done) ==
            c.Pending(x, done + {p}, done) + if x == p + 1 && c.src[x] == c.src[p] then 1 else 0
  {
  }

  lemma InPendingChange(c: Chains, done: set<nat>, p: nat, x: nat)
    requires c.Valid() && p !in done && p < |c.src| && x < |c.src|
    ensures var q := c.outToIn[p];
            c.Pending(x, done + {p}, done) ==
            c.Pending(x, done + {p}, done + {p}) +
            if q + 1 < |c.src| && c.dst[q + 1] == c.dst[q] && x == c.inToOut[q + 1] then 1 else 0
  {
    var q := c.outToIn[p];
    if c.HasInPred(x) && c.InPred(x) == p {
      assert c.outToIn[x] == q + 1;
    } else if q + 1 < |c.src| && x == c.inToOut[q + 1] {
      assert c.outToIn[x] == q + 1;
    }
  }

  /** Releasing the outgoing successor accounts for `p` on the outgoing side. */
  lemma ReleaseOut(c: Chains, indeg: seq<nat>, queue: seq<nat>, done: set<nat>, p: nat)
    requires c.Valid() && Walk(c, indeg, queue, done, done) && p in queue && p !in done && p < |c.src|
    ensures p + 1 < |c.src| && c.src[p + 1] == c.src[p] ==> indeg[p + 1] > 0
    ensures var r := OutStep(c, indeg, queue, p); Walk(c, r.0, r.1, done + {p}, done)
  {
    forall x | 0 <= x < |c.src|
      ensures c.Pending(x, done, done) ==
              c.Pending(x, done + {p}, done) + if x == p + 1 && c.src[x] == c.src[p] then 1 else 0
    {
      OutPendingChange(c, done, p, x);
    }
    if p + 1 < |c.src| && c.src[p + 1] == c.src[p] {
      ReleaseKeepsWalk(c, indeg, queue, done, done, done + {p}, done, p + 1);
    }
  }

  /** Releasing the incoming successor accounts for `p` on the incoming side. */
  lemma ReleaseIn(c: Chains, indeg: seq<nat>, queue: seq<nat>, done: set<nat>, p: nat)
    requires c.Valid() && Walk(c, indeg, queue, done + {p}, done) && p !in done && p < |c.src|
    ensures var q := c.outToIn[p];
            q + 1 < |c.src| && c.dst[q + 1] == c.dst[q] ==> indeg[c.inToOut[q + 1]] > 0
    ensures var r := InStep(c, indeg, queue, p); Walk(c, r.0, r.1, done + {p}, done + {p})
  {
    var q := c.outToIn[p];
    if q + 1 < |c.src| && c.dst[q + 1] == c.dst[q] {
      ReleaseInNext(c, indeg, queue, done, p, c.inToOut[q + 1]);
    } else {
      forall x | 0 <= x < |c.src| ensures c.Pending(x, done + {p}, done) == c.Pending(x, done + {p}, done + {p}) {
        InPendingChange(c, done, p, x);
      }
      NothingReleased(c, indeg, queue, done + {p}, done, done + {p});
    }
  }

  lemma ReleaseInNext(c: Chains, indeg: seq<nat>, queue: seq<nat>, done: set<nat>, p: nat, s: nat)
    requires c.Valid() && Walk(c, indeg, queue, done + {p}, done) && p !in done && p < |c.src|
    requires var q := c.outToIn[p]; q + 1 < |c.src| && c.dst[q + 1] == c.dst[q] && s == c.inToOut[q + 1]
    ensures indeg[s] > 0
    ensures var (i, q) := Release(indeg, queue, s); Walk(c, i, q, done + {p}, done + {p})
  {
    forall x | 0 <= x < |c.src|
      ensures c.Pending(x, done + {p}, done) == c.Pending(x, done + {p}, done + {p}) + if x == s then 1 else 0
    {
      InPendingChange(c, done, p, x);
    }
    ReleaseKeepsWalk(c, indeg, queue, done + {p}, done, done + {p}, done + {p}, s);
  }

  lemma NothingReleased(c: Chains, indeg: seq<nat>, queue: seq<nat>, outDone: set<nat>, inDone: set<nat>, inDone': set<nat>)
    requires c.Valid() && Walk(c, indeg, queue, outDone, inDone) && inDone' <= outDone
    requires forall x :: 0 <= x < |c.src| ==> c.Pending(x, outDone, inDone) == c.Pending(x, outDone, inDone')
    ensures Walk(c, indeg, queue, outDone, inDone')
  {
  }

  /** With no cycle the walk cannot stall: at exhaustion everything has been queued. */
  lemma {:induction false} NoStall(c: Chains, indeg: seq<nat>, queue: seq<nat>, rank: seq<nat>, p: nat)
    requires c.Valid() && Walk(c, indeg, queue, Elems(queue), Elems(queue))
    requires c.Climbs(rank) && p < |c.src|
    ensures p in queue
    decreases rank[p]
  {
    if c.HasOutPred(p) { NoStall(c, indeg, queue, rank, p - 1); }
    if c.HasInPred(p) { NoStall(c, indeg, queue, rank, c.InPred(p)); }
    assert c.Pending(p, Elems(queue), Elems(queue)) == 0;
  }

  // ---- reading the chains off a laid-out snapshot -------------------------------------------

  /** `pos` orders the relationships by owner, then by staging index: the defining property of
      one direction's layout. */
  ghost predicate Placement(rels: seq<Rel>, d: Side, pos: seq<nat>) {
    && |pos| == |rels| && IsPerm(pos)
    && forall i, j :: 0 <= i < |rels| && 0 <= j < |rels| ==>
         (pos[i] < pos[j] <==>
          Owner(rels[i], d) < Owner(rels[j], d) || (Owner(rels[i], d) == Owner(rels[j], d) && i < j))
  }

  lemma RanksArePlacement(rels: seq<Rel>, d: Side)
    ensures Placement(rels, d, Ranks(Owners(rels, d)))
  {
    var own := Owners(rels, d);
    RanksPermute(own);
    forall i, j | 0 <= i < |rels| && 0 <= j < |rels|
      ensures Ranks(own)[i] < Ranks(own)[j] <==>
              Owner(rels[i], d) < Owner(rels[j], d) || (Owner(rels[i], d) == Owner(rels[j], d) && i < j)
    {
      RankOrder(own, i, j);
    }
  }

  /** The chains are those of the two directions of `rels`, placed at `outPos` and `inPos`. */
  ghost predicate Describes(c: Chains, rels: seq<Rel>, outPos: seq<nat>, inPos: seq<nat>)
    requires c.Valid()
  {
    && |rels| == |c.src| && Placement(rels, Out, outPos) && Placement(rels, In, inPos)
    && (forall i :: 0 <= i < |rels| ==> c.src[outPos[i]] == rels[i].src)
    && (forall i :: 0 <= i < |rels| ==> c.dst[inPos[i]] == rels[i].dst)
    && (forall i :: 0 <= i < |rels| ==> c.inToOut[inPos[i]] == outPos[i])
  }

  /** The relationship at outgoing position `p`, and where it sits on the incoming side. */
  lemma DescribedAt(c: Chains, rels: seq<Rel>, outPos: seq<nat>, inPos: seq<nat>, p: nat) returns (i: nat)
    requires c.Valid() && Describes(c, rels, outPos, inPos) && p < |c.src|
    ensures i == IndexOf(outPos, p) && i < |rels| && outPos[i] == p && inPos[i] == c.outToIn[p]
    ensures c.src[p] == rels[i].src && c.dst[c.outToIn[p]] == rels[i].dst
  {
    i := IndexOf(outPos, p);
    assert c.inToOut[inPos[i]] == p;
  }

  /** The staging index of the relationship at each outgoing position. */
  ghost function RelIndex(outPos: seq<nat>): (ix: seq<nat>)
    requires IsPerm(outPos)
    ensures |ix| == |outPos|
  {
    seq(|outPos|, p requires 0 <= p < |outPos| => IndexOf(outPos, p))
  }

  /** Insertion order is one linear extension of both directions, so there is no cycle. */
  lemma DescribesClimbs(c: Chains, rels: seq<Rel>, outPos: seq<nat>, inPos: seq<nat>)
    requires c.Valid() && Describes(c, rels, outPos, inPos)
    ensures c.Climbs(RelIndex(outPos))
  {
    var ix := RelIndex(outPos);
    forall p | 0 <= p < |rels|
      ensures c.HasOutPred(p) ==> ix[p - 1] < ix[p]
      ensures c.HasInPred(p) ==> ix[c.InPred(p)] < ix[p]
    {
      var i := DescribedAt(c, rels, outPos, inPos, p);
      if c.HasOutPred(p) {
        var j := DescribedAt(c, rels, outPos, inPos, p - 1);
        assert outPos[j] < outPos[i];
      }
      if c.HasInPred(p) {
        var j := DescribedAt(c, rels, outPos, inPos, c.InPred(p));
        assert inPos[j] < inPos[i];
      }
    }
  }

  /** Relationships that share a source or a destination keep their staging order. */
  ghost predicate Extends(order: seq<nat>, rels: seq<Rel>, outPos: seq<nat>) {
    && |order| == |rels| == |outPos| && IsPerm(order) && IsPerm(outPos)
    && forall k, l :: 0 <= k < |order| && 0 <= l < |order| ==> KeepsOrder(order, rels, outPos, k, l)
  }

  ghost predicate KeepsOrder(order: seq<nat>, rels: seq<Rel>, outPos: seq<nat>, k: nat, l: nat)
    requires k < |order| == |rels| == |outPos| && l < |order| && IsPerm(order) && IsPerm(outPos)
  {
    var i, j := IndexOf(outPos, order[k]), IndexOf(outPos, order[l]);
    i < j && (rels[i].src == rels[j].src || rels[i].dst == rels[j].dst) ==> k < l
  }

  /** Every entry comes after the position just before it, if one node owns both. */
  ghost predicate OutChained(src: seq<nat>, order: seq<nat>) {
    forall k :: 0 <= k < |order| ==>
      order[k] < |src| && (order[k] > 0 && src[order[k] - 1] == src[order[k]] ==> order[k] - 1 in order[..k])
  }

  lemma {:induction false} ChainOut(src: seq<nat>, order: seq<nat>, k: nat, l: nat)
    requires OutChained(src, order) && IsPerm(order) && |order| == |src|
    requires forall x, y :: 0 <= x <= y < |src| ==> src[x] <= src[y]
    requires k < |order| && l < |order| && order[k] < order[l] && src[order[k]] == src[order[l]]
    ensures k < l
    decreases order[l] - order[k]
  {
    assert src[order[l] - 1] == src[order[l]];
    var b := IndexOf(order, order[l] - 1);
    if order[k] < order[b] {
      ChainOut(src, order, k, b);
    }
  }

  lemma OrderedIsOutChained(c: Chains, order: seq<nat>)
    requires c.Valid() && c.Ordered(order)
    ensures OutChained(c.src, order)
  {
    forall k | 0 <= k < |order| && order[k] > 0 && c.src[order[k] - 1] == c.src[order[k]]
      ensures order[k] - 1 in order[..k]
    {
      assert c.PredsIn(order[k], order[..k]);
    }
  }

  lemma {:induction false} ChainIn(c: Chains, order: seq<nat>, k: nat, l: nat)
    requires c.Valid() && c.Ordered(order) && IsPerm(order) && |order| == |c.src|
    requires forall x, y :: 0 <= x <= y < |c.src| ==> c.dst[x] <= c.dst[y]
    requires k < |order| && l < |order|
    requires c.outToIn[order[k]] < c.outToIn[order[l]] && c.dst[c.outToIn[order[k]]] == c.dst[c.outToIn[order[l]]]
    ensures k < l
    decreases c.outToIn[order[l]] - c.outToIn[order[k]]
  {
    assert c.PredsIn(order[l], order[..l]) && c.HasInPred(order[l]);
    var b := IndexOf(order, c.InPred(order[l]));
    if c.outToIn[order[k]] < c.outToIn[order[b]] {
      ChainIn(c, order, k, b);
    }
  }

  lemma OwnersAscend(c: Chains, rels: seq<Rel>, outPos: seq<nat>, inPos: seq<nat>, x: nat, y: nat)
    requires c.Valid() && Describes(c, rels, outPos, inPos) && x <= y < |c.src|
    ensures c.src[x] <= c.src[y] && c.dst[x] <= c.dst[y]
  {
    var i := DescribedAt(c, rels, outPos, inPos, x);
    var j := DescribedAt(c, rels, outPos, inPos, y);
    assert outPos[i] <= outPos[j];
    i := DescribedAt(c, rels, outPos, inPos, c.inToOut[x]);
    j := DescribedAt(c, rels, outPos, inPos, c.inToOut[y]);
    assert inPos[i] <= inPos[j];
  }

  lemma PairKeepsOrder(c: Chains, order: seq<nat>, rels: seq<Rel>, outPos: seq<nat>, inPos: seq<nat>, k: nat, l: nat)
    requires c.Valid() && Describes(c, rels, outPos, inPos)
    requires c.Ordered(order) && IsPerm(order) && |order| == |c.src|
    requires forall x, y :: 0 <= x <= y < |c.src| ==> c.src[x] <= c.src[y]
    requires forall x, y :: 0 <= x <= y < |c.src| ==> c.dst[x] <= c.dst[y]
    requires k < |order| && l < |order|
    ensures KeepsOrder(order, rels, outPos, k, l)
  {
    var i := DescribedAt(c, rels, outPos, inPos, order[k]);
    var j := DescribedAt(c, rels, outPos, inPos, order[l]);
    if i < j && rels[i].src == rels[j].src {
      assert outPos[i] < outPos[j];
      OrderedIsOutChained(c, order);
      ChainOut(c.src, order, k, l);
    } else if i < j && rels[i].dst == rels[j].dst {
      assert inPos[i] < inPos[j];
      ChainIn(c, order, k, l);
    }
  }

  /** A complete walk is a linear extension of both directions. */
  lemma CompleteWalkExtends(c: Chains, order: seq<nat>, rels: seq<Rel>, outPos: seq<nat>, inPos: seq<nat>)
    requires c.Valid() && Describes(c, rels, outPos, inPos)
    requires c.Ordered(order) && IsPerm(order) && |order| == |c.src|
    ensures Extends(order, rels, outPos)
  {
    forall x, y | 0 <= x <= y < |c.src| ensures c.src[x] <= c.src[y] && c.dst[x] <= c.dst[y] {
      OwnersAscend(c, rels, outPos, inPos, x, y);
    }
    forall k, l | 0 <= k < |order| && 0 <= l < |order| ensures KeepsOrder(order, rels, outPos, k, l) {
      PairKeepsOrder(c, order, rels, outPos, inPos, k, l);
    }
  }

  /** The exhausted walk of a consistent snapshot is complete, and so a linear extension. */
  lemma ExhaustedWalkExtends(c: Chains, indeg: seq<nat>, order: seq<nat>,
                             rels: seq<Rel>, outPos: seq<nat>, inPos: seq<nat>)
    requires c.Valid() && Walk(c, indeg, order, Elems(order), Elems(order))
    requires Describes(c, rels, outPos, inPos)
    ensures |order| == |c.src| && Extends(order, rels, outPos)
  {
    DescribesClimbs(c, rels, outPos, inPos);
    forall p | 0 <= p < |c.src| ensures p in order {
      NoStall(c, indeg, order, RelIndex(outPos), p);
    }
    DistinctBelow(order, |c.src|);
    CompleteWalkExtends(c, order, rels, outPos, inPos);
  }

  // ---- the walk -------------------------------------------------------------------------------

  /** `owners` is the owner column `OwnersOf` computes. */
  ghost predicate OwnersFit(a: Adjacency, n: nat, owners: seq<nat>) {
    && WellFormed(a, n) && |owners| == |a.nbrs|
    && (forall p :: 0 <= p < |owners| ==> OwnsSlot(a.offsets, owners[p], p))
    && (forall u: nat, p :: 0 <= p < |owners| && OwnsSlot(a.offsets, u, p) ==> owners[p] == u)
  }

  lemma RangeEnds(a: Adjacency, n: nat, owners: seq<nat>, p: nat)
    requires OwnersFit(a, n, owners) && p < |owners|
    ensures OwnsSlot(a.offsets, owners[p], p)
    ensures p != a.offsets[owners[p]] <==> p > 0 && owners[p - 1] == owners[p]
    ensures p + 1 < a.offsets[owners[p] + 1] <==> p + 1 < |owners| && owners[p + 1] == owners[p]
  {
    var u := owners[p];
    assert OwnsSlot(a.offsets, u, p);
    if p > a.offsets[u] { assert OwnsSlot(a.offsets, u, p - 1); }
    if p > 0 && owners[p - 1] == u { assert OwnsSlot(a.offsets, owners[p - 1], p - 1); }
    if p + 1 < a.offsets[u + 1] { assert OwnsSlot(a.offsets, u, p + 1); }
    if p + 1 < |owners| && owners[p + 1] == u { assert OwnsSlot(a.offsets, owners[p + 1], p + 1); }
  }

  /** The `release` closure. */
  method ReleaseAt(indeg: array<nat>, queue: seq<nat>, p: nat) returns (queue': seq<nat>)
    requires p < indeg.Length && indeg[p] > 0
    modifies indeg
    ensures (indeg[..], queue') == Release(old(indeg[..]), queue, p)
  {
    indeg[p] := indeg[p] - 1;
    queue' := if indeg[p] == 0 then queue + [p] else queue;
  }

  /** Inverts a position map. */
  method InvertPositions(p: seq<nat>) returns (r: seq<nat>)
    requires IsPerm(p)
    ensures |r| == |p| && IsPerm(r)
    ensures forall i :: 0 <= i < |p| ==> r[p[i]] == i
    ensures forall v :: 0 <= v < |p| ==> p[r[v]] == v
  {
    var inv := new nat[|p|];
    for i := 0 to |p|
      invariant forall j :: 0 <= j < i ==> inv[p[j]] == j
    {
      inv[p[i]] := i;
    }
    r := inv[..];
    forall v | 0 <= v < |p| ensures r[v] == Inverse(p)[v] {
      assert r[p[Inverse(p)[v]]] == Inverse(p)[v];
    }
    assert r == Inverse(p);
  }

  /** How many of its two chains a position has someone ahead of it in. */
  method Indegrees(c: Chains, out: Adjacency, inn: Adjacency, n: nat) returns (indeg: array<nat>)
    requires c.Valid() && OwnersFit(out, n, c.src) && OwnersFit(inn, n, c.dst)
    ensures fresh(indeg) && indeg.Length == |c.src|
    ensures forall x :: 0 <= x < |c.src| ==> indeg[x] == c.Pending(x, {}, {})
  {
    indeg := new nat[|c.src|];
    for p := 0 to |c.src|
      invariant forall x :: 0 <= x < p ==> indeg[x] == c.Pending(x, {}, {})
    {
      RangeEnds(out, n, c.src, p);
      RangeEnds(inn, n, c.dst, c.outToIn[p]);
      var q := c.outToIn[p];
      indeg[p] := if p != out.offsets[c.src[p]] then 1 else 0;
      indeg[p] := indeg[p] + if q != inn.offsets[c.dst[q]] then 1 else 0;
    }
  }

  /** The chain heads, in outgoing order, start the queue. */
  method ChainHeads(c: Chains, indeg: array<nat>) returns (queue: seq<nat>)
    requires c.Valid() && indeg.Length == |c.src|
    requires forall x :: 0 <= x < |c.src| ==> indeg[x] == c.Pending(x, {}, {})
    ensures Walk(c, indeg[..], queue, {}, {})
  {
    queue := [];
    for p := 0 to |c.src|
      invariant forall x: nat :: x in queue <==> x < p && indeg[x] == 0
      invariant c.Ordered(queue)
    {
      if indeg[p] == 0 {
        EnqueueReady(c, queue, p, {}, {});
        queue := queue + [p];
      }
    }
  }

  method ReleaseOutSuccessor(c: Chains, out: Adjacency, n: nat, indeg: array<nat>, queue: seq<nat>, p: nat)
    returns (queue': seq<nat>)
    requires c.Valid() && OwnersFit(out, n, c.src) && p < |c.src| == indeg.Length
    requires p + 1 < |c.src| && c.src[p + 1] == c.src[p] ==> indeg[p + 1] > 0
    modifies indeg
    ensures (indeg[..], queue') == OutStep(c, old(indeg[..]), queue, p)
  {
    queue' := queue;
    RangeEnds(out, n, c.src, p);
    if p + 1 < out.offsets[c.src[p] + 1] {
      queue' := ReleaseAt(indeg, queue, p + 1);
    }
  }

  method ReleaseInSuccessor(c: Chains, inn: Adjacency, n: nat, indeg: array<nat>, queue: seq<nat>, p: nat)
    returns (queue': seq<nat>)
    requires c.Valid() && OwnersFit(inn, n, c.dst) && p < |c.src| == indeg.Length
    requires var q := c.outToIn[p];
             q + 1 < |c.src| && c.dst[q + 1] == c.dst[q] ==> indeg[c.inToOut[q + 1]] > 0
    modifies indeg
    ensures (indeg[..], queue') == InStep(c, old(indeg[..]), queue, p)
  {
    queue' := queue;
    var q := c.outToIn[p];
    RangeEnds(inn, n, c.dst, q);
    if q + 1 < inn.offsets[c.dst[q] + 1] {
      queue' := ReleaseAt(indeg, queue, c.inToOut[q + 1]);
    }
  }

  /** Dequeues `p`, releasing its successor in each direction. */
  method Dequeue(c: Chains, out: Adjacency, inn: Adjacency, n: nat,
                 indeg: array<nat>, queue: seq<nat>, p: nat, ghost done: set<nat>) returns (queue': seq<nat>)
    requires c.Valid() && OwnersFit(out, n, c.src) && OwnersFit(inn, n, c.dst)
    requires Walk(c, indeg[..], queue, done, done) && p in queue && p !in done && p < |c.src|
    modifies indeg
    ensures Walk(c, indeg[..], queue', done + {p}, done + {p})
    ensures queue <= queue'
  {
    queue' := StepOut(c, out, n, indeg, queue, p, done);
    queue' := StepIn(c, inn, n, indeg, queue', p, done);
  }

  method StepOut(c: Chains, out: Adjacency, n: nat, indeg: array<nat>, queue: seq<nat>, p: nat, ghost done: set<nat>)
    returns (queue': seq<nat>)
    requires c.Valid() && OwnersFit(out, n, c.src)
    requires Walk(c, indeg[..], queue, done, done) && p in queue && p !in done && p < |c.src|
    modifies indeg
    ensures Walk(c, indeg[..], queue', done + {p}, done) && queue <= queue'
  {
    ReleaseOut(c, indeg[..], queue, done, p);
    queue' := ReleaseOutSuccessor(c, out, n, indeg, queue, p);
  }

  method StepIn(c: Chains, inn: Adjacency, n: nat, indeg: array<nat>, queue: seq<nat>, p: nat, ghost done: set<nat>)
    returns (queue': seq<nat>)
    requires c.Valid() && OwnersFit(inn, n, c.dst)
    requires Walk(c, indeg[..], queue, done + {p}, done) && p !in done && p < |c.src|
    modifies indeg
    ensures Walk(c, indeg[..], queue', done + {p}, done + {p}) && queue <= queue'
  {
    ReleaseIn(c, indeg[..], queue, done, p);
    queue' := ReleaseInSuccessor(c, inn, n, indeg, queue, p);
  }

  /** Kahn's walk over both directions' chains, to exhaustion. */
  method KahnWalk(c: Chains, out: Adjacency, inn: Adjacency, n: nat) returns (order: seq<nat>)
    requires c.Valid() && OwnersFit(out, n, c.src) && OwnersFit(inn, n, c.dst)
    ensures c.Ordered(order) && |order| <= |c.src|
    ensures forall rels, outPos, inPos :: Describes(c, rels, outPos, inPos) ==>
              |order| == |c.src| && Extends(order, rels, outPos)
  {
    ghost var indeg;
    order, indeg := WalkChains(c, out, inn, n);
    forall rels, outPos, inPos | Describes(c, rels, outPos, inPos)
      ensures |order| == |c.src| && Extends(order, rels, outPos)
    {
      ExhaustedWalkExtends(c, indeg, order, rels, outPos, inPos);
    }
  }

  method WalkChains(c: Chains, out: Adjacency, inn: Adjacency, n: nat) returns (queue: seq<nat>, ghost left: seq<nat>)
    requires c.Valid() && OwnersFit(out, n, c.src) && OwnersFit(inn, n, c.dst)
    ensures |queue| <= |c.src| && Walk(c, left, queue, Elems(queue), Elems(queue))
  {
    var indeg := Indegrees(c, out, inn, n);
    queue := ChainHeads(c, indeg);
    var head := 0;
    DistinctBelow(queue, |c.src|);
    while head < |queue|
      invariant head <= |queue| <= |c.src|
      invariant fresh(indeg) && Walk(c, indeg[..], queue, Elems(queue[..head]), Elems(queue[..head]))
      decreases |c.src| - head
    {
      queue := DequeueAt(c, out, inn, n, indeg, queue, head);
      head := head + 1;
    }
    assert queue[..head] == queue;
    left := indeg[..];
  }

  /** One turn of the walk. */
  method DequeueAt(c: Chains, out: Adjacency, inn: Adjacency, n: nat, indeg: array<nat>, queue: seq<nat>, head: nat)
    returns (queue': seq<nat>)
    requires c.Valid() && OwnersFit(out, n, c.src) && OwnersFit(inn, n, c.dst) && head < |queue|
    requires Walk(c, indeg[..], queue, Elems(queue[..head]), Elems(queue[..head]))
    modifies indeg
    ensures |queue| <= |queue'| <= |c.src|
    ensures Walk(c, indeg[..], queue', Elems(queue'[..head + 1]), Elems(queue'[..head + 1]))
  {
    ghost var done := Elems(queue[..head]);
    queue' := Dequeue(c, out, inn, n, indeg, queue, queue[head], done);
    assert queue'[..head + 1] == queue[..head] + [queue[head]];
    assert Elems(queue'[..head + 1]) == done + {queue[head]};
    DistinctBelow(queue', |c.src|);
  }

  lemma StillChained(src: seq<nat>, order: seq<nat>, p: nat)
    requires OutChained(src, order) && p < |src| && (p > 0 ==> p - 1 in order)
    ensures OutChained(src, order + [p])
  {
    var more := order + [p];
    forall k | 0 <= k < |more|
      ensures more[k] < |src| && (more[k] > 0 && src[more[k] - 1] == src[more[k]] ==> more[k] - 1 in more[..k])
    {
      assert more[..k] == order[..k];
    }
  }

  /** What was walked, then what was not, up to `p`. */
  ghost predicate Completed(walked: seq<nat>, order: seq<nat>, src: seq<nat>, p: nat) {
    && walked <= order && OutChained(src, order)
    && (forall k, l :: 0 <= k < l < |order| ==> order[k] != order[l])
    && (forall x: nat :: x in order <==> x in walked || x < p)
  }

  lemma CompletedStep(walked: seq<nat>, order: seq<nat>, src: seq<nat>, p: nat)
    requires Completed(walked, order, src, p) && p < |src|
    ensures Completed(walked, if p in walked then order else order + [p], src, p + 1)
  {
    if p !in walked {
      assert p !in order;
      assert p > 0 ==> p - 1 in order;
      CompletedByOne(walked, order, src, p, order + [p]);
    }
  }

  lemma CompletedByOne(walked: seq<nat>, order: seq<nat>, src: seq<nat>, p: nat, more: seq<nat>)
    requires Completed(walked, order, src, p) && p < |src| && p !in order && (p > 0 ==> p - 1 in order) && more == order + [p]
    ensures Completed(walked, more, src, p + 1)
  {
    StillChained(src, order, p);
    OneLonger(order, p);
    forall x: nat ensures x in more <==> x in walked || x < p + 1 {
      assert x in more <==> x in order || x == p;
    }
  }

  lemma OneLonger(order: seq<nat>, p: nat)
    requires p !in order && forall k, l :: 0 <= k < l < |order| ==> order[k] != order[l]
    ensures forall k, l :: 0 <= k < l <= |order| ==> (order + [p])[k] != (order + [p])[l]
    ensures forall x: nat :: x in order + [p] <==> x in order || x == p
  {
  }

  /** Positions the walk never reached follow in outgoing order. */
  method AppendUnseen(walked: seq<nat>, ghost src: seq<nat>, m: nat) returns (order: seq<nat>)
    requires OutChained(src, walked) && |src| == m
    requires forall k, l :: 0 <= k < l < |walked| ==> walked[k] != walked[l]
    ensures |order| == m && IsPerm(order) && walked <= order && OutChained(src, order)
  {
    var seen := MarkSeen(walked, m);
    order := walked;
    for p := 0 to m
      invariant Completed(walked, order, src, p)
    {
      CompletedStep(walked, order, src, p);
      if !seen[p] { order := order + [p]; }
    }
    CompletedIsPerm(walked, order, src);
  }

  lemma CompletedIsPerm(walked: seq<nat>, order: seq<nat>, src: seq<nat>)
    requires Completed(walked, order, src, |src|)
    ensures |order| == |src| && IsPerm(order)
  {
    DistinctBelow(order, |src|);
  }

  method MarkSeen(walked: seq<nat>, m: nat) returns (seen: seq<bool>)
    requires forall k :: 0 <= k < |walked| ==> walked[k] < m
    ensures |seen| == m && forall p :: 0 <= p < m ==> (seen[p] <==> p in walked)
  {
    var marks := new bool[m](_ => false);
    for k := 0 to |walked|
      invariant forall p :: 0 <= p < m ==> (marks[p] <==> p in walked[..k])
    {
      marks[walked[k]] := true;
    }
    assert walked[..|walked|] == walked;
    seen := marks[..];
  }

  // ---- thaw ---------------------------------------------------------------------------------------

  lemma LaysPosition(a: Adjacency, rels: seq<Rel>, d: Side, n: nat, owners: seq<nat>, i: nat)
    requires Lays(a, rels, d, n) && OwnersFit(a, n, owners) && i < |rels|
    ensures Ranks(Owners(rels, d))[i] < |rels|
    ensures owners[Ranks(Owners(rels, d))[i]] == Owner(rels[i], d)
    ensures Holds(a, Ranks(Owners(rels, d))[i], rels[i], d)
  {
    OwnersRead(a, rels, d, n, owners, i);
    assert Holds(a, Rank(Owners(rels, d), i), rels[i], d);
  }

  lemma LaysDescribes(c: Chains, out: Adjacency, inn: Adjacency, n: nat, rels: seq<Rel>)
    requires Lays(out, rels, Out, n) && Lays(inn, rels, In, n)
    requires c.Valid() && OwnersFit(out, n, c.src) && OwnersFit(inn, n, c.dst) && PairsRels(c.inToOut, rels)
    ensures Describes(c, rels, Ranks(Owners(rels, Out)), Ranks(Owners(rels, In)))
  {
    var outPos, inPos := Ranks(Owners(rels, Out)), Ranks(Owners(rels, In));
    RanksArePlacement(rels, Out);
    RanksArePlacement(rels, In);
    forall i | 0 <= i < |rels|
      ensures c.src[outPos[i]] == rels[i].src && c.dst[inPos[i]] == rels[i].dst
      ensures c.inToOut[inPos[i]] == outPos[i]
    {
      LaysPosition(out, rels, Out, n, c.src, i);
      LaysPosition(inn, rels, In, n, c.dst, i);
      assert PairsAt(c.inToOut, Rank(Owners(rels, In), i), Rank(Owners(rels, Out), i));
    }
  }

  /** Both CSRs come from one staged sequence -- what `Finalize` and the file format guarantee. */
  ghost predicate Consistent(out: Adjacency, inn: Adjacency, rels: seq<Rel>, n: nat) {
    Lays(out, rels, Out, n) && Lays(inn, rels, In, n)
  }

  /** What the code can index through at all, consistent or not. */
  ghost predicate Readable(out: Adjacency, inn: Adjacency, n: nat) {
    && WellFormed(out, n) && WellFormed(inn, n) && |out.nbrs| == |inn.nbrs|
    && (forall q :: 0 <= q < |inn.types| ==> inn.types[q] in out.types)
  }

  lemma ConsistentReadable(out: Adjacency, inn: Adjacency, rels: seq<Rel>, n: nat)
    requires Consistent(out, inn, rels, n)
    ensures Readable(out, inn, n)
  {
    LaysWellFormed(out, rels, Out, n);
    LaysWellFormed(inn, rels, In, n);
    SameTypesBothWays(out, inn, rels, n);
  }

  /** A staging order over outgoing positions: always a permutation that keeps each node's outgoing
      relationships in order, and for CSRs that agree a linear extension of both, found without
      falling back. */
  method ThawRelOrder(out: Adjacency, inn: Adjacency, n: nat) returns (order: seq<nat>)
    requires Readable(out, inn, n)
    ensures |order| == |out.nbrs| && IsPerm(order)
    ensures forall srcOf :: OwnersFit(out, n, srcOf) ==> OutChained(srcOf, order)
    ensures forall rels :: Consistent(out, inn, rels, n) ==> Extends(order, rels, Ranks(Owners(rels, Out)))
  {
    var m := |out.nbrs|;
    var inToOut := ComputeInToOut(out, inn, n);
    var outToIn := InvertPositions(inToOut);
    var srcOf := OwnersOf(out, n);
    var dstOf := OwnersOf(inn, n);
    var c := Chains(srcOf, dstOf, inToOut, outToIn);
    order := KahnWalk(c, out, inn, n);
    forall rels | Consistent(out, inn, rels, n)
      ensures |order| == m && Extends(order, rels, Ranks(Owners(rels, Out)))
    {
      LaysDescribes(c, out, inn, n, rels);
    }
    OrderedIsOutChained(c, order);
    if |order| < m {
      order := AppendUnseen(order, srcOf, m);
    } else {
      DistinctBelow(order, m);
    }
    forall other | OwnersFit(out, n, other) ensures OutChained(other, order) {
      OneOwnerColumn(out, n, srcOf, other);
    }
  }

  lemma OneOwnerColumn(a: Adjacency, n: nat, x: seq<nat>, y: seq<nat>)
    requires OwnersFit(a, n, x) && OwnersFit(a, n, y)
    ensures x == y
  {
    forall p | 0 <= p < |x| ensures x[p] == y[p] {
      assert OwnsSlot(a.offsets, x[p], p);
    }
  }

  function Identity(m: nat): (s: seq<nat>)
    ensures |s| == m && IsPerm(s) && forall i :: 0 <= i < m ==> s[i] == i
  {
    seq(m, i requires 0 <= i < m => i)
  }

  lemma FittingOwnersAscend(a: Adjacency, n: nat, owners: seq<nat>, p: nat, q: nat)
    requires OwnersFit(a, n, owners) && p <= q < |owners|
    ensures owners[p] <= owners[q] < n
  {
    assert OwnsSlot(a.offsets, owners[p], p) && OwnsSlot(a.offsets, owners[q], q);
  }

  /** An owner column is its own stable order: position `p` has rank `p`, and the offsets count. */
  lemma OwnersAreRanked(a: Adjacency, n: nat, owners: seq<nat>)
    requires OwnersFit(a, n, owners)
    ensures forall p :: 0 <= p < |owners| ==> Rank(owners, p) == p
    ensures forall u :: 0 <= u <= n ==> CountLess(owners, u) == a.offsets[u]
  {
    var id, ranks := Identity(|owners|), Ranks(owners);
    RanksPermute(owners);
    forall p, q | 0 <= p < |owners| && 0 <= q < |owners| ensures ranks[p] < ranks[q] <==> id[p] < id[q] {
      RankOrder(owners, p, q);
      if p <= q { FittingOwnersAscend(a, n, owners, p, q); } else { FittingOwnersAscend(a, n, owners, q, p); }
    }
    SameOrderSamePerm(ranks, id);
    forall p | 0 <= p < |owners| ensures Rank(owners, p) == p {
      assert ranks[p] == id[p];
    }
    forall u | 0 <= u <= n ensures CountLess(owners, u) == a.offsets[u] {
      forall p | 0 <= p < |owners| ensures owners[p] < u <==> id[p] < a.offsets[u] {
        assert OwnsSlot(a.offsets, owners[p], p);
      }
      SameTestsSameCount(owners, u, id, a.offsets[u]);
      PermCountLess(id, a.offsets[u]);
    }
  }

  /** The relationships an outgoing CSR holds, position by position. */
  function Unstaged(out: Adjacency, srcOf: seq<nat>): (rels: seq<Rel>)
    requires |srcOf| == |out.nbrs| == |out.types|
    ensures |rels| == |srcOf| && forall p :: 0 <= p < |rels| ==> rels[p] == Rel(srcOf[p], out.nbrs[p], out.types[p])
  {
    seq(|srcOf|, p requires 0 <= p < |srcOf| => Rel(srcOf[p], out.nbrs[p], out.types[p]))
  }

  lemma UnstagedLays(out: Adjacency, n: nat, srcOf: seq<nat>)
    requires OwnersFit(out, n, srcOf)
    ensures Lays(out, Unstaged(out, srcOf), Out, n) && Owners(Unstaged(out, srcOf), Out) == srcOf
  {
    var rels := Unstaged(out, srcOf);
    assert Owners(rels, Out) == srcOf;
    OwnersAreRanked(out, n, srcOf);
    forall p | 0 <= p < |rels| ensures rels[p].src < n && rels[p].dst < n {
      FittingOwnersAscend(out, n, srcOf, p, p);
    }
    forall i | 0 <= i < |rels| ensures Holds(out, Rank(Owners(rels, Out), i), rels[i], Out) {
      assert Rank(srcOf, i) == i;
    }
  }

  /** Whatever the incoming side says, staging in such an order lays the outgoing CSR out again. */
  lemma ChainedRestagesOut(out: Adjacency, n: nat, srcOf: seq<nat>, order: seq<nat>, staged: seq<Rel>)
    requires OwnersFit(out, n, srcOf) && |order| == |srcOf| == |staged| && IsPerm(order) && OutChained(srcOf, order)
    requires forall k :: 0 <= k < |order| ==> staged[k] == Rel(srcOf[order[k]], out.nbrs[order[k]], out.types[order[k]])
    ensures Lays(out, staged, Out, n)
    ensures forall k :: 0 <= k < |staged| ==> Rank(Owners(staged, Out), k) == order[k]
  {
    var rels := Unstaged(out, srcOf);
    UnstagedLays(out, n, srcOf);
    OwnersAreRanked(out, n, srcOf);
    forall x, y | 0 <= x <= y < |srcOf| ensures srcOf[x] <= srcOf[y] {
      FittingOwnersAscend(out, n, srcOf, x, y);
    }
    forall k, l | 0 <= k < |order| && 0 <= l < |order| && order[k] < order[l] && srcOf[order[k]] == srcOf[order[l]]
      ensures k < l
    {
      ChainOut(srcOf, order, k, l);
    }
    ReorderedLays(out, rels, staged, Out, n, order);
  }

  ghost predicate SameOwnerInOrder(staged: seq<Rel>, d: Side, from: seq<nat>)
    requires |staged| == |from|
  {
    forall k, l :: 0 <= k < |from| && 0 <= l < |from| && from[k] < from[l] ==>
      Owner(staged[k], d) == Owner(staged[l], d) ==> k < l
  }

  /** A reordering that keeps same-owner relationships in order lays out the same way. */
  lemma ReorderedLays(a: Adjacency, rels: seq<Rel>, staged: seq<Rel>, d: Side, n: nat, from: seq<nat>)
    requires Lays(a, rels, d, n) && |staged| == |rels| == |from| && IsPerm(from)
    requires forall k :: 0 <= k < |from| ==> staged[k] == rels[from[k]]
    requires SameOwnerInOrder(staged, d, from)
    ensures Lays(a, staged, d, n)
    ensures forall k :: 0 <= k < |staged| ==> Rank(Owners(staged, d), k) == Rank(Owners(rels, d), from[k])
  {
    var own, own' := Owners(rels, d), Owners(staged, d);
    var place := ReorderedRanks(rels, staged, d, from);
    forall u | 0 <= u <= n ensures a.offsets[u] == CountLess(own', u) {
      ReorderedOffsets(rels, staged, d, from, place, u);
    }
    forall k | 0 <= k < |staged| ensures Holds(a, Rank(own', k), staged[k], d) {
      assert Holds(a, Rank(own, from[k]), rels[from[k]], d);
    }
  }

  lemma ReorderedRanks(rels: seq<Rel>, staged: seq<Rel>, d: Side, from: seq<nat>) returns (place: seq<nat>)
    requires |staged| == |rels| == |from| && IsPerm(from)
    requires forall k :: 0 <= k < |from| ==> staged[k] == rels[from[k]]
    requires SameOwnerInOrder(staged, d, from)
    ensures |place| == |staged| && IsPerm(place) && place == Ranks(Owners(staged, d))
    ensures forall k :: 0 <= k < |from| ==> place[k] == Rank(Owners(rels, d), from[k])
  {
    var ranks := Ranks(Owners(rels, d));
    RanksArePlacement(rels, d);
    RanksArePlacement(staged, d);
    place := seq(|from|, k requires 0 <= k < |from| => ranks[from[k]]);
    PlacementsAgree(rels, staged, d, from, ranks, place, Ranks(Owners(staged, d)));
  }

  lemma PlacementsAgree(rels: seq<Rel>, staged: seq<Rel>, d: Side, from: seq<nat>,
                        pos: seq<nat>, place: seq<nat>, pos': seq<nat>)
    requires |staged| == |rels| == |from| == |place| && IsPerm(from)
    requires forall k :: 0 <= k < |from| ==> staged[k] == rels[from[k]]
    requires SameOwnerInOrder(staged, d, from)
    requires Placement(rels, d, pos) && Placement(staged, d, pos')
    requires forall k :: 0 <= k < |from| ==> place[k] == pos[from[k]]
    ensures place == pos'
  {
    assert IsPerm(place);
    forall k, l | 0 <= k < |from| && 0 <= l < |from| ensures place[k] < place[l] <==> pos'[k] < pos'[l] {
      assert from[k] == from[l] <==> k == l;
      assert place[k] < place[l] <==> pos[from[k]] < pos[from[l]];
    }
    SameOrderSamePerm(place, pos');
  }

  lemma ReorderedOffsets(rels: seq<Rel>, staged: seq<Rel>, d: Side, from: seq<nat>, place: seq<nat>, u: nat)
    requires |staged| == |rels| == |from| == |place| && IsPerm(from) && IsPerm(place)
    requires forall k :: 0 <= k < |from| ==> staged[k] == rels[from[k]]
    requires forall k :: 0 <= k < |from| ==> place[k] == Rank(Owners(rels, d), from[k])
    ensures CountLess(Owners(staged, d), u) == CountLess(Owners(rels, d), u)
  {
    var own := Owners(rels, d);
    var off := CountLess(own, u);
    CountLessMonotone(own, u, u);
    forall k | 0 <= k < |from| ensures Owners(staged, d)[k] < u <==> place[k] < off {
      BlockSide(own, from[k], u);
    }
    SameTestsSameCount(Owners(staged, d), u, place, off);
    PermCountLess(place, off);
  }

  lemma BlockSide(own: seq<nat>, i: nat, u: nat)
    requires i < |own|
    ensures own[i] < u <==> Rank(own, i) < CountLess(own, u)
  {
    RankInBlock(own, i);
    if own[i] < u {
      CountLessMonotone(own, own[i] + 1, u);
    } else {
      CountLessMonotone(own, u, own[i]);
    }
  }

  /** What a thaw owes its snapshot: the restaged sequence has the same two CSRs, and the
      outgoing position of each staged relationship is the one recorded. */
  ghost predicate Restages(staged: seq<Rel>, outToStaging: seq<nat>, out: Adjacency, inn: Adjacency, n: nat) {
    && Consistent(out, inn, staged, n) && |outToStaging| == |staged| && IsPerm(outToStaging)
    && forall p :: 0 <= p < |staged| ==> Rank(Owners(staged, Out), outToStaging[p]) == p
  }

  ghost function SourceOf(order: seq<nat>, outPos: seq<nat>): (from: seq<nat>)
    requires IsPerm(order) && IsPerm(outPos) && |order| == |outPos|
    ensures |from| == |order| && IsPerm(from)
    ensures forall k :: 0 <= k < |order| ==> from[k] == IndexOf(outPos, order[k])
  {
    var from := seq(|order|, k requires 0 <= k < |order| => IndexOf(outPos, order[k]));
    assert forall k :: 0 <= k < |order| ==> outPos[from[k]] == order[k];
    from
  }

  lemma SourceKeepsOwnersInOrder(order: seq<nat>, rels: seq<Rel>, outPos: seq<nat>, staged: seq<Rel>, d: Side)
    requires Extends(order, rels, outPos) && |staged| == |rels|
    requires forall k :: 0 <= k < |order| ==> staged[k] == rels[SourceOf(order, outPos)[k]]
    ensures SameOwnerInOrder(staged, d, SourceOf(order, outPos))
  {
    var from := SourceOf(order, outPos);
    forall k, l | 0 <= k < |from| && 0 <= l < |from| && from[k] < from[l]
      && Owner(staged[k], d) == Owner(staged[l], d)
      ensures k < l
    {
      assert KeepsOrder(order, rels, outPos, k, l);
    }
  }

  lemma ExtensionRestages(out: Adjacency, inn: Adjacency, n: nat, rels: seq<Rel>, srcOf: seq<nat>,
                          order: seq<nat>, staged: seq<Rel>, outToStaging: seq<nat>)
    requires Consistent(out, inn, rels, n) && OwnersFit(out, n, srcOf)
    requires Extends(order, rels, Ranks(Owners(rels, Out)))
    requires |staged| == |rels| == |outToStaging| && IsPerm(outToStaging)
    requires forall k :: 0 <= k < |order| ==>
               staged[k] == Rel(srcOf[order[k]], out.nbrs[order[k]], out.types[order[k]])
    requires forall k :: 0 <= k < |order| ==> outToStaging[order[k]] == k
    ensures Restages(staged, outToStaging, out, inn, n)
  {
    var ranks := Ranks(Owners(rels, Out));
    var from := SourceOf(order, ranks);
    forall k | 0 <= k < |order| ensures staged[k] == rels[from[k]] {
      LaysPosition(out, rels, Out, n, srcOf, from[k]);
    }
    SourceKeepsOwnersInOrder(order, rels, ranks, staged, Out);
    SourceKeepsOwnersInOrder(order, rels, ranks, staged, In);
    ReorderedLays(out, rels, staged, Out, n, from);
    ReorderedLays(inn, rels, staged, In, n, from);
    forall p | 0 <= p < |staged| ensures Rank(Owners(staged, Out), outToStaging[p]) == p {
      var k := IndexOf(order, p);
      assert ranks[from[k]] == order[k];
    }
  }

  /** Stages the snapshot's relationships in thaw order. The outgoing CSR always comes back; for CSRs
      that agree, both do. */
  method ThawRels(out: Adjacency, inn: Adjacency, n: nat) returns (staged: seq<Rel>, outToStaging: seq<nat>)
    requires Readable(out, inn, n)
    ensures |staged| == |out.nbrs| == |outToStaging| && IsPerm(outToStaging)
    ensures Lays(out, staged, Out, n)
    ensures forall p :: 0 <= p < |staged| ==> Rank(Owners(staged, Out), outToStaging[p]) == p
    ensures forall rels :: Consistent(out, inn, rels, n) ==> Restages(staged, outToStaging, out, inn, n)
  {
    var order := ThawRelOrder(out, inn, n);
    var srcOf := OwnersOf(out, n);
    staged := [];
    for k := 0 to |order|
      invariant |staged| == k
      invariant forall j :: 0 <= j < k ==>
                  staged[j] == Rel(srcOf[order[j]], out.nbrs[order[j]], out.types[order[j]])
    {
      var p := order[k];
      staged := staged + [Rel(srcOf[p], out.nbrs[p], out.types[p])];
    }
    outToStaging := InvertPositions(order);
    ChainedRestagesOut(out, n, srcOf, order, staged);
    forall rels | Consistent(out, inn, rels, n) ensures Restages(staged, outToStaging, out, inn, n) {
      ExtensionRestages(out, inn, n, rels, srcOf, order, staged, outToStaging);
    }
  }

  /** The no-edit round trip: thaw, then rebuild both directions from the restaged sequence. */
  method ThawAndRebuild(out: Adjacency, inn: Adjacency, n: nat, ghost rels: seq<Rel>)
    returns (out': Adjacency, inn': Adjacency, relToOut: seq<nat>)
    requires Consistent(out, inn, rels, n)
    ensures out' == out && inn' == inn
    ensures |relToOut| == |rels| && IsPerm(relToOut)
  {
    ConsistentReadable(out, inn, rels, n);
    var staged, outToStaging := ThawRels(out, inn, n);
    var degOut := Degrees(n, staged, Out);
    var degIn := Degrees(n, staged, In);
    out', relToOut := BuildCsrDirection(n, staged, degOut, Out);
    var ignored;
    inn', ignored := BuildCsrDirection(n, staged, degIn, In);
    LayoutIsUnique(out, out', staged, Out, n);
    LayoutIsUnique(inn, inn', staged, In, n);
    RanksPermute(Owners(staged, Out));
  }
}
