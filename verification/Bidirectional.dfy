/** Point-to-point search from both ends: `best` is updated only when a node is popped, and the
    loop stops as soon as the two frontiers together cannot beat it. */
module Bidirectional {
  import opened Heap
  import opened WeightedGraph
  import opened Search

  /** The reverse traversal sees the same arcs at the same costs: symmetric weights. */
  ghost predicate Mirror(g: Graph, r: Graph) {
    forall u: nat, v: nat, w: real :: g.HasArc(u, v, w) <==> r.HasArc(v, u, w)
  }

  predicate AtMost(best: Weight, c: real) {
    best.Finite? && best.w <= c
  }

  /** The candidate through a node popped at cost `c`, if the other side has reached it. */
  function Meet(best: Weight, c: real, other: map<nat, real>, v: nat): Weight {
    if v in other && (best.Inf? || c + other[v] < best.w) then Finite(c + other[v]) else best
  }

  /** `topF + topB >= best`, in extended arithmetic: an exhausted side always stops the loop. */
  predicate Stop(topF: Weight, topB: Weight, best: Weight) {
    topF.Inf? || topB.Inf? || AtMost(best, topF.w + topB.w)
  }

  // ---- walks from the two ends ------------------------------------------------------------------

  /** A forward walk to `x` and a backward walk to `x` join into one from end to end. */
  lemma {:induction false} JoinWalks(g: Graph, r: Graph, p: Walk, q: Walk)
    requires Mirror(g, r) && p.In(g) && q.In(r) && p.End() == q.End()
    ensures HasWalk(g, p.Start(), q.Start(), p.Cost() + q.Cost())
    decreases q
  {
    match q
    case Here(_) =>
      assert p.In(g) && p.Start() == p.Start() && p.End() == q.Start() && p.Cost() == p.Cost() + q.Cost();
    case Step(q', x, w) =>
      assert g.HasArc(x, q'.End(), w);
      var p' := Step(p, q'.End(), w);
      JoinWalks(g, r, p', q');
      assert p'.Cost() + q'.Cost() == p.Cost() + q.Cost();
  }

  lemma JoinCosts(g: Graph, r: Graph, s: nat, t: nat, x: nat, a: real, b: real)
    requires Mirror(g, r) && HasWalk(g, s, x, a) && HasWalk(r, t, x, b)
    ensures HasWalk(g, s, t, a + b)
  {
    var p: Walk :| p.In(g) && p.Start() == s && p.End() == x && p.Cost() == a;
    var q: Walk :| q.In(r) && q.Start() == t && q.End() == x && q.Cost() == b;
    JoinWalks(g, r, p, q);
  }

  // ---- the meeting invariant ----------------------------------------------------------------------

  /** No arc from a forward-settled to a backward-settled node makes a path that beats `best`. */
  ghost predicate MetAt(g: Graph, f: Search, b: Search, best: Weight, u: nat, v: nat, w: real) {
    u in f.order && v in b.order && u in f.dist && v in b.dist && g.HasArc(u, v, w) ==>
      AtMost(best, f.dist[u] + w + b.dist[v])
  }

  ghost predicate Met(g: Graph, s: nat, t: nat, f: Search, b: Search, best: Weight) {
    && (best.Finite? ==> HasWalk(g, s, t, best.w))
    && (forall u: nat, v: nat, w: real {:trigger MetAt(g, f, b, best, u, v, w)} :: MetAt(g, f, b, best, u, v, w))
    && (t in f.order && t in f.dist ==> AtMost(best, f.dist[t]))
    && (s in b.order && s in b.dist ==> AtMost(best, b.dist[s]))
  }

  /** The invariant reads the same from the other end. */
  lemma MetFromTheOtherEnd(g: Graph, r: Graph, s: nat, t: nat, f: Search, b: Search, best: Weight)
    requires Mirror(g, r) && Met(g, s, t, f, b, best)
    ensures Mirror(r, g) && Met(r, t, s, b, f, best)
  {
    if best.Finite? {
      var p: Walk :| p.In(g) && p.Start() == s && p.End() == t && p.Cost() == best.w;
      HereIsAWalk(r, t);
      JoinWalks(r, g, Here(t), p);
    }
    forall v: nat, u: nat, w: real ensures MetAt(r, b, f, best, v, u, w) {
      assert MetAt(g, f, b, best, u, v, w);
    }
  }

  lemma TurnKeepsSettled(g: Graph, s: nat, popped: seq<Entry>, st: Search, e: Entry, x: nat)
    requires g.Valid() && Run(g, s, popped, st) && IsLeast(e, st.frontier) && x in Turn(g, st, e).order
    ensures x in st.dist && x in Turn(g, st, e).dist && Turn(g, st, e).dist[x] == st.dist[x]
  {
    EveryRun(g, s, popped, st);
    TurnKeepsInv(g, s, st, e);
    if st.dist[e.node] >= e.cost {
      SettleKeepsInv(g, s, st, e);
      RelaxFromKeepsInv(g, s, Settle(st, e), e.node, e.cost);
    }
  }

  /** What the other side knows about `u` once it settled a neighbor `v`: an arc's worth more. */
  lemma OtherSideReached(r: Graph, t: nat, popped: seq<Entry>, b: Search, u: nat, v: nat, w: real)
    requires r.Valid() && Run(r, t, popped, b) && v in b.order && r.HasArc(v, u, w)
    ensures v in b.dist && u in b.dist && b.dist[u] <= b.dist[v] + w
  {
    EveryRun(r, t, popped, b);
    SettledArc(r, t, b, v, u, w);
  }

  lemma RunDistances(g: Graph, s: nat, popped: seq<Entry>, st: Search, v: nat)
    requires g.Valid() && Run(g, s, popped, st)
    ensures s in st.dist && st.dist[s] == 0.0
    ensures v in st.dist ==> HasWalk(g, s, v, st.dist[v])
  {
    EveryRun(g, s, popped, st);
    if v in st.dist { assert Walked(g, s, st.dist, v); }
  }

  /** Settling `e.node` on one side and meeting there keeps the invariant. */
  lemma SettleKeepsMet(g: Graph, r: Graph, s: nat, t: nat, f: Search, b: Search, best: Weight,
                       poppedF: seq<Entry>, poppedB: seq<Entry>, e: Entry)
    requires g.Valid() && r.Valid() && Mirror(g, r) && Met(g, s, t, f, b, best)
    requires Run(g, s, poppedF, f) && Run(r, t, poppedB, b) && IsLeast(e, f.frontier)
    requires e.node in f.dist && f.dist[e.node] >= e.cost
    ensures Met(g, s, t, Turn(g, f, e), b, Meet(best, e.cost, b.dist, e.node))
  {
    var f', best' := Turn(g, f, e), Meet(best, e.cost, b.dist, e.node);
    RunTurns(g, s, poppedF, f, e);
    MeetIsAWalk(g, r, s, t, f, b, best, poppedF, poppedB, e);
    forall u: nat, v: nat, w: real ensures MetAt(g, f', b, best', u, v, w) {
      SettledArcMet(g, r, s, t, f, b, best, poppedF, poppedB, e, u, v, w);
    }
    RunDistances(r, t, poppedB, b, e.node);
    if t in f'.order {
      TurnKeepsSettled(g, s, poppedF, f, e, t);
      FreshCost(g, s, poppedF, f, e);
    }
  }

  /** The best meeting cost is some path's. */
  lemma MeetIsAWalk(g: Graph, r: Graph, s: nat, t: nat, f: Search, b: Search, best: Weight,
                    poppedF: seq<Entry>, poppedB: seq<Entry>, e: Entry)
    requires g.Valid() && r.Valid() && Mirror(g, r) && (best.Finite? ==> HasWalk(g, s, t, best.w))
    requires Run(g, s, poppedF, f) && Run(r, t, poppedB, b) && IsLeast(e, f.frontier)
    requires e.node in f.dist && f.dist[e.node] >= e.cost
    ensures var best' := Meet(best, e.cost, b.dist, e.node); best'.Finite? ==> HasWalk(g, s, t, best'.w)
  {
    if Meet(best, e.cost, b.dist, e.node) != best {
      FreshCost(g, s, poppedF, f, e);
      RunDistances(g, s, poppedF, f, e.node);
      RunDistances(r, t, poppedB, b, e.node);
      JoinCosts(g, r, s, t, e.node, e.cost, b.dist[e.node]);
    }
  }

  /** An arc between the settled sides is accounted for: it was before, or its end was met just now. */
  lemma SettledArcMet(g: Graph, r: Graph, s: nat, t: nat, f: Search, b: Search, best: Weight,
                      poppedF: seq<Entry>, poppedB: seq<Entry>, e: Entry, u: nat, v: nat, w: real)
    requires g.Valid() && r.Valid() && Mirror(g, r) && MetAt(g, f, b, best, u, v, w)
    requires Run(g, s, poppedF, f) && Run(r, t, poppedB, b) && IsLeast(e, f.frontier)
    requires e.node in f.dist && f.dist[e.node] >= e.cost
    ensures MetAt(g, Turn(g, f, e), b, Meet(best, e.cost, b.dist, e.node), u, v, w)
  {
    var f' := Turn(g, f, e);
    if u in f'.order && v in b.order && v in b.dist && g.HasArc(u, v, w) {
      RunTurns(g, s, poppedF, f, e);
      TurnKeepsSettled(g, s, poppedF, f, e, u);
      if u == e.node {
        FreshCost(g, s, poppedF, f, e);
        OtherSideReached(r, t, poppedB, b, u, v, w);
        MetHere(best, e.cost, b.dist, u, v, w);
      } else {
        MeetOnlyLowers(best, e.cost, b.dist, e.node, f.dist[u] + w + b.dist[v]);
      }
    }
  }

  lemma MetHere(best: Weight, cost: real, dist: map<nat, real>, u: nat, v: nat, w: real)
    requires u in dist && v in dist && dist[u] <= dist[v] + w
    ensures AtMost(Meet(best, cost, dist, u), cost + w + dist[v])
  {
  }

  lemma MeetOnlyLowers(best: Weight, cost: real, dist: map<nat, real>, node: nat, bound: real)
    requires AtMost(best, bound)
    ensures AtMost(Meet(best, cost, dist, node), bound)
  {
  }

  lemma FreshCost(g: Graph, s: nat, popped: seq<Entry>, st: Search, e: Entry)
    requires g.Valid() && Run(g, s, popped, st) && IsLeast(e, st.frontier)
    requires e.node in st.dist && st.dist[e.node] >= e.cost
    ensures st.dist[e.node] == e.cost
  {
    EveryRun(g, s, popped, st);
    FreshIsNearest(st, e);
  }

  // ---- stopping ---------------------------------------------------------------------------------------

  /** `top` bounds the side's unsettled nodes. */
  lemma RunFrontier(g: Graph, s: nat, popped: seq<Entry>, st: Search, top: Weight, p: Walk)
    requires g.Valid() && Run(g, s, popped, st) && p.In(g) && p.Start() == s
    requires forall e :: e in st.frontier ==> top.Finite? && top.w <= e.cost
    ensures (p.End() in st.order && p.End() in st.dist && st.dist[p.End()] <= p.Cost())
            || (top.Finite? && top.w <= p.Cost())
  {
    EveryRun(g, s, popped, st);
    forall v | v in st.dist && v !in st.order ensures top.Finite? && top.w <= st.dist[v] {
      assert Entry(st.dist[v], v) in st.frontier;
    }
    Frontier(g, s, st, top, p);
  }

  /** The two sides at the moment the loop stops. */
  ghost predicate Halted(g: Graph, r: Graph, s: nat, t: nat, f: Search, b: Search, best: Weight,
                         poppedF: seq<Entry>, poppedB: seq<Entry>, topF: Weight, topB: Weight)
  {
    && g.Valid() && r.Valid() && Mirror(g, r) && Met(g, s, t, f, b, best)
    && Run(g, s, poppedF, f) && Run(r, t, poppedB, b)
    && (forall e :: e in f.frontier ==> topF.Finite? && topF.w <= e.cost)
    && (forall e :: e in b.frontier ==> topB.Finite? && topB.w <= e.cost)
    && Stop(topF, topB, best)
  }

  /** A path split at a node beyond the forward frontier: walk the split back towards the source
      until the arc crossing the frontier is found; both its ends are settled, each on its side. */
  lemma {:induction false} CrossingArc(g: Graph, r: Graph, s: nat, t: nat, f: Search, b: Search, best: Weight,
                                       poppedF: seq<Entry>, poppedB: seq<Entry>, topF: Weight, topB: Weight,
                                       p: Walk, q: Walk)
    requires Halted(g, r, s, t, f, b, best, poppedF, poppedB, topF, topB)
    requires p.In(g) && p.Start() == s && q.In(r) && q.Start() == t && p.End() == q.End()
    requires topF.Finite? && topF.w <= p.Cost()
    ensures AtMost(best, p.Cost() + q.Cost())
    decreases p
  {
    RunFrontier(r, t, poppedB, b, topB, q);
    if !(topB.Finite? && topB.w <= q.Cost()) {
      match p
      case Here(_) =>
      case Step(p', x, w) =>
        RunFrontier(g, s, poppedF, f, topF, p');
        if topF.w <= p'.Cost() {
          assert r.HasArc(x, p'.End(), w);
          var q' := Step(q, p'.End(), w);
          CrossingArc(g, r, s, t, f, b, best, poppedF, poppedB, topF, topB, p', q');
          assert p'.Cost() + q'.Cost() == p.Cost() + q.Cost();
        } else {
          assert MetAt(g, f, b, best, p'.End(), x, w);
        }
    }
  }

  /** When the loop stops, no path beats `best`. */
  lemma HaltedIsOptimal(g: Graph, r: Graph, s: nat, t: nat, f: Search, b: Search, best: Weight,
                        poppedF: seq<Entry>, poppedB: seq<Entry>, topF: Weight, topB: Weight, p: Walk)
    requires Halted(g, r, s, t, f, b, best, poppedF, poppedB, topF, topB)
    requires p.In(g) && p.Start() == s && p.End() == t
    ensures AtMost(best, p.Cost())
  {
    RunFrontier(g, s, poppedF, f, topF, p);
    if topF.Finite? && topF.w <= p.Cost() {
      CrossingArc(g, r, s, t, f, b, best, poppedF, poppedB, topF, topB, p, Here(t));
    }
  }

  // ---- the loop ---------------------------------------------------------------------------------------

  /** One side's map and heap hold its search state. */
  ghost predicate Side(h: DijkstraHeap, dist: map<nat, real>, st: Search)
    reads h
  {
    IsHeap(h.a) && multiset(h.a) == st.frontier && dist == st.dist
  }

  /** The relax loop of one side. */
  method RelaxSide(g: Graph, h: DijkstraHeap, dist: map<nat, real>, s: Entry, ghost st: Search)
    returns (dist': map<nat, real>)
    requires Side(h, dist, st)
    modifies h
    ensures Side(h, dist', RelaxFrom(g, st, s.node, s.cost, 0))
  {
    dist' := dist;
    ghost var now := st;
    for k := 0 to |g.At(s.node)|
      invariant Side(h, dist', now)
      invariant RelaxFrom(g, now, s.node, s.cost, k) == RelaxFrom(g, st, s.node, s.cost, 0)
    {
      var a := g.At(s.node)[k];
      if a.cost.Finite? {
        var next := s.cost + a.cost.w;
        if a.to !in dist' || next < dist'[a.to] {
          dist' := dist'[a.to := next];
          h.Push(Entry(next, a.to));
        }
      }
      now := Relax(now, s.node, s.cost, a);
    }
  }

  /** Pops the cheaper side's top: drops it when stale, else meets there and relaxes. */
  method Expand(g: Graph, h: DijkstraHeap, dist: map<nat, real>, other: map<nat, real>, best: Weight, ghost st: Search)
    returns (dist': map<nat, real>, best': Weight, ghost e: Entry)
    requires Side(h, dist, st) && |h.a| > 0
    modifies h
    ensures IsLeast(e, st.frontier) && Side(h, dist', Turn(g, st, e))
    ensures best' == if e.node in dist && dist[e.node] < e.cost then best else Meet(best, e.cost, other, e.node)
    ensures e.node in dist && dist[e.node] < e.cost ==> |h.a| < old(|h.a|)
  {
    dist', best' := dist, best;
    var s := h.Pop();
    e := s;
    assert |multiset(h.a)| == |h.a| && |old(multiset(h.a))| == old(|h.a|);
    if s.node in dist && s.cost > dist[s.node] {
      return;
    }
    if s.node in other && (best.Inf? || s.cost + other[s.node] < best.w) {
      best' := Finite(s.cost + other[s.node]);
    }
    dist' := RelaxSide(g, h, dist, s, Settle(st, s));
  }

  /** A side's turn keeps the meeting invariant, and settles a node unless it dropped an entry. */
  lemma ExpandKeepsMet(g: Graph, r: Graph, s: nat, t: nat, f: Search, b: Search, best: Weight,
                       poppedF: seq<Entry>, poppedB: seq<Entry>, e: Entry)
    requires g.Valid() && r.Valid() && Mirror(g, r) && Met(g, s, t, f, b, best)
    requires Run(g, s, poppedF, f) && Run(r, t, poppedB, b) && IsLeast(e, f.frontier)
    ensures e.node in f.dist && Run(g, s, poppedF + [e], Turn(g, f, e))
    ensures Met(g, s, t, Turn(g, f, e), b,
                if f.dist[e.node] < e.cost then best else Meet(best, e.cost, b.dist, e.node))
    ensures f.dist[e.node] >= e.cost ==> |Turn(g, f, e).order| == |f.order| + 1
    ensures f.dist[e.node] < e.cost ==> |Turn(g, f, e).order| == |f.order|
  {
    RunTurns(g, s, poppedF, f, e);
    if f.dist[e.node] < e.cost {
      forall u: nat, v: nat, w: real ensures MetAt(g, Turn(g, f, e), b, best, u, v, w) {
        assert MetAt(g, f, b, best, u, v, w);
      }
    } else {
      SettleKeepsMet(g, r, s, t, f, b, best, poppedF, poppedB, e);
    }
  }

  /** One side's turn: it settles one more node, or its heap shrinks. */
  method TakeTurn(g: Graph, r: Graph, s: nat, t: nat, h: DijkstraHeap, dist: map<nat, real>, other: map<nat, real>,
                  best: Weight, ghost f: Search, ghost b: Search, ghost poppedF: seq<Entry>, ghost poppedB: seq<Entry>)
    returns (dist': map<nat, real>, best': Weight, ghost f': Search, ghost popped': seq<Entry>)
    requires g.Valid() && r.Valid() && Mirror(g, r) && Met(g, s, t, f, b, best)
    requires Run(g, s, poppedF, f) && Run(r, t, poppedB, b)
    requires Side(h, dist, f) && other == b.dist && |h.a| > 0
    modifies h
    ensures Side(h, dist', f') && Run(g, s, popped', f') && Met(g, s, t, f', b, best')
    ensures |f'.order| == |f.order| + 1 || (|f'.order| == |f.order| && |h.a| < old(|h.a|))
  {
    ghost var e;
    dist', best', e := Expand(g, h, dist, other, best, f);
    ExpandKeepsMet(g, r, s, t, f, b, best, poppedF, poppedB, e);
    f', popped' := Turn(g, f, e), poppedF + [e];
  }

  /** The backward side's turn, seen from the forward side. */
  method TakeTurnBack(g: Graph, r: Graph, s: nat, t: nat, h: DijkstraHeap, dist: map<nat, real>, other: map<nat, real>,
                      best: Weight, ghost f: Search, ghost b: Search, ghost poppedF: seq<Entry>, ghost poppedB: seq<Entry>)
    returns (dist': map<nat, real>, best': Weight, ghost b': Search, ghost popped': seq<Entry>)
    requires g.Valid() && r.Valid() && Mirror(g, r) && Met(g, s, t, f, b, best)
    requires Run(g, s, poppedF, f) && Run(r, t, poppedB, b)
    requires Side(h, dist, b) && other == f.dist && |h.a| > 0
    modifies h
    ensures Side(h, dist', b') && Run(r, t, popped', b') && Met(g, s, t, f, b', best')
    ensures |b'.order| == |b.order| + 1 || (|b'.order| == |b.order| && |h.a| < old(|h.a|))
  {
    MetFromTheOtherEnd(g, r, s, t, f, b, best);
    dist', best', b', popped' := TakeTurn(r, g, t, s, h, dist, other, best, b, f, poppedB, poppedF);
    MetFromTheOtherEnd(r, g, t, s, b', f, best');
  }

  /** Whichever side's frontier is nearer takes a turn. */
  method NearerTurn(g: Graph, r: Graph, s: nat, t: nat, heapF: DijkstraHeap, heapB: DijkstraHeap,
                    distF: map<nat, real>, distB: map<nat, real>, best: Weight,
                    ghost f: Search, ghost b: Search, ghost poppedF: seq<Entry>, ghost poppedB: seq<Entry>, ghost n: nat)
    returns (distF': map<nat, real>, distB': map<nat, real>, best': Weight,
             ghost f': Search, ghost b': Search, ghost poppedF': seq<Entry>, ghost poppedB': seq<Entry>)
    requires g.Valid() && r.Valid() && Mirror(g, r) && heapF != heapB
    requires Side(heapF, distF, f) && Side(heapB, distB, b) && !Stop(Top(heapF.a), Top(heapB.a), best)
    requires Run(g, s, poppedF, f) && Run(r, t, poppedB, b) && Met(g, s, t, f, b, best)
    requires s < n && t < n && |g.arcs| <= n && |r.arcs| <= n
    modifies heapF, heapB
    ensures |f'.order| <= n && |b'.order| <= n
    ensures Side(heapF, distF', f') && Side(heapB, distB', b')
    ensures Run(g, s, poppedF', f') && Run(r, t, poppedB', b') && Met(g, s, t, f', b', best')
    ensures || |f'.order| + |b'.order| == |f.order| + |b.order| + 1
            || (|f'.order| + |b'.order| == |f.order| + |b.order| && |heapF.a| + |heapB.a| < old(|heapF.a| + |heapB.a|))
  {
    distF', distB', f', b', poppedF', poppedB' := distF, distB, f, b, poppedF, poppedB;
    if Top(heapF.a).w > Top(heapB.a).w {
      distB', best', b', poppedB' := TakeTurnBack(g, r, s, t, heapB, distB, distF, best, f, b, poppedF, poppedB);
    } else {
      distF', best', f', poppedF' := TakeTurn(g, r, s, t, heapF, distF, distB, best, f, b, poppedF, poppedB);
    }
    RunIsBounded(g, s, poppedF', f', n);
    RunIsBounded(r, t, poppedB', b', n);
  }

  function Top(a: seq<Entry>): Weight {
    if |a| > 0 then Finite(a[0].cost) else Inf
  }

  lemma TopBounds(a: seq<Entry>)
    requires IsHeap(a)
    ensures forall e :: e in multiset(a) ==> Top(a).Finite? && Top(a).w <= e.cost
  {
    forall e | e in multiset(a) ensures Top(a).Finite? && Top(a).w <= e.cost {
      var i :| 0 <= i < |a| && a[i] == e;
      RootIsLeast(a, i);
    }
  }

  lemma InitiallyMet(g: Graph, s: nat, t: nat)
    ensures Met(g, s, t, Initial(s), Initial(t), Inf)
  {
  }

  lemma OneNodePath(g: Graph, s: nat)
    requires g.Valid()
    ensures Shortest(g, s, s, 0.0) && Reachable(g, s, s)
  {
    HereIsAWalk(g, s);
    assert Here(s).In(g) && Here(s).Start() == s && Here(s).End() == s;
    forall p: Walk | p.In(g) && p.Start() == s && p.End() == s ensures 0.0 <= p.Cost() {
      CostIsNonNegative(g, p);
    }
  }

  /** The exact answer from a halted search. */
  lemma HaltedAnswers(g: Graph, r: Graph, s: nat, t: nat, f: Search, b: Search, best: Weight,
                      poppedF: seq<Entry>, poppedB: seq<Entry>, topF: Weight, topB: Weight)
    requires Halted(g, r, s, t, f, b, best, poppedF, poppedB, topF, topB)
    ensures best.Finite? <==> Reachable(g, s, t)
    ensures best.Finite? ==> Shortest(g, s, t, best.w)
  {
    forall p: Walk | p.In(g) && p.Start() == s && p.End() == t ensures AtMost(best, p.Cost()) {
      HaltedIsOptimal(g, r, s, t, f, b, best, poppedF, poppedB, topF, topB, p);
    }
  }

  lemma StoppedAnswers(g: Graph, r: Graph, s: nat, t: nat, f: Search, b: Search, best: Weight,
                       poppedF: seq<Entry>, poppedB: seq<Entry>, heapF: seq<Entry>, heapB: seq<Entry>)
    requires g.Valid() && r.Valid() && Mirror(g, r) && Met(g, s, t, f, b, best)
    requires Run(g, s, poppedF, f) && Run(r, t, poppedB, b)
    requires IsHeap(heapF) && multiset(heapF) == f.frontier && IsHeap(heapB) && multiset(heapB) == b.frontier
    requires Stop(Top(heapF), Top(heapB), best)
    ensures best.Finite? <==> Reachable(g, s, t)
    ensures best.Finite? ==> Shortest(g, s, t, best.w)
  {
    TopBounds(heapF);
    TopBounds(heapB);
    HaltedAnswers(g, r, s, t, f, b, best, poppedF, poppedB, Top(heapF), Top(heapB));
  }

  /** Both searches, turn by turn, until neither frontier can better the best meeting. */
  method SearchFromBothEnds(g: Graph, r: Graph, source: nat, target: nat)
    returns (best: Weight)
    requires g.Valid() && r.Valid() && Mirror(g, r)
    ensures best.Finite? <==> Reachable(g, source, target)
    ensures best.Finite? ==> Shortest(g, source, target, best.w)
  {
    var distF: map<nat, real> := map[source := 0.0];
    var distB: map<nat, real> := map[target := 0.0];
    var heapF := new DijkstraHeap(Entry(0.0, source));
    var heapB := new DijkstraHeap(Entry(0.0, target));
    best := Inf;
    ghost var f, b := Initial(source), Initial(target);
    ghost var poppedF, poppedB: seq<Entry> := [], [];
    ghost var n := |g.arcs| + |r.arcs| + source + target + 1;
    InitiallyMet(g, source, target);
    while |heapF.a| > 0 || |heapB.a| > 0
      invariant fresh(heapF) && fresh(heapB) && heapF != heapB
      invariant Side(heapF, distF, f) && Side(heapB, distB, b)
      invariant Run(g, source, poppedF, f) && Run(r, target, poppedB, b) && Met(g, source, target, f, b, best)
      invariant |f.order| <= n && |b.order| <= n
      decreases 2 * n - |f.order| - |b.order|, |heapF.a| + |heapB.a|
    {
      if Stop(Top(heapF.a), Top(heapB.a), best) {
        break;
      }
      distF, distB, best, f, b, poppedF, poppedB :=
        NearerTurn(g, r, source, target, heapF, heapB, distF, distB, best, f, b, poppedF, poppedB, n);
    }
    StoppedAnswers(g, r, source, target, f, b, best, poppedF, poppedB, heapF.a, heapB.a);
  }

  /** The true minimum cost from `source` to `target`, or unreachable exactly when no path exists.
      `r` is the reverse traversal the backward search follows. */
  method WeightedShortestPath(g: Graph, r: Graph, source: nat, target: nat) returns (cost: real, ok: bool)
    requires g.Valid() && r.Valid() && Mirror(g, r)
    ensures ok <==> Reachable(g, source, target)
    ensures ok ==> Shortest(g, source, target, cost)
  {
    if source == target {
      OneNodePath(g, source);
      return 0.0, true;
    }
    var best := SearchFromBothEnds(g, r, source, target);
    return if best.Finite? then best.w else 0.0, best.Finite?;
  }
}
