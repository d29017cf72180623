/** Dijkstra's search as a state machine over its pieces of state: tentative distances with
    their predecessors, the frontier as a multiset, and the nodes settled so far in order. */
module Search {
  import opened Heap
  import opened WeightedGraph
  import StableSort

  datatype Search = Search(dist: map<nat, real>, prev: map<nat, nat>, frontier: multiset<Entry>, order: seq<nat>)

  function Initial(s: nat): Search {
    Search(map[s := 0.0], map[], multiset{Entry(0.0, s)}, [])
  }

  /** Popping a fresh (not stale) entry settles its node. */
  function Settle(st: Search, e: Entry): Search {
    st.(frontier := st.frontier - multiset{e}, order := st.order + [e.node])
  }

  /** Popping a stale entry only drops it. */
  function Drop(st: Search, e: Entry): Search {
    st.(frontier := st.frontier - multiset{e})
  }

  predicate Improves(dist: map<nat, real>, v: nat, next: real) {
    v !in dist || next < dist[v]
  }

  /** Relaxing one arc out of `u` at distance `d`; an infinite arc is pruned. */
  function Relax(st: Search, u: nat, d: real, a: Arc): Search {
    if a.cost.Finite? && Improves(st.dist, a.to, d + a.cost.w) then
      Search(st.dist[a.to := d + a.cost.w], st.prev[a.to := u],
             st.frontier + multiset{Entry(d + a.cost.w, a.to)}, st.order)
    else st
  }

  /** Relaxing `u`'s arcs from the `k`-th on. */
  function RelaxFrom(g: Graph, st: Search, u: nat, d: real, k: nat): Search
    decreases |g.At(u)| - k
  {
    if k >= |g.At(u)| then st else RelaxFrom(g, Relax(st, u, d, g.At(u)[k]), u, d, k + 1)
  }

  /** One turn of the loop on a popped entry: drop it when stale, else settle and relax. */
  function Turn(g: Graph, st: Search, e: Entry): Search {
    if e.node in st.dist && st.dist[e.node] < e.cost then Drop(st, e)
    else RelaxFrom(g, Settle(st, e), e.node, e.cost, 0)
  }

  // ---- the invariant -----------------------------------------------------------------------

  ghost predicate Sound(g: Graph, s: nat, st: Search) {
    && s in st.dist && st.dist[s] == 0.0
    && (forall v :: v in st.dist ==> v == s || v < |g.arcs|)
    && (forall v {:trigger Walked(g, s, st.dist, v)} :: v in st.dist ==> Walked(g, s, st.dist, v))
  }

  /** Some walk realises the tentative distance. */
  ghost predicate Walked(g: Graph, s: nat, dist: map<nat, real>, v: nat)
    requires v in dist
  {
    HasWalk(g, s, v, dist[v])
  }

  /** Every tentative node waits in the frontier exactly once at its current distance, settled
      nodes not at all; older, longer entries are stale. */
  ghost predicate Queued(st: Search) {
    && (forall e :: e in st.frontier ==> e.node in st.dist && st.dist[e.node] <= e.cost)
    && (forall v :: v in st.dist ==> st.frontier[Entry(st.dist[v], v)] == if v in st.order then 0 else 1)
  }

  /** Settled nodes are distinct and no farther than anything unsettled or last settled. */
  ghost predicate SettledNear(st: Search) {
    && (forall i, j :: 0 <= i < j < |st.order| ==> st.order[i] != st.order[j])
    && (forall u :: u in st.order ==> u in st.dist)
    && (forall u, v :: u in st.order && v in st.dist && (v !in st.order || v == st.order[|st.order| - 1]) ==>
          st.dist[u] <= st.dist[v])
  }

  /** The first `k` arcs of `u` have been relaxed. */
  ghost predicate Relaxed(g: Graph, dist: map<nat, real>, u: nat, k: nat)
    requires u in dist
  {
    forall j :: 0 <= j < k && j < |g.At(u)| && g.At(u)[j].cost.Finite? ==>
      g.At(u)[j].to in dist && dist[g.At(u)[j].to] <= dist[u] + g.At(u)[j].cost.w
  }

  /** All arcs of settled nodes are relaxed, the last settled node's only up to `k`. */
  ghost predicate Closed(g: Graph, st: Search, k: nat) {
    forall i :: 0 <= i < |st.order| ==>
      st.order[i] in st.dist &&
      Relaxed(g, st.dist, st.order[i], if i == |st.order| - 1 then k else |g.At(st.order[i])|)
  }

  /** Predecessors are settled, one arc away, and settled earlier than what they lead to -- which
      is what keeps the chain finite even around zero-cost cycles. */
  ghost predicate PrevTree(g: Graph, s: nat, dist: map<nat, real>, prev: map<nat, nat>, order: seq<nat>) {
    && (forall v {:trigger Linked(g, dist, prev, order, v)} :: v in dist && v != s ==> Linked(g, dist, prev, order, v))
    && (forall k {:trigger LinkedBack(prev, order, k)} :: 0 <= k < |order| && order[k] != s ==> LinkedBack(prev, order, k))
  }

  ghost predicate LinkedBack(prev: map<nat, nat>, order: seq<nat>, k: nat)
    requires k < |order|
  {
    order[k] in prev && prev[order[k]] in order[..k]
  }

  ghost predicate Linked(g: Graph, dist: map<nat, real>, prev: map<nat, nat>, order: seq<nat>, v: nat)
    requires v in dist
  {
    v in prev && prev[v] in order && prev[v] in dist && g.HasArc(prev[v], v, dist[v] - dist[prev[v]])
  }

  lemma SettleKeepsPrev(g: Graph, s: nat, dist: map<nat, real>, prev: map<nat, nat>, order: seq<nat>, v: nat)
    requires v in dist && PrevTree(g, s, dist, prev, order)
    ensures PrevTree(g, s, dist, prev, order + [v])
  {
    var order' := order + [v];
    forall x | x in dist && x != s ensures Linked(g, dist, prev, order', x) {
      assert Linked(g, dist, prev, order, x);
    }
    forall k | 0 <= k < |order'| && order'[k] != s ensures LinkedBack(prev, order', k) {
      if k < |order| {
        assert LinkedBack(prev, order, k);
        assert order'[..k] == order[..k];
      } else {
        assert order'[..k] == order;
        assert Linked(g, dist, prev, order, v);
      }
    }
  }

  lemma ImproveKeepsPrev(g: Graph, s: nat, dist: map<nat, real>, prev: map<nat, nat>, order: seq<nat>,
                         u: nat, v: nat, w: real)
    requires PrevTree(g, s, dist, prev, order) && u in order && u in dist && v !in order && g.HasArc(u, v, w)
    ensures PrevTree(g, s, dist[v := dist[u] + w], prev[v := u], order)
  {
    var dist', prev' := dist[v := dist[u] + w], prev[v := u];
    assert dist'[v] - dist'[u] == w;
    forall x | x in dist' && x != s ensures Linked(g, dist', prev', order, x) {
      if x != v { assert Linked(g, dist, prev, order, x); }
    }
    forall k | 0 <= k < |order| && order[k] != s ensures LinkedBack(prev', order, k) {
      assert LinkedBack(prev, order, k);
    }
  }

  /** The invariant while the last settled node's arcs are relaxed up to the `k`-th. */
  ghost predicate InvUpTo(g: Graph, s: nat, st: Search, k: nat) {
    && Sound(g, s, st) && Queued(st) && SettledNear(st) && Closed(g, st, k)
    && PrevTree(g, s, st.dist, st.prev, st.order) && InIdSpace(g, s, st)
  }

  /** Every id an id-space array would be indexed by lies in the id space. */
  ghost predicate InIdSpace(g: Graph, s: nat, st: Search) {
    && (forall v :: v in st.prev ==> v < |g.arcs| && st.prev[v] < |g.arcs|)
    && (s < |g.arcs| || st.dist == map[s := 0.0])
  }

  /** The invariant between two pops. */
  ghost predicate Inv(g: Graph, s: nat, st: Search) {
    InvUpTo(g, s, st, Full(g, st))
  }

  ghost function Full(g: Graph, st: Search): nat {
    if st.order == [] then 0 else |g.At(st.order[|st.order| - 1])|
  }

  lemma InitialInv(g: Graph, s: nat)
    ensures Inv(g, s, Initial(s))
  {
    HereIsAWalk(g, s);
  }

  // ---- dropping a stale entry --------------------------------------------------------------

  lemma DropKeepsQueued(st: Search, e: Entry)
    requires Queued(st) && e in st.frontier && st.dist[e.node] < e.cost
    ensures Queued(Drop(st, e))
  {
    var st' := Drop(st, e);
    forall v | v in st.dist
      ensures st'.frontier[Entry(st.dist[v], v)] == st.frontier[Entry(st.dist[v], v)]
    {
      assert Entry(st.dist[v], v) != e;
    }
  }

  lemma DropKeepsRest(g: Graph, s: nat, st: Search, e: Entry, k: nat)
    requires Sound(g, s, st) && SettledNear(st) && Closed(g, st, k)
    ensures Sound(g, s, Drop(st, e)) && SettledNear(Drop(st, e)) && Closed(g, Drop(st, e), k)
  {
  }

  lemma DropKeepsInv(g: Graph, s: nat, st: Search, e: Entry)
    requires Inv(g, s, st) && e in st.frontier && st.dist[e.node] < e.cost
    ensures Inv(g, s, Drop(st, e))
  {
    DropKeepsQueued(st, e);
    DropKeepsRest(g, s, st, e, Full(g, st));
  }

  // ---- settling a fresh entry --------------------------------------------------------------

  ghost predicate IsLeast(e: Entry, frontier: multiset<Entry>) {
    e in frontier && forall f :: f in frontier ==> !Less(f, e)
  }

  /** A fresh least entry belongs to an unsettled node, nearest of all of them. */
  lemma FreshIsNearest(st: Search, e: Entry)
    requires Queued(st) && IsLeast(e, st.frontier) && st.dist[e.node] >= e.cost
    ensures e.node in st.dist && st.dist[e.node] == e.cost && e.node !in st.order
    ensures forall v :: v in st.dist && v !in st.order ==> e.cost <= st.dist[v]
  {
    assert e == Entry(st.dist[e.node], e.node);
    forall v | v in st.dist && v !in st.order ensures e.cost <= st.dist[v] {
      assert Entry(st.dist[v], v) in st.frontier;
    }
  }

  lemma SettleKeepsQueued(st: Search, e: Entry)
    requires Queued(st) && IsLeast(e, st.frontier) && st.dist[e.node] >= e.cost
    ensures Queued(Settle(st, e)) && e == Entry(st.dist[e.node], e.node)
  {
    FreshIsNearest(st, e);
    assert forall u :: u in Settle(st, e).order <==> u in st.order || u == e.node;
  }

  lemma SettleKeepsNear(st: Search, e: Entry)
    requires Queued(st) && SettledNear(st) && IsLeast(e, st.frontier) && st.dist[e.node] >= e.cost
    ensures SettledNear(Settle(st, e))
  {
    FreshIsNearest(st, e);
    assert forall u :: u in Settle(st, e).order <==> u in st.order || u == e.node;
  }

  lemma SettleKeepsClosed(g: Graph, st: Search, e: Entry)
    requires Closed(g, st, Full(g, st)) && e.node in st.dist
    ensures Closed(g, Settle(st, e), 0)
  {
    var st' := Settle(st, e);
    forall i | 0 <= i < |st'.order|
      ensures st'.order[i] in st'.dist
      ensures Relaxed(g, st'.dist, st'.order[i], if i == |st'.order| - 1 then 0 else |g.At(st'.order[i])|)
    {
      if i < |st.order| { assert Relaxed(g, st.dist, st.order[i], |g.At(st.order[i])|); }
    }
  }

  lemma SettleKeepsInv(g: Graph, s: nat, st: Search, e: Entry)
    requires Inv(g, s, st) && IsLeast(e, st.frontier) && st.dist[e.node] >= e.cost
    ensures InvUpTo(g, s, Settle(st, e), 0)
    ensures e.node in st.dist && st.dist[e.node] == e.cost
  {
    SettleKeepsQueued(st, e);
    SettleKeepsNear(st, e);
    SettleKeepsClosed(g, st, e);
    SettleKeepsPrev(g, s, st.dist, st.prev, st.order, e.node);
  }

  // ---- relaxing one arc ---------------------------------------------------------------------

  /** Improving a node from the last settled one never touches a settled node. */
  lemma ImprovedIsUnsettled(st: Search, v: nat, w: real)
    requires SettledNear(st) && st.order != [] && w >= 0.0
    requires Improves(st.dist, v, st.dist[st.order[|st.order| - 1]] + w)
    ensures v !in st.order
  {
  }

  lemma RelaxKeepsQueued(st: Search, u: nat, d: real, a: Arc)
    requires Queued(st) && a.cost.Finite? && Improves(st.dist, a.to, d + a.cost.w) && a.to !in st.order
    ensures Queued(Relax(st, u, d, a))
  {
    var next := Entry(d + a.cost.w, a.to);
    assert next !in st.frontier;
    var st' := Relax(st, u, d, a);
    forall v | v in st'.dist
      ensures st'.frontier[Entry(st'.dist[v], v)] == if v in st'.order then 0 else 1
    {
      if v != a.to { assert Entry(st'.dist[v], v) != next; }
    }
  }

  lemma RelaxKeepsClosed(g: Graph, st: Search, u: nat, k: nat)
    requires st.order != [] && Closed(g, st, k) && u == st.order[|st.order| - 1] && u in st.dist
    requires k < |g.At(u)|
    requires var a := g.At(u)[k];
             a.cost.Finite? && Improves(st.dist, a.to, st.dist[u] + a.cost.w) ==> a.to !in st.order
    ensures Closed(g, Relax(st, u, st.dist[u], g.At(u)[k]), k + 1)
  {
    var last := |st.order| - 1;
    var st' := Relax(st, u, st.dist[u], g.At(u)[k]);
    forall i | 0 <= i < |st'.order|
      ensures st'.order[i] in st'.dist
      ensures Relaxed(g, st'.dist, st'.order[i], if i == last then k + 1 else |g.At(st'.order[i])|)
    {
      assert Relaxed(g, st.dist, st.order[i], if i == last then k else |g.At(st.order[i])|);
    }
  }

  lemma RelaxKeepsSound(g: Graph, s: nat, st: Search, u: nat, d: real, a: Arc)
    requires Sound(g, s, st) && a.cost.Finite? && a.to < |g.arcs| && d + a.cost.w >= 0.0
    requires HasWalk(g, s, a.to, d + a.cost.w)
    ensures Sound(g, s, Relax(st, u, d, a))
  {
    var st' := Relax(st, u, d, a);
    forall v | v in st'.dist ensures Walked(g, s, st'.dist, v) {
      if v in st.dist { assert Walked(g, s, st.dist, v); }
    }
  }

  lemma RelaxKeepsSettledNear(st: Search, u: nat, a: Arc)
    requires SettledNear(st) && st.order != [] && u == st.order[|st.order| - 1]
    requires a.cost.Finite? && a.cost.w >= 0.0 && a.to !in st.order
    ensures SettledNear(Relax(st, u, st.dist[u], a))
  {
  }

  lemma RelaxKeepsIdSpace(g: Graph, s: nat, st: Search, u: nat, a: Arc)
    requires InIdSpace(g, s, st) && u in st.dist && u < |g.arcs| && a.to < |g.arcs|
    ensures InIdSpace(g, s, Relax(st, u, st.dist[u], a)) && s < |g.arcs|
  {
  }

  /** What `g.Valid()` says about one arc. */
  lemma ArcFacts(g: Graph, u: nat, k: nat)
    requires g.Valid() && k < |g.At(u)|
    ensures u < |g.arcs| && g.At(u)[k].to < |g.arcs|
    ensures g.At(u)[k].cost.Finite? ==> g.At(u)[k].cost.w >= 0.0 && g.HasArc(u, g.At(u)[k].to, g.At(u)[k].cost.w)
  {
  }

  lemma ImprovementKeepsInv(g: Graph, s: nat, st: Search, u: nat, a: Arc)
    requires g.Valid() && st.order != [] && u == st.order[|st.order| - 1] && u in st.dist && u < |g.arcs|
    requires Sound(g, s, st) && Queued(st) && SettledNear(st)
    requires a.cost.Finite? && a.cost.w >= 0.0 && g.HasArc(u, a.to, a.cost.w) && a.to < |g.arcs|
    requires Improves(st.dist, a.to, st.dist[u] + a.cost.w)
    ensures var st' := Relax(st, u, st.dist[u], a);
            a.to !in st.order && Sound(g, s, st') && Queued(st') && SettledNear(st')
  {
    ImprovedIsUnsettled(st, a.to, a.cost.w);
    assert Walked(g, s, st.dist, u);
    WalkExtends(g, s, u, a.to, st.dist[u], a.cost.w);
    WalkIsNonNegative(g, s, a.to, st.dist[u] + a.cost.w);
    RelaxKeepsSound(g, s, st, u, st.dist[u], a);
    RelaxKeepsQueued(st, u, st.dist[u], a);
    RelaxKeepsSettledNear(st, u, a);
  }

  lemma RelaxKeepsPrev(g: Graph, s: nat, st: Search, u: nat, a: Arc)
    requires PrevTree(g, s, st.dist, st.prev, st.order) && u in st.order && u in st.dist
    requires a.cost.Finite? ==> g.HasArc(u, a.to, a.cost.w)
    requires a.cost.Finite? && Improves(st.dist, a.to, st.dist[u] + a.cost.w) ==> a.to !in st.order
    ensures var st' := Relax(st, u, st.dist[u], a); PrevTree(g, s, st'.dist, st'.prev, st'.order)
  {
    if a.cost.Finite? && Improves(st.dist, a.to, st.dist[u] + a.cost.w) {
      ImproveKeepsPrev(g, s, st.dist, st.prev, st.order, u, a.to, a.cost.w);
    }
  }

  lemma RelaxKeepsInv(g: Graph, s: nat, st: Search, u: nat, k: nat)
    requires g.Valid() && InvUpTo(g, s, st, k) && st.order != [] && u == st.order[|st.order| - 1]
    requires k < |g.At(u)|
    ensures u in st.dist
    ensures InvUpTo(g, s, Relax(st, u, st.dist[u], g.At(u)[k]), k + 1)
    ensures Relax(st, u, st.dist[u], g.At(u)[k]).dist[u] == st.dist[u]
  {
    var a := g.At(u)[k];
    assert u in st.order;
    ArcFacts(g, u, k);
    RelaxKeepsIdSpace(g, s, st, u, a);
    if a.cost.Finite? && Improves(st.dist, a.to, st.dist[u] + a.cost.w) {
      ImprovementKeepsInv(g, s, st, u, a);
    }
    RelaxKeepsPrev(g, s, st, u, a);
    RelaxKeepsClosed(g, st, u, k);
  }

  lemma {:induction false} RelaxFromKeepsOrder(g: Graph, st: Search, u: nat, d: real, k: nat)
    ensures RelaxFrom(g, st, u, d, k).order == st.order
    decreases |g.At(u)| - k
  {
    if k < |g.At(u)| {
      RelaxFromKeepsOrder(g, Relax(st, u, d, g.At(u)[k]), u, d, k + 1);
    }
  }

  /** Whatever each relaxed arc keeps, relaxing the rest of the arcs keeps. */
  lemma {:induction false} RelaxInduction(g: Graph, st: Search, u: nat, d: real, k: nat, P: (Search, nat) -> bool)
    requires k <= |g.At(u)| && P(st, k)
    requires forall x, j: nat :: P(x, j) && j < |g.At(u)| ==> P(Relax(x, u, d, g.At(u)[j]), j + 1)
    ensures P(RelaxFrom(g, st, u, d, k), |g.At(u)|)
    decreases |g.At(u)| - k
  {
    if k < |g.At(u)| {
      RelaxInduction(g, Relax(st, u, d, g.At(u)[k]), u, d, k + 1, P);
    }
  }

  /** Mid-turn: the last settled node's arcs relaxed up to the `j`-th, nothing settled moved since. */
  ghost predicate MidTurn(g: Graph, s: nat, from: Search, x: Search, u: nat, d: real, j: nat) {
    InvUpTo(g, s, x, j) && x.order == from.order && u in x.dist && x.dist[u] == d && SettledStay(from, x)
  }

  /** Relaxing the rest of the last settled node's arcs completes the turn. */
  lemma RelaxFromKeepsInv(g: Graph, s: nat, st: Search, u: nat, d: real)
    requires g.Valid() && InvUpTo(g, s, st, 0) && st.order != [] && u == st.order[|st.order| - 1]
    requires u in st.dist && st.dist[u] == d
    ensures InvUpTo(g, s, RelaxFrom(g, st, u, d, 0), |g.At(u)|)
    ensures SettledStay(st, RelaxFrom(g, st, u, d, 0))
  {
    var P := (x: Search, j: nat) => MidTurn(g, s, st, x, u, d, j);
    forall x, j: nat | P(x, j) && j < |g.At(u)| ensures P(Relax(x, u, d, g.At(u)[j]), j + 1) {
      MidTurnStep(g, s, st, x, u, d, j);
    }
    RelaxInduction(g, st, u, d, 0, P);
  }

  lemma MidTurnStep(g: Graph, s: nat, from: Search, x: Search, u: nat, d: real, j: nat)
    requires g.Valid() && from.order != [] && u == from.order[|from.order| - 1]
    requires MidTurn(g, s, from, x, u, d, j) && j < |g.At(u)|
    ensures MidTurn(g, s, from, Relax(x, u, d, g.At(u)[j]), u, d, j + 1)
  {
    var next := RelaxedOnce(g, s, x, u, d, j);
  }

  /** Settled distances do not move. */
  ghost predicate SettledStay(st: Search, later: Search) {
    forall x :: x in st.order ==> x in st.dist && x in later.dist && later.dist[x] == st.dist[x]
  }

  lemma RelaxedOnce(g: Graph, s: nat, st: Search, u: nat, d: real, k: nat) returns (next: Search)
    requires g.Valid() && InvUpTo(g, s, st, k) && st.order != [] && u == st.order[|st.order| - 1]
    requires k < |g.At(u)| && u in st.dist && st.dist[u] == d
    ensures next == Relax(st, u, d, g.At(u)[k]) && InvUpTo(g, s, next, k + 1)
    ensures next.order == st.order && u in next.dist && next.dist[u] == d && SettledStay(st, next)
  {
    next := Relax(st, u, d, g.At(u)[k]);
    RelaxKeepsInv(g, s, st, u, k);
    RelaxLeavesSettled(g, st, u, d, k);
  }

  lemma RelaxLeavesSettled(g: Graph, st: Search, u: nat, d: real, k: nat)
    requires g.Valid() && SettledNear(st) && st.order != [] && u == st.order[|st.order| - 1]
    requires k < |g.At(u)| && u in st.dist && st.dist[u] == d
    ensures SettledStay(st, Relax(st, u, d, g.At(u)[k]))
  {
    var a := g.At(u)[k];
    ArcFacts(g, u, k);
    if a.cost.Finite? && Improves(st.dist, a.to, d + a.cost.w) {
      ImprovedIsUnsettled(st, a.to, a.cost.w);
    }
  }

  // ---- whole runs ------------------------------------------------------------------------------

  /** Every turn keeps the invariant, and either drops an entry or settles one more node. */
  lemma TurnKeepsInv(g: Graph, s: nat, st: Search, e: Entry)
    requires g.Valid() && Inv(g, s, st) && IsLeast(e, st.frontier)
    ensures Inv(g, s, Turn(g, st, e)) && e.node in st.dist
    ensures if st.dist[e.node] < e.cost then Turn(g, st, e).order == st.order
            else Turn(g, st, e).order == st.order + [e.node]
  {
    if st.dist[e.node] < e.cost {
      DropKeepsInv(g, s, st, e);
    } else {
      FreshTurnKeepsInv(g, s, st, e);
    }
  }

  lemma FreshTurnKeepsInv(g: Graph, s: nat, st: Search, e: Entry)
    requires g.Valid() && Inv(g, s, st) && IsLeast(e, st.frontier) && e.node in st.dist && st.dist[e.node] >= e.cost
    ensures Inv(g, s, Turn(g, st, e)) && Turn(g, st, e).order == st.order + [e.node]
  {
    SettleKeepsInv(g, s, st, e);
    RelaxFromKeepsOrder(g, Settle(st, e), e.node, e.cost, 0);
    RelaxFromKeepsInv(g, s, Settle(st, e), e.node, e.cost);
  }

  /** `st` is the state after popping `popped` in turn, each time a least entry. */
  ghost predicate Run(g: Graph, s: nat, popped: seq<Entry>, st: Search) {
    if popped == [] then st == Initial(s)
    else exists q: Search ::
           Run(g, s, popped[..|popped| - 1], q) && IsLeast(popped[|popped| - 1], q.frontier)
           && st == Turn(g, q, popped[|popped| - 1])
  }

  lemma RunExtends(g: Graph, s: nat, popped: seq<Entry>, st: Search, e: Entry)
    requires Run(g, s, popped, st) && IsLeast(e, st.frontier)
    ensures Run(g, s, popped + [e], Turn(g, st, e))
  {
    assert (popped + [e])[..|popped|] == popped;
  }

  /** The invariant holds in every state of every run. */
  lemma {:induction false} EveryRun(g: Graph, s: nat, popped: seq<Entry>, st: Search)
    requires g.Valid() && Run(g, s, popped, st)
    ensures Inv(g, s, st)
  {
    if popped == [] {
      InitialInv(g, s);
    } else {
      var e := popped[|popped| - 1];
      var q: Search :| Run(g, s, popped[..|popped| - 1], q) && IsLeast(e, q.frontier) && st == Turn(g, q, e);
      EveryRun(g, s, popped[..|popped| - 1], q);
      TurnKeepsInv(g, s, q, e);
    }
  }

  /** One more turn of a run: it extends, and settles a node unless the entry was stale. */
  lemma RunTurns(g: Graph, s: nat, popped: seq<Entry>, st: Search, e: Entry)
    requires g.Valid() && Run(g, s, popped, st) && IsLeast(e, st.frontier)
    ensures Run(g, s, popped + [e], Turn(g, st, e)) && e.node in st.dist
    ensures if st.dist[e.node] < e.cost then Turn(g, st, e).order == st.order
            else Turn(g, st, e).order == st.order + [e.node]
  {
    RunExtends(g, s, popped, st, e);
    EveryRun(g, s, popped, st);
    TurnKeepsInv(g, s, st, e);
  }

  /** Ids seen along a run index into the id space or are the source itself. */
  lemma RunIds(g: Graph, s: nat, popped: seq<Entry>, st: Search)
    requires g.Valid() && Run(g, s, popped, st)
    ensures InIdSpace(g, s, st)
    ensures forall v :: v in st.dist ==> v == s || v < |g.arcs|
    ensures forall e :: e in st.frontier ==> e.node in st.dist
  {
    EveryRun(g, s, popped, st);
  }

  lemma RunIsBounded(g: Graph, s: nat, popped: seq<Entry>, st: Search, top: nat)
    requires g.Valid() && Run(g, s, popped, st) && s < top && |g.arcs| <= top
    ensures |st.order| <= top
  {
    EveryRun(g, s, popped, st);
    forall i | 0 <= i < |st.order| ensures st.order[i] < top {
      assert st.order[i] in st.order;
    }
    StableSort.DistinctBelow(st.order, top);
  }

  lemma RunTree(g: Graph, s: nat, popped: seq<Entry>, st: Search)
    requires g.Valid() && Run(g, s, popped, st)
    ensures s in st.dist && st.dist[s] == 0.0 && PrevTree(g, s, st.dist, st.prev, st.order)
  {
    EveryRun(g, s, popped, st);
  }

  // ---- what the invariant buys --------------------------------------------------------------

  /** No unsettled node is nearer than `top`; with none left `top` may be infinite. */
  ghost predicate UnsettledAtLeast(st: Search, top: Weight) {
    forall v :: v in st.dist && v !in st.order ==> top.Finite? && top.w <= st.dist[v]
  }

  /** Any walk either ends at a settled node that is at least as near, or is as long as the
      frontier is far. */
  lemma {:induction false} Frontier(g: Graph, s: nat, st: Search, top: Weight, p: Walk)
    requires g.Valid() && Inv(g, s, st) && UnsettledAtLeast(st, top)
    requires p.In(g) && p.Start() == s
    ensures (p.End() in st.order && st.dist[p.End()] <= p.Cost()) || (top.Finite? && top.w <= p.Cost())
  {
    match p
    case Here(_) =>
    case Step(q, v, w) =>
      Frontier(g, s, st, top, q);
      ArcIsNonNegative(g, q.End(), v, w);
      if q.End() in st.order && st.dist[q.End()] <= q.Cost() {
        SettledArc(g, s, st, q.End(), v, w);
      }
  }

  lemma SettledArc(g: Graph, s: nat, st: Search, u: nat, v: nat, w: real)
    requires Inv(g, s, st) && u in st.order && g.HasArc(u, v, w)
    ensures u in st.dist && v in st.dist && st.dist[v] <= st.dist[u] + w
  {
    var i :| 0 <= i < |st.order| && st.order[i] == u;
    assert Relaxed(g, st.dist, u, |g.At(u)|);
    var j :| 0 <= j < |g.At(u)| && g.At(u)[j] == Arc(v, Finite(w));
  }

  /** Settled distances are exact, and so is any no farther than the whole frontier. */
  lemma NearIsExact(g: Graph, s: nat, st: Search, v: nat)
    requires g.Valid() && Inv(g, s, st)
    requires v in st.dist && (v in st.order || UnsettledAtLeast(st, Finite(st.dist[v])))
    ensures Shortest(g, s, v, st.dist[v])
  {
    assert Walked(g, s, st.dist, v);
    forall p: Walk | p.In(g) && p.Start() == s && p.End() == v ensures st.dist[v] <= p.Cost() {
      Frontier(g, s, st, Finite(st.dist[v]), p);
    }
  }

  /** Once the frontier is empty, reached means reachable and every distance is the minimum. */
  lemma ExhaustedIsExact(g: Graph, s: nat, st: Search, v: nat)
    requires g.Valid() && Inv(g, s, st) && st.frontier == multiset{}
    ensures v in st.dist <==> Reachable(g, s, v)
    ensures v in st.dist ==> Shortest(g, s, v, st.dist[v])
  {
    if v in st.dist {
      assert Walked(g, s, st.dist, v);
      NearIsExact(g, s, st, v);
    }
    forall p: Walk | p.In(g) && p.Start() == s && p.End() == v ensures v in st.dist {
      Frontier(g, s, st, Inf, p);
    }
  }
}
