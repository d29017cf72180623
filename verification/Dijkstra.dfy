/** Single-source shortest paths: the result object with its map and array modes, the search
    loop, and path reconstruction. */
module Dijkstra {
  import opened Heap
  import opened WeightedGraph
  import opened Search

  /** The array mode's stand-in for an absent predecessor, which no node id equals. */
  const PREV_NONE: nat := 0xFFFF_FFFF

  /** From this many reached nodes on, a search keeps arrays instead of maps. */
  const DENSE_AT: nat := 4096

  // ---- routes ---------------------------------------------------------------------------------

  /** `nodes` is a path along arcs of `g`, of total cost `c`. */
  ghost predicate Route(g: Graph, nodes: seq<nat>, c: real) {
    if |nodes| <= 1 then |nodes| == 1 && c == 0.0
    else exists w: real :: g.HasArc(nodes[0], nodes[1], w) && Route(g, nodes[1..], c - w)
  }

  lemma RoutePrepends(g: Graph, nodes: seq<nat>, c: real, u: nat, w: real)
    requires Route(g, nodes, c) && nodes != [] && g.HasArc(u, nodes[0], w)
    ensures Route(g, [u] + nodes, c + w)
  {
    var longer := [u] + nodes;
    assert longer[1..] == nodes && longer[1] == nodes[0];
    assert g.HasArc(longer[0], longer[1], w) && Route(g, longer[1..], (c + w) - w);
  }

  ghost function Reversed(s: seq<nat>): (r: seq<nat>)
    ensures |r| == |s| && forall i :: 0 <= i < |s| ==> r[i] == s[|s| - 1 - i]
  {
    seq(|s|, i requires 0 <= i < |s| => s[|s| - 1 - i])
  }

  /** The swap loop from both ends that turns the collected path source-first. */
  method ReversePath(path: seq<nat>) returns (r: seq<nat>)
    ensures r == Reversed(path)
  {
    r := path;
    var i, j := 0, |path| - 1;
    while i < j
      invariant |r| == |path| && 0 <= i && i + j == |path| - 1 && i <= j + 1
      invariant forall k :: i <= k <= j ==> r[k] == path[k]
      invariant forall k :: 0 <= k < i ==> r[k] == path[|path| - 1 - k]
      invariant forall k :: j < k < |path| ==> r[k] == path[|path| - 1 - k]
    {
      r := r[i := r[j]][j := r[i]];
      i, j := i + 1, j - 1;
    }
  }

  // ---- the result object ------------------------------------------------------------------------

  class ShortestPaths {
    const source: nat
    var dist: map<nat, real>
    var prev: map<nat, nat>
    var dense: bool
    var distA: array<Weight>
    var prevA: array<nat>
    var reached: seq<nat>

    ghost predicate Valid()
      reads this, distA, prevA
    {
      dense ==>
        && distA.Length == prevA.Length <= PREV_NONE
        && (forall v: nat :: v in reached <==> v < distA.Length && distA[v].Finite?)
    }

    /** The distances, whichever mode holds them. */
    ghost function Dist(): map<nat, real>
      reads this, distA
    {
      if dense then map v: nat | 0 <= v < distA.Length && distA[v].Finite? :: distA[v].w else dist
    }

    /** The predecessors, whichever mode holds them. */
    ghost function Prev(): map<nat, nat>
      reads this, prevA
    {
      if dense then map v: nat | 0 <= v < prevA.Length && prevA[v] != PREV_NONE :: prevA[v] else prev
    }

    constructor (source: nat)
      ensures Valid() && !dense && this.source == source && fresh(distA) && fresh(prevA)
      ensures Dist() == map[source := 0.0] && Prev() == map[]
    {
      this.source := source;
      dist := map[source := 0.0];
      prev := map[];
      dense := false;
      distA := new Weight[0];
      prevA := new nat[0];
      reached := [];
    }

    method Distance(node: nat) returns (d: real, ok: bool)
      requires Valid()
      ensures ok <==> node in Dist()
      ensures d == if ok then Dist()[node] else 0.0
    {
      if dense {
        if node >= distA.Length || distA[node].Inf? {
          return 0.0, false;
        }
        return distA[node].w, true;
      }
      ok := node in dist;
      d := if ok then dist[node] else 0.0;
    }

    /** The predecessor read of `PathTo`, mode-dispatched. */
    method PrevOf(node: nat) returns (u: nat, ok: bool)
      requires Valid() && (dense ==> node < prevA.Length)
      ensures ok <==> node in Prev()
      ensures ok ==> u == Prev()[node]
    {
      if dense {
        u := prevA[node];
        ok := u != PREV_NONE;
      } else {
        ok := node in prev;
        u := if ok then prev[node] else 0;
      }
    }

    /** The search loop's distance read, which skips the bounds check. */
    method Lookup(node: nat) returns (d: real, ok: bool)
      requires Valid() && (dense ==> node < distA.Length)
      ensures ok <==> node in Dist()
      ensures ok ==> d == Dist()[node]
    {
      if dense {
        ok := distA[node].Finite?;
        d := if ok then distA[node].w else 0.0;
      } else {
        ok := node in dist;
        d := if ok then dist[node] else 0.0;
      }
    }

    /** The relax write. */
    method Set(node: nat, d: real, from: nat)
      requires Valid() && (dense ==> node < distA.Length && from < PREV_NONE)
      modifies this, distA, prevA
      ensures Valid() && dense == old(dense) && distA == old(distA) && prevA == old(prevA)
      ensures Dist() == old(Dist())[node := d] && Prev() == old(Prev())[node := from]
    {
      if dense {
        if distA[node].Inf? {
          reached := reached + [node];
        }
        distA[node] := Finite(d);
        prevA[node] := from;
      } else {
        dist := dist[node := d];
        prev := prev[node := from];
      }
    }

    /** Moves the search onto id-space arrays; no answer changes. */
    method Densify(idSpace: nat)
      requires Valid() && !dense && idSpace <= PREV_NONE
      requires forall v :: v in dist ==> v < idSpace
      requires forall v :: v in prev ==> v < idSpace && prev[v] < PREV_NONE
      modifies this
      ensures Valid() && dense && fresh(distA) && fresh(prevA) && distA.Length == idSpace
      ensures Dist() == old(Dist()) && Prev() == old(Prev())
    {
      distA, reached := SpreadDist(dist, idSpace);
      prevA := SpreadPrev(prev, idSpace);
      dense := true;
      dist, prev := map[], map[];
    }

    /** The map of every reached node, materialized from the arrays in dense mode. */
    method Distances() returns (m: map<nat, real>)
      requires Valid()
      ensures m == Dist()
    {
      if !dense {
        return dist;
      }
      m := map[];
      for i := 0 to |reached|
        invariant forall v :: v in m <==> v in reached[..i]
        invariant forall v :: v in m ==> v < distA.Length && distA[v].Finite? && m[v] == distA[v].w
      {
        assert reached[i] in reached;
        m := m[reached[i] := distA[reached[i]].w];
      }
      assert reached[..|reached|] == reached;
    }

    /** The path from the source to `target`, source first: it exists exactly when `target` was
        reached, and its cost is the recorded distance. */
    method PathTo(target: nat, ghost g: Graph, ghost order: seq<nat>) returns (path: seq<nat>, ok: bool)
      requires Valid() && PrevTree(g, source, Dist(), Prev(), order)
      requires source in Dist() && Dist()[source] == 0.0
      ensures ok <==> target in Dist()
      ensures ok ==> path != [] && path[0] == source && path[|path| - 1] == target
      ensures ok ==> Route(g, path, Dist()[target])
    {
      var _, found := Distance(target);
      if !found {
        return [], false;
      }
      path := [target];
      var cur := target;
      ghost var dm, pm, bound := Dist(), Prev(), |order| + 1;
      assert Reversed(path) == [target];
      while cur != source
        invariant path != [] && path[0] == target && path[|path| - 1] == cur && cur in dm
        invariant Route(g, Reversed(path), dm[target] - dm[cur])
        invariant 0 <= bound <= |order| + 1 && (bound <= |order| ==> cur in order[..bound])
        decreases bound
      {
        bound := EarlierBound(g, source, dm, pm, order, cur, bound);
        PathStep(g, source, dm, pm, order, path, cur, target);
        var next, known := PrevOf(cur);
        path := path + [next];
        cur := next;
      }
      path := ReversePath(path);
      ok := true;
    }
  }

  lemma PathStep(g: Graph, s: nat, dist: map<nat, real>, prev: map<nat, nat>, order: seq<nat>,
                 path: seq<nat>, cur: nat, target: nat)
    requires PrevTree(g, s, dist, prev, order) && cur in dist && cur != s && target in dist
    requires path != [] && path[|path| - 1] == cur && Route(g, Reversed(path), dist[target] - dist[cur])
    ensures cur in prev && prev[cur] in dist
    ensures Route(g, Reversed(path + [prev[cur]]), dist[target] - dist[prev[cur]])
  {
    assert Linked(g, dist, prev, order, cur);
    var next := prev[cur];
    RoutePrepends(g, Reversed(path), dist[target] - dist[cur], next, dist[cur] - dist[next]);
    assert Reversed(path + [next]) == [next] + Reversed(path);
  }

  /** The predecessor of a node settled before `bound` was settled before some smaller bound. */
  lemma EarlierBound(g: Graph, s: nat, dist: map<nat, real>, prev: map<nat, nat>, order: seq<nat>, cur: nat, bound: nat)
    returns (b: nat)
    requires PrevTree(g, s, dist, prev, order) && cur in dist && cur != s
    requires bound <= |order| + 1 && (bound <= |order| ==> cur in order[..bound])
    ensures b < bound && b <= |order| && cur in prev && prev[cur] in order[..b]
  {
    assert Linked(g, dist, prev, order, cur);
    if bound <= |order| {
      b :| 0 <= b < bound && order[b] == cur;
      assert LinkedBack(prev, order, b);
    } else {
      b := |order|;
      assert order[..b] == order;
    }
  }

  method SpreadDist(dist: map<nat, real>, n: nat) returns (a: array<Weight>, reached: seq<nat>)
    requires forall v :: v in dist ==> v < n
    ensures fresh(a) && a.Length == n
    ensures forall v :: 0 <= v < n ==> a[v] == if v in dist then Finite(dist[v]) else Inf
    ensures forall v: nat :: v in reached <==> v in dist
  {
    a := new Weight[n](_ => Inf);
    reached := [];
    var todo := dist.Keys;
    while todo != {}
      invariant todo <= dist.Keys
      invariant forall v: nat :: v in reached <==> v in dist && v !in todo
      invariant forall v :: 0 <= v < n ==> a[v] == if v in dist && v !in todo then Finite(dist[v]) else Inf
    {
      var v :| v in todo;
      a[v] := Finite(dist[v]);
      reached := reached + [v];
      todo := todo - {v};
    }
  }

  method SpreadPrev(prev: map<nat, nat>, n: nat) returns (a: array<nat>)
    requires forall v :: v in prev ==> v < n
    ensures fresh(a) && a.Length == n
    ensures forall v :: 0 <= v < n ==> a[v] == if v in prev then prev[v] else PREV_NONE
  {
    a := new nat[n](_ => PREV_NONE);
    var todo := prev.Keys;
    while todo != {}
      invariant todo <= prev.Keys
      invariant forall v :: 0 <= v < n ==> a[v] == if v in prev && v !in todo then prev[v] else PREV_NONE
    {
      var v :| v in todo;
      a[v] := prev[v];
      todo := todo - {v};
    }
  }

  // ---- the search ---------------------------------------------------------------------------------

  /** The result object and heap hold search state `st`, over an id space of `n`. */
  ghost predicate Represents(p: ShortestPaths, h: DijkstraHeap, st: Search, n: nat)
    reads p, p.distA, p.prevA, h
  {
    && p.Valid() && IsHeap(h.a) && p.distA as object != p.prevA
    && multiset(h.a) == st.frontier && p.Dist() == st.dist && p.Prev() == st.prev
    && (p.dense ==> p.distA.Length == n)
  }

  /** Relaxes one arc: the distance write and the push. */
  method RelaxArc(p: ShortestPaths, h: DijkstraHeap, u: nat, cost: real, a: Arc, n: nat, ghost st: Search)
    requires Represents(p, h, st, n) && u < n <= PREV_NONE && a.to < n
    modifies h, p, p.distA, p.prevA
    ensures Represents(p, h, Relax(st, u, cost, a), n)
    ensures p.dense == old(p.dense) && p.distA == old(p.distA) && p.prevA == old(p.prevA)
  {
    if a.cost.Inf? {
      return;
    }
    var next := cost + a.cost.w;
    var d, ok := p.Lookup(a.to);
    if !ok || next < d {
      Improve(p, h, u, next, a.to, n, st);
    }
  }

  method Improve(p: ShortestPaths, h: DijkstraHeap, u: nat, cost: real, to: nat, n: nat, ghost st: Search)
    requires Represents(p, h, st, n) && u < n <= PREV_NONE && to < n
    modifies h, p, p.distA, p.prevA
    ensures Represents(p, h, Search(st.dist[to := cost], st.prev[to := u], st.frontier + multiset{Entry(cost, to)}, st.order), n)
    ensures p.dense == old(p.dense) && p.distA == old(p.distA) && p.prevA == old(p.prevA)
  {
    p.Set(to, cost, u);
    h.Push(Entry(cost, to));
  }

  method RelaxArcs(g: Graph, p: ShortestPaths, h: DijkstraHeap, u: nat, cost: real, ghost st: Search)
    requires g.Valid() && |g.arcs| <= PREV_NONE && Represents(p, h, st, |g.arcs|)
    modifies h, p, p.distA, p.prevA
    ensures Represents(p, h, RelaxFrom(g, st, u, cost, 0), |g.arcs|)
    ensures p.dense == old(p.dense) && p.distA == old(p.distA) && p.prevA == old(p.prevA)
  {
    ghost var now := st;
    for k := 0 to |g.At(u)|
      invariant Represents(p, h, now, |g.arcs|) && RelaxFrom(g, now, u, cost, k) == RelaxFrom(g, st, u, cost, 0)
      invariant p.dense == old(p.dense) && p.distA == old(p.distA) && p.prevA == old(p.prevA)
    {
      ArcFacts(g, u, k);
      RelaxArc(p, h, u, cost, g.At(u)[k], |g.arcs|, now);
      now := Relax(now, u, cost, g.At(u)[k]);
    }
  }

  /** The distances are exact as far as the search promises: everywhere for the full search, up
      to the target's own distance when it stopped there. */
  ghost predicate Answers(g: Graph, s: nat, dist: map<nat, real>, hasTarget: bool, target: nat) {
    if hasTarget && target in dist then
      && Shortest(g, s, target, dist[target])
      && forall v :: v in dist && dist[v] <= dist[target] ==> Shortest(g, s, v, dist[v])
    else
      && (forall v: nat :: v in dist <==> Reachable(g, s, v))
      && (forall v :: v in dist ==> Shortest(g, s, v, dist[v]))
  }

  lemma ExhaustedAnswers(g: Graph, s: nat, popped: seq<Entry>, st: Search, hasTarget: bool, target: nat)
    requires g.Valid() && Run(g, s, popped, st) && st.frontier == multiset{}
    ensures Answers(g, s, st.dist, hasTarget, target)
  {
    EveryRun(g, s, popped, st);
    forall v: nat
      ensures v in st.dist <==> Reachable(g, s, v)
      ensures v in st.dist ==> Shortest(g, s, v, st.dist[v])
    {
      ExhaustedIsExact(g, s, st, v);
    }
  }

  lemma StoppedAnswers(g: Graph, s: nat, popped: seq<Entry>, st: Search, e: Entry)
    requires g.Valid() && Run(g, s, popped, st) && IsLeast(e, st.frontier)
    requires e.node in st.dist && st.dist[e.node] >= e.cost
    ensures Answers(g, s, st.dist, true, e.node)
  {
    EveryRun(g, s, popped, st);
    FreshIsNearest(st, e);
    forall v | v in st.dist && st.dist[v] <= st.dist[e.node] ensures Shortest(g, s, v, st.dist[v]) {
      NearIsExact(g, s, st, v);
    }
  }

  /** Pops the least entry and takes its turn, unless it is the target, freshly settled. */
  method PopTurn(g: Graph, p: ShortestPaths, h: DijkstraHeap, hasTarget: bool, target: nat, ghost st: Search)
    returns (s: Entry, stop: bool)
    requires g.Valid() && |g.arcs| <= PREV_NONE && Represents(p, h, st, |g.arcs|) && |h.a| > 0
    requires forall e :: e in st.frontier ==> e.node in st.dist
    requires p.dense ==> forall v :: v in st.dist ==> v < |g.arcs|
    modifies h, p, p.distA, p.prevA
    ensures IsLeast(s, st.frontier) && s.node in st.dist
    ensures p.dense == old(p.dense) && p.distA == old(p.distA) && p.prevA == old(p.prevA)
    ensures stop ==> hasTarget && s.node == target && st.dist[s.node] >= s.cost
    ensures if stop then p.Valid() && p.Dist() == st.dist && p.Prev() == st.prev
            else Represents(p, h, Turn(g, st, s), |g.arcs|)
  {
    s := h.Pop();
    assert s in st.frontier;
    var d, ok := p.Lookup(s.node);
    if ok && s.cost > d {
      return s, false;
    }
    if hasTarget && s.node == target {
      return s, true;
    }
    RelaxArcs(g, p, h, s.node, s.cost, Settle(st, s));
    stop := false;
  }

  /** The mid-run switch to arrays. */
  method MaybeDensify(g: Graph, p: ShortestPaths, h: DijkstraHeap, ghost st: Search)
    requires |g.arcs| <= PREV_NONE && Represents(p, h, st, |g.arcs|) && InIdSpace(g, p.source, st)
    requires forall v :: v in st.dist ==> v == p.source || v < |g.arcs|
    requires p.dense ==> p.source < |g.arcs|
    modifies p
    ensures Represents(p, h, st, |g.arcs|) && (p.dense ==> p.source < |g.arcs|)
    ensures (p.distA == old(p.distA) && p.prevA == old(p.prevA)) || (fresh(p.distA) && fresh(p.prevA))
  {
    if !p.dense && |p.dist| >= DENSE_AT {
      DenseSourceInSpace(p.dist, p.source, |g.arcs|);
      p.Densify(|g.arcs|);
    }
  }

  /** `Dijkstra` (no target) and `DijkstraTo`. */
  method Dijkstra(g: Graph, source: nat, hasTarget: bool, target: nat)
    returns (p: ShortestPaths, ghost order: seq<nat>)
    requires g.Valid() && |g.arcs| <= PREV_NONE
    ensures fresh(p) && p.Valid() && p.source == source
    ensures Answers(g, source, p.Dist(), hasTarget, target)
    ensures source in p.Dist() && p.Dist()[source] == 0.0 && PrevTree(g, source, p.Dist(), p.Prev(), order)
  {
    p := new ShortestPaths(source);
    var h := new DijkstraHeap(Entry(0.0, source));
    ghost var st, popped := Initial(source), [];
    ghost var top := if source < |g.arcs| then |g.arcs| else source + 1;
    while |h.a| > 0
      invariant fresh(p) && fresh(p.distA) && fresh(p.prevA) && fresh(h) && p.source == source
      invariant Represents(p, h, st, |g.arcs|) && Run(g, source, popped, st)
      invariant p.dense ==> source < |g.arcs|
      decreases top - |st.order|, |h.a|
    {
      RunIds(g, source, popped, st);
      var s, stop := PopTurn(g, p, h, hasTarget, target, st);
      if stop {
        StoppedAnswers(g, source, popped, st, s);
        RunTree(g, source, popped, st);
        order := st.order;
        return;
      }
      RunTurns(g, source, popped, st, s);
      st, popped := Turn(g, st, s), popped + [s];
      RunIds(g, source, popped, st);
      RunIsBounded(g, source, popped, st, top);
      MaybeDensify(g, p, h, st);
    }
    RunTree(g, source, popped, st);
    ExhaustedAnswers(g, source, popped, st, hasTarget, target);
    order := st.order;
  }

  lemma DenseSourceInSpace(dist: map<nat, real>, source: nat, n: nat)
    requires |dist| >= DENSE_AT && (source < n || dist == map[source := 0.0])
    ensures source < n
  {
    assert |map[source := 0.0]| == 1;
  }
}
