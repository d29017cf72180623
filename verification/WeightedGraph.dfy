/** The weighted view a search walks: the matched relationships of each node, with exact costs. */
module WeightedGraph {

  /** A relationship's cost; `Inf` prunes it. */
  datatype Weight = Finite(w: real) | Inf

  datatype Arc = Arc(to: nat, cost: Weight)

  /** `arcs[u]` are the matched relationships of `u` in CSR order. */
  datatype Graph = Graph(arcs: seq<seq<Arc>>) {
    /** Ids outside the id space have no relationships. */
    function At(u: nat): seq<Arc> {
      if u < |arcs| then arcs[u] else []
    }

    /** Neighbors stay in the id space and costs are non-negative, as `WeightFn` demands. */
    ghost predicate Valid() {
      forall u, i :: 0 <= u < |arcs| && 0 <= i < |arcs[u]| ==>
        arcs[u][i].to < |arcs| && (arcs[u][i].cost.Finite? ==> arcs[u][i].cost.w >= 0.0)
    }

    ghost predicate HasArc(u: nat, v: nat, w: real) {
      Arc(v, Finite(w)) in At(u)
    }
  }

  /** A walk: a start node, then one arc at a time. */
  datatype Walk = Here(node: nat) | Step(init: Walk, to: nat, w: real) {
    ghost function Start(): nat {
      match this case Here(v) => v case Step(p, _, _) => p.Start()
    }

    ghost function End(): nat {
      match this case Here(v) => v case Step(_, v, _) => v
    }

    ghost function Cost(): real {
      match this case Here(_) => 0.0 case Step(p, _, w) => p.Cost() + w
    }

    ghost predicate In(g: Graph) {
      match this case Here(_) => true case Step(p, v, w) => p.In(g) && g.HasArc(p.End(), v, w)
    }
  }

  ghost predicate HasWalk(g: Graph, s: nat, t: nat, c: real) {
    exists p: Walk :: p.In(g) && p.Start() == s && p.End() == t && p.Cost() == c
  }

  /** `c` is the cheapest way from `s` to `t`. */
  ghost predicate Shortest(g: Graph, s: nat, t: nat, c: real) {
    HasWalk(g, s, t, c) && forall p: Walk :: p.In(g) && p.Start() == s && p.End() == t ==> c <= p.Cost()
  }

  ghost predicate Reachable(g: Graph, s: nat, t: nat) {
    exists p: Walk :: p.In(g) && p.Start() == s && p.End() == t
  }

  lemma HereIsAWalk(g: Graph, s: nat)
    ensures HasWalk(g, s, s, 0.0)
  {
    var p := Here(s);
    assert p.In(g) && p.Start() == s && p.End() == s && p.Cost() == 0.0;
  }

  lemma WalkExtends(g: Graph, s: nat, u: nat, v: nat, c: real, w: real)
    requires HasWalk(g, s, u, c) && g.HasArc(u, v, w)
    ensures HasWalk(g, s, v, c + w)
  {
    var p: Walk :| p.In(g) && p.Start() == s && p.End() == u && p.Cost() == c;
    var q := Step(p, v, w);
    assert q.In(g) && q.Start() == s && q.End() == v && q.Cost() == c + w;
  }

  lemma ArcIsNonNegative(g: Graph, u: nat, v: nat, w: real)
    requires g.Valid() && g.HasArc(u, v, w)
    ensures w >= 0.0 && v < |g.arcs|
  {
    var i :| 0 <= i < |g.At(u)| && g.At(u)[i] == Arc(v, Finite(w));
  }

  lemma {:induction false} CostIsNonNegative(g: Graph, p: Walk)
    requires g.Valid() && p.In(g)
    ensures p.Cost() >= 0.0
  {
    match p
    case Here(_) =>
    case Step(q, v, w) =>
      CostIsNonNegative(g, q);
      ArcIsNonNegative(g, q.End(), v, w);
  }

  lemma WalkIsNonNegative(g: Graph, s: nat, t: nat, c: real)
    requires g.Valid() && HasWalk(g, s, t, c)
    ensures c >= 0.0
  {
    var p: Walk :| p.In(g) && p.Start() == s && p.End() == t && p.Cost() == c;
    CostIsNonNegative(g, p);
  }
}
