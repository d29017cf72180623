/** The weighted graphs a search walks, read off a snapshot's two CSRs with one weight per stored
    relationship: forward and backward traversal are mirror images. */
module SnapshotGraph {
  import opened StableSort
  import opened Csr
  import opened InToOut
  import opened RelTypes
  import opened TypedAdjacency
  import opened BoundPair
  import opened WeightedGraph
  import Bidirectional

  // ---- graphs of one direction ---------------------------------------------------------------------------

  /** The weight stored for a position; none at all beyond the relationships. */
  function WeightAt(weights: seq<Weight>, p: nat): Weight {
    if p < |weights| then weights[p] else Inf
  }

  function ArcsOf(hits: seq<Hit>, weights: seq<Weight>): (r: seq<Arc>)
    ensures |r| == |hits| && forall i :: 0 <= i < |hits| ==> r[i] == Arc(hits[i].nbr, WeightAt(weights, hits[i].pos))
  {
    seq(|hits|, i requires 0 <= i < |hits| => Arc(hits[i].nbr, WeightAt(weights, hits[i].pos)))
  }

  /** The arcs of `u` in one direction. */
  function DirectedArcs(g: Topology, d: Side, m: RelMatch, posMap: seq<nat>, weights: seq<Weight>, u: nat): seq<Arc>
    requires WellFormed(g.out, g.n) && WellFormed(g.inn, g.n)
  {
    ArcsOf(HitsAt(Towards(g, d), g.n, m, posMap, u), weights)
  }

  /** What a traversal in direction `dir` sees. */
  function Seen(g: Topology, dir: Direction, m: RelMatch, inToOut: seq<nat>, weights: seq<Weight>): (r: Graph)
    requires WellFormed(g.out, g.n) && WellFormed(g.inn, g.n)
    ensures |r.arcs| == g.n
  {
    Graph(seq(g.n, u requires 0 <= u < g.n =>
      (if dir.Incoming? then [] else DirectedArcs(g, Out, m, [], weights, u)) +
      (if dir.Outgoing? then [] else DirectedArcs(g, In, m, inToOut, weights, u))))
  }

  function Reverse(dir: Direction): Direction {
    match dir
    case Outgoing => Incoming
    case Incoming => Outgoing
    case Both => Both
  }

  // ---- what the arcs are --------------------------------------------------------------------------------------

  /** A staged relationship of this weight joins `u` to `v` in direction `d`. */
  ghost predicate Joins(rels: seq<Rel>, d: Side, m: RelMatch, weights: seq<Weight>, u: nat, v: nat, w: real) {
    exists i :: 0 <= i < |rels| && Wanted(rels[i], d, u, v, m) && WeightAt(weights, Rank(Owners(rels, Out), i)) == Finite(w)
  }

  /** The same relationships from the other end. */
  lemma JoinsFlipped(rels: seq<Rel>, d: Side, m: RelMatch, weights: seq<Weight>, u: nat, v: nat, w: real)
    ensures Joins(rels, d, m, weights, u, v, w) <==> Joins(rels, Flip(d), m, weights, v, u, w)
  {
  }

  lemma HitsStepTo(a: Adjacency, m: RelMatch, posMap: seq<nat>, lo: nat, hi: nat, x: nat, p: nat)
    requires lo < hi <= |a.nbrs| == |a.types|
    ensures Hit(x, p) in Hits(a, m, posMap, lo, hi) <==>
            Hit(x, p) in Hits(a, m, posMap, lo, hi - 1) || (Leads(a, m, x, hi - 1) && p == Stored(posMap, hi - 1))
  {
  }

  lemma {:induction false} HitMembers(a: Adjacency, m: RelMatch, posMap: seq<nat>, lo: nat, hi: nat, x: nat, p: nat)
    requires hi <= |a.nbrs| == |a.types|
    ensures Hit(x, p) in Hits(a, m, posMap, lo, hi) <==> LeadsTo(a, m, posMap, lo, hi, x, p)
    decreases hi
  {
    if lo < hi {
      HitMembers(a, m, posMap, lo, hi - 1, x, p);
      HitsStepTo(a, m, posMap, lo, hi, x, p);
      LeadsToStep(a, m, posMap, lo, hi, x, p);
    }
  }

  /** A node's hits are the staged relationships it owns, at their outgoing positions. */
  lemma HitIsStored(a: Adjacency, rels: seq<Rel>, d: Side, n: nat, posMap: seq<nat>, u: nat, v: nat, m: RelMatch, p: nat)
    requires Lays(a, rels, d, n) && WellFormed(a, n) && MapsTo(posMap, rels, d, Out)
    ensures Hit(v, p) in HitsAt(a, n, m, posMap, u) <==> StoredAt(rels, Out, d, u, v, m, p)
  {
    if u < n {
      HitMembers(a, m, posMap, a.offsets[u], a.offsets[u + 1], v, p);
      LeadsHome(a, rels, d, n, posMap, Out, u, v, m, p);
    }
  }

  /** The arcs of one direction are the matching staged relationships with their weights. */
  lemma ArcsAreRels(a: Adjacency, rels: seq<Rel>, d: Side, n: nat, posMap: seq<nat>, m: RelMatch,
                    weights: seq<Weight>, u: nat, v: nat, w: real)
    requires Lays(a, rels, d, n) && WellFormed(a, n) && MapsTo(posMap, rels, d, Out)
    ensures Arc(v, Finite(w)) in ArcsOf(HitsAt(a, n, m, posMap, u), weights) <==> Joins(rels, d, m, weights, u, v, w)
  {
    var hits := HitsAt(a, n, m, posMap, u);
    if Arc(v, Finite(w)) in ArcsOf(hits, weights) {
      var i :| 0 <= i < |hits| && ArcsOf(hits, weights)[i] == Arc(v, Finite(w));
      assert Hit(v, hits[i].pos) in hits;
      HitIsStored(a, rels, d, n, posMap, u, v, m, hits[i].pos);
    }
    if Joins(rels, d, m, weights, u, v, w) {
      var i :| 0 <= i < |rels| && Wanted(rels[i], d, u, v, m) && WeightAt(weights, Rank(Owners(rels, Out), i)) == Finite(w);
      RelHasArc(a, rels, d, n, posMap, m, weights, u, v, i);
    }
  }

  lemma RelHasArc(a: Adjacency, rels: seq<Rel>, d: Side, n: nat, posMap: seq<nat>, m: RelMatch,
                  weights: seq<Weight>, u: nat, v: nat, i: nat)
    requires Lays(a, rels, d, n) && WellFormed(a, n) && MapsTo(posMap, rels, d, Out)
    requires i < |rels| && Wanted(rels[i], d, u, v, m)
    ensures Arc(v, WeightAt(weights, Rank(Owners(rels, Out), i))) in ArcsOf(HitsAt(a, n, m, posMap, u), weights)
  {
    var hits, p := HitsAt(a, n, m, posMap, u), Rank(Owners(rels, Out), i);
    assert StoredAt(rels, Out, d, u, v, m, p);
    HitIsStored(a, rels, d, n, posMap, u, v, m, p);
    var k :| 0 <= k < |hits| && hits[k] == Hit(v, p);
    assert ArcsOf(hits, weights)[k] == Arc(v, WeightAt(weights, p));
  }

  /** Both CSRs of the staged relationships, and the map home for the incoming one. */
  ghost predicate Paired(g: Topology, rels: seq<Rel>, inToOut: seq<nat>) {
    Stages(g, rels) && MapsTo(inToOut, rels, In, Out)
  }

  lemma SeenFrom(g: Topology, dir: Direction, m: RelMatch, inToOut: seq<nat>, weights: seq<Weight>, u: nat, arc: Arc)
    requires WellFormed(g.out, g.n) && WellFormed(g.inn, g.n)
    ensures arc in Seen(g, dir, m, inToOut, weights).At(u) <==>
            (!dir.Incoming? && arc in DirectedArcs(g, Out, m, [], weights, u))
            || (!dir.Outgoing? && arc in DirectedArcs(g, In, m, inToOut, weights, u))
  {
  }

  /** An arc the traversal sees is a staged relationship, one way round or the other. */
  lemma SeenAreRels(g: Topology, rels: seq<Rel>, dir: Direction, m: RelMatch, inToOut: seq<nat>,
                    weights: seq<Weight>, u: nat, v: nat, w: real)
    requires Paired(g, rels, inToOut)
    ensures Seen(g, dir, m, inToOut, weights).HasArc(u, v, w) <==>
            (!dir.Incoming? && Joins(rels, Out, m, weights, u, v, w)) || (!dir.Outgoing? && Joins(rels, In, m, weights, u, v, w))
  {
    SeenFrom(g, dir, m, inToOut, weights, u, Arc(v, Finite(w)));
    ArcsAreRels(g.out, rels, Out, g.n, [], m, weights, u, v, w);
    ArcsAreRels(g.inn, rels, In, g.n, inToOut, m, weights, u, v, w);
  }

  /** The reverse traversal mirrors the forward one: what a relationship costs does not depend on the
      end it is read from. */
  lemma ReverseIsMirror(g: Topology, rels: seq<Rel>, dir: Direction, m: RelMatch, inToOut: seq<nat>, weights: seq<Weight>)
    requires Paired(g, rels, inToOut)
    ensures Bidirectional.Mirror(Seen(g, dir, m, inToOut, weights), Seen(g, Reverse(dir), m, inToOut, weights))
  {
    var f, r := Seen(g, dir, m, inToOut, weights), Seen(g, Reverse(dir), m, inToOut, weights);
    forall u: nat, v: nat, w: real ensures f.HasArc(u, v, w) <==> r.HasArc(v, u, w) {
      SeenAreRels(g, rels, dir, m, inToOut, weights, u, v, w);
      SeenAreRels(g, rels, Reverse(dir), m, inToOut, weights, v, u, w);
      JoinsFlipped(rels, Out, m, weights, u, v, w);
      JoinsFlipped(rels, In, m, weights, u, v, w);
    }
  }

  ghost predicate NonNegative(weights: seq<Weight>) {
    forall p :: 0 <= p < |weights| && weights[p].Finite? ==> weights[p].w >= 0.0
  }

  lemma ArcsAreValid(a: Adjacency, n: nat, m: RelMatch, posMap: seq<nat>, weights: seq<Weight>, u: nat)
    requires WellFormed(a, n) && NonNegative(weights)
    ensures forall arc :: arc in ArcsOf(HitsAt(a, n, m, posMap, u), weights) ==>
              arc.to < n && (arc.cost.Finite? ==> arc.cost.w >= 0.0)
  {
    if u < n { HitsBelow(a, n, m, posMap, a.offsets[u], a.offsets[u + 1]); }
  }

  lemma SeenIsValid(g: Topology, dir: Direction, m: RelMatch, inToOut: seq<nat>, weights: seq<Weight>)
    requires WellFormed(g.out, g.n) && WellFormed(g.inn, g.n) && NonNegative(weights)
    ensures Seen(g, dir, m, inToOut, weights).Valid()
  {
    var s := Seen(g, dir, m, inToOut, weights);
    forall u, i | 0 <= u < g.n && 0 <= i < |s.arcs[u]|
      ensures s.arcs[u][i].to < g.n && (s.arcs[u][i].cost.Finite? ==> s.arcs[u][i].cost.w >= 0.0)
    {
      ArcsAreValid(g.out, g.n, m, [], weights, u);
      ArcsAreValid(g.inn, g.n, m, inToOut, weights, u);
      assert s.arcs[u][i] in s.arcs[u];
    }
  }

  /** The bidirectional search over a snapshot: for any direction, matcher and non-negative stored
      weights, the minimum cost over paths of staged relationships, or unreachable exactly when there
      is no such path. */
  method SnapshotShortestPath(g: Topology, dir: Direction, m: RelMatch, inToOut: seq<nat>, weights: seq<Weight>,
                              source: nat, target: nat, ghost rels: seq<Rel>) returns (cost: real, ok: bool)
    requires Paired(g, rels, inToOut) && NonNegative(weights)
    ensures ok <==> Reachable(Seen(g, dir, m, inToOut, weights), source, target)
    ensures ok ==> Shortest(Seen(g, dir, m, inToOut, weights), source, target, cost)
  {
    ReverseIsMirror(g, rels, dir, m, inToOut, weights);
    SeenIsValid(g, dir, m, inToOut, weights);
    SeenIsValid(g, Reverse(dir), m, inToOut, weights);
    cost, ok := Bidirectional.WeightedShortestPath(Seen(g, dir, m, inToOut, weights), Seen(g, Reverse(dir), m, inToOut, weights),
                                                   source, target);
  }
}
