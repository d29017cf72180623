/** The incoming -> outgoing position map as a function of the topology alone: any two staged
    sequences with the same two CSRs pair their positions the same way. */
module PositionMap {
  import opened StableSort
  import opened Csr
  import opened InToOut
  import opened Thaw

  ghost function OutByIn(rels: seq<Rel>, inPos: seq<nat>, outPos: seq<nat>): (m: seq<nat>)
    requires IsPerm(inPos) && IsPerm(outPos) && |inPos| == |outPos| == |rels|
    ensures |m| == |rels| && forall q :: 0 <= q < |rels| ==> m[q] == outPos[Inverse(inPos)[q]]
  {
    seq(|rels|, q requires 0 <= q < |rels| => outPos[Inverse(inPos)[q]])
  }

  lemma OutByInPairs(rels: seq<Rel>)
    ensures var inPos, outPos := Ranks(Owners(rels, In)), Ranks(Owners(rels, Out));
            IsPerm(inPos) && IsPerm(outPos) && PairsRels(OutByIn(rels, inPos, outPos), rels) &&
            IsPerm(OutByIn(rels, inPos, outPos))
  {
    RanksPermute(Owners(rels, In));
    RanksPermute(Owners(rels, Out));
    var inPos, outPos := Ranks(Owners(rels, In)), Ranks(Owners(rels, Out));
    var m := OutByIn(rels, inPos, outPos);
    forall i | 0 <= i < |rels| ensures PairsAt(m, Rank(Owners(rels, In), i), Rank(Owners(rels, Out), i)) {
      assert Inverse(inPos)[inPos[i]] == i;
    }
  }

  /** The map of a staged sequence. */
  ghost function PairMap(rels: seq<Rel>): (m: seq<nat>)
    ensures PairsRels(m, rels) && IsPerm(m)
  {
    OutByInPairs(rels);
    OutByIn(rels, Ranks(Owners(rels, In)), Ranks(Owners(rels, Out)))
  }

  /** A permutation that stays within key classes and is increasing on each is the identity. */
  lemma {:induction false} ClassMonotoneIsIdentity(f: seq<nat>, key: seq<Rel>, q: nat)
    requires IsPerm(f) && |key| == |f| && q < |f|
    requires forall x :: 0 <= x < |f| ==> key[f[x]] == key[x]
    requires forall x, y :: 0 <= x < y < |f| && key[x] == key[y] ==> f[x] < f[y]
    ensures f[q] == q
    decreases q
  {
    if f[q] < q {
      ClassMonotoneIsIdentity(f, key, f[q]);
    } else if f[q] > q {
      var x := IndexOf(f, q);
      if x < q {
        ClassMonotoneIsIdentity(f, key, x);
      }
    }
  }

  /** The relationship at a position, read off any sequence the direction lays out. */
  ghost function RelAtPos(rels: seq<Rel>, pos: seq<nat>, p: nat): Rel
    requires IsPerm(pos) && |pos| == |rels| && p < |rels|
  {
    rels[IndexOf(pos, p)]
  }

  lemma SameRelAtPos(a: Adjacency, x: seq<Rel>, y: seq<Rel>, d: Side, n: nat, p: nat)
    requires Lays(a, x, d, n) && Lays(a, y, d, n) && p < |x|
    ensures |x| == |y| && IsPerm(Ranks(Owners(x, d))) && IsPerm(Ranks(Owners(y, d)))
    ensures RelAtPos(x, Ranks(Owners(x, d)), p) == RelAtPos(y, Ranks(Owners(y, d)), p)
  {
    RanksPermute(Owners(x, d));
    RanksPermute(Owners(y, d));
    var i, j := IndexOf(Ranks(Owners(x, d)), p), IndexOf(Ranks(Owners(y, d)), p);
    assert Holds(a, Rank(Owners(x, d), i), x[i], d) && Holds(a, Rank(Owners(y, d), j), y[j], d);
    var u, v := Owner(x[i], d), Owner(y[j], d);
    assert u < n && v < n;
    BlockSide(Owners(x, d), i, u);
    BlockSide(Owners(y, d), j, u);
    BlockSide(Owners(x, d), i, v);
    BlockSide(Owners(y, d), j, v);
  }

  /** `f` relates the two sequences' maps: `mb[f[q]] == ma[q]`. */
  lemma MapsAgree(out: Adjacency, inn: Adjacency, n: nat, a: seq<Rel>, b: seq<Rel>, q: nat)
    requires Consistent(out, inn, a, n) && Consistent(out, inn, b, n) && q < |a|
    ensures |a| == |b| && PairMap(a)[q] == PairMap(b)[q]
  {
    var ai, ao := Ranks(Owners(a, In)), Ranks(Owners(a, Out));
    var bi, bo := Ranks(Owners(b, In)), Ranks(Owners(b, Out));
    RanksArePlacement(a, In);
    RanksArePlacement(a, Out);
    RanksArePlacement(b, In);
    RanksArePlacement(b, Out);
    MapReads(a, ai, ao);
    MapReads(b, bi, bo);
    forall p | 0 <= p < |a|
      ensures RelAtPos(a, ao, p) == RelAtPos(b, bo, p) && RelAtPos(a, ai, p) == RelAtPos(b, bi, p)
    {
      SameRelAtPos(out, a, b, Out, n, p);
      SameRelAtPos(inn, a, b, In, n, p);
    }
    PlacedMapsAgree(a, ai, ao, PairMap(a), b, bi, bo, PairMap(b), q);
  }

  lemma MapReads(rels: seq<Rel>, inPos: seq<nat>, outPos: seq<nat>)
    requires inPos == Ranks(Owners(rels, In)) && outPos == Ranks(Owners(rels, Out)) && IsPerm(inPos)
    ensures forall i :: 0 <= i < |rels| ==> inPos[i] < |rels| && PairMap(rels)[inPos[i]] == outPos[i]
  {
    forall i | 0 <= i < |rels| ensures inPos[i] < |rels| && PairMap(rels)[inPos[i]] == outPos[i] {
      assert PairsAt(PairMap(rels), Rank(Owners(rels, In), i), Rank(Owners(rels, Out), i));
    }
  }

  ghost predicate MapsPlaces(m: seq<nat>, inPos: seq<nat>, outPos: seq<nat>) {
    && |m| == |inPos| == |outPos| && IsPerm(m)
    && forall i :: 0 <= i < |m| ==> inPos[i] < |m| && m[inPos[i]] == outPos[i]
  }

  lemma PlacedMapsAgree(a: seq<Rel>, ai: seq<nat>, ao: seq<nat>, ma: seq<nat>,
                        b: seq<Rel>, bi: seq<nat>, bo: seq<nat>, mb: seq<nat>, q: nat)
    requires |a| == |b| && Placement(a, In, ai) && Placement(a, Out, ao) && MapsPlaces(ma, ai, ao)
    requires Placement(b, In, bi) && Placement(b, Out, bo) && MapsPlaces(mb, bi, bo)
    requires forall p :: 0 <= p < |a| ==>
               RelAtPos(a, ao, p) == RelAtPos(b, bo, p) && RelAtPos(a, ai, p) == RelAtPos(b, bi, p)
    requires q < |a|
    ensures ma[q] == mb[q]
  {
    var f, key := Follow(ma, mb), Keys(a, ai);
    forall x | 0 <= x < |a| ensures key[f[x]] == key[x] {
      var j := CrossOver(a, ai, ao, ma, b, bi, bo, mb, x);
    }
    forall x, y | 0 <= x < y < |a| && key[x] == key[y] ensures f[x] < f[y] {
      CrossOverAscends(a, ai, ao, ma, b, bi, bo, mb, x, y);
    }
    ClassMonotoneIsIdentity(f, key, q);
  }

  /** One map, then the other backwards. */
  ghost function Follow(ma: seq<nat>, mb: seq<nat>): (f: seq<nat>)
    requires IsPerm(ma) && IsPerm(mb) && |ma| == |mb|
    ensures |f| == |ma| && IsPerm(f)
    ensures forall x :: 0 <= x < |f| ==> f[x] == Inverse(mb)[ma[x]] && mb[f[x]] == ma[x]
  {
    var f := seq(|ma|, x requires 0 <= x < |ma| => Inverse(mb)[ma[x]]);
    assert forall x :: 0 <= x < |f| ==> f[x] == Inverse(mb)[ma[x]] && mb[f[x]] == ma[x];
    f
  }

  ghost function Keys(rels: seq<Rel>, pos: seq<nat>): (k: seq<Rel>)
    requires IsPerm(pos) && |pos| == |rels|
    ensures |k| == |rels| && forall x :: 0 <= x < |k| ==> k[x] == RelAtPos(rels, pos, x)
  {
    seq(|rels|, x requires 0 <= x < |rels| => RelAtPos(rels, pos, x))
  }

  /** Parallel relationships cross over in order. */
  lemma CrossOverAscends(a: seq<Rel>, ai: seq<nat>, ao: seq<nat>, ma: seq<nat>,
                         b: seq<Rel>, bi: seq<nat>, bo: seq<nat>, mb: seq<nat>, x: nat, y: nat)
    requires |a| == |b| && Placement(a, In, ai) && Placement(a, Out, ao) && MapsPlaces(ma, ai, ao)
    requires Placement(b, In, bi) && Placement(b, Out, bo) && MapsPlaces(mb, bi, bo)
    requires forall p :: 0 <= p < |a| ==>
               RelAtPos(a, ao, p) == RelAtPos(b, bo, p) && RelAtPos(a, ai, p) == RelAtPos(b, bi, p)
    requires x < y < |a| && RelAtPos(a, ai, x) == RelAtPos(a, ai, y)
    ensures Inverse(mb)[ma[x]] < Inverse(mb)[ma[y]]
  {
    var i, i' := IndexOf(ai, x), IndexOf(ai, y);
    assert ai[i] < ai[i'];
    assert ao[i] < ao[i'];
    var j := CrossOver(a, ai, ao, ma, b, bi, bo, mb, x);
    var j' := CrossOver(a, ai, ao, ma, b, bi, bo, mb, y);
    assert bo[j] < bo[j'];
    assert bi[j] < bi[j'];
  }

  /** Follow one relationship over: in at `x` under `a`, out, and back in under `b`. */
  lemma CrossOver(a: seq<Rel>, ai: seq<nat>, ao: seq<nat>, ma: seq<nat>,
                  b: seq<Rel>, bi: seq<nat>, bo: seq<nat>, mb: seq<nat>, x: nat) returns (j: nat)
    requires |a| == |b| && Placement(a, In, ai) && Placement(a, Out, ao) && MapsPlaces(ma, ai, ao)
    requires Placement(b, In, bi) && Placement(b, Out, bo) && MapsPlaces(mb, bi, bo)
    requires forall p :: 0 <= p < |a| ==>
               RelAtPos(a, ao, p) == RelAtPos(b, bo, p) && RelAtPos(a, ai, p) == RelAtPos(b, bi, p)
    requires x < |a|
    ensures j < |b| && bo[j] == ma[x] && ma[x] == ao[IndexOf(ai, x)] && b[j] == a[IndexOf(ai, x)]
    ensures Inverse(mb)[ma[x]] == bi[j] && RelAtPos(a, ai, bi[j]) == RelAtPos(a, ai, x)
  {
    var i := IndexOf(ai, x);
    assert ma[ai[i]] == ao[i];
    var p := ao[i];
    j := IndexOf(bo, p);
    assert IndexOf(ao, p) == i;
    assert RelAtPos(a, ao, p) == RelAtPos(b, bo, p);
    assert mb[bi[j]] == bo[j];
    assert IndexOf(bi, bi[j]) == j;
    assert RelAtPos(a, ai, bi[j]) == RelAtPos(b, bi, bi[j]);
  }

  /** The map is determined by the CSRs. */
  lemma PairMapOfTopology(out: Adjacency, inn: Adjacency, n: nat, a: seq<Rel>, b: seq<Rel>)
    requires Consistent(out, inn, a, n) && Consistent(out, inn, b, n)
    ensures PairMap(a) == PairMap(b)
  {
    forall q | 0 <= q < |a| ensures PairMap(a)[q] == PairMap(b)[q] {
      MapsAgree(out, inn, n, a, b, q);
    }
  }
}
