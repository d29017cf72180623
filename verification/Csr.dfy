/** The CSR build of `Finalize`: one adjacency direction laid out by counting sort. */
module Csr {
  import opened StableSort

  /** One staged relationship: the endpoints and the type atom. */
  datatype Rel = Rel(src: nat, dst: nat, typ: nat)

  /** Which endpoint owns a relationship's slot (`endpoint` 0 or 1 in the builder). */
  datatype Side = Out | In

  function Owner(r: Rel, d: Side): nat {
    if d.Out? then r.src else r.dst
  }

  function Other(r: Rel, d: Side): nat {
    if d.Out? then r.dst else r.src
  }

  function Owners(rels: seq<Rel>, d: Side): (o: seq<nat>)
    ensures |o| == |rels|
    ensures forall i :: 0 <= i < |rels| ==> o[i] == Owner(rels[i], d)
  {
    seq(|rels|, i requires 0 <= i < |rels| => Owner(rels[i], d))
  }

  /** One direction of a snapshot: node `u` owns positions `offsets[u]..offsets[u + 1]`. */
  datatype Adjacency = Adjacency(offsets: seq<nat>, nbrs: seq<nat>, types: seq<nat>)

  ghost predicate InSpace(rels: seq<Rel>, n: nat) {
    forall i :: 0 <= i < |rels| ==> rels[i].src < n && rels[i].dst < n
  }

  /** `a` holds exactly `rels`, each at its stable rank by owning node. */
  ghost predicate Lays(a: Adjacency, rels: seq<Rel>, d: Side, n: nat) {
    && InSpace(rels, n)
    && |a.offsets| == n + 1
    && |a.nbrs| == |rels| && |a.types| == |rels|
    && (forall u :: 0 <= u <= n ==> a.offsets[u] == CountLess(Owners(rels, d), u))
    && (forall i :: 0 <= i < |rels| ==> Holds(a, Rank(Owners(rels, d), i), rels[i], d))
  }

  ghost predicate Holds(a: Adjacency, pos: nat, r: Rel, d: Side) {
    pos < |a.nbrs| && pos < |a.types| && a.nbrs[pos] == Other(r, d) && a.types[pos] == r.typ
  }

  /** Prefix sums of the degrees. */
  method OffsetsOf(n: nat, deg: seq<nat>, ghost own: seq<nat>) returns (offsets: seq<nat>)
    requires |deg| >= n
    requires forall u :: 0 <= u < n ==> deg[u] == CountEqual(own, u)
    ensures |offsets| == n + 1
    ensures forall u :: 0 <= u <= n ==> offsets[u] == CountLess(own, u)
  {
    var sums := new nat[n + 1];
    sums[0] := 0;
    CountLessAtZero(own);
    for u := 0 to n
      invariant forall v :: 0 <= v <= u ==> sums[v] == CountLess(own, v)
    {
      CountStep(own, u);
      sums[u + 1] := sums[u] + deg[u];
    }
    offsets := sums[..];
  }

  /** Where the next relationship owned by `u` goes once `own[..idx]` has been placed. */
  ghost function NextSlot(own: seq<nat>, idx: nat, u: nat): nat
    requires idx <= |own|
  {
    CountLess(own, u) + CountEqual(own[..idx], u)
  }

  lemma NextSlotStep(own: seq<nat>, idx: nat)
    requires idx < |own|
    ensures NextSlot(own, idx, own[idx]) == Rank(own, idx) < |own|
    ensures forall j :: 0 <= j < idx ==> Rank(own, j) != Rank(own, idx)
    ensures forall u :: NextSlot(own, idx + 1, u) == NextSlot(own, idx, u) + if u == own[idx] then 1 else 0
  {
    RankInBlock(own, idx);
    forall j | 0 <= j < idx ensures Rank(own, j) != Rank(own, idx) {
      RankOrder(own, j, idx);
      RankOrder(own, idx, j);
    }
    assert own[..idx + 1][..idx] == own[..idx];
  }

  /** The fill pass after `idx` relationships, over the contents of its four buffers. */
  ghost predicate Filled(nbrs: seq<nat>, types: seq<nat>, slots: seq<nat>, next: seq<nat>,
                         rels: seq<Rel>, d: Side, idx: nat)
  {
    var own := Owners(rels, d);
    && idx <= |rels| == |nbrs| == |types| == |slots|
    && (forall u :: 0 <= u < |next| ==> next[u] == NextSlot(own, idx, u))
    && (forall j :: 0 <= j < idx ==>
        slots[j] == Rank(own, j) < |rels| && nbrs[slots[j]] == Other(rels[j], d) && types[slots[j]] == rels[j].typ)
  }

  lemma FillStep(nbrs: seq<nat>, types: seq<nat>, slots: seq<nat>, next: seq<nat>,
                 rels: seq<Rel>, d: Side, idx: nat)
    requires Filled(nbrs, types, slots, next, rels, d, idx)
    requires idx < |rels| && Owner(rels[idx], d) < |next|
    ensures next[Owner(rels[idx], d)] < |rels|
    ensures var pos := next[Owner(rels[idx], d)];
            Filled(nbrs[pos := Other(rels[idx], d)], types[pos := rels[idx].typ], slots[idx := pos],
                   next[Owner(rels[idx], d) := pos + 1], rels, d, idx + 1)
  {
    NextSlotStep(Owners(rels, d), idx);
  }

  /** One turn of the fill pass: the relationship goes to its owner's next slot. */
  method PlaceRel(nbrs: array<nat>, types: array<nat>, slots: array<nat>, next: array<nat>,
                  rels: seq<Rel>, d: Side, idx: nat)
    requires nbrs != types && nbrs != slots && nbrs != next && types != slots && types != next && slots != next
    requires Filled(nbrs[..], types[..], slots[..], next[..], rels, d, idx)
    requires idx < |rels| && Owner(rels[idx], d) < next.Length
    modifies nbrs, types, slots, next
    ensures Filled(nbrs[..], types[..], slots[..], next[..], rels, d, idx + 1)
  {
    var owner := Owner(rels[idx], d);
    var pos := next[owner];
    ghost var nbrs0, types0, slots0, next0 := nbrs[..], types[..], slots[..], next[..];
    FillStep(nbrs0, types0, slots0, next0, rels, d, idx);
    nbrs[pos] := Other(rels[idx], d);
    types[pos] := rels[idx].typ;
    slots[idx] := pos;
    next[owner] := pos + 1;
    assert nbrs[..] == nbrs0[pos := Other(rels[idx], d)];
    assert types[..] == types0[pos := rels[idx].typ];
    assert slots[..] == slots0[idx := pos];
    assert next[..] == next0[owner := pos + 1];
  }

  lemma FilledLays(a: Adjacency, slots: seq<nat>, next: seq<nat>, rels: seq<Rel>, d: Side, n: nat)
    requires Filled(a.nbrs, a.types, slots, next, rels, d, |rels|)
    requires InSpace(rels, n) && |a.offsets| == n + 1
    requires forall u :: 0 <= u <= n ==> a.offsets[u] == CountLess(Owners(rels, d), u)
    ensures Lays(a, rels, d, n)
    ensures slots == Ranks(Owners(rels, d))
  {
  }

  /** The counting-sort build: offsets from the degrees, then one fill pass in staging order. */
  method BuildCsrDirection(n: nat, rels: seq<Rel>, deg: seq<nat>, d: Side)
    returns (a: Adjacency, relToCsr: seq<nat>)
    requires InSpace(rels, n)
    requires |deg| >= n
    requires forall u :: 0 <= u < n ==> deg[u] == CountEqual(Owners(rels, d), u)
    ensures Lays(a, rels, d, n)
    ensures relToCsr == Ranks(Owners(rels, d))
  {
    var m := |rels|;
    var offsets := OffsetsOf(n, deg, Owners(rels, d));
    var nbrs, types, slots, next := new nat[m], new nat[m], new nat[m], new nat[n];
    forall u | 0 <= u < n { next[u] := offsets[u]; }
    for idx := 0 to m
      invariant Filled(nbrs[..], types[..], slots[..], next[..], rels, d, idx)
    {
      PlaceRel(nbrs, types, slots, next, rels, d, idx);
    }
    a := Adjacency(offsets, nbrs[..], types[..]);
    relToCsr := slots[..];
    FilledLays(a, relToCsr, next[..], rels, d, n);
  }

  /** The degree counters `addRelTyped` keeps, as a pass over the staged relationships. */
  method Degrees(n: nat, rels: seq<Rel>, d: Side) returns (deg: seq<nat>)
    requires InSpace(rels, n)
    ensures |deg| == n
    ensures forall u :: 0 <= u < n ==> deg[u] == CountEqual(Owners(rels, d), u)
  {
    ghost var own := Owners(rels, d);
    var counts := new nat[n](_ => 0);
    for i := 0 to |rels|
      invariant forall u :: 0 <= u < n ==> counts[u] == CountEqual(own[..i], u)
    {
      assert own[..i + 1][..i] == own[..i];
      var u := Owner(rels[i], d);
      counts[u] := counts[u] + 1;
    }
    assert own[..|rels|] == own;
    deg := counts[..];
  }

  /** A staged sequence has one layout, so "rebuilds byte-identically" is `Lays` twice. */
  lemma LayoutIsUnique(a: Adjacency, b: Adjacency, rels: seq<Rel>, d: Side, n: nat)
    requires Lays(a, rels, d, n) && Lays(b, rels, d, n)
    ensures a == b
  {
    var own := Owners(rels, d);
    var ranks := Ranks(own);
    RanksPermute(own);
    forall p | 0 <= p < |rels| ensures a.nbrs[p] == b.nbrs[p] && a.types[p] == b.types[p] {
      var i := IndexOf(ranks, p);
      assert Holds(a, Rank(own, i), rels[i], d) && Holds(b, Rank(own, i), rels[i], d);
    }
  }

  /** The relationships node `u` owns, in staging order. */
  function StagedAt(rels: seq<Rel>, d: Side, u: nat): seq<Rel> {
    if rels == [] then []
    else
      var init := StagedAt(rels[..|rels| - 1], d, u);
      if Owner(rels[|rels| - 1], d) == u then init + [rels[|rels| - 1]] else init
  }

  lemma {:induction false} StagedAtIndex(rels: seq<Rel>, d: Side, u: nat)
    ensures |StagedAt(rels, d, u)| == CountEqual(Owners(rels, d), u)
    ensures forall r :: r in StagedAt(rels, d, u) <==> r in rels && Owner(r, d) == u
  {
    if rels != [] {
      var init := rels[..|rels| - 1];
      StagedAtIndex(init, d, u);
      assert Owners(rels, d)[..|rels| - 1] == Owners(init, d);
      assert rels == init + [rels[|rels| - 1]];
    }
  }

  /** Position `offsets[u] + c` holds the `c`-th relationship staged at `u`: each node's range
      lists its relationships in insertion order and nothing else. */
  lemma {:induction false} RangeListsStaged(a: Adjacency, rels: seq<Rel>, d: Side, n: nat, u: nat, c: nat)
    requires Lays(a, rels, d, n) && u < n
    requires c < |StagedAt(rels, d, u)|
    ensures a.offsets[u + 1] == a.offsets[u] + |StagedAt(rels, d, u)|
    ensures Holds(a, a.offsets[u] + c, StagedAt(rels, d, u)[c], d)
  {
    RangeWidth(a, rels, d, n, u);
    var i := StagedIndex(rels, d, u, c);
    StagedRank(rels, d, u, i, c);
    assert Holds(a, Rank(Owners(rels, d), i), rels[i], d);
  }

  lemma RangeWidth(a: Adjacency, rels: seq<Rel>, d: Side, n: nat, u: nat)
    requires Lays(a, rels, d, n) && u < n
    ensures a.offsets[u + 1] == a.offsets[u] + |StagedAt(rels, d, u)|
  {
    StagedAtIndex(rels, d, u);
    CountStep(Owners(rels, d), u);
  }

  lemma StagedRank(rels: seq<Rel>, d: Side, u: nat, i: nat, c: nat)
    requires i < |rels| && Owner(rels[i], d) == u && CountEqual(Owners(rels, d)[..i], u) == c
    ensures Rank(Owners(rels, d), i) == CountLess(Owners(rels, d), u) + c
  {
  }

  /** The staging index of the `c`-th relationship owned by `u`. */
  lemma {:induction false} StagedIndex(rels: seq<Rel>, d: Side, u: nat, c: nat) returns (i: nat)
    requires c < |StagedAt(rels, d, u)|
    ensures i < |rels| && Owner(rels[i], d) == u
    ensures rels[i] == StagedAt(rels, d, u)[c]
    ensures CountEqual(Owners(rels, d)[..i], u) == c
  {
    var last := |rels| - 1;
    var init := rels[..last];
    StagedAtIndex(init, d, u);
    assert Owners(rels, d)[..last] == Owners(init, d);
    if c < |StagedAt(init, d, u)| {
      i := StagedIndex(init, d, u, c);
      assert Owners(rels, d)[..i] == Owners(init, d)[..i];
    } else {
      i := last;
    }
  }

  /** Relationships staged after a prefix land after it inside every node's range, and leave
      the prefix's place within that range alone. */
  lemma AppendedLandAfter(base: seq<Rel>, more: seq<Rel>, d: Side, i: nat, j: nat)
    requires i < |base| <= j < |base| + |more|
    requires Owner(base[i], d) == Owner((base + more)[j], d)
    ensures Rank(Owners(base + more, d), i) < Rank(Owners(base + more, d), j)
    ensures Rank(Owners(base + more, d), i) - CountLess(Owners(base + more, d), Owner(base[i], d))
         == Rank(Owners(base, d), i) - CountLess(Owners(base, d), Owner(base[i], d))
  {
    RankOrder(Owners(base + more, d), i, j);
    assert Owners(base + more, d)[..i] == Owners(base, d)[..i];
  }
}
