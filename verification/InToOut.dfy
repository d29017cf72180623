/** The incoming -> outgoing position map re-derived from the two CSRs alone, by three stable
    counting passes over each side. */
module InToOut {
  import opened StableSort
  import opened Csr

  // ---- one stable pass -------------------------------------------------------------------

  /** The keys met when walking `p` in order. */
  function Along(key: seq<nat>, p: seq<nat>): (a: seq<nat>)
    requires forall i :: 0 <= i < |p| ==> p[i] < |key|
    ensures |a| == |p|
    ensures forall i :: 0 <= i < |p| ==> a[i] == key[p[i]]
  {
    seq(|p|, i requires 0 <= i < |p| => key[p[i]])
  }

  ghost predicate Keyed(p: seq<nat>, key: seq<nat>, nKeys: nat) {
    forall i :: 0 <= i < |p| ==> p[i] < |key| && key[p[i]] < nKeys
  }

  /** `r` is `p` with every entry moved to its stable rank by `key`. */
  ghost predicate Scattered(p: seq<nat>, r: seq<nat>, key: seq<nat>)
    requires forall i :: 0 <= i < |p| ==> p[i] < |key|
  {
    |r| == |p| &&
    forall i :: 0 <= i < |p| ==> ScatteredAt(p, r, Rank(Along(key, p), i), i)
  }

  ghost predicate ScatteredAt(p: seq<nat>, r: seq<nat>, slot: nat, i: nat)
    requires i < |p|
  {
    slot < |r| && r[slot] == p[i]
  }

  /** First half of a pass: bucket starts by key. */
  method BucketStarts(positions: array<nat>, counts: array<nat>, nKeys: nat, key: seq<nat>)
    requires positions != counts && nKeys < counts.Length
    requires Keyed(positions[..], key, nKeys)
    modifies counts
    ensures forall k :: 0 <= k <= nKeys ==> counts[k] == CountLess(Along(key, positions[..]), k)
  {
    ghost var p := positions[..];
    ghost var a := Along(key, p);
    for k := 0 to nKeys + 1
      invariant forall j :: 0 <= j < k ==> counts[j] == 0
    {
      counts[k] := 0;
    }
    for i := 0 to positions.Length
      invariant positions[..] == p
      invariant counts[0] == 0
      invariant forall k :: 0 <= k < nKeys ==> counts[k + 1] == CountEqual(a[..i], k)
    {
      assert a[..i + 1][..i] == a[..i];
      assert p[i] == positions[i];
      var k := key[positions[i]];
      counts[k + 1] := counts[k + 1] + 1;
    }
    assert a[..positions.Length] == a;
    CountLessAtZero(a);
    for k := 1 to nKeys + 1
      invariant positions[..] == p
      invariant forall j :: 0 <= j < k ==> counts[j] == CountLess(a, j)
      invariant forall j :: k <= j <= nKeys ==> counts[j] == CountEqual(a, j - 1)
    {
      CountStep(a, k - 1);
      counts[k] := counts[k] + counts[k - 1];
    }
  }

  /** One pass: each position to its key's next free slot in `tmp`, then all of them back. */
  method CountingPass(positions: array<nat>, tmp: array<nat>, counts: array<nat>, nKeys: nat, key: seq<nat>)
    requires positions != tmp && positions != counts && tmp != counts
    requires tmp.Length == positions.Length && nKeys < counts.Length
    requires Keyed(positions[..], key, nKeys)
    modifies positions, tmp, counts
    ensures Scattered(old(positions[..]), positions[..], key)
  {
    ghost var p := positions[..];
    ghost var a := Along(key, p);
    BucketStarts(positions, counts, nKeys, key);
    for i := 0 to positions.Length
      invariant positions[..] == p
      invariant forall k :: 0 <= k < nKeys ==> counts[k] == NextSlot(a, i, k)
      invariant forall j :: 0 <= j < i ==> ScatteredAt(p, tmp[..], Rank(a, j), j)
    {
      NextSlotStep(a, i);
      assert p[i] == positions[i];
      var k := key[positions[i]];
      tmp[counts[k]] := positions[i];
      counts[k] := counts[k] + 1;
    }
    ghost var r := tmp[..];
    forall i | 0 <= i < positions.Length { positions[i] := tmp[i]; }
    assert positions[..] == r;
  }

  // ---- the order three passes leave ---------------------------------------------------------

  /** Lexicographic order on positions by the key columns `ks`, ties by position. */
  ghost predicate LexLess(ks: seq<seq<nat>>, a: nat, b: nat)
    requires forall k :: k in ks ==> a < |k| && b < |k|
  {
    if ks == [] then a < b
    else ks[0][a] < ks[0][b] || (ks[0][a] == ks[0][b] && LexLess(ks[1..], a, b))
  }

  ghost predicate Columns(ks: seq<seq<nat>>, m: nat) {
    forall k :: k in ks ==> |k| == m
  }

  ghost predicate LexSorted(ks: seq<seq<nat>>, p: seq<nat>)
    requires Columns(ks, |p|) && IsPerm(p)
  {
    forall i, j :: 0 <= i < j < |p| ==> LexLess(ks, p[i], p[j])
  }

  /** A stable pass puts its key in front of whatever order was there. */
  lemma PassPrependsKey(p: seq<nat>, r: seq<nat>, key: seq<nat>, ks: seq<seq<nat>>)
    requires IsPerm(p) && |key| == |p| && Columns(ks, |p|) && LexSorted(ks, p)
    requires Scattered(p, r, key)
    ensures IsPerm(r) && Columns([key] + ks, |r|) && LexSorted([key] + ks, r)
  {
    var a := Along(key, p);
    var ranks := Ranks(a);
    RanksPermute(a);
    assert ([key] + ks)[1..] == ks;
    forall x | 0 <= x < |r| ensures r[x] < |r| {
      var i := IndexOf(ranks, x);
      assert ScatteredAt(p, r, Rank(a, i), i);
    }
    forall x, y | 0 <= x < y < |r|
      ensures r[x] != r[y]
      ensures r[x] < |p| && r[y] < |p| && LexLess([key] + ks, r[x], r[y])
    {
      var i, j := IndexOf(ranks, x), IndexOf(ranks, y);
      assert ScatteredAt(p, r, Rank(a, i), i) && ScatteredAt(p, r, Rank(a, j), j);
      RankOrder(a, i, j);
    }
  }

  /** Sorting by the key columns, least significant first, from the identity. */
  method RadixOrder(m: nat, tmp: array<nat>, counts: array<nat>,
                    first: seq<nat>, nFirst: nat, second: seq<nat>, third: seq<nat>, n: nat)
    returns (sorted: seq<nat>)
    requires tmp != counts && tmp.Length == m && nFirst < counts.Length && n < counts.Length
    requires |first| == |second| == |third| == m
    requires forall p :: 0 <= p < m ==> first[p] < nFirst && second[p] < n && third[p] < n
    modifies tmp, counts
    ensures |sorted| == m && IsPerm(sorted)
    ensures LexSorted([third, second, first], sorted)
  {
    var positions := new nat[m](i => i);
    ghost var p0 := positions[..];
    CountingPass(positions, tmp, counts, nFirst, first);
    ghost var p1 := positions[..];
    FirstPass(p0, p1, first);
    CountingPass(positions, tmp, counts, n, second);
    ghost var p2 := positions[..];
    SecondPass(p1, p2, first, second);
    CountingPass(positions, tmp, counts, n, third);
    sorted := positions[..];
    ThirdPass(p2, sorted, first, second, third);
  }

  lemma FirstPass(p: seq<nat>, r: seq<nat>, first: seq<nat>)
    requires IsPerm(p) && |first| == |p| && (forall i :: 0 <= i < |p| ==> p[i] == i) && Scattered(p, r, first)
    ensures |r| == |p| && IsPerm(r) && LexSorted([first], r)
  {
    PassPrependsKey(p, r, first, []);
    assert [first] + [] == [first];
  }

  lemma SecondPass(p: seq<nat>, r: seq<nat>, first: seq<nat>, second: seq<nat>)
    requires IsPerm(p) && |first| == |second| == |p| && LexSorted([first], p) && Scattered(p, r, second)
    ensures |r| == |p| && IsPerm(r) && LexSorted([second, first], r)
  {
    PassPrependsKey(p, r, second, [first]);
    assert [second] + [first] == [second, first];
  }

  lemma ThirdPass(p: seq<nat>, r: seq<nat>, first: seq<nat>, second: seq<nat>, third: seq<nat>)
    requires IsPerm(p) && |first| == |second| == |third| == |p| && LexSorted([second, first], p) && Scattered(p, r, third)
    ensures |r| == |p| && IsPerm(r) && LexSorted([third, second, first], r)
  {
    PassPrependsKey(p, r, third, [second, first]);
    assert [third] + [second, first] == [third, second, first];
  }

  // ---- pairing the two directions -------------------------------------------------------------

  /** What the code needs of one direction before it can index through it. */
  ghost predicate WellFormed(a: Adjacency, n: nat) {
    && |a.offsets| == n + 1 && a.offsets[0] == 0 && a.offsets[n] == |a.nbrs| == |a.types|
    && (forall u, v :: 0 <= u <= v <= n ==> a.offsets[u] <= a.offsets[v])
    && (forall p :: 0 <= p < |a.nbrs| ==> a.nbrs[p] < n)
  }

  ghost predicate OwnsSlot(offsets: seq<nat>, u: nat, p: nat) {
    u + 1 < |offsets| && offsets[u] <= p < offsets[u + 1]
  }

  /** Expands an offsets array to the owning node of each position. */
  method OwnersOf(a: Adjacency, n: nat) returns (owners: seq<nat>)
    requires WellFormed(a, n)
    ensures |owners| == |a.nbrs|
    ensures forall p :: 0 <= p < |owners| ==> owners[p] < n
    ensures forall u: nat, p :: 0 <= p < |owners| && OwnsSlot(a.offsets, u, p) ==> owners[p] == u
    ensures forall p :: 0 <= p < |owners| ==> OwnsSlot(a.offsets, owners[p], p)
  {
    owners := [];
    for u := 0 to n
      invariant |owners| == a.offsets[u]
      invariant forall p :: 0 <= p < |owners| ==> owners[p] < n && OwnsSlot(a.offsets, owners[p], p)
    {
      var p := a.offsets[u];
      while p < a.offsets[u + 1]
        invariant a.offsets[u] <= p <= a.offsets[u + 1] && |owners| == p
        invariant forall q :: 0 <= q < p ==> owners[q] < n && OwnsSlot(a.offsets, owners[q], q)
      {
        owners, p := owners + [u], p + 1;
      }
    }
    forall u: nat, p | 0 <= p < |owners| && OwnsSlot(a.offsets, u, p) ensures owners[p] == u {
      assert OwnsSlot(a.offsets, owners[p], p);
    }
  }

  method MaxType(types: seq<nat>) returns (top: nat)
    ensures forall p :: 0 <= p < |types| ==> types[p] <= top
    ensures top == 0 || top in types
  {
    top := 0;
    for p := 0 to |types|
      invariant forall q :: 0 <= q < p ==> types[q] <= top
      invariant top == 0 || top in types
    {
      if types[p] > top { top := types[p]; }
    }
  }

  /** The map sends every relationship's incoming position to that relationship's own outgoing
      position. */
  ghost predicate PairsRels(inToOut: seq<nat>, rels: seq<Rel>) {
    |inToOut| == |rels| &&
    forall i :: 0 <= i < |rels| ==> PairsAt(inToOut, Rank(Owners(rels, In), i), Rank(Owners(rels, Out), i))
  }

  ghost predicate PairsAt(inToOut: seq<nat>, inPos: nat, outPos: nat) {
    inPos < |inToOut| && inToOut[inPos] == outPos
  }

  method ComputeInToOut(out: Adjacency, inn: Adjacency, n: nat) returns (inToOut: seq<nat>)
    requires WellFormed(out, n) && WellFormed(inn, n) && |out.nbrs| == |inn.nbrs|
    requires forall q :: 0 <= q < |inn.types| ==> inn.types[q] in out.types
    ensures |inToOut| == |out.nbrs| && IsPerm(inToOut)
    ensures forall rels :: Lays(out, rels, Out, n) && Lays(inn, rels, In, n) ==> PairsRels(inToOut, rels)
  {
    var m := |out.nbrs|;
    var outSrc := OwnersOf(out, n);
    var inDst := OwnersOf(inn, n);
    var maxType := MaxType(out.types);
    var tmp := new nat[m];
    var counts := new nat[(if n < maxType + 1 then maxType + 1 else n) + 1];
    forall q | 0 <= q < m ensures inn.types[q] <= maxType {
      var p :| 0 <= p < m && out.types[p] == inn.types[q];
    }
    var outPos := RadixOrder(m, tmp, counts, out.types, maxType + 1, out.nbrs, outSrc, n);
    var inPos := RadixOrder(m, tmp, counts, inn.types, maxType + 1, inDst, inn.nbrs, n);
    inToOut := Zip(inPos, outPos);
    forall rels | Lays(out, rels, Out, n) && Lays(inn, rels, In, n) ensures PairsRels(inToOut, rels) {
      SideReads(out, rels, Out, n, outSrc);
      SideReads(inn, rels, In, n, inDst);
      ZipPairsRels(rels, outSrc, out.nbrs, out.types, outPos, inn.nbrs, inDst, inn.types, inPos, inToOut);
    }
  }

  /** `r[inPos[k]] := outPos[k]` for every `k`. */
  method Zip(inPos: seq<nat>, outPos: seq<nat>) returns (r: seq<nat>)
    requires IsPerm(inPos) && IsPerm(outPos) && |inPos| == |outPos|
    ensures |r| == |inPos| && IsPerm(r)
    ensures forall k :: 0 <= k < |inPos| ==> r[inPos[k]] == outPos[k]
  {
    var buf := new nat[|inPos|];
    for k := 0 to |inPos|
      invariant forall j :: 0 <= j < k ==> buf[inPos[j]] == outPos[j]
    {
      buf[inPos[k]] := outPos[k];
    }
    r := buf[..];
    ghost var at := Inverse(inPos);
    forall x | 0 <= x < |r| ensures r[x] == outPos[at[x]] {
      assert r[inPos[at[x]]] == outPos[at[x]];
    }
  }

  /** The common key of the two sides: source, then destination, then type, then staging index. */
  ghost predicate KeyLess(rels: seq<Rel>, i: nat, j: nat)
    requires i < |rels| && j < |rels|
  {
    var x, y := rels[i], rels[j];
    x.src < y.src ||
    (x.src == y.src && (x.dst < y.dst ||
                        (x.dst == y.dst && (x.typ < y.typ || (x.typ == y.typ && i < j)))))
  }

  /** The key columns read relationship `i`'s own fields at its position. */
  ghost predicate Reads(rels: seq<Rel>, d: Side, src: seq<nat>, dst: seq<nat>, typ: seq<nat>) {
    |src| == |dst| == |typ| == |rels| &&
    forall i :: 0 <= i < |rels| ==> ReadsAt(rels[i], Rank(Owners(rels, d), i), src, dst, typ)
  }

  ghost predicate ReadsAt(r: Rel, p: nat, src: seq<nat>, dst: seq<nat>, typ: seq<nat>) {
    p < |src| && p < |dst| && p < |typ| && src[p] == r.src && dst[p] == r.dst && typ[p] == r.typ
  }

  lemma OwnersRead(a: Adjacency, rels: seq<Rel>, d: Side, n: nat, owners: seq<nat>, i: nat)
    requires Lays(a, rels, d, n) && |owners| == |a.nbrs| && i < |rels|
    requires forall u: nat, p :: 0 <= p < |owners| && OwnsSlot(a.offsets, u, p) ==> owners[p] == u
    ensures Rank(Owners(rels, d), i) < |owners|
    ensures owners[Rank(Owners(rels, d), i)] == Owner(rels[i], d)
  {
    RankInBlock(Owners(rels, d), i);
    assert OwnsSlot(a.offsets, Owner(rels[i], d), Rank(Owners(rels, d), i));
  }

  lemma LexLess3(src: seq<nat>, dst: seq<nat>, typ: seq<nat>, p: nat, q: nat)
    requires p < |src| == |dst| == |typ| && q < |src|
    ensures LexLess([src, dst, typ], p, q) <==>
            (src[p] < src[q] ||
             (src[p] == src[q] && (dst[p] < dst[q] ||
                                   (dst[p] == dst[q] && (typ[p] < typ[q] || (typ[p] == typ[q] && p < q))))))
  {
    assert [src, dst, typ][1..] == [dst, typ];
    assert [dst, typ][1..] == [typ];
    assert [typ][1..] == [];
    assert LexLess([typ], p, q) <==> (typ[p] < typ[q] || (typ[p] == typ[q] && p < q));
    assert LexLess([dst, typ], p, q) <==> (dst[p] < dst[q] || (dst[p] == dst[q] && LexLess([typ], p, q)));
  }

  /** A side's sorted positions compare exactly as `KeyLess` on the relationships there. */
  lemma SideOrder(rels: seq<Rel>, d: Side, src: seq<nat>, dst: seq<nat>, typ: seq<nat>, i: nat, j: nat)
    requires Reads(rels, d, src, dst, typ)
    requires i < |rels| && j < |rels|
    ensures Rank(Owners(rels, d), i) < |rels| && Rank(Owners(rels, d), j) < |rels|
    ensures LexLess([src, dst, typ], Rank(Owners(rels, d), i), Rank(Owners(rels, d), j)) <==> KeyLess(rels, i, j)
  {
    var own := Owners(rels, d);
    var p, q := Rank(own, i), Rank(own, j);
    assert ReadsAt(rels[i], p, src, dst, typ) && ReadsAt(rels[j], q, src, dst, typ);
    RankOrder(own, i, j);
    LexLess3(src, dst, typ, p, q);
  }

  /** Where relationship `i` sits in a side's sorted order. */
  ghost function SortedIndex(rels: seq<Rel>, d: Side, sorted: seq<nat>): (s: seq<nat>)
    requires IsPerm(sorted) && |sorted| == |rels|
    ensures |s| == |rels|
    ensures forall i :: 0 <= i < |rels| ==> s[i] < |rels| && sorted[s[i]] == Rank(Owners(rels, d), i)
  {
    RanksPermute(Owners(rels, d));
    var ranks := Ranks(Owners(rels, d));
    seq(|rels|, i requires 0 <= i < |rels| => IndexOf(sorted, ranks[i]))
  }

  lemma SortedIndexAscends(rels: seq<Rel>, d: Side, src: seq<nat>, dst: seq<nat>, typ: seq<nat>, sorted: seq<nat>,
                           i: nat, j: nat)
    requires IsPerm(sorted) && |sorted| == |rels| && i < |rels| && j < |rels|
    requires Reads(rels, d, src, dst, typ) && LexSorted([src, dst, typ], sorted)
    requires SortedIndex(rels, d, sorted)[i] < SortedIndex(rels, d, sorted)[j]
    ensures KeyLess(rels, i, j)
  {
    var s := SortedIndex(rels, d, sorted);
    SideOrder(rels, d, src, dst, typ, i, j);
    assert LexLess([src, dst, typ], sorted[s[i]], sorted[s[j]]);
  }

  /** Two permutations ascending along `KeyLess` are one. */
  lemma AscendingAgree(rels: seq<Rel>, a: seq<nat>, b: seq<nat>)
    requires IsPerm(a) && IsPerm(b) && |a| == |b| == |rels|
    requires forall i, j :: 0 <= i < |a| && 0 <= j < |a| && a[i] < a[j] ==> KeyLess(rels, i, j)
    requires forall i, j :: 0 <= i < |b| && 0 <= j < |b| && b[i] < b[j] ==> KeyLess(rels, i, j)
    ensures a == b
  {
    forall i, j | 0 <= i < |a| && 0 <= j < |a| ensures a[i] < a[j] <==> b[i] < b[j] {
      assert KeyLess(rels, i, j) ==> !KeyLess(rels, j, i);
    }
    SameOrderSamePerm(a, b);
  }

  lemma SortedIndexPermutes(rels: seq<Rel>, d: Side, sorted: seq<nat>)
    requires IsPerm(sorted) && |sorted| == |rels|
    ensures IsPerm(SortedIndex(rels, d, sorted))
  {
    RanksPermute(Owners(rels, d));
    var s, ranks := SortedIndex(rels, d, sorted), Ranks(Owners(rels, d));
    forall i, j | 0 <= i < j < |s| ensures s[i] != s[j] {
      assert ranks[i] != ranks[j];
    }
  }

  lemma SideReads(a: Adjacency, rels: seq<Rel>, d: Side, n: nat, owners: seq<nat>)
    requires Lays(a, rels, d, n) && |owners| == |rels|
    requires forall u: nat, p :: 0 <= p < |owners| && OwnsSlot(a.offsets, u, p) ==> owners[p] == u
    ensures d.Out? ==> Reads(rels, d, owners, a.nbrs, a.types)
    ensures d.In? ==> Reads(rels, d, a.nbrs, owners, a.types)
  {
    forall i | 0 <= i < |rels|
      ensures d.Out? ==> ReadsAt(rels[i], Rank(Owners(rels, d), i), owners, a.nbrs, a.types)
      ensures d.In? ==> ReadsAt(rels[i], Rank(Owners(rels, d), i), a.nbrs, owners, a.types)
    {
      OwnersRead(a, rels, d, n, owners, i);
      assert Holds(a, Rank(Owners(rels, d), i), rels[i], d);
    }
  }

  /** Both sides end in one `(src, dst, type)` group order, so zipping them pairs each
      relationship with itself, the k-th parallel one with the k-th. */
  lemma ZipPairsRels(rels: seq<Rel>, outSrc: seq<nat>, outDst: seq<nat>, outTyp: seq<nat>, outPos: seq<nat>,
                     inSrc: seq<nat>, inDst: seq<nat>, inTyp: seq<nat>, inPos: seq<nat>, inToOut: seq<nat>)
    requires |outPos| == |inPos| == |inToOut| == |rels|
    requires Reads(rels, Out, outSrc, outDst, outTyp) && Reads(rels, In, inSrc, inDst, inTyp)
    requires IsPerm(outPos) && LexSorted([outSrc, outDst, outTyp], outPos)
    requires IsPerm(inPos) && LexSorted([inSrc, inDst, inTyp], inPos)
    requires forall k :: 0 <= k < |inPos| ==> inToOut[inPos[k]] == outPos[k]
    ensures PairsRels(inToOut, rels)
  {
    var a, b := SortedIndex(rels, Out, outPos), SortedIndex(rels, In, inPos);
    SortedIndexPermutes(rels, Out, outPos);
    SortedIndexPermutes(rels, In, inPos);
    forall i, j | 0 <= i < |rels| && 0 <= j < |rels|
      ensures a[i] < a[j] ==> KeyLess(rels, i, j)
      ensures b[i] < b[j] ==> KeyLess(rels, i, j)
    {
      if a[i] < a[j] { SortedIndexAscends(rels, Out, outSrc, outDst, outTyp, outPos, i, j); }
      if b[i] < b[j] { SortedIndexAscends(rels, In, inSrc, inDst, inTyp, inPos, i, j); }
    }
    AscendingAgree(rels, a, b);
    forall i | 0 <= i < |rels| ensures PairsAt(inToOut, Rank(Owners(rels, In), i), Rank(Owners(rels, Out), i)) {
      assert inToOut[inPos[b[i]]] == outPos[a[i]];
    }
  }

  /** A laid-out direction meets everything the pairing asks of its input. */
  lemma LaysWellFormed(a: Adjacency, rels: seq<Rel>, d: Side, n: nat)
    requires Lays(a, rels, d, n)
    ensures WellFormed(a, n)
  {
    var own := Owners(rels, d);
    CountLessEnds(own, n);
    forall u, v | 0 <= u <= v <= n ensures a.offsets[u] <= a.offsets[v] {
      CountLessMonotone(own, u, v);
    }
    forall p | 0 <= p < |rels| ensures a.nbrs[p] < n {
      var i := RelAt(a, rels, d, n, p);
    }
  }

  /** Every position of a laid-out direction is some staged relationship's. */
  lemma RelAt(a: Adjacency, rels: seq<Rel>, d: Side, n: nat, p: nat) returns (i: nat)
    requires Lays(a, rels, d, n) && p < |rels|
    ensures i < |rels| && Rank(Owners(rels, d), i) == p && Holds(a, p, rels[i], d)
  {
    RanksPermute(Owners(rels, d));
    i := IndexOf(Ranks(Owners(rels, d)), p);
  }

  lemma SameTypesBothWays(out: Adjacency, inn: Adjacency, rels: seq<Rel>, n: nat)
    requires Lays(out, rels, Out, n) && Lays(inn, rels, In, n)
    ensures forall q :: 0 <= q < |inn.types| ==> inn.types[q] in out.types
  {
    forall q | 0 <= q < |inn.types| ensures inn.types[q] in out.types {
      var i := RelAt(inn, rels, In, n, q);
      assert Holds(out, Rank(Owners(rels, Out), i), rels[i], Out);
    }
  }
}
