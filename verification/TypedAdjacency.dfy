/** Single-type adjacency: the per-type CSR, the bucket-hinted run view and the scan by type, each
    against filtering the primary CSR range. */
module TypedAdjacency {
  import opened Csr
  import opened InToOut
  import opened RelTypes

  /** One kept relationship: the neighbor and the position its properties are stored at. */
  datatype Hit = Hit(nbr: nat, pos: nat)

  /** A position mapped to the stored frame, raw where the map does not reach. */
  function Stored(posMap: seq<nat>, k: nat): nat {
    if k < |posMap| then posMap[k] else k
  }

  /** The matching relationships among positions `lo..hi`, in order. */
  function Hits(a: Adjacency, m: RelMatch, posMap: seq<nat>, lo: nat, hi: nat): (r: seq<Hit>)
    requires hi <= |a.nbrs| == |a.types|
    decreases hi
  {
    if lo >= hi then []
    else
      var last := if Matches(m, a.types[hi - 1]) then [Hit(a.nbrs[hi - 1], Stored(posMap, hi - 1))] else [];
      Hits(a, m, posMap, lo, hi - 1) + last
  }

  /** What filtering a node's range by type gives; nothing outside the id space. */
  function HitsAt(a: Adjacency, n: nat, m: RelMatch, posMap: seq<nat>, u: nat): seq<Hit>
    requires WellFormed(a, n)
  {
    if u < n then Hits(a, m, posMap, a.offsets[u], a.offsets[u + 1]) else []
  }

  /** Every node's hits below `u`, node by node. */
  function UpTo(a: Adjacency, n: nat, m: RelMatch, posMap: seq<nat>, u: nat): seq<Hit>
    requires WellFormed(a, n) && u <= n
  {
    if u == 0 then [] else UpTo(a, n, m, posMap, u - 1) + HitsAt(a, n, m, posMap, u - 1)
  }

  lemma {:induction false} UpToIsPrefix(a: Adjacency, n: nat, m: RelMatch, posMap: seq<nat>, u: nat, v: nat)
    requires WellFormed(a, n) && u <= v <= n
    ensures |UpTo(a, n, m, posMap, u)| <= |UpTo(a, n, m, posMap, v)|
    ensures UpTo(a, n, m, posMap, v)[..|UpTo(a, n, m, posMap, u)|] == UpTo(a, n, m, posMap, u)
  {
    if u < v {
      UpToIsPrefix(a, n, m, posMap, u, v - 1);
      PrefixOfSum(UpTo(a, n, m, posMap, v - 1), HitsAt(a, n, m, posMap, v - 1), |UpTo(a, n, m, posMap, u)|);
    }
  }

  lemma PrefixOfSum(x: seq<Hit>, y: seq<Hit>, k: nat)
    requires k <= |x|
    ensures (x + y)[..k] == x[..k]
  {
  }

  /** A node's hits are the slice between its own prefix length and the next. */
  lemma SliceIsHits(a: Adjacency, n: nat, m: RelMatch, posMap: seq<nat>, u: nat)
    requires WellFormed(a, n) && u < n
    ensures |UpTo(a, n, m, posMap, u)| <= |UpTo(a, n, m, posMap, u + 1)| <= |UpTo(a, n, m, posMap, n)|
    ensures UpTo(a, n, m, posMap, n)[|UpTo(a, n, m, posMap, u)|..|UpTo(a, n, m, posMap, u + 1)|]
         == HitsAt(a, n, m, posMap, u)
  {
    UpToIsPrefix(a, n, m, posMap, u + 1, n);
    var lo, hi, all := |UpTo(a, n, m, posMap, u)|, |UpTo(a, n, m, posMap, u + 1)|, UpTo(a, n, m, posMap, n);
    assert all[lo..hi] == all[..hi][lo..];
  }

  /** Parallel arrays hold these hits. */
  ghost predicate Holds(nbrs: seq<nat>, poss: seq<nat>, hits: seq<Hit>) {
    |nbrs| == |poss| == |hits| && forall i :: 0 <= i < |hits| ==> hits[i] == Hit(nbrs[i], poss[i])
  }

  function Nbrs(hits: seq<Hit>): (r: seq<nat>)
    ensures |r| == |hits| && forall i :: 0 <= i < |hits| ==> r[i] == hits[i].nbr
  {
    seq(|hits|, i requires 0 <= i < |hits| => hits[i].nbr)
  }

  /** One node's range, appended hit by hit. */
  method AppendHits(a: Adjacency, types: RelTypes, t: nat, posMap: seq<nat>, lo: nat, hi: nat,
                    nbrs: seq<nat>, poss: seq<nat>, ghost hits: seq<Hit>)
    returns (nbrs': seq<nat>, poss': seq<nat>)
    requires lo <= hi <= |a.nbrs| == |a.types| && SpellsOut(types, a.types) && Holds(nbrs, poss, hits)
    ensures Holds(nbrs', poss', hits + Hits(a, MatchOne(t), posMap, lo, hi))
  {
    nbrs', poss' := nbrs, poss;
    for k := lo to hi
      invariant Holds(nbrs', poss', hits + Hits(a, MatchOne(t), posMap, lo, k))
    {
      if At(types, k) == t {
        nbrs', poss' := nbrs' + [a.nbrs[k]], poss' + [Stored(posMap, k)];
      }
    }
  }

  // ---- the per-type CSR ----------------------------------------------------------------------------------

  datatype TypedCsr = TypedCsr(offsets: seq<nat>, nbrs: seq<nat>, poss: seq<nat>)

  ghost predicate IsTypedCsr(tc: TypedCsr, a: Adjacency, n: nat, t: nat, posMap: seq<nat>)
    requires WellFormed(a, n)
  {
    && |tc.offsets| == n + 1 && Holds(tc.nbrs, tc.poss, UpTo(a, n, MatchOne(t), posMap, n))
    && forall u :: 0 <= u <= n ==> tc.offsets[u] == |UpTo(a, n, MatchOne(t), posMap, u)|
  }

  method BuildTypedCsr(a: Adjacency, n: nat, types: RelTypes, posMap: seq<nat>, t: nat) returns (tc: TypedCsr)
    requires WellFormed(a, n) && SpellsOut(types, a.types)
    ensures IsTypedCsr(tc, a, n, t, posMap)
  {
    var offsets: seq<nat>, nbrs: seq<nat>, poss: seq<nat> := [], [], [];
    for u := 0 to n
      invariant OffsetsHold(offsets, a, n, t, posMap, u)
      invariant Holds(nbrs, poss, UpTo(a, n, MatchOne(t), posMap, u))
    {
      offsets := offsets + [|nbrs|];
      nbrs, poss := AppendHits(a, types, t, posMap, a.offsets[u], a.offsets[u + 1], nbrs, poss,
                               UpTo(a, n, MatchOne(t), posMap, u));
    }
    tc := TypedCsr(offsets + [|nbrs|], nbrs, poss);
    FinishOffsets(offsets, a, n, t, posMap, |nbrs|);
  }

  ghost predicate OffsetsHold(offsets: seq<nat>, a: Adjacency, n: nat, t: nat, posMap: seq<nat>, u: nat)
    requires WellFormed(a, n) && u <= n
  {
    |offsets| == u && forall v :: 0 <= v < u ==> offsets[v] == |UpTo(a, n, MatchOne(t), posMap, v)|
  }

  lemma FinishOffsets(offsets: seq<nat>, a: Adjacency, n: nat, t: nat, posMap: seq<nat>, last: nat)
    requires WellFormed(a, n) && OffsetsHold(offsets, a, n, t, posMap, n) && last == |UpTo(a, n, MatchOne(t), posMap, n)|
    ensures forall u :: 0 <= u <= n ==> (offsets + [last])[u] == |UpTo(a, n, MatchOne(t), posMap, u)|
  {
  }

  /** `relRange`: empty outside the id space. */
  function RelRange(offsets: seq<nat>, u: nat): (nat, nat) {
    if u + 1 < |offsets| then (offsets[u], offsets[u + 1]) else (0, 0)
  }

  /** The view's run for a node is the filtered primary range. */
  lemma TypedCsrRun(tc: TypedCsr, a: Adjacency, n: nat, t: nat, posMap: seq<nat>, u: nat)
    requires WellFormed(a, n) && IsTypedCsr(tc, a, n, t, posMap)
    ensures var (lo, hi) := RelRange(tc.offsets, u);
            && lo <= hi <= |tc.nbrs| == |tc.poss|
            && Holds(tc.nbrs[lo..hi], tc.poss[lo..hi], HitsAt(a, n, MatchOne(t), posMap, u))
  {
    if u < n { SliceIsHits(a, n, MatchOne(t), posMap, u); }
  }

  // ---- the run view -----------------------------------------------------------------------------------

  const BUCKET: nat := 64

  datatype TypedRuns = TypedRuns(nodes: seq<nat>, nbrs: seq<nat>, poss: seq<nat>, hint: seq<nat>)

  /** Where the entries owned by `u` and above begin. */
  function StartOf(a: Adjacency, n: nat, t: nat, posMap: seq<nat>, u: nat): nat
    requires WellFormed(a, n)
  {
    |UpTo(a, n, MatchOne(t), posMap, if u < n then u else n)|
  }

  /** The owners array, against the starts: entry `i` is owned below `u` exactly when it is before
      `u`'s start. */
  ghost predicate OwnersSplit(nodes: seq<nat>, start: nat, u: nat) {
    forall i :: 0 <= i < |nodes| ==> (nodes[i] < u <==> i < start)
  }

  ghost predicate OwnersHold(nodes: seq<nat>, a: Adjacency, n: nat, t: nat, posMap: seq<nat>, to: nat)
    requires WellFormed(a, n) && to <= n
  {
    && |nodes| == |UpTo(a, n, MatchOne(t), posMap, to)| && (forall i :: 0 <= i < |nodes| ==> nodes[i] < to)
    && forall u: nat :: u <= to ==> OwnersSplit(nodes, |UpTo(a, n, MatchOne(t), posMap, u)|, u)
  }

  ghost predicate IsTypedRuns(r: TypedRuns, a: Adjacency, n: nat, t: nat, posMap: seq<nat>)
    requires WellFormed(a, n)
  {
    && Holds(r.nbrs, r.poss, UpTo(a, n, MatchOne(t), posMap, n)) && OwnersHold(r.nodes, a, n, t, posMap, n)
    && |r.hint| == n / BUCKET + 2
    && forall b :: 0 <= b < |r.hint| ==> r.hint[b] == StartOf(a, n, t, posMap, b * BUCKET)
  }

  function Repeat(u: nat, k: nat): (r: seq<nat>)
    ensures |r| == k && forall i :: 0 <= i < k ==> r[i] == u
  {
    seq(k, _ => u)
  }

  lemma OwnersGrow(nodes: seq<nat>, a: Adjacency, n: nat, t: nat, posMap: seq<nat>, u: nat)
    requires WellFormed(a, n) && u < n && OwnersHold(nodes, a, n, t, posMap, u)
    ensures OwnersHold(nodes + Repeat(u, |HitsAt(a, n, MatchOne(t), posMap, u)|), a, n, t, posMap, u + 1)
  {
    var more := nodes + Repeat(u, |HitsAt(a, n, MatchOne(t), posMap, u)|);
    forall v: nat | v <= u + 1 ensures OwnersSplit(more, |UpTo(a, n, MatchOne(t), posMap, v)|, v) {
      if v <= u {
        UpToIsPrefix(a, n, MatchOne(t), posMap, v, u);
        assert OwnersSplit(nodes, |UpTo(a, n, MatchOne(t), posMap, v)|, v);
      }
    }
  }

  lemma StartSplits(nodes: seq<nat>, a: Adjacency, n: nat, t: nat, posMap: seq<nat>, u: nat)
    requires WellFormed(a, n) && OwnersHold(nodes, a, n, t, posMap, n)
    ensures StartOf(a, n, t, posMap, u) <= |nodes| && OwnersSplit(nodes, StartOf(a, n, t, posMap, u), u)
  {
    var v := if u < n then u else n;
    UpToIsPrefix(a, n, MatchOne(t), posMap, v, n);
    assert OwnersSplit(nodes, |UpTo(a, n, MatchOne(t), posMap, v)|, v);
  }

  ghost predicate HintHolds(hint: seq<nat>, a: Adjacency, n: nat, t: nat, posMap: seq<nat>)
    requires WellFormed(a, n)
  {
    forall b :: 0 <= b < |hint| ==> hint[b] == StartOf(a, n, t, posMap, b * BUCKET)
  }

  /** The next bucket begins at entry `i`: everything before it has a smaller owner. */
  lemma HintStep(hint: seq<nat>, nodes: seq<nat>, a: Adjacency, n: nat, t: nat, posMap: seq<nat>, i: nat)
    requires WellFormed(a, n) && OwnersHold(nodes, a, n, t, posMap, n) && HintHolds(hint, a, n, t, posMap) && i <= |nodes|
    requires forall j :: 0 <= j < i ==> nodes[j] < |hint| * BUCKET
    requires i < |nodes| ==> nodes[i] >= |hint| * BUCKET
    ensures HintHolds(hint + [i], a, n, t, posMap)
  {
    StartSplits(nodes, a, n, t, posMap, |hint| * BUCKET);
    StartIs(nodes, StartOf(a, n, t, posMap, |hint| * BUCKET), |hint| * BUCKET, i);
  }

  /** Each bucket's first entry, in one pass over the owners. */
  method BuildHint(nodes: seq<nat>, n: nat, ghost a: Adjacency, ghost t: nat, ghost posMap: seq<nat>) returns (hint: seq<nat>)
    requires WellFormed(a, n) && OwnersHold(nodes, a, n, t, posMap, n)
    ensures |hint| == n / BUCKET + 2 && HintHolds(hint, a, n, t, posMap)
  {
    hint := [];
    for i := 0 to |nodes|
      invariant |hint| <= n / BUCKET + 1 && HintHolds(hint, a, n, t, posMap)
      invariant forall j :: 0 <= j < i ==> nodes[j] < |hint| * BUCKET
    {
      while |hint| <= nodes[i] / BUCKET
        invariant |hint| <= n / BUCKET + 1 && HintHolds(hint, a, n, t, posMap)
        invariant forall j :: 0 <= j < i ==> nodes[j] < |hint| * BUCKET
      {
        HintStep(hint, nodes, a, n, t, posMap, i);
        hint := hint + [i];
      }
    }
    while |hint| < n / BUCKET + 2
      invariant |hint| <= n / BUCKET + 2 && HintHolds(hint, a, n, t, posMap)
      invariant forall j :: 0 <= j < |nodes| ==> nodes[j] < |hint| * BUCKET
    {
      HintStep(hint, nodes, a, n, t, posMap, |nodes|);
      hint := hint + [|nodes|];
    }
  }

  lemma StartIs(nodes: seq<nat>, start: nat, u: nat, i: nat)
    requires start <= |nodes| && OwnersSplit(nodes, start, u) && i <= |nodes|
    requires forall j :: 0 <= j < i ==> nodes[j] < u
    requires i < |nodes| ==> nodes[i] >= u
    ensures start == i
  {
    assert start < |nodes| ==> nodes[start] >= u;
    assert start > 0 ==> nodes[start - 1] < u;
  }

  method BuildTypedRuns(a: Adjacency, n: nat, types: RelTypes, posMap: seq<nat>, t: nat) returns (r: TypedRuns)
    requires WellFormed(a, n) && SpellsOut(types, a.types)
    ensures IsTypedRuns(r, a, n, t, posMap)
  {
    var nodes: seq<nat>, nbrs: seq<nat>, poss: seq<nat> := [], [], [];
    for u := 0 to n
      invariant Holds(nbrs, poss, UpTo(a, n, MatchOne(t), posMap, u)) && OwnersHold(nodes, a, n, t, posMap, u)
    {
      OwnersGrow(nodes, a, n, t, posMap, u);
      nbrs, poss := AppendHits(a, types, t, posMap, a.offsets[u], a.offsets[u + 1], nbrs, poss,
                               UpTo(a, n, MatchOne(t), posMap, u));
      nodes := nodes + Repeat(u, |nbrs| - |nodes|);
    }
    var hint := BuildHint(nodes, n, a, t, posMap);
    r := TypedRuns(nodes, nbrs, poss, hint);
  }

  /** The run of `u` inside its bucket `from..to`: a binary search finds it, a walk ends it. */
  method FindRun(nodes: seq<nat>, from: nat, to: nat, u: nat, ghost start: nat, ghost end: nat) returns (lo: nat, hi: nat)
    requires from <= start <= end <= to <= |nodes| && OwnersSplit(nodes, start, u) && OwnersSplit(nodes, end, u + 1)
    ensures lo == start && hi == end
  {
    lo, hi := from, to;
    while lo < hi
      invariant from <= lo <= start <= hi <= to
    {
      var mid := (lo + hi) / 2;
      if nodes[mid] < u { lo := mid + 1; } else { hi := mid; }
    }
    while hi < to && nodes[hi] == u
      invariant start <= hi <= end
    {
      hi := hi + 1;
    }
    assert end > 0 ==> nodes[end - 1] < u + 1;
  }

  /** `runRange`: the hint bounds the node's bucket. */
  method RunRange(r: TypedRuns, u: nat, ghost a: Adjacency, ghost n: nat, ghost t: nat, ghost posMap: seq<nat>)
    returns (lo: nat, hi: nat)
    requires WellFormed(a, n) && IsTypedRuns(r, a, n, t, posMap)
    ensures lo <= hi <= |r.nbrs| == |r.poss|
    ensures Holds(r.nbrs[lo..hi], r.poss[lo..hi], HitsAt(a, n, MatchOne(t), posMap, u))
  {
    var b := u / BUCKET;
    if b + 1 >= |r.hint| {
      assert u >= n;
      return 0, 0;
    }
    ghost var start, end := StartOf(a, n, t, posMap, u), StartOf(a, n, t, posMap, u + 1);
    InBucket(r, a, n, t, posMap, u, b);
    lo, hi := FindRun(r.nodes, r.hint[b], r.hint[b + 1], u, start, end);
    RunIsHits(r, a, n, t, posMap, u);
  }

  /** A node's run lies inside its bucket. */
  lemma InBucket(r: TypedRuns, a: Adjacency, n: nat, t: nat, posMap: seq<nat>, u: nat, b: nat)
    requires WellFormed(a, n) && IsTypedRuns(r, a, n, t, posMap)
    requires b * BUCKET <= u < (b + 1) * BUCKET && b + 1 < |r.hint|
    ensures r.hint[b] <= StartOf(a, n, t, posMap, u) <= StartOf(a, n, t, posMap, u + 1) <= r.hint[b + 1] <= |r.nodes|
    ensures OwnersSplit(r.nodes, StartOf(a, n, t, posMap, u), u)
    ensures OwnersSplit(r.nodes, StartOf(a, n, t, posMap, u + 1), u + 1)
  {
    var from, to := b * BUCKET, (b + 1) * BUCKET;
    assert r.hint[b] == StartOf(a, n, t, posMap, from) && r.hint[b + 1] == StartOf(a, n, t, posMap, to);
    RunBetween(r.nodes, a, n, t, posMap, from, u, to);
  }

  lemma RunBetween(nodes: seq<nat>, a: Adjacency, n: nat, t: nat, posMap: seq<nat>, from: nat, u: nat, to: nat)
    requires WellFormed(a, n) && OwnersHold(nodes, a, n, t, posMap, n) && from <= u < to
    ensures StartOf(a, n, t, posMap, from) <= StartOf(a, n, t, posMap, u) <= StartOf(a, n, t, posMap, u + 1)
    ensures StartOf(a, n, t, posMap, u + 1) <= StartOf(a, n, t, posMap, to) <= |nodes|
    ensures OwnersSplit(nodes, StartOf(a, n, t, posMap, u), u)
    ensures OwnersSplit(nodes, StartOf(a, n, t, posMap, u + 1), u + 1)
  {
    StartsAscend(a, n, t, posMap, from, u);
    StartsAscend(a, n, t, posMap, u, u + 1);
    StartsAscend(a, n, t, posMap, u + 1, to);
    StartSplits(nodes, a, n, t, posMap, u);
    StartSplits(nodes, a, n, t, posMap, u + 1);
    StartSplits(nodes, a, n, t, posMap, to);
  }

  lemma RunIsHits(r: TypedRuns, a: Adjacency, n: nat, t: nat, posMap: seq<nat>, u: nat)
    requires WellFormed(a, n) && IsTypedRuns(r, a, n, t, posMap)
    ensures var lo, hi := StartOf(a, n, t, posMap, u), StartOf(a, n, t, posMap, u + 1);
            && lo <= hi <= |r.nbrs| == |r.poss|
            && Holds(r.nbrs[lo..hi], r.poss[lo..hi], HitsAt(a, n, MatchOne(t), posMap, u))
  {
    if u < n { SliceIsHits(a, n, MatchOne(t), posMap, u); }
  }

  lemma StartsAscend(a: Adjacency, n: nat, t: nat, posMap: seq<nat>, u: nat, v: nat)
    requires WellFormed(a, n) && u <= v
    ensures StartOf(a, n, t, posMap, u) <= StartOf(a, n, t, posMap, v)
  {
    UpToIsPrefix(a, n, MatchOne(t), posMap, if u < n then u else n, if v < n then v else n);
  }

  // ---- traversal -----------------------------------------------------------------------------------------

  /** At or below this many relationships a node is scanned rather than looked up in the run view. */
  const RUN_SCAN_FLOOR: nat := 64

  /** The scan: every relationship of the range put to the resolved test. */
  method ScanRange(a: Adjacency, types: RelTypes, m: RelMatch, ti: int, posMap: seq<nat>, lo: nat, hi: nat)
    returns (nbrs: seq<nat>, poss: seq<nat>)
    requires lo <= hi <= |a.nbrs| == |a.types| && SpellsOut(types, a.types)
    requires m.MatchOne? ==> IsPaletteIndex(types, m.one, ti)
    ensures Holds(nbrs, poss, Hits(a, m, posMap, lo, hi))
  {
    var test := TypeTest(m, types, ti);
    nbrs, poss := [], [];
    for k := lo to hi
      invariant Holds(nbrs, poss, Hits(a, m, posMap, lo, k))
    {
      if Passes(test, types, k) {
        nbrs, poss := nbrs + [a.nbrs[k]], poss + [Stored(posMap, k)];
      }
    }
  }

  /** One direction of a traversal. Only a single-type matcher resolved against the snapshot has a
      view holder (`held`); above the floor it reads the per-type CSR, below it the run view for a
      node of high degree, and everything else is scanned. Whichever tier answers, the answer is the
      filtered primary range, in its order. */
  method TraverseDirection(a: Adjacency, n: nat, types: RelTypes, m: RelMatch, ti: int, posMap: seq<nat>,
                           held: bool, aboveFloor: bool, u: nat)
    returns (nbrs: seq<nat>, poss: seq<nat>)
    requires WellFormed(a, n) && SpellsOut(types, a.types)
    requires (held ==> m.MatchOne?) && (m.MatchOne? ==> IsPaletteIndex(types, m.one, ti))
    ensures Holds(nbrs, poss, HitsAt(a, n, m, posMap, u))
    ensures nbrs == Nbrs(HitsAt(a, n, m, posMap, u))
  {
    if held && aboveFloor {
      var tc := BuildTypedCsr(a, n, types, posMap, m.one);
      TypedCsrRun(tc, a, n, m.one, posMap, u);
      var (lo, hi) := RelRange(tc.offsets, u);
      return tc.nbrs[lo..hi], tc.poss[lo..hi];
    }
    var (lo, hi) := RelRange(a.offsets, u);
    if held && hi - lo > RUN_SCAN_FLOOR {
      var r := BuildTypedRuns(a, n, types, posMap, m.one);
      var rlo, rhi := RunRange(r, u, a, n, m.one, posMap);
      return r.nbrs[rlo..rhi], r.poss[rlo..rhi];
    }
    nbrs, poss := ScanRange(a, types, m, ti, posMap, lo, hi);
  }
}
