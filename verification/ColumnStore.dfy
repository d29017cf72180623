/** Finalizing one property column: layout selection, the fill loops, and the reads every layout
    must answer alike. */
module ColumnStore {
  import opened StableSort
  import opened Columns

  datatype Column =
    | Dense(kind: Kind, vec: Vec)
    | Sparse(kind: Kind, ids: seq<nat>, vec: Vec)
    | Ranked(kind: Kind, rank: RankIndex, vec: Vec)

  const RANK_MIN_LEN: nat := 1_000_000

  /** Rank/select pays when the span is large and its bits do not outweigh the sparse pairs. */
  predicate RankWorth(kind: Kind, span: nat, present: nat) {
    span >= RANK_MIN_LEN &&
    match kind
    case I64 => span + present * 64 <= present * 128
    case F64 => span + present * 64 <= present * 128
    case Bool => span + present <= present * 64
    case Str => span + present * 32 <= present * 64
  }

  /** Numbers and booleans are dense only at full coverage; strings from 80% fill, a missing
      string reading as atom 0. */
  predicate DenseRule(kind: Kind, fill: nat, span: nat) {
    if kind.Str? then fill >= span * 4 / 5 else fill == span
  }

  function Ids(es: seq<Pair>): (ids: seq<nat>)
    ensures |ids| == |es| && forall i :: 0 <= i < |es| ==> ids[i] == es[i].id
  {
    seq(|es|, i requires 0 <= i < |es| => es[i].id)
  }

  function Vals(es: seq<Pair>): (vals: seq<int>)
    ensures |vals| == |es| && forall i :: 0 <= i < |es| ==> vals[i] == es[i].val
  {
    seq(|es|, i requires 0 <= i < |es| => es[i].val)
  }

  /** Every position of the span, absent ones zero. */
  function Spread(writes: map<nat, int>, span: nat): (vals: seq<int>)
    ensures |vals| == span
    ensures forall p :: 0 <= p < span ==> vals[p] == if p in writes then writes[p] else 0
  {
    seq(span, p requires 0 <= p < span => if p in writes then writes[p] else 0)
  }

  /** The column of a canonical list: what the builders produce, as one function of it. */
  function ColumnOf(kind: Kind, es: seq<Pair>, span: nat): Column {
    if DenseRule(kind, |es|, span) then Dense(kind, VecOf(kind, Spread(LastWrites(es), span), true))
    else if RankWorth(kind, span, |es|) then Ranked(kind, RankOf(Ids(es), span), VecOf(kind, Vals(es), false))
    else Sparse(kind, Ids(es), VecOf(kind, Vals(es), false))
  }

  /** Which layout, in numbers: dense at full coverage, strings from four fifths rounded down; else
      ranked over a span of a million or more when the bits cost no more than the sparse ids. */
  lemma LayoutInNumbers(kind: Kind, es: seq<Pair>, span: nat)
    ensures var n := |es|;
            && (ColumnOf(kind, es, span).Dense? <==> if kind.Str? then 5 * n > 4 * span - 5 else n == span)
            && (ColumnOf(kind, es, span).Ranked? <==>
                  && !ColumnOf(kind, es, span).Dense? && span >= 1_000_000
                  && span <= if kind.Bool? then 63 * n else if kind.Str? then 32 * n else 64 * n)
  {
  }

  /** A canonical list over a span, with integers in range. */
  ghost predicate Wf(kind: Kind, es: seq<Pair>, span: nat) {
    && Ascending(es) && InSpan(es, span)
    && (kind.I64? ==> forall i :: 0 <= i < |es| ==> InI64(es[i].val))
  }

  /** What a read at `pos` owes the staged writes: the newest one, else absent -- except that a
      dense string column reads its gaps as atom 0. */
  ghost function Reads(kind: Kind, es: seq<Pair>, span: nat, pos: nat): Option<int> {
    if pos in LastWrites(es) then Some(LastWrites(es)[pos])
    else if kind.Str? && DenseRule(kind, |es|, span) && pos < span then Some(0)
    else None
  }

  // ---- coverage --------------------------------------------------------------------------------

  lemma IdsAscend(es: seq<Pair>)
    requires Ascending(es)
    ensures AscendingIds(Ids(es))
  {
  }

  /** As many ascending ids as positions means every position. */
  lemma FullCoverage(es: seq<Pair>, span: nat, pos: nat)
    requires Ascending(es) && InSpan(es, span) && |es| == span && pos < span
    ensures es[pos].id == pos
  {
    var ids := Ids(es);
    IdsAscend(es);
    assert IsPerm(ids);
    AscendingRank(ids, pos);
    PermCountLess(ids, ids[pos]);
  }

  lemma SpreadFits(kind: Kind, es: seq<Pair>, span: nat)
    requires Wf(kind, es, span) && kind.I64?
    ensures forall p :: 0 <= p < span ==> InI64(Spread(LastWrites(es), span)[p])
  {
    forall p | 0 <= p < span ensures InI64(Spread(LastWrites(es), span)[p]) {
      WrittenIds(es, p);
      if p in LastWrites(es) {
        var k :| 0 <= k < |es| && es[k].id == p;
        WritesAt(es, k);
      }
    }
  }

  // ---- reads ------------------------------------------------------------------------------------

  /** Binary search of a sorted id array. */
  method SparseSlot(ids: seq<nat>, pos: nat) returns (slot: Option<nat>)
    requires AscendingIds(ids)
    ensures slot.Some? ==> slot.value < |ids| && ids[slot.value] == pos
    ensures slot.None? ==> pos !in ids
  {
    var lo, hi := 0, |ids|;
    while lo < hi
      invariant 0 <= lo <= hi <= |ids|
      invariant forall i :: 0 <= i < lo ==> ids[i] < pos
      invariant forall i :: hi <= i < |ids| ==> pos <= ids[i]
    {
      var mid := (lo + hi) / 2;
      if ids[mid] < pos {
        lo := mid + 1;
      } else {
        hi := mid;
      }
    }
    if lo < |ids| && ids[lo] == pos {
      return Some(lo);
    }
    return None;
  }

  /** A read of any layout returns the newest staged write, or absent. */
  method Get(c: Column, pos: nat, ghost es: seq<Pair>, ghost span: nat) returns (r: Option<int>)
    requires Wf(c.kind, es, span) && c == ColumnOf(c.kind, es, span)
    ensures r == Reads(c.kind, es, span, pos)
  {
    WrittenIds(es, pos);
    IdsAscend(es);
    match c {
      case Dense(kind, vec) =>
        DenseReads(kind, es, span, pos);
        if pos >= VecLen(vec) {
          return None;
        }
        return Some(At(vec, pos));
      case Sparse(kind, ids, vec) =>
        var slot := SparseSlot(ids, pos);
        if slot.None? {
          return None;
        }
        PairReads(kind, es, slot.value);
        return Some(At(vec, slot.value));
      case Ranked(kind, rank, vec) =>
        var slot := Slot(rank, pos);
        RankReads(kind, es, span, pos);
        if slot.None? {
          return None;
        }
        return Some(At(vec, slot.value));
    }
  }

  lemma DenseReads(kind: Kind, es: seq<Pair>, span: nat, pos: nat)
    requires Wf(kind, es, span) && DenseRule(kind, |es|, span)
    ensures var vec := VecOf(kind, Spread(LastWrites(es), span), true);
            VecLen(vec) == span &&
            Reads(kind, es, span, pos) == if pos < span then Some(At(vec, pos)) else None
  {
    if kind.I64? { SpreadFits(kind, es, span); }
    VecReads(kind, Spread(LastWrites(es), span), true, pos);
    WrittenIds(es, pos);
    if pos < span && !kind.Str? {
      FullCoverage(es, span, pos);
    }
  }

  lemma PairReads(kind: Kind, es: seq<Pair>, k: nat)
    requires Ascending(es) && k < |es| && (kind.I64? ==> forall i :: 0 <= i < |es| ==> InI64(es[i].val))
    ensures At(VecOf(kind, Vals(es), false), k) == es[k].val
    ensures es[k].id in LastWrites(es) && LastWrites(es)[es[k].id] == es[k].val
  {
    VecReads(kind, Vals(es), false, k);
    WritesAt(es, k);
  }

  lemma RankReads(kind: Kind, es: seq<Pair>, span: nat, pos: nat)
    requires Wf(kind, es, span)
    ensures var slot := Slot(RankOf(Ids(es), span), pos);
            if pos in LastWrites(es)
            then slot.Some? && At(VecOf(kind, Vals(es), false), slot.value) == LastWrites(es)[pos]
            else slot.None?
  {
    WrittenIds(es, pos);
    if pos < span {
      IdsAscend(es);
      SlotCountsBelow(Ids(es), span, pos);
      if pos in LastWrites(es) {
        var k :| 0 <= k < |es| && es[k].id == pos;
        AscendingRank(Ids(es), k);
        PairReads(kind, es, k);
      } else {
        assert pos !in Ids(es);
      }
    }
  }

  // ---- entries ------------------------------------------------------------------------------------

  /** The set positions from `p` on, ascending. */
  function OnesFrom(bits: seq<bool>, p: nat): seq<nat>
    decreases |bits| - p
  {
    if p >= |bits| then []
    else (if bits[p] then [p] else []) + OnesFrom(bits, p + 1)
  }

  /** Positions paired with the values at their slots. */
  function Zip(ids: seq<nat>, vec: Vec): (es: seq<Pair>)
    ensures |es| == |ids| && forall i :: 0 <= i < |ids| ==> es[i] == Pair(ids[i], At(vec, i))
  {
    seq(|ids|, i requires 0 <= i < |ids| => Pair(ids[i], At(vec, i)))
  }

  function UpTo(n: nat): (ids: seq<nat>)
    ensures |ids| == n && forall i :: 0 <= i < n ==> ids[i] == i
  {
    seq(n, i requires 0 <= i => i)
  }

  /** `(position, value)` for every present position, ascending. */
  function Entries(c: Column): seq<Pair> {
    match c
    case Dense(_, vec) => Zip(UpTo(VecLen(vec)), vec)
    case Sparse(_, ids, vec) => Zip(ids, vec)
    case Ranked(_, rank, vec) => Zip(OnesFrom(rank.present, 0), vec)
  }

  /** The first `k` ids are those below `p`. */
  ghost predicate SplitAt(ids: seq<nat>, p: nat, k: nat) {
    k <= |ids| && forall i :: 0 <= i < |ids| ==> (i < k <==> ids[i] < p)
  }

  lemma SplitStep(ids: seq<nat>, p: nat, k: nat)
    requires AscendingIds(ids) && SplitAt(ids, p, k)
    ensures p in ids ==> k < |ids| && ids[k] == p && SplitAt(ids, p + 1, k + 1)
    ensures p !in ids ==> SplitAt(ids, p + 1, k)
  {
    if p in ids {
      var j :| 0 <= j < |ids| && ids[j] == p;
      assert k <= j && !(ids[k] < p);
    }
  }

  lemma {:induction false} OnesAreIds(ids: seq<nat>, bits: seq<bool>, p: nat, k: nat)
    requires AscendingIds(ids) && p <= |bits| && SplitAt(ids, p, k)
    requires forall q :: 0 <= q < |bits| ==> (bits[q] <==> q in ids)
    requires forall i :: 0 <= i < |ids| ==> ids[i] < |bits|
    ensures OnesFrom(bits, p) == ids[k..]
    decreases |bits| - p
  {
    if p < |bits| {
      SplitStep(ids, p, k);
      if bits[p] {
        OnesAreIds(ids, bits, p + 1, k + 1);
        assert ids[k..] == [p] + ids[k + 1..];
      } else {
        OnesAreIds(ids, bits, p + 1, k);
      }
    }
  }

  /** The pairs a thaw restages: the canonical list, except that a dense string column's gaps
      come back as written zeros. */
  ghost function Restaged(kind: Kind, es: seq<Pair>, span: nat): seq<Pair> {
    if kind.Str? && DenseRule(kind, |es|, span)
    then seq(span, p requires 0 <= p < span => Pair(p, Spread(LastWrites(es), span)[p]))
    else es
  }

  lemma DenseEntries(kind: Kind, es: seq<Pair>, span: nat)
    requires Wf(kind, es, span) && DenseRule(kind, |es|, span)
    ensures Entries(ColumnOf(kind, es, span)) == Restaged(kind, es, span)
  {
    var got, want := Entries(ColumnOf(kind, es, span)), Restaged(kind, es, span);
    DenseReads(kind, es, span, 0);
    assert |got| == span == |want|;
    forall p | 0 <= p < span ensures got[p] == want[p] {
      DenseReads(kind, es, span, p);
      if !kind.Str? {
        FullCoverage(es, span, p);
        WritesAt(es, p);
      }
    }
  }

  /** Pairing ascending ids with their stored values gives back the list. */
  lemma ZippedEntries(kind: Kind, es: seq<Pair>)
    requires Ascending(es) && (kind.I64? ==> forall i :: 0 <= i < |es| ==> InI64(es[i].val))
    ensures Zip(Ids(es), VecOf(kind, Vals(es), false)) == es
  {
    var got := Zip(Ids(es), VecOf(kind, Vals(es), false));
    forall k | 0 <= k < |es| ensures got[k] == es[k] {
      PairReads(kind, es, k);
    }
  }

  lemma PresentEntries(ids: seq<nat>, span: nat, vec: Vec)
    requires AscendingIds(ids) && forall i :: 0 <= i < |ids| ==> ids[i] < span
    ensures Zip(OnesFrom(RankOf(ids, span).present, 0), vec) == Zip(ids, vec)
  {
    OnesAreIds(ids, RankOf(ids, span).present, 0, 0);
    assert ids[0..] == ids;
  }

  /** `Entries` lists exactly the stored pairs, ascending, whatever the layout. */
  lemma EntriesAreStored(kind: Kind, es: seq<Pair>, span: nat)
    requires Wf(kind, es, span)
    ensures Entries(ColumnOf(kind, es, span)) == Restaged(kind, es, span)
  {
    if DenseRule(kind, |es|, span) {
      DenseEntries(kind, es, span);
    } else {
      IdsAscend(es);
      var vec := VecOf(kind, Vals(es), false);
      ZippedEntries(kind, es);
      PresentEntries(Ids(es), span, vec);
      assert Entries(Ranked(kind, RankOf(Ids(es), span), vec)) == es;
      assert Entries(Sparse(kind, Ids(es), vec)) == es;
    }
  }

  /** Restaging a column's entries and finalizing again gives back the column itself. */
  lemma RestagedColumn(kind: Kind, es: seq<Pair>, span: nat)
    requires Wf(kind, es, span)
    ensures var c := ColumnOf(kind, es, span);
            Wf(kind, Entries(c), span) && Canon(Entries(c)) == Entries(c) && ColumnOf(kind, Entries(c), span) == c
  {
    EntriesAreStored(kind, es, span);
    var back := Restaged(kind, es, span);
    assert Ascending(back);
    CanonIsIdempotent(back);
    if back != es {
      forall p | 0 <= p < span ensures Spread(LastWrites(back), span)[p] == Spread(LastWrites(es), span)[p] {
        WritesAt(back, p);
      }
      assert Spread(LastWrites(back), span) == Spread(LastWrites(es), span);
    }
  }

  // ---- the builders -----------------------------------------------------------------------------

  /** The dedup loop of the last-write-wins sort. */
  method KeepLast(s: seq<Pair>) returns (out: seq<Pair>)
    ensures out == KeepUpTo(s, |s|)
  {
    out := [];
    for i := 0 to |s|
      invariant out == KeepUpTo(s, i)
    {
      if !(i + 1 < |s| && s[i + 1].id == s[i].id) {
        out := out + [s[i]];
      }
    }
  }

  lemma {:induction false} OneEntryPerWrite(es: seq<Pair>)
    requires Ascending(es)
    ensures |LastWrites(es)| == |es|
  {
    if es != [] {
      var init, last := es[..|es| - 1], es[|es| - 1];
      OneEntryPerWrite(init);
      WrittenIds(init, last.id);
      assert LastWrites(es).Keys == LastWrites(init).Keys + {last.id};
    }
  }

  /** Distinct positions touched, counted with a seen-bitmap. */
  method DistinctPositions(pairs: seq<Pair>, span: nat) returns (covered: nat)
    requires InSpan(pairs, span)
    ensures covered == |Canon(pairs)|
  {
    var seen := new bool[span](_ => false);
    covered := 0;
    for i := 0 to |pairs|
      invariant forall p :: 0 <= p < span ==> (seen[p] <==> p in LastWrites(pairs[..i]))
      invariant covered == |LastWrites(pairs[..i])|
    {
      ghost var was, now := LastWrites(pairs[..i]), LastWrites(pairs[..i + 1]);
      assert pairs[..i + 1][..i] == pairs[..i];
      assert now.Keys == was.Keys + {pairs[i].id};
      if !seen[pairs[i].id] {
        seen[pairs[i].id] := true;
        covered := covered + 1;
      }
    }
    assert pairs[..|pairs|] == pairs;
    CanonIsLastWrites(pairs);
    OneEntryPerWrite(Canon(pairs));
  }

  /** The dense fill: later writes overwrite earlier ones in place. */
  method FillDense(pairs: seq<Pair>, span: nat) returns (vals: seq<int>)
    requires InSpan(pairs, span)
    ensures vals == Spread(LastWrites(pairs), span)
  {
    var col := new int[span](_ => 0);
    for i := 0 to |pairs|
      invariant col[..] == Spread(LastWrites(pairs[..i]), span)
    {
      assert pairs[..i + 1][..i] == pairs[..i];
      col[pairs[i].id] := pairs[i].val;
    }
    assert pairs[..|pairs|] == pairs;
    vals := col[..];
  }

  method Extremes(vals: seq<int>) returns (mn: int, mx: int)
    requires vals != []
    ensures mn == Least(vals) && mx == Greatest(vals)
  {
    mn, mx := vals[0], vals[0];
    for i := 1 to |vals|
      invariant mn == Least(vals[..i]) && mx == Greatest(vals[..i])
    {
      assert vals[..i + 1][..i] == vals[..i];
      if vals[i] < mn { mn := vals[i]; }
      if vals[i] > mx { mx := vals[i]; }
    }
    assert vals[..|vals|] == vals;
  }

  method DeltaBytes(vals: seq<int>, mn: int, w: nat) returns (bytes: seq<nat>)
    requires forall i :: 0 <= i < |vals| ==> mn <= vals[i]
    ensures bytes == Deltas(vals, mn, w)
  {
    bytes := [];
    for i := 0 to |vals|
      invariant bytes == Deltas(vals[..i], mn, w)
    {
      DeltasStep(vals, mn, w, i);
      bytes := bytes + LeBytes(vals[i] - mn, w);
    }
    assert vals[..|vals|] == vals;
  }

  /** Offsets from the minimum, as few bytes each as the maximum's offset takes. */
  method NarrowVals(vals: seq<int>) returns (v: Option<Vec>)
    ensures v == NarrowOf(vals)
  {
    if |vals| < NARROW_MIN_LEN {
      return None;
    }
    var mn, mx := Extremes(vals);
    var w := WidthFor(U64Diff(mx, mn));
    if w == 0 {
      return None;
    }
    var bytes := DeltaBytes(vals, mn, w);
    return Some(Narrow(mn, w, bytes + Pad(w)));
  }

  method StoreVals(kind: Kind, vals: seq<int>, dense: bool) returns (v: Vec)
    ensures v == VecOf(kind, vals, dense)
  {
    if !kind.I64? {
      return Wide(vals);
    }
    if dense && |vals| >= NARROW_MIN_LEN {
      var mn, mx := Extremes(vals);
      if U64Diff(mx, mn) <= 1 {
        return Bit(mn, seq(|vals|, i requires 0 <= i < |vals| => vals[i] != mn));
      }
    }
    var narrow := NarrowVals(vals);
    return if narrow.Some? then narrow.value else Wide(vals);
  }

  /** The presence bitmap, then one running popcount per block. */
  method BuildRankIndex(ids: seq<nat>, span: nat) returns (r: RankIndex)
    requires forall i :: 0 <= i < |ids| ==> ids[i] < span
    ensures r == RankOf(ids, span)
  {
    var present := MarkPresent(ids, span);
    var blockRank := BlockRanks(present);
    r := RankIndex(present, blockRank);
    assert r.present == RankOf(ids, span).present;
    assert r.blockRank == RankOf(ids, span).blockRank;
  }

  method MarkPresent(ids: seq<nat>, span: nat) returns (present: seq<bool>)
    requires forall i :: 0 <= i < |ids| ==> ids[i] < span
    ensures |present| == span && forall p :: 0 <= p < span ==> (present[p] <==> p in ids)
  {
    var bits := new bool[span](_ => false);
    for i := 0 to |ids|
      invariant forall p :: 0 <= p < span ==> (bits[p] <==> p in ids[..i])
    {
      bits[ids[i]] := true;
    }
    assert ids[..|ids|] == ids;
    present := bits[..];
  }

  /** The set bits before each block, accumulated block by block. */
  method BlockRanks(present: seq<bool>) returns (ranks: seq<nat>)
    ensures |ranks| == (|present| + RANK_BLOCK - 1) / RANK_BLOCK + 1
    ensures forall b :: 0 <= b < |ranks| ==> ranks[b] == CountTrue(present, 0, Smaller(b * RANK_BLOCK, |present|))
  {
    var blocks, acc: nat := (|present| + RANK_BLOCK - 1) / RANK_BLOCK, 0;
    ranks := [0];
    for b := 0 to blocks
      invariant |ranks| == b + 1 && acc == CountTrue(present, 0, Smaller(b * RANK_BLOCK, |present|))
      invariant forall j :: 0 <= j <= b ==> ranks[j] == CountTrue(present, 0, Smaller(j * RANK_BLOCK, |present|))
    {
      var lo, hi := Smaller(b * RANK_BLOCK, |present|), Smaller((b + 1) * RANK_BLOCK, |present|);
      CountSplits(present, lo, hi);
      acc := acc + CountTrue(present, lo, hi);
      ranks := ranks + [acc];
    }
  }

  /** `columnFromPairsI64` and its three siblings. */
  method ColumnFromPairs(kind: Kind, pairs: seq<Pair>, span: nat) returns (c: Column)
    requires InSpan(pairs, span)
    ensures c == ColumnOf(kind, Canon(pairs), span)
  {
    CanonIsLastWrites(pairs);
    var fill := DistinctPositions(pairs, span);
    if DenseRule(kind, fill, span) {
      var vals := FillDense(pairs, span);
      var vec := StoreVals(kind, vals, true);
      return Dense(kind, vec);
    }
    var es := KeepLast(SortById(pairs));
    forall i | 0 <= i < |es| ensures es[i].id < span {
      assert es[i] in pairs;
    }
    c := SparseColumn(kind, es, span);
  }

  /** Below the dense rule: ranked where that pays, else sparse. */
  method SparseColumn(kind: Kind, es: seq<Pair>, span: nat) returns (c: Column)
    requires InSpan(es, span) && !DenseRule(kind, |es|, span)
    ensures c == ColumnOf(kind, es, span)
  {
    var vec := StoreVals(kind, Vals(es), false);
    if RankWorth(kind, span, |es|) {
      var rank := BuildRankIndex(Ids(es), span);
      return Ranked(kind, rank, vec);
    }
    return Sparse(kind, Ids(es), vec);
  }

  /** The whole promise: a finalized column answers every read with the newest staged write. */
  lemma FinalizedReads(kind: Kind, pairs: seq<Pair>, span: nat, pos: nat)
    requires InSpan(pairs, span) && (kind.I64? ==> forall i :: 0 <= i < |pairs| ==> InI64(pairs[i].val))
    ensures Wf(kind, Canon(pairs), span)
    ensures pos in LastWrites(pairs) ==> Reads(kind, Canon(pairs), span, pos) == Some(LastWrites(pairs)[pos])
    ensures pos !in LastWrites(pairs) ==>
              Reads(kind, Canon(pairs), span, pos)
                == if kind.Str? && pos < span && DenseRule(kind, |Canon(pairs)|, span) then Some(0) else None
  {
    CanonIsLastWrites(pairs);
    forall i | 0 <= i < |Canon(pairs)|
      ensures Canon(pairs)[i].id < span && (kind.I64? ==> InI64(Canon(pairs)[i].val))
    {
      assert Canon(pairs)[i] in pairs;
    }
  }

  /** Staged, finalized and read: the newest write; where there is none, atom 0 inside a dense string
      column's span and nothing anywhere else. */
  method BuildAndGet(kind: Kind, pairs: seq<Pair>, span: nat, pos: nat) returns (r: Option<int>)
    requires InSpan(pairs, span) && (kind.I64? ==> forall i :: 0 <= i < |pairs| ==> InI64(pairs[i].val))
    ensures pos in LastWrites(pairs) ==> r == Some(LastWrites(pairs)[pos])
    ensures pos !in LastWrites(pairs) ==>
              r == if kind.Str? && pos < span && DenseRule(kind, |Canon(pairs)|, span) then Some(0) else None
  {
    FinalizedReads(kind, pairs, span, pos);
    var c := ColumnFromPairs(kind, pairs, span);
    r := GetBuilt(c, kind, pos, Canon(pairs), span);
  }

  method GetBuilt(c: Column, kind: Kind, pos: nat, ghost es: seq<Pair>, ghost span: nat) returns (r: Option<int>)
    requires Wf(kind, es, span) && c == ColumnOf(kind, es, span)
    ensures r == Reads(kind, es, span, pos)
  {
    assert c.kind == kind;
    r := Get(c, pos, es, span);
  }
}
