/** Relationships read back: each one at its position, its properties there, through compaction,
    finalizing and a thaw. */
module RelReading {
  import opened StableSort
  import opened Csr
  import opened Thaw
  import opened Columns
  import opened ColumnStore
  import opened Staging
  import opened Removal
  import opened Cow
  import opened RoundTrip
  import opened Meaning
  import opened Reading
  import opened Generations

  // ---- renamed pairs --------------------------------------------------------------------------------------------

  /** The same values under other ids: what `x` was last given, `y` was. */
  lemma {:induction false} RenamedWrites(a: seq<Pair>, b: seq<Pair>, x: nat, y: nat)
    requires |a| == |b| && forall k :: 0 <= k < |a| ==> a[k].val == b[k].val && (a[k].id == x <==> b[k].id == y)
    ensures x in LastWrites(a) <==> y in LastWrites(b)
    ensures x in LastWrites(a) ==> LastWrites(a)[x] == LastWrites(b)[y]
  {
    if a != [] { RenamedWrites(a[..|a| - 1], b[..|b| - 1], x, y); }
  }

  // ---- positions -------------------------------------------------------------------------------------------------

  /** What a relationship is owed: its value in the key's family, or for strings filling four fifths of
      the `m` positions, rounded down, atom 0. */
  function OwedRel(v: View, m: nat, i: nat, key: nat): Option<int> {
    var ck := Family(v.relProps, key);
    if ck.None? then None
    else if (i, ck.value) in v.relProps then Some(v.relProps[(i, ck.value)])
    else if ck.value.kind.Str? && 5 * |Writers(v.relProps, ck.value)| + 5 > 4 * m then Some(0)
    else None
  }

  /** With nothing removed every staged pair counts. */
  lemma {:induction false} AllLiveProps(st: Staged)
    requires Settled(st)
    ensures ViewOf(st).relProps == Props(st.relCols)
    ensures forall i :: 0 <= i < |st.rels| ==> i in ViewOf(st).rels && ViewOf(st).rels[i] == st.rels[i]
  {
    forall i | 0 <= i < |st.rels| ensures i in Live(st) {
      assert LiveRel(st, i);
    }
    forall k | k in Props(st.relCols) ensures k.0 in Live(st) {
      PropsFind(st.relCols, k.0, k.1);
      WrittenIds(PairsOf(st.relCols, k.1), k.0);
    }
  }

  /** Moving pairs to positions moves what they last wrote. */
  lemma {:induction false} PositionedProp(cols: map<ColKey, seq<Pair>>, f: seq<nat>, i: nat, ck: ColKey)
    requires IdsFit(cols, |f|) && IsPerm(f) && i < |f|
    ensures Prop(ByPosition(cols, f), f[i], ck) == Prop(cols, i, ck)
  {
    if ck in cols { RenamedWrites(cols[ck], MapIds(cols[ck], f), i, f[i]); }
  }

  lemma {:induction false} PositionedWriters(cols: map<ColKey, seq<Pair>>, f: seq<nat>, ck: ColKey)
    requires IdsFit(cols, |f|) && IsPerm(f)
    ensures |Canon(PairsOf(ByPosition(cols, f), ck))| == |Writers(Props(cols), ck)|
  {
    var moved := ByPosition(cols, f);
    FillIsWriters(moved, ck);
    var from, to := Writers(Props(cols), ck), Writers(Props(moved), ck);
    WritersWrote(cols, ck);
    WritersWrote(moved, ck);
    forall id | id in from ensures id < |f| && f[id] in to {
      MovedTo(cols, f, ck, id);
    }
    forall p: nat ensures p in to ==> exists id :: id in from && f[id] == p {
      if p in to { MovedFrom(cols, f, ck, p); }
    }
    SameSize(from, to, f);
  }

  lemma {:induction false} MovedTo(cols: map<ColKey, seq<Pair>>, f: seq<nat>, ck: ColKey, id: nat)
    requires IdsFit(cols, |f|) && IsPerm(f) && id in LastWrites(PairsOf(cols, ck))
    ensures id < |f| && f[id] in LastWrites(PairsOf(ByPosition(cols, f), ck))
  {
    WrittenIds(PairsOf(cols, ck), id);
    PositionedProp(cols, f, id, ck);
  }

  lemma {:induction false} MovedFrom(cols: map<ColKey, seq<Pair>>, f: seq<nat>, ck: ColKey, p: nat)
    requires IdsFit(cols, |f|) && IsPerm(f) && p in LastWrites(PairsOf(ByPosition(cols, f), ck))
    ensures exists id :: id in LastWrites(PairsOf(cols, ck)) && id < |f| && f[id] == p
  {
    WrittenIds(PairsOf(ByPosition(cols, f), ck), p);
    var k :| 0 <= k < |PairsOf(ByPosition(cols, f), ck)| && PairsOf(ByPosition(cols, f), ck)[k].id == p;
    WrittenIds(cols[ck], cols[ck][k].id);
  }

  lemma {:induction false} SameSize(from: set<nat>, to: set<nat>, f: seq<nat>)
    requires forall id :: id in from ==> id < |f| && f[id] in to
    requires forall a, b :: a in from && b in from && f[a] == f[b] ==> a == b
    requires forall p :: p in to ==> exists id :: id in from && f[id] == p
    ensures |from| == |to|
  {
    if from == {} {
      assert to == {};
    } else {
      var id :| id in from;
      forall p | p in to - {f[id]} ensures exists x :: x in from - {id} && f[x] == p {
        var x :| x in from && f[x] == p;
      }
      SameSize(from - {id}, to - {f[id]}, f);
    }
  }

  // ---- the finalized relationship columns -----------------------------------------------------------------------

  lemma {:induction false} SamePositionedKeys(cols: map<ColKey, seq<Pair>>, f: seq<nat>, key: nat)
    requires IdsFit(cols, |f|) && key in KeysOf(cols)
    ensures key in KeysOf(ByPosition(cols, f)) && Winner(ByPosition(cols, f), key) == Winner(cols, key)
  {
    KeysByPosition(cols, f);
    assert ByPosition(cols, f).Keys == cols.Keys;
    SomeKind(cols, key);
  }

  /** The column of a key answers, at a relationship's position, as the staged state means. */
  lemma {:induction false} RelColumnOwes(st: Staged, key: nat, i: nat)
    requires Settled(st) && NonEmpty(st.relCols) && Typed(st.relCols) && i < |st.rels| && key in KeysOf(st.relCols)
    ensures var f, ck := Ranks(Owners(st.rels, Out)), Winner(st.relCols, key);
            var es := Canon(PairsOf(ByPosition(st.relCols, f), ck));
            && Wf(ck.kind, es, |st.rels|)
            && Reads(ck.kind, es, |st.rels|, f[i]) == OwedRel(ViewOf(st), |st.rels|, i, key)
  {
    RanksPermute(Owners(st.rels, Out));
    AllLiveProps(st);
    PositionedOwes(st.relCols, Ranks(Owners(st.rels, Out)), ViewOf(st), key, i);
  }

  lemma {:induction false} PositionedOwes(cols: map<ColKey, seq<Pair>>, f: seq<nat>, v: View, key: nat, i: nat)
    requires IdsFit(cols, |f|) && IsPerm(f) && NonEmpty(cols) && Typed(cols) && i < |f| && key in KeysOf(cols)
    requires v.relProps == Props(cols)
    ensures var ck := Winner(cols, key);
            var es := Canon(PairsOf(ByPosition(cols, f), ck));
            && Wf(ck.kind, es, |f|) && Reads(ck.kind, es, |f|, f[i]) == OwedRel(v, |f|, i, key)
  {
    var ck, moved := Winner(cols, key), ByPosition(cols, f);
    RanksFit(cols, f);
    FamilyIsWinner(cols, key);
    FinalizedReads(ck.kind, moved[ck], |f|, f[i]);
    PositionedProp(cols, f, i, ck);
    PropsFind(cols, i, ck);
    PositionedWriters(cols, f, ck);
    if ck.kind.Str? { DenseFill(|Writers(Props(cols), ck)|, |f|); }
  }

  lemma {:induction false} RelColumnsAnswer(x: Generation, i: nat, key: nat)
    requires Answers(x) && i < |x.end.rels| && NonEmpty(x.end.relCols)
    ensures key in x.g.relColumns <==> key in KeysOf(x.end.relCols)
    ensures key !in x.g.relColumns ==> OwedRel(ViewOf(x.end), |x.end.rels|, i, key) == None
    ensures key in x.g.relColumns ==>
              var f, ck := Ranks(Owners(x.end.rels, Out)), Winner(x.end.relCols, key);
              var es := Canon(PairsOf(ByPosition(x.end.relCols, f), ck));
              && x.g.relColumns[key].kind == ck.kind && Wf(ck.kind, es, |x.end.rels|)
              && x.g.relColumns[key] == ColumnOf(ck.kind, es, |x.end.rels|)
              && Reads(ck.kind, es, |x.end.rels|, f[i]) == OwedRel(ViewOf(x.end), |x.end.rels|, i, key)
  {
    var f := Ranks(Owners(x.end.rels, Out));
    KeysByPosition(x.end.relCols, f);
    if key in KeysOf(x.end.relCols) {
      var ck := Winner(x.end.relCols, key);
      RelColumnOwes(x.end, key, i);
      SamePositionedKeys(x.end.relCols, f, key);
      KindOfColumn(ck.kind, Canon(PairsOf(ByPosition(x.end.relCols, f), ck)), |x.end.rels|);
    } else {
      AllLiveProps(x.end);
      FamilyIsWinner(x.end.relCols, key);
    }
  }

  /** `RelProp` at the position of the `i`-th staged relationship. */
  method ReadRelProp(g: Snapshot, p: nat, key: nat, ghost x: Generation, ghost i: nat) returns (r: Option<int>)
    requires Answers(x) && x.g == g && NonEmpty(x.end.relCols)
    requires i < |x.end.rels| && p == Rank(Owners(x.end.rels, Out), i)
    ensures r == OwedRel(ViewOf(x.end), |x.end.rels|, i, key)
  {
    RelColumnsAnswer(x, i, key);
    if key !in g.relColumns { return None; }
    ghost var f, ck := Ranks(Owners(x.end.rels, Out)), Winner(x.end.relCols, key);
    r := Get(g.relColumns[key], p, Canon(PairsOf(ByPosition(x.end.relCols, f), ck)), |x.end.rels|);
  }

  /** The relationship itself stands at that position, from its source, in the outgoing CSR. */
  lemma {:induction false} RelStandsThere(x: Generation, i: nat)
    requires Answers(x) && i < |x.end.rels|
    ensures var r, p := x.end.rels[i], Rank(Owners(x.end.rels, Out), i);
            && Holds(x.g.out, p, r, Out) && x.g.out.offsets[r.src] <= p < x.g.out.offsets[r.src + 1]
  {
    StandsAt(x.g.out, x.end.rels, x.g.n, i);
  }

  lemma {:induction false} StandsAt(a: Adjacency, rels: seq<Rel>, n: nat, i: nat)
    requires Lays(a, rels, Out, n) && i < |rels|
    ensures var r, p := rels[i], Rank(Owners(rels, Out), i);
            && Holds(a, p, r, Out) && r.src < n && a.offsets[r.src] <= p < a.offsets[r.src + 1]
  {
    BlockSide(Owners(rels, Out), i, rels[i].src);
    BlockSide(Owners(rels, Out), i, rels[i].src + 1);
    assert Holds(a, Rank(Owners(rels, Out), i), rels[i], Out);
  }

  // ---- compaction ----------------------------------------------------------------------------------------------

  /** A live relationship moves to the count of live ones before it and keeps its values, so long as
      every index under the key fits 31 bits. */
  lemma {:induction false} CompactMovesProps(st: Staged, i: nat, ck: ColKey)
    requires Sane(st) && i in Live(st) && IndexesFit(st, PairsOf(st.relCols, ck))
    ensures LiveBelow(st, i) < |Compact(st).rels| && Compact(st).rels[LiveBelow(st, i)] == st.rels[i]
    ensures Prop(Compact(st).relCols, LiveBelow(st, i), ck) == Prop(st.relCols, i, ck)
  {
    CompactIsEager(st);
    if HasRemovals(st) {
      CompactKeepsProps(st, ck);
      KeepSubset(PairsOf(st.relCols, ck), Live(st));
      RenumberedWrites(st, Keep(PairsOf(st.relCols, ck), Live(st)), i);
      KeptWrites(PairsOf(st.relCols, ck), Live(st), i);
    } else {
      AllLiveBelow(st, i);
    }
  }

  lemma {:induction false} KeptWrites(pairs: seq<Pair>, keep: set<nat>, id: nat)
    ensures id in LastWrites(Keep(pairs, keep)) <==> id in LastWrites(pairs) && id in keep
    ensures id in LastWrites(Keep(pairs, keep)) ==> LastWrites(Keep(pairs, keep))[id] == LastWrites(pairs)[id]
  {
    if pairs != [] {
      var init, last := pairs[..|pairs| - 1], pairs[|pairs| - 1];
      KeptWrites(init, keep, id);
      if last.id in keep { AppendedWrites(Keep(init, keep), last); }
    }
  }

  /** New ids keep live relationships apart. */
  lemma {:induction false} RenumberedWrites(st: Staged, kept: seq<Pair>, i: nat)
    requires Sane(st) && i in Live(st) && forall p :: p in kept ==> p.id in Live(st)
    ensures forall p :: p in kept ==> p.id <= |st.rels|
    ensures var w, w' := LastWrites(kept), LastWrites(Renumber(st, kept));
            && (i in w <==> LiveBelow(st, i) in w') && (i in w ==> w[i] == w'[LiveBelow(st, i)])
  {
    forall k | 0 <= k < |kept| ensures kept[k].id == i <==> Renumber(st, kept)[k].id == LiveBelow(st, i) {
      assert kept[k] in kept;
      LiveApart(st, kept[k].id, i);
    }
    RenamedWrites(kept, Renumber(st, kept), i, LiveBelow(st, i));
  }

  lemma {:induction false} LiveApart(st: Staged, i: nat, j: nat)
    requires i in Live(st) && j in Live(st)
    ensures LiveBelow(st, i) == LiveBelow(st, j) <==> i == j
  {
    if i < j { LiveBelowMonotone(st, i, j); } else if j < i { LiveBelowMonotone(st, j, i); }
  }

  /** Every relationship property has an index that fits. */
  ghost predicate AllIndexesFit(st: Staged) {
    forall ck :: ck in st.relCols ==> IndexesFit(st, st.relCols[ck])
  }

  lemma {:induction false} MovedProp(st: Staged, i: nat, ck: ColKey)
    requires Sane(st) && AllIndexesFit(st) && i in Live(st)
    ensures Prop(Compact(st).relCols, LiveBelow(st, i), ck) == Find(ViewOf(st).relProps, i, ck)
  {
    assert IndexesFit(st, PairsOf(st.relCols, ck));
    CompactMovesProps(st, i, ck);
    PropsFind(st.relCols, i, ck);
  }

  ghost function NewIndexes(st: Staged): (f: seq<nat>)
    ensures |f| == |st.rels| && forall i :: 0 <= i < |f| ==> f[i] == LiveBelow(st, i)
  {
    seq(|st.rels|, i requires 0 <= i < |st.rels| => LiveBelow(st, i))
  }

  lemma {:induction false} MovedInto(st: Staged, ck: ColKey, i: nat)
    requires Sane(st) && AllIndexesFit(st) && i in Writers(ViewOf(st).relProps, ck)
    ensures i in Live(st) && LiveBelow(st, i) in Writers(Props(Compact(st).relCols), ck)
  {
    MovedProp(st, i, ck);
    PropsFind(Compact(st).relCols, LiveBelow(st, i), ck);
    assert (LiveBelow(st, i), ck) in Props(Compact(st).relCols);
  }

  lemma {:induction false} MovedWriters(st: Staged, ck: ColKey)
    requires Sane(st) && AllIndexesFit(st)
    ensures |Writers(ViewOf(Compact(st)).relProps, ck)| == |Writers(ViewOf(st).relProps, ck)|
  {
    CompactIsSettled(st);
    AllLiveProps(Compact(st));
    SameNumber(st, ck, Writers(ViewOf(st).relProps, ck), Writers(Props(Compact(st).relCols), ck));
  }

  lemma {:induction false} SameNumber(st: Staged, ck: ColKey, from: set<nat>, to: set<nat>)
    requires Sane(st) && AllIndexesFit(st)
    requires from == Writers(ViewOf(st).relProps, ck) && to == Writers(Props(Compact(st).relCols), ck)
    ensures |from| == |to|
  {
    var f := NewIndexes(st);
    forall i | i in from ensures i < |f| && f[i] in to && i in Live(st) {
      MovedInto(st, ck, i);
    }
    forall a, b | a in from && b in from && f[a] == f[b] ensures a == b {
      LiveApart(st, a, b);
    }
    forall p | p in to ensures exists i :: i in from && f[i] == p {
      var i := CameFrom(st, ck, p);
    }
    SameSize(from, to, f);
  }

  lemma {:induction false} CameFrom(st: Staged, ck: ColKey, p: nat) returns (i: nat)
    requires Sane(st) && AllIndexesFit(st) && p in Writers(Props(Compact(st).relCols), ck)
    ensures i in Writers(ViewOf(st).relProps, ck) && i in Live(st) && LiveBelow(st, i) == p
  {
    var c := Compact(st);
    CompactIsSettled(st);
    WritersWrote(c.relCols, ck);
    WrittenIds(PairsOf(c.relCols, ck), p);
    CompactIsEager(st);
    i := CompactedSource(st, |st.rels|, p);
    MovedProp(st, i, ck);
    PropsFind(c.relCols, p, ck);
    assert (i, ck) in ViewOf(st).relProps;
  }

  /** A live relationship is owed after compaction, under its new index, what it was owed before. */
  lemma {:induction false} OwedThroughCompaction(st: Staged, i: nat, key: nat)
    requires Sane(st) && AllIndexesFit(st) && i in Live(st)
    ensures var m := |Compact(st).rels|;
            OwedRel(ViewOf(Compact(st)), m, LiveBelow(st, i), key) == OwedRel(ViewOf(st), m, i, key)
  {
    var v, c := ViewOf(st), ViewOf(Compact(st));
    CompactIsSettled(st);
    CompactIsEager(st);
    AllLiveProps(Compact(st));
    forall kind: Kind
      ensures |Writers(c.relProps, ColKey(kind, key))| == |Writers(v.relProps, ColKey(kind, key))|
      ensures Find(c.relProps, LiveBelow(st, i), ColKey(kind, key)) == Find(v.relProps, i, ColKey(kind, key))
    {
      MovedWriters(st, ColKey(kind, key));
      MovedProp(st, i, ColKey(kind, key));
      PropsFind(Compact(st).relCols, LiveBelow(st, i), ColKey(kind, key));
    }
    SameOwed(c, v, |Compact(st).rels|, LiveBelow(st, i), i, key);
  }

  lemma {:induction false} SameOwed(c: View, v: View, m: nat, j: nat, i: nat, key: nat)
    requires forall kind: Kind :: |Writers(c.relProps, ColKey(kind, key))| == |Writers(v.relProps, ColKey(kind, key))|
    requires forall kind: Kind :: Find(c.relProps, j, ColKey(kind, key)) == Find(v.relProps, i, ColKey(kind, key))
    ensures OwedRel(c, m, j, key) == OwedRel(v, m, i, key)
  {
  }

  // ---- across a thaw ---------------------------------------------------------------------------------------------

  /** The entries of a stored column last write what reads of it give. */
  lemma {:induction false} EntriesWrite(kind: Kind, es: seq<Pair>, span: nat, pos: nat)
    requires Wf(kind, es, span)
    ensures var w := LastWrites(Entries(ColumnOf(kind, es, span)));
            Reads(kind, es, span, pos) == if pos in w then Some(w[pos]) else None
  {
    EntriesAreStored(kind, es, span);
    var back := Restaged(kind, es, span);
    WrittenIds(back, pos);
    WrittenIds(es, pos);
    if kind.Str? && DenseRule(kind, |es|, span) && pos < span {
      WritesAt(back, pos);
      assert back[pos].id == pos;
    }
  }

  lemma {:induction false} ThawKeepsLabels(x: Generation, g: Snapshot, st: Staged, id: nat, l: nat)
    requires Answers(x) && Queried(x.g, g) && LabelKept(st.labels, l, g.labelIndex)
    ensures (id, l) in ViewOf(st).labels <==> (id, l) in ViewOf(x.end).labels
  {
    NodesAndLabels(x, id, l);
    assert l in LabelsOf(st.labels, id) <==> l in g.labelIndex && id in g.labelIndex[l];
  }

  lemma {:induction false} ThawKeepsProps(x: Generation, g: Snapshot, st: Staged, id: nat, ck: ColKey)
    requires Answers(x) && Queried(x.g, g) && StagedAs(st.nodeCols, ck, g.columns)
    ensures Find(ViewOf(st).props, id, ck)
         == if Family(ViewOf(x.end).props, ck.key) == Some(ck) then Owed(ViewOf(x.end), id, ck.key) else None
  {
    PropsFind(st.nodeCols, id, ck);
    ColumnsAnswer(x, id, ck.key);
    FamilyIsWinner(x.end.nodeCols, ck.key);
    if ck.key in g.columns && g.columns[ck.key].kind == ck.kind {
      EntriesWrite(ck.kind, Canon(x.end.nodeCols[Winner(x.end.nodeCols, ck.key)]), x.g.n, id);
    } else {
      assert LastWrites([]) == map[];
    }
  }

  /** A thawed builder means what the snapshot answers: the same labels, and under each key's family
      the values its reads give. */
  lemma {:induction false} ThawMeans(x: Generation, g: Snapshot, st: Staged, o: seq<nat>, id: nat, l: nat, ck: ColKey)
    requires Answers(x) && Queried(x.g, g) && ThawOf(g, st, o)
    ensures (id, l) in ViewOf(st).labels <==> (id, l) in ViewOf(x.end).labels
    ensures Find(ViewOf(st).props, id, ck)
         == if Family(ViewOf(x.end).props, ck.key) == Some(ck) then Owed(ViewOf(x.end), id, ck.key) else None
  {
    ThawKeepsLabels(x, g, st, id, l);
    ThawKeepsProps(x, g, st, id, ck);
  }
}
