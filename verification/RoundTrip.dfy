/** The no-edit round trip: Finalize, thaw, Finalize again. Everything comes back, with one
    exception: a dense string column makes nodes of the gaps it covers. */
module RoundTrip {
  import opened StableSort
  import opened Csr
  import opened Thaw
  import opened PositionMap
  import opened Columns
  import opened ColumnStore
  import opened Staging
  import opened Removal
  import opened Cow

  /** A dense string column reads every position of its span as present. */
  predicate Covers(c: Column) {
    c.Dense? && c.kind.Str?
  }

  /** Everything the snapshot holds hangs off its nodes, gaps under dense strings aside. */
  ghost predicate Anchored(g: Snapshot, rels: seq<Rel>) {
    && g.n == IdSpace(g.existence)
    && (forall i :: 0 <= i < |rels| ==> rels[i].src in g.existence && rels[i].dst in g.existence)
    && (forall l :: l in g.labelIndex ==> g.labelIndex[l] <= g.existence)
    && (forall k, i :: k in g.columns && !Covers(g.columns[k]) && 0 <= i < |Entries(g.columns[k])| ==>
          Entries(g.columns[k])[i].id in g.existence)
    && (g.columns != map[] ==> g.existence != {})
  }

  // ---- which nodes a thaw knows --------------------------------------------------------------------

  ghost predicate Labelled(g: Snapshot, x: nat) {
    exists l :: l in g.labelIndex && x in g.labelIndex[l]
  }

  ghost predicate Endpoint(rels: seq<Rel>, x: nat) {
    exists i :: 0 <= i < |rels| && Incident(rels[i], x)
  }

  ghost predicate Listed(g: Snapshot, x: nat) {
    exists k, i :: k in g.columns && 0 <= i < |Entries(g.columns[k])| && Entries(g.columns[k])[i].id == x
  }

  /** Known nodes rebuild from labels, endpoints, column positions and the existence set. */
  ghost predicate KnownByThaw(g: Snapshot, st: Staged) {
    forall x: nat :: x in st.known <==> x in g.existence || Labelled(g, x) || Endpoint(st.rels, x) || Listed(g, x)
  }

  ghost predicate HasCover(g: Snapshot) {
    exists k :: k in g.columns && Covers(g.columns[k])
  }

  /** What a caller can check: no dense string column spans an id that is no node. */
  ghost predicate GapFree(g: Snapshot) {
    HasCover(g) ==> forall x: nat :: x < g.n ==> x in g.existence
  }

  lemma EntriesInSpan(c: Column, span: nat)
    requires StoredColumn(c, span)
    ensures forall i :: 0 <= i < |Entries(c)| ==> Entries(c)[i].id < span
    ensures Covers(c) ==> |Entries(c)| == span && forall i :: 0 <= i < span ==> Entries(c)[i].id == i
  {
    var es: seq<Pair> :| es != [] && Wf(c.kind, es, span) && c == ColumnOf(c.kind, es, span);
    EntriesAreStored(c.kind, es, span);
  }

  /** Endpoints are read off the CSRs, so both staged sequences have the same. */
  lemma SameEndpoints(out: Adjacency, n: nat, a: seq<Rel>, b: seq<Rel>, i: nat) returns (j: nat)
    requires Lays(out, a, Out, n) && Lays(out, b, Out, n) && i < |b|
    ensures j < |a| && a[j] == b[i]
  {
    var pos := Ranks(Owners(b, Out));
    RanksPermute(Owners(b, Out));
    var p := pos[i];
    SameRelAtPos(out, a, b, Out, n, p);
    j := IndexOf(Ranks(Owners(a, Out)), p);
    assert IndexOf(pos, p) == i;
  }

  lemma ListedIsCovered(g: Snapshot, rels: seq<Rel>, x: nat)
    requires Finalized(g, rels) && Anchored(g, rels)
    ensures Listed(g, x) ==> x in g.existence || (HasCover(g) && x < g.n)
    ensures HasCover(g) && x < g.n ==> Listed(g, x)
  {
    if Listed(g, x) {
      var k, i :| k in g.columns && 0 <= i < |Entries(g.columns[k])| && Entries(g.columns[k])[i].id == x;
      EntriesInSpan(g.columns[k], g.n);
    }
    if HasCover(g) && x < g.n {
      var k :| k in g.columns && Covers(g.columns[k]);
      EntriesInSpan(g.columns[k], g.n);
      assert Entries(g.columns[k])[x].id == x;
    }
  }

  lemma KnownPoint(g: Snapshot, rels: seq<Rel>, st: Staged, x: nat)
    requires Finalized(g, rels) && Anchored(g, rels) && KnownByThaw(g, st)
    requires Consistent(g.out, g.inn, st.rels, g.n)
    ensures x in st.known <==> x in g.existence || (HasCover(g) && x < g.n)
  {
    ListedIsCovered(g, rels, x);
    EndpointExists(g, rels, st.rels, x);
  }

  lemma EndpointExists(g: Snapshot, rels: seq<Rel>, restaged: seq<Rel>, x: nat)
    requires Consistent(g.out, g.inn, rels, g.n) && Consistent(g.out, g.inn, restaged, g.n)
    requires forall i :: 0 <= i < |rels| ==> rels[i].src in g.existence && rels[i].dst in g.existence
    ensures Endpoint(restaged, x) ==> x in g.existence
  {
    if Endpoint(restaged, x) {
      var i :| 0 <= i < |restaged| && Incident(restaged[i], x);
      var j := SameEndpoints(g.out, g.n, rels, restaged, i);
    }
  }

  lemma SpaceWithCover(existence: set<nat>, known: set<nat>, cover: bool)
    requires forall x: nat :: x in known <==> x in existence || (cover && x < IdSpace(existence))
    requires cover ==> existence != {}
    ensures IdSpace(known) == IdSpace(existence)
    ensures known == existence <==> (cover ==> forall x: nat :: x < IdSpace(existence) ==> x in existence)
  {
    if existence != {} {
      var top := MaxOf(existence);
      assert top in known;
      assert forall x :: x in known ==> x <= top;
    } else {
      assert known == {};
    }
  }

  /** A thaw knows the nodes the snapshot has, plus whatever a dense string column spans. */
  lemma KnownAfterThaw(g: Snapshot, rels: seq<Rel>, st: Staged)
    requires Finalized(g, rels) && Anchored(g, rels) && KnownByThaw(g, st)
    requires Consistent(g.out, g.inn, st.rels, g.n)
    ensures forall x: nat :: x in st.known <==> x in g.existence || (HasCover(g) && x < g.n)
    ensures IdSpace(st.known) == g.n
    ensures st.known == g.existence <==> GapFree(g)
  {
    forall x: nat ensures x in st.known <==> x in g.existence || (HasCover(g) && x < g.n) {
      KnownPoint(g, rels, st, x);
    }
    SpaceWithCover(g.existence, st.known, HasCover(g));
  }

  // ---- the round trip ------------------------------------------------------------------------------------

  lemma ThawedKeys(cols: map<ColKey, seq<Pair>>, columns: map<nat, Column>)
    requires forall ck: ColKey :: ck in cols <==> ck.key in columns && columns[ck.key].kind == ck.kind
    ensures KeysOf(cols) == columns.Keys
  {
    forall key | key in columns ensures key in KeysOf(cols) {
      assert ColKey(columns[key].kind, key) in cols;
    }
  }

  lemma ThawStagesKeys(g: Snapshot, st: Staged, o: seq<nat>)
    requires ThawOf(g, st, o)
    ensures KeysOf(st.nodeCols) == g.columns.Keys && KeysOf(st.relCols) == g.relColumns.Keys
    ensures st.relCols != map[] <==> g.relColumns != map[]
  {
    forall ck: ColKey ensures ck in st.nodeCols <==> ck.key in g.columns && g.columns[ck.key].kind == ck.kind {
      assert StagedAs(st.nodeCols, ck, g.columns);
    }
    ThawedKeys(st.nodeCols, g.columns);
    ThawedKeys(st.relCols, g.relColumns);
    if st.relCols != map[] {
      var ck :| ck in st.relCols;
    } else {
      assert KeysOf(st.relCols) == {};
    }
  }

  lemma SaneIsSettled(st: Staged)
    requires Sane(st) && !HasRemovals(st)
    ensures Settled(st)
  {
    assert forall ck, i :: ck in st.relCols && 0 <= i < |st.relCols[ck]| ==> st.relCols[ck][i] in st.relCols[ck];
    assert forall i :: 0 <= i < |st.rels| ==> i in Live(st);
  }

  /** Nothing is dirty and every staged key is one the source has. */
  ghost predicate Unedited(g: Snapshot, st: Staged) {
    && st.cow.From? && st.cow.src == g && SharesCsr(st)
    && st.cow.dirtyNode == {} && st.cow.dirtyRel == {} && st.cow.dirtyLabels == {}
    && KeysOf(st.nodeCols) == g.columns.Keys && KeysOf(st.relCols) == g.relColumns.Keys
  }

  lemma SharedKeys(g: Snapshot, st: Staged)
    requires Unedited(g, st)
    ensures SharedNodeKeys(st) == g.columns.Keys && SharedRelKeys(st) == g.relColumns.Keys
    ensures AliasColumns(st) == g.columns
  {
  }

  /** With every column, label and CSR shared, every cache entry is carried. */
  lemma AllCarried(g: Snapshot)
    requires CachesFresh(g)
    ensures Carry(g.caches, g.columns.Keys, g.relColumns.Keys, g.labelIndex.Keys, true) == g.caches
  {
    var c, kept := g.caches, Carry(g.caches, g.columns.Keys, g.relColumns.Keys, g.labelIndex.Keys, true);
    assert kept.prop == c.prop && kept.anyProp == c.anyProp;
    assert kept.geo == c.geo;
    assert kept.colPos == c.colPos && kept.relColPos == c.relColPos;
  }

  lemma CachesAllCarried(g: Snapshot, st: Staged)
    requires CachesFresh(g) && Unedited(g, st)
    ensures CarriedCaches(st) == g.caches
  {
    SharedKeys(g, st);
    AllCarried(g);
  }

  lemma UneditedAliases(g: Snapshot, st: Staged)
    requires Unedited(g, st) && Settled(st) && CachesFresh(g) && IdSpace(st.known) == g.n
    requires (st.relCols != map[] <==> g.hasRelProps) && (!g.hasRelProps ==> g.inToOut == None)
    ensures AliasBuild(st) == g.(existence := st.known)
  {
    SharedKeys(g, st);
    CachesAllCarried(g, st);
    assert AliasRelColumns(st) == g.relColumns;
  }

  lemma ThawIsUnedited(g: Snapshot, rels: seq<Rel>, st: Staged, o: seq<nat>)
    requires Finalized(g, rels) && Anchored(g, rels) && ThawOf(g, st, o) && KnownByThaw(g, st)
    ensures Unedited(g, st) && IdSpace(st.known) == g.n
  {
    KnownAfterThaw(g, rels, st);
    ThawStagesKeys(g, st, o);
  }

  /** For every snapshot Finalize produces: an unedited thaw finalizes -- by sharing or from
      scratch -- to the same id space, topology, labels and columns. Sharing keeps the position map
      as it is; building from scratch restores a missing one. The node set is the same exactly when
      no dense string column spans a gap. */
  lemma NoEditRoundTrip(g: Snapshot, rels: seq<Rel>, st: Staged, o: seq<nat>)
    requires Finalized(g, rels) && Anchored(g, rels) && ThawOf(g, st, o) && KnownByThaw(g, st)
    ensures Settled(st) && AliasBuild(st) == g.(existence := st.known)
    ensures FullBuild(st).(inToOut := None) == g.(existence := st.known, caches := NO_CACHES, inToOut := None)
    ensures FullBuild(st).inToOut == g.inToOut <==> !g.hasRelProps || g.inToOut.Some?
    ensures AliasBuild(st) == g <==> GapFree(g)
  {
    ThawIsTracked(g, st, o, rels);
    SaneIsSettled(st);
    ThawIsUnedited(g, rels, st, o);
    ThawStagesKeys(g, st, o);
    UneditedAliases(g, st);
    KnownAfterThaw(g, rels, st);
    AliasIsFull(st, rels);
    InToOutAgreesIff(st, rels);
  }

  /** Finalize's own output is anchored, so the round trip applies to it. */
  lemma RebuildIsAnchored(st: Staged)
    requires Settled(st) && AllKnown(st) && Typed(st.nodeCols)
    ensures Anchored(FullBuild(st), st.rels)
  {
    var n, g := IdSpace(st.known), FullBuild(st);
    forall k, i | k in g.columns && !Covers(g.columns[k]) && 0 <= i < |Entries(g.columns[k])|
      ensures Entries(g.columns[k])[i].id in st.known
    {
      BuiltEntries(st.nodeCols, k, n, i);
      var ck := Winner(st.nodeCols, k);
      NodeIdsFit(st);
    }
    if g.columns != map[] {
      var k :| k in g.columns;
      var ck := Winner(st.nodeCols, k);
      assert st.nodeCols[ck][0].id in st.known;
    }
    forall l, x | l in g.labelIndex && x in g.labelIndex[l] ensures x in st.known {
      assert LabelsOf(st.labels, x) != [];
    }
  }

  lemma BuiltEntries(cols: map<ColKey, seq<Pair>>, key: nat, span: nat, i: nat)
    requires key in KeysOf(cols) && IdsFit(cols, span) && Typed(cols)
    requires !Covers(BuiltColumn(cols, key, span)) && i < |Entries(BuiltColumn(cols, key, span))|
    ensures exists j :: 0 <= j < |cols[Winner(cols, key)]|
              && cols[Winner(cols, key)][j].id == Entries(BuiltColumn(cols, key, span))[i].id
  {
    var ck := Winner(cols, key);
    var es := Canon(cols[ck]);
    CanonIsLastWrites(cols[ck]);
    forall k | 0 <= k < |es| ensures es[k] in cols[ck] {
    }
    EntriesAreStored(ck.kind, es, span);
    assert Entries(BuiltColumn(cols, key, span)) == es;
    var j :| 0 <= j < |cols[ck]| && cols[ck][j] == es[i];
  }

  /** The round trip, for everything the builder can finalize. */
  lemma EveryBuildRoundTrips(st: Staged, thawed: Staged, o: seq<nat>)
    requires Settled(st) && AllKnown(st) && TypedState(st) && NonEmpty(st.relCols)
    requires ThawOf(FullBuild(st), thawed, o) && KnownByThaw(FullBuild(st), thawed)
    ensures Settled(thawed) && FullBuild(thawed) == FullBuild(st).(existence := thawed.known)
    ensures FullBuild(thawed) == FullBuild(st) <==> GapFree(FullBuild(st))
  {
    RebuildIsFinalized(st);
    RebuildIsAnchored(st);
    NoEditRoundTrip(FullBuild(st), st.rels, thawed, o);
  }

  /** Whatever is staged from scratch, by any run of edits, finalizes to a snapshot the round trip
      and every thaw may start from. */
  lemma EveryRunFromScratch(edits: seq<Edit>)
    requires forall e :: e in edits ==> TypedEdit(e)
    ensures Sane(ApplyAll(EMPTY, edits))
    ensures var end := Compact(ApplyAll(EMPTY, edits));
            && Settled(end) && AllKnown(end)
            && Finalized(FullBuild(end), end.rels) && Anchored(FullBuild(end), end.rels)
  {
    var run := ApplyAll(EMPTY, edits);
    EmptyIsSane(EMPTY);
    EveryRunIsEager(EMPTY, edits);
    RunKeepsTyped(EMPTY, edits);
    RunKeepsKnown(EMPTY, edits);
    FinalizableRun(run);
  }

  lemma EmptyIsSane(st: Staged)
    requires st == EMPTY
    ensures Sane(st) && AllKnown(st) && TypedState(st)
  {
  }

  lemma FinalizableRun(run: Staged)
    requires Sane(run) && AllKnown(run) && TypedState(run)
    ensures var end := Compact(run);
            && Settled(end) && AllKnown(end)
            && Finalized(FullBuild(end), end.rels) && Anchored(FullBuild(end), end.rels)
  {
    var end := Compact(run);
    CompactIsSettled(run);
    CompactIsTyped(run);
    RebuildIsFinalized(end);
    RebuildIsAnchored(end);
  }

  const NAMES: ColKey := ColKey(Str, 9)

  /** Nodes 0, 1, 2 and 4, each with a string property. */
  function Gapped(): Staged {
    Staged([], {0, 1, 2, 4}, map[], map[NAMES := [Pair(0, 1), Pair(1, 1), Pair(2, 1), Pair(4, 1)]], map[], {}, map[], Unsourced)
  }

  lemma GappedIsDense(st: Staged)
    requires st == Gapped()
    ensures 9 in KeysOf(st.nodeCols) && Covers(BuiltColumn(st.nodeCols, 9, 5))
  {
    var pairs := st.nodeCols[NAMES];
    assert NAMES.key in KeysOf(st.nodeCols);
    assert Winner(st.nodeCols, 9) == NAMES;
    CanonIsIdempotent(pairs);
  }

  lemma GappedIsStaged(st: Staged)
    requires st == Gapped()
    ensures Settled(st) && AllKnown(st) && TypedState(st)
  {
  }

  lemma SpannedGap(g: Snapshot, key: nat, x: nat)
    requires key in g.columns && Covers(g.columns[key]) && x < g.n && x !in g.existence
    ensures !GapFree(g)
  {
  }

  /** Four writes over a span of five are dense for strings, so the round trip is not exact: it
      turns id 3 into a node. */
  lemma GapIsSpanned(st: Staged)
    requires st == Gapped()
    ensures Settled(st) && AllKnown(st) && TypedState(st) && !GapFree(FullBuild(st))
  {
    GappedIsStaged(st);
    var g := FullBuild(st);
    GappedSpace(st.known);
    GappedColumns(st, g);
    SpannedGap(g, 9, 3);
  }

  lemma GappedSpace(known: set<nat>)
    requires known == {0, 1, 2, 4}
    ensures IdSpace(known) == 5
  {
    assert 4 in known;
  }

  lemma GappedColumns(st: Staged, g: Snapshot)
    requires st == Gapped() && g.columns == ColumnsOf(st.nodeCols, 5)
    ensures 9 in g.columns && Covers(g.columns[9])
  {
    GappedIsDense(st);
  }
}
