/** What a finalized snapshot answers, against what the edits mean: nodes, labels and property reads,
    for a first build, for every later generation and across a thaw. */
module Reading {
  import opened StableSort
  import opened Csr
  import opened Columns
  import opened ColumnStore
  import opened Staging
  import opened Removal
  import opened Cow
  import opened RoundTrip
  import opened Meaning
  import opened Builder
  import opened Generations

  // ---- the answers owed --------------------------------------------------------------------------------------

  /** The nodes holding a value under a typed key. */
  function Writers(props: map<(nat, ColKey), int>, ck: ColKey): set<nat> {
    set k | k in props && k.1 == ck :: k.0
  }

  /** One family answers for a key: strings before booleans before floats before integers. */
  function Family(props: map<(nat, ColKey), int>, key: nat): Option<ColKey> {
    if Writers(props, ColKey(Str, key)) != {} then Some(ColKey(Str, key))
    else if Writers(props, ColKey(Bool, key)) != {} then Some(ColKey(Bool, key))
    else if Writers(props, ColKey(F64, key)) != {} then Some(ColKey(F64, key))
    else if Writers(props, ColKey(I64, key)) != {} then Some(ColKey(I64, key))
    else None
  }

  /** A read owes the value the node holds in the key's family -- or, for strings filling four fifths
      of the id space, rounded down, atom 0 at the ids between. */
  ghost function Owed(v: View, node: nat, key: nat): Option<int> {
    var ck := Family(v.props, key);
    if ck.None? then None
    else if (node, ck.value) in v.props then Some(v.props[(node, ck.value)])
    else if ck.value.kind.Str? && node < IdSpace(v.nodes) && 5 * |Writers(v.props, ck.value)| + 5 > 4 * IdSpace(v.nodes)
    then Some(0)
    else None
  }

  // ---- columns -------------------------------------------------------------------------------------------------

  lemma {:induction false} WritersWrote(cols: map<ColKey, seq<Pair>>, ck: ColKey)
    ensures Writers(Props(cols), ck) == LastWrites(PairsOf(cols, ck)).Keys
  {
    forall id: nat ensures id in Writers(Props(cols), ck) <==> id in LastWrites(PairsOf(cols, ck)) {
      PropsFind(cols, id, ck);
      if id in LastWrites(PairsOf(cols, ck)) { assert (id, ck) in Props(cols); }
    }
  }

  lemma {:induction false} UsedIffStaged(cols: map<ColKey, seq<Pair>>, ck: ColKey)
    requires NonEmpty(cols)
    ensures Writers(Props(cols), ck) != {} <==> ck in cols
  {
    WritersWrote(cols, ck);
    if ck in cols {
      WrittenIds(cols[ck], cols[ck][0].id);
    } else {
      assert LastWrites([]) == map[];
    }
  }

  lemma {:induction false} FamilyIsWinner(cols: map<ColKey, seq<Pair>>, key: nat)
    requires NonEmpty(cols)
    ensures Family(Props(cols), key) == if key in KeysOf(cols) then Some(Winner(cols, key)) else None
  {
    UsedIffStaged(cols, ColKey(Str, key));
    UsedIffStaged(cols, ColKey(Bool, key));
    UsedIffStaged(cols, ColKey(F64, key));
    UsedIffStaged(cols, ColKey(I64, key));
    if key in KeysOf(cols) {
      SomeKind(cols, key);
    }
  }

  lemma {:induction false} AscendingCount(es: seq<Pair>)
    requires Ascending(es)
    ensures |LastWrites(es).Keys| == |es|
  {
    if es != [] {
      var init, last := es[..|es| - 1], es[|es| - 1];
      AscendingCount(init);
      WrittenIds(init, last.id);
      assert LastWrites(es).Keys == LastWrites(init).Keys + {last.id};
    }
  }

  lemma {:induction false} FillIsWriters(cols: map<ColKey, seq<Pair>>, ck: ColKey)
    ensures |Canon(PairsOf(cols, ck))| == |Writers(Props(cols), ck)|
  {
    CanonIsLastWrites(PairsOf(cols, ck));
    AscendingCount(Canon(PairsOf(cols, ck)));
    WritersWrote(cols, ck);
  }

  /** Four fifths of the span, rounded down. */
  lemma {:induction false} DenseFill(fill: nat, span: nat)
    ensures DenseRule(Str, fill, span) <==> 5 * fill + 5 > 4 * span
  {
  }

  /** The finalized column of a key answers as the staged state means. */
  lemma {:induction false} ColumnOwes(st: Staged, key: nat, node: nat)
    requires NonEmpty(st.nodeCols) && Typed(st.nodeCols) && IdsFit(st.nodeCols, IdSpace(st.known)) && key in KeysOf(st.nodeCols)
    ensures var ck := Winner(st.nodeCols, key);
            && Wf(ck.kind, Canon(st.nodeCols[ck]), IdSpace(st.known))
            && Reads(ck.kind, Canon(st.nodeCols[ck]), IdSpace(st.known), node) == Owed(ViewOf(st), node, key)
  {
    var ck, n := Winner(st.nodeCols, key), IdSpace(st.known);
    FamilyIsWinner(st.nodeCols, key);
    FinalizedReads(ck.kind, st.nodeCols[ck], n, node);
    PropsFind(st.nodeCols, node, ck);
    FillIsWriters(st.nodeCols, ck);
    if ck.kind.Str? { DenseFill(|Writers(Props(st.nodeCols), ck)|, n); }
  }

  lemma {:induction false} NoColumnOwesNothing(st: Staged, key: nat, node: nat)
    requires NonEmpty(st.nodeCols) && key !in KeysOf(st.nodeCols)
    ensures Owed(ViewOf(st), node, key) == None
  {
    FamilyIsWinner(st.nodeCols, key);
  }

  // ---- a generation's answers -------------------------------------------------------------------------------

  /** A generation whose staged state hangs together, as every history's does. */
  ghost predicate Answers(x: Generation) {
    Sound(x) && AllKnown(x.end) && TypedState(x.end)
  }

  lemma {:induction false} FirstAnswers(edits: seq<Edit>, x: Generation)
    requires TypedRound(edits) && Finalizes(ApplyAll(EMPTY, edits), x)
    ensures Answers(x)
  {
    FirstIsSound(edits, x);
    EmptyIsSane(EMPTY);
    RunKeepsKnown(EMPTY, edits);
    RunKeepsTyped(EMPTY, edits);
    CompactIsTyped(ApplyAll(EMPTY, edits));
  }

  lemma {:induction false} NextAnswers(x: Generation, edits: seq<Edit>, y: Generation)
    requires Sound(x) && TypedRound(edits) && Succeeds(x, edits, y)
    ensures Answers(y)
  {
    SuccessorIsSound(x, edits, y);
    var g: Snapshot, st: Staged, o: seq<nat> :|
      Queried(x.g, g) && ThawOf(g, st, o) && KnownByThaw(g, st) && Finalizes(ApplyAll(st, edits), y);
    QueriedIsSound(x, g);
    ThawIsTracked(g, st, o, x.end.rels);
    ThawIsTyped(g, x.end.rels, st, o);
    EveryGeneration(st, edits, x.end.rels);
  }

  /** The nodes are those known, and a label's set holds exactly the nodes with the label. */
  lemma {:induction false} NodesAndLabels(x: Generation, id: nat, l: nat)
    requires Answers(x)
    ensures x.g.existence == ViewOf(x.end).nodes && x.g.n == IdSpace(ViewOf(x.end).nodes)
    ensures (id, l) in ViewOf(x.end).labels <==> l in x.g.labelIndex && id in x.g.labelIndex[l]
  {
    LabelIndexHolds(x.end, IdSpace(x.end.known), id, l);
  }

  lemma {:induction false} LabelIndexHolds(st: Staged, n: nat, id: nat, l: nat)
    requires AllKnown(st) && n == IdSpace(st.known)
    ensures (id, l) in Labels(st.labels) <==> l in LabelIndexOf(st.labels, n) && id in LabelIndexOf(st.labels, n)[l]
  {
    if (id, l) in Labels(st.labels) {
      assert LabelsOf(st.labels, id) != [];
      assert id in Members(st.labels, n, l);
    }
  }

  /** `Prop` on the snapshot: absent without a column, else what the column holds. */
  method ReadNodeProp(g: Snapshot, node: nat, key: nat, ghost x: Generation) returns (r: Option<int>)
    requires Answers(x) && x.g == g
    ensures r == Owed(ViewOf(x.end), node, key)
  {
    ColumnsAnswer(x, node, key);
    if key !in g.columns { return None; }
    r := Get(g.columns[key], node, Canon(x.end.nodeCols[Winner(x.end.nodeCols, key)]), g.n);
  }

  lemma {:induction false} ColumnsAnswer(x: Generation, node: nat, key: nat)
    requires Answers(x)
    ensures key in x.g.columns <==> key in KeysOf(x.end.nodeCols)
    ensures key !in x.g.columns ==> Owed(ViewOf(x.end), node, key) == None
    ensures key in x.g.columns ==>
              var ck := Winner(x.end.nodeCols, key);
              var es := Canon(x.end.nodeCols[ck]);
              && x.g.columns[key].kind == ck.kind && Wf(ck.kind, es, x.g.n) && x.g.columns[key] == ColumnOf(ck.kind, es, x.g.n)
              && Reads(ck.kind, es, x.g.n, node) == Owed(ViewOf(x.end), node, key)
  {
    NodeIdsFit(x.end);
    if key in KeysOf(x.end.nodeCols) {
      var ck := Winner(x.end.nodeCols, key);
      ColumnOwes(x.end, key, node);
      KindOfColumn(ck.kind, Canon(x.end.nodeCols[ck]), x.g.n);
    } else {
      NoColumnOwesNothing(x.end, key, node);
    }
  }

  // ---- from the edits to the answers -------------------------------------------------------------------------

  /** Folding removals in changes neither nodes nor labels nor node properties. */
  lemma {:induction false} CompactMeans(st: Staged)
    requires Sane(st)
    ensures var c, v := ViewOf(Compact(st)), ViewOf(st);
            c.nodes == v.nodes && c.labels == v.labels && c.props == v.props
  {
  }

  /** What the edits mean, a read of the finalized snapshot gives. */
  lemma {:induction false} OwedByEdits(st: Staged, edits: seq<Edit>, x: Generation, node: nat, key: nat)
    requires Sane(st) && Finalizes(ApplyAll(st, edits), x)
    ensures var v := DoAll(ViewOf(st), edits);
            && Owed(ViewOf(x.end), node, key) == Owed(v, node, key)
            && ViewOf(x.end).labels == v.labels && ViewOf(x.end).nodes == v.nodes
  {
    EveryRunMeans(st, edits);
    CompactMeans(ApplyAll(st, edits));
  }

  /** Edit by edit on a new builder, Finalize, read: the answers are those of the graph the edits
      describe. */
  method StageAndRead(edits: seq<Edit>, node: nat, key: nat, l: nat) returns (value: Option<int>, present: bool, labelled: bool)
    requires TypedRound(edits)
    ensures value == Owed(DoAll(NOTHING, edits), node, key)
    ensures present <==> node in DoAll(NOTHING, edits).nodes
    ensures labelled <==> (node, l) in DoAll(NOTHING, edits).labels
  {
    ghost var x;
    var g;
    g, x := FirstRound(edits);
    FirstAnswers(edits, x);
    EmptyMeansNothing(EMPTY);
    OwedByEdits(EMPTY, edits, x, node, key);
    NodesAndLabels(x, node, l);
    value := ReadNodeProp(g, node, key, x);
    present := node in g.existence;
    labelled := l in g.labelIndex && node in g.labelIndex[l];
  }
}
