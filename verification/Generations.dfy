/** Round after round: finalize, thaw, edit, finalize again. What one Finalize promises of its
    snapshot holds of every snapshot of every history that starts from the empty builder. */
module Generations {
  import opened StableSort
  import opened Csr
  import opened Thaw
  import opened Columns
  import opened ColumnStore
  import opened Staging
  import opened Removal
  import opened Cow
  import opened RoundTrip
  import opened Builder
  import opened ThawBuilder

  // ---- one round's premises ----------------------------------------------------------------------------

  lemma StoredIsTyped(c: Column, span: nat)
    requires StoredColumn(c, span) && c.kind.I64?
    ensures forall i :: 0 <= i < |Entries(c)| ==> InI64(Entries(c)[i].val)
  {
    var es: seq<Pair> :| es != [] && Wf(c.kind, es, span) && c == ColumnOf(c.kind, es, span);
    RestagedColumn(c.kind, es, span);
  }

  /** Stored integers are 64-bit, so restaging them leaves a state whose integers are. */
  lemma ThawIsTyped(g: Snapshot, rels: seq<Rel>, st: Staged, o: seq<nat>)
    requires Finalized(g, rels) && ThawOf(g, st, o)
    ensures TypedState(st)
  {
    NodeColumnsTyped(g, st);
    RelColumnsTyped(g, st, o, |rels|);
  }

  lemma NodeColumnsTyped(g: Snapshot, st: Staged)
    requires forall ck: ColKey :: StagedAs(st.nodeCols, ck, g.columns)
    requires forall k :: k in g.columns ==> StoredColumn(g.columns[k], g.n)
    ensures Typed(st.nodeCols)
  {
    forall ck | ck in st.nodeCols && ck.kind.I64?
      ensures forall i :: 0 <= i < |st.nodeCols[ck]| ==> InI64(st.nodeCols[ck][i].val)
    {
      assert StagedAs(st.nodeCols, ck, g.columns);
      StoredIsTyped(g.columns[ck.key], g.n);
    }
  }

  lemma RelColumnsTyped(g: Snapshot, st: Staged, o: seq<nat>, m: nat)
    requires forall k :: k in g.relColumns ==> StoredColumn(g.relColumns[k], m)
    requires forall ck :: ck in st.relCols ==> ck.key in g.relColumns && g.relColumns[ck.key].kind == ck.kind
    requires forall ck :: ck in st.relCols ==> ThawedThrough(st.relCols[ck], Entries(g.relColumns[ck.key]), o)
    ensures Typed(st.relCols)
  {
    forall ck | ck in st.relCols && ck.kind.I64?
      ensures forall i :: 0 <= i < |st.relCols[ck]| ==> InI64(st.relCols[ck][i].val)
    {
      StoredIsTyped(g.relColumns[ck.key], m);
      assert ThawedThrough(st.relCols[ck], Entries(g.relColumns[ck.key]), o);
    }
  }

  /** Being anchored is about the id space, the nodes, the labels and the columns. */
  lemma AnchoredAlike(g: Snapshot, full: Snapshot, rels: seq<Rel>)
    requires Anchored(full, rels)
    requires g.(inToOut := None, caches := NO_CACHES) == full.(inToOut := None, caches := NO_CACHES)
    ensures Anchored(g, rels)
  {
  }

  // ---- histories ------------------------------------------------------------------------------------------

  /** A staged state, removals folded in, and the snapshot finalized from it. */
  datatype Generation = Generation(end: Staged, g: Snapshot)

  /** `x` is what Finalize makes of `st`. */
  ghost predicate Finalizes(st: Staged, x: Generation) {
    && Sane(st) && x.end == Compact(st) && Settled(x.end)
    && x.g == if st.cow.From? then AliasBuild(x.end) else FullBuild(x.end)
  }

  /** `g` is `x` once queries have built whatever indexes they built. */
  ghost predicate Queried(x: Snapshot, g: Snapshot) {
    CachesFresh(g) && g == x.(caches := g.caches)
  }

  /** `y` comes of thawing `x`'s snapshot, queried or not, running `edits` and finalizing. */
  ghost predicate Succeeds(x: Generation, edits: seq<Edit>, y: Generation) {
    exists g: Snapshot, st: Staged, o: seq<nat> ::
      Queried(x.g, g) && ThawOf(g, st, o) && KnownByThaw(g, st) && Finalizes(ApplyAll(st, edits), y)
  }

  /** Rounds of edits and the generations they led to, the latest outermost. */
  datatype History = Beginning | Round(past: History, edits: seq<Edit>, gen: Generation)

  /** The first generation is staged from scratch, every other one thawed from its predecessor. */
  ghost predicate Follows(past: History, edits: seq<Edit>, y: Generation) {
    if past.Beginning? then Finalizes(ApplyAll(EMPTY, edits), y) else Succeeds(past.gen, edits, y)
  }

  ghost predicate Genuine(h: History) {
    h.Round? ==> Genuine(h.past) && TypedRound(h.edits) && Follows(h.past, h.edits, h.gen)
  }

  /** The rounds' edits, in order. */
  ghost function Rounds(h: History): seq<seq<Edit>> {
    if h.Beginning? then [] else Rounds(h.past) + [h.edits]
  }

  /** The rounds' snapshots, in order. */
  ghost function Snapshots(h: History): seq<Snapshot> {
    if h.Beginning? then [] else Snapshots(h.past) + [h.gen.g]
  }

  ghost predicate TypedRound(edits: seq<Edit>) {
    forall e :: e in edits ==> TypedEdit(e)
  }

  /** The generation is the full rebuild of its staged state, position map and caches aside; the
      map it holds, if any, is the right one; its caches are fresh; and it can be thawed. */
  ghost predicate Sound(x: Generation) {
    && Settled(x.end) && |x.end.rels| <= CEILING
    && x.g.(inToOut := None, caches := NO_CACHES) == FullBuild(x.end).(inToOut := None)
    && Finalized(x.g, x.end.rels) && Anchored(x.g, x.end.rels)
  }

  lemma FirstIsSound(edits: seq<Edit>, x: Generation)
    requires TypedRound(edits) && Finalizes(ApplyAll(EMPTY, edits), x)
    ensures Sound(x) && x.end.cow.Unsourced?
  {
    EveryRunFromScratch(edits);
    StaysUnsourced(EMPTY, edits);
    CompactedAtMost(ApplyAll(EMPTY, edits), |ApplyAll(EMPTY, edits).rels|);
  }

  lemma EditStaysUnsourced(st: Staged, e: Edit)
    requires st.cow.Unsourced?
    ensures Apply(st, e).cow.Unsourced?
  {
    match e
    case EditAddNode(_, _) =>
    case EditAddRel(_, _, _) =>
    case EditRemoveRel(_) =>
    case EditRemoveNode(_) =>
    case EditUpdateProp(node, ck, _) => assert RemoveProp(st, node, ck.key).cow.Unsourced?;
    case _ =>
  }

  lemma {:induction false} StaysUnsourced(st: Staged, edits: seq<Edit>)
    requires st.cow.Unsourced?
    ensures ApplyAll(st, edits).cow.Unsourced?
  {
    if edits != [] {
      StaysUnsourced(st, edits[..|edits| - 1]);
      EditStaysUnsourced(ApplyAll(st, edits[..|edits| - 1]), edits[|edits| - 1]);
    }
  }

  /** From one sound generation to the next, whichever thaw and whatever edits. The position map
      goes missing exactly when relationship columns meet a CSR shared from a map-less source. */
  lemma NextIsSound(x: Generation, st: Staged, o: seq<nat>, edits: seq<Edit>)
    requires Sound(x) && ThawOf(x.g, st, o) && KnownByThaw(x.g, st) && TypedRound(edits)
    ensures Sane(ApplyAll(st, edits))
    ensures var end := Compact(ApplyAll(st, edits));
            && Settled(end) && end.cow.From? && end.cow.src == x.g
            && Sound(Generation(end, AliasBuild(end)))
            && (AliasBuild(end).inToOut == FullBuild(end).inToOut
                <==> end.relCols == map[] || !SharesCsr(end) || x.g.inToOut.Some?)
  {
    ThawIsTracked(x.g, st, o, x.end.rels);
    ThawIsTyped(x.g, x.end.rels, st, o);
    EveryRunFinalizesAlike(st, edits, x.end.rels);
    EveryGeneration(st, edits, x.end.rels);
    var end := Compact(ApplyAll(st, edits));
    RebuildIsAnchored(end);
    AnchoredAlike(AliasBuild(end), FullBuild(end), end.rels);
  }

  lemma SuccessorIsSound(x: Generation, edits: seq<Edit>, y: Generation)
    requires Sound(x) && TypedRound(edits) && Succeeds(x, edits, y)
    ensures Sound(y) && y.end.cow.From? && Queried(x.g, y.end.cow.src)
    ensures y.g.inToOut == FullBuild(y.end).inToOut
       <==> y.end.relCols == map[] || !SharesCsr(y.end) || x.g.inToOut.Some?
  {
    var g: Snapshot, st: Staged, o: seq<nat> :|
      Queried(x.g, g) && ThawOf(g, st, o) && KnownByThaw(g, st) && Finalizes(ApplyAll(st, edits), y);
    QueriedIsSound(x, g);
    NextIsSound(Generation(x.end, g), st, o, edits);
  }

  /** Queries leave a sound snapshot sound. */
  lemma QueriedIsSound(x: Generation, g: Snapshot)
    requires Sound(x) && Queried(x.g, g)
    ensures Sound(Generation(x.end, g))
  {
  }

  ghost predicate AllSound(h: History) {
    h.Round? ==> AllSound(h.past) && Sound(h.gen)
  }

  lemma RoundIsSound(past: History, edits: seq<Edit>, y: Generation)
    requires AllSound(past) && TypedRound(edits) && Follows(past, edits, y)
    ensures Sound(y)
  {
    if past.Beginning? {
      FirstIsSound(edits, y);
    } else {
      SuccessorIsSound(past.gen, edits, y);
    }
  }

  /** Every history from the empty builder, however many rounds: each snapshot in it is the full
      rebuild of what was staged at the time. */
  lemma {:induction false} EveryHistoryIsSound(h: History)
    requires Genuine(h)
    ensures AllSound(h)
  {
    if h.Round? {
      EveryHistoryIsSound(h.past);
      RoundIsSound(h.past, h.edits, h.gen);
    }
  }

  /** Where a history loses the position map. */
  lemma MapMissingIff(h: History, x: Generation, y: Generation)
    requires Genuine(h) && h.Round? && h.past.Round? && x == h.past.gen && y == h.gen
    ensures && Settled(y.end) && y.end.cow.From?
            && (y.g.inToOut == FullBuild(y.end).inToOut
                <==> y.end.relCols == map[] || !SharesCsr(y.end) || x.g.inToOut.Some?)
  {
    EveryHistoryIsSound(h.past);
    SuccessorIsSound(x, h.edits, y);
  }

  // ---- running a history ------------------------------------------------------------------------------

  /** One edit through the builder's own methods. */
  method Perform(b: Builder, e: Edit)
    requires b.Valid()
    modifies b
    ensures b.Valid() && b.State() == Apply(old(b.State()), e)
  {
    match e
    case EditAddNode(id, ls) => var _ := b.AddNode(id, ls);
    case EditAddRel(u, v, t) => var _ := b.AddRel(u, v, t);
    case EditRemoveRel(i) => var _ := b.RemoveRel(i);
    case EditRemoveNode(id) => var _ := b.RemoveNode(id);
    case EditSetProp(node, ck, val) => var _ := b.SetProp(node, ck, val);
    case EditUpdateProp(node, ck, val) => var _ := b.UpdateProp(node, ck, val);
    case EditRemoveProp(node, key) => var _ := b.RemoveProp(node, key);
    case EditSetRelProp(i, ck, val) => var _ := b.SetRelPropAt(i, ck, val);
    case EditRemoveRelProp(i, key) => var _, _ := b.RemoveRelPropAt(i, key);
  }

  method PerformAll(b: Builder, edits: seq<Edit>)
    requires b.Valid()
    modifies b
    ensures b.Valid() && b.State() == ApplyAll(old(b.State()), edits)
  {
    for k := 0 to |edits|
      invariant b.Valid() && b.State() == ApplyAll(old(b.State()), edits[..k])
    {
      assert edits[..k + 1][..k] == edits[..k];
      Perform(b, edits[k]);
    }
    assert edits[..|edits|] == edits;
  }

  /** The first round: a new builder, its edits, Finalize. */
  method FirstRound(edits: seq<Edit>) returns (g: Snapshot, ghost x: Generation)
    requires TypedRound(edits)
    ensures x.g == g && Finalizes(ApplyAll(EMPTY, edits), x) && g.n <= CEILING
  {
    var b := new Builder(0);
    PerformAll(b, edits);
    ghost var run := b.State();
    EveryRunFromScratch(edits);
    StaysUnsourced(EMPTY, edits);
    RunKeepsKnown(EMPTY, edits);
    g := b.Finalize();
    x := Generation(Compact(run), g);
    SpaceFits(b.knownNodes, |b.degOut|);
  }

  lemma SpaceFits(known: set<nat>, size: nat)
    requires size >= 1 && forall id :: id in known ==> id < size
    ensures IdSpace(known) <= size
  {
  }

  /** A later round: thaw, edit, Finalize. `before` is the last snapshot as queries left it. */
  method NextRound(before: Snapshot, edits: seq<Edit>, ghost x: Generation) returns (g: Snapshot, ghost y: Generation)
    requires TypedRound(edits) && Sound(x) && Queried(x.g, before) && before.n <= CEILING
    ensures y.g == g && Succeeds(x, edits, y) && g.n <= CEILING
  {
    QueriedIsSound(x, before);
    ghost var st, o, run;
    g, st, o, run := ThawedRound(before, edits, Generation(x.end, before));
    y := Generation(Compact(run), g);
    ByThisThaw(x, before, st, o, edits, run, y);
  }

  method ThawedRound(before: Snapshot, edits: seq<Edit>, ghost x: Generation)
    returns (g: Snapshot, ghost st: Staged, ghost o: seq<nat>, ghost run: Staged)
    requires TypedRound(edits) && Sound(x) && x.g == before && before.n <= CEILING
    ensures ThawOf(before, st, o) && KnownByThaw(before, st) && run == ApplyAll(st, edits)
    ensures Sane(run) && Finalizes(run, Generation(Compact(run), g)) && g.n <= CEILING
  {
    var b;
    b, o := NewBuilderFromSnapshot(before, x.end.rels);
    st := b.State();
    PerformAll(b, edits);
    run := b.State();
    ThawIsTracked(before, st, o, x.end.rels);
    EveryRunIsTracked(st, edits);
    NextIsSound(x, st, o, edits);
    g := b.Finalize();
    SpaceFits(b.knownNodes, |b.degOut|);
  }

  lemma ByThisThaw(x: Generation, g: Snapshot, st: Staged, o: seq<nat>, edits: seq<Edit>, run: Staged, y: Generation)
    requires Queried(x.g, g) && ThawOf(g, st, o) && KnownByThaw(g, st) && run == ApplyAll(st, edits) && Finalizes(run, y)
    ensures Succeeds(x, edits, y)
  {
  }

  // ---- queries in between -------------------------------------------------------------------------------

  /** An equality index per label and property. */
  function PropIndexes(columns: map<nat, Column>, labels: map<nat, set<nat>>): (r: map<(nat, nat), (Column, set<nat>)>)
    ensures forall p :: p in r ==> p.1 in columns && p.0 in labels && r[p] == (columns[p.1], labels[p.0])
  {
    var pairs := set l, k | l in labels && k in columns :: (l, k);
    map p | p in pairs :: (columns[p.1], labels[p.0])
  }

  /** A geo index per label and pair of properties. */
  function GeoIndexes(columns: map<nat, Column>, labels: map<nat, set<nat>>): (r: map<(nat, nat, nat), (Column, Column, set<nat>)>)
    ensures forall t :: t in r ==>
              t.1 in columns && t.2 in columns && t.0 in labels && r[t] == (columns[t.1], columns[t.2], labels[t.0])
  {
    var triples := set l, a, b | l in labels && a in columns && b in columns :: (l, a, b);
    map t | t in triples :: (columns[t.1], columns[t.2], labels[t.0])
  }

  /** Every index a query could ask for, forest roots as they are. */
  function EveryIndex(g: Snapshot): Caches {
    Caches(PropIndexes(g.columns, g.labelIndex), g.columns, GeoIndexes(g.columns, g.labelIndex),
           g.caches.roots, g.columns, g.relColumns)
  }

  /** Built from what the snapshot holds, they are fresh; so a history may have any of them built
      before each thaw. */
  lemma EveryIndexIsFresh(g: Snapshot)
    requires CachesFresh(g)
    ensures Queried(g, g.(caches := EveryIndex(g)))
  {
    BuiltFromNow(g, PropIndexes(g.columns, g.labelIndex), GeoIndexes(g.columns, g.labelIndex));
  }

  lemma BuiltFromNow(g: Snapshot, prop: map<(nat, nat), (Column, set<nat>)>, geo: map<(nat, nat, nat), (Column, Column, set<nat>)>)
    requires CachesFresh(g)
    requires forall p :: p in prop ==> p.1 in g.columns && p.0 in g.labelIndex && prop[p] == (g.columns[p.1], g.labelIndex[p.0])
    requires forall t :: t in geo ==>
               t.1 in g.columns && t.2 in g.columns && t.0 in g.labelIndex
               && geo[t] == (g.columns[t.1], g.columns[t.2], g.labelIndex[t.0])
    ensures CachesFresh(g.(caches := Caches(prop, g.columns, geo, g.caches.roots, g.columns, g.relColumns)))
  {
  }

  /** What queries do to a snapshot's caches between two rounds. */
  ghost predicate BuildsFresh(query: Snapshot -> Caches) {
    forall g :: CachesFresh(g) ==> CachesFresh(g.(caches := query(g)))
  }

  lemma QueriesKeepFresh(g: Snapshot, query: Snapshot -> Caches)
    requires BuildsFresh(query) && CachesFresh(g)
    ensures Queried(g, g.(caches := query(g)))
  {
  }

  /** One more generation. */
  method ExtendHistory(gs: seq<Snapshot>, edits: seq<Edit>, query: Snapshot -> Caches, ghost past: History)
    returns (g: Snapshot, ghost y: Generation)
    requires Genuine(past) && gs == Snapshots(past) && TypedRound(edits) && BuildsFresh(query)
    requires LastThaws(gs)
    ensures Genuine(Round(past, edits, y)) && y.g == g && g.n <= CEILING
  {
    if gs == [] {
      g, y := FirstRound(edits);
    } else {
      EveryHistoryIsSound(past);
      var last := gs[|gs| - 1];
      QueriesKeepFresh(last, query);
      g, y := NextRound(last.(caches := query(last)), edits, past.gen);
    }
  }

  /** `h` tells of these rounds and these snapshots. */
  ghost predicate Tells(h: History, rounds: seq<seq<Edit>>, gs: seq<Snapshot>) {
    Rounds(h) == rounds && Snapshots(h) == gs
  }

  lemma TellsMore(h: History, rounds: seq<seq<Edit>>, k: nat, gs: seq<Snapshot>, y: Generation)
    requires k < |rounds| && Tells(h, rounds[..k], gs)
    ensures Tells(Round(h, rounds[k], y), rounds[..k + 1], gs + [y.g])
  {
    assert rounds[..k + 1] == rounds[..k] + [rounds[k]];
  }

  /** Any rounds of any edits can be run, from the empty builder on, with any queries in between:
      the snapshots returned are those of a history of just these rounds. */
  method RunRounds(rounds: seq<seq<Edit>>, query: Snapshot -> Caches) returns (gs: seq<Snapshot>, ghost h: History)
    requires (forall k :: 0 <= k < |rounds| ==> TypedRound(rounds[k])) && BuildsFresh(query)
    ensures Genuine(h) && Tells(h, rounds, gs)
  {
    gs, h := [], Beginning;
    for k := 0 to |rounds|
      invariant Genuine(h) && Tells(h, rounds[..k], gs) && LastThaws(gs)
    {
      gs, h := OneRound(gs, h, rounds, k, query);
    }
    assert rounds[..|rounds|] == rounds;
  }

  /** The last snapshot is small enough to thaw. */
  predicate LastThaws(gs: seq<Snapshot>) {
    gs == [] || gs[|gs| - 1].n <= CEILING
  }

  method OneRound(gs: seq<Snapshot>, ghost h: History, rounds: seq<seq<Edit>>, k: nat, query: Snapshot -> Caches)
    returns (gs': seq<Snapshot>, ghost h': History)
    requires k < |rounds| && TypedRound(rounds[k]) && BuildsFresh(query)
    requires Genuine(h) && Tells(h, rounds[..k], gs) && LastThaws(gs)
    ensures Genuine(h') && Tells(h', rounds[..k + 1], gs') && LastThaws(gs')
  {
    ghost var y;
    var g;
    g, y := ExtendHistory(gs, rounds[k], query, h);
    TellsMore(h, rounds, k, gs, y);
    gs', h' := gs + [g], Round(h, rounds[k], y);
  }
}
