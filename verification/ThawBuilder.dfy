/** `NewBuilderFromSnapshot`: the builder a thaw makes, restaged through the builder's own staging
    core and then marked as the snapshot's successor. */
module ThawBuilder {
  import opened StableSort
  import opened Csr
  import opened InToOut
  import opened Thaw
  import opened Columns
  import opened ColumnStore
  import opened Staging
  import opened Removal
  import opened Cow
  import opened RoundTrip
  import opened Builder

  // ---- labels --------------------------------------------------------------------------------------------

  ghost predicate HasLabel(labels: map<nat, seq<nat>>, id: nat, k: nat) {
    k in LabelsOf(labels, id)
  }

  ghost predicate Member(index: map<nat, set<nat>>, l: nat, id: nat) {
    l in index && id in index[l]
  }

  /** The per-label sets seen so far, inverted: those of `done`, and `some` of the nodes of `l`. */
  ghost predicate Inverted(labels: map<nat, seq<nat>>, index: map<nat, set<nat>>, done: set<nat>, l: nat, some: set<nat>) {
    forall id: nat, k: nat {:trigger HasLabel(labels, id, k)} ::
      HasLabel(labels, id, k) <==> (k in done && Member(index, k, id)) || (k == l && id in some)
  }

  method ThawLabels(index: map<nat, set<nat>>) returns (labels: map<nat, seq<nat>>, known: set<nat>)
    ensures forall l: nat :: LabelKept(labels, l, index)
    ensures forall id: nat :: id in known <==> exists l :: Member(index, l, id)
    ensures forall id: nat :: LabelsOf(labels, id) != [] ==> id in known
  {
    labels, known := map[], {};
    var todo, done: set<nat> := index.Keys, {};
    while todo != {}
      invariant done + todo == index.Keys && done !! todo
      invariant Inverted(labels, index, done, 0, {}) && MembersOf(known, index, done)
      invariant forall id: nat :: LabelsOf(labels, id) != [] ==> id in known
    {
      var l :| l in todo;
      MembersGrow(known, index, done, l);
      labels := NoteMembers(labels, index, done, l);
      known := known + index[l];
      todo, done := todo - {l}, done + {l};
    }
    assert done == index.Keys;
    InvertedAll(labels, known, index);
  }

  ghost predicate MembersOf(known: set<nat>, index: map<nat, set<nat>>, done: set<nat>) {
    forall id: nat :: id in known <==> exists l :: l in done && Member(index, l, id)
  }

  lemma MembersGrow(known: set<nat>, index: map<nat, set<nat>>, done: set<nat>, l: nat)
    requires MembersOf(known, index, done) && l in index
    ensures MembersOf(known + index[l], index, done + {l})
  {
    forall id: nat ensures id in known + index[l] <==> exists k :: k in done + {l} && Member(index, k, id) {
      if id in index[l] {
        assert l in done + {l} && Member(index, l, id);
      } else if id in known {
        var k :| k in done && Member(index, k, id);
        assert k in done + {l};
      }
    }
  }

  lemma InvertedAll(labels: map<nat, seq<nat>>, known: set<nat>, index: map<nat, set<nat>>)
    requires Inverted(labels, index, index.Keys, 0, {}) && MembersOf(known, index, index.Keys)
    ensures forall l: nat :: LabelKept(labels, l, index)
    ensures forall id: nat :: id in known <==> exists l :: Member(index, l, id)
  {
    forall l: nat ensures LabelKept(labels, l, index) {
      forall id: nat ensures l in LabelsOf(labels, id) <==> l in index && id in index[l] {
        assert HasLabel(labels, id, l) <==> (l in index.Keys && Member(index, l, id)) || (l == 0 && id in {});
      }
    }
  }

  /** One label's members, each gaining the label. */
  method NoteMembers(labels: map<nat, seq<nat>>, index: map<nat, set<nat>>, done: set<nat>, l: nat)
    returns (noted: map<nat, seq<nat>>)
    requires l in index && l !in done && Inverted(labels, index, done, 0, {})
    ensures Inverted(noted, index, done + {l}, 0, {})
    ensures forall id: nat :: LabelsOf(noted, id) != [] ==> LabelsOf(labels, id) != [] || id in index[l]
  {
    noted := labels;
    var todo, some: set<nat> := index[l], {};
    while todo != {}
      invariant some + todo == index[l] && some !! todo
      invariant Inverted(noted, index, done, l, some)
      invariant forall id: nat :: LabelsOf(noted, id) != [] ==> LabelsOf(labels, id) != [] || id in some
    {
      var id :| id in todo;
      NoteOne(noted, index, done, l, some, id);
      noted := noted[id := LabelsOf(noted, id) + [l]];
      todo, some := todo - {id}, some + {id};
    }
    assert some == index[l];
  }

  lemma NoteOne(labels: map<nat, seq<nat>>, index: map<nat, set<nat>>, done: set<nat>, l: nat, some: set<nat>, id: nat)
    requires Inverted(labels, index, done, l, some)
    ensures Inverted(labels[id := LabelsOf(labels, id) + [l]], index, done, l, some + {id})
  {
    var after := labels[id := LabelsOf(labels, id) + [l]];
    forall x: nat, k: nat
      ensures HasLabel(after, x, k) <==> (k in done && Member(index, k, x)) || (k == l && x in some + {id})
    {
      assert HasLabel(labels, x, k) <==> (k in done && Member(index, k, x)) || (k == l && x in some);
      assert x != id ==> LabelsOf(after, x) == LabelsOf(labels, x);
      assert x == id ==> LabelsOf(after, x) == LabelsOf(labels, x) + [l];
    }
  }

  // ---- columns --------------------------------------------------------------------------------------------

  /** Each column's entries under its own kind. */
  method ThawNodeColumns(columns: map<nat, ColumnStore.Column>) returns (cols: map<ColKey, seq<Pair>>, known: set<nat>)
    requires forall k :: k in columns ==> Entries(columns[k]) != []
    ensures forall ck: ColKey :: StagedAs(cols, ck, columns)
    ensures IdsListed(known, columns, columns.Keys)
  {
    cols, known := map[], {};
    var todo, done: set<nat> := columns.Keys, {};
    while todo != {}
      invariant done + todo == columns.Keys && done !! todo
      invariant cols.Keys == ColumnKeys(columns, done) && forall ck :: ck in cols ==> cols[ck] == Entries(columns[ck.key])
      invariant IdsListed(known, columns, done)
    {
      var key :| key in todo;
      var es := Entries(columns[key]);
      IdsGrow(known, columns, done, key);
      cols := cols[ColKey(columns[key].kind, key) := es];
      known := known + set i | 0 <= i < |es| :: es[i].id;
      todo, done := todo - {key}, done + {key};
    }
    assert done == columns.Keys;
  }

  ghost function ColumnKeys(columns: map<nat, ColumnStore.Column>, done: set<nat>): set<ColKey> {
    set key | key in done && key in columns :: ColKey(columns[key].kind, key)
  }

  ghost predicate IdsListed(known: set<nat>, columns: map<nat, ColumnStore.Column>, done: set<nat>) {
    forall x: nat :: x in known <==> exists k, i :: k in done && k in columns && 0 <= i < |Entries(columns[k])| && Entries(columns[k])[i].id == x
  }

  lemma IdsGrow(known: set<nat>, columns: map<nat, ColumnStore.Column>, done: set<nat>, key: nat)
    requires IdsListed(known, columns, done) && key in columns
    ensures var es := Entries(columns[key]);
            IdsListed(known + set i | 0 <= i < |es| :: es[i].id, columns, done + {key})
  {
    var es := Entries(columns[key]);
    var more := known + set i | 0 <= i < |es| :: es[i].id;
    forall x: nat
      ensures x in more <==> exists k, i :: k in done + {key} && k in columns && 0 <= i < |Entries(columns[k])| && Entries(columns[k])[i].id == x
    {
      if x in known {
        var k, i :| k in done && k in columns && 0 <= i < |Entries(columns[k])| && Entries(columns[k])[i].id == x;
        assert k in done + {key};
      } else if x in more {
        var i :| 0 <= i < |es| && es[i].id == x;
        assert key in done + {key} && Entries(columns[key])[i].id == x;
      }
    }
  }

  method ThroughStaging(es: seq<Pair>, o: seq<nat>) returns (pairs: seq<Pair>)
    requires forall i :: 0 <= i < |es| ==> es[i].id < |o|
    ensures ThawedThrough(pairs, es, o)
  {
    pairs := [];
    for i := 0 to |es|
      invariant |pairs| == i && forall k :: 0 <= k < i ==> pairs[k] == Pair(o[es[k].id], es[k].val)
    {
      pairs := pairs + [Pair(o[es[i].id], es[i].val)];
    }
  }

  /** Relationship columns, their positions turned into staged indexes. */
  method ThawRelColumns(columns: map<nat, ColumnStore.Column>, o: seq<nat>) returns (cols: map<ColKey, seq<Pair>>)
    requires forall k, i :: k in columns && 0 <= i < |Entries(columns[k])| ==> Entries(columns[k])[i].id < |o|
    ensures cols.Keys == ColumnKeys(columns, columns.Keys)
    ensures forall ck :: ck in cols ==> ThawedThrough(cols[ck], Entries(columns[ck.key]), o)
  {
    cols := map[];
    var todo, done: set<nat> := columns.Keys, {};
    while todo != {}
      invariant done + todo == columns.Keys && done !! todo
      invariant cols.Keys == ColumnKeys(columns, done)
      invariant forall ck :: ck in cols ==> ThawedThrough(cols[ck], Entries(columns[ck.key]), o)
    {
      var key :| key in todo;
      var pairs := ThroughStaging(Entries(columns[key]), o);
      cols := cols[ColKey(columns[key].kind, key) := pairs];
      todo, done := todo - {key}, done + {key};
    }
    assert done == columns.Keys;
  }

  // ---- relationships ----------------------------------------------------------------------------------------

  /** Staged so far: these relationships, their endpoints known, and nothing else. */
  ghost predicate OnlyRels(st: Staged, rels: seq<Rel>) {
    && st.rels == rels && !HasRemovals(st) && st.labels == map[] && st.nodeCols == map[] && st.relCols == map[]
    && st.cow.Unsourced? && forall x: nat :: x in st.known <==> Endpoint(rels, x)
  }

  lemma OneMoreRel(st: Staged, rels: seq<Rel>, r: Rel)
    requires OnlyRels(st, rels) && AddRelFits(st, r.src, r.dst)
    ensures OnlyRels(AddRel(st, r.src, r.dst, r.typ), rels + [r])
  {
    var more := rels + [r];
    forall x: nat ensures Endpoint(more, x) <==> Endpoint(rels, x) || Incident(r, x) {
      if Endpoint(rels, x) {
        var i :| 0 <= i < |rels| && Incident(rels[i], x);
        assert Incident(more[i], x);
      }
      if Incident(r, x) { assert Incident(more[|rels|], x); }
    }
  }

  /** One `AddRel` each, in order. */
  method StageAll(b: Builder, staged: seq<Rel>, n: nat)
    requires b.Valid() && b.State() == EMPTY && b.relIndex.None? && InSpace(staged, n) && n <= CEILING && |staged| <= CEILING
    modifies b
    ensures b.Valid() && OnlyRels(b.State(), staged) && b.relIndex.None? && |b.degOut| >= |old(b.degOut)|
  {
    for k := 0 to |staged|
      invariant b.Valid() && OnlyRels(b.State(), staged[..k]) && b.relIndex.None? && |b.degOut| >= |old(b.degOut)|
    {
      var r := staged[k];
      OneMoreRel(b.State(), staged[..k], r);
      var idx := b.AddRel(r.src, r.dst, r.typ);
      assert staged[..k + 1] == staged[..k] + [r];
    }
    assert staged[..|staged|] == staged;
  }

  // ---- the thaw ----------------------------------------------------------------------------------------------

  lemma ColumnKeysMatch(cols: map<ColKey, seq<Pair>>, columns: map<nat, ColumnStore.Column>)
    requires cols.Keys == ColumnKeys(columns, columns.Keys)
    ensures forall ck: ColKey :: ck in cols <==> ck.key in columns && columns[ck.key].kind == ck.kind
  {
    forall ck: ColKey ensures ck in cols <==> ck.key in columns && columns[ck.key].kind == ck.kind {
      if ck.key in columns && columns[ck.key].kind == ck.kind {
        assert ck == ColKey(columns[ck.key].kind, ck.key);
      }
    }
  }

  /** The staged state a thaw ends with. */
  ghost function Thawed(g: Snapshot, staged: seq<Rel>, labels: map<nat, seq<nat>>, nodeCols: map<ColKey, seq<Pair>>,
                        relCols: map<ColKey, seq<Pair>>, known: set<nat>, relToOut: seq<nat>): Staged
  {
    Staged(staged, known, labels, nodeCols, relCols, {}, map[], From(g, Some(relToOut), {}, {}, {}, false))
  }

  lemma RelToOutIsRanks(staged: seq<Rel>, o: seq<nat>, relToOut: seq<nat>, g: Snapshot)
    requires Restages(staged, o, g.out, g.inn, g.n) && |relToOut| == |o| && forall i :: 0 <= i < |o| ==> relToOut[o[i]] == i
    ensures relToOut == Ranks(Owners(staged, Out))
  {
    var ranks := Ranks(Owners(staged, Out));
    forall v | 0 <= v < |relToOut| ensures relToOut[v] == ranks[v] {
      var p := IndexOf(o, v);
      assert ranks[o[p]] == p;
    }
  }

  /** What each part of the snapshot thawed to. */
  ghost predicate Parts(g: Snapshot, staged: seq<Rel>, o: seq<nat>, labels: map<nat, seq<nat>>, labelled: set<nat>,
                        nodeCols: map<ColKey, seq<Pair>>, listed: set<nat>, relCols: map<ColKey, seq<Pair>>)
  {
    && Restages(staged, o, g.out, g.inn, g.n) && |staged| <= CEILING
    && (forall l: nat :: LabelKept(labels, l, g.labelIndex))
    && (forall id: nat :: id in labelled <==> exists l :: Member(g.labelIndex, l, id))
    && (forall id: nat :: LabelsOf(labels, id) != [] ==> id in labelled)
    && (forall ck: ColKey :: StagedAs(nodeCols, ck, g.columns))
    && IdsListed(listed, g.columns, g.columns.Keys)
    && relCols.Keys == ColumnKeys(g.relColumns, g.relColumns.Keys)
    && (forall ck :: ck in relCols ==> ThawedThrough(relCols[ck], Entries(g.relColumns[ck.key]), o))
  }

  lemma ListedIds(listed: set<nat>, g: Snapshot)
    requires IdsListed(listed, g.columns, g.columns.Keys)
    ensures forall x: nat :: x in listed <==> Listed(g, x)
  {
  }

  lemma KnownParts(g: Snapshot, staged: seq<Rel>, o: seq<nat>, labels: map<nat, seq<nat>>, labelled: set<nat>,
                   nodeCols: map<ColKey, seq<Pair>>, listed: set<nat>, relCols: map<ColKey, seq<Pair>>, ends: set<nat>, st: Staged)
    requires Parts(g, staged, o, labels, labelled, nodeCols, listed, relCols)
    requires (forall x: nat :: x in ends <==> Endpoint(staged, x)) && st.rels == staged
    requires st.known == ends + labelled + listed + g.existence
    ensures KnownByThaw(g, st)
  {
    ListedIds(listed, g);
    forall x: nat ensures x in labelled <==> Labelled(g, x) {
      if x in labelled {
        var l :| Member(g.labelIndex, l, x);
      }
      if Labelled(g, x) {
        var l :| l in g.labelIndex && x in g.labelIndex[l];
        assert Member(g.labelIndex, l, x);
      }
    }
  }

  lemma PartsMakeThaw(g: Snapshot, staged: seq<Rel>, o: seq<nat>, labels: map<nat, seq<nat>>, labelled: set<nat>,
                      nodeCols: map<ColKey, seq<Pair>>, listed: set<nat>, relCols: map<ColKey, seq<Pair>>, known: set<nat>)
    requires Parts(g, staged, o, labels, labelled, nodeCols, listed, relCols)
    requires labelled <= known && listed <= known
    requires forall i :: 0 <= i < |staged| ==> staged[i].src in known && staged[i].dst in known
    ensures ThawOf(g, Thawed(g, staged, labels, nodeCols, relCols, known, Ranks(Owners(staged, Out))), o)
  {
    ColumnKeysMatch(relCols, g.relColumns);
    ListedIds(listed, g);
    forall ck, i | ck in nodeCols && 0 <= i < |nodeCols[ck]| ensures nodeCols[ck][i].id in known {
      assert StagedAs(nodeCols, ck, g.columns);
      assert Entries(g.columns[ck.key])[i].id == nodeCols[ck][i].id;
      assert Listed(g, nodeCols[ck][i].id);
    }
  }

  lemma EndpointsKnown(staged: seq<Rel>, known: set<nat>)
    requires forall x: nat :: Endpoint(staged, x) ==> x in known
    ensures forall i :: 0 <= i < |staged| ==> staged[i].src in known && staged[i].dst in known
  {
    forall i | 0 <= i < |staged| ensures staged[i].src in known && staged[i].dst in known {
      assert Incident(staged[i], staged[i].src) && Incident(staged[i], staged[i].dst);
    }
  }

  /** The builder's fields once the parts are in and the source recorded. */
  method Install(b: Builder, g: Snapshot, ghost staged: seq<Rel>, labels: map<nat, seq<nat>>, nodeCols: map<ColKey, seq<Pair>>,
                 relCols: map<ColKey, seq<Pair>>, more: set<nat>, relToOut: seq<nat>)
    requires b.Valid() && OnlyRels(b.State(), staged) && b.relIndex.None?
    modifies b
    ensures b.State() == Thawed(g, staged, labels, nodeCols, relCols, old(b.knownNodes) + more, relToOut)
    ensures b.DegreesHold() && b.relIndex.None? && b.degOut == old(b.degOut)
  {
    b.nodeLabels, b.nodeCols, b.relCols := labels, nodeCols, relCols;
    b.knownNodes := b.knownNodes + more;
    b.cow := From(g, Some(relToOut), {}, {}, {}, false);
  }

  /** A thaw of a finalized snapshot. Dirty marks need a source, and the builder gets its own only at
      the end. */
  method NewBuilderFromSnapshot(g: Snapshot, ghost rels: seq<Rel>) returns (b: Builder, ghost o: seq<nat>)
    requires Finalized(g, rels) && Anchored(g, rels) && |rels| <= CEILING && g.n <= CEILING
    ensures fresh(b) && b.Valid() && ThawOf(g, b.State(), o) && KnownByThaw(g, b.State())
  {
    var staged, outToStaging, labels, labelled, nodeCols, listed, relCols := ThawParts(g, rels);
    o := outToStaging;
    b := new Builder(g.n);
    StageAll(b, staged, g.n);
    var relToOut := InvertPositions(outToStaging);
    RelToOutIsRanks(staged, o, relToOut, g);
    ghost var ends := b.knownNodes;
    Install(b, g, staged, labels, nodeCols, relCols, labelled + listed + g.existence, relToOut);
    FinishThaw(g, rels, staged, o, labels, labelled, nodeCols, listed, relCols, ends, b.State());
  }

  /** The parts, installed, are the thaw; and every node it knows has a counter. */
  lemma FinishThaw(g: Snapshot, rels: seq<Rel>, staged: seq<Rel>, o: seq<nat>, labels: map<nat, seq<nat>>, labelled: set<nat>,
                   nodeCols: map<ColKey, seq<Pair>>, listed: set<nat>, relCols: map<ColKey, seq<Pair>>, ends: set<nat>, st: Staged)
    requires Finalized(g, rels) && Anchored(g, rels) && Parts(g, staged, o, labels, labelled, nodeCols, listed, relCols)
    requires forall x: nat :: x in ends <==> Endpoint(staged, x)
    requires st == Thawed(g, staged, labels, nodeCols, relCols, ends + (labelled + listed + g.existence), Ranks(Owners(staged, Out)))
    ensures ThawOf(g, st, o) && KnownByThaw(g, st) && Sane(st) && forall id :: id in st.known ==> id < g.n
  {
    assert st.known == ends + labelled + listed + g.existence;
    EndpointsKnown(staged, st.known);
    PartsMakeThaw(g, staged, o, labels, labelled, nodeCols, listed, relCols, st.known);
    KnownParts(g, staged, o, labels, labelled, nodeCols, listed, relCols, ends, st);
    ThawIsTracked(g, st, o, rels);
    KnownAfterThaw(g, rels, st);
  }

  method ThawParts(g: Snapshot, ghost rels: seq<Rel>)
    returns (staged: seq<Rel>, o: seq<nat>, labels: map<nat, seq<nat>>, labelled: set<nat>,
             nodeCols: map<ColKey, seq<Pair>>, listed: set<nat>, relCols: map<ColKey, seq<Pair>>)
    requires Finalized(g, rels) && |rels| <= CEILING
    ensures Parts(g, staged, o, labels, labelled, nodeCols, listed, relCols)
  {
    labels, labelled := ThawLabels(g.labelIndex);
    staged, o := RestageRels(g, rels);
    StoredFits(g, rels, |o|);
    nodeCols, listed := ThawNodeColumns(g.columns);
    relCols := ThawRelColumns(g.relColumns, o);
  }

  method RestageRels(g: Snapshot, ghost rels: seq<Rel>) returns (staged: seq<Rel>, o: seq<nat>)
    requires Consistent(g.out, g.inn, rels, g.n)
    ensures |staged| == |o| == |rels| && Restages(staged, o, g.out, g.inn, g.n)
  {
    ConsistentReadable(g.out, g.inn, rels, g.n);
    staged, o := ThawRels(g.out, g.inn, g.n);
  }

  lemma StoredFits(g: Snapshot, rels: seq<Rel>, m: nat)
    requires Finalized(g, rels) && m == |rels|
    ensures forall k :: k in g.columns ==> Entries(g.columns[k]) != []
    ensures forall k, i :: k in g.relColumns && 0 <= i < |Entries(g.relColumns[k])| ==> Entries(g.relColumns[k])[i].id < m
  {
    forall k | k in g.columns ensures Entries(g.columns[k]) != [] {
      RebuiltColumn(g.columns[k], g.n);
    }
    forall k, i | k in g.relColumns && 0 <= i < |Entries(g.relColumns[k])| ensures Entries(g.relColumns[k])[i].id < m {
      EntriesInSpan(g.relColumns[k], |rels|);
    }
  }

  /** The no-edit round trip end to end: thaw, Finalize. Everything but the node set is the snapshot
      again, and the node set too exactly when no dense string column spans a gap. */
  method ThawAndFinalize(g: Snapshot, ghost rels: seq<Rel>) returns (h: Snapshot)
    requires Finalized(g, rels) && Anchored(g, rels) && |rels| <= CEILING && g.n <= CEILING
    ensures h.(existence := g.existence) == g
    ensures h == g <==> GapFree(g)
  {
    var b, o := NewBuilderFromSnapshot(g, rels);
    ghost var st := b.State();
    ThawIsTracked(g, st, o, rels);
    NoEditRoundTrip(g, rels, st, o);
    h := b.Finalize();
  }
}
