/** `Finalize` as the builder runs it: fold removals, plan the sharing, build what is left. */
module Finalizing {
  import opened StableSort
  import opened Csr
  import opened InToOut
  import opened Thaw
  import opened PositionMap
  import opened Columns
  import opened ColumnStore
  import opened Staging
  import opened Removal
  import opened Cow

  /** `0..=max` of the known ids. */
  method MeasureIds(known: set<nat>) returns (n: nat)
    ensures n == IdSpace(known)
  {
    n := 1;
    var todo, done: set<nat> := known, {};
    while todo != {}
      invariant done + todo == known
      invariant done == {} ==> n == 1
      invariant done != {} ==> n > 0 && n - 1 in done
      invariant forall x :: x in done ==> x < n
    {
      var x :| x in todo;
      if done == {} || n <= x { n := x + 1; }
      todo, done := todo - {x}, done + {x};
    }
    assert done == known;
  }

  // ---- columns ---------------------------------------------------------------------------------------

  /** One typed family of the staged columns. */
  function Family(cols: map<ColKey, seq<Pair>>, kind: Kind): (f: map<nat, seq<Pair>>)
    ensures forall key: nat :: key in f <==> ColKey(kind, key) in cols
    ensures forall key: nat :: key in f ==> f[key] == cols[ColKey(kind, key)]
  {
    var keys := set ck | ck in cols && ck == ColKey(kind, ck.key) :: ck.key;
    assert forall key: nat :: ColKey(kind, key) in cols ==> ColKey(kind, key).key in keys;
    map key | key in keys :: cols[ColKey(kind, key)]
  }

  /** One staged column: shared where `share` offers it, built otherwise. */
  function Finished(kind: Kind, key: nat, pairs: seq<Pair>, share: map<nat, Column>, span: nat): Column {
    if key in share then share[key] else ColumnOf(kind, Canon(pairs), span)
  }

  method FinishColumn(kind: Kind, key: nat, pairs: seq<Pair>, share: map<nat, Column>, span: nat) returns (c: Column)
    requires InSpan(pairs, span)
    ensures c == Finished(kind, key, pairs, share, span)
  {
    if key in share { return share[key]; }
    c := ColumnFromPairs(kind, pairs, span);
  }

  /** At `key`, `columns` is `acc` with the family laid over it. */
  ghost predicate Overlaid(columns: map<nat, Column>, acc: map<nat, Column>, staged: map<nat, seq<Pair>>, kind: Kind,
                           share: map<nat, Column>, span: nat, key: nat)
  {
    && (key in columns <==> key in acc || key in staged)
    && (key in columns ==>
        columns[key] == if key in staged then Finished(kind, key, staged[key], share, span) else acc[key])
  }

  method FinalizeFamily(staged: map<nat, seq<Pair>>, kind: Kind, share: map<nat, Column>, span: nat, acc: map<nat, Column>)
    returns (columns: map<nat, Column>)
    requires forall key :: key in staged ==> InSpan(staged[key], span)
    ensures forall key: nat :: Overlaid(columns, acc, staged, kind, share, span, key)
  {
    columns := acc;
    var todo, done: set<nat> := staged.Keys, {};
    while todo != {}
      invariant done + todo == staged.Keys && done !! todo
      invariant columns.Keys == acc.Keys + done
      invariant forall key :: key in columns ==>
                  columns[key] == if key in done then Finished(kind, key, staged[key], share, span) else acc[key]
    {
      var key :| key in todo;
      var col := FinishColumn(kind, key, staged[key], share, span);
      columns := columns[key := col];
      todo, done := todo - {key}, done + {key};
    }
    assert done == staged.Keys;
  }

  /** Every column, shared or built. */
  ghost function Columnar(cols: map<ColKey, seq<Pair>>, share: map<nat, Column>, span: nat): map<nat, Column> {
    map key | key in KeysOf(cols) :: if key in share then share[key] else BuiltColumn(cols, key, span)
  }

  lemma KeyHasFamily(cols: map<ColKey, seq<Pair>>, key: nat)
    ensures key in KeysOf(cols) <==>
      ColKey(I64, key) in cols || ColKey(F64, key) in cols || ColKey(Bool, key) in cols || ColKey(Str, key) in cols
  {
    if key in KeysOf(cols) { SomeKind(cols, key); }
    assert forall kind :: ColKey(kind, key) in cols ==> ColKey(kind, key).key in KeysOf(cols);
  }

  lemma FamiliesOverwrite(cols: map<ColKey, seq<Pair>>, share: map<nat, Column>, span: nat, key: nat,
                          a: map<nat, Column>, b: map<nat, Column>, c: map<nat, Column>, d: map<nat, Column>)
    requires Overlaid(a, map[], Family(cols, I64), I64, share, span, key)
    requires Overlaid(b, a, Family(cols, F64), F64, share, span, key)
    requires Overlaid(c, b, Family(cols, Bool), Bool, share, span, key)
    requires Overlaid(d, c, Family(cols, Str), Str, share, span, key)
    ensures SameAt(d, Columnar(cols, share, span), key)
  {
    KeyHasFamily(cols, key);
  }

  ghost predicate SameAt(a: map<nat, Column>, b: map<nat, Column>, key: nat) {
    (key in a <==> key in b) && (key in a ==> a[key] == b[key])
  }

  lemma SameEverywhere(a: map<nat, Column>, b: map<nat, Column>)
    requires forall key: nat :: SameAt(a, b, key)
    ensures a == b
  {
    assert forall key: nat :: key in a ==> SameAt(a, b, key);
    assert forall key: nat :: key in b ==> SameAt(a, b, key);
    assert a.Keys == b.Keys;
  }

  lemma FamiliesMakeColumns(cols: map<ColKey, seq<Pair>>, share: map<nat, Column>, span: nat,
                            a: map<nat, Column>, b: map<nat, Column>, c: map<nat, Column>, d: map<nat, Column>)
    requires forall key: nat :: Overlaid(a, map[], Family(cols, I64), I64, share, span, key)
    requires forall key: nat :: Overlaid(b, a, Family(cols, F64), F64, share, span, key)
    requires forall key: nat :: Overlaid(c, b, Family(cols, Bool), Bool, share, span, key)
    requires forall key: nat :: Overlaid(d, c, Family(cols, Str), Str, share, span, key)
    ensures d == Columnar(cols, share, span)
  {
    var want := Columnar(cols, share, span);
    forall key: nat ensures SameAt(d, want, key) {
      FamiliesOverwrite(cols, share, span, key, a, b, c, d);
    }
    SameEverywhere(d, want);
  }

  /** The four families in the fixed order in which later kinds overwrite earlier ones. */
  method FinalizeColumns(cols: map<ColKey, seq<Pair>>, share: map<nat, Column>, span: nat)
    returns (columns: map<nat, Column>)
    requires IdsFit(cols, span)
    ensures columns == Columnar(cols, share, span)
  {
    var a := FinalizeFamily(Family(cols, I64), I64, share, span, map[]);
    var b := FinalizeFamily(Family(cols, F64), F64, share, span, a);
    var c := FinalizeFamily(Family(cols, Bool), Bool, share, span, b);
    columns := FinalizeFamily(Family(cols, Str), Str, share, span, c);
    FamiliesMakeColumns(cols, share, span, a, b, c, columns);
  }

  /** Staged relationship indexes rewritten to outgoing positions, column by column. */
  method ToPositions(cols: map<ColKey, seq<Pair>>, f: seq<nat>) returns (mapped: map<ColKey, seq<Pair>>)
    requires IdsFit(cols, |f|)
    ensures mapped == ByPosition(cols, f)
  {
    mapped := map[];
    var todo, done: set<ColKey> := cols.Keys, {};
    while todo != {}
      invariant done + todo == cols.Keys && done !! todo
      invariant mapped.Keys == done && forall ck :: ck in done ==> mapped[ck] == MapIds(cols[ck], f)
    {
      var ck :| ck in todo;
      var pairs, moved: seq<Pair> := cols[ck], [];
      for i := 0 to |pairs|
        invariant |moved| == i && forall k :: 0 <= k < i ==> moved[k] == Pair(f[pairs[k].id], pairs[k].val)
      {
        moved := moved + [Pair(f[pairs[i].id], pairs[i].val)];
      }
      assert moved == MapIds(cols[ck], f);
      mapped := mapped[ck := moved];
      todo, done := todo - {ck}, done + {ck};
    }
  }

  // ---- labels ------------------------------------------------------------------------------------------

  /** The nodes seen with `l` once the scan is at label `j` of node `id`. */
  ghost function SeenWith(labels: map<nat, seq<nat>>, id: nat, j: nat, l: nat): set<nat> {
    set v | v in labels && v <= id && l in (if v < id || |labels[v]| < j then labels[v] else labels[v][..j])
  }

  ghost predicate Scanned(byLabel: map<nat, set<nat>>, labels: map<nat, seq<nat>>, skip: set<nat>, id: nat, j: nat) {
    && (forall l: nat :: l in byLabel <==> l !in skip && SeenWith(labels, id, j, l) != {})
    && (forall l: nat :: l in byLabel ==> byLabel[l] == SeenWith(labels, id, j, l))
  }

  lemma SeenStep(labels: map<nat, seq<nat>>, id: nat, j: nat, l: nat)
    requires id in labels && j < |labels[id]|
    ensures SeenWith(labels, id, j + 1, l) == SeenWith(labels, id, j, l) + if labels[id][j] == l then {id} else {}
  {
    assert labels[id][..j + 1] == labels[id][..j] + [labels[id][j]];
  }

  lemma SeenNext(labels: map<nat, seq<nat>>, id: nat, l: nat)
    ensures SeenWith(labels, id + 1, 0, l) == SeenWith(labels, id, |LabelsOf(labels, id)|, l)
  {
    if id in labels { assert labels[id][..|labels[id]|] == labels[id]; }
  }

  /** The members of every label not in `skip`. */
  function Rescanned(labels: map<nat, seq<nat>>, n: nat, skip: set<nat>): map<nat, set<nat>> {
    map l | l in LabelsUsed(labels, n) && l !in skip :: Members(labels, n, l)
  }

  /** The label scan, passing over labels in `skip`. */
  method ScanLabels(labels: map<nat, seq<nat>>, n: nat, skip: set<nat>) returns (byLabel: map<nat, set<nat>>)
    ensures byLabel == Rescanned(labels, n, skip)
  {
    byLabel := map[];
    for id := 0 to n
      invariant Scanned(byLabel, labels, skip, id, 0)
    {
      var ls := LabelsOf(labels, id);
      for j := 0 to |ls|
        invariant Scanned(byLabel, labels, skip, id, j)
      {
        byLabel := NoteLabel(byLabel, labels, skip, id, j);
      }
      forall l: nat ensures SeenWith(labels, id + 1, 0, l) == SeenWith(labels, id, |ls|, l) {
        SeenNext(labels, id, l);
      }
    }
    ScannedAll(byLabel, labels, skip, n);
  }

  method NoteLabel(byLabel: map<nat, set<nat>>, labels: map<nat, seq<nat>>, skip: set<nat>, id: nat, j: nat)
    returns (noted: map<nat, set<nat>>)
    requires Scanned(byLabel, labels, skip, id, j) && id in labels && j < |labels[id]|
    ensures Scanned(noted, labels, skip, id, j + 1)
  {
    var l := labels[id][j];
    noted := byLabel;
    if l !in skip {
      noted := byLabel[l := (if l in byLabel then byLabel[l] else {}) + {id}];
    }
    forall k: nat
      ensures k in noted <==> k !in skip && SeenWith(labels, id, j + 1, k) != {}
      ensures k in noted ==> noted[k] == SeenWith(labels, id, j + 1, k)
    {
      NotedAt(byLabel, noted, labels, skip, id, j, k);
    }
  }

  lemma NotedAt(byLabel: map<nat, set<nat>>, noted: map<nat, set<nat>>, labels: map<nat, seq<nat>>, skip: set<nat>,
                id: nat, j: nat, k: nat)
    requires Scanned(byLabel, labels, skip, id, j) && id in labels && j < |labels[id]|
    requires var l := labels[id][j];
             noted == if l in skip then byLabel else byLabel[l := (if l in byLabel then byLabel[l] else {}) + {id}]
    ensures k in noted <==> k !in skip && SeenWith(labels, id, j + 1, k) != {}
    ensures k in noted ==> noted[k] == SeenWith(labels, id, j + 1, k)
  {
    SeenStep(labels, id, j, k);
  }

  lemma ScannedAll(byLabel: map<nat, set<nat>>, labels: map<nat, seq<nat>>, skip: set<nat>, n: nat)
    requires Scanned(byLabel, labels, skip, n, 0)
    ensures byLabel == Rescanned(labels, n, skip)
  {
    forall l: nat
      ensures SeenWith(labels, n, 0, l) == Members(labels, n, l)
      ensures Members(labels, n, l) != {} <==> l in LabelsUsed(labels, n)
    {
      if l in LabelsUsed(labels, n) {
        var id :| id in labels && id < n && l in labels[id];
        assert id in Members(labels, n, l);
      }
      if Members(labels, n, l) != {} {
        var id :| id in Members(labels, n, l);
      }
    }
  }

  // ---- topology -----------------------------------------------------------------------------------------

  /** Both directions from scratch, with each relationship's outgoing position. */
  method BuildTopology(n: nat, rels: seq<Rel>, degOut: seq<nat>, degIn: seq<nat>)
    returns (out: Adjacency, inn: Adjacency, relToOut: seq<nat>)
    requires InSpace(rels, n) && n <= |degOut| && n <= |degIn|
    requires forall u :: 0 <= u < n ==> degOut[u] == CountEqual(Owners(rels, Out), u)
    requires forall u :: 0 <= u < n ==> degIn[u] == CountEqual(Owners(rels, In), u)
    ensures out == CsrOf(rels, Out, n) && inn == CsrOf(rels, In, n)
    ensures relToOut == Ranks(Owners(rels, Out))
  {
    out, relToOut := BuildCsrDirection(n, rels, degOut, Out);
    var unused;
    inn, unused := BuildCsrDirection(n, rels, degIn, In);
    LayoutIsUnique(out, CsrOf(rels, Out, n), rels, Out, n);
    LayoutIsUnique(inn, CsrOf(rels, In, n), rels, In, n);
  }

  /** The position map as its first reader builds it. */
  method BuildInToOut(out: Adjacency, inn: Adjacency, n: nat, ghost rels: seq<Rel>) returns (m: seq<nat>)
    requires Consistent(out, inn, rels, n)
    ensures m == PairMap(rels)
  {
    LaysWellFormed(out, rels, Out, n);
    LaysWellFormed(inn, rels, In, n);
    SameTypesBothWays(out, inn, rels, n);
    m := ComputeInToOut(out, inn, n);
    RanksPermute(Owners(rels, In));
    var inPos := Ranks(Owners(rels, In));
    forall q | 0 <= q < |m| ensures m[q] == PairMap(rels)[q] {
      var i := IndexOf(inPos, q);
      assert PairsAt(m, Rank(Owners(rels, In), i), Rank(Owners(rels, Out), i));
      assert PairsAt(PairMap(rels), Rank(Owners(rels, In), i), Rank(Owners(rels, Out), i));
    }
  }

  // ---- the plan ------------------------------------------------------------------------------------------

  /** `newAliasPlan`: what the dirty state allows sharing, given the shape about to be built. */
  datatype Plan = Plan(idSpace: bool, csr: bool, nodeCols: map<nat, Column>, relCols: map<nat, Column>, labels: set<nat>)

  function NewPlan(st: Staged, n: nat): Plan {
    if st.cow.Unsourced? then Plan(false, false, map[], map[], {})
    else
      var src := st.cow.src;
      var idSpace := n == src.n;
      var csr := && !st.cow.relsDirty && idSpace && |st.rels| == |src.out.nbrs|
                 && st.cow.relToOut.Some? && |st.cow.relToOut.value| == |st.rels|;
      Plan(idSpace, csr,
           if idSpace then map k | k in src.columns && k !in st.cow.dirtyNode :: src.columns[k] else map[],
           if csr then map k | k in src.relColumns && k !in st.cow.dirtyRel :: src.relColumns[k] else map[],
           set l | l in src.labelIndex && l !in st.cow.dirtyLabels)
  }

  /** The build a staged state calls for. */
  ghost function Target(st: Staged): Snapshot
    requires Settled(st)
  {
    if st.cow.From? then AliasBuild(st) else FullBuild(st)
  }

  ghost predicate Ready(st: Staged) {
    Settled(st) && AllKnown(st) && (st.cow.From? ==> Tracked(st))
  }

  ghost function TargetLabels(st: Staged, n: nat): map<nat, set<nat>> {
    if st.cow.From? then AliasLabels(st) else LabelIndexOf(st.labels, n)
  }

  method FinalizeLabels(st: Staged, n: nat, plan: Plan) returns (index: map<nat, set<nat>>)
    requires n == IdSpace(st.known) && plan == NewPlan(st, n)
    ensures index == TargetLabels(st, n)
  {
    if st.cow.From? && st.cow.dirtyLabels == {} { return st.cow.src.labelIndex; }
    var scanned := ScanLabels(st.labels, n, plan.labels);
    if st.cow.From? {
      PlannedLabels(st, n);
      index := Shared(st.cow.src.labelIndex, plan.labels) + scanned;
    } else {
      UnplannedLabels(st, n);
      index := scanned;
    }
  }

  lemma UnplannedLabels(st: Staged, n: nat)
    requires st.cow.Unsourced?
    ensures LabelIndexOf(st.labels, n) == Rescanned(st.labels, n, NewPlan(st, n).labels)
  {
  }

  function Shared(index: map<nat, set<nat>>, keep: set<nat>): map<nat, set<nat>> {
    map l | l in keep && l in index :: index[l]
  }

  lemma PlannedLabels(st: Staged, n: nat)
    requires st.cow.From? && n == IdSpace(st.known) && st.cow.dirtyLabels != {}
    ensures var skip := NewPlan(st, n).labels;
            AliasLabels(st) == Shared(st.cow.src.labelIndex, skip) + Rescanned(st.labels, n, skip)
  {
    var skip := NewPlan(st, n).labels;
    assert forall l: nat :: l in skip <==> LabelClean(st, l);
  }

  ghost function TargetColumns(st: Staged, n: nat): map<nat, Column> {
    if st.cow.From? then AliasColumns(st) else ColumnsOf(st.nodeCols, n)
  }

  method FinalizeNodeColumns(st: Staged, n: nat, plan: Plan) returns (columns: map<nat, Column>)
    requires IdsFit(st.nodeCols, n) && n == IdSpace(st.known) && plan == NewPlan(st, n)
    ensures columns == TargetColumns(st, n)
  {
    columns := FinalizeColumns(st.nodeCols, plan.nodeCols, n);
    PlannedColumns(st, n);
  }

  lemma PlannedColumns(st: Staged, n: nat)
    requires n == IdSpace(st.known)
    ensures Columnar(st.nodeCols, NewPlan(st, n).nodeCols, n) == TargetColumns(st, n)
  {
  }

  /** Where every staged relationship sits among the outgoing positions. */
  ghost function TargetRelToOut(st: Staged): (f: seq<nat>)
    requires Ready(st)
    ensures |f| == |st.rels|
  {
    if st.cow.From? then AliasRelToOut(st) else Ranks(Owners(st.rels, Out))
  }

  lemma RelToOutIsRanks(st: Staged)
    requires Ready(st)
    ensures TargetRelToOut(st) == Ranks(Owners(st.rels, Out)) && IsPerm(TargetRelToOut(st))
  {
    RanksPermute(Owners(st.rels, Out));
  }

  ghost function TargetRelColumns(st: Staged): map<nat, Column>
    requires Ready(st)
  {
    if st.cow.From? then AliasRelColumns(st)
    else ColumnsOf(ByPosition(st.relCols, Ranks(Owners(st.rels, Out))), |st.rels|)
  }

  method FinalizeRelColumns(cols: map<ColKey, seq<Pair>>, plan: Plan, relToOut: seq<nat>) returns (columns: map<nat, Column>)
    requires IdsFit(cols, |relToOut|) && IsPerm(relToOut)
    ensures columns == Columnar(ByPosition(cols, relToOut), plan.relCols, |relToOut|)
  {
    var mapped := ToPositions(cols, relToOut);
    columns := FinalizeColumns(mapped, plan.relCols, |relToOut|);
  }

  lemma PlannedRelColumns(st: Staged, n: nat)
    requires Ready(st) && n == IdSpace(st.known)
    ensures Columnar(ByPosition(st.relCols, TargetRelToOut(st)), NewPlan(st, n).relCols, |st.rels|) == TargetRelColumns(st)
  {
    KeysByPosition(st.relCols, TargetRelToOut(st));
  }

  /** `carryLazyCaches`, from what the column passes actually shared. */
  function CarryCaches(st: Staged, plan: Plan): Caches {
    if st.cow.Unsourced? then NO_CACHES
    else
      var src, c := st.cow.src, st.cow.src.caches;
      var shared := set key | key in KeysOf(st.nodeCols) && key in plan.nodeCols;
      var sharedRel := set key | key in KeysOf(st.relCols) && key in plan.relCols;
      var labels := if st.cow.dirtyLabels == {} then src.labelIndex.Keys else plan.labels;
      Caches(
        map k | k in c.prop && k.1 in shared && k.0 in labels :: c.prop[k],
        map k | k in c.anyProp && k in shared :: c.anyProp[k],
        map k | k in c.geo && k.1 in shared && k.2 in shared && k.0 in labels :: c.geo[k],
        if plan.csr then c.roots else map[],
        map k | k in c.colPos && k in shared :: c.colPos[k],
        map k | k in c.relColPos && k in sharedRel :: c.relColPos[k])
  }

  lemma PlannedCaches(st: Staged, n: nat)
    requires st.cow.From? && n == IdSpace(st.known)
    ensures CarryCaches(st, NewPlan(st, n)) == CarriedCaches(st)
  {
    var plan := NewPlan(st, n);
    assert (set key | key in KeysOf(st.nodeCols) && key in plan.nodeCols) == SharedNodeKeys(st);
    assert (set key | key in KeysOf(st.relCols) && key in plan.relCols) == SharedRelKeys(st);
    assert plan.labels == set l | l in st.cow.src.labelIndex && LabelClean(st, l);
  }

  /** The two CSRs, shared or built, and the position map a reader will find. */
  method FinalizeTopology(st: Staged, n: nat, plan: Plan, degOut: seq<nat>, degIn: seq<nat>)
    returns (out: Adjacency, inn: Adjacency, relToOut: seq<nat>, inToOut: Option<seq<nat>>)
    requires Ready(st) && n == IdSpace(st.known) && plan == NewPlan(st, n)
    requires n <= |degOut| && n <= |degIn|
    requires forall u :: 0 <= u < n ==> degOut[u] == CountEqual(Owners(st.rels, Out), u)
    requires forall u :: 0 <= u < n ==> degIn[u] == CountEqual(Owners(st.rels, In), u)
    ensures out == Target(st).out && inn == Target(st).inn
    ensures relToOut == TargetRelToOut(st)
    ensures inToOut == Target(st).inToOut
  {
    SettledInSpace(st);
    inToOut := None;
    if plan.csr {
      out, inn, relToOut := st.cow.src.out, st.cow.src.inn, st.cow.relToOut.value;
      if st.relCols != map[] { inToOut := st.cow.src.inToOut; }
    } else {
      out, inn, relToOut := BuildTopology(n, st.rels, degOut, degIn);
      if st.relCols != map[] {
        var m := BuildInToOut(out, inn, n, st.rels);
        inToOut := Some(m);
      }
    }
  }

  /** Every build phase, from a compacted staged state. */
  method Assemble(st: Staged, degOut: seq<nat>, degIn: seq<nat>) returns (g: Snapshot)
    requires Ready(st) && IdSpace(st.known) <= |degOut| && IdSpace(st.known) <= |degIn|
    requires forall u :: 0 <= u < |degOut| ==> degOut[u] == CountEqual(Owners(st.rels, Out), u)
    requires forall u :: 0 <= u < |degIn| ==> degIn[u] == CountEqual(Owners(st.rels, In), u)
    ensures g == Target(st)
  {
    var n := MeasureIds(st.known);
    var plan := NewPlan(st, n);
    var out, inn, relToOut, inToOut := FinalizeTopology(st, n, plan, degOut, degIn);
    var labels := FinalizeLabels(st, n, plan);
    NodeIdsFit(st);
    var columns := FinalizeNodeColumns(st, n, plan);
    RelToOutIsRanks(st);
    var relColumns := FinalizeRelColumns(st.relCols, plan, relToOut);
    PlannedRelColumns(st, n);
    if st.cow.From? { PlannedCaches(st, n); }
    g := Snapshot(n, out, inn, labels, columns, relColumns, st.known, st.relCols != map[], inToOut, CarryCaches(st, plan));
  }
}
