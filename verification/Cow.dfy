/** Delta-aware refinalize: what a builder thawed from a snapshot may share with it, against a full
    rebuild of the same staged state. */
module Cow {
  import opened StableSort
  import opened Csr
  import opened InToOut
  import opened Thaw
  import opened PositionMap
  import opened Columns
  import opened ColumnStore
  import opened Staging
  import opened Removal

  // ---- the full rebuild ------------------------------------------------------------------------

  ghost function LaidOut(rels: seq<Rel>, d: Side, n: nat, pos: seq<nat>): Adjacency
    requires IsPerm(pos) && |pos| == |rels|
  {
    var ix := Inverse(pos);
    Adjacency(
      seq(n + 1, u requires 0 <= u => CountLess(Owners(rels, d), u)),
      seq(|rels|, p requires 0 <= p < |rels| => Other(rels[ix[p]], d)),
      seq(|rels|, p requires 0 <= p < |rels| => rels[ix[p]].typ))
  }

  lemma LaidOutLays(rels: seq<Rel>, d: Side, n: nat)
    requires InSpace(rels, n)
    ensures IsPerm(Ranks(Owners(rels, d))) && Lays(LaidOut(rels, d, n, Ranks(Owners(rels, d))), rels, d, n)
  {
    var pos := Ranks(Owners(rels, d));
    RanksPermute(Owners(rels, d));
    var a := LaidOut(rels, d, n, pos);
    forall i | 0 <= i < |rels| ensures Holds(a, Rank(Owners(rels, d), i), rels[i], d) {
      assert Inverse(pos)[pos[i]] == i;
    }
  }

  /** The one layout of a staged sequence. */
  ghost function CsrOf(rels: seq<Rel>, d: Side, n: nat): (a: Adjacency)
    requires InSpace(rels, n)
    ensures Lays(a, rels, d, n)
  {
    LaidOutLays(rels, d, n);
    LaidOut(rels, d, n, Ranks(Owners(rels, d)))
  }

  lemma {:induction false} SetMax(s: set<nat>) returns (m: nat)
    requires s != {}
    ensures m in s && forall x :: x in s ==> x <= m
  {
    var x :| x in s;
    if s == {x} {
      m := x;
    } else {
      var rest := SetMax(s - {x});
      m := if rest < x then x else rest;
      assert forall y :: y in s ==> y == x || y in s - {x};
    }
  }

  lemma HasMax(s: set<nat>)
    requires s != {}
    ensures exists m :: m in s && forall x :: x in s ==> x <= m
  {
    var m := SetMax(s);
  }

  ghost function MaxOf(s: set<nat>): (m: nat)
    requires s != {}
    ensures m in s && forall x :: x in s ==> x <= m
  {
    HasMax(s);
    var m :| m in s && forall x :: x in s ==> x <= m;
    m
  }

  /** `0..=max` of the known ids, at least one slot. */
  ghost function IdSpace(known: set<nat>): (n: nat)
    ensures forall x :: x in known ==> x < n
  {
    if known == {} then 1 else MaxOf(known) + 1
  }

  function Members(labels: map<nat, seq<nat>>, n: nat, l: nat): set<nat> {
    set id | id in labels && id < n && l in labels[id]
  }

  function LabelsUsed(labels: map<nat, seq<nat>>, n: nat): set<nat> {
    set id, l | id in labels && id < n && l in labels[id] :: l
  }

  function LabelIndexOf(labels: map<nat, seq<nat>>, n: nat): map<nat, set<nat>> {
    map l | l in LabelsUsed(labels, n) :: Members(labels, n, l)
  }

  function KeysOf(cols: map<ColKey, seq<Pair>>): set<nat> {
    set ck | ck in cols :: ck.key
  }

  lemma SomeKind(cols: map<ColKey, seq<Pair>>, key: nat)
    requires key in KeysOf(cols)
    ensures ColKey(I64, key) in cols || ColKey(F64, key) in cols || ColKey(Bool, key) in cols || ColKey(Str, key) in cols
  {
    var ck :| ck in cols && ck.key == key;
    match ck.kind
    case I64 =>
    case F64 =>
    case Bool =>
    case Str =>
  }

  /** The families finalize in this order into one map, so the last staged kind wins a key. */
  function Winner(cols: map<ColKey, seq<Pair>>, key: nat): (ck: ColKey)
    requires key in KeysOf(cols)
    ensures ck in cols && ck.key == key
  {
    if ColKey(Str, key) in cols then ColKey(Str, key)
    else if ColKey(Bool, key) in cols then ColKey(Bool, key)
    else if ColKey(F64, key) in cols then ColKey(F64, key)
    else
      SomeKind(cols, key);
      ColKey(I64, key)
  }

  function BuiltColumn(cols: map<ColKey, seq<Pair>>, key: nat, span: nat): Column
    requires key in KeysOf(cols)
  {
    var ck := Winner(cols, key);
    ColumnOf(ck.kind, Canon(cols[ck]), span)
  }

  function ColumnsOf(cols: map<ColKey, seq<Pair>>, span: nat): map<nat, Column> {
    map key | key in KeysOf(cols) :: BuiltColumn(cols, key, span)
  }

  /** Staged relationship indexes rewritten to outgoing positions. */
  function MapIds(pairs: seq<Pair>, f: seq<nat>): (r: seq<Pair>)
    requires forall i :: 0 <= i < |pairs| ==> pairs[i].id < |f|
    ensures |r| == |pairs|
    ensures forall i :: 0 <= i < |pairs| ==> r[i] == Pair(f[pairs[i].id], pairs[i].val)
  {
    seq(|pairs|, i requires 0 <= i < |pairs| => Pair(f[pairs[i].id], pairs[i].val))
  }

  ghost predicate IdsFit(cols: map<ColKey, seq<Pair>>, n: nat) {
    forall ck :: ck in cols ==> forall i :: 0 <= i < |cols[ck]| ==> cols[ck][i].id < n
  }

  function ByPosition(cols: map<ColKey, seq<Pair>>, f: seq<nat>): map<ColKey, seq<Pair>>
    requires IdsFit(cols, |f|)
  {
    map ck | ck in cols :: MapIds(cols[ck], f)
  }

  /** Nothing removed is pending and every staged relationship's endpoints are known. */
  ghost predicate Settled(st: Staged) {
    && !HasRemovals(st) && IdsFit(st.relCols, |st.rels|)
    && (forall i :: 0 <= i < |st.rels| ==> st.rels[i].src in st.known && st.rels[i].dst in st.known)
  }

  lemma SettledInSpace(st: Staged)
    requires Settled(st)
    ensures InSpace(st.rels, IdSpace(st.known))
  {
  }

  const NO_CACHES: Caches := Caches(map[], map[], map[], map[], map[], map[])

  /** Finalize with no source to share with. */
  ghost function FullBuild(st: Staged): Snapshot
    requires Settled(st)
  {
    var n := IdSpace(st.known);
    SettledInSpace(st);
    Snapshot(n, CsrOf(st.rels, Out, n), CsrOf(st.rels, In, n),
             LabelIndexOf(st.labels, n), ColumnsOf(st.nodeCols, n),
             ColumnsOf(ByPosition(st.relCols, Ranks(Owners(st.rels, Out))), |st.rels|),
             st.known, st.relCols != map[],
             if st.relCols != map[] then Some(PairMap(st.rels)) else None, NO_CACHES)
  }

  // ---- the aliasing plan -------------------------------------------------------------------------

  /** As many ids as the source had: columns over them are laid out over the same span. */
  ghost predicate SameSpace(st: Staged)
    requires st.cow.From?
  {
    IdSpace(st.known) == st.cow.src.n
  }

  /** Both CSR directions may be shared. */
  ghost predicate SharesCsr(st: Staged)
    requires st.cow.From?
  {
    && !st.cow.relsDirty && SameSpace(st) && |st.rels| == |st.cow.src.out.nbrs|
    && st.cow.relToOut.Some? && |st.cow.relToOut.value| == |st.rels|
  }

  ghost predicate SharesNodeColumn(st: Staged, key: nat)
    requires st.cow.From?
  {
    SameSpace(st) && key !in st.cow.dirtyNode && key in st.cow.src.columns
  }

  ghost predicate SharesRelColumn(st: Staged, key: nat)
    requires st.cow.From?
  {
    SharesCsr(st) && key !in st.cow.dirtyRel && key in st.cow.src.relColumns
  }

  /** No edit marked `l`, and there is a set of its nodes to take over. */
  predicate LabelClean(st: Staged, l: nat)
    requires st.cow.From?
  {
    l !in st.cow.dirtyLabels && l in st.cow.src.labelIndex
  }

  /** With no dirty label the whole index is shared; else clean bitmaps are shared and the rest
      rebuilt from the nodes. */
  ghost function AliasLabels(st: Staged): map<nat, set<nat>>
    requires st.cow.From?
  {
    var n, src := IdSpace(st.known), st.cow.src;
    if st.cow.dirtyLabels == {} then src.labelIndex
    else
      var rebuilt := map l | l in LabelsUsed(st.labels, n) && !LabelClean(st, l) :: Members(st.labels, n, l);
      var shared := map l | l in src.labelIndex && LabelClean(st, l) :: src.labelIndex[l];
      shared + rebuilt
  }

  ghost function AliasColumns(st: Staged): map<nat, Column>
    requires st.cow.From?
  {
    var n := IdSpace(st.known);
    map key | key in KeysOf(st.nodeCols) ::
      if SharesNodeColumn(st, key) then st.cow.src.columns[key] else BuiltColumn(st.nodeCols, key, n)
  }

  ghost function AliasRelToOut(st: Staged): (f: seq<nat>)
    requires st.cow.From?
    ensures |f| == |st.rels|
  {
    if SharesCsr(st) then st.cow.relToOut.value else Ranks(Owners(st.rels, Out))
  }

  ghost function AliasRelColumns(st: Staged): map<nat, Column>
    requires st.cow.From? && IdsFit(st.relCols, |st.rels|)
  {
    var cols := ByPosition(st.relCols, AliasRelToOut(st));
    map key | key in KeysOf(st.relCols) ::
      if SharesRelColumn(st, key) then st.cow.src.relColumns[key]
      else KeysByPosition(st.relCols, AliasRelToOut(st)); BuiltColumn(cols, key, |st.rels|)
  }

  /** A shared CSR comes with whatever position map the source holds, which may be none. */
  ghost function AliasInToOut(st: Staged): Option<seq<nat>>
    requires st.cow.From?
  {
    if st.relCols == map[] then None
    else if SharesCsr(st) then st.cow.src.inToOut
    else Some(PairMap(st.rels))
  }

  ghost function AliasBuild(st: Staged): Snapshot
    requires Settled(st) && st.cow.From?
  {
    var n, src := IdSpace(st.known), st.cow.src;
    SettledInSpace(st);
    Snapshot(n,
             if SharesCsr(st) then src.out else CsrOf(st.rels, Out, n),
             if SharesCsr(st) then src.inn else CsrOf(st.rels, In, n),
             AliasLabels(st), AliasColumns(st), AliasRelColumns(st),
             st.known, st.relCols != map[], AliasInToOut(st), CarriedCaches(st))
  }

  // ---- carried caches ------------------------------------------------------------------------------

  /** Entries whose components were all shared are handed on; the rest are dropped. */
  ghost function CarriedCaches(st: Staged): Caches
    requires st.cow.From?
  {
    Carry(st.cow.src.caches, SharedNodeKeys(st), SharedRelKeys(st), SharedLabels(st), SharesCsr(st))
  }

  ghost function SharedNodeKeys(st: Staged): set<nat>
    requires st.cow.From?
  {
    set key | key in KeysOf(st.nodeCols) && SharesNodeColumn(st, key)
  }

  ghost function SharedRelKeys(st: Staged): set<nat>
    requires st.cow.From?
  {
    set key | key in KeysOf(st.relCols) && SharesRelColumn(st, key)
  }

  ghost function SharedLabels(st: Staged): set<nat>
    requires st.cow.From?
  {
    if st.cow.dirtyLabels == {} then st.cow.src.labelIndex.Keys
    else set l | l in st.cow.src.labelIndex && LabelClean(st, l)
  }

  function Carry(c: Caches, columns: set<nat>, relColumns: set<nat>, labels: set<nat>, csr: bool): Caches {
    Caches(
      map k | k in c.prop && k.1 in columns && k.0 in labels :: c.prop[k],
      map k | k in c.anyProp && k in columns :: c.anyProp[k],
      map k | k in c.geo && k.1 in columns && k.2 in columns && k.0 in labels :: c.geo[k],
      if csr then c.roots else map[],
      map k | k in c.colPos && k in columns :: c.colPos[k],
      map k | k in c.relColPos && k in relColumns :: c.relColPos[k])
  }

  /** Every cached index was built from the components the snapshot holds now. */
  ghost predicate CachesFresh(g: Snapshot) {
    && (forall k :: k in g.caches.prop ==>
          k.1 in g.columns && k.0 in g.labelIndex && g.caches.prop[k] == (g.columns[k.1], g.labelIndex[k.0]))
    && (forall k :: k in g.caches.anyProp ==> k in g.columns && g.caches.anyProp[k] == g.columns[k])
    && (forall k :: k in g.caches.geo ==>
          k.1 in g.columns && k.2 in g.columns && k.0 in g.labelIndex &&
          g.caches.geo[k] == (g.columns[k.1], g.columns[k.2], g.labelIndex[k.0]))
    && (forall k :: k in g.caches.roots ==> g.caches.roots[k] == if k.0.Out? then g.out else g.inn)
    && (forall k :: k in g.caches.colPos ==> k in g.columns && g.caches.colPos[k] == g.columns[k])
    && (forall k :: k in g.caches.relColPos ==> k in g.relColumns && g.caches.relColPos[k] == g.relColumns[k])
  }

  // ---- the source and the thaw -----------------------------------------------------------------------

  /** A stored column is some non-empty canonical list's column. */
  ghost predicate StoredColumn(c: Column, span: nat) {
    exists es: seq<Pair> :: es != [] && Wf(c.kind, es, span) && c == ColumnOf(c.kind, es, span)
  }

  /** A position map is the pairing of `rels`, held beside relationship columns only -- and missing
      beside them when the CSR was shared from a source that held none. */
  ghost predicate MapFits(inToOut: Option<seq<nat>>, hasRelProps: bool, rels: seq<Rel>) {
    inToOut == None || (hasRelProps && inToOut == Some(PairMap(rels)))
  }

  /** What Finalize guarantees of its own output, and so what a thaw may start from. */
  ghost predicate Finalized(g: Snapshot, rels: seq<Rel>) {
    && Consistent(g.out, g.inn, rels, g.n)
    && (forall l :: l in g.labelIndex ==> g.labelIndex[l] != {})
    && (forall k :: k in g.columns ==> StoredColumn(g.columns[k], g.n))
    && (forall k :: k in g.relColumns ==> StoredColumn(g.relColumns[k], |rels|))
    && (g.hasRelProps <==> g.relColumns != map[])
    && MapFits(g.inToOut, g.hasRelProps, rels)
    && CachesFresh(g)
  }

  /** `ck` is staged with exactly the pairs a thaw of `columns` stages for it. */
  ghost predicate StagedAs(cols: map<ColKey, seq<Pair>>, ck: ColKey, columns: map<nat, Column>) {
    if ck.key in columns && columns[ck.key].kind == ck.kind
    then ck in cols && cols[ck] == Entries(columns[ck.key])
    else ck !in cols
  }

  /** The same for relationship columns, whose positions become staged indexes. */
  ghost predicate StagedThrough(cols: map<ColKey, seq<Pair>>, ck: ColKey, columns: map<nat, Column>, f: seq<nat>) {
    if ck.key in columns && columns[ck.key].kind == ck.kind
    then && ck in cols && (forall i :: 0 <= i < |cols[ck]| ==> cols[ck][i].id < |f|)
         && MapIds(cols[ck], f) == Entries(columns[ck.key])
    else ck !in cols
  }

  ghost predicate LabelKept(labels: map<nat, seq<nat>>, l: nat, index: map<nat, set<nat>>) {
    forall id: nat :: l in LabelsOf(labels, id) <==> l in index && id in index[l]
  }

  /** Everything the staged state refers to is a known node. */
  ghost predicate AllKnown(st: Staged) {
    && (forall id: nat :: LabelsOf(st.labels, id) != [] ==> id in st.known)
    && (forall ck :: ck in st.nodeCols ==> forall i :: 0 <= i < |st.nodeCols[ck]| ==> st.nodeCols[ck][i].id in st.known)
    && NonEmpty(st.nodeCols)
  }

  /** The rel set is untouched: it is the restaged sequence, at the recorded positions. */
  ghost predicate RelsKept(st: Staged)
    requires st.cow.From?
  {
    && !HasRemovals(st) && Consistent(st.cow.src.out, st.cow.src.inn, st.rels, st.cow.src.n)
    && st.cow.relToOut == Some(Ranks(Owners(st.rels, Out)))
    && (forall ck: ColKey :: ck.key !in st.cow.dirtyRel ==>
          StagedThrough(st.relCols, ck, st.cow.src.relColumns, Ranks(Owners(st.rels, Out))))
  }

  ghost predicate RelsTracked(st: Staged)
    requires st.cow.From?
  {
    !st.cow.relsDirty ==> RelsKept(st)
  }

  ghost predicate NodeColsKept(st: Staged)
    requires st.cow.From?
  {
    forall ck: ColKey :: ck.key !in st.cow.dirtyNode ==> StagedAs(st.nodeCols, ck, st.cow.src.columns)
  }

  ghost predicate LabelsKept(st: Staged)
    requires st.cow.From?
  {
    forall l: nat :: l !in st.cow.dirtyLabels ==> LabelKept(st.labels, l, st.cow.src.labelIndex)
  }

  ghost predicate Kept(st: Staged)
    requires st.cow.From?
  {
    AllKnown(st) && RelsTracked(st) && NodeColsKept(st) && LabelsKept(st)
  }

  /** The copy-on-write invariant: whatever is not marked dirty is still as thawed. */
  ghost predicate Tracked(st: Staged) {
    st.cow.From? && Sane(st) && Kept(st)
  }

  // ---- components --------------------------------------------------------------------------------------

  lemma RebuiltColumn(c: Column, span: nat)
    requires StoredColumn(c, span)
    ensures ColumnOf(c.kind, Canon(Entries(c)), span) == c && Entries(c) != []
  {
    var es: seq<Pair> :| es != [] && Wf(c.kind, es, span) && c == ColumnOf(c.kind, es, span);
    RestagedColumn(c.kind, es, span);
    EntriesAreStored(c.kind, es, span);
    assert es[0].id < span;
  }

  /** A clean staged column has one kind, and rebuilds to the very column it was thawed from. */
  lemma CleanColumnRebuilds(cols: map<ColKey, seq<Pair>>, columns: map<nat, Column>, key: nat, span: nat)
    requires key in KeysOf(cols) && key in columns && StoredColumn(columns[key], span)
    requires forall ck: ColKey :: ck.key == key ==> StagedAs(cols, ck, columns)
    ensures BuiltColumn(cols, key, span) == columns[key]
  {
    var ck := Winner(cols, key);
    assert StagedAs(cols, ck, columns);
    RebuiltColumn(columns[key], span);
  }

  lemma NodeColumnsAgree(st: Staged, rels: seq<Rel>)
    requires Tracked(st) && Finalized(st.cow.src, rels)
    ensures AliasColumns(st) == ColumnsOf(st.nodeCols, IdSpace(st.known))
  {
    KeptColumnsAgree(st, IdSpace(st.known));
  }

  lemma KeptColumnsAgree(st: Staged, n: nat)
    requires st.cow.From? && NodeColsKept(st) && n == IdSpace(st.known)
    requires forall k :: k in st.cow.src.columns ==> StoredColumn(st.cow.src.columns[k], st.cow.src.n)
    ensures AliasColumns(st) == ColumnsOf(st.nodeCols, n)
  {
    forall key | key in KeysOf(st.nodeCols) && SharesNodeColumn(st, key)
      ensures st.cow.src.columns[key] == BuiltColumn(st.nodeCols, key, n)
    {
      CleanColumnRebuilds(st.nodeCols, st.cow.src.columns, key, n);
    }
  }

  lemma KeysByPosition(cols: map<ColKey, seq<Pair>>, f: seq<nat>)
    requires IdsFit(cols, |f|)
    ensures KeysOf(ByPosition(cols, f)) == KeysOf(cols)
  {
    assert ByPosition(cols, f).Keys == cols.Keys;
  }

  lemma CleanRelColumnRebuilds(st: Staged, rels: seq<Rel>, key: nat)
    requires Tracked(st) && Settled(st) && Finalized(st.cow.src, rels)
    requires key in KeysOf(st.relCols) && SharesRelColumn(st, key)
    ensures key in KeysOf(ByPosition(st.relCols, Ranks(Owners(st.rels, Out))))
    ensures st.cow.src.relColumns[key] == BuiltColumn(ByPosition(st.relCols, Ranks(Owners(st.rels, Out))), key, |st.rels|)
  {
    var f, columns := Ranks(Owners(st.rels, Out)), st.cow.src.relColumns;
    var cols := ByPosition(st.relCols, f);
    KeysByPosition(st.relCols, f);
    assert |rels| == |st.rels|;
    forall ck: ColKey | ck.key == key ensures StagedAs(cols, ck, columns) {
      assert StagedThrough(st.relCols, ck, columns, f);
    }
    CleanColumnRebuilds(cols, columns, key, |st.rels|);
  }

  /** Sharing some columns is building all of them, once the shared ones rebuild to themselves. */
  lemma SharedOrBuilt(st: Staged, f: seq<nat>)
    requires st.cow.From? && IdsFit(st.relCols, |st.rels|) && f == AliasRelToOut(st)
    requires forall key :: key in KeysOf(st.relCols) && SharesRelColumn(st, key) ==>
               key in KeysOf(ByPosition(st.relCols, f)) &&
               st.cow.src.relColumns[key] == BuiltColumn(ByPosition(st.relCols, f), key, |st.rels|)
    ensures AliasRelColumns(st) == ColumnsOf(ByPosition(st.relCols, f), |st.rels|)
  {
    KeysByPosition(st.relCols, f);
  }

  lemma RelColumnsAgree(st: Staged, rels: seq<Rel>)
    requires Tracked(st) && Settled(st) && Finalized(st.cow.src, rels)
    ensures AliasRelColumns(st) == ColumnsOf(ByPosition(st.relCols, Ranks(Owners(st.rels, Out))), |st.rels|)
  {
    var f := Ranks(Owners(st.rels, Out));
    assert AliasRelToOut(st) == f;
    forall key | key in KeysOf(st.relCols) && SharesRelColumn(st, key)
      ensures key in KeysOf(ByPosition(st.relCols, f))
      ensures st.cow.src.relColumns[key] == BuiltColumn(ByPosition(st.relCols, f), key, |st.rels|)
    {
      CleanRelColumnRebuilds(st, rels, key);
    }
    SharedOrBuilt(st, f);
  }

  lemma CleanMembers(st: Staged, l: nat)
    requires Tracked(st) && l !in st.cow.dirtyLabels
    ensures Members(st.labels, IdSpace(st.known), l)
         == if l in st.cow.src.labelIndex then st.cow.src.labelIndex[l] else {}
    ensures l in LabelsUsed(st.labels, IdSpace(st.known)) <==> Members(st.labels, IdSpace(st.known), l) != {}
  {
    var n, index := IdSpace(st.known), st.cow.src.labelIndex;
    assert LabelKept(st.labels, l, index);
    forall id: nat ensures id in Members(st.labels, n, l) <==> l in index && id in index[l] {
      assert l in LabelsOf(st.labels, id) <==> l in index && id in index[l];
    }
    if l in LabelsUsed(st.labels, n) {
      var id :| id in st.labels && id < n && l in st.labels[id];
      assert id in Members(st.labels, n, l);
    }
  }

  lemma LabelsAgree(st: Staged, rels: seq<Rel>)
    requires Tracked(st) && Finalized(st.cow.src, rels)
    ensures AliasLabels(st) == LabelIndexOf(st.labels, IdSpace(st.known))
  {
    var n, index := IdSpace(st.known), st.cow.src.labelIndex;
    var full := LabelIndexOf(st.labels, n);
    forall l: nat | l !in st.cow.dirtyLabels
      ensures l in full <==> l in index
      ensures l in index ==> full[l] == index[l]
    {
      CleanMembers(st, l);
    }
    forall l: nat ensures l in AliasLabels(st) <==> l in full {
    }
    forall l | l in full ensures AliasLabels(st)[l] == full[l] {
    }
  }

  lemma TopologyAgrees(st: Staged)
    requires Tracked(st) && Settled(st) && SharesCsr(st)
    ensures InSpace(st.rels, IdSpace(st.known))
    ensures st.cow.src.out == CsrOf(st.rels, Out, IdSpace(st.known))
    ensures st.cow.src.inn == CsrOf(st.rels, In, IdSpace(st.known))
  {
    SettledInSpace(st);
    var n := IdSpace(st.known);
    LayoutIsUnique(st.cow.src.out, CsrOf(st.rels, Out, n), st.rels, Out, n);
    LayoutIsUnique(st.cow.src.inn, CsrOf(st.rels, In, n), st.rels, In, n);
  }

  /** The aliasing Finalize builds the snapshot a full rebuild would: topology, labels, node and
      relationship columns. */
  lemma AliasIsFull(st: Staged, rels: seq<Rel>)
    requires Tracked(st) && Settled(st) && Finalized(st.cow.src, rels)
    ensures AliasBuild(st).(inToOut := None, caches := NO_CACHES) == FullBuild(st).(inToOut := None)
  {
    NodeColumnsAgree(st, rels);
    RelColumnsAgree(st, rels);
    LabelsAgree(st, rels);
    if SharesCsr(st) {
      TopologyAgrees(st);
    }
  }

  /** The position map agrees exactly when it is not shared from a source that holds none: the
      successor has no relationship column, or rebuilds its CSR, or its source holds a map. */
  lemma InToOutAgreesIff(st: Staged, rels: seq<Rel>)
    requires Tracked(st) && Settled(st) && Finalized(st.cow.src, rels)
    ensures AliasBuild(st).inToOut == FullBuild(st).inToOut
       <==> st.relCols == map[] || !SharesCsr(st) || st.cow.src.inToOut.Some?
  {
    if st.relCols != map[] && SharesCsr(st) && st.cow.src.inToOut.Some? {
      SourceMapFits(st, rels);
    }
  }

  lemma SourceMapFits(st: Staged, rels: seq<Rel>)
    requires Tracked(st) && SharesCsr(st) && Finalized(st.cow.src, rels)
    ensures PairMap(rels) == PairMap(st.rels)
  {
    var src := st.cow.src;
    PairMapOfTopology(src.out, src.inn, src.n, rels, st.rels);
  }

  // ---- every edit keeps the tracking honest ----------------------------------------------------------

  lemma AddNodeKeepsLabels(st: Staged, id: nat, ls: seq<nat>)
    requires st.cow.From? && LabelsKept(st)
    ensures LabelsKept(AddNode(st, id, ls))
  {
    var st' := AddNode(st, id, ls);
    forall l: nat | l !in st'.cow.dirtyLabels ensures LabelKept(st'.labels, l, st.cow.src.labelIndex) {
      assert LabelKept(st.labels, l, st.cow.src.labelIndex);
      assert forall x: nat :: l in LabelsOf(st'.labels, x) <==> l in LabelsOf(st.labels, x);
    }
  }

  lemma RemoveNodeKeepsLabels(st: Staged, id: nat)
    requires st.cow.From? && LabelsKept(st)
    ensures LabelsKept(RemoveNode(st, id))
  {
    var st' := RemoveNode(st, id);
    forall l: nat | l !in st'.cow.dirtyLabels ensures LabelKept(st'.labels, l, st.cow.src.labelIndex) {
      assert LabelKept(st.labels, l, st.cow.src.labelIndex);
      assert forall x: nat :: l in LabelsOf(st'.labels, x) <==> l in LabelsOf(st.labels, x);
    }
  }

  /** A sweep that removed nothing under a key left that key's pairs alone. */
  lemma SweepUntouched(cols: map<ColKey, seq<Pair>>, key: nat, id: nat, ck: ColKey)
    requires NonEmpty(cols) && (ck.key != key || !KeyTouches(cols, key, id))
    ensures ck in SweepKey(cols, key, id) <==> ck in cols
    ensures ck in cols ==> SweepKey(cols, key, id)[ck] == cols[ck]
  {
    if ck in cols { WithoutUntouched(cols[ck], id); }
  }

  lemma SweepAllUntouched(cols: map<ColKey, seq<Pair>>, id: nat, ck: ColKey)
    requires NonEmpty(cols) && ck.key !in KeysTouching(cols, id)
    ensures ck in SweepAll(cols, id) <==> ck in cols
    ensures ck in cols ==> SweepAll(cols, id)[ck] == cols[ck]
  {
    if ck in cols { WithoutUntouched(cols[ck], id); }
  }

  lemma RemoveNodeKeepsNodeCols(st: Staged, id: nat)
    requires st.cow.From? && NodeColsKept(st) && NonEmpty(st.nodeCols)
    ensures NodeColsKept(RemoveNode(st, id))
  {
    var st' := RemoveNode(st, id);
    forall ck: ColKey | ck.key !in st'.cow.dirtyNode ensures StagedAs(st'.nodeCols, ck, st.cow.src.columns) {
      assert StagedAs(st.nodeCols, ck, st.cow.src.columns);
      if id in st.known { SweepAllUntouched(st.nodeCols, id, ck); }
    }
  }

  lemma RemovePropKeepsNodeCols(st: Staged, node: nat, key: nat)
    requires st.cow.From? && NodeColsKept(st) && NonEmpty(st.nodeCols)
    ensures NodeColsKept(RemoveProp(st, node, key))
  {
    var st' := RemoveProp(st, node, key);
    forall ck: ColKey | ck.key !in st'.cow.dirtyNode ensures StagedAs(st'.nodeCols, ck, st.cow.src.columns) {
      assert StagedAs(st.nodeCols, ck, st.cow.src.columns);
      SweepUntouched(st.nodeCols, key, node, ck);
    }
  }

  lemma SetPropKeepsNodeCols(st: Staged, node: nat, ck: ColKey, val: int)
    requires st.cow.From? && NodeColsKept(st)
    ensures NodeColsKept(SetProp(st, node, ck, val))
  {
    var st' := SetProp(st, node, ck, val);
    forall k: ColKey | k.key !in st'.cow.dirtyNode ensures StagedAs(st'.nodeCols, k, st.cow.src.columns) {
      assert StagedAs(st.nodeCols, k, st.cow.src.columns);
    }
  }

  lemma SweptStayKnown(st: Staged, st': Staged, id: nat)
    requires AllKnown(st) && NonEmpty(st'.nodeCols) && st'.labels == st.labels && st.known <= st'.known
    requires forall ck :: ck in st'.nodeCols ==>
               ck in st.nodeCols && (st'.nodeCols[ck] == st.nodeCols[ck] || st'.nodeCols[ck] == Without(st.nodeCols[ck], id))
    ensures AllKnown(st')
  {
    forall ck, i | ck in st'.nodeCols && 0 <= i < |st'.nodeCols[ck]| ensures st'.nodeCols[ck][i].id in st'.known {
      WithoutMembers(st.nodeCols[ck], id, st'.nodeCols[ck][i]);
      var p := st'.nodeCols[ck][i];
      assert p in st'.nodeCols[ck];
      var j :| 0 <= j < |st.nodeCols[ck]| && st.nodeCols[ck][j] == p;
    }
  }

  lemma RemoveNodeKeepsKnown(st: Staged, id: nat)
    requires AllKnown(st)
    ensures AllKnown(RemoveNode(st, id))
  {
    var st' := RemoveNode(st, id);
    if id in st.known {
      forall ck, i | ck in st'.nodeCols && 0 <= i < |st'.nodeCols[ck]| ensures st'.nodeCols[ck][i].id in st'.known {
        var p := st'.nodeCols[ck][i];
        WithoutMembers(st.nodeCols[ck], id, p);
        var j :| 0 <= j < |st.nodeCols[ck]| && st.nodeCols[ck][j] == p;
      }
    }
  }

  lemma SetPropKeepsKnown(st: Staged, node: nat, ck: ColKey, val: int)
    requires AllKnown(st)
    ensures AllKnown(SetProp(st, node, ck, val))
  {
  }

  lemma AddNodeKeepsKnown(st: Staged, id: nat, ls: seq<nat>)
    requires AllKnown(st)
    ensures AllKnown(AddNode(st, id, ls))
  {
  }

  /** Every edit leaves everything staged attached to known nodes. */
  lemma EditKeepsKnown(st: Staged, e: Edit)
    requires AllKnown(st)
    ensures AllKnown(Apply(st, e))
  {
    match e
    case EditAddNode(id, ls) => AddNodeKeepsKnown(st, id, ls);
    case EditRemoveNode(id) => RemoveNodeKeepsKnown(st, id);
    case EditSetProp(node, ck, val) => SetPropKeepsKnown(st, node, ck, val);
    case EditUpdateProp(node, ck, val) =>
      SweptStayKnown(st, RemoveProp(st, node, ck.key), node);
      SetPropKeepsKnown(RemoveProp(st, node, ck.key), node, ck, val);
    case EditRemoveProp(node, key) => SweptStayKnown(st, RemoveProp(st, node, key), node);
    case _ => SweptStayKnown(st, Apply(st, e), 0);
  }

  lemma {:induction false} RunKeepsKnown(st: Staged, edits: seq<Edit>)
    requires AllKnown(st)
    ensures AllKnown(ApplyAll(st, edits))
  {
    if edits != [] {
      RunKeepsKnown(st, edits[..|edits| - 1]);
      EditKeepsKnown(ApplyAll(st, edits[..|edits| - 1]), edits[|edits| - 1]);
    }
  }

  lemma RelPropKeepsRels(st: Staged, st': Staged, key: nat)
    requires st.cow.From? && RelsTracked(st)
    requires st'.rels == st.rels && st'.removedRels == st.removedRels && st'.removedNodes == st.removedNodes
    requires st'.cow == st.cow || st'.cow == MarkRelCol(st.cow, key)
    requires forall ck: ColKey :: ck.key !in st'.cow.dirtyRel ==> (ck in st'.relCols <==> ck in st.relCols)
    requires forall ck: ColKey :: ck.key !in st'.cow.dirtyRel && ck in st.relCols ==> st'.relCols[ck] == st.relCols[ck]
    ensures st'.cow.From? && RelsTracked(st')
  {
    if !st'.cow.relsDirty {
      var f := Ranks(Owners(st.rels, Out));
      forall ck: ColKey | ck.key !in st'.cow.dirtyRel ensures StagedThrough(st'.relCols, ck, st.cow.src.relColumns, f) {
        assert StagedThrough(st.relCols, ck, st.cow.src.relColumns, f);
      }
    }
  }

  lemma NodePropKeepsRels(st: Staged, st': Staged)
    requires st.cow.From? && RelsTracked(st)
    requires st'.rels == st.rels && st'.removedRels == st.removedRels && st'.removedNodes == st.removedNodes
    requires st'.relCols == st.relCols && st'.cow.From? && st'.cow.src == st.cow.src && st'.cow.relToOut == st.cow.relToOut
    requires st'.cow.dirtyRel == st.cow.dirtyRel && st'.cow.relsDirty == st.cow.relsDirty
    ensures RelsTracked(st')
  {
    if !st'.cow.relsDirty {
      var f := Ranks(Owners(st.rels, Out));
      forall ck: ColKey | ck.key !in st'.cow.dirtyRel ensures StagedThrough(st'.relCols, ck, st.cow.src.relColumns, f) {
        assert StagedThrough(st.relCols, ck, st.cow.src.relColumns, f);
      }
    }
  }

  /** Labels and node columns left alone stay kept. */
  lemma NodeSideKept(st: Staged, st': Staged)
    requires st.cow.From? && Kept(st) && st'.cow.From? && st'.cow.src == st.cow.src
    requires st'.labels == st.labels && st'.nodeCols == st.nodeCols && st.known <= st'.known
    requires st'.cow.dirtyNode == st.cow.dirtyNode && st'.cow.dirtyLabels == st.cow.dirtyLabels
    requires RelsTracked(st')
    ensures Kept(st')
  {
  }

  lemma SetRelPropKept(st: Staged, i: nat, ck: ColKey, val: int)
    requires st.cow.From? && Kept(st)
    ensures var st' := SetRelProp(st, i, ck, val); st'.cow.From? && st'.cow.src == st.cow.src && Kept(st')
  {
    if LiveRel(st, i) {
      RelPropKeepsRels(st, SetRelProp(st, i, ck, val), ck.key);
      NodeSideKept(st, SetRelProp(st, i, ck, val));
    }
  }

  lemma RemoveRelPropKept(st: Staged, i: nat, key: nat)
    requires st.cow.From? && Kept(st) && NonEmpty(st.relCols)
    ensures var st' := RemoveRelProp(st, i, key); st'.cow.From? && st'.cow.src == st.cow.src && Kept(st')
  {
    var st' := RemoveRelProp(st, i, key);
    if LiveRel(st, i) {
      forall ck: ColKey | ck.key !in st'.cow.dirtyRel
        ensures ck in st'.relCols <==> ck in st.relCols
        ensures ck in st.relCols ==> st'.relCols[ck] == st.relCols[ck]
      {
        SweepUntouched(st.relCols, key, i, ck);
      }
      RelPropKeepsRels(st, st', key);
      NodeSideKept(st, st');
    }
  }

  lemma RelEditKept(st: Staged, st': Staged)
    requires st.cow.From? && Kept(st) && st'.cow == MarkRels(st.cow)
    requires st'.labels == st.labels && st'.nodeCols == st.nodeCols && st.known <= st'.known
    ensures Kept(st')
  {
    NodeSideKept(st, st');
  }

  lemma RemovePropKept(st: Staged, node: nat, key: nat)
    requires st.cow.From? && Kept(st)
    ensures var st' := RemoveProp(st, node, key); st'.cow.From? && st'.cow.src == st.cow.src && Kept(st')
  {
    RemovePropKeepsNodeCols(st, node, key);
    SweptStayKnown(st, RemoveProp(st, node, key), node);
    NodePropKeepsRels(st, RemoveProp(st, node, key));
  }

  lemma SetPropKept(st: Staged, node: nat, ck: ColKey, val: int)
    requires st.cow.From? && Kept(st)
    ensures var st' := SetProp(st, node, ck, val); st'.cow.From? && st'.cow.src == st.cow.src && Kept(st')
  {
    SetPropKeepsKnown(st, node, ck, val);
    SetPropKeepsNodeCols(st, node, ck, val);
    NodePropKeepsRels(st, SetProp(st, node, ck, val));
  }

  lemma RemoveNodeKept(st: Staged, id: nat)
    requires st.cow.From? && Kept(st)
    ensures var st' := RemoveNode(st, id); st'.cow.From? && st'.cow.src == st.cow.src && Kept(st')
  {
    RemoveNodeKeepsKnown(st, id);
    RemoveNodeKeepsNodeCols(st, id);
    RemoveNodeKeepsLabels(st, id);
  }

  lemma AddNodeKept(st: Staged, id: nat, ls: seq<nat>)
    requires st.cow.From? && Kept(st)
    ensures var st' := AddNode(st, id, ls); st'.cow.From? && st'.cow.src == st.cow.src && Kept(st')
  {
    AddNodeKeepsKnown(st, id, ls);
    AddNodeKeepsLabels(st, id, ls);
    NodePropKeepsRels(st, AddNode(st, id, ls));
  }

  /** Every edit marks what it dirties: what stays unmarked is still as thawed. */
  lemma EditKeepsKept(st: Staged, e: Edit)
    requires st.cow.From? && Kept(st) && NonEmpty(st.relCols)
    ensures var st' := Apply(st, e); st'.cow.From? && st'.cow.src == st.cow.src && Kept(st')
  {
    match e
    case EditAddNode(id, ls) => AddNodeKept(st, id, ls);
    case EditRemoveNode(id) => RemoveNodeKept(st, id);
    case EditSetProp(node, ck, val) => SetPropKept(st, node, ck, val);
    case EditUpdateProp(node, ck, val) =>
      RemovePropKept(st, node, ck.key);
      SetPropKept(RemoveProp(st, node, ck.key), node, ck, val);
    case EditRemoveProp(node, key) => RemovePropKept(st, node, key);
    case EditSetRelProp(i, ck, val) => SetRelPropKept(st, i, ck, val);
    case EditRemoveRelProp(i, key) => RemoveRelPropKept(st, i, key);
    case EditAddRel(u, v, t) => if AddRelFits(st, u, v) { RelEditKept(st, AddRel(st, u, v, t)); }
    case EditRemoveRel(i) => if LiveRel(st, i) { RelEditKept(st, RemoveRel(st, i)); }
  }

  lemma EditKeepsTracked(st: Staged, e: Edit)
    requires Tracked(st)
    ensures Tracked(Apply(st, e)) && Apply(st, e).cow.src == st.cow.src
  {
    EditKeepsSane(st, e);
    EditKeepsKept(st, e);
  }

  lemma {:induction false} EveryRunIsTracked(st: Staged, edits: seq<Edit>)
    requires Tracked(st)
    ensures Tracked(ApplyAll(st, edits)) && ApplyAll(st, edits).cow.src == st.cow.src
  {
    if edits != [] {
      var mid, e := ApplyAll(st, edits[..|edits| - 1]), edits[|edits| - 1];
      EveryRunIsTracked(st, edits[..|edits| - 1]);
      EditKeepsTracked(mid, e);
    }
  }

  // ---- compaction, then Finalize --------------------------------------------------------------------------

  lemma {:induction false} RemapFits(st: Staged, pairs: seq<Pair>, p: Pair)
    requires |st.rels| <= CEILING && forall x :: x in pairs ==> x.id < |st.rels|
    ensures p in Remap(pairs, OldToNew(st)) ==> p.id < LiveBelow(st, |st.rels|)
  {
    if pairs != [] {
      var init, last := pairs[..|pairs| - 1], pairs[|pairs| - 1];
      assert forall x :: x in init ==> x in pairs;
      assert last in pairs;
      RemapFits(st, init, p);
      if LiveRel(st, last.id) {
        NewIndexIsExact(st, last.id);
        CompactedAt(st, |st.rels|, last.id);
      }
    }
  }

  /** The staged state as the build phases find it. */
  lemma CompactIsSettled(st: Staged)
    requires Sane(st)
    ensures Settled(Compact(st))
  {
    var c := Compact(st);
    if HasRemovals(st) {
      forall ck, k | ck in c.relCols && 0 <= k < |c.relCols[ck]| ensures c.relCols[ck][k].id < |c.rels| {
        RemapFits(st, st.relCols[ck], c.relCols[ck][k]);
      }
      forall k | 0 <= k < |c.rels| ensures c.rels[k].src in c.known && c.rels[k].dst in c.known {
        var i := CompactedSource(st, |st.rels|, k);
        CompactedAt(st, |st.rels|, i);
        assert i in Live(st);
      }
    } else {
      forall ck, k | ck in c.relCols && 0 <= k < |c.relCols[ck]| ensures c.relCols[ck][k].id < |c.rels| {
        assert c.relCols[ck][k] in c.relCols[ck];
      }
      forall i | 0 <= i < |c.rels| ensures c.rels[i].src in c.known && c.rels[i].dst in c.known {
        assert i in Live(st);
      }
    }
  }

  lemma SettledIsSane(st: Staged)
    requires Settled(st) && |st.rels| <= CEILING && NonEmpty(st.relCols)
    ensures Sane(st)
  {
    forall ck, p: Pair | ck in st.relCols && p in st.relCols[ck] ensures p.id < |st.rels| {
      var i :| 0 <= i < |st.relCols[ck]| && st.relCols[ck][i] == p;
    }
  }

  lemma CompactIsTracked(st: Staged)
    requires Tracked(st)
    ensures Tracked(Compact(st)) && Compact(st).cow == st.cow
  {
    CompactIsSettled(st);
    if HasRemovals(st) {
      CompactedAtMost(st, |st.rels|);
      SettledIsSane(Compact(st));
      assert st.cow.relsDirty;
      NodeSideKept(st, Compact(st));
    }
  }

  lemma {:induction false} CompactedAtMost(st: Staged, i: nat)
    requires i <= |st.rels|
    ensures LiveBelow(st, i) <= i
  {
    if i > 0 { CompactedAtMost(st, i - 1); }
  }

  /** What `g` takes over from `src` it takes over unchanged. */
  ghost predicate TakesOver(g: Snapshot, src: Snapshot, columns: set<nat>, relColumns: set<nat>, labels: set<nat>, csr: bool) {
    && (forall k :: k in columns && k in src.columns ==> k in g.columns && g.columns[k] == src.columns[k])
    && (forall k :: k in relColumns && k in src.relColumns ==> k in g.relColumns && g.relColumns[k] == src.relColumns[k])
    && (forall l :: l in labels && l in src.labelIndex ==> l in g.labelIndex && g.labelIndex[l] == src.labelIndex[l])
    && (csr ==> g.out == src.out && g.inn == src.inn)
  }

  lemma CarriedStaysFresh(g: Snapshot, src: Snapshot, columns: set<nat>, relColumns: set<nat>, labels: set<nat>, csr: bool)
    requires CachesFresh(src) && TakesOver(g, src, columns, relColumns, labels, csr)
    requires g.caches == Carry(src.caches, columns, relColumns, labels, csr)
    ensures CachesFresh(g)
  {
  }

  lemma CarriedPropsFresh(st: Staged, rels: seq<Rel>)
    requires Tracked(st) && Settled(st) && Finalized(st.cow.src, rels)
    ensures CachesFresh(AliasBuild(st))
  {
    AliasIsFresh(st);
  }

  lemma AliasIsFresh(st: Staged)
    requires Settled(st) && st.cow.From? && CachesFresh(st.cow.src)
    ensures CachesFresh(AliasBuild(st))
  {
    var g := AliasBuild(st);
    AliasTakesOver(st, g);
    CarriedStaysFresh(g, st.cow.src, SharedNodeKeys(st), SharedRelKeys(st), SharedLabels(st), SharesCsr(st));
  }

  lemma AliasTakesOver(st: Staged, g: Snapshot)
    requires Settled(st) && st.cow.From? && g == AliasBuild(st)
    ensures TakesOver(g, st.cow.src, SharedNodeKeys(st), SharedRelKeys(st), SharedLabels(st), SharesCsr(st))
  {
  }

  /** For every run of edits on a thawed builder: the aliasing Finalize gives the topology, labels
      and columns of a full rebuild, every cache it carries is fresh for them, and the position map
      agrees unless the CSR is shared from a source that holds none. */
  lemma EveryRunFinalizesAlike(st: Staged, edits: seq<Edit>, rels: seq<Rel>)
    requires Tracked(st) && Finalized(st.cow.src, rels)
    ensures Sane(ApplyAll(st, edits))
    ensures var end := Compact(ApplyAll(st, edits));
            && Tracked(end) && Settled(end) && end.cow.src == st.cow.src
            && AliasBuild(end).(inToOut := None, caches := NO_CACHES) == FullBuild(end).(inToOut := None)
            && CachesFresh(AliasBuild(end))
            && (AliasBuild(end).inToOut == FullBuild(end).inToOut
                <==> end.relCols == map[] || !SharesCsr(end) || st.cow.src.inToOut.Some?)
  {
    EveryRunIsTracked(st, edits);
    var run := ApplyAll(st, edits);
    CompactIsTracked(run);
    CompactIsSettled(run);
    var end := Compact(run);
    AliasIsFull(end, rels);
    InToOutAgreesIff(end, rels);
    CarriedPropsFresh(end, rels);
  }

  // ---- generations ------------------------------------------------------------------------------------

  ghost predicate Typed(cols: map<ColKey, seq<Pair>>) {
    forall ck :: ck in cols && ck.kind.I64? ==> forall i :: 0 <= i < |cols[ck]| ==> InI64(cols[ck][i].val)
  }

  lemma BuiltIsStored(cols: map<ColKey, seq<Pair>>, key: nat, span: nat)
    requires key in KeysOf(cols) && NonEmpty(cols) && Typed(cols) && IdsFit(cols, span)
    ensures StoredColumn(BuiltColumn(cols, key, span), span)
  {
    var ck := Winner(cols, key);
    CanonIsStored(ck.kind, cols[ck], span);
  }

  lemma CanonIsStored(kind: Kind, pairs: seq<Pair>, span: nat)
    requires pairs != [] && InSpan(pairs, span) && (kind.I64? ==> forall i :: 0 <= i < |pairs| ==> InI64(pairs[i].val))
    ensures StoredColumn(ColumnOf(kind, Canon(pairs), span), span)
  {
    var es := Canon(pairs);
    assert Wf(kind, es, span) by { FinalizedReads(kind, pairs, span, 0); }
    assert es != [] by { CanonNonEmpty(pairs); }
    KindOfColumn(kind, es, span);
  }

  lemma CanonNonEmpty(pairs: seq<Pair>)
    requires pairs != []
    ensures Canon(pairs) != []
  {
    CanonIsLastWrites(pairs);
    WrittenIds(pairs, pairs[0].id);
  }

  lemma KindOfColumn(kind: Kind, es: seq<Pair>, span: nat)
    ensures ColumnOf(kind, es, span).kind == kind
  {
  }

  lemma NodeIdsFit(st: Staged)
    requires AllKnown(st)
    ensures IdsFit(st.nodeCols, IdSpace(st.known))
  {
  }

  lemma RanksFit(cols: map<ColKey, seq<Pair>>, f: seq<nat>)
    requires IdsFit(cols, |f|) && IsPerm(f) && NonEmpty(cols) && Typed(cols)
    ensures NonEmpty(ByPosition(cols, f)) && Typed(ByPosition(cols, f)) && IdsFit(ByPosition(cols, f), |f|)
  {
  }

  /** A full rebuild is again a snapshot a thaw may start from. */
  lemma RebuildIsFinalized(st: Staged)
    requires Settled(st) && AllKnown(st) && Typed(st.nodeCols) && Typed(st.relCols) && NonEmpty(st.relCols)
    ensures Finalized(FullBuild(st), st.rels)
  {
    var n, g := IdSpace(st.known), FullBuild(st);
    SettledInSpace(st);
    NodeIdsFit(st);
    forall key | key in g.columns ensures StoredColumn(g.columns[key], n) {
      BuiltIsStored(st.nodeCols, key, n);
    }
    var f := Ranks(Owners(st.rels, Out));
    RanksPermute(Owners(st.rels, Out));
    RanksFit(st.relCols, f);
    KeysByPosition(st.relCols, f);
    forall key | key in g.relColumns ensures StoredColumn(g.relColumns[key], |st.rels|) {
      BuiltIsStored(ByPosition(st.relCols, f), key, |st.rels|);
    }
    assert g.relColumns == map[] <==> st.relCols == map[] by {
      if st.relCols != map[] {
        var ck :| ck in st.relCols;
        assert ck.key in KeysOf(st.relCols);
        assert ck.key in g.relColumns;
      }
    }
    forall l | l in g.labelIndex ensures g.labelIndex[l] != {} {
      var id :| id in st.labels && id < n && l in st.labels[id];
      assert id in Members(st.labels, n, l);
    }
  }

  // ---- thaw -----------------------------------------------------------------------------------------------

  /** `st` is what thawing `g` stages, its relationships restaged as `st.rels`. */
  ghost predicate ThawOf(g: Snapshot, st: Staged, outToStaging: seq<nat>) {
    && Restages(st.rels, outToStaging, g.out, g.inn, g.n) && |st.rels| <= CEILING
    && !HasRemovals(st) && st.cow == From(g, Some(Ranks(Owners(st.rels, Out))), {}, {}, {}, false)
    && (forall i :: 0 <= i < |st.rels| ==> st.rels[i].src in st.known && st.rels[i].dst in st.known)
    && (forall l: nat :: LabelKept(st.labels, l, g.labelIndex))
    && (forall id: nat :: LabelsOf(st.labels, id) != [] ==> id in st.known)
    && (forall ck: ColKey :: StagedAs(st.nodeCols, ck, g.columns))
    && (forall ck :: ck in st.nodeCols ==> forall i :: 0 <= i < |st.nodeCols[ck]| ==> st.nodeCols[ck][i].id in st.known)
    && (forall ck :: ck in st.relCols ==> ck.key in g.relColumns && g.relColumns[ck.key].kind == ck.kind)
    && (forall ck: ColKey :: ck.key in g.relColumns && g.relColumns[ck.key].kind == ck.kind ==>
          ck in st.relCols && ThawedThrough(st.relCols[ck], Entries(g.relColumns[ck.key]), outToStaging))
  }

  /** Each stored position restaged as the index of the relationship there. */
  ghost predicate ThawedThrough(pairs: seq<Pair>, entries: seq<Pair>, outToStaging: seq<nat>) {
    && |pairs| == |entries|
    && forall i :: 0 <= i < |pairs| ==>
         entries[i].id < |outToStaging| && pairs[i] == Pair(outToStaging[entries[i].id], entries[i].val)
  }

  lemma ThawedThroughRanks(pairs: seq<Pair>, entries: seq<Pair>, outToStaging: seq<nat>, f: seq<nat>)
    requires ThawedThrough(pairs, entries, outToStaging) && |f| == |outToStaging| && IsPerm(outToStaging)
    requires forall p :: 0 <= p < |f| ==> f[outToStaging[p]] == p
    ensures forall i :: 0 <= i < |pairs| ==> pairs[i].id < |f|
    ensures MapIds(pairs, f) == entries
  {
    forall i | 0 <= i < |pairs| ensures pairs[i].id < |f| && f[pairs[i].id] == entries[i].id {
    }
  }

  /** A thaw dirties nothing, so an unedited thaw may share everything. */
  lemma ThawIsTracked(g: Snapshot, st: Staged, outToStaging: seq<nat>, rels: seq<Rel>)
    requires Finalized(g, rels) && ThawOf(g, st, outToStaging)
    ensures Tracked(st) && st.cow.src == g
  {
    var f := Ranks(Owners(st.rels, Out));
    forall p | 0 <= p < |f| ensures f[outToStaging[p]] == p {
    }
    assert |rels| == |st.rels|;
    forall ck | ck in st.relCols
      ensures st.relCols[ck] != [] && StagedThrough(st.relCols, ck, g.relColumns, f)
    {
      RebuiltColumn(g.relColumns[ck.key], |rels|);
      ThawedThroughRanks(st.relCols[ck], Entries(g.relColumns[ck.key]), outToStaging, f);
    }
    forall ck | ck in st.nodeCols ensures st.nodeCols[ck] != [] {
      assert StagedAs(st.nodeCols, ck, g.columns);
      RebuiltColumn(g.columns[ck.key], g.n);
    }
    assert IdsFit(st.relCols, |st.rels|) by {
      forall ck, i | ck in st.relCols && 0 <= i < |st.relCols[ck]| ensures st.relCols[ck][i].id < |st.rels| {
        assert StagedThrough(st.relCols, ck, g.relColumns, f);
      }
    }
    SettledIsSane(st);
    forall ck: ColKey ensures StagedThrough(st.relCols, ck, g.relColumns, f) {
    }
  }

  // ---- values stay typed ------------------------------------------------------------------------------

  /** Integer writes carry 64-bit integers. */
  ghost predicate TypedEdit(e: Edit) {
    match e
    case EditSetProp(_, ck, val) => ck.kind.I64? ==> InI64(val)
    case EditUpdateProp(_, ck, val) => ck.kind.I64? ==> InI64(val)
    case EditSetRelProp(_, ck, val) => ck.kind.I64? ==> InI64(val)
    case _ => true
  }

  ghost predicate TypedState(st: Staged) {
    Typed(st.nodeCols) && Typed(st.relCols)
  }

  lemma WithoutIsTyped(pairs: seq<Pair>, id: nat)
    requires forall i :: 0 <= i < |pairs| ==> InI64(pairs[i].val)
    ensures forall i :: 0 <= i < |Without(pairs, id)| ==> InI64(Without(pairs, id)[i].val)
  {
    forall i | 0 <= i < |Without(pairs, id)| ensures InI64(Without(pairs, id)[i].val) {
      var p := Without(pairs, id)[i];
      WithoutMembers(pairs, id, p);
      var j :| 0 <= j < |pairs| && pairs[j] == p;
    }
  }

  lemma SweepIsTyped(cols: map<ColKey, seq<Pair>>, key: nat, id: nat)
    requires Typed(cols)
    ensures Typed(SweepKey(cols, key, id)) && Typed(SweepAll(cols, id))
  {
    forall ck | ck in cols && ck.kind.I64?
      ensures forall i :: 0 <= i < |Without(cols[ck], id)| ==> InI64(Without(cols[ck], id)[i].val)
    {
      WithoutIsTyped(cols[ck], id);
    }
  }

  lemma AppendIsTyped(cols: map<ColKey, seq<Pair>>, ck: ColKey, p: Pair)
    requires Typed(cols) && (ck.kind.I64? ==> InI64(p.val))
    ensures Typed(cols[ck := PairsOf(cols, ck) + [p]])
  {
  }

  lemma EditKeepsTyped(st: Staged, e: Edit)
    requires TypedState(st) && TypedEdit(e)
    ensures TypedState(Apply(st, e))
  {
    match e
    case EditRemoveNode(id) => SweepIsTyped(st.nodeCols, 0, id);
    case EditSetProp(node, ck, val) => AppendIsTyped(st.nodeCols, ck, Pair(node, val));
    case EditUpdateProp(node, ck, val) =>
      SweepIsTyped(st.nodeCols, ck.key, node);
      AppendIsTyped(SweepKey(st.nodeCols, ck.key, node), ck, Pair(node, val));
    case EditRemoveProp(node, key) => SweepIsTyped(st.nodeCols, key, node);
    case EditSetRelProp(i, ck, val) => AppendIsTyped(st.relCols, ck, Pair(i, val));
    case EditRemoveRelProp(i, key) => SweepIsTyped(st.relCols, key, i);
    case _ =>
  }

  lemma {:induction false} RunKeepsTyped(st: Staged, edits: seq<Edit>)
    requires TypedState(st) && forall e :: e in edits ==> TypedEdit(e)
    ensures TypedState(ApplyAll(st, edits))
  {
    if edits != [] {
      RunKeepsTyped(st, edits[..|edits| - 1]);
      EditKeepsTyped(ApplyAll(st, edits[..|edits| - 1]), edits[|edits| - 1]);
    }
  }

  lemma {:induction false} RemapIsTyped(pairs: seq<Pair>, oldToNew: seq<int>)
    requires forall p :: p in pairs ==> p.id < |oldToNew|
    requires forall i :: 0 <= i < |pairs| ==> InI64(pairs[i].val)
    ensures forall i :: 0 <= i < |Remap(pairs, oldToNew)| ==> InI64(Remap(pairs, oldToNew)[i].val)
  {
    if pairs != [] {
      assert forall p :: p in pairs[..|pairs| - 1] ==> p in pairs;
      RemapIsTyped(pairs[..|pairs| - 1], oldToNew);
    }
  }

  lemma CompactIsTyped(st: Staged)
    requires TypedState(st) && Sane(st)
    ensures TypedState(Compact(st))
  {
    if HasRemovals(st) {
      forall ck | ck in st.relCols && ck.kind.I64?
        ensures forall i :: 0 <= i < |Remap(st.relCols[ck], OldToNew(st))| ==>
                  InI64(Remap(st.relCols[ck], OldToNew(st))[i].val)
      {
        RemapIsTyped(st.relCols[ck], OldToNew(st));
      }
    }
  }

  /** One whole generation: thaw a finalized snapshot, run any edits, Finalize by aliasing. The
      result is again a finalized snapshot, of the relationships then staged. */
  lemma EveryGeneration(st: Staged, edits: seq<Edit>, rels: seq<Rel>)
    requires Tracked(st) && TypedState(st) && Finalized(st.cow.src, rels)
    requires forall e :: e in edits ==> TypedEdit(e)
    ensures Sane(ApplyAll(st, edits))
    ensures var end := Compact(ApplyAll(st, edits));
            && Tracked(end) && Settled(end) && TypedState(end) && NonEmpty(end.relCols)
            && Finalized(AliasBuild(end), end.rels)
  {
    EveryRunFinalizesAlike(st, edits, rels);
    var run := ApplyAll(st, edits);
    RunKeepsTyped(st, edits);
    CompactIsTyped(run);
    var end := Compact(run);
    RebuildIsFinalized(end);
    AliasMapFits(end, rels);
    FinalizedAlike(AliasBuild(end), FullBuild(end), end.rels);
  }

  lemma AliasMapFits(st: Staged, rels: seq<Rel>)
    requires Tracked(st) && Settled(st) && Finalized(st.cow.src, rels)
    ensures MapFits(AliasBuild(st).inToOut, st.relCols != map[], st.rels)
  {
    if SharesCsr(st) { SourceMapFits(st, rels); }
  }

  /** Being finalized is about everything the two have in common. */
  lemma FinalizedAlike(g: Snapshot, full: Snapshot, rels: seq<Rel>)
    requires Finalized(full, rels) && CachesFresh(g) && MapFits(g.inToOut, g.hasRelProps, rels)
    requires g.(inToOut := None, caches := NO_CACHES) == full.(inToOut := None, caches := NO_CACHES)
    ensures Finalized(g, rels)
  {
  }

  // ---- the missing position map ---------------------------------------------------------------------

  /** A bare graph -- relationships only -- thawed. */
  ghost function BareThaw(rels: seq<Rel>, known: set<nat>): Staged
    requires forall i :: 0 <= i < |rels| ==> rels[i].src in known && rels[i].dst in known
  {
    var base := Staged(rels, known, map[], map[], map[], {}, map[], Unsourced);
    base.(cow := From(FullBuild(base), Some(Ranks(Owners(rels, Out))), {}, {}, {}, false))
  }

  lemma BareThawShares(rels: seq<Rel>, known: set<nat>)
    requires forall i :: 0 <= i < |rels| ==> rels[i].src in known && rels[i].dst in known
    ensures var st := BareThaw(rels, known);
            Settled(st) && SharesCsr(st) && !st.cow.src.hasRelProps && st.cow.src.inToOut == None
  {
  }

  /** The first relationship property on a thawed graph that had none: the successor shares the
      CSR and with it the position map that was never built. */
  lemma FirstRelPropLosesMap(st: Staged, i: nat, ck: ColKey, val: int)
    requires st.cow.From? && Settled(st) && SharesCsr(st) && st.cow.src.inToOut == None
    requires st.relCols == map[] && i < |st.rels|
    ensures var st' := Apply(st, EditSetRelProp(i, ck, val));
            && Settled(st') && SharesCsr(st') && AliasBuild(st').hasRelProps && AliasBuild(st').inToOut == None
            && FullBuild(st').inToOut == Some(PairMap(st.rels))
  {
    assert LiveRel(st, i);
    var st' := SetRelProp(st, i, ck, val);
    assert PairsOf(st.relCols, ck) == [];
    assert ck in st'.relCols;
  }

  lemma BareThawLosesMap(rels: seq<Rel>, known: set<nat>, ck: ColKey, val: int)
    requires rels != [] && forall i :: 0 <= i < |rels| ==> rels[i].src in known && rels[i].dst in known
    ensures var st := Apply(BareThaw(rels, known), EditSetRelProp(0, ck, val));
            st.cow.From? && Settled(st) && AliasBuild(st).hasRelProps && AliasBuild(st).inToOut == None
  {
    BareThawShares(rels, known);
    FirstRelPropLosesMap(BareThaw(rels, known), 0, ck, val);
  }

  /** A concrete graph where it matters: of two opposite relationships, the one at incoming
      position 0 is stored at outgoing position 1, and the successor cannot tell. */
  lemma PositionMapGoesMissing(rels: seq<Rel>)
    requires rels == [Rel(1, 0, 5), Rel(0, 1, 5)]
    ensures PairMap(rels)[0] == 1
    ensures var st := Apply(BareThaw(rels, {0, 1}), EditSetRelProp(0, ColKey(I64, 7), 42));
            st.cow.From? && Settled(st) && AliasBuild(st).hasRelProps && AliasBuild(st).inToOut == None
  {
    OppositePositions(rels);
    BareThawLosesMap(rels, {0, 1}, ColKey(I64, 7), 42);
  }

  lemma OppositePositions(rels: seq<Rel>)
    requires rels == [Rel(1, 0, 5), Rel(0, 1, 5)]
    ensures PairMap(rels)[0] == 1
  {
    var i, o := Owners(rels, In), Owners(rels, Out);
    assert i == [0, 1] && o == [1, 0];
    CountLessAtZero(i);
    assert Rank(i, 0) == 0;
    assert o[..1] == [1];
    assert CountLess([1], 1) == 0;
    assert Rank(o, 0) == 1;
    assert PairsAt(PairMap(rels), Rank(i, 0), Rank(o, 0));
  }
}
