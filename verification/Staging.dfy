/** The builder's staging area as a state machine: every edit as a function on the staged state.
    Names arrive as interned atoms. */
module Staging {
  import opened Csr
  import opened Columns
  import opened ColumnStore

  /** A finalized graph, as far as refinalizing it is concerned. `inToOut` is what the
      incoming -> outgoing position map reads as: absent, or built. The caches remember what each
      lazily built index was built from. */
  datatype Snapshot = Snapshot(
    n: nat, out: Adjacency, inn: Adjacency,
    labelIndex: map<nat, set<nat>>, columns: map<nat, Column>, relColumns: map<nat, Column>,
    existence: set<nat>, hasRelProps: bool, inToOut: Option<seq<nat>>, caches: Caches)

  /** Lazy indexes by key: equality indexes per (label, property) and per property alone, geo
      indexes per (label, latitude, longitude), forest roots per direction and type, and slot
      indexes of node and relationship columns. */
  datatype Caches = Caches(
    prop: map<(nat, nat), (Column, set<nat>)>, anyProp: map<nat, Column>,
    geo: map<(nat, nat, nat), (Column, Column, set<nat>)>,
    roots: map<(Side, nat), Adjacency>, colPos: map<nat, Column>, relColPos: map<nat, Column>)

  /** A typed column family entry. */
  datatype ColKey = ColKey(kind: Kind, key: nat)

  /** How far the staged state has diverged from the snapshot it was thawed from. */
  datatype Tracking =
    | Unsourced
    | From(src: Snapshot, relToOut: Option<seq<nat>>, dirtyNode: set<nat>, dirtyRel: set<nat>,
           dirtyLabels: set<nat>, relsDirty: bool)

  datatype Staged = Staged(
    rels: seq<Rel>, known: set<nat>, labels: map<nat, seq<nat>>,
    nodeCols: map<ColKey, seq<Pair>>, relCols: map<ColKey, seq<Pair>>,
    removedRels: set<nat>, removedNodes: map<nat, nat>, cow: Tracking)

  /** Node ids and relationship counts stay below it. */
  const CEILING: nat := 0xFFFF_FFFF

  const EMPTY: Staged := Staged([], {}, map[], map[], map[], {}, map[], Unsourced)

  // ---- dirty marks ---------------------------------------------------------------------------

  function MarkNodeCols(t: Tracking, keys: set<nat>): Tracking {
    if t.From? then t.(dirtyNode := t.dirtyNode + keys) else t
  }

  function MarkRelCol(t: Tracking, key: nat): Tracking {
    if t.From? then t.(dirtyRel := t.dirtyRel + {key}) else t
  }

  function MarkLabels(t: Tracking, ls: set<nat>): Tracking {
    if t.From? then t.(dirtyLabels := t.dirtyLabels + ls) else t
  }

  function MarkRels(t: Tracking): Tracking {
    if t.From? then t.(relsDirty := true, relToOut := None) else t
  }

  // ---- staged pairs ----------------------------------------------------------------------------

  function PairsOf(cols: map<ColKey, seq<Pair>>, ck: ColKey): seq<Pair> {
    if ck in cols then cols[ck] else []
  }

  function LabelsOf(labels: map<nat, seq<nat>>, id: nat): seq<nat> {
    if id in labels then labels[id] else []
  }

  /** The pairs not staged for `id`, in order. */
  function Without(pairs: seq<Pair>, id: nat): seq<Pair> {
    if pairs == [] then []
    else
      var init := Without(pairs[..|pairs| - 1], id);
      if pairs[|pairs| - 1].id != id then init + [pairs[|pairs| - 1]] else init
  }

  predicate Touches(pairs: seq<Pair>, id: nat) {
    exists i :: 0 <= i < |pairs| && pairs[i].id == id
  }

  /** Removes `id`'s pairs under `key` from all four families, dropping emptied entries. */
  function SweepKey(cols: map<ColKey, seq<Pair>>, key: nat, id: nat): map<ColKey, seq<Pair>> {
    map ck | ck in cols && (ck.key != key || Without(cols[ck], id) != []) ::
      if ck.key == key then Without(cols[ck], id) else cols[ck]
  }

  /** Removes `id`'s pairs from every column. */
  function SweepAll(cols: map<ColKey, seq<Pair>>, id: nat): map<ColKey, seq<Pair>> {
    map ck | ck in cols && Without(cols[ck], id) != [] :: Without(cols[ck], id)
  }

  predicate KeyTouches(cols: map<ColKey, seq<Pair>>, key: nat, id: nat) {
    exists ck :: ck in cols && ck.key == key && Touches(cols[ck], id)
  }

  function KeysTouching(cols: map<ColKey, seq<Pair>>, id: nat): set<nat> {
    set ck | ck in cols && Touches(cols[ck], id) :: ck.key
  }

  // ---- edits -----------------------------------------------------------------------------------

  /** A tombstone on the index itself, or an endpoint whose watermark lies above it. */
  predicate RelRemoved(st: Staged, i: nat)
    requires i < |st.rels|
  {
    var r := st.rels[i];
    || i in st.removedRels
    || (r.src in st.removedNodes && i < st.removedNodes[r.src])
    || (r.dst in st.removedNodes && i < st.removedNodes[r.dst])
  }

  predicate LiveRel(st: Staged, i: nat) {
    i < |st.rels| && !RelRemoved(st, i)
  }

  predicate AddRelFits(st: Staged, u: nat, v: nat) {
    u < CEILING && v < CEILING && |st.rels| < CEILING
  }

  function AddNode(st: Staged, id: nat, ls: seq<nat>): Staged {
    if id >= CEILING then st
    else st.(labels := st.labels[id := LabelsOf(st.labels, id) + ls], known := st.known + {id},
             cow := MarkLabels(st.cow, set l | l in ls))
  }

  function AddRel(st: Staged, u: nat, v: nat, t: nat): Staged {
    if !AddRelFits(st, u, v) then st
    else st.(rels := st.rels + [Rel(u, v, t)], known := st.known + {u, v}, cow := MarkRels(st.cow))
  }

  function RemoveRel(st: Staged, i: nat): Staged {
    if !LiveRel(st, i) then st
    else st.(removedRels := st.removedRels + {i}, cow := MarkRels(st.cow))
  }

  function RemoveNode(st: Staged, id: nat): Staged {
    if id !in st.known then st
    else
      var marked := MarkRels(MarkLabels(st.cow, set l | l in LabelsOf(st.labels, id)));
      st.(known := st.known - {id}, labels := st.labels - {id},
          nodeCols := SweepAll(st.nodeCols, id), removedNodes := st.removedNodes[id := |st.rels|],
          cow := MarkNodeCols(marked, KeysTouching(st.nodeCols, id)))
  }

  function SetProp(st: Staged, node: nat, ck: ColKey, val: int): Staged {
    if node >= CEILING then st
    else st.(nodeCols := st.nodeCols[ck := PairsOf(st.nodeCols, ck) + [Pair(node, val)]],
             known := st.known + {node}, cow := MarkNodeCols(st.cow, {ck.key}))
  }

  function RemoveProp(st: Staged, node: nat, key: nat): Staged {
    st.(nodeCols := SweepKey(st.nodeCols, key, node),
        cow := if KeyTouches(st.nodeCols, key, node) then MarkNodeCols(st.cow, {key}) else st.cow)
  }

  function SetRelProp(st: Staged, i: nat, ck: ColKey, val: int): Staged {
    if !LiveRel(st, i) then st
    else st.(relCols := st.relCols[ck := PairsOf(st.relCols, ck) + [Pair(i, val)]],
             cow := MarkRelCol(st.cow, ck.key))
  }

  function RemoveRelProp(st: Staged, i: nat, key: nat): Staged {
    if !LiveRel(st, i) then st
    else st.(relCols := SweepKey(st.relCols, key, i),
             cow := if KeyTouches(st.relCols, key, i) then MarkRelCol(st.cow, key) else st.cow)
  }

  datatype Edit =
    | EditAddNode(id: nat, ls: seq<nat>)
    | EditAddRel(u: nat, v: nat, t: nat)
    | EditRemoveRel(i: nat)
    | EditRemoveNode(id: nat)
    | EditSetProp(node: nat, ck: ColKey, val: int)
    | EditUpdateProp(node: nat, ck: ColKey, val: int)
    | EditRemoveProp(node: nat, key: nat)
    | EditSetRelProp(i: nat, ck: ColKey, val: int)
    | EditRemoveRelProp(i: nat, key: nat)

  function Apply(st: Staged, e: Edit): Staged {
    match e
    case EditAddNode(id, ls) => AddNode(st, id, ls)
    case EditAddRel(u, v, t) => AddRel(st, u, v, t)
    case EditRemoveRel(i) => RemoveRel(st, i)
    case EditRemoveNode(id) => RemoveNode(st, id)
    case EditSetProp(node, ck, val) => SetProp(st, node, ck, val)
    case EditUpdateProp(node, ck, val) => SetProp(RemoveProp(st, node, ck.key), node, ck, val)
    case EditRemoveProp(node, key) => RemoveProp(st, node, key)
    case EditSetRelProp(i, ck, val) => SetRelProp(st, i, ck, val)
    case EditRemoveRelProp(i, key) => RemoveRelProp(st, i, key)
  }

  /** A whole run of edits, in order. */
  function ApplyAll(st: Staged, edits: seq<Edit>): Staged {
    if edits == [] then st else Apply(ApplyAll(st, edits[..|edits| - 1]), edits[|edits| - 1])
  }

  // ---- facts about sweeping -------------------------------------------------------------------

  lemma {:induction false} WithoutUntouched(pairs: seq<Pair>, id: nat)
    ensures Without(pairs, id) == pairs <==> !Touches(pairs, id)
    ensures |Without(pairs, id)| <= |pairs|
  {
    if pairs != [] {
      var n := |pairs| - 1;
      WithoutUntouched(pairs[..n], id);
      assert Touches(pairs[..n], id) ==> Touches(pairs, id) by {
        if Touches(pairs[..n], id) {
          var i :| 0 <= i < n && pairs[..n][i].id == id;
          assert pairs[i].id == id;
        }
      }
      assert Touches(pairs, id) ==> Touches(pairs[..n], id) || pairs[n].id == id by {
        if Touches(pairs, id) {
          var i :| 0 <= i < |pairs| && pairs[i].id == id;
          if i < n { assert pairs[..n][i].id == id; }
        }
      }
      assert pairs == pairs[..n] + [pairs[n]];
    }
  }

  lemma {:induction false} WithoutMembers(pairs: seq<Pair>, id: nat, p: Pair)
    ensures p in Without(pairs, id) <==> p in pairs && p.id != id
  {
    if pairs != [] {
      WithoutMembers(pairs[..|pairs| - 1], id, p);
      assert pairs == pairs[..|pairs| - 1] + [pairs[|pairs| - 1]];
    }
  }
}
