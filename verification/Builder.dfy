/** The mutable builder: degree counters, tombstones, watermarks and the lazy lookup map, kept in
    step with the staged state that the functions of `Staging` describe. */
module Builder {
  import opened StableSort
  import opened Csr
  import opened Columns
  import opened ColumnStore
  import opened Staging
  import opened Removal
  import Cow
  import Finalizing

  // ---- degrees -----------------------------------------------------------------------------------

  /** How many of the first `k` relationships `u` owns, tombstoned ones aside. */
  function Degree(rels: seq<Rel>, tombs: set<nat>, d: Side, u: nat, k: nat): nat
    requires k <= |rels|
  {
    if k == 0 then 0
    else Degree(rels, tombs, d, u, k - 1) + if k - 1 !in tombs && Owner(rels[k - 1], d) == u then 1 else 0
  }

  /** `deg` counts every owner's relationships, and no owner lies beyond it. */
  ghost predicate DegreesExact(deg: seq<nat>, rels: seq<Rel>, tombs: set<nat>, d: Side) {
    && (forall i :: 0 <= i < |rels| ==> Owner(rels[i], d) < |deg|)
    && (forall u :: 0 <= u < |deg| ==> deg[u] == Degree(rels, tombs, d, u, |rels|))
  }

  lemma {:induction false} DegreeOfPrefix(a: seq<Rel>, b: seq<Rel>, tombs: set<nat>, d: Side, u: nat, k: nat)
    requires k <= |a| && k <= |b| && a[..k] == b[..k]
    ensures Degree(a, tombs, d, u, k) == Degree(b, tombs, d, u, k)
  {
    if k > 0 {
      assert a[k - 1] == a[..k][k - 1] == b[k - 1];
      assert a[..k - 1] == a[..k][..k - 1] == b[..k - 1];
      DegreeOfPrefix(a, b, tombs, d, u, k - 1);
    }
  }

  lemma {:induction false} DegreeAfterTomb(rels: seq<Rel>, tombs: set<nat>, i: nat, d: Side, u: nat, k: nat)
    requires k <= |rels| && i !in tombs && i < |rels|
    ensures Degree(rels, tombs + {i}, d, u, k)
         == Degree(rels, tombs, d, u, k) - if i < k && Owner(rels[i], d) == u then 1 else 0
  {
    if k > 0 { DegreeAfterTomb(rels, tombs, i, d, u, k - 1); }
  }

  /** With nothing tombstoned the counters are what the CSR build wants. */
  lemma {:induction false} DegreeCounts(rels: seq<Rel>, d: Side, u: nat, k: nat)
    requires k <= |rels|
    ensures Degree(rels, {}, d, u, k) == CountEqual(Owners(rels, d)[..k], u)
  {
    if k > 0 {
      DegreeCounts(rels, d, u, k - 1);
      assert Owners(rels, d)[..k][..k - 1] == Owners(rels, d)[..k - 1];
    }
  }

  /** Counters never exceed the staged count, so 32 bits hold them. */
  lemma {:induction false} DegreeBounded(rels: seq<Rel>, tombs: set<nat>, d: Side, u: nat, k: nat)
    requires k <= |rels|
    ensures Degree(rels, tombs, d, u, k) <= k
  {
    if k > 0 { DegreeBounded(rels, tombs, d, u, k - 1); }
  }

  lemma DegreesAfterAdd(deg: seq<nat>, rels: seq<Rel>, r: Rel, tombs: set<nat>, d: Side)
    requires DegreesExact(deg, rels, tombs, d) && Owner(r, d) < |deg| && |rels| !in tombs
    ensures DegreesExact(deg[Owner(r, d) := deg[Owner(r, d)] + 1], rels + [r], tombs, d)
  {
    forall u: nat ensures Degree(rels + [r], tombs, d, u, |rels|) == Degree(rels, tombs, d, u, |rels|) {
      DegreeOfPrefix(rels + [r], rels, tombs, d, u, |rels|);
    }
  }

  lemma DegreesAfterRemove(deg: seq<nat>, rels: seq<Rel>, tombs: set<nat>, i: nat, d: Side)
    requires DegreesExact(deg, rels, tombs, d) && i < |rels| && i !in tombs
    ensures deg[Owner(rels[i], d)] > 0
    ensures DegreesExact(deg[Owner(rels[i], d) := deg[Owner(rels[i], d)] - 1], rels, tombs + {i}, d)
  {
    forall u: nat ensures Degree(rels, tombs + {i}, d, u, |rels|)
                       == Degree(rels, tombs, d, u, |rels|) - if Owner(rels[i], d) == u then 1 else 0 {
      DegreeAfterTomb(rels, tombs, i, d, u, |rels|);
    }
  }

  /** Room for one more owner: absent counters read as zero. */
  lemma DegreesAfterGrow(deg: seq<nat>, rels: seq<Rel>, tombs: set<nat>, d: Side, k: nat)
    requires DegreesExact(deg, rels, tombs, d)
    ensures DegreesExact(deg + seq(k, _ => 0), rels, tombs, d)
  {
    forall u: nat | |deg| <= u ensures Degree(rels, tombs, d, u, |rels|) == 0 {
      DegreeOfStranger(rels, tombs, d, u, |rels|);
    }
  }

  lemma {:induction false} DegreeOfStranger(rels: seq<Rel>, tombs: set<nat>, d: Side, u: nat, k: nat)
    requires k <= |rels| && forall i :: 0 <= i < |rels| ==> Owner(rels[i], d) != u
    ensures Degree(rels, tombs, d, u, k) == 0
  {
    if k > 0 { DegreeOfStranger(rels, tombs, d, u, k - 1); }
  }

  // ---- first live match ------------------------------------------------------------------------

  /** `i` is the first live relationship equal to `r`. */
  predicate FirstLive(st: Staged, r: Rel, i: nat) {
    LiveRel(st, i) && st.rels[i] == r && forall j :: 0 <= j < i && LiveRel(st, j) ==> st.rels[j] != r
  }

  /** The lookup map holds exactly the first live match of every live (u, v, type) among the
      first `k` staged. */
  ghost predicate Indexes(m: map<Rel, nat>, st: Staged, k: nat) {
    && (forall r :: r in m ==> m[r] < k && FirstLive(st, r, m[r]))
    && (forall i :: 0 <= i < k && LiveRel(st, i) ==> st.rels[i] in m)
  }

  function Noted(m: map<Rel, nat>, r: Rel, i: nat): map<Rel, nat> {
    if r in m then m else m[r := i]
  }

  lemma IndexStep(m: map<Rel, nat>, st: Staged, k: nat)
    requires k < |st.rels| && Indexes(m, st, k)
    ensures Indexes(if LiveRel(st, k) then Noted(m, st.rels[k], k) else m, st, k + 1)
  {
  }

  lemma IndexAfterAdd(m: map<Rel, nat>, st: Staged, u: nat, v: nat, t: nat)
    requires Sane(st) && AddRelFits(st, u, v) && Indexes(m, st, |st.rels|)
    ensures Indexes(Noted(m, Rel(u, v, t), |st.rels|), AddRel(st, u, v, t), |st.rels| + 1)
  {
    var st' := AddRel(st, u, v, t);
    forall i | 0 <= i < |st'.rels| ensures LiveRel(st', i) <==> i == |st.rels| || LiveRel(st, i) {
    }
    assert forall r, i :: FirstLive(st, r, i) ==> FirstLive(st', r, i);
  }

  /** Edits that touch no relationship leave the map right. */
  lemma IndexKept(m: map<Rel, nat>, a: Staged, b: Staged)
    requires a.rels == b.rels && a.removedRels == b.removedRels && a.removedNodes == b.removedNodes
    requires Indexes(m, a, |a.rels|)
    ensures Indexes(m, b, |b.rels|)
  {
    assert forall i :: 0 <= i < |a.rels| ==> (LiveRel(a, i) <==> LiveRel(b, i));
    assert forall r, i :: FirstLive(a, r, i) ==> FirstLive(b, r, i);
  }

  // ---- in-place loops on staged pairs ---------------------------------------------------------------

  method RemoveAllPairs(pairs: seq<Pair>, id: nat) returns (kept: seq<Pair>, removed: bool)
    ensures kept == Without(pairs, id)
    ensures removed <==> Touches(pairs, id)
  {
    kept := [];
    for k := 0 to |pairs|
      invariant kept == Without(pairs[..k], id)
    {
      assert pairs[..k + 1][..k] == pairs[..k];
      if pairs[k].id != id { kept := kept + [pairs[k]]; }
    }
    assert pairs[..|pairs|] == pairs;
    removed := |kept| != |pairs|;
    WithoutUntouched(pairs, id);
    WithoutLength(pairs, id);
  }

  lemma {:induction false} WithoutLength(pairs: seq<Pair>, id: nat)
    ensures |Without(pairs, id)| == |pairs| ==> Without(pairs, id) == pairs
  {
    if pairs != [] {
      WithoutLength(pairs[..|pairs| - 1], id);
      WithoutUntouched(pairs[..|pairs| - 1], id);
      assert pairs == pairs[..|pairs| - 1] + [pairs[|pairs| - 1]];
    }
  }

  /** The entries of `sweep` lose `id`'s pairs, and go when emptied. */
  function Swept(cols: map<ColKey, seq<Pair>>, sweep: set<ColKey>, id: nat): map<ColKey, seq<Pair>> {
    map ck | ck in cols && (ck !in sweep || Without(cols[ck], id) != []) ::
      if ck in sweep then Without(cols[ck], id) else cols[ck]
  }

  lemma SweptAgain(cols: map<ColKey, seq<Pair>>, sweep: set<ColKey>, ck: ColKey, id: nat)
    requires ck !in sweep
    ensures Swept(Swept(cols, sweep, id), {ck}, id) == Swept(cols, sweep + {ck}, id)
    ensures PairsOf(Swept(cols, sweep, id), ck) == PairsOf(cols, ck)
  {
  }

  /** The (family, key) entries of one key. */
  function Families(key: nat): set<ColKey> {
    {ColKey(I64, key)} + {ColKey(F64, key)} + {ColKey(Bool, key)} + {ColKey(Str, key)}
  }

  lemma EveryFamily(ck: ColKey)
    ensures ck in Families(ck.key)
  {
    match ck.kind
    case I64 =>
    case F64 =>
    case Bool =>
    case Str =>
  }

  lemma FamiliesAreTheKey(cols: map<ColKey, seq<Pair>>, key: nat, id: nat)
    ensures Swept(cols, Families(key), id) == SweepKey(cols, key, id)
    ensures KeyTouches(cols, key, id) <==> exists ck :: ck in Families(key) && Touches(PairsOf(cols, ck), id)
  {
    forall ck | ck in cols ensures ck.key == key <==> ck in Families(key) {
      EveryFamily(ck);
    }
    if KeyTouches(cols, key, id) {
      var ck :| ck in cols && ck.key == key && Touches(cols[ck], id);
      assert ck in Families(key) && Touches(PairsOf(cols, ck), id);
    }
  }

  /** One entry of one family. */
  method SweepPairs(cols: map<ColKey, seq<Pair>>, ck: ColKey, id: nat)
    returns (swept: map<ColKey, seq<Pair>>, removed: bool)
    ensures swept == Swept(cols, {ck}, id)
    ensures removed <==> Touches(PairsOf(cols, ck), id)
  {
    if ck !in cols { return cols, false; }
    var kept;
    kept, removed := RemoveAllPairs(cols[ck], id);
    swept := if kept == [] then cols - {ck} else cols[ck := kept];
  }

  /** All four families of one key, in the order the builder sweeps them. */
  method SweepFamilies(cols: map<ColKey, seq<Pair>>, key: nat, id: nat)
    returns (swept: map<ColKey, seq<Pair>>, removed: bool)
    ensures swept == SweepKey(cols, key, id)
    ensures removed <==> KeyTouches(cols, key, id)
  {
    var k1, k2, k3, k4 := ColKey(I64, key), ColKey(F64, key), ColKey(Bool, key), ColKey(Str, key);
    var r1, r2, r3, r4;
    swept, r1 := SweepPairs(cols, k1, id);
    SweptAgain(cols, {k1}, k2, id);
    swept, r2 := SweepPairs(swept, k2, id);
    SweptAgain(cols, {k1} + {k2}, k3, id);
    swept, r3 := SweepPairs(swept, k3, id);
    SweptAgain(cols, {k1} + {k2} + {k3}, k4, id);
    swept, r4 := SweepPairs(swept, k4, id);
    removed := r1 || r2 || r3 || r4;
    FamiliesAreTheKey(cols, key, id);
  }

  /** Every entry of every family, in any order; `touched` collects the keys that lost a pair. */
  method SweepNode(cols: map<ColKey, seq<Pair>>, id: nat)
    returns (swept: map<ColKey, seq<Pair>>, touched: set<nat>)
    ensures swept == SweepAll(cols, id)
    ensures touched == KeysTouching(cols, id)
  {
    swept, touched := cols, {};
    var todo, done := cols.Keys, {};
    while todo != {}
      invariant done + todo == cols.Keys && done !! todo
      invariant swept == Swept(cols, done, id)
      invariant touched == set ck | ck in done && Touches(PairsOf(cols, ck), id) :: ck.key
    {
      var ck :| ck in todo;
      SweptAgain(cols, done, ck, id);
      var removed;
      swept, removed := SweepPairs(swept, ck, id);
      if removed { touched := touched + {ck.key}; }
      todo, done := todo - {ck}, done + {ck};
    }
    assert done == cols.Keys;
  }

  /** Rewrites one column's ids through the compaction map, dropping negative entries. */
  method RemapPairs(pairs: seq<Pair>, oldToNew: seq<int>) returns (kept: seq<Pair>)
    requires forall p :: p in pairs ==> p.id < |oldToNew|
    ensures kept == Remap(pairs, oldToNew)
  {
    kept := [];
    assert forall k :: 0 <= k < |pairs| ==> pairs[k] in pairs;
    for k := 0 to |pairs|
      invariant forall p :: p in pairs[..k] ==> p in pairs
      invariant kept == Remap(pairs[..k], oldToNew)
    {
      assert pairs[..k + 1][..k] == pairs[..k];
      var ni := oldToNew[pairs[k].id];
      if ni >= 0 { kept := kept + [Pair(ni, pairs[k].val)]; }
    }
    assert pairs[..|pairs|] == pairs;
  }

  /** Every column, in any order; emptied ones go. */
  method RemapColumns(cols: map<ColKey, seq<Pair>>, oldToNew: seq<int>)
    returns (remapped: map<ColKey, seq<Pair>>)
    requires IdsBelow(cols, |oldToNew|)
    ensures remapped == RemapCols(cols, oldToNew)
  {
    remapped := map[];
    var todo, done := cols.Keys, {};
    while todo != {}
      invariant done + todo == cols.Keys && done !! todo
      invariant remapped == map ck | ck in RemapCols(cols, oldToNew) && ck in done :: RemapCols(cols, oldToNew)[ck]
    {
      var ck :| ck in todo;
      var kept := RemapPairs(cols[ck], oldToNew);
      if kept != [] { remapped := remapped[ck := kept]; }
      todo, done := todo - {ck}, done + {ck};
    }
    assert done == cols.Keys;
  }

  const DEFAULT_CAPACITY: nat := 0x10_0000

  // ---- the builder ---------------------------------------------------------------------------------

  class Builder {
    var degOut: seq<nat>
    var degIn: seq<nat>
    var rels: seq<Rel>
    var nodeLabels: map<nat, seq<nat>>
    var nodeCols: map<ColKey, seq<Pair>>
    var relCols: map<ColKey, seq<Pair>>
    var knownNodes: set<nat>
    var relIndex: Option<map<Rel, nat>>
    var removedRels: set<nat>
    var removedNodes: map<nat, nat>
    var cow: Tracking

    /** What is staged, derived state aside. */
    function State(): Staged
      reads this
    {
      Staged(rels, knownNodes, nodeLabels, nodeCols, relCols, removedRels, removedNodes, cow)
    }

    ghost predicate DegreesHold()
      reads this
    {
      && 1 <= |degOut| == |degIn| <= CEILING
      && DegreesExact(degOut, rels, removedRels, Out) && DegreesExact(degIn, rels, removedRels, In)
    }

    ghost predicate IndexHolds()
      reads this
    {
      relIndex.Some? ==> Indexes(relIndex.value, State(), |rels|)
    }

    ghost predicate Valid()
      reads this
    {
      && Sane(State()) && DegreesHold() && IndexHolds()
      && forall id :: id in knownNodes ==> id < |degOut|
    }

    constructor (capNodes: nat)
      requires capNodes <= CEILING
      ensures Valid() && State() == EMPTY && relIndex.None? && |degOut| >= capNodes
    {
      var size := if capNodes == 0 then DEFAULT_CAPACITY else capNodes;
      degOut, degIn := seq(size, _ => 0), seq(size, _ => 0);
      rels, nodeLabels, nodeCols, relCols := [], map[], map[], map[];
      knownNodes, relIndex, removedRels, removedNodes, cow := {}, None, {}, map[], Unsourced;
    }

    /** Room for `id` in the counters, doubling; nothing staged changes. */
    method EnsureCapacity(id: nat) returns (ok: bool)
      requires Valid()
      modifies this`degOut, this`degIn
      ensures Valid() && State() == old(State())
      ensures ok <==> id < CEILING
      ensures ok ==> id < |degOut|
      ensures |degOut| >= |old(degOut)|
    {
      if id < |degOut| { return true; }
      var size := if (id + 1) * 2 < CEILING then (id + 1) * 2 else CEILING;
      if size <= id { return false; }
      ghost var st := State();
      DegreesAfterGrow(degOut, rels, removedRels, Out, size - |degOut|);
      DegreesAfterGrow(degIn, rels, removedRels, In, size - |degIn|);
      degOut := degOut + seq(size - |degOut|, _ => 0);
      degIn := degIn + seq(size - |degIn|, _ => 0);
      assert State() == st;
      return true;
    }

    /** `addNodeAt`. */
    method AddNode(id: nat, ls: seq<nat>) returns (ok: bool)
      requires Valid()
      modifies this
      ensures Valid() && State() == Staging.AddNode(old(State()), id, ls)
      ensures ok <==> id < CEILING
    {
      ghost var st := State();
      ok := EnsureCapacity(id);
      if !ok { return; }
      nodeLabels := nodeLabels[id := LabelsOf(nodeLabels, id) + ls];
      cow := MarkLabels(cow, set l | l in ls);
      knownNodes := knownNodes + {id};
      StagedEdit(st, EditAddNode(id, ls));
    }

    /** `addRelTyped`: ceilings, degrees, known endpoints and the lookup map in one place. */
    method AddRel(u: nat, v: nat, t: nat) returns (idx: Option<nat>)
      requires Valid()
      modifies this
      ensures Valid() && State() == Staging.AddRel(old(State()), u, v, t)
      ensures idx == if AddRelFits(old(State()), u, v) then Some(|old(rels)|) else None
      ensures old(relIndex).None? ==> relIndex.None?
      ensures |degOut| >= |old(degOut)|
    {
      var ok := EnsureCapacity(if u < v then v else u);
      if !ok || |rels| >= CEILING { return None; }
      idx := Some(|rels|);
      StageChecked(u, v, t);
    }

    /** Staging once both ceilings are cleared. */
    method StageChecked(u: nat, v: nat, t: nat)
      requires Valid() && AddRelFits(State(), u, v) && u < |degOut| && v < |degOut|
      modifies this
      ensures Valid() && State() == Staging.AddRel(old(State()), u, v, t)
      ensures old(relIndex).None? ==> relIndex.None?
      ensures |degOut| == |old(degOut)|
    {
      ghost var st := State();
      if relIndex.Some? { IndexAfterAdd(relIndex.value, st, u, v, t); }
      AddRelKeepsSane(st, u, v, t);
      StageRel(Rel(u, v, t));
    }

    method StageRel(r: Rel)
      requires AddRelFits(State(), r.src, r.dst)
      requires DegreesHold() && r.src < |degOut| && r.dst < |degIn| && |rels| !in removedRels
      modifies this
      ensures State() == Staging.AddRel(old(State()), r.src, r.dst, r.typ)
      ensures DegreesHold() && |degOut| == |old(degOut)|
      ensures relIndex == if old(relIndex).None? then None else Some(Noted(old(relIndex).value, r, |old(rels)|))
    {
      cow := MarkRels(cow);
      CountRel(r);
      if relIndex.Some? && r !in relIndex.value {
        relIndex := Some(relIndex.value[r := |rels|]);
      }
      rels := rels + [r];
      knownNodes := knownNodes + {r.src, r.dst};
    }

    method CountRel(r: Rel)
      requires DegreesHold() && r.src < |degOut| && r.dst < |degIn| && |rels| !in removedRels
      modifies this`degOut, this`degIn
      ensures |degOut| == |degIn| == |old(degOut)|
      ensures DegreesExact(degOut, rels + [r], removedRels, Out) && DegreesExact(degIn, rels + [r], removedRels, In)
    {
      DegreesAfterAdd(degOut, rels, r, removedRels, Out);
      DegreesAfterAdd(degIn, rels, r, removedRels, In);
      degOut := degOut[r.src := degOut[r.src] + 1];
      degIn := degIn[r.dst := degIn[r.dst] + 1];
    }

    /** `relRemoved`, for an index that may also be out of range. */
    method IsLive(idx: nat) returns (live: bool)
      ensures live == LiveRel(State(), idx)
    {
      if idx >= |rels| || idx in removedRels { return false; }
      var r := rels[idx];
      return !(r.src in removedNodes && idx < removedNodes[r.src])
          && !(r.dst in removedNodes && idx < removedNodes[r.dst]);
    }

    method RemoveRel(idx: nat) returns (ok: bool)
      requires Valid()
      modifies this
      ensures Valid() && State() == Staging.RemoveRel(old(State()), idx)
      ensures ok <==> LiveRel(old(State()), idx)
    {
      ghost var st := State();
      ok := IsLive(idx);
      if !ok { return; }
      EditKeepsSane(st, EditRemoveRel(idx));
      DegreesAfterRemove(degOut, rels, removedRels, idx, Out);
      DegreesAfterRemove(degIn, rels, removedRels, idx, In);
      var r := rels[idx];
      cow := MarkRels(cow);
      removedRels := removedRels + {idx};
      degOut := degOut[r.src := degOut[r.src] - 1];
      degIn := degIn[r.dst := degIn[r.dst] - 1];
      relIndex := None;
      assert State() == Staging.RemoveRel(st, idx);
    }

    method RemoveNode(id: nat) returns (ok: bool)
      requires Valid()
      modifies this
      ensures Valid() && State() == Staging.RemoveNode(old(State()), id)
      ensures ok <==> id in old(knownNodes)
    {
      if id !in knownNodes { return false; }
      EditKeepsSane(State(), EditRemoveNode(id));
      DetachNode(id);
      return true;
    }

    method DetachNode(id: nat)
      requires id in knownNodes
      modifies this`knownNodes, this`nodeLabels, this`nodeCols, this`removedNodes, this`relIndex, this`cow
      ensures State() == Staging.RemoveNode(old(State()), id) && relIndex.None?
    {
      knownNodes := knownNodes - {id};
      cow := MarkRels(MarkLabels(cow, set l | l in LabelsOf(nodeLabels, id)));
      nodeLabels := nodeLabels - {id};
      var touched;
      nodeCols, touched := SweepNode(nodeCols, id);
      cow := MarkNodeCols(cow, touched);
      removedNodes := removedNodes[id := |rels|];
      relIndex := None;
    }

    method SetProp(node: nat, ck: ColKey, val: int) returns (ok: bool)
      requires Valid()
      modifies this
      ensures Valid() && State() == Staging.SetProp(old(State()), node, ck, val)
      ensures ok <==> node < CEILING
    {
      ghost var st := State();
      ok := EnsureCapacity(node);
      if !ok { return; }
      cow := MarkNodeCols(cow, {ck.key});
      nodeCols := nodeCols[ck := PairsOf(nodeCols, ck) + [Pair(node, val)]];
      knownNodes := knownNodes + {node};
      StagedEdit(st, EditSetProp(node, ck, val));
    }

    method RemoveProp(node: nat, key: nat) returns (removed: bool)
      requires Valid()
      modifies this
      ensures Valid() && State() == Staging.RemoveProp(old(State()), node, key)
      ensures removed <==> KeyTouches(old(nodeCols), key, node)
    {
      ghost var st := State();
      nodeCols, removed := SweepFamilies(nodeCols, key, node);
      if removed { cow := MarkNodeCols(cow, {key}); }
      StagedEdit(st, EditRemoveProp(node, key));
    }

    method UpdateProp(node: nat, ck: ColKey, val: int) returns (ok: bool)
      requires Valid()
      modifies this
      ensures Valid() && State() == Apply(old(State()), EditUpdateProp(node, ck, val))
      ensures ok <==> node < CEILING
    {
      var _ := RemoveProp(node, ck.key);
      ok := SetProp(node, ck, val);
    }

    method SetRelPropAt(idx: nat, ck: ColKey, val: int) returns (ok: bool)
      requires Valid()
      modifies this
      ensures Valid() && State() == Staging.SetRelProp(old(State()), idx, ck, val)
      ensures ok <==> LiveRel(old(State()), idx)
    {
      ghost var st := State();
      ok := IsLive(idx);
      if !ok { return; }
      cow := MarkRelCol(cow, ck.key);
      relCols := relCols[ck := PairsOf(relCols, ck) + [Pair(idx, val)]];
      StagedEdit(st, EditSetRelProp(idx, ck, val));
    }

    method RemoveRelPropAt(idx: nat, key: nat) returns (ok: bool, removed: bool)
      requires Valid()
      modifies this
      ensures Valid() && State() == Staging.RemoveRelProp(old(State()), idx, key)
      ensures ok <==> LiveRel(old(State()), idx)
      ensures removed <==> ok && KeyTouches(old(relCols), key, idx)
    {
      ghost var st := State();
      ok := IsLive(idx);
      if !ok { return false, false; }
      relCols, removed := SweepFamilies(relCols, key, idx);
      if removed { cow := MarkRelCol(cow, key); }
      StagedEdit(st, EditRemoveRelProp(idx, key));
    }

    /** An edit that stages no relationship and kills none keeps the derived state right. */
    lemma StagedEdit(st: Staged, e: Edit)
      requires Sane(st) && State() == Apply(st, e) && DegreesHold()
      requires rels == st.rels && removedRels == st.removedRels && removedNodes == st.removedNodes
      requires relIndex.Some? ==> Indexes(relIndex.value, st, |st.rels|)
      requires forall id :: id in knownNodes ==> id < |degOut|
      ensures Valid()
    {
      EditKeepsSane(st, e);
      if relIndex.Some? { IndexKept(relIndex.value, st, State()); }
    }

    /** The first live match, through the map it builds on first use. */
    method FindRelIndex(u: nat, v: nat, t: nat) returns (idx: Option<nat>)
      requires Valid()
      modifies this`relIndex
      ensures Valid() && State() == old(State())
      ensures idx.Some? ==> FirstLive(State(), Rel(u, v, t), idx.value)
      ensures idx.None? ==> forall i :: 0 <= i < |rels| && LiveRel(State(), i) ==> rels[i] != Rel(u, v, t)
    {
      ghost var st := State();
      if relIndex.None? {
        var built: map<Rel, nat> := map[];
        for k := 0 to |rels|
          invariant State() == st && Indexes(built, st, k)
        {
          IndexStep(built, st, k);
          var live := IsLive(k);
          if live { built := Noted(built, rels[k], k); }
        }
        relIndex := Some(built);
        assert State() == st;
      }
      var key := Rel(u, v, t);
      idx := if key in relIndex.value then Some(relIndex.value[key]) else None;
    }

    /** `SetRelProp` by (u, v, type): the first live match, or the not-found error. */
    method SetRelProp(u: nat, v: nat, t: nat, ck: ColKey, val: int) returns (ok: bool)
      requires Valid()
      modifies this
      ensures Valid()
      ensures ok ==> exists i :: FirstLive(old(State()), Rel(u, v, t), i)
                              && State() == Staging.SetRelProp(old(State()), i, ck, val)
      ensures !ok ==> State() == old(State())
      ensures !ok ==> forall i :: 0 <= i < |rels| && LiveRel(State(), i) ==> rels[i] != Rel(u, v, t)
    {
      var idx := FindRelIndex(u, v, t);
      if idx.None? { return false; }
      ok := SetRelPropAt(idx.value, ck, val);
    }

    /** The filter pass of `compactRemovals`: live relationships slide down over dead ones while the
        scan still reads ahead of them. */
    method SlideLive() returns (oldToNew: seq<int>)
      modifies this`rels
      ensures rels == Compacted(old(State()), |old(rels)|) && oldToNew == OldToNew(old(State()))
    {
      ghost var st := State();
      var m, kept := |rels|, 0;
      oldToNew := [];
      for idx := 0 to m
        invariant |rels| == m && kept == LiveBelow(st, idx) <= idx
        invariant rels[idx..] == st.rels[idx..]
        invariant rels[..kept] == Compacted(st, idx)
        invariant |oldToNew| == idx && forall i :: 0 <= i < idx ==> oldToNew[i] == NewIndex(st, i)
      {
        assert rels[idx] == rels[idx..][0] == st.rels[idx];
        var live := IsLive(idx);
        if live {
          oldToNew := oldToNew + [WrapI32(kept)];
          Slid(rels, kept, idx, st.rels);
          rels := rels[kept := rels[idx]];
          kept := kept + 1;
        } else {
          oldToNew := oldToNew + [-1];
          assert rels[idx + 1..] == rels[idx..][1..];
        }
      }
      rels := rels[..kept];
    }

    method FoldRemovals()
      requires DegreesHold() && IdsBelow(relCols, |rels|) && HasRemovals(State())
      modifies this
      ensures State() == Compact(old(State()))
      ensures DegreesHold() && |degOut| == |old(degOut)| && relIndex.None?
    {
      CompactedFrom(State(), |rels|);
      var oldToNew := SlideLive();
      relCols := RemapColumns(relCols, oldToNew);
      removedRels, removedNodes, relIndex := {}, map[], None;
      assert State() == Compact(old(State()));
      RecountBoth();
    }

    /** Degrees afresh, once nothing is tombstoned. */
    method RecountBoth()
      requires removedRels == {} && 1 <= |degOut| == |degIn| <= CEILING
      requires forall r :: r in rels ==> r.src < |degOut| && r.dst < |degIn|
      modifies this`degOut, this`degIn
      ensures DegreesHold() && |degOut| == |old(degOut)| && |degIn| == |old(degIn)|
    {
      degOut := Recount(|degOut|, rels, Out);
      degIn := Recount(|degIn|, rels, In);
    }

    /** Folds every pending removal into the staged state; the degrees are then exact for it. */
    method CompactRemovals()
      requires Valid()
      modifies this
      ensures Valid() && State() == Compact(old(State()))
      ensures removedRels == {} && removedNodes == map[]
      ensures forall u :: 0 <= u < |degOut| ==> degOut[u] == CountEqual(Owners(rels, Out), u)
      ensures forall u :: 0 <= u < |degIn| ==> degIn[u] == CountEqual(Owners(rels, In), u)
    {
      ghost var st := State();
      CompactIsSane(st);
      if removedRels != {} || removedNodes != map[] {
        FoldRemovals();
      }
      CountsAreDegrees(degOut, rels, Out);
      CountsAreDegrees(degIn, rels, In);
    }

    /** `Finalize`: removals folded in, then every phase; a thawed builder shares what it kept. */
    method Finalize() returns (g: Snapshot)
      requires Valid() && Cow.AllKnown(State()) && (cow.From? ==> Cow.Tracked(State()))
      modifies this
      ensures Valid() && State() == Compact(old(State())) && Cow.Settled(State())
      ensures cow.From? ==> g == Cow.AliasBuild(State())
      ensures cow.Unsourced? ==> g == Cow.FullBuild(State())
    {
      ReadyWhenCompacted(State());
      CompactRemovals();
      g := Finalizing.Assemble(State(), degOut, degIn);
    }
  }

  lemma Slid(rels: seq<Rel>, kept: nat, idx: nat, was: seq<Rel>)
    requires kept <= idx < |rels| && idx < |was| && rels[idx..] == was[idx..]
    ensures rels[kept := rels[idx]][idx + 1..] == was[idx + 1..]
    ensures rels[kept := rels[idx]][..kept + 1] == rels[..kept] + [was[idx]]
  {
    assert rels[idx] == rels[idx..][0] == was[idx..][0];
    assert rels[kept := rels[idx]][idx + 1..] == rels[idx..][1..] == was[idx..][1..];
  }

  lemma CompactIsSane(st: Staged)
    requires Sane(st)
    ensures Sane(Compact(st))
  {
    Cow.CompactIsSettled(st);
    Cow.CompactedAtMost(st, |st.rels|);
    Cow.SettledIsSane(Compact(st));
  }

  lemma ReadyWhenCompacted(st: Staged)
    requires Sane(st) && Cow.AllKnown(st) && (st.cow.From? ==> Cow.Tracked(st))
    ensures Finalizing.Ready(Compact(st))
  {
    Cow.CompactIsSettled(st);
    if st.cow.From? { Cow.CompactIsTracked(st); }
  }

  lemma {:induction false} CompactedFrom(st: Staged, n: nat)
    requires n <= |st.rels|
    ensures forall r :: r in Compacted(st, n) ==> r in st.rels
  {
    if n > 0 { CompactedFrom(st, n - 1); }
  }

  /** Clear, then one pass over the surviving relationships. */
  method Recount(size: nat, rels: seq<Rel>, d: Side) returns (deg: seq<nat>)
    requires forall r :: r in rels ==> Owner(r, d) < size
    ensures |deg| == size && DegreesExact(deg, rels, {}, d)
  {
    var counts := new nat[size](_ => 0);
    assert forall i :: 0 <= i < |rels| ==> rels[i] in rels;
    for i := 0 to |rels|
      invariant forall u :: 0 <= u < size ==> counts[u] == Degree(rels, {}, d, u, i)
    {
      var u := Owner(rels[i], d);
      counts[u] := counts[u] + 1;
    }
    deg := counts[..];
  }

  lemma CountsAreDegrees(deg: seq<nat>, rels: seq<Rel>, d: Side)
    requires DegreesExact(deg, rels, {}, d)
    ensures forall u :: 0 <= u < |deg| ==> deg[u] == CountEqual(Owners(rels, d), u)
  {
    forall u: nat ensures Degree(rels, {}, d, u, |rels|) == CountEqual(Owners(rels, d), u) {
      DegreeCounts(rels, d, u, |rels|);
      assert Owners(rels, d)[..|rels|] == Owners(rels, d);
    }
  }
}
