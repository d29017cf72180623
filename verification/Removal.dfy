/** Lazy removal -- tombstones and watermarks folded in only at Finalize -- against the eager
    model that deletes relationships, and their properties, on the spot. */
module Removal {
  import opened Csr
  import opened Columns
  import opened Staging

  // ---- the eager model -------------------------------------------------------------------------

  /** Relationships by handle, exactly the live ones, with exactly their properties. */
  datatype Eager = Eager(nodes: set<nat>, rels: map<nat, Rel>, next: nat, cols: map<ColKey, seq<Pair>>)

  /** The pairs staged for ids in `keep`, in order. */
  function Keep(pairs: seq<Pair>, keep: set<nat>): seq<Pair> {
    if pairs == [] then []
    else
      var init := Keep(pairs[..|pairs| - 1], keep);
      if pairs[|pairs| - 1].id in keep then init + [pairs[|pairs| - 1]] else init
  }

  function Restrict(cols: map<ColKey, seq<Pair>>, keep: set<nat>): map<ColKey, seq<Pair>> {
    map ck | ck in cols && Keep(cols[ck], keep) != [] :: Keep(cols[ck], keep)
  }

  predicate Incident(r: Rel, id: nat) {
    r.src == id || r.dst == id
  }

  function DeleteRels(e: Eager, dead: set<nat>): Eager {
    var left := e.rels - dead;
    e.(rels := left, cols := Restrict(e.cols, left.Keys))
  }

  /** Each edit done eagerly; edits on dangling handles and unknown nodes change nothing. */
  function EagerApply(e: Eager, edit: Edit): Eager {
    match edit
    case EditAddNode(id, _) => if id >= CEILING then e else e.(nodes := e.nodes + {id})
    case EditAddRel(u, v, t) =>
      if u < CEILING && v < CEILING && e.next < CEILING
      then e.(nodes := e.nodes + {u, v}, rels := e.rels[e.next := Rel(u, v, t)], next := e.next + 1)
      else e
    case EditRemoveRel(i) => if i in e.rels then DeleteRels(e, {i}) else e
    case EditRemoveNode(id) =>
      if id in e.nodes
      then DeleteRels(e.(nodes := e.nodes - {id}), set i | i in e.rels && Incident(e.rels[i], id))
      else e
    case EditSetProp(node, _, _) => if node >= CEILING then e else e.(nodes := e.nodes + {node})
    case EditUpdateProp(node, _, _) => if node >= CEILING then e else e.(nodes := e.nodes + {node})
    case EditRemoveProp(_, _) => e
    case EditSetRelProp(i, ck, val) =>
      if i in e.rels then e.(cols := e.cols[ck := PairsOf(e.cols, ck) + [Pair(i, val)]]) else e
    case EditRemoveRelProp(i, key) => if i in e.rels then e.(cols := SweepKey(e.cols, key, i)) else e
  }

  function EagerApplyAll(e: Eager, edits: seq<Edit>): Eager {
    if edits == [] then e else EagerApply(EagerApplyAll(e, edits[..|edits| - 1]), edits[|edits| - 1])
  }

  // ---- the abstraction -----------------------------------------------------------------------------

  function Live(st: Staged): set<nat> {
    set i | 0 <= i < |st.rels| && LiveRel(st, i)
  }

  /** The eager state a staged state stands for. */
  function Eagerly(st: Staged): Eager {
    Eager(st.known, map i | i in Live(st) :: st.rels[i], |st.rels|, Restrict(st.relCols, Live(st)))
  }

  ghost predicate NonEmpty(cols: map<ColKey, seq<Pair>>) {
    forall ck :: ck in cols ==> cols[ck] != []
  }

  ghost predicate IdsBelow(cols: map<ColKey, seq<Pair>>, n: nat) {
    forall ck, p: Pair :: ck in cols && p in cols[ck] ==> p.id < n
  }

  /** What every run keeps: tombstones and watermarks lie inside the staged range, and both
      endpoints of a live relationship are known. */
  ghost predicate Sane(st: Staged) {
    && |st.rels| <= CEILING
    && (forall i :: i in st.removedRels ==> i < |st.rels|)
    && (forall v :: v in st.removedNodes ==> st.removedNodes[v] <= |st.rels|)
    && (forall i :: i in Live(st) ==> st.rels[i].src in st.known && st.rels[i].dst in st.known)
    && NonEmpty(st.relCols) && IdsBelow(st.relCols, |st.rels|)
  }

  // ---- filters -------------------------------------------------------------------------------------

  lemma {:induction false} KeepAgain(pairs: seq<Pair>, a: set<nat>, b: set<nat>)
    requires b <= a
    ensures Keep(Keep(pairs, a), b) == Keep(pairs, b)
  {
    if pairs != [] {
      var n := |pairs| - 1;
      KeepAgain(pairs[..n], a, b);
      if pairs[n].id in a {
        assert Keep(pairs, a)[..|Keep(pairs, a)| - 1] == Keep(pairs[..n], a);
      }
    }
  }

  lemma KeepAppends(pairs: seq<Pair>, p: Pair, keep: set<nat>)
    ensures Keep(pairs + [p], keep) == Keep(pairs, keep) + if p.id in keep then [p] else []
  {
    assert (pairs + [p])[..|pairs|] == pairs;
  }

  lemma {:induction false} KeepUnaffected(pairs: seq<Pair>, a: set<nat>, b: set<nat>)
    requires forall p :: p in pairs ==> (p.id in a <==> p.id in b)
    ensures Keep(pairs, a) == Keep(pairs, b)
  {
    if pairs != [] {
      assert pairs[|pairs| - 1] in pairs;
      assert forall p :: p in pairs[..|pairs| - 1] ==> p in pairs;
      KeepUnaffected(pairs[..|pairs| - 1], a, b);
    }
  }

  lemma {:induction false} KeepWithout(pairs: seq<Pair>, keep: set<nat>, id: nat)
    ensures Keep(Without(pairs, id), keep) == Without(Keep(pairs, keep), id)
  {
    if pairs != [] {
      var n := |pairs| - 1;
      KeepWithout(pairs[..n], keep, id);
      if pairs[n].id != id {
        KeepAppends(Without(pairs[..n], id), pairs[n], keep);
      }
      if pairs[n].id in keep {
        assert Keep(pairs, keep)[..|Keep(pairs, keep)| - 1] == Keep(pairs[..n], keep);
      }
    }
  }

  lemma RestrictAgain(cols: map<ColKey, seq<Pair>>, a: set<nat>, b: set<nat>)
    requires b <= a
    ensures Restrict(Restrict(cols, a), b) == Restrict(cols, b)
  {
    forall ck | ck in cols ensures Keep(Keep(cols[ck], a), b) == Keep(cols[ck], b) {
      KeepAgain(cols[ck], a, b);
    }
    assert Keep([], b) == [];
  }

  lemma RestrictSweeps(cols: map<ColKey, seq<Pair>>, keep: set<nat>, key: nat, id: nat)
    ensures Restrict(SweepKey(cols, key, id), keep) == SweepKey(Restrict(cols, keep), key, id)
  {
    forall ck | ck in cols ensures Keep(Without(cols[ck], id), keep) == Without(Keep(cols[ck], keep), id) {
      KeepWithout(cols[ck], keep, id);
    }
    assert Without([], id) == [] && Keep([], keep) == [];
  }

  lemma RestrictAppends(cols: map<ColKey, seq<Pair>>, keep: set<nat>, ck: ColKey, p: Pair)
    requires p.id in keep
    ensures Restrict(cols[ck := PairsOf(cols, ck) + [p]], keep)
         == Restrict(cols, keep)[ck := PairsOf(Restrict(cols, keep), ck) + [p]]
  {
    KeepAppends(PairsOf(cols, ck), p, keep);
    assert Keep([], keep) == [];
  }

  lemma RestrictUnaffected(cols: map<ColKey, seq<Pair>>, n: nat, a: set<nat>, b: set<nat>)
    requires IdsBelow(cols, n) && forall i :: 0 <= i < n ==> (i in a <==> i in b)
    ensures Restrict(cols, a) == Restrict(cols, b)
  {
    forall ck | ck in cols ensures Keep(cols[ck], a) == Keep(cols[ck], b) {
      KeepUnaffected(cols[ck], a, b);
    }
  }

  // ---- which relationships each edit kills -------------------------------------------------------------

  lemma AddRelLive(st: Staged, u: nat, v: nat, t: nat)
    requires Sane(st) && AddRelFits(st, u, v)
    ensures Live(AddRel(st, u, v, t)) == Live(st) + {|st.rels|}
  {
    var st' := AddRel(st, u, v, t);
    forall i | 0 <= i < |st'.rels| ensures LiveRel(st', i) <==> i == |st.rels| || LiveRel(st, i) {
    }
  }

  lemma RemoveRelLive(st: Staged, i: nat)
    requires LiveRel(st, i)
    ensures Live(RemoveRel(st, i)) == Live(st) - {i}
  {
  }

  /** The watermark kills exactly the incident relationships staged so far; raising an earlier
      watermark of the same node kills nothing else. */
  lemma RemoveNodeLive(st: Staged, id: nat)
    requires Sane(st) && id in st.known
    ensures Live(RemoveNode(st, id)) == set i | i in Live(st) && !Incident(st.rels[i], id)
  {
    var st' := RemoveNode(st, id);
    forall i | 0 <= i < |st.rels|
      ensures LiveRel(st', i) <==> LiveRel(st, i) && !Incident(st.rels[i], id)
    {
    }
  }

  // ---- every run ------------------------------------------------------------------------------------

  lemma IdsStayBelow(cols: map<ColKey, seq<Pair>>, n: nat, ck: ColKey, p: Pair)
    requires IdsBelow(cols, n) && p.id < n
    ensures IdsBelow(cols[ck := PairsOf(cols, ck) + [p]], n)
  {
  }

  lemma SweepStaysBelow(cols: map<ColKey, seq<Pair>>, n: nat, key: nat, id: nat)
    requires IdsBelow(cols, n) && NonEmpty(cols)
    ensures IdsBelow(SweepKey(cols, key, id), n) && NonEmpty(SweepKey(cols, key, id))
  {
    var cols' := SweepKey(cols, key, id);
    forall ck, p: Pair | ck in cols' && p in cols'[ck] ensures p.id < n {
      WithoutMembers(cols[ck], id, p);
      assert p in cols[ck];
    }
  }

  /** An edit that leaves relationships and removals alone. */
  lemma QuietEditKeepsSane(st: Staged, st': Staged)
    requires Sane(st) && st.known <= st'.known
    requires st'.rels == st.rels && st'.removedRels == st.removedRels && st'.removedNodes == st.removedNodes
    requires NonEmpty(st'.relCols) && IdsBelow(st'.relCols, |st.rels|)
    ensures Sane(st')
  {
    SameLive(st, st');
  }

  lemma AddRelKeepsSane(st: Staged, u: nat, v: nat, t: nat)
    requires Sane(st)
    ensures Sane(AddRel(st, u, v, t))
  {
    if AddRelFits(st, u, v) { AddRelLive(st, u, v, t); }
  }

  lemma RemoveRelKeepsSane(st: Staged, i: nat)
    requires Sane(st)
    ensures Sane(RemoveRel(st, i))
  {
    if LiveRel(st, i) { RemoveRelLive(st, i); }
  }

  lemma RemoveNodeKeepsSane(st: Staged, id: nat)
    requires Sane(st)
    ensures Sane(RemoveNode(st, id))
  {
    if id in st.known { RemoveNodeLive(st, id); }
  }

  lemma SetRelPropKeepsSane(st: Staged, i: nat, ck: ColKey, val: int)
    requires Sane(st)
    ensures Sane(SetRelProp(st, i, ck, val))
  {
    if LiveRel(st, i) {
      IdsStayBelow(st.relCols, |st.rels|, ck, Pair(i, val));
      QuietEditKeepsSane(st, SetRelProp(st, i, ck, val));
    }
  }

  lemma RemoveRelPropKeepsSane(st: Staged, i: nat, key: nat)
    requires Sane(st)
    ensures Sane(RemoveRelProp(st, i, key))
  {
    if LiveRel(st, i) {
      SweepStaysBelow(st.relCols, |st.rels|, key, i);
      QuietEditKeepsSane(st, RemoveRelProp(st, i, key));
    }
  }

  lemma EditKeepsSane(st: Staged, e: Edit)
    requires Sane(st)
    ensures Sane(Apply(st, e))
  {
    match e
    case EditAddRel(u, v, t) => AddRelKeepsSane(st, u, v, t);
    case EditRemoveRel(i) => RemoveRelKeepsSane(st, i);
    case EditRemoveNode(id) => RemoveNodeKeepsSane(st, id);
    case EditSetRelProp(i, ck, val) => SetRelPropKeepsSane(st, i, ck, val);
    case EditRemoveRelProp(i, key) => RemoveRelPropKeepsSane(st, i, key);
    case _ => QuietEditKeepsSane(st, Apply(st, e));
  }

  lemma SameLive(a: Staged, b: Staged)
    requires a.rels == b.rels && a.removedRels == b.removedRels && a.removedNodes == b.removedNodes
    ensures Live(a) == Live(b)
  {
    assert forall i :: 0 <= i < |a.rels| ==> (LiveRel(a, i) <==> LiveRel(b, i));
  }

  lemma AddRelIsEager(st: Staged, u: nat, v: nat, t: nat)
    requires Sane(st) && AddRelFits(st, u, v)
    ensures Eagerly(AddRel(st, u, v, t)) == EagerApply(Eagerly(st), EditAddRel(u, v, t))
  {
    AddRelLive(st, u, v, t);
    RestrictUnaffected(st.relCols, |st.rels|, Live(st), Live(st) + {|st.rels|});
  }

  lemma RemoveNodeIsEager(st: Staged, id: nat)
    requires Sane(st) && id in st.known
    ensures Eagerly(RemoveNode(st, id)) == EagerApply(Eagerly(st), EditRemoveNode(id))
  {
    RemoveNodeLive(st, id);
    var dead := set i | i in Eagerly(st).rels && Incident(Eagerly(st).rels[i], id);
    assert Live(RemoveNode(st, id)) == Live(st) - dead;
    DeletionIsEager(st, RemoveNode(st, id), dead);
  }

  /** One lazy edit is one eager edit. */
  lemma RemoveRelIsEager(st: Staged, i: nat)
    requires Sane(st) && LiveRel(st, i)
    ensures Eagerly(RemoveRel(st, i)) == EagerApply(Eagerly(st), EditRemoveRel(i))
  {
    RemoveRelLive(st, i);
    DeletionIsEager(st, RemoveRel(st, i), {i});
  }

  lemma SetRelPropIsEager(st: Staged, i: nat, ck: ColKey, val: int)
    requires Sane(st) && LiveRel(st, i)
    ensures Eagerly(SetRelProp(st, i, ck, val)) == EagerApply(Eagerly(st), EditSetRelProp(i, ck, val))
  {
    SameLive(st, SetRelProp(st, i, ck, val));
    RestrictAppends(st.relCols, Live(st), ck, Pair(i, val));
  }

  lemma RemoveRelPropIsEager(st: Staged, i: nat, key: nat)
    requires Sane(st) && LiveRel(st, i)
    ensures Eagerly(RemoveRelProp(st, i, key)) == EagerApply(Eagerly(st), EditRemoveRelProp(i, key))
  {
    SameLive(st, RemoveRelProp(st, i, key));
    RestrictSweeps(st.relCols, Live(st), key, i);
  }

  /** A node edit shows in the known nodes alone. */
  lemma NodeEditIsEager(st: Staged, st': Staged)
    requires st'.rels == st.rels && st'.removedRels == st.removedRels && st'.removedNodes == st.removedNodes
    requires st'.relCols == st.relCols
    ensures Eagerly(st') == Eagerly(st).(nodes := st'.known)
  {
    SameLive(st, st');
  }

  /** Each lazy edit is the eager one. */
  lemma EditIsEager(st: Staged, e: Edit)
    requires Sane(st)
    ensures Eagerly(Apply(st, e)) == EagerApply(Eagerly(st), e)
  {
    match e
    case EditAddRel(u, v, t) => if AddRelFits(st, u, v) { AddRelIsEager(st, u, v, t); }
    case EditRemoveRel(i) => if LiveRel(st, i) { RemoveRelIsEager(st, i); }
    case EditRemoveNode(id) => if id in st.known { RemoveNodeIsEager(st, id); }
    case EditSetRelProp(i, ck, val) => if LiveRel(st, i) { SetRelPropIsEager(st, i, ck, val); }
    case EditRemoveRelProp(i, key) => if LiveRel(st, i) { RemoveRelPropIsEager(st, i, key); }
    case _ => NodeEditIsEager(st, Apply(st, e));
  }

  lemma DeletionIsEager(st: Staged, st': Staged, dead: set<nat>)
    requires st'.rels == st.rels && st'.relCols == st.relCols && Live(st') == Live(st) - dead
    ensures Eagerly(st').rels == DeleteRels(Eagerly(st), dead).rels
    ensures Eagerly(st').cols == DeleteRels(Eagerly(st), dead).cols
  {
    assert Eagerly(st').rels == Eagerly(st).rels - dead;
    assert Eagerly(st').rels.Keys == Live(st');
    RestrictAgain(st.relCols, Live(st), Live(st'));
  }

  /** For every interleaving of edits, tombstones and watermarks mark exactly the relationships the
      eager model has deleted, and hide exactly the properties it has dropped. */
  lemma {:induction false} EveryRunIsEager(st: Staged, edits: seq<Edit>)
    requires Sane(st)
    ensures Sane(ApplyAll(st, edits))
    ensures Eagerly(ApplyAll(st, edits)) == EagerApplyAll(Eagerly(st), edits)
  {
    if edits != [] {
      var init, e := edits[..|edits| - 1], edits[|edits| - 1];
      EveryRunIsEager(st, init);
      EditKeepsSane(ApplyAll(st, init), e);
      EditIsEager(ApplyAll(st, init), e);
    }
  }

  lemma EditKeepsDead(st: Staged, e: Edit, i: nat)
    requires Sane(st) && i < |st.rels| && !LiveRel(st, i)
    ensures i < |Apply(st, e).rels| && Apply(st, e).rels[i] == st.rels[i] && !LiveRel(Apply(st, e), i)
  {
    match e
    case EditRemoveNode(id) =>
      if id in st.known { RemoveNodeLive(st, id); assert i !in Live(RemoveNode(st, id)); }
    case _ =>
  }

  /** Resurrection: whatever touches a removed id again, relationships staged before the removal
      stay dead. */
  lemma {:induction false} DeadStaysDead(st: Staged, edits: seq<Edit>, i: nat)
    requires Sane(st) && i < |st.rels| && !LiveRel(st, i)
    ensures i < |ApplyAll(st, edits).rels| && !LiveRel(ApplyAll(st, edits), i)
    ensures ApplyAll(st, edits).rels[i] == st.rels[i]
  {
    if edits != [] {
      var init := edits[..|edits| - 1];
      DeadStaysDead(st, init, i);
      EveryRunIsEager(st, init);
      EditKeepsDead(ApplyAll(st, init), edits[|edits| - 1], i);
    }
  }

  // ---- compaction -----------------------------------------------------------------------------------

  const TWO31: int := 0x8000_0000
  const TWO32: int := 0x1_0000_0000

  /** `int32(x)`. */
  function WrapI32(x: int): int {
    (x + TWO31) % TWO32 - TWO31
  }

  /** How many live relationships come before `i`. */
  function LiveBelow(st: Staged, i: nat): nat
    requires i <= |st.rels|
  {
    if i == 0 then 0 else LiveBelow(st, i - 1) + if LiveRel(st, i - 1) then 1 else 0
  }

  /** The live relationships among the first `i`, in staging order. */
  function Compacted(st: Staged, i: nat): (r: seq<Rel>)
    requires i <= |st.rels|
    ensures |r| == LiveBelow(st, i)
  {
    if i == 0 then [] else Compacted(st, i - 1) + if LiveRel(st, i - 1) then [st.rels[i - 1]] else []
  }

  /** The compaction map entry: dead is -1, live is the new index as a 32-bit integer. */
  function NewIndex(st: Staged, i: nat): int
    requires i < |st.rels|
  {
    if LiveRel(st, i) then WrapI32(LiveBelow(st, i)) else -1
  }

  /** Rewrites staged pairs through the map, dropping negative entries. */
  function Remap(pairs: seq<Pair>, oldToNew: seq<int>): seq<Pair>
    requires forall p :: p in pairs ==> p.id < |oldToNew|
  {
    if pairs == [] then []
    else
      assert pairs[|pairs| - 1] in pairs;
      assert forall p :: p in pairs[..|pairs| - 1] ==> p in pairs;
      var init, last := Remap(pairs[..|pairs| - 1], oldToNew), pairs[|pairs| - 1];
      if oldToNew[last.id] < 0 then init else init + [Pair(oldToNew[last.id], last.val)]
  }

  function OldToNew(st: Staged): (m: seq<int>)
    ensures |m| == |st.rels| && forall i :: 0 <= i < |m| ==> m[i] == NewIndex(st, i)
  {
    seq(|st.rels|, i requires 0 <= i < |st.rels| => NewIndex(st, i))
  }

  predicate HasRemovals(st: Staged) {
    st.removedRels != {} || st.removedNodes != map[]
  }

  function RemapCols(cols: map<ColKey, seq<Pair>>, oldToNew: seq<int>): map<ColKey, seq<Pair>>
    requires IdsBelow(cols, |oldToNew|)
  {
    map ck | ck in cols && Remap(cols[ck], oldToNew) != [] :: Remap(cols[ck], oldToNew)
  }

  /** `compactRemovals`. */
  function Compact(st: Staged): Staged
    requires IdsBelow(st.relCols, |st.rels|)
  {
    if !HasRemovals(st) then st
    else st.(rels := Compacted(st, |st.rels|), relCols := RemapCols(st.relCols, OldToNew(st)),
             removedRels := {}, removedNodes := map[])
  }

  /** Live relationships keep their order and land at consecutive indexes. */
  lemma {:induction false} CompactedAt(st: Staged, n: nat, i: nat)
    requires i < n <= |st.rels| && LiveRel(st, i)
    ensures LiveBelow(st, i) < LiveBelow(st, n)
    ensures Compacted(st, n)[LiveBelow(st, i)] == st.rels[i]
  {
    if i < n - 1 {
      CompactedAt(st, n - 1, i);
    }
  }

  lemma {:induction false} LiveBelowMonotone(st: Staged, i: nat, j: nat)
    requires i <= j <= |st.rels|
    ensures LiveBelow(st, i) <= LiveBelow(st, j) <= j
    ensures i < j && LiveRel(st, i) ==> LiveBelow(st, i) < LiveBelow(st, j)
    decreases j
  {
    if i < j {
      LiveBelowMonotone(st, i, j - 1);
    } else if j > 0 {
      LiveBelowMonotone(st, i - 1, j - 1);
    }
  }

  /** The 32-bit index map is right for a live relationship exactly when its new index is below
      2^31; from there on the entry is negative and the relationship's properties are dropped. */
  lemma NewIndexIsExact(st: Staged, i: nat)
    requires LiveRel(st, i) && |st.rels| <= CEILING
    ensures NewIndex(st, i) == LiveBelow(st, i) <==> LiveBelow(st, i) < TWO31
    ensures LiveBelow(st, i) >= TWO31 ==> NewIndex(st, i) < 0
  {
    LiveBelowMonotone(st, i, i);
  }

  /** New ids for kept pairs. */
  function Renumber(st: Staged, pairs: seq<Pair>): (r: seq<Pair>)
    requires forall p :: p in pairs ==> p.id <= |st.rels|
    ensures |r| == |pairs|
  {
    seq(|pairs|, k requires 0 <= k < |pairs| => assert pairs[k] in pairs; Pair(LiveBelow(st, pairs[k].id), pairs[k].val))
  }

  lemma {:induction false} KeepSubset(pairs: seq<Pair>, keep: set<nat>)
    ensures forall p :: p in Keep(pairs, keep) ==> p in pairs && p.id in keep
  {
    if pairs != [] {
      KeepSubset(pairs[..|pairs| - 1], keep);
      assert forall p :: p in pairs[..|pairs| - 1] ==> p in pairs;
    }
  }

  /** Every live relationship with a pair has a new index below 2^31. */
  ghost predicate IndexesFit(st: Staged, pairs: seq<Pair>) {
    forall p :: p in pairs && LiveRel(st, p.id) ==> LiveBelow(st, p.id) < TWO31
  }

  /** Remapping keeps no more than the live relationships' pairs, and fewer once an index wraps. */
  lemma {:induction false} WrappedPairsGo(st: Staged, pairs: seq<Pair>)
    requires |st.rels| <= CEILING && forall p :: p in pairs ==> p.id < |st.rels|
    ensures |Remap(pairs, OldToNew(st))| <= |Keep(pairs, Live(st))|
    ensures !IndexesFit(st, pairs) ==> |Remap(pairs, OldToNew(st))| < |Keep(pairs, Live(st))|
  {
    if pairs != [] {
      var init, last := pairs[..|pairs| - 1], pairs[|pairs| - 1];
      assert pairs == init + [last];
      assert forall p :: p in init ==> p in pairs;
      assert last in pairs;
      WrappedPairsGo(st, init);
      if LiveRel(st, last.id) { NewIndexIsExact(st, last.id); }
    }
  }

  lemma {:induction false} FittingPairsStay(st: Staged, pairs: seq<Pair>)
    requires |st.rels| <= CEILING && (forall p :: p in pairs ==> p.id < |st.rels|) && IndexesFit(st, pairs)
    ensures forall p :: p in Keep(pairs, Live(st)) ==> p.id <= |st.rels|
    ensures Remap(pairs, OldToNew(st)) == Renumber(st, Keep(pairs, Live(st)))
  {
    KeepSubset(pairs, Live(st));
    if pairs != [] {
      var init, last := pairs[..|pairs| - 1], pairs[|pairs| - 1];
      assert forall p :: p in init ==> p in pairs;
      assert last in pairs;
      FittingPairsStay(st, init);
      if LiveRel(st, last.id) { NewIndexIsExact(st, last.id); }
    }
  }

  /** Remapping is: keep the live relationships' pairs, in order, under their new indexes -- exactly
      when all of those indexes are below 2^31. */
  lemma RemapIsRenumber(st: Staged, pairs: seq<Pair>)
    requires |st.rels| <= CEILING && forall p :: p in pairs ==> p.id < |st.rels|
    ensures forall p :: p in Keep(pairs, Live(st)) ==> p.id <= |st.rels|
    ensures Remap(pairs, OldToNew(st)) == Renumber(st, Keep(pairs, Live(st))) <==> IndexesFit(st, pairs)
  {
    KeepSubset(pairs, Live(st));
    if IndexesFit(st, pairs) {
      FittingPairsStay(st, pairs);
    } else {
      WrappedPairsGo(st, pairs);
    }
  }

  /** Compaction leaves nothing dead, and every surviving relationship at its new index. */
  lemma CompactIsAllLive(st: Staged, i: nat)
    requires Sane(st) && i < |Compact(st).rels|
    ensures LiveRel(Compact(st), i)
  {
  }

  lemma {:induction false} CompactedSource(st: Staged, n: nat, k: nat) returns (i: nat)
    requires n <= |st.rels| && k < LiveBelow(st, n)
    ensures i < n && LiveRel(st, i) && LiveBelow(st, i) == k
  {
    if k < LiveBelow(st, n - 1) {
      i := CompactedSource(st, n - 1, k);
    } else {
      i := n - 1;
    }
  }

  /** The eager state survives compaction, renumbered in order. */
  lemma CompactIsEager(st: Staged)
    requires Sane(st)
    ensures var c := Compact(st);
            && c.known == st.known && |c.rels| == LiveBelow(st, |st.rels|)
            && (forall i :: i in Live(st) ==> LiveBelow(st, i) < |c.rels| && c.rels[LiveBelow(st, i)] == st.rels[i])
            && (forall i, j :: i in Live(st) && j in Live(st) && i < j ==> LiveBelow(st, i) < LiveBelow(st, j))
  {
    if !HasRemovals(st) {
      forall i | 0 <= i <= |st.rels| ensures LiveBelow(st, i) == i {
        AllLiveBelow(st, i);
      }
    }
    forall i | i in Live(st)
      ensures LiveBelow(st, i) < LiveBelow(st, |st.rels|) && Compacted(st, |st.rels|)[LiveBelow(st, i)] == st.rels[i]
    {
      CompactedAt(st, |st.rels|, i);
    }
    forall i, j | i in Live(st) && j in Live(st) && i < j ensures LiveBelow(st, i) < LiveBelow(st, j) {
      LiveBelowMonotone(st, i, j);
    }
  }

  lemma {:induction false} AllLiveBelow(st: Staged, i: nat)
    requires !HasRemovals(st) && i <= |st.rels|
    ensures LiveBelow(st, i) == i
  {
    if i > 0 { AllLiveBelow(st, i - 1); }
  }

  /** A live relationship's properties follow it through compaction, exactly when every live
      relationship holding one under this key has a new index below 2^31. */
  lemma CompactKeepsProps(st: Staged, ck: ColKey)
    requires Sane(st) && HasRemovals(st)
    ensures var pairs := PairsOf(st.relCols, ck);
            && (forall p :: p in Keep(pairs, Live(st)) ==> p.id <= |st.rels|)
            && (PairsOf(Compact(st).relCols, ck) == Renumber(st, Keep(pairs, Live(st))) <==> IndexesFit(st, pairs))
  {
    var pairs := PairsOf(st.relCols, ck);
    RemapIsRenumber(st, pairs);
    assert ck !in st.relCols ==> Keep(pairs, Live(st)) == [];
  }

  // ---- where the index map wraps ---------------------------------------------------------------------

  const COST: ColKey := ColKey(I64, 3)

  /** One tombstone, then 2^31 live relationships and one more that carries a property. */
  function Crowded(): Staged {
    Staged(seq(TWO31 + 2, _ => Rel(0, 0, 0)), {0}, map[], map[], map[COST := [Pair(TWO31 + 1, 42)]], {0}, map[], Unsourced)
  }

  lemma {:induction false} CrowdedBelow(st: Staged, i: nat)
    requires st.removedRels == {0} && st.removedNodes == map[] && i + 1 <= |st.rels|
    ensures LiveBelow(st, i + 1) == i
  {
    if i > 0 { CrowdedBelow(st, i - 1); }
  }

  /** The last relationship lives on at index 2^31, and its property is gone. */
  lemma WrapDropsProps(st: Staged)
    requires st == Crowded()
    ensures Sane(st) && LiveRel(st, TWO31 + 1) && LiveBelow(st, TWO31 + 1) == TWO31
    ensures Compact(st).relCols == map[]
  {
    var pairs := st.relCols[COST];
    CrowdedBelow(st, TWO31);
    WrappedPairsGo(st, pairs);
    assert pairs[0] in pairs;
    assert Keep(pairs[..0], Live(st)) == [];
    assert |Keep(pairs, Live(st))| <= 1;
  }

  // ---- how such a state comes about ------------------------------------------------------------------

  /** `k` loops on node 0. */
  function Loops(k: nat): (edits: seq<Edit>)
    ensures |edits| == k
  {
    seq(k, _ => EditAddRel(0, 0, 0))
  }

  lemma {:induction false} LoopsStaged(k: nat)
    requires 0 < k <= CEILING
    ensures ApplyAll(EMPTY, Loops(k)) == EMPTY.(rels := seq(k, _ => Rel(0, 0, 0)), known := {0})
  {
    var edits := Loops(k);
    assert edits[..k - 1] == Loops(k - 1);
    if k > 1 {
      LoopsStaged(k - 1);
      assert seq(k, _ => Rel(0, 0, 0)) == seq(k - 1, _ => Rel(0, 0, 0)) + [Rel(0, 0, 0)];
    } else {
      assert seq(k, _ => Rel(0, 0, 0)) == [Rel(0, 0, 0)];
      assert ApplyAll(EMPTY, edits[..0]) == EMPTY;
    }
  }

  lemma ApplyTwoMore(st: Staged, edits: seq<Edit>, e: Edit, f: Edit)
    ensures ApplyAll(st, edits + [e, f]) == Apply(Apply(ApplyAll(st, edits), e), f)
  {
    var all := edits + [e, f];
    assert all[..|all| - 1] == edits + [e];
    assert (edits + [e])[..|edits|] == edits;
  }

  /** The crowded state is what 2^31 + 4 edits on an empty builder leave. */
  lemma CrowdedIsReached(n: nat, edits: seq<Edit>)
    requires n == TWO31 + 2 && edits == Loops(n) + [EditSetRelProp(n - 1, COST, 42), EditRemoveRel(0)]
    ensures ApplyAll(EMPTY, edits) == Crowded()
  {
    LoopsStaged(n);
    ApplyTwoMore(EMPTY, Loops(n), EditSetRelProp(n - 1, COST, 42), EditRemoveRel(0));
    var st := ApplyAll(EMPTY, Loops(n));
    assert LiveRel(st, n - 1);
    var st' := SetRelProp(st, n - 1, COST, 42);
    assert PairsOf(st.relCols, COST) + [Pair(n - 1, 42)] == [Pair(n - 1, 42)];
    assert st'.relCols == map[COST := [Pair(n - 1, 42)]];
    assert RemoveRel(st', 0) == Crowded();
  }
}
