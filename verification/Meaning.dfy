/** What a graph under edits means: nodes with labels and property values, relationships with property
    values, each edit a change of exactly its own entries. The builder's staged state is related to
    it over every run, and so is every read of the finalized snapshot. */
module Meaning {
  import opened StableSort
  import opened Csr
  import opened Columns
  import opened ColumnStore
  import opened Staging
  import opened Removal
  import opened Cow

  // ---- the graph ----------------------------------------------------------------------------------------

  /** Labels as (node, label); properties by (node, typed key) and by (handle, typed key). */
  datatype View = View(nodes: set<nat>, labels: set<(nat, nat)>, props: map<(nat, ColKey), int>,
                       rels: map<nat, Rel>, relProps: map<(nat, ColKey), int>, next: nat)

  const NOTHING: View := View({}, {}, map[], map[], map[], 0)

  function WithoutId(props: map<(nat, ColKey), int>, id: nat): map<(nat, ColKey), int> {
    map k | k in props && k.0 != id :: props[k]
  }

  function WithoutKey(props: map<(nat, ColKey), int>, id: nat, key: nat): map<(nat, ColKey), int> {
    map k | k in props && !(k.0 == id && k.1.key == key) :: props[k]
  }

  function Cut(v: View, dead: set<nat>): View {
    var left := v.rels - dead;
    v.(rels := left, relProps := map k | k in v.relProps && k.0 in left :: v.relProps[k])
  }

  function Put(v: View, node: nat, ck: ColKey, val: int): View {
    if node >= CEILING then v else v.(props := v.props[(node, ck) := val], nodes := v.nodes + {node})
  }

  /** One edit. */
  function Do(v: View, e: Edit): View {
    match e
    case EditAddNode(id, ls) =>
      if id >= CEILING then v else v.(nodes := v.nodes + {id}, labels := v.labels + set l | l in ls :: (id, l))
    case EditAddRel(a, b, t) =>
      if a < CEILING && b < CEILING && v.next < CEILING
      then v.(nodes := v.nodes + {a, b}, rels := v.rels[v.next := Rel(a, b, t)], next := v.next + 1)
      else v
    case EditRemoveRel(i) => if i in v.rels then Cut(v, {i}) else v
    case EditRemoveNode(id) =>
      if id !in v.nodes then v
      else Cut(v.(nodes := v.nodes - {id}, labels := (set p | p in v.labels && p.0 != id), props := WithoutId(v.props, id)),
               set i | i in v.rels && Incident(v.rels[i], id))
    case EditSetProp(node, ck, val) => Put(v, node, ck, val)
    case EditUpdateProp(node, ck, val) => Put(v.(props := WithoutKey(v.props, node, ck.key)), node, ck, val)
    case EditRemoveProp(node, key) => v.(props := WithoutKey(v.props, node, key))
    case EditSetRelProp(i, ck, val) => if i in v.rels then v.(relProps := v.relProps[(i, ck) := val]) else v
    case EditRemoveRelProp(i, key) => if i in v.rels then v.(relProps := WithoutKey(v.relProps, i, key)) else v
  }

  function DoAll(v: View, edits: seq<Edit>): View {
    if edits == [] then v else Do(DoAll(v, edits[..|edits| - 1]), edits[|edits| - 1])
  }

  // ---- what a staged state means ----------------------------------------------------------------------------

  /** The newest write of `id` in a column. */
  function Prop(cols: map<ColKey, seq<Pair>>, id: nat, ck: ColKey): Option<int> {
    var w := LastWrites(PairsOf(cols, ck));
    if id in w then Some(w[id]) else None
  }

  function Props(cols: map<ColKey, seq<Pair>>): map<(nat, ColKey), int> {
    var keys := set ck, id | ck in cols && id in LastWrites(cols[ck]) :: (id, ck);
    map k | k in keys :: LastWrites(PairsOf(cols, k.1))[k.0]
  }

  function Find(props: map<(nat, ColKey), int>, id: nat, ck: ColKey): Option<int> {
    if (id, ck) in props then Some(props[(id, ck)]) else None
  }

  function Labels(labels: map<nat, seq<nat>>): set<(nat, nat)> {
    set id, l | id in labels && l in labels[id] :: (id, l)
  }

  function Among(props: map<(nat, ColKey), int>, live: set<nat>): map<(nat, ColKey), int> {
    map k | k in props && k.0 in live :: props[k]
  }

  function RelsAmong(rels: seq<Rel>, live: set<nat>): map<nat, Rel> {
    map i | i in live && i < |rels| :: rels[i]
  }

  /** Dead relationships are gone, and their properties with them. */
  function ViewOf(st: Staged): View {
    View(st.known, Labels(st.labels), Props(st.nodeCols), RelsAmong(st.rels, Live(st)), Among(Props(st.relCols), Live(st)), |st.rels|)
  }

  lemma {:induction false} PropsFind(cols: map<ColKey, seq<Pair>>, id: nat, ck: ColKey)
    ensures Find(Props(cols), id, ck) == Prop(cols, id, ck)
  {
    assert LastWrites([]) == map[];
  }

  /** Property maps that find the same are the same. */
  lemma {:induction false} SameFinds(a: map<(nat, ColKey), int>, b: map<(nat, ColKey), int>)
    requires forall id: nat, ck: ColKey :: Find(a, id, ck) == Find(b, id, ck)
    ensures a == b
  {
    forall k ensures k in a <==> k in b {
      assert Find(a, k.0, k.1) == Find(b, k.0, k.1);
    }
    forall k | k in a ensures a[k] == b[k] {
      assert Find(a, k.0, k.1) == Find(b, k.0, k.1);
    }
  }

  // ---- pairs ----------------------------------------------------------------------------------------------

  lemma {:induction false} AppendedWrites(pairs: seq<Pair>, p: Pair)
    ensures LastWrites(pairs + [p]) == LastWrites(pairs)[p.id := p.val]
  {
    assert (pairs + [p])[..|pairs|] == pairs;
  }

  lemma {:induction false} WithoutWrites(pairs: seq<Pair>, id: nat)
    ensures LastWrites(Without(pairs, id)) == LastWrites(pairs) - {id}
  {
    if pairs != [] {
      var init, last := pairs[..|pairs| - 1], pairs[|pairs| - 1];
      WithoutWrites(init, id);
      if last.id != id { AppendedWrites(Without(init, id), last); }
    }
  }

  // ---- one column edit at a time ---------------------------------------------------------------------------

  lemma {:induction false} SetMeans(cols: map<ColKey, seq<Pair>>, ck: ColKey, p: Pair)
    ensures Props(cols[ck := PairsOf(cols, ck) + [p]]) == Props(cols)[(p.id, ck) := p.val]
  {
    var after := cols[ck := PairsOf(cols, ck) + [p]];
    var want := Props(cols)[(p.id, ck) := p.val];
    AppendedWrites(PairsOf(cols, ck), p);
    forall id: nat, k: ColKey ensures Find(Props(after), id, k) == Find(want, id, k) {
      PropsFind(after, id, k);
      PropsFind(cols, id, k);
    }
    SameFinds(Props(after), want);
  }

  lemma {:induction false} SweepKeyMeans(cols: map<ColKey, seq<Pair>>, key: nat, node: nat)
    ensures Props(SweepKey(cols, key, node)) == WithoutKey(Props(cols), node, key)
  {
    var after, want := SweepKey(cols, key, node), WithoutKey(Props(cols), node, key);
    forall id: nat, k: ColKey ensures Find(Props(after), id, k) == Find(want, id, k) {
      PropsFind(after, id, k);
      PropsFind(cols, id, k);
      WithoutWrites(PairsOf(cols, k), node);
      assert LastWrites([]) == map[];
    }
    SameFinds(Props(after), want);
  }

  /** Removing a node leaves every other node's newest writes alone, in every column. */
  lemma {:induction false} SweepAllMeans(cols: map<ColKey, seq<Pair>>, node: nat)
    ensures Props(SweepAll(cols, node)) == WithoutId(Props(cols), node)
  {
    var after, want := SweepAll(cols, node), WithoutId(Props(cols), node);
    forall id: nat, k: ColKey ensures Find(Props(after), id, k) == Find(want, id, k) {
      PropsFind(after, id, k);
      PropsFind(cols, id, k);
      WithoutWrites(PairsOf(cols, k), node);
      assert LastWrites([]) == map[];
    }
    SameFinds(Props(after), want);
  }

  lemma {:induction false} AddLabelsMeans(labels: map<nat, seq<nat>>, id: nat, ls: seq<nat>)
    ensures Labels(labels[id := LabelsOf(labels, id) + ls]) == Labels(labels) + set l | l in ls :: (id, l)
  {
    var after := labels[id := LabelsOf(labels, id) + ls];
    forall x: nat, l: nat ensures (x, l) in Labels(after) <==> (x, l) in Labels(labels) || (x == id && l in ls) {
    }
  }

  lemma {:induction false} DropLabelsMeans(labels: map<nat, seq<nat>>, id: nat)
    ensures Labels(labels - {id}) == set p | p in Labels(labels) && p.0 != id
  {
  }

  // ---- every edit -------------------------------------------------------------------------------------------

  lemma {:induction false} AddNodeMeans(st: Staged, id: nat, ls: seq<nat>)
    ensures ViewOf(AddNode(st, id, ls)) == Do(ViewOf(st), EditAddNode(id, ls))
  {
    if id < CEILING {
      AddLabelsMeans(st.labels, id, ls);
      SameLive(st, AddNode(st, id, ls));
    }
  }

  /** Fewer live relationships: the rest is cut. */
  lemma {:induction false} CutMeans(rels: seq<Rel>, props: map<(nat, ColKey), int>, live: set<nat>, dead: set<nat>, v: View)
    requires (forall i :: i in live ==> i < |rels|) && v.rels == RelsAmong(rels, live) && v.relProps == Among(props, live)
    ensures Cut(v, dead).rels == RelsAmong(rels, live - dead) && Cut(v, dead).relProps == Among(props, live - dead)
  {
  }

  lemma {:induction false} RemoveRelMeans(st: Staged, i: nat)
    requires Sane(st)
    ensures ViewOf(RemoveRel(st, i)) == Do(ViewOf(st), EditRemoveRel(i))
  {
    if LiveRel(st, i) {
      RemoveRelLive(st, i);
      CutMeans(st.rels, Props(st.relCols), Live(st), {i}, ViewOf(st));
    }
  }

  lemma {:induction false} RemoveNodeMeans(st: Staged, id: nat)
    requires Sane(st)
    ensures ViewOf(RemoveNode(st, id)) == Do(ViewOf(st), EditRemoveNode(id))
  {
    if id in st.known {
      RemoveNodeLive(st, id);
      SweepAllMeans(st.nodeCols, id);
      DropLabelsMeans(st.labels, id);
      var v := ViewOf(st);
      var dead := set i | i in v.rels && Incident(v.rels[i], id);
      assert Live(RemoveNode(st, id)) == Live(st) - dead;
      CutMeans(st.rels, Props(st.relCols), Live(st), dead,
               v.(nodes := v.nodes - {id}, labels := (set p | p in v.labels && p.0 != id), props := WithoutId(v.props, id)));
    }
  }

  /** No property is staged yet for the next handle. */
  lemma {:induction false} NextIsBare(st: Staged, props: map<(nat, ColKey), int>)
    requires Sane(st) && props == Props(st.relCols)
    ensures forall k :: k in props ==> k.0 < |st.rels|
  {
    forall k | k in props ensures k.0 < |st.rels| {
      WrittenIds(st.relCols[k.1], k.0);
      var j :| 0 <= j < |st.relCols[k.1]| && st.relCols[k.1][j].id == k.0;
      assert st.relCols[k.1][j] in st.relCols[k.1];
    }
  }

  lemma {:induction false} OneMoreLive(rels: seq<Rel>, r: Rel, props: map<(nat, ColKey), int>, live: set<nat>)
    requires (forall i :: i in live ==> i < |rels|) && forall k :: k in props ==> k.0 < |rels|
    ensures RelsAmong(rels + [r], live + {|rels|}) == RelsAmong(rels, live)[|rels| := r]
    ensures Among(props, live + {|rels|}) == Among(props, live)
  {
  }

  lemma {:induction false} AddRelMeans(st: Staged, a: nat, b: nat, t: nat)
    requires Sane(st)
    ensures ViewOf(AddRel(st, a, b, t)) == Do(ViewOf(st), EditAddRel(a, b, t))
  {
    if AddRelFits(st, a, b) {
      AddRelLive(st, a, b, t);
      NextIsBare(st, Props(st.relCols));
      OneMoreLive(st.rels, Rel(a, b, t), Props(st.relCols), Live(st));
    }
  }

  lemma {:induction false} SetPropMeans(st: Staged, node: nat, ck: ColKey, val: int)
    ensures ViewOf(SetProp(st, node, ck, val)) == Put(ViewOf(st), node, ck, val)
  {
    if node < CEILING {
      SetMeans(st.nodeCols, ck, Pair(node, val));
      SameLive(st, SetProp(st, node, ck, val));
    }
  }

  lemma {:induction false} RemovePropMeans(st: Staged, node: nat, key: nat)
    ensures ViewOf(RemoveProp(st, node, key)) == ViewOf(st).(props := WithoutKey(ViewOf(st).props, node, key))
  {
    SweepKeyMeans(st.nodeCols, key, node);
    SameLive(st, RemoveProp(st, node, key));
  }

  lemma {:induction false} SetAmong(props: map<(nat, ColKey), int>, live: set<nat>, i: nat, ck: ColKey, val: int)
    requires i in live
    ensures Among(props[(i, ck) := val], live) == Among(props, live)[(i, ck) := val]
  {
  }

  lemma {:induction false} WithoutAmong(props: map<(nat, ColKey), int>, live: set<nat>, i: nat, key: nat)
    ensures Among(WithoutKey(props, i, key), live) == WithoutKey(Among(props, live), i, key)
  {
  }

  /** An edit of relationship properties alone. */
  lemma {:induction false} RelPropsMean(st: Staged, st': Staged, want: map<(nat, ColKey), int>)
    requires st'.known == st.known && st'.labels == st.labels && st'.nodeCols == st.nodeCols && st'.rels == st.rels
    requires Live(st') == Live(st) && Among(Props(st'.relCols), Live(st)) == want
    ensures ViewOf(st') == ViewOf(st).(relProps := want)
  {
  }

  lemma {:induction false} SetRelPropMeans(st: Staged, i: nat, ck: ColKey, val: int)
    requires Sane(st)
    ensures ViewOf(SetRelProp(st, i, ck, val)) == Do(ViewOf(st), EditSetRelProp(i, ck, val))
  {
    if LiveRel(st, i) {
      var st' := SetRelProp(st, i, ck, val);
      SetMeans(st.relCols, ck, Pair(i, val));
      SameLive(st, st');
      SetAmong(Props(st.relCols), Live(st), i, ck, val);
      RelPropsMean(st, st', Among(Props(st.relCols), Live(st))[(i, ck) := val]);
    }
  }

  lemma {:induction false} RemoveRelPropMeans(st: Staged, i: nat, key: nat)
    requires Sane(st)
    ensures ViewOf(RemoveRelProp(st, i, key)) == Do(ViewOf(st), EditRemoveRelProp(i, key))
  {
    if LiveRel(st, i) {
      var st' := RemoveRelProp(st, i, key);
      SweepKeyMeans(st.relCols, key, i);
      SameLive(st, st');
      WithoutAmong(Props(st.relCols), Live(st), i, key);
      RelPropsMean(st, st', WithoutKey(Among(Props(st.relCols), Live(st)), i, key));
    }
  }

  /** Every edit of the builder changes exactly its own entries of what the staged state means. */
  lemma {:induction false} EditMeans(st: Staged, e: Edit)
    requires Sane(st)
    ensures ViewOf(Apply(st, e)) == Do(ViewOf(st), e)
  {
    match e
    case EditAddNode(id, ls) => AddNodeMeans(st, id, ls);
    case EditAddRel(a, b, t) => AddRelMeans(st, a, b, t);
    case EditRemoveRel(i) => RemoveRelMeans(st, i);
    case EditRemoveNode(id) => RemoveNodeMeans(st, id);
    case EditSetProp(node, ck, val) => SetPropMeans(st, node, ck, val);
    case EditUpdateProp(node, ck, val) =>
      RemovePropMeans(st, node, ck.key);
      SetPropMeans(RemoveProp(st, node, ck.key), node, ck, val);
    case EditRemoveProp(node, key) => RemovePropMeans(st, node, key);
    case EditSetRelProp(i, ck, val) => SetRelPropMeans(st, i, ck, val);
    case EditRemoveRelProp(i, key) => RemoveRelPropMeans(st, i, key);
  }

  /** Over every run. */
  lemma {:induction false} EveryRunMeans(st: Staged, edits: seq<Edit>)
    requires Sane(st)
    ensures Sane(ApplyAll(st, edits)) && ViewOf(ApplyAll(st, edits)) == DoAll(ViewOf(st), edits)
  {
    if edits != [] {
      var mid, e := ApplyAll(st, edits[..|edits| - 1]), edits[|edits| - 1];
      EveryRunMeans(st, edits[..|edits| - 1]);
      EditMeans(mid, e);
      EditKeepsSane(mid, e);
    }
  }

  lemma {:induction false} EmptyMeansNothing(st: Staged)
    requires st == EMPTY
    ensures ViewOf(st) == NOTHING && Sane(st)
  {
    assert Live(st) == {};
  }
}
