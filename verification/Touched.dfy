/** The dirty marks are exact: a run marks what some edit of it touched in what the graph means at that
    moment, and nothing else. */
module Touched {
  import opened StableSort
  import opened Csr
  import opened Columns
  import opened ColumnStore
  import opened Staging
  import opened Removal
  import opened Meaning

  // ---- what one edit touches -------------------------------------------------------------------------------

  ghost predicate Has(props: map<(nat, ColKey), int>, id: nat, key: nat) {
    exists ck: ColKey :: ck.key == key && (id, ck) in props
  }

  ghost predicate TouchesRels(v: View, e: Edit) {
    match e
    case EditAddRel(a, b, _) => a < CEILING && b < CEILING && v.next < CEILING
    case EditRemoveRel(i) => i in v.rels
    case EditRemoveNode(id) => id in v.nodes
    case _ => false
  }

  ghost predicate TouchesKey(v: View, e: Edit, key: nat) {
    match e
    case EditSetProp(node, ck, _) => key == ck.key && node < CEILING
    case EditUpdateProp(node, ck, _) => key == ck.key && (node < CEILING || Has(v.props, node, key))
    case EditRemoveProp(node, k) => key == k && Has(v.props, node, key)
    case EditRemoveNode(id) => id in v.nodes && Has(v.props, id, key)
    case _ => false
  }

  ghost predicate TouchesRelKey(v: View, e: Edit, key: nat) {
    match e
    case EditSetRelProp(i, ck, _) => key == ck.key && i in v.rels
    case EditRemoveRelProp(i, k) => key == k && i in v.rels && Has(v.relProps, i, key)
    case _ => false
  }

  ghost predicate TouchesLabel(v: View, e: Edit, l: nat) {
    match e
    case EditAddNode(id, ls) => id < CEILING && l in ls
    case EditRemoveNode(id) => id in v.nodes && (id, l) in v.labels
    case _ => false
  }

  // ---- staged pairs and properties ---------------------------------------------------------------------------

  lemma {:induction false} TouchesIsWritten(pairs: seq<Pair>, id: nat)
    ensures Touches(pairs, id) <==> id in LastWrites(pairs)
  {
    WrittenIds(pairs, id);
  }

  lemma {:induction false} KeyTouchesIsHas(cols: map<ColKey, seq<Pair>>, key: nat, id: nat)
    ensures KeyTouches(cols, key, id) <==> Has(Props(cols), id, key)
  {
    if KeyTouches(cols, key, id) {
      var ck :| ck in cols && ck.key == key && Touches(cols[ck], id);
      TouchesIsWritten(cols[ck], id);
      assert (id, ck) in Props(cols);
    }
    if Has(Props(cols), id, key) {
      var ck: ColKey :| ck.key == key && (id, ck) in Props(cols);
      TouchesIsWritten(cols[ck], id);
    }
  }

  lemma {:induction false} KeysTouchingAreHad(cols: map<ColKey, seq<Pair>>, key: nat, id: nat)
    ensures key in KeysTouching(cols, id) <==> Has(Props(cols), id, key)
  {
    KeyTouchesIsHas(cols, key, id);
  }

  lemma {:induction false} HasAmong(props: map<(nat, ColKey), int>, live: set<nat>, id: nat, key: nat)
    requires id in live
    ensures Has(Among(props, live), id, key) <==> Has(props, id, key)
  {
    if Has(props, id, key) {
      var ck: ColKey :| ck.key == key && (id, ck) in props;
      assert (id, ck) in Among(props, live);
    }
    if Has(Among(props, live), id, key) {
      var ck: ColKey :| ck.key == key && (id, ck) in Among(props, live);
      assert (id, ck) in props;
    }
  }

  // ---- one edit ----------------------------------------------------------------------------------------------

  ghost predicate DirtyKey(t: Tracking, key: nat) { t.From? && key in t.dirtyNode }
  ghost predicate DirtyRelKey(t: Tracking, key: nat) { t.From? && key in t.dirtyRel }
  ghost predicate DirtyLabel(t: Tracking, l: nat) { t.From? && l in t.dirtyLabels }

  lemma {:induction false} RelsDirtied(st: Staged, e: Edit)
    requires st.cow.From?
    ensures var t := Apply(st, e).cow; t.From? && t.src == st.cow.src && (t.relsDirty <==> st.cow.relsDirty || TouchesRels(ViewOf(st), e))
  {
    match e
    case EditRemoveRel(i) => LiveInView(st, i);
    case EditUpdateProp(node, ck, val) => PropEditsSpareRels(st, node, ck, val);
    case _ =>
  }

  lemma {:induction false} PropEditsSpareRels(st: Staged, node: nat, ck: ColKey, val: int)
    requires st.cow.From?
    ensures var t := SetProp(RemoveProp(st, node, ck.key), node, ck, val).cow;
            t.From? && t.src == st.cow.src && t.relsDirty == st.cow.relsDirty
  {
  }

  lemma {:induction false} LiveInView(st: Staged, i: nat)
    ensures i in ViewOf(st).rels <==> LiveRel(st, i)
  {
    assert i in Live(st) <==> LiveRel(st, i);
  }

  lemma {:induction false} KeyDirtied(st: Staged, e: Edit, key: nat)
    requires st.cow.From?
    ensures DirtyKey(Apply(st, e).cow, key) <==> DirtyKey(st.cow, key) || TouchesKey(ViewOf(st), e, key)
  {
    match e
    case EditUpdateProp(node, ck, val) => UpdateDirtied(st, node, ck, val, key);
    case EditRemoveProp(node, k) => KeyTouchesIsHas(st.nodeCols, k, node);
    case EditRemoveNode(id) => RemovalDirtied(st, id, key);
    case _ =>
  }

  lemma {:induction false} UpdateDirtied(st: Staged, node: nat, ck: ColKey, val: int, key: nat)
    requires st.cow.From?
    ensures DirtyKey(SetProp(RemoveProp(st, node, ck.key), node, ck, val).cow, key) <==>
            DirtyKey(st.cow, key) || (key == ck.key && (node < CEILING || Has(Props(st.nodeCols), node, key)))
  {
    KeyTouchesIsHas(st.nodeCols, ck.key, node);
  }

  lemma {:induction false} RemovalDirtied(st: Staged, id: nat, key: nat)
    requires st.cow.From?
    ensures DirtyKey(RemoveNode(st, id).cow, key) <==> DirtyKey(st.cow, key) || (id in st.known && Has(Props(st.nodeCols), id, key))
  {
    KeysTouchingAreHad(st.nodeCols, key, id);
  }

  lemma {:induction false} RelKeyDirtied(st: Staged, e: Edit, key: nat)
    requires st.cow.From?
    ensures DirtyRelKey(Apply(st, e).cow, key) <==> DirtyRelKey(st.cow, key) || TouchesRelKey(ViewOf(st), e, key)
  {
    match e
    case EditSetRelProp(i, ck, val) => LiveInView(st, i);
    case EditRemoveRelProp(i, k) => RelPropDirtied(st, i, k, key);
    case _ =>
  }

  lemma {:induction false} RelPropDirtied(st: Staged, i: nat, k: nat, key: nat)
    requires st.cow.From?
    ensures DirtyRelKey(RemoveRelProp(st, i, k).cow, key) <==>
            DirtyRelKey(st.cow, key) || (key == k && LiveRel(st, i) && Has(ViewOf(st).relProps, i, key))
    ensures i in ViewOf(st).rels <==> LiveRel(st, i)
  {
    LiveInView(st, i);
    if LiveRel(st, i) {
      KeyTouchesIsHas(st.relCols, k, i);
      HasAmong(Props(st.relCols), Live(st), i, k);
    }
  }

  lemma {:induction false} LabelDirtied(st: Staged, e: Edit, l: nat)
    requires st.cow.From?
    ensures DirtyLabel(Apply(st, e).cow, l) <==> DirtyLabel(st.cow, l) || TouchesLabel(ViewOf(st), e, l)
  {
  }

  // ---- every run ---------------------------------------------------------------------------------------------

  datatype Mark = OnRels | OnKey(key: nat) | OnRelKey(key: nat) | OnLabel(l: nat)

  ghost predicate Marked(t: Tracking, m: Mark) {
    match m
    case OnRels => t.From? && t.relsDirty
    case OnKey(key) => DirtyKey(t, key)
    case OnRelKey(key) => DirtyRelKey(t, key)
    case OnLabel(l) => DirtyLabel(t, l)
  }

  ghost predicate TouchesMark(v: View, e: Edit, m: Mark) {
    match m
    case OnRels => TouchesRels(v, e)
    case OnKey(key) => TouchesKey(v, e, key)
    case OnRelKey(key) => TouchesRelKey(v, e, key)
    case OnLabel(l) => TouchesLabel(v, e, l)
  }

  /** Edit `k` of the run touches it, in the graph the edits before have made. */
  ghost predicate TouchedBy(v: View, edits: seq<Edit>, k: nat, m: Mark) {
    k < |edits| && TouchesMark(DoAll(v, edits[..k]), edits[k], m)
  }

  ghost predicate EverTouched(v: View, edits: seq<Edit>, m: Mark) {
    exists k: nat :: TouchedBy(v, edits, k, m)
  }

  lemma {:induction false} EditMarks(st: Staged, e: Edit, m: Mark)
    requires st.cow.From?
    ensures Apply(st, e).cow.From? && Apply(st, e).cow.src == st.cow.src
    ensures Marked(Apply(st, e).cow, m) <==> Marked(st.cow, m) || TouchesMark(ViewOf(st), e, m)
  {
    RelsDirtied(st, e);
    match m
    case OnRels =>
    case OnKey(key) => KeyDirtied(st, e, key);
    case OnRelKey(key) => RelKeyDirtied(st, e, key);
    case OnLabel(l) => LabelDirtied(st, e, l);
  }

  lemma {:induction false} TouchedNext(v: View, edits: seq<Edit>, m: Mark)
    requires edits != []
    ensures var init, last := edits[..|edits| - 1], edits[|edits| - 1];
            EverTouched(v, edits, m) <==> EverTouched(v, init, m) || TouchesMark(DoAll(v, init), last, m)
  {
    var n := |edits| - 1;
    forall k: nat ensures TouchedBy(v, edits[..n], k, m) <==> k < n && TouchedBy(v, edits, k, m) {
      if k < n { assert edits[..n][..k] == edits[..k]; }
    }
    assert TouchedBy(v, edits, n, m) <==> TouchesMark(DoAll(v, edits[..n]), edits[n], m);
  }

  /** A run marks exactly what it touched, on top of what was marked. */
  lemma {:induction false} RunMarks(st: Staged, edits: seq<Edit>, m: Mark)
    requires Sane(st) && st.cow.From?
    ensures ApplyAll(st, edits).cow.From? && ApplyAll(st, edits).cow.src == st.cow.src
    ensures Marked(ApplyAll(st, edits).cow, m) <==> Marked(st.cow, m) || EverTouched(ViewOf(st), edits, m)
  {
    if edits != [] {
      var init, last := edits[..|edits| - 1], edits[|edits| - 1];
      RunMarks(st, init, m);
      EveryRunMeans(st, init);
      EditMarks(ApplyAll(st, init), last, m);
      TouchedNext(ViewOf(st), edits, m);
    }
  }
}
