/** The two-layer plan cache: verbatim queries (L1) own reference-counted templates (L2), evicted
    least recently used past a byte budget. */
module PlanCache {
  import opened Columns

  const L1_OVERHEAD: nat := 96
  const DEFAULT_CACHE_BYTES: int := 0x800_0000

  /** A query or template text: compared whole, charged by length. */
  datatype Text = Text(id: nat, len: nat)

  /** One template's compiled plan; `id` tells two plans of one template apart. */
  datatype CachedPlan = CachedPlan(id: nat, key: Text)

  function EstBytes(text: Text): nat {
    4096 + text.len * 12
  }

  datatype Entry = Entry(plan: CachedPlan, lifted: seq<nat>, bytes: nat, tick: nat, sighted: bool)

  /** Go's division by ten, truncating toward zero, times nine. */
  function Target(maxBytes: int): int {
    (if maxBytes >= 0 then maxBytes / 10 else -(-maxBytes / 10)) * 9
  }

  // ---- sums and counts ---------------------------------------------------------------------------

  ghost function Charged(m: map<Text, Entry>): nat {
    if m == map[] then 0 else
      var q :| q in m;
      m[q].bytes + Charged(m - {q})
  }

  lemma {:induction false} ChargedWithout(m: map<Text, Entry>, q: Text)
    requires q in m
    ensures Charged(m) == m[q].bytes + Charged(m - {q})
    decreases |m|
  {
    var p :| p in m && Charged(m) == m[p].bytes + Charged(m - {p});
    if p != q {
      ChargedWithout(m - {p}, q);
      ChargedWithout(m - {q}, p);
      assert m - {p} - {q} == m - {q} - {p};
    }
  }

  lemma ChargedWith(m: map<Text, Entry>, q: Text, e: Entry)
    ensures Charged(m[q := e]) == Charged(m) + e.bytes - if q in m then m[q].bytes else 0
  {
    ChargedWithout(m[q := e], q);
    if q in m { ChargedWithout(m, q); }
    assert m[q := e] - {q} == m - {q};
    assert q !in m ==> m - {q} == m;
  }

  lemma {:induction false} ChargedPositive(m: map<Text, Entry>)
    requires forall q :: q in m ==> m[q].bytes > 0
    ensures Charged(m) == 0 <==> m == map[]
  {
  }

  function Holders(m: map<Text, Entry>, p: CachedPlan): set<Text> {
    set q | q in m && m[q].plan == p
  }

  lemma HoldersWithout(m: map<Text, Entry>, q: Text, p: CachedPlan)
    requires q in m
    ensures |Holders(m - {q}, p)| == |Holders(m, p)| - if m[q].plan == p then 1 else 0
  {
    assert Holders(m - {q}, p) == Holders(m, p) - {q};
  }

  lemma HoldersWith(m: map<Text, Entry>, q: Text, e: Entry, p: CachedPlan)
    requires q !in m
    ensures |Holders(m[q := e], p)| == |Holders(m, p)| + if e.plan == p then 1 else 0
  {
    if e.plan == p {
      assert Holders(m[q := e], p) == Holders(m, p) + {q};
    } else {
      assert Holders(m[q := e], p) == Holders(m, p);
    }
  }

  lemma HoldersSame(m: map<Text, Entry>, q: Text, e: Entry, p: CachedPlan)
    requires q in m && e.plan == m[q].plan
    ensures Holders(m[q := e], p) == Holders(m, p)
  {
  }

  // ---- eviction order ------------------------------------------------------------------------------

  /** `order` lists the keys of `m`, oldest first. */
  ghost predicate OldestFirst(order: seq<Text>, m: map<Text, Entry>) {
    && (forall i :: 0 <= i < |order| ==> order[i] in m)
    && (forall i, j :: 0 <= i < j < |order| ==> order[i] in m && order[j] in m && m[order[i]].tick < m[order[j]].tick)
    && (forall q :: q in m ==> q in order)
  }

  /** The last use of `q`. */
  function Ticks(m: map<Text, Entry>, q: Text): nat {
    if q in m then m[q].tick else 0
  }

  ghost predicate DistinctTicks(m: map<Text, Entry>) {
    forall p, q {:trigger Ticks(m, p), Ticks(m, q)} :: p in m && q in m && p != q ==> Ticks(m, p) != Ticks(m, q)
  }

  lemma InsertSorted(order: seq<Text>, i: nat, q: Text, sub: map<Text, Entry>, m: map<Text, Entry>)
    requires OldestFirst(order, sub) && q in m && q !in sub && sub == m - {q} && i <= |order|
    requires forall k :: 0 <= k < i ==> m[order[k]].tick < m[q].tick
    requires forall k :: i <= k < |order| ==> m[q].tick < m[order[k]].tick
    ensures OldestFirst(order[..i] + [q] + order[i..], m)
  {
    var o := order[..i] + [q] + order[i..];
    InsertedListed(order, i, q, o);
    InsertedOrdered(order, i, q, m, o);
    forall p | p in m ensures p in o {
      assert p == q || p in sub;
    }
  }

  lemma InsertedOrdered(order: seq<Text>, i: nat, q: Text, m: map<Text, Entry>, o: seq<Text>)
    requires i <= |order| && o == order[..i] + [q] + order[i..] && q in m
    requires forall k :: 0 <= k < |order| ==> order[k] in m
    requires forall k, l :: 0 <= k < l < |order| ==> m[order[k]].tick < m[order[l]].tick
    requires forall k :: 0 <= k < i ==> m[order[k]].tick < m[q].tick
    requires forall k :: i <= k < |order| ==> m[q].tick < m[order[k]].tick
    ensures forall k :: 0 <= k < |o| ==> o[k] in m
    ensures forall k, l :: 0 <= k < l < |o| ==> m[o[k]].tick < m[o[l]].tick
  {
    forall k | 0 <= k < |o| ensures o[k] == if k < i then order[k] else if k == i then q else order[k - 1] {
    }
  }

  lemma InsertedListed(order: seq<Text>, i: nat, q: Text, o: seq<Text>)
    requires i <= |order| && o == order[..i] + [q] + order[i..]
    ensures forall p :: p in o <==> p == q || p in order
  {
    assert order == order[..i] + order[i..];
  }

  /** Where `tick` belongs among the keys sorted so far. */
  method SlotFor(order: seq<Text>, m: map<Text, Entry>, tick: nat) returns (i: nat)
    requires OldestFirst(order, m) && forall q :: q in m ==> m[q].tick != tick
    ensures i <= |order|
    ensures forall k :: 0 <= k < i ==> m[order[k]].tick < tick
    ensures forall k :: i <= k < |order| ==> tick < m[order[k]].tick
  {
    i := 0;
    while i < |order| && m[order[i]].tick < tick
      invariant i <= |order|
      invariant forall k :: 0 <= k < i ==> m[order[k]].tick < tick
    {
      i := i + 1;
    }
  }

  /** Every key by ascending tick. */
  method SortByTick(m: map<Text, Entry>) returns (order: seq<Text>)
    requires DistinctTicks(m)
    ensures OldestFirst(order, m)
  {
    order := [];
    var todo: set<Text>, sub: map<Text, Entry> := m.Keys, map[];
    while todo != {}
      invariant todo !! sub.Keys && todo + sub.Keys == m.Keys
      invariant forall q :: q in sub ==> sub[q] == m[q]
      invariant OldestFirst(order, sub)
    {
      var q :| q in todo;
      assert forall p :: p in sub ==> Ticks(m, p) != Ticks(m, q);
      var i := SlotFor(order, sub, m[q].tick);
      var sub' := sub[q := m[q]];
      assert sub == sub' - {q};
      InsertSorted(order, i, q, sub, sub');
      order, sub, todo := order[..i] + [q] + order[i..], sub', todo - {q};
    }
    assert sub == m;
  }

  // ---- reference counts ------------------------------------------------------------------------------

  ghost predicate InTemplates(templates: map<Text, CachedPlan>, p: CachedPlan) {
    p.key in templates && templates[p.key] == p
  }

  ghost predicate CountRight(m: map<Text, Entry>, refs: map<CachedPlan, int>, pending: set<CachedPlan>, p: CachedPlan) {
    p in refs ==> refs[p] == |Holders(m, p)| + if p in pending then 1 else 0
  }

  ghost predicate TemplateRight(templates: map<Text, CachedPlan>, refs: map<CachedPlan, int>, k: Text) {
    k in templates ==> templates[k] in refs && templates[k].key == k && refs[templates[k]] > 0
  }

  ghost predicate EntryRight(m: map<Text, Entry>, templates: map<Text, CachedPlan>, refs: map<CachedPlan, int>, q: Text) {
    q in m ==> m[q].plan in refs && InTemplates(templates, m[q].plan)
  }

  /** `refs` has every plan ever handed in. Each count is the number of holders, plus one for a hold
      taken but not yet recorded; the templates are held, and every held plan is a template. */
  ghost predicate Holding(m: map<Text, Entry>, templates: map<Text, CachedPlan>, refs: map<CachedPlan, int>,
                          pending: set<CachedPlan>)
  {
    && (forall p {:trigger CountRight(m, refs, pending, p)} :: CountRight(m, refs, pending, p))
    && (forall k {:trigger TemplateRight(templates, refs, k)} :: TemplateRight(templates, refs, k))
    && (forall q {:trigger EntryRight(m, templates, refs, q)} :: EntryRight(m, templates, refs, q))
  }

  function Dereffed(templates: map<Text, CachedPlan>, p: CachedPlan, refs: int): map<Text, CachedPlan> {
    if refs <= 0 then templates - {p.key} else templates
  }

  lemma HoldAcquired(m: map<Text, Entry>, templates: map<Text, CachedPlan>, refs: map<CachedPlan, int>, p: CachedPlan)
    requires Holding(m, templates, refs, {}) && p in refs && (p.key in templates ==> templates[p.key] == p)
    ensures Holding(m, templates[p.key := p], refs[p := refs[p] + 1], {p})
  {
    var templates', refs' := templates[p.key := p], refs[p := refs[p] + 1];
    forall r ensures CountRight(m, refs', {p}, r) {
      assert CountRight(m, refs, {}, r);
    }
    assert CountRight(m, refs, {}, p);
    forall k ensures TemplateRight(templates', refs', k) {
      assert TemplateRight(templates, refs, k);
    }
    forall q ensures EntryRight(m, templates', refs', q) {
      assert EntryRight(m, templates, refs, q);
    }
  }

  lemma HoldReleased(m: map<Text, Entry>, templates: map<Text, CachedPlan>, refs: map<CachedPlan, int>,
                     pending: set<CachedPlan>, q: Text)
    requires Holding(m, templates, refs, pending) && q in m
    ensures m[q].plan in refs
    ensures var p := m[q].plan;
            Holding(m - {q}, Dereffed(templates, p, refs[p] - 1), refs[p := refs[p] - 1], pending)
    ensures forall r :: r in pending && r in refs && InTemplates(templates, r) ==>
              InTemplates(Dereffed(templates, m[q].plan, refs[m[q].plan] - 1), r)
  {
    var p := m[q].plan;
    assert EntryRight(m, templates, refs, q) && CountRight(m, refs, pending, p);
    var m', templates', refs' := m - {q}, Dereffed(templates, p, refs[p] - 1), refs[p := refs[p] - 1];
    forall r ensures CountRight(m', refs', pending, r) {
      assert CountRight(m, refs, pending, r);
      HoldersWithout(m, q, r);
    }
    assert CountRight(m', refs', pending, p);
    forall k ensures TemplateRight(templates', refs', k) {
      assert TemplateRight(templates, refs, k);
    }
    forall r ensures EntryRight(m', templates', refs', r) {
      assert EntryRight(m, templates, refs, r);
      if r in m' && m[r].plan == p { assert r in Holders(m', p); }
    }
  }

  lemma HoldRecorded(m: map<Text, Entry>, templates: map<Text, CachedPlan>, refs: map<CachedPlan, int>,
                     q: Text, e: Entry)
    requires Holding(m, templates, refs, {e.plan}) && q !in m && e.plan in refs && InTemplates(templates, e.plan)
    ensures Holding(m[q := e], templates, refs, {})
  {
    var m' := m[q := e];
    forall p ensures CountRight(m', refs, {}, p) {
      assert CountRight(m, refs, {e.plan}, p);
      HoldersWith(m, q, e, p);
    }
    forall r ensures EntryRight(m', templates, refs, r) {
      assert EntryRight(m, templates, refs, r);
    }
  }

  lemma HoldTouched(m: map<Text, Entry>, templates: map<Text, CachedPlan>, refs: map<CachedPlan, int>,
                    q: Text, e: Entry)
    requires Holding(m, templates, refs, {}) && q in m && e.plan == m[q].plan
    ensures Holding(m[q := e], templates, refs, {})
  {
    var m' := m[q := e];
    forall p ensures CountRight(m', refs, {}, p) {
      assert CountRight(m, refs, {}, p);
      HoldersSame(m, q, e, p);
    }
    forall r ensures EntryRight(m', templates, refs, r) {
      assert EntryRight(m, templates, refs, r) && EntryRight(m, templates, refs, q);
    }
  }

  /** A plan handed in for the first time has no holder. */
  lemma PlanSeen(m: map<Text, Entry>, templates: map<Text, CachedPlan>, refs: map<CachedPlan, int>, p: CachedPlan)
    requires Holding(m, templates, refs, {}) && p !in refs
    ensures Holding(m, templates, refs[p := 0], {})
  {
    var refs' := refs[p := 0];
    assert forall q :: EntryRight(m, templates, refs, q);
    assert Holders(m, p) == {} by {
      forall q | q in m ensures m[q].plan != p { assert EntryRight(m, templates, refs, q); }
    }
    forall r ensures CountRight(m, refs', {}, r) {
      assert CountRight(m, refs, {}, r);
    }
    forall k ensures TemplateRight(templates, refs', k) {
      assert TemplateRight(templates, refs, k);
    }
    forall q ensures EntryRight(m, templates, refs', q) {
      assert EntryRight(m, templates, refs, q);
    }
  }

  /** A template is present exactly when some entry holds it, and counts its holders. */
  lemma PresentIffHeld(m: map<Text, Entry>, templates: map<Text, CachedPlan>, refs: map<CachedPlan, int>, k: Text)
    requires Holding(m, templates, refs, {})
    ensures k in templates <==> exists q :: q in m && m[q].plan.key == k
    ensures k in templates ==> templates[k] in refs && refs[templates[k]] == |set q | q in m && m[q].plan.key == k|
  {
    forall q | q in m ensures InTemplates(templates, m[q].plan) {
      assert EntryRight(m, templates, refs, q);
    }
    if k in templates {
      var p := templates[k];
      assert TemplateRight(templates, refs, k) && CountRight(m, refs, {}, p);
      assert Holders(m, p) == set q | q in m && m[q].plan.key == k;
      assert Holders(m, p) != {};
      var q :| q in Holders(m, p);
    }
  }

  // ---- the cache -----------------------------------------------------------------------------------

  ghost predicate ChargesHold(m: map<Text, Entry>, bytes: int) {
    bytes == Charged(m) && forall q :: q in m ==> m[q].bytes >= L1_OVERHEAD
  }

  ghost predicate TicksHold(m: map<Text, Entry>, tick: nat) {
    DistinctTicks(m) && forall q {:trigger Ticks(m, q)} :: Ticks(m, q) <= tick
  }

  lemma TicksWithout(m: map<Text, Entry>, tick: nat, q: Text)
    requires TicksHold(m, tick)
    ensures TicksHold(m - {q}, tick)
  {
    var m' := m - {q};
    forall p ensures Ticks(m', p) == if p == q then 0 else Ticks(m, p) {
    }
  }

  /** A touch takes the next tick. */
  lemma TicksTouched(m: map<Text, Entry>, tick: nat, q: Text, e: Entry)
    requires TicksHold(m, tick) && e.tick == tick + 1
    ensures TicksHold(m[q := e], tick + 1)
  {
    var m' := m[q := e];
    forall p ensures Ticks(m', p) == (if p == q then tick + 1 else Ticks(m, p)) && Ticks(m, p) <= tick {
    }
  }

  lemma TicksSame(m: map<Text, Entry>, tick: nat, q: Text, e: Entry)
    requires TicksHold(m, tick) && q in m && e.tick == m[q].tick
    ensures TicksHold(m[q := e], tick)
  {
    var m' := m[q := e];
    forall p ensures Ticks(m', p) == Ticks(m, p) {
    }
  }

  class PlanCache {
    var byQuery: map<Text, Entry>
    var byTemplate: map<Text, CachedPlan>
    /** Each plan's own counter, by plan. */
    var refs: map<CachedPlan, int>
    var bytes: int
    var tick: nat
    var maxBytes: int
    var hitsL1: nat
    var hitsL2: nat
    var misses: nat

    /** Charges, ticks and holds are in order. */
    ghost predicate Booked()
      reads this
    {
      ChargesHold(byQuery, bytes) && TicksHold(byQuery, tick) && Holding(byQuery, byTemplate, refs, {})
    }

    /** Between calls the charge is also within the budget. */
    ghost predicate Valid()
      reads this
    {
      Booked() && bytes <= if maxBytes < 0 then 0 else maxBytes
    }

    constructor (budget: int)
      ensures Valid() && byQuery == map[] && byTemplate == map[]
      ensures maxBytes == if budget <= 0 then 0x800_0000 else budget
    {
      byQuery, byTemplate, refs, bytes, tick := map[], map[], map[], 0, 0;
      maxBytes := if budget <= 0 then DEFAULT_CACHE_BYTES else budget;
      hitsL1, hitsL2, misses := 0, 0, 0;
    }

    method Deref(p: CachedPlan)
      requires p in refs
      modifies this`byTemplate, this`refs
      ensures refs == old(refs)[p := old(refs)[p] - 1]
      ensures byTemplate == Dereffed(old(byTemplate), p, refs[p])
    {
      refs := refs[p := refs[p] - 1];
      if refs[p] <= 0 { byTemplate := byTemplate - {p.key}; }
    }

    /** One eviction: the entry, its charge and its hold. */
    method Drop(q: Text)
      requires Booked() && q in byQuery
      modifies this`byQuery, this`byTemplate, this`refs, this`bytes
      ensures Booked() && byQuery == old(byQuery) - {q} && refs.Keys == old(refs).Keys
      ensures bytes == old(bytes) - old(byQuery)[q].bytes
    {
      ChargedWithout(byQuery, q);
      TicksWithout(byQuery, tick, q);
      HoldReleased(byQuery, byTemplate, refs, {}, q);
      var e := byQuery[q];
      byQuery := byQuery - {q};
      bytes := bytes - e.bytes;
      Deref(e.plan);
    }

    method DropOldest(order: seq<Text>, target: int) returns (i: nat)
      requires Booked() && OldestFirst(order, byQuery)
      modifies this`byQuery, this`byTemplate, this`refs, this`bytes
      ensures Booked() && i <= |order| && byQuery == Trimmed(old(byQuery), order, i) && refs.Keys == old(refs).Keys
      ensures i == |order| || bytes <= target
      ensures i > 0 ==> order[i - 1] in old(byQuery) && bytes + old(byQuery)[order[i - 1]].bytes > target
    {
      ghost var all := byQuery;
      i := 0;
      while i < |order| && bytes > target
        invariant i <= |order| && Booked() && byQuery == Trimmed(all, order, i) && refs.Keys == old(refs).Keys
        invariant i > 0 ==> order[i - 1] in all && bytes + all[order[i - 1]].bytes > target
      {
        TrimmedKeys(all, order, i);
        Drop(order[i]);
        i := i + 1;
      }
    }

    /** Oldest entries go until the charge is at nine tenths of the budget; nothing goes that
        survivors are not all newer than, and nothing that need not. */
    method Evict()
      requires Booked()
      modifies this`byQuery, this`byTemplate, this`refs, this`bytes
      ensures Valid() && Evicted(old(byQuery), byQuery, maxBytes) && refs.Keys == old(refs).Keys
      ensures 0 <= maxBytes < old(bytes) ==>
                10 * bytes <= 9 * maxBytes && exists p :: KeptTooMuch(old(byQuery), byQuery, p, maxBytes)
    {
      if bytes <= maxBytes { return; }
      assert forall q :: q in byQuery ==> byQuery[q].bytes >= L1_OVERHEAD;
      var order := SortByTick(byQuery);
      ghost var all := byQuery;
      var i := DropOldest(order, Target(maxBytes));
      TrimmedIsEvicted(all, order, i, maxBytes);
      EvictedWithinBudget(all, byQuery, maxBytes);
      if maxBytes >= 0 { EvictedInNumbers(all, byQuery, maxBytes); }
    }

    method L1Lookup(query: Text) returns (found: Option<Entry>)
      requires Valid()
      modifies this`byQuery, this`tick, this`hitsL1
      ensures Valid()
      ensures found == if query in old(byQuery) then Some(old(byQuery)[query]) else None
      ensures found.None? ==> byQuery == old(byQuery) && tick == old(tick)
      ensures hitsL1 == old(hitsL1) + if found.Some? then 1 else 0
      ensures found.Some? ==> byQuery == old(byQuery)[query := found.value.(tick := tick)] && tick == old(tick) + 1
    {
      if query !in byQuery { return None; }
      found := Some(byQuery[query]);
      var e := byQuery[query].(tick := tick + 1);
      ChargedWith(byQuery, query, e);
      TicksTouched(byQuery, tick, query, e);
      tick := tick + 1;
      HoldTouched(byQuery, byTemplate, refs, query, e);
      byQuery := byQuery[query := e];
      hitsL1 := hitsL1 + 1;
    }

    method L2Lookup(key: Text) returns (found: Option<CachedPlan>)
      requires Valid()
      modifies this`hitsL2, this`misses
      ensures Valid()
      ensures found == if key in byTemplate then Some(byTemplate[key]) else None
      ensures hitsL2 == old(hitsL2) + (if found.Some? then 1 else 0) && misses == old(misses) + if found.Some? then 0 else 1
    {
      if key in byTemplate {
        hitsL2 := hitsL2 + 1;
        return Some(byTemplate[key]);
      }
      misses := misses + 1;
      return None;
    }

    /** The new hold is taken before a replaced entry's is released. */
    method Hold(query: Text, e: Entry)
      requires Holding(byQuery, byTemplate, refs, {}) && e.plan in refs
      requires e.plan.key in byTemplate ==> byTemplate[e.plan.key] == e.plan
      modifies this`byQuery, this`byTemplate, this`refs
      ensures Holding(byQuery, byTemplate, refs, {}) && byQuery == old(byQuery)[query := e]
    {
      HoldAcquired(byQuery, byTemplate, refs, e.plan);
      byTemplate := byTemplate[e.plan.key := e.plan];
      refs := refs[e.plan := refs[e.plan] + 1];
      ghost var rest := byQuery - {query};
      if query in byQuery {
        HoldReleased(byQuery, byTemplate, refs, {e.plan}, query);
        Deref(byQuery[query].plan);
      } else {
        assert rest == byQuery;
      }
      HoldRecorded(rest, byTemplate, refs, query, e);
      assert rest[query := e] == byQuery[query := e];
      byQuery := byQuery[query := e];
    }

    /** Records the entry, replacing any the query had. */
    method Memoize(query: Text, e: Entry)
      requires Booked() && e.tick == tick + 1 && e.bytes >= L1_OVERHEAD
      requires e.plan.key in byTemplate ==> byTemplate[e.plan.key] == e.plan
      modifies this
      ensures Booked() && byQuery == old(byQuery)[query := e] && tick == old(tick) + 1 && maxBytes == old(maxBytes)
    {
      if e.plan !in refs {
        PlanSeen(byQuery, byTemplate, refs, e.plan);
        refs := refs[e.plan := 0];
      }
      ChargedWith(byQuery, query, e);
      TicksTouched(byQuery, tick, query, e);
      tick := tick + 1;
      if query in byQuery { bytes := bytes - byQuery[query].bytes; }
      Hold(query, e);
      bytes := bytes + e.bytes;
    }

    /** Memoizes the query against its template's plan; a plan already there wins. The plan may be one
        looked up earlier whose template has been dropped since. */
    method Insert(query: Text, plan: CachedPlan, lifted: seq<nat>)
      requires Valid()
      modifies this
      ensures Valid() && maxBytes == old(maxBytes) && tick == old(tick) + 1
      ensures var winner := if plan.key in old(byTemplate) then old(byTemplate)[plan.key] else plan;
              var e := Entry(winner, lifted, 96 + query.len + 4096 + 12 * plan.key.len + Sum(lifted), tick, false);
              Evicted(old(byQuery)[query := e], byQuery, maxBytes)
    {
      assert TemplateRight(byTemplate, refs, plan.key);
      var cp := if plan.key in byTemplate then byTemplate[plan.key] else plan;
      Memoize(query, Entry(cp, lifted, L1_OVERHEAD + query.len + EstBytes(cp.key) + Sum(lifted), tick + 1, false));
      Evict();
    }

    /** Attaches a flipped template's literal plan to the query's entry, charging it a second time. */
    method AttachSighted(query: Text)
      requires Valid()
      modifies this
      ensures Valid() && maxBytes == old(maxBytes) && tick == old(tick)
      ensures query !in old(byQuery) || old(byQuery)[query].sighted ==> byQuery == old(byQuery)
      ensures query in old(byQuery) && !old(byQuery)[query].sighted ==>
        var e := old(byQuery)[query];
        Evicted(old(byQuery)[query := e.(sighted := true, bytes := e.bytes + 4096 + 12 * query.len)], byQuery, maxBytes)
    {
      if query in byQuery && !byQuery[query].sighted {
        var e := byQuery[query].(sighted := true, bytes := byQuery[query].bytes + EstBytes(query));
        ChargedWith(byQuery, query, e);
        TicksSame(byQuery, tick, query, e);
        HoldTouched(byQuery, byTemplate, refs, query, e);
        byQuery := byQuery[query := e];
        bytes := bytes + EstBytes(query);
        Evict();
      }
    }

    method SetMaxBytes(budget: int)
      requires Valid()
      modifies this
      ensures Valid() && maxBytes == budget && Evicted(old(byQuery), byQuery, budget)
    {
      maxBytes := budget;
      Evict();
    }
  }

  function Sum(s: seq<nat>): nat {
    if s == [] then 0 else Sum(s[..|s| - 1]) + s[|s| - 1]
  }

  /** After a pass the charge is within any non-negative budget; a negative one empties the cache. */
  lemma EvictedWithinBudget(before: map<Text, Entry>, after: map<Text, Entry>, maxBytes: int)
    requires Evicted(before, after, maxBytes) && forall q :: q in before ==> before[q].bytes >= L1_OVERHEAD
    ensures maxBytes >= 0 ==> Charged(after) <= maxBytes
    ensures maxBytes < 0 ==> after == map[]
  {
    ChargedPositive(after);
    ChargedPositive(before);
  }

  /** The youngest of what went would, kept, have put the charge above nine times a tenth of the budget. */
  ghost predicate KeptTooMuch(before: map<Text, Entry>, after: map<Text, Entry>, p: Text, maxBytes: int) {
    && p in before && p !in after && Charged(after) + before[p].bytes > maxBytes / 10 * 9
    && forall r :: r in before && r !in after ==> before[r].tick <= before[p].tick
  }

  /** A pass over the budget ends at nine tenths of it, and no entry went that could have stayed. */
  lemma EvictedInNumbers(before: map<Text, Entry>, after: map<Text, Entry>, maxBytes: int)
    requires Evicted(before, after, maxBytes) && 0 <= maxBytes < Charged(before)
    ensures 10 * Charged(after) <= 9 * maxBytes
    ensures exists p :: KeptTooMuch(before, after, p, maxBytes)
  {
    var tenth := maxBytes / 10;
    assert 10 * tenth <= maxBytes;
    assert Target(maxBytes) == tenth * 9;
    assert after != before;
    var p :| YoungestOut(before, after, p, maxBytes);
    assert KeptTooMuch(before, after, p, maxBytes);
  }

  /** The newest entry goes only with every other. */
  lemma NewestGoesLast(before: map<Text, Entry>, after: map<Text, Entry>, maxBytes: int, q: Text)
    requires Evicted(before, after, maxBytes) && q in before && forall p :: p in before ==> before[p].tick <= before[q].tick
    ensures q in after || after == map[]
  {
    assert forall p :: p in after && q !in after ==> before[q].tick < after[p].tick;
    assert q !in after ==> forall p :: p !in after;
  }

  ghost function Trimmed(m: map<Text, Entry>, order: seq<Text>, i: nat): map<Text, Entry>
    requires i <= |order|
  {
    if i == 0 then m else Trimmed(m, order, i - 1) - {order[i - 1]}
  }

  lemma {:induction false} TrimmedKeys(m: map<Text, Entry>, order: seq<Text>, i: nat)
    requires i <= |order| && OldestFirst(order, m)
    ensures forall q :: q in Trimmed(m, order, i) ==> q in m && Trimmed(m, order, i)[q] == m[q]
    ensures forall k :: 0 <= k < i ==> order[k] !in Trimmed(m, order, i)
    ensures forall k :: i <= k < |order| ==> order[k] in Trimmed(m, order, i)
  {
    if i > 0 { TrimmedKeys(m, order, i - 1); }
  }

  lemma TrimmedIsEvicted(m: map<Text, Entry>, order: seq<Text>, i: nat, maxBytes: int)
    requires i <= |order| && OldestFirst(order, m) && Charged(m) > maxBytes
    requires i == |order| || Charged(Trimmed(m, order, i)) <= Target(maxBytes)
    requires i > 0 ==> order[i - 1] in m && Charged(Trimmed(m, order, i)) + m[order[i - 1]].bytes > Target(maxBytes)
    ensures Evicted(m, Trimmed(m, order, i), maxBytes)
  {
    var after := Trimmed(m, order, i);
    TrimmedKeys(m, order, i);
    TrimmedAreOlder(m, order, i, after);
    if i == |order| { assert after == map[]; }
    if i > 0 { assert YoungestOut(m, after, order[i - 1], maxBytes); }
  }

  /** What goes is older than what stays, and the last to go the youngest of it. */
  lemma TrimmedAreOlder(m: map<Text, Entry>, order: seq<Text>, i: nat, after: map<Text, Entry>)
    requires i <= |order| && OldestFirst(order, m) && after.Keys <= m.Keys
    requires forall k :: 0 <= k < |order| ==> (order[k] in after <==> i <= k)
    ensures forall p, q :: p in m && p !in after && q in after ==> m[p].tick < m[q].tick
    ensures forall p :: p in m && p !in after ==> i > 0 && m[p].tick <= m[order[i - 1]].tick
  {
    forall p, q | p in m && p !in after && q in after ensures m[p].tick < m[q].tick {
      var j :| 0 <= j < |order| && order[j] == p;
      var k :| 0 <= k < |order| && order[k] == q;
    }
    forall p | p in m && p !in after ensures i > 0 && m[p].tick <= m[order[i - 1]].tick {
      var j :| 0 <= j < |order| && order[j] == p;
    }
  }

  /** `p` was the youngest to go, and keeping it would have kept the charge above target. */
  ghost predicate YoungestOut(before: map<Text, Entry>, after: map<Text, Entry>, p: Text, maxBytes: int) {
    && p in before && p !in after && Charged(after) + before[p].bytes > Target(maxBytes)
    && forall r :: r in before && r !in after ==> before[r].tick <= before[p].tick
  }

  /** What one eviction pass may do to the entries. */
  ghost predicate Evicted(before: map<Text, Entry>, after: map<Text, Entry>, maxBytes: int) {
    && (forall q :: q in after ==> q in before && after[q] == before[q])
    && (Charged(before) <= maxBytes ==> after == before)
    && (Charged(before) > maxBytes ==> after == map[] || Charged(after) <= Target(maxBytes))
    && (forall p, q :: p in before && p !in after && q in after ==> before[p].tick < after[q].tick)
    && (after == before || exists p :: YoungestOut(before, after, p, maxBytes))
  }
}
