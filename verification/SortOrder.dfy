/** `OrderCmp`, the ORDER BY comparison, as the order of a sort key: every value maps to a tree of
    numbers, and trees are totally ordered. */
module SortOrder {
  import opened StableSort
  import opened Powers
  import opened Floats
  import opened Values

  // ---- the comparison ----------------------------------------------------------------------------------

  /** The type tiers, Null last. */
  function OrderRank(v: Value): nat {
    match v
    case Bool(_) => 0
    case Int(_) => 1
    case Float(_) => 1
    case Str(_) => 2
    case List(_) => 3
    case Node(_) => 4
    case Rel(_) => 5
    case Path(_, _) => 6
    case Map(_) => 7
    case Temporal(_, _) => 8
    case Duration(_, _, _) => 9
    case Null => 255
  }

  /** The numeric tier compares as floats. */
  function OrderNum(v: Value): nat
    requires v.Int? || v.Float?
  {
    if v.Int? then ToF64(v.i) else v.bits
  }

  function CmpNums(x: seq<nat>, y: seq<nat>): int {
    if x == [] || y == [] then CmpInt(|x|, |y|)
    else if x[0] != y[0] then CmpInt(x[0], y[0])
    else CmpNums(x[1..], y[1..])
  }

  function Then(c: int, d: int): int {
    if c != 0 then c else d
  }

  function OrderCmp(a: Value, b: Value): int
    decreases a, 0
  {
    if OrderRank(a) != OrderRank(b) then CmpInt(OrderRank(a), OrderRank(b))
    else
      match a
      case Null => 0
      case Bool(x) => CmpInt(if x then 1 else 0, if b.b then 1 else 0)
      case Int(_) => CmpInt(TotalKey(OrderNum(a)), TotalKey(OrderNum(b)))
      case Float(_) => CmpInt(TotalKey(OrderNum(a)), TotalKey(OrderNum(b)))
      case Str(s) => CmpStr(s, b.s)
      case List(items) => ListCmp(items, b.items)
      case Node(id) => CmpInt(id, b.id)
      case Rel(pos) => CmpInt(pos, b.pos)
      case Path(nodes, rels) => Then(CmpNums(nodes, b.nodes), CmpNums(rels, b.rels))
      case Map(entries) => MapCmp(entries, KeySorted(entries), b.entries, KeySorted(b.entries), 0)
      case Temporal(millis, aux) => Then(CmpInt(millis, b.millis), CmpInt(aux, b.aux))
      case Duration(months, days, ms) =>
        Then(CmpInt(months, b.months), Then(CmpInt(days, b.days), CmpInt(ms, b.ms)))
  }

  function ListCmp(x: seq<Value>, y: seq<Value>): int
    decreases x, 0
  {
    if x == [] || y == [] then CmpInt(|x|, |y|)
    else Then(OrderCmp(x[0], y[0]), ListCmp(x[1..], y[1..]))
  }

  /** Entries from the `k`-th smallest key on, by key and then value. */
  function MapCmp(x: seq<Entry>, xi: seq<nat>, y: seq<Entry>, yi: seq<nat>, k: nat): int
    requires |xi| == |x| && |yi| == |y| && k <= |x| && k <= |y|
    requires (forall j :: 0 <= j < |xi| ==> xi[j] < |x|) && forall j :: 0 <= j < |yi| ==> yi[j] < |y|
    decreases x, |x| - k
  {
    if k == |x| || k == |y| then CmpInt(|x|, |y|)
    else
      var ex, ey := x[xi[k]], y[yi[k]];
      Then(CmpStr(ex.key, ey.key), Then(OrderCmp(ex.val, ey.val), MapCmp(x, xi, y, yi, k + 1)))
  }

  // ---- sort keys -----------------------------------------------------------------------------------------

  datatype Tree = Num(n: int) | Branch(kids: seq<Tree>)

  function CmpTree(a: Tree, b: Tree): int
    decreases a, 0
  {
    if a.Num? && b.Num? then CmpInt(a.n, b.n)
    else if a.Num? then -1
    else if b.Num? then 1
    else CmpTrees(a.kids, b.kids)
  }

  /** Lexicographic, a prefix first. */
  function CmpTrees(x: seq<Tree>, y: seq<Tree>): int
    decreases x, 0
  {
    if x == [] || y == [] then CmpInt(|x|, |y|)
    else Then(CmpTree(x[0], y[0]), CmpTrees(x[1..], y[1..]))
  }

  lemma {:induction false} TreeSigns(a: Tree, b: Tree)
    ensures CmpTree(a, b) == -CmpTree(b, a) && (CmpTree(a, b) == 0 <==> a == b)
    decreases a, 0
  {
    if a.Branch? && b.Branch? { TreesSigns(a.kids, b.kids); }
  }

  lemma {:induction false} TreesSigns(x: seq<Tree>, y: seq<Tree>)
    ensures CmpTrees(x, y) == -CmpTrees(y, x) && (CmpTrees(x, y) == 0 <==> x == y)
    decreases x, 0
  {
    if x != [] && y != [] {
      TreeSigns(x[0], y[0]);
      TreesSigns(x[1..], y[1..]);
      assert x == [x[0]] + x[1..] && y == [y[0]] + y[1..];
    }
  }

  lemma {:induction false} TreeTransitive(a: Tree, b: Tree, c: Tree)
    requires CmpTree(a, b) <= 0 && CmpTree(b, c) <= 0
    ensures CmpTree(a, c) <= 0
    decreases a, 0
  {
    if a.Branch? && b.Branch? && c.Branch? { TreesTransitive(a.kids, b.kids, c.kids); }
  }

  lemma {:induction false} TreesTransitive(x: seq<Tree>, y: seq<Tree>, z: seq<Tree>)
    requires CmpTrees(x, y) <= 0 && CmpTrees(y, z) <= 0
    ensures CmpTrees(x, z) <= 0
    decreases x, 0
  {
    if x != [] && y != [] && z != [] {
      TreeSigns(x[0], y[0]);
      TreeSigns(y[0], z[0]);
      TreeSigns(x[0], z[0]);
      TreeTransitive(x[0], y[0], z[0]);
      if x[0] == z[0] {
        TreeSigns(z[0], y[0]);
        TreesTransitive(x[1..], y[1..], z[1..]);
      }
    }
  }

  function NumKeys(s: seq<int>): (r: seq<Tree>)
    ensures |r| == |s| && forall i :: 0 <= i < |s| ==> r[i] == Num(s[i])
  {
    seq(|s|, i requires 0 <= i < |s| => Num(s[i]))
  }

  /** The tier, then the payload. */
  function KeyOf(v: Value): Tree
    decreases v, 0
  {
    Branch([Num(OrderRank(v))] + Payload(v))
  }

  function Payload(v: Value): seq<Tree>
    decreases v, 0, 0
  {
    match v
    case Null => []
    case Bool(x) => [Num(if x then 1 else 0)]
    case Int(_) => [Num(TotalKey(OrderNum(v)))]
    case Float(_) => [Num(TotalKey(OrderNum(v)))]
    case Str(s) => [Branch(NumKeys(s))]
    case List(items) => [Branch(ItemKeys(items))]
    case Node(id) => [Num(id)]
    case Rel(pos) => [Num(pos)]
    case Path(nodes, rels) => [Branch(NumKeys(nodes)), Branch(NumKeys(rels))]
    case Map(entries) => [Branch(EntryKeys(entries, KeySorted(entries), 0))]
    case Temporal(millis, aux) => [Num(millis), Num(aux)]
    case Duration(months, days, ms) => [Num(months), Num(days), Num(ms)]
  }

  function ItemKeys(items: seq<Value>): (r: seq<Tree>)
    ensures |r| == |items|
    decreases items, 0
  {
    if items == [] then [] else [KeyOf(items[0])] + ItemKeys(items[1..])
  }

  function EntryKeys(entries: seq<Entry>, idx: seq<nat>, k: nat): (r: seq<Tree>)
    requires |idx| == |entries| && k <= |entries| && forall j :: 0 <= j < |idx| ==> idx[j] < |entries|
    ensures |r| == |entries| - k
    decreases entries, |entries| - k
  {
    if k == |entries| then []
    else
      var e := entries[idx[k]];
      [Branch([Branch(NumKeys(e.key)), KeyOf(e.val)])] + EntryKeys(entries, idx, k + 1)
  }

  // ---- the comparison is the key order ---------------------------------------------------------------------

  lemma {:induction false} StrKeys(a: Bytes, b: Bytes)
    ensures CmpTrees(NumKeys(a), NumKeys(b)) == CmpStr(a, b)
  {
    if a != [] && b != [] {
      StrKeys(a[1..], b[1..]);
      assert NumKeys(a)[1..] == NumKeys(a[1..]) && NumKeys(b)[1..] == NumKeys(b[1..]);
    }
  }

  lemma {:induction false} NumsKeys(a: seq<nat>, b: seq<nat>)
    ensures CmpTrees(NumKeys(a), NumKeys(b)) == CmpNums(a, b)
  {
    if a != [] && b != [] {
      NumsKeys(a[1..], b[1..]);
      assert NumKeys(a)[1..] == NumKeys(a[1..]) && NumKeys(b)[1..] == NumKeys(b[1..]);
    }
  }

  lemma CmpCons(a: Tree, x: seq<Tree>, b: Tree, y: seq<Tree>)
    ensures CmpTrees([a] + x, [b] + y) == Then(CmpTree(a, b), CmpTrees(x, y))
  {
    assert ([a] + x)[1..] == x && ([b] + y)[1..] == y;
  }

  lemma CmpOne(a: Tree, b: Tree)
    ensures CmpTrees([a], [b]) == CmpTree(a, b)
  {
    CmpCons(a, [], b, []);
    assert [a] + [] == [a] && [b] + [] == [b];
  }

  lemma CmpTwo(a: Tree, a': Tree, b: Tree, b': Tree)
    ensures CmpTrees([a, a'], [b, b']) == Then(CmpTree(a, b), CmpTree(a', b'))
  {
    CmpCons(a, [a'], b, [b']);
    CmpOne(a', b');
    assert [a] + [a'] == [a, a'] && [b] + [b'] == [b, b'];
  }

  lemma CmpThree(a: Tree, a': Tree, a'': Tree, b: Tree, b': Tree, b'': Tree)
    ensures CmpTrees([a, a', a''], [b, b', b'']) == Then(CmpTree(a, b), Then(CmpTree(a', b'), CmpTree(a'', b'')))
  {
    CmpCons(a, [a', a''], b, [b', b'']);
    CmpTwo(a', a'', b', b'');
    assert [a] + [a', a''] == [a, a', a''] && [b] + [b', b''] == [b, b', b''];
  }

  /** For all values nested to any depth, `OrderCmp` compares sort keys. */
  lemma {:induction false} OrderCmpIsKeyOrder(a: Value, b: Value)
    ensures OrderCmp(a, b) == CmpTree(KeyOf(a), KeyOf(b))
    decreases a, 1
  {
    CmpCons(Num(OrderRank(a)), Payload(a), Num(OrderRank(b)), Payload(b));
    if OrderRank(a) == OrderRank(b) {
      PayloadOrder(a, b);
    }
  }

  lemma {:induction false} PayloadOrder(a: Value, b: Value)
    requires OrderRank(a) == OrderRank(b)
    ensures OrderCmp(a, b) == CmpTrees(Payload(a), Payload(b))
    decreases a, 0
  {
    if a.List? {
      CmpOne(Payload(a)[0], Payload(b)[0]);
      ListOrder(a.items, b.items);
    } else if a.Map? {
      CmpOne(Payload(a)[0], Payload(b)[0]);
      MapsOrder(a.entries, KeySorted(a.entries), b.entries, KeySorted(b.entries), 0);
    } else {
      FlatOrder(a, b);
    }
  }

  lemma FlatOrder(a: Value, b: Value)
    requires OrderRank(a) == OrderRank(b) && !a.List? && !a.Map?
    ensures OrderCmp(a, b) == CmpTrees(Payload(a), Payload(b))
  {
    var p, q := Payload(a), Payload(b);
    if a.Str? {
      CmpOne(p[0], q[0]);
      StrKeys(a.s, b.s);
    } else if a.Path? {
      CmpTwo(p[0], p[1], q[0], q[1]);
      NumsKeys(a.nodes, b.nodes);
      NumsKeys(a.rels, b.rels);
    } else if a.Temporal? {
      CmpTwo(p[0], p[1], q[0], q[1]);
    } else if a.Duration? {
      CmpThree(p[0], p[1], p[2], q[0], q[1], q[2]);
    } else if !a.Null? {
      CmpOne(p[0], q[0]);
    }
  }

  lemma {:induction false} ListOrder(x: seq<Value>, y: seq<Value>)
    ensures ListCmp(x, y) == CmpTrees(ItemKeys(x), ItemKeys(y))
    decreases x, 0
  {
    if x != [] && y != [] {
      OrderCmpIsKeyOrder(x[0], y[0]);
      ListOrder(x[1..], y[1..]);
      CmpCons(KeyOf(x[0]), ItemKeys(x[1..]), KeyOf(y[0]), ItemKeys(y[1..]));
    }
  }

  lemma {:induction false} MapsOrder(x: seq<Entry>, xi: seq<nat>, y: seq<Entry>, yi: seq<nat>, k: nat)
    requires |xi| == |x| && |yi| == |y| && k <= |x| && k <= |y|
    requires (forall j :: 0 <= j < |xi| ==> xi[j] < |x|) && forall j :: 0 <= j < |yi| ==> yi[j] < |y|
    ensures MapCmp(x, xi, y, yi, k) == CmpTrees(EntryKeys(x, xi, k), EntryKeys(y, yi, k))
    decreases x, |x| - k
  {
    if k < |x| && k < |y| {
      var ex, ey := x[xi[k]], y[yi[k]];
      OrderCmpIsKeyOrder(ex.val, ey.val);
      StrKeys(ex.key, ey.key);
      MapsOrder(x, xi, y, yi, k + 1);
      var p, q := Branch([Branch(NumKeys(ex.key)), KeyOf(ex.val)]), Branch([Branch(NumKeys(ey.key)), KeyOf(ey.val)]);
      CmpCons(p, EntryKeys(x, xi, k + 1), q, EntryKeys(y, yi, k + 1));
      CmpTwo(Branch(NumKeys(ex.key)), KeyOf(ex.val), Branch(NumKeys(ey.key)), KeyOf(ey.val));
    }
  }

  /** A total preorder: every two values compare, signs flip, ties are exactly equal sort keys, and
      the order is transitive. */
  lemma OrderCmpIsTotalPreorder(a: Value, b: Value, c: Value)
    ensures OrderCmp(a, a) == 0
    ensures OrderCmp(a, b) == -OrderCmp(b, a)
    ensures OrderCmp(a, b) == 0 <==> KeyOf(a) == KeyOf(b)
    ensures OrderCmp(a, b) <= 0 && OrderCmp(b, c) <= 0 ==> OrderCmp(a, c) <= 0
  {
    OrderCmpIsKeyOrder(a, a);
    OrderCmpIsKeyOrder(a, b);
    OrderCmpIsKeyOrder(b, a);
    OrderCmpIsKeyOrder(b, c);
    OrderCmpIsKeyOrder(a, c);
    TreeSigns(KeyOf(a), KeyOf(a));
    TreeSigns(KeyOf(a), KeyOf(b));
    if OrderCmp(a, b) <= 0 && OrderCmp(b, c) <= 0 {
      TreeTransitive(KeyOf(a), KeyOf(b), KeyOf(c));
    }
  }

  lemma {:induction false} EntryKeysAgree(e: seq<Entry>, ei: seq<nat>, f: seq<Entry>, fi: seq<nat>, k: nat)
    requires |e| == |f| == |ei| == |fi| && k <= |e|
    requires forall j :: 0 <= j < |e| ==> ei[j] < |e| && fi[j] < |f| && e[ei[j]] == f[fi[j]]
    ensures EntryKeys(e, ei, k) == EntryKeys(f, fi, k)
    decreases |e| - k
  {
    if k < |e| { EntryKeysAgree(e, ei, f, fi, k + 1); }
  }

  /** Maps tie when they differ only in insertion order. */
  lemma InsertionOrderTies(e: seq<Entry>, f: seq<Entry>, s: seq<nat>)
    requires Reorders(e, f, s) && DistinctKeys(e)
    ensures OrderCmp(Map(e), Map(f)) == 0
  {
    SortForgetsInsertion(e, f, s);
    EntryKeysAgree(e, KeySorted(e), f, KeySorted(f), 0);
    OrderCmpIsTotalPreorder(Map(e), Map(f), Map(f));
  }

  /** Floats order as section 5.10 of IEEE 754-2019 has them. */
  lemma FloatsFollowTotalOrder(x: nat, y: nat)
    requires IsF64(x) && IsF64(y)
    ensures OrderCmp(Float(x), Float(y)) < 0 <==> TotalBefore(x, y)
    ensures OrderCmp(Float(x), Float(y)) == 0 <==> x == y
  {
    TotalKeyIsTotalOrder(x, y);
  }

  /** Integers never compare against their order, at any size, and tie exactly when they round to one
      number of 53 bits. */
  lemma IntegersFollowOrder(i: int, j: int)
    requires 0 - TWO63 <= i <= j < TWO63
    ensures OrderCmp(Int(i), Int(j)) == if NearestInt(i) == NearestInt(j) then 0 else -1
    ensures i < j && 0 - Pow2(53) < i && j < Pow2(53) ==> OrderCmp(Int(i), Int(j)) < 0
  {
    if i < j && 0 - Pow2(53) < i && j < Pow2(53) {
      SmallIntegersAreExact(i);
      SmallIntegersAreExact(j);
    }
    ConversionAscends(i, j);
    ConversionTiesIff(i, j);
    TotalKeyIsTotalOrder(ToF64(i), ToF64(j));
  }

  /** From 2^53 on, different integers can tie. */
  lemma LargeIntegersTie(i: int)
    requires i == TWO53
    ensures OrderCmp(Int(i), Int(i + 1)) == 0
  {
    NeighborsTie(i);
  }

  // ---- the early-return loops ----------------------------------------------------------------------------

  method OrderCompare(a: Value, b: Value) returns (c: int)
    ensures c == OrderCmp(a, b)
    decreases a, 0
  {
    if a.List? && b.List? {
      c := CompareLists(a.items, b.items);
    } else if a.Map? && b.Map? {
      c := CompareMaps(a.entries, b.entries);
    } else {
      c := OrderCmp(a, b);
    }
  }

  method CompareLists(x: seq<Value>, y: seq<Value>) returns (c: int)
    ensures c == ListCmp(x, y)
    decreases x, 0
  {
    var n := if |x| < |y| then |x| else |y|;
    for i := 0 to n
      invariant ListCmp(x, y) == ListCmp(x[i..], y[i..])
    {
      assert x[i..][0] == x[i] && y[i..][0] == y[i];
      assert x[i..][1..] == x[i + 1..] && y[i..][1..] == y[i + 1..];
      c := OrderCompare(x[i], y[i]);
      if c != 0 { return; }
    }
    c := CmpInt(|x|, |y|);
  }

  method CompareMaps(x: seq<Entry>, y: seq<Entry>) returns (c: int)
    ensures c == MapCmp(x, KeySorted(x), y, KeySorted(y), 0)
    decreases x, 1
  {
    c := CompareSorted(x, KeySorted(x), y, KeySorted(y));
  }

  method CompareSorted(x: seq<Entry>, xi: seq<nat>, y: seq<Entry>, yi: seq<nat>) returns (c: int)
    requires |xi| == |x| && |yi| == |y|
    requires (forall j :: 0 <= j < |xi| ==> xi[j] < |x|) && forall j :: 0 <= j < |yi| ==> yi[j] < |y|
    ensures c == MapCmp(x, xi, y, yi, 0)
    decreases x, 0
  {
    ghost var want := MapCmp(x, xi, y, yi, 0);
    var n := if |x| < |y| then |x| else |y|;
    for k := 0 to n
      invariant want == MapCmp(x, xi, y, yi, k)
    {
      var ex, ey := x[xi[k]], y[yi[k]];
      c := CmpStr(ex.key, ey.key);
      if c != 0 { return; }
      c := OrderCompare(ex.val, ey.val);
      if c != 0 { return; }
    }
    c := CmpInt(|x|, |y|);
  }
}
