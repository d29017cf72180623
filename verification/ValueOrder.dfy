/** The two comparisons of values, constructor by constructor: what precedes what in `OrderCmp`, and
    the sign of `Compare`. */
module ValueOrder {
  import opened StableSort
  import opened Powers
  import opened Floats
  import opened Values
  import opened SortOrder
  import opened GroupKey
  import opened Comparison

  // ---- sequences of numbers --------------------------------------------------------------------------------

  /** They agree on the first `k`, and then `s` ends or has the smaller number. */
  ghost predicate SmallerAt(s: seq<int>, t: seq<int>, k: nat) {
    && k <= |s| && k < |t| && s[..k] == t[..k]
    && (k == |s| || s[k] < t[k])
  }

  /** By the first number that differs, a proper prefix first. */
  ghost predicate Smaller(s: seq<int>, t: seq<int>) {
    exists k: nat :: SmallerAt(s, t, k)
  }

  lemma {:induction false} SmallerNext(s: seq<int>, t: seq<int>)
    requires s != [] && t != [] && s[0] == t[0]
    ensures Smaller(s, t) <==> Smaller(s[1..], t[1..])
  {
    if Smaller(s, t) {
      var k: nat :| SmallerAt(s, t, k);
      if k > 0 {
        assert s[1..][..k - 1] == s[..k][1..] && t[1..][..k - 1] == t[..k][1..];
        assert SmallerAt(s[1..], t[1..], k - 1);
      }
    }
    if Smaller(s[1..], t[1..]) {
      var k: nat :| SmallerAt(s[1..], t[1..], k);
      assert s[..k + 1] == [s[0]] + s[1..][..k] && t[..k + 1] == [t[0]] + t[1..][..k];
      assert SmallerAt(s, t, k + 1);
    }
  }

  lemma {:induction false} HeadKept(s: seq<int>, t: seq<int>, k: nat)
    requires SmallerAt(s, t, k)
    ensures k == 0 || s[0] == t[0]
  {
    if k > 0 { assert s[..k][0] == t[..k][0]; }
  }

  lemma {:induction false} SmallerFirst(s: seq<int>, t: seq<int>)
    requires s == [] || t == [] || s[0] != t[0]
    ensures Smaller(s, t) <==> t != [] && (s == [] || s[0] < t[0])
  {
    if t != [] && (s == [] || s[0] < t[0]) { assert SmallerAt(s, t, 0); }
    if Smaller(s, t) {
      var k: nat :| SmallerAt(s, t, k);
      HeadKept(s, t, k);
    }
  }

  lemma {:induction false} StringSign(s: Bytes, t: Bytes)
    ensures CmpStr(s, t) == if Smaller(s, t) then -1 else if s == t then 0 else 1
    ensures CmpStr(s, t) == 1 <==> Smaller(t, s)
  {
    if s == [] || t == [] || s[0] != t[0] {
      SmallerFirst(s, t);
      SmallerFirst(t, s);
    } else {
      StringSign(s[1..], t[1..]);
      SmallerNext(s, t);
      SmallerNext(t, s);
      assert s == [s[0]] + s[1..] && t == [t[0]] + t[1..];
    }
  }

  lemma {:induction false} NumsSign(s: seq<nat>, t: seq<nat>)
    ensures CmpNums(s, t) == if Smaller(s, t) then -1 else if s == t then 0 else 1
    ensures CmpNums(s, t) == 1 <==> Smaller(t, s)
  {
    if s == [] || t == [] || s[0] != t[0] {
      SmallerFirst(s, t);
      SmallerFirst(t, s);
    } else {
      NumsSign(s[1..], t[1..]);
      SmallerNext(s, t);
      SmallerNext(t, s);
      assert s == [s[0]] + s[1..] && t == [t[0]] + t[1..];
    }
  }

  // ---- OrderCmp between kinds ----------------------------------------------------------------------------------

  /** Booleans, numbers, strings, lists, nodes, relationships, paths, maps, moments, durations, and null
      after everything. */
  predicate Precedes(a: Value, b: Value) {
    match a
    case Null => false
    case Bool(_) => !b.Bool?
    case Int(_) => !b.Bool? && !Numeric(b)
    case Float(_) => !b.Bool? && !Numeric(b)
    case Str(_) => !b.Bool? && !Numeric(b) && !b.Str?
    case List(_) => b.Node? || b.Rel? || b.Path? || b.Map? || b.Temporal? || b.Duration? || b.Null?
    case Node(_) => b.Rel? || b.Path? || b.Map? || b.Temporal? || b.Duration? || b.Null?
    case Rel(_) => b.Path? || b.Map? || b.Temporal? || b.Duration? || b.Null?
    case Path(_, _) => b.Map? || b.Temporal? || b.Duration? || b.Null?
    case Map(_) => b.Temporal? || b.Duration? || b.Null?
    case Temporal(_, _) => b.Duration? || b.Null?
    case Duration(_, _, _) => b.Null?
  }

  predicate SameKind(a: Value, b: Value) {
    match a
    case Null => b.Null?
    case Bool(_) => b.Bool?
    case Int(_) => Numeric(b)
    case Float(_) => Numeric(b)
    case Str(_) => b.Str?
    case List(_) => b.List?
    case Node(_) => b.Node?
    case Rel(_) => b.Rel?
    case Path(_, _) => b.Path?
    case Map(_) => b.Map?
    case Temporal(_, _) => b.Temporal?
    case Duration(_, _, _) => b.Duration?
  }

  /** Of two values of different kinds, numbers being one kind, the one of the earlier kind comes
      first. */
  lemma {:induction false} KindsInOrder(a: Value, b: Value)
    ensures SameKind(a, b) || Precedes(a, b) || Precedes(b, a)
    ensures Precedes(a, b) ==> OrderCmp(a, b) == -1 && OrderCmp(b, a) == 1
  {
  }

  // ---- OrderCmp within a kind ----------------------------------------------------------------------------------

  /** False before true; strings by bytes; nodes and relationships by id; nulls tie. */
  lemma {:induction false} SimpleInOrder(s: Bytes, t: Bytes, x: nat, y: nat)
    ensures OrderCmp(Bool(false), Bool(true)) == -1 && OrderCmp(Bool(true), Bool(false)) == 1
    ensures OrderCmp(Bool(true), Bool(true)) == 0 && OrderCmp(Bool(false), Bool(false)) == 0 && OrderCmp(Null, Null) == 0
    ensures OrderCmp(Str(s), Str(t)) == if Smaller(s, t) then -1 else if s == t then 0 else 1
    ensures OrderCmp(Node(x), Node(y)) == OrderCmp(Rel(x), Rel(y)) == if x < y then -1 else if x == y then 0 else 1
  {
    StringSign(s, t);
  }

  /** Numbers as floats, in IEEE total order, an integer by what it converts to. */
  lemma {:induction false} NumbersInOrder(i: int, bits: nat)
    requires InI64(i) && IsF64(bits)
    ensures OrderCmp(Int(i), Float(bits)) == if TotalBefore(ToF64(i), bits) then -1 else if ToF64(i) == bits then 0 else 1
    ensures OrderCmp(Float(bits), Int(i)) == if TotalBefore(bits, ToF64(i)) then -1 else if ToF64(i) == bits then 0 else 1
  {
    ConversionAscends(i, i);
    TotalKeyIsTotalOrder(ToF64(i), bits);
    TotalKeyIsTotalOrder(bits, ToF64(i));
  }

  /** Floats, both ways round. */
  lemma {:induction false} FloatsInOrder(x: nat, y: nat)
    requires IsF64(x) && IsF64(y)
    ensures OrderCmp(Float(x), Float(y)) == if TotalBefore(x, y) then -1 else if x == y then 0 else 1
    ensures OrderCmp(Float(x), Float(y)) == 1 <==> TotalBefore(y, x)
  {
    TotalKeyIsTotalOrder(x, y);
    TotalKeyIsTotalOrder(y, x);
  }

  /** Moments by their milliseconds, then by kind. */
  lemma {:induction false} MomentsInOrder(m: int, a: nat, n: int, b: nat)
    ensures OrderCmp(Temporal(m, a), Temporal(n, b)) == if m < n || (m == n && a < b) then -1 else if m == n && a == b then 0 else 1
  {
  }

  /** Durations by months, then days, then milliseconds. */
  lemma {:induction false} DurationsInOrder(a: Value, b: Value)
    requires a.Duration? && b.Duration?
    ensures OrderCmp(a, b) == -1 <==>
            a.months < b.months || (a.months == b.months && (a.days < b.days || (a.days == b.days && a.ms < b.ms)))
    ensures OrderCmp(a, b) == 0 <==> a == b
    ensures OrderCmp(a, b) == 1 <==> OrderCmp(b, a) == -1
  {
  }

  /** Paths by their nodes, then by their relationships. */
  lemma {:induction false} PathsInOrder(ns: seq<nat>, rs: seq<nat>, ms: seq<nat>, qs: seq<nat>)
    ensures OrderCmp(Path(ns, rs), Path(ms, qs)) == -1 <==> Smaller(ns, ms) || (ns == ms && Smaller(rs, qs))
    ensures OrderCmp(Path(ns, rs), Path(ms, qs)) == 1 <==> Smaller(ms, ns) || (ns == ms && Smaller(qs, rs))
  {
    NumsSign(ns, ms);
    NumsSign(rs, qs);
  }

  /** Lists that tie on the first `k` elements: the next pair decides, and a list that ends there comes
      first. */
  lemma {:induction false} ListsInOrder(x: seq<Value>, y: seq<Value>, k: nat)
    requires k <= |x| && k <= |y| && forall j :: 0 <= j < k ==> OrderCmp(x[j], y[j]) == 0
    ensures k < |x| && k < |y| && OrderCmp(x[k], y[k]) != 0 ==> OrderCmp(List(x), List(y)) == OrderCmp(x[k], y[k])
    ensures k == |x| < |y| ==> OrderCmp(List(x), List(y)) == -1
    ensures k == |y| < |x| ==> OrderCmp(List(x), List(y)) == 1
    ensures k == |x| == |y| ==> OrderCmp(List(x), List(y)) == 0
    decreases k
  {
    if k > 0 {
      ListsInOrder(x[1..], y[1..], k - 1);
      assert OrderCmp(List(x), List(y)) == OrderCmp(List(x[1..]), List(y[1..]));
    }
  }

  /** Two maps' entries in key order, tying on the first `k`: then the smaller key, the smaller value
      under one key, or the smaller size. */
  lemma {:induction false} MapsInOrder(x: seq<Entry>, y: seq<Entry>, k: nat)
    requires k <= |x| && k <= |y| && TieBefore(x, y, k)
    ensures k < |x| && k < |y| && KeyAt(x, k) != KeyAt(y, k) ==>
              OrderCmp(Map(x), Map(y)) == if Smaller(KeyAt(x, k), KeyAt(y, k)) then -1 else 1
    ensures k < |x| && k < |y| && KeyAt(x, k) == KeyAt(y, k) && OrderCmp(ValAt(x, k), ValAt(y, k)) != 0 ==>
              OrderCmp(Map(x), Map(y)) == OrderCmp(ValAt(x, k), ValAt(y, k))
    ensures k == |x| < |y| ==> OrderCmp(Map(x), Map(y)) == -1
    ensures k == |y| < |x| ==> OrderCmp(Map(x), Map(y)) == 1
    ensures k == |x| == |y| ==> OrderCmp(Map(x), Map(y)) == 0
  {
    TiesPassed(x, y, 0, k);
    if k < |x| && k < |y| { StringSign(KeyAt(x, k), KeyAt(y, k)); }
  }

  function KeyAt(x: seq<Entry>, k: nat): Bytes
    requires k < |x|
  {
    x[KeySorted(x)[k]].key
  }

  function ValAt(x: seq<Entry>, k: nat): Value
    requires k < |x|
  {
    x[KeySorted(x)[k]].val
  }

  ghost predicate TieBefore(x: seq<Entry>, y: seq<Entry>, k: nat)
    requires k <= |x| && k <= |y|
  {
    forall j :: 0 <= j < k ==> KeyAt(x, j) == KeyAt(y, j) && OrderCmp(ValAt(x, j), ValAt(y, j)) == 0
  }

  lemma {:induction false} TiesPassed(x: seq<Entry>, y: seq<Entry>, i: nat, k: nat)
    requires i <= k <= |x| && k <= |y| && TieBefore(x, y, k)
    ensures MapCmp(x, KeySorted(x), y, KeySorted(y), i) == MapCmp(x, KeySorted(x), y, KeySorted(y), k)
    decreases k - i
  {
    if i < k {
      TiesPassed(x, y, i + 1, k);
      assert KeyAt(x, i) == KeyAt(y, i) && OrderCmp(ValAt(x, i), ValAt(y, i)) == 0;
      CmpStrSigns(KeyAt(x, i), KeyAt(y, i));
    }
  }

  /** In key order each key comes after the smaller ones, and every entry is there once. */
  lemma {:induction false} KeysInOrder(x: seq<Entry>, j: nat, k: nat)
    requires j < k < |x|
    ensures IsPerm(KeySorted(x)) && (Smaller(KeyAt(x, j), KeyAt(x, k)) || KeyAt(x, j) == KeyAt(x, k))
  {
    SortedPermutes(Keys(x), |x|);
    SortedAscends(Keys(x), |x|);
    StringSign(KeyAt(x, j), KeyAt(x, k));
  }

  // ---- the sign of Compare ---------------------------------------------------------------------------------------

  /** Integers by what they round to. */
  lemma {:induction false} IntegersCompare(i: int, j: int)
    requires InI64(i) && InI64(j)
    ensures Compare(Int(i), Int(j)) == if NearestInt(i) < NearestInt(j) then Is(-1) else if NearestInt(i) == NearestInt(j) then Is(0) else Is(1)
  {
    RoundedCompare(i, j, UNITS);
  }

  lemma {:induction false} RoundedCompare(i: int, j: int, u: nat)
    requires InI64(i) && InI64(j) && u == UNITS
    ensures Compare(Int(i), Int(j)) == if NearestInt(i) < NearestInt(j) then Is(-1) else if NearestInt(i) == NearestInt(j) then Is(0) else Is(1)
  {
    IntValue(i, u);
    IntValue(j, u);
    ValuesSign(ToF64(i), ToF64(j), NearestInt(i), NearestInt(j), Pow2(u));
    CompareOfInts(i, j);
  }

  lemma {:induction false} CompareOfInts(i: int, j: int)
    ensures Compare(Int(i), Int(j)) == CompareFloats(ToF64(i), ToF64(j))
  {
  }

  lemma {:induction false} ValuesSign(a: nat, b: nat, x: int, y: int, p: int)
    requires !IsNaN(a) && !IsNaN(b) && p > 0 && ValueOf(a) == x * p && ValueOf(b) == y * p
    ensures CompareFloats(a, b) == if x < y then Is(-1) else if x == y then Is(0) else Is(1)
  {
    ScaledSign(x, y, p);
    ScaledSign(y, x, p);
  }

  lemma {:induction false} ScaledSign(x: int, y: int, p: nat)
    requires p > 0
    ensures x < y <==> x * p < y * p
  {
    assert (y - x) * p == y * p - x * p;
  }

  /** Smaller integers never compare as greater. */
  lemma {:induction false} IntegersKeepOrder(i: int, j: int)
    requires InI64(i) && InI64(j) && i < j
    ensures Compare(Int(i), Int(j)) == Is(-1) || Compare(Int(i), Int(j)) == Is(0)
    ensures NearestInt(i) == i && NearestInt(j) == j ==> Compare(Int(i), Int(j)) == Is(-1)
  {
    IntegersCompare(i, j);
    RoundingKeepsOrder(i, j, UNITS);
  }

  lemma {:induction false} RoundingKeepsOrder(i: int, j: int, u: nat)
    requires InI64(i) && InI64(j) && i < j && u == UNITS
    ensures NearestInt(i) <= NearestInt(j)
  {
    ConversionAscends(i, j);
    TotalKeyIsTotalOrder(ToF64(i), ToF64(j));
    TotalKeyIsTotalOrder(ToF64(j), ToF64(i));
    IntValue(i, u);
    IntValue(j, u);
    NearestIsFinite(if i < 0 then -i else i);
    NearestIsFinite(if j < 0 then -j else j);
    ScaledSign(NearestInt(j), NearestInt(i), Pow2(u));
  }

  /** Floats by value, unless one is no number. */
  lemma {:induction false} FloatsCompare(x: nat, y: nat)
    requires IsF64(x) && IsF64(y)
    ensures Compare(Float(x), Float(y)) == Incomparable <==> IsNaN(x) || IsNaN(y)
    ensures Compare(Float(x), Float(y)) == Is(-1) <==> !IsNaN(x) && !IsNaN(y) && ValueOf(x) < ValueOf(y)
    ensures Compare(Float(x), Float(y)) == Is(1) <==> !IsNaN(x) && !IsNaN(y) && ValueOf(y) < ValueOf(x)
    ensures Compare(Float(x), Float(y)) == Is(0) <==> !IsNaN(x) && !IsNaN(y) && ValueOf(x) == ValueOf(y)
  {
  }

  /** An integer against a float: what it rounds to against the float's value. */
  lemma {:induction false} MixedCompare(i: int, y: nat, u: nat)
    requires InI64(i) && IsF64(y) && u == UNITS
    ensures Compare(Int(i), Float(y)) == Incomparable <==> IsNaN(y)
    ensures Compare(Int(i), Float(y)) == Is(-1) <==> !IsNaN(y) && NearestInt(i) * Pow2(u) < ValueOf(y)
    ensures Compare(Int(i), Float(y)) == Is(1) <==> !IsNaN(y) && NearestInt(i) * Pow2(u) > ValueOf(y)
  {
    IntValue(i, u);
  }

  /** Booleans, strings, ids and moments. */
  lemma {:induction false} SimpleCompare(s: Bytes, t: Bytes, x: nat, y: nat, m: int, a: nat, n: int, b: nat)
    ensures Compare(Bool(false), Bool(true)) == Is(-1) && Compare(Bool(true), Bool(false)) == Is(1)
    ensures Compare(Str(s), Str(t)) == if Smaller(s, t) then Is(-1) else if s == t then Is(0) else Is(1)
    ensures Compare(Node(x), Node(y)) == Compare(Rel(x), Rel(y)) == if x < y then Is(-1) else if x == y then Is(0) else Is(1)
    ensures Compare(Temporal(m, a), Temporal(n, b)) == Compare(Temporal(m, a), Int(n)) == Compare(Int(m), Temporal(n, b))
         == if m < n then Is(-1) else if m == n then Is(0) else Is(1)
  {
    StringSign(s, t);
  }

  /** Maps, paths and durations are equal or incomparable, and so is everything else of two kinds, null
      included, incomparable. */
  lemma {:induction false} NoOrderBetween(a: Value, b: Value)
    ensures a.Null? || b.Null? ==> Compare(a, b) == Incomparable
    ensures a.Map? || a.Path? || a.Duration? ==> Compare(a, b) == Is(0) || Compare(a, b) == Incomparable
    ensures !SameKind(a, b) && !(a.Temporal? && b.Int?) && !(a.Int? && b.Temporal?) ==> Compare(a, b) == Incomparable
  {
  }

  /** Lists equal on the first `k` elements: the next pair decides unless it is equal, and a list that
      ends there is less. */
  lemma {:induction false} ListsCompare(x: seq<Value>, y: seq<Value>, k: nat)
    requires k <= |x| && k <= |y| && forall j :: 0 <= j < k ==> Compare(x[j], y[j]) == Is(0)
    ensures k < |x| && k < |y| && Compare(x[k], y[k]) != Is(0) ==> Compare(List(x), List(y)) == Compare(x[k], y[k])
    ensures k == |x| < |y| ==> Compare(List(x), List(y)) == Is(-1)
    ensures k == |y| < |x| ==> Compare(List(x), List(y)) == Is(1)
    ensures k == |x| == |y| ==> Compare(List(x), List(y)) == Is(0)
    decreases k
  {
    if k > 0 {
      ListsCompare(x[1..], y[1..], k - 1);
      assert Compare(List(x), List(y)) == Compare(List(x[1..]), List(y[1..]));
    }
  }

  // ---- swapping the arguments --------------------------------------------------------------------------------------

  function Swapped(v: Verdict): Verdict {
    if v.Is? then Is(-v.c) else v
  }

  /** Map keys are distinct, at any depth. */
  ghost predicate Keyed(v: Value)
    decreases v
  {
    match v
    case List(items) => forall k :: 0 <= k < |items| ==> Keyed(items[k])
    case Map(entries) => DistinctKeys(entries) && forall k :: 0 <= k < |entries| ==> Keyed(entries[k].val)
    case _ => true
  }

  lemma {:induction false} ScalarsSwap(a: Value, b: Value)
    requires !(a.List? && b.List?) && !(a.Map? && b.Map?)
    ensures Compare(b, a) == Swapped(Compare(a, b))
  {
    if a.Str? && b.Str? { CmpStrSigns(a.s, b.s); }
  }

  /** Swapping the arguments turns the verdict round, at any depth. */
  lemma {:induction false} SwapTurnsRound(a: Value, b: Value)
    requires Keyed(a) && Keyed(b)
    ensures Compare(b, a) == Swapped(Compare(a, b))
    decreases a, 1
  {
    if a.List? && b.List? {
      ListsSwap(a.items, b.items);
    } else if a.Map? && b.Map? {
      MapsSwap(a, b);
    } else {
      ScalarsSwap(a, b);
    }
  }

  lemma {:induction false} ListsSwap(x: seq<Value>, y: seq<Value>)
    requires (forall k :: 0 <= k < |x| ==> Keyed(x[k])) && forall k :: 0 <= k < |y| ==> Keyed(y[k])
    ensures CompareItems(y, x) == Swapped(CompareItems(x, y))
    decreases x, 0
  {
    if x != [] && y != [] {
      SwapTurnsRound(x[0], y[0]);
      ListsSwap(x[1..], y[1..]);
    }
  }

  ghost predicate SwapAt(x: seq<Entry>, i: nat, y: seq<Entry>, j: nat) {
    i < |x| && j < |y| ==> (Equal(x[i].val, y[j].val) <==> Equal(y[j].val, x[i].val))
  }

  lemma {:induction false} MapsSwap(a: Value, b: Value)
    requires Keyed(a) && Keyed(b) && a.Map? && b.Map?
    ensures Compare(b, a) == Swapped(Compare(a, b))
    decreases a, 0
  {
    var x, y := a.entries, b.entries;
    forall i: nat, j: nat ensures SwapAt(x, i, y, j) {
      if i < |x| && j < |y| { SwapTurnsRound(x[i].val, y[j].val); }
    }
    forall j: nat, i: nat ensures SwapAt(y, j, x, i) {
      assert SwapAt(x, i, y, j);
    }
    if |x| == |y| {
      if AllFound(x, y, 0) { FoundBack(x, y); }
      if AllFound(y, x, 0) { FoundBack(y, x); }
    }
  }

  /** Found one way, found the other: as many entries, each with its own partner. */
  lemma {:induction false} FoundBack(x: seq<Entry>, y: seq<Entry>)
    requires |x| == |y| && DistinctKeys(x) && DistinctKeys(y) && AllFound(x, y, 0)
    requires forall i: nat, j: nat {:trigger SwapAt(x, i, y, j)} :: SwapAt(x, i, y, j)
    ensures AllFound(y, x, 0)
  {
    var m := Partners(x, y);
    forall i | 0 <= i < |x| ensures m[i] < |y| && y[m[i]].key == x[i].key {
      FoundEverywhere(x, y, 0, i);
    }
    PartnersPermute(x, y, m);
    forall j: nat ensures FoundAt(y, x, j) {
      if j < |y| {
        var i := IndexOf(m, j);
        FoundEverywhere(x, y, 0, i);
        OnlyWith(x, y[j].key, i);
        assert SwapAt(x, i, y, j);
      }
    }
    EverywhereFound(y, x, 0);
  }

  lemma {:induction false} PartnersPermute(x: seq<Entry>, y: seq<Entry>, m: seq<nat>)
    requires DistinctKeys(x) && |x| == |y| == |m| && forall i :: 0 <= i < |x| ==> m[i] < |y| && y[m[i]].key == x[i].key
    ensures IsPerm(m)
  {
    forall i, j | 0 <= i < j < |m| ensures m[i] != m[j] {
      assert x[i].key != x[j].key;
    }
  }
}
