/** The canonical byte encoding of a value for grouping, and exactly when two values share it. */
module GroupKey {
  import opened StableSort
  import opened Powers
  import opened Floats
  import opened Values

  const TWO32: nat := 0x1_0000_0000

  // ---- fixed-width integers ----------------------------------------------------------------------------

  /** The low `w` bytes of `n`, most significant first. */
  function BigEndian(n: nat, w: nat): (b: Bytes)
    ensures |b| == w
  {
    if w == 0 then [] else BigEndian(n / 256, w - 1) + [n % 256]
  }

  lemma {:induction false} BigEndianUnique(m: nat, n: nat, w: nat)
    requires m < Pow256(w) && n < Pow256(w) && BigEndian(m, w) == BigEndian(n, w)
    ensures m == n
  {
    if w > 0 {
      var a, b := BigEndian(m, w), BigEndian(n, w);
      assert BigEndian(m / 256, w - 1) == a[..w - 1] == b[..w - 1] == BigEndian(n / 256, w - 1);
      assert a[w - 1] == b[w - 1];
      BigEndianUnique(m / 256, n / 256, w - 1);
    }
  }

  lemma Widths()
    ensures Pow256(4) == TWO32 && Pow256(8) == TWO64
  {
    assert Pow256(4) == 256 * 256 * 256 * 256;
    assert Pow256(8) == 256 * 256 * 256 * 256 * Pow256(4);
  }

  predicate InI64(i: int) {
    0 - TWO63 <= i < TWO63
  }

  /** Two's complement. */
  function U64(i: int): (u: nat)
    requires InI64(i)
    ensures u < TWO64
  {
    if i < 0 then i + TWO64 else i
  }

  // ---- the encoding --------------------------------------------------------------------------------------

  /** Lengths and ids fit 32 bits, integers and floats 64. */
  ghost predicate Encodable(v: Value)
    decreases v
  {
    match v
    case Null => true
    case Bool(_) => true
    case Int(i) => InI64(i)
    case Float(bits) => IsF64(bits)
    case Str(s) => |s| < TWO32
    case List(items) => |items| < TWO32 && forall k :: 0 <= k < |items| ==> Encodable(items[k])
    case Node(id) => id < TWO32
    case Rel(pos) => pos < TWO32
    case Path(nodes, rels) => IdList(nodes) && IdList(rels)
    case Map(entries) =>
      |entries| < TWO32 && forall k :: 0 <= k < |entries| ==> |entries[k].key| < TWO32 && Encodable(entries[k].val)
    case Temporal(millis, aux) => InI64(millis) && aux < 256
    case Duration(months, days, ms) => InI64(months) && InI64(days) && InI64(ms)
  }

  ghost predicate IdList(ids: seq<nat>) {
    |ids| < TWO32 && forall k :: 0 <= k < |ids| ==> ids[k] < TWO32
  }

  /** An integral float takes the integer's tag. */
  function Tag(v: Value): Byte {
    match v
    case Null => 0
    case Bool(_) => 1
    case Int(_) => 2
    case Float(bits) => if IsInt64(bits) then 2 else 3
    case Str(_) => 4
    case List(_) => 5
    case Node(_) => 6
    case Rel(_) => 7
    case Path(_, _) => 8
    case Map(_) => 9
    case Temporal(_, _) => 10
    case Duration(_, _, _) => 11
  }

  function Encode(v: Value): Bytes
    requires Encodable(v)
    decreases v, 1
  {
    [Tag(v)] + Body(v)
  }

  function Body(v: Value): Bytes
    requires Encodable(v)
    decreases v, 0
  {
    match v
    case Null => []
    case Bool(b) => [if b then 1 else 0]
    case Int(i) => BigEndian(U64(i), 8)
    case Float(bits) => if IsInt64(bits) then BigEndian(U64(IntPart(bits)), 8) else BigEndian(bits, 8)
    case Str(s) => BigEndian(|s|, 4) + s
    case List(items) => BigEndian(|items|, 4) + Items(items)
    case Node(id) => BigEndian(id, 4)
    case Rel(pos) => BigEndian(pos, 4)
    case Path(nodes, rels) => BigEndian(|nodes|, 4) + (IdBytes(nodes) + (BigEndian(|rels|, 4) + IdBytes(rels)))
    case Map(entries) => BigEndian(|entries|, 4) + Entries(entries, KeySorted(entries), 0)
    case Temporal(millis, aux) => BigEndian(U64(millis), 8) + [aux]
    case Duration(months, days, ms) =>
      BigEndian(U64(months), 8) + (BigEndian(U64(days), 8) + BigEndian(U64(ms), 8))
  }

  function Items(items: seq<Value>): Bytes
    requires forall k :: 0 <= k < |items| ==> Encodable(items[k])
    decreases items, 0
  {
    if items == [] then [] else Encode(items[0]) + Items(items[1..])
  }

  function IdBytes(ids: seq<nat>): Bytes {
    if ids == [] then [] else BigEndian(ids[0], 4) + IdBytes(ids[1..])
  }

  function Entries(entries: seq<Entry>, idx: seq<nat>, k: nat): Bytes
    requires forall j :: 0 <= j < |entries| ==> Encodable(entries[j].val)
    requires |idx| == |entries| && k <= |entries| && forall j :: 0 <= j < |idx| ==> idx[j] < |entries|
    decreases entries, |entries| - k
  {
    if k == |entries| then []
    else
      var e := entries[idx[k]];
      BigEndian(|e.key|, 4) + (e.key + (Encode(e.val) + Entries(entries, idx, k + 1)))
  }

  // ---- the canonical value ---------------------------------------------------------------------------------

  /** Integral floats become integers, and map entries go in key order. */
  function Canon(v: Value): Value
    decreases v, 0
  {
    match v
    case Float(bits) => if IsInt64(bits) then Int(IntPart(bits)) else v
    case List(items) => List(CanonItems(items))
    case Map(entries) => Map(CanonEntries(entries, KeySorted(entries), 0))
    case _ => v
  }

  function CanonItems(items: seq<Value>): (r: seq<Value>)
    ensures |r| == |items|
    decreases items, 0
  {
    if items == [] then [] else [Canon(items[0])] + CanonItems(items[1..])
  }

  function CanonEntries(entries: seq<Entry>, idx: seq<nat>, k: nat): (r: seq<Entry>)
    requires |idx| == |entries| && k <= |entries| && forall j :: 0 <= j < |idx| ==> idx[j] < |entries|
    ensures |r| == |entries| - k
    decreases entries, |entries| - k
  {
    if k == |entries| then []
    else
      var e := entries[idx[k]];
      [Entry(e.key, Canon(e.val))] + CanonEntries(entries, idx, k + 1)
  }

  // ---- equal encodings ---------------------------------------------------------------------------------

  lemma SplitEqual(p: Bytes, x: Bytes, q: Bytes, y: Bytes)
    requires |p| == |q| && p + x == q + y
    ensures p == q && x == y
  {
    assert p == (p + x)[..|p|] && q == (q + y)[..|q|];
    assert x == (p + x)[|p|..] && y == (q + y)[|q|..];
  }

  lemma Regroup(p: Bytes, q: Bytes, r: Bytes)
    ensures (p + q) + r == p + (q + r)
  {
  }

  lemma SplitWord(m: nat, x: Bytes, n: nat, y: Bytes, w: nat)
    requires m < Pow256(w) && n < Pow256(w) && BigEndian(m, w) + x == BigEndian(n, w) + y
    ensures m == n && x == y
  {
    SplitEqual(BigEndian(m, w), x, BigEndian(n, w), y);
    BigEndianUnique(m, n, w);
  }

  lemma {:induction false} SplitIds(a: seq<nat>, x: Bytes, b: seq<nat>, y: Bytes)
    requires |a| == |b| && (forall k :: 0 <= k < |a| ==> a[k] < TWO32) && forall k :: 0 <= k < |b| ==> b[k] < TWO32
    requires IdBytes(a) + x == IdBytes(b) + y
    ensures a == b && x == y
  {
    if a != [] {
      Widths();
      assert IdBytes(a) + x == BigEndian(a[0], 4) + (IdBytes(a[1..]) + x);
      assert IdBytes(b) + y == BigEndian(b[0], 4) + (IdBytes(b[1..]) + y);
      SplitWord(a[0], IdBytes(a[1..]) + x, b[0], IdBytes(b[1..]) + y, 4);
      SplitIds(a[1..], x, b[1..], y);
      assert a == [a[0]] + a[1..] && b == [b[0]] + b[1..];
    } else {
      SplitEqual([], x, [], y);
    }
  }

  /** Prefix-free: where two encodings begin one byte string, they are the encodings of one canonical
      value and end together. */
  lemma {:induction false} PrefixFree(a: Value, x: Bytes, b: Value, y: Bytes)
    requires Encodable(a) && Encodable(b) && Encode(a) + x == Encode(b) + y
    ensures Canon(a) == Canon(b) && x == y
    decreases a, 2
  {
    Regroup([Tag(a)], Body(a), x);
    Regroup([Tag(b)], Body(b), y);
    SplitEqual([Tag(a)], Body(a) + x, [Tag(b)], Body(b) + y);
    BodyPrefixFree(a, x, b, y);
  }

  lemma {:induction false} BodyPrefixFree(a: Value, x: Bytes, b: Value, y: Bytes)
    requires Encodable(a) && Encodable(b) && Tag(a) == Tag(b) && Body(a) + x == Body(b) + y
    ensures Canon(a) == Canon(b) && x == y
    decreases a, 1
  {
    Widths();
    match a
    case Null => assert Body(a) + x == x && Body(b) + y == y;
    case Bool(_) => SplitEqual(Body(a), x, Body(b), y);
    case Int(i) => NumberPrefixFree(a, x, b, y);
    case Float(bits) => NumberPrefixFree(a, x, b, y);
    case Str(s) => StrPrefixFree(s, x, b.s, y);
    case List(items) => ListPrefixFree(items, x, b.items, y);
    case Node(id) => SplitWord(id, x, b.id, y, 4);
    case Rel(pos) => SplitWord(pos, x, b.pos, y, 4);
    case Path(nodes, rels) => PathPrefixFree(nodes, rels, x, b.nodes, b.rels, y);
    case Map(entries) => MapPrefixFree(entries, x, b.entries, y);
    case Temporal(millis, aux) => TemporalPrefixFree(millis, aux, x, b.millis, b.aux, y);
    case Duration(_, _, _) => DurationPrefixFree(a, x, b, y);
  }

  lemma SameU64(i: int, j: int)
    requires InI64(i) && InI64(j) && U64(i) == U64(j)
    ensures i == j
  {
  }

  lemma NumberPrefixFree(a: Value, x: Bytes, b: Value, y: Bytes)
    requires (a.Int? || a.Float?) && (b.Int? || b.Float?)
    requires Encodable(a) && Encodable(b) && Tag(a) == Tag(b) && Body(a) + x == Body(b) + y
    ensures Canon(a) == Canon(b) && x == y
  {
    Widths();
    if Tag(a) == 2 {
      var i, j := Canon(a).i, Canon(b).i;
      SplitWord(U64(i), x, U64(j), y, 8);
      SameU64(i, j);
    } else {
      SplitWord(a.bits, x, b.bits, y, 8);
    }
  }

  lemma StrPrefixFree(s: Bytes, x: Bytes, t: Bytes, y: Bytes)
    requires |s| < TWO32 && |t| < TWO32 && (BigEndian(|s|, 4) + s) + x == (BigEndian(|t|, 4) + t) + y
    ensures s == t && x == y
  {
    Widths();
    Regroup(BigEndian(|s|, 4), s, x);
    Regroup(BigEndian(|t|, 4), t, y);
    SplitWord(|s|, s + x, |t|, t + y, 4);
    SplitEqual(s, x, t, y);
  }

  lemma PathThen(ns: seq<nat>, rs: seq<nat>, x: Bytes)
    requires IdList(ns) && IdList(rs)
    ensures Body(Path(ns, rs)) + x == BigEndian(|ns|, 4) + (IdBytes(ns) + (BigEndian(|rs|, 4) + (IdBytes(rs) + x)))
  {
    var n, m := BigEndian(|ns|, 4), BigEndian(|rs|, 4);
    Regroup(n, IdBytes(ns) + (m + IdBytes(rs)), x);
    Regroup(IdBytes(ns), m + IdBytes(rs), x);
    Regroup(m, IdBytes(rs), x);
  }

  lemma PathPrefixFree(ns: seq<nat>, rs: seq<nat>, x: Bytes, ms: seq<nat>, qs: seq<nat>, y: Bytes)
    requires IdList(ns) && IdList(rs) && IdList(ms) && IdList(qs)
    requires Body(Path(ns, rs)) + x == Body(Path(ms, qs)) + y
    ensures ns == ms && rs == qs && x == y
  {
    Widths();
    var rx, qy := IdBytes(rs) + x, IdBytes(qs) + y;
    PathThen(ns, rs, x);
    PathThen(ms, qs, y);
    SplitWord(|ns|, IdBytes(ns) + (BigEndian(|rs|, 4) + rx), |ms|, IdBytes(ms) + (BigEndian(|qs|, 4) + qy), 4);
    SplitIds(ns, BigEndian(|rs|, 4) + rx, ms, BigEndian(|qs|, 4) + qy);
    SplitWord(|rs|, rx, |qs|, qy, 4);
    SplitIds(rs, x, qs, y);
  }

  lemma TemporalPrefixFree(m: int, aux: nat, x: Bytes, n: int, bux: nat, y: Bytes)
    requires InI64(m) && InI64(n) && aux < 256 && bux < 256
    requires Body(Temporal(m, aux)) + x == Body(Temporal(n, bux)) + y
    ensures m == n && aux == bux && x == y
  {
    Widths();
    assert Body(Temporal(m, aux)) + x == BigEndian(U64(m), 8) + ([aux] + x);
    assert Body(Temporal(n, bux)) + y == BigEndian(U64(n), 8) + ([bux] + y);
    SplitWord(U64(m), [aux] + x, U64(n), [bux] + y, 8);
    SplitEqual([aux], x, [bux], y);
    SameU64(m, n);
  }

  lemma DurationPrefixFree(a: Value, x: Bytes, b: Value, y: Bytes)
    requires a.Duration? && b.Duration? && Encodable(a) && Encodable(b) && Body(a) + x == Body(b) + y
    ensures a == b && x == y
  {
    Widths();
    var am, ad, az := BigEndian(U64(a.months), 8), BigEndian(U64(a.days), 8), BigEndian(U64(a.ms), 8);
    var bm, bd, bz := BigEndian(U64(b.months), 8), BigEndian(U64(b.days), 8), BigEndian(U64(b.ms), 8);
    assert Body(a) + x == am + (ad + (az + x));
    assert Body(b) + y == bm + (bd + (bz + y));
    SplitWord(U64(a.months), ad + (az + x), U64(b.months), bd + (bz + y), 8);
    SplitWord(U64(a.days), az + x, U64(b.days), bz + y, 8);
    SplitWord(U64(a.ms), x, U64(b.ms), y, 8);
    SameU64(a.months, b.months);
    SameU64(a.days, b.days);
    SameU64(a.ms, b.ms);
  }

  lemma {:induction false} ListPrefixFree(s: seq<Value>, x: Bytes, t: seq<Value>, y: Bytes)
    requires Encodable(List(s)) && Encodable(List(t)) && Body(List(s)) + x == Body(List(t)) + y
    ensures CanonItems(s) == CanonItems(t) && x == y
    decreases s, 1
  {
    Widths();
    Regroup(BigEndian(|s|, 4), Items(s), x);
    Regroup(BigEndian(|t|, 4), Items(t), y);
    SplitWord(|s|, Items(s) + x, |t|, Items(t) + y, 4);
    ItemsPrefixFree(s, x, t, y);
  }

  lemma {:induction false} ItemsPrefixFree(s: seq<Value>, x: Bytes, t: seq<Value>, y: Bytes)
    requires |s| == |t| && (forall k :: 0 <= k < |s| ==> Encodable(s[k])) && forall k :: 0 <= k < |t| ==> Encodable(t[k])
    requires Items(s) + x == Items(t) + y
    ensures CanonItems(s) == CanonItems(t) && x == y
    decreases s, 0
  {
    if s != [] {
      assert Items(s) + x == Encode(s[0]) + (Items(s[1..]) + x);
      assert Items(t) + y == Encode(t[0]) + (Items(t[1..]) + y);
      PrefixFree(s[0], Items(s[1..]) + x, t[0], Items(t[1..]) + y);
      ItemsPrefixFree(s[1..], x, t[1..], y);
    } else {
      SplitEqual([], x, [], y);
    }
  }

  lemma {:induction false} MapPrefixFree(e: seq<Entry>, x: Bytes, f: seq<Entry>, y: Bytes)
    requires Encodable(Map(e)) && Encodable(Map(f)) && Body(Map(e)) + x == Body(Map(f)) + y
    ensures Canon(Map(e)) == Canon(Map(f)) && x == y
    decreases e, |e| + 1
  {
    Widths();
    var es, fs := Entries(e, KeySorted(e), 0), Entries(f, KeySorted(f), 0);
    Regroup(BigEndian(|e|, 4), es, x);
    Regroup(BigEndian(|f|, 4), fs, y);
    SplitWord(|e|, es + x, |f|, fs + y, 4);
    EntriesPrefixFree(e, KeySorted(e), x, f, KeySorted(f), y, 0);
  }

  lemma EntryThen(p: Entry, rest: Bytes, x: Bytes)
    requires Encodable(p.val)
    ensures (BigEndian(|p.key|, 4) + (p.key + (Encode(p.val) + rest))) + x
         == BigEndian(|p.key|, 4) + (p.key + (Encode(p.val) + (rest + x)))
  {
    var n, v := BigEndian(|p.key|, 4), Encode(p.val);
    Regroup(n, p.key + (v + rest), x);
    Regroup(p.key, v + rest, x);
    Regroup(v, rest, x);
  }

  lemma {:induction false} EntriesPrefixFree(e: seq<Entry>, ei: seq<nat>, x: Bytes, f: seq<Entry>, fi: seq<nat>, y: Bytes, k: nat)
    requires Encodable(Map(e)) && Encodable(Map(f)) && |e| == |f| == |ei| == |fi| && k <= |e|
    requires (forall j :: 0 <= j < |ei| ==> ei[j] < |e|) && forall j :: 0 <= j < |fi| ==> fi[j] < |f|
    requires Entries(e, ei, k) + x == Entries(f, fi, k) + y
    ensures CanonEntries(e, ei, k) == CanonEntries(f, fi, k) && x == y
    decreases e, |e| - k
  {
    if k < |e| {
      Widths();
      var p, q := e[ei[k]], f[fi[k]];
      var xs, ys := Entries(e, ei, k + 1) + x, Entries(f, fi, k + 1) + y;
      EntryThen(p, Entries(e, ei, k + 1), x);
      EntryThen(q, Entries(f, fi, k + 1), y);
      SplitWord(|p.key|, p.key + (Encode(p.val) + xs), |q.key|, q.key + (Encode(q.val) + ys), 4);
      SplitEqual(p.key, Encode(p.val) + xs, q.key, Encode(q.val) + ys);
      PrefixFree(p.val, xs, q.val, ys);
      EntriesPrefixFree(e, ei, x, f, fi, y, k + 1);
    } else {
      SplitEqual([], x, [], y);
    }
  }

  // ---- equal canonical values --------------------------------------------------------------------------

  lemma {:induction false} SameCanonSameKey(a: Value, b: Value)
    requires Encodable(a) && Encodable(b) && Canon(a) == Canon(b)
    ensures Encode(a) == Encode(b)
    decreases a, 1
  {
    match a
    case List(items) => SameItems(items, b.items);
    case Map(entries) => SameEntries(entries, KeySorted(entries), b.entries, KeySorted(b.entries), 0);
    case _ =>
  }

  lemma {:induction false} SameItems(s: seq<Value>, t: seq<Value>)
    requires (forall k :: 0 <= k < |s| ==> Encodable(s[k])) && forall k :: 0 <= k < |t| ==> Encodable(t[k])
    requires CanonItems(s) == CanonItems(t)
    ensures |s| == |t| && Items(s) == Items(t)
    decreases s, 0
  {
    assert |s| == |CanonItems(s)| == |CanonItems(t)| == |t|;
    if s != [] {
      assert CanonItems(s)[1..] == CanonItems(s[1..]) && CanonItems(t)[1..] == CanonItems(t[1..]);
      assert CanonItems(s)[0] == Canon(s[0]) && CanonItems(t)[0] == Canon(t[0]);
      SameCanonSameKey(s[0], t[0]);
      SameItems(s[1..], t[1..]);
    }
  }

  lemma {:induction false} SameEntries(e: seq<Entry>, ei: seq<nat>, f: seq<Entry>, fi: seq<nat>, k: nat)
    requires Encodable(Map(e)) && Encodable(Map(f)) && |ei| == |e| && |fi| == |f| && k <= |e| && k <= |f|
    requires (forall j :: 0 <= j < |ei| ==> ei[j] < |e|) && forall j :: 0 <= j < |fi| ==> fi[j] < |f|
    requires CanonEntries(e, ei, k) == CanonEntries(f, fi, k)
    ensures |e| == |f| && Entries(e, ei, k) == Entries(f, fi, k)
    decreases e, |e| - k
  {
    assert |e| - k == |CanonEntries(e, ei, k)| == |CanonEntries(f, fi, k)| == |f| - k;
    if k < |e| {
      var x, y := CanonEntries(e, ei, k), CanonEntries(f, fi, k);
      assert x[0] == y[0] && x[1..] == CanonEntries(e, ei, k + 1) && y[1..] == CanonEntries(f, fi, k + 1);
      SameCanonSameKey(e[ei[k]].val, f[fi[k]].val);
      SameEntries(e, ei, f, fi, k + 1);
    }
  }

  /** Two values are one group key exactly when they are one canonical value. */
  lemma KeysAreCanonical(a: Value, b: Value)
    requires Encodable(a) && Encodable(b)
    ensures Encode(a) == Encode(b) <==> Canon(a) == Canon(b)
  {
    if Encode(a) == Encode(b) {
      assert Encode(a) + [] == Encode(b) + [];
      PrefixFree(a, [], b, []);
    }
    if Canon(a) == Canon(b) { SameCanonSameKey(a, b); }
  }

  /** The two spellings of a number are one group, and nothing else is grouped with it. */
  lemma NumbersGroupByValue(bits: nat, i: int)
    requires IsF64(bits) && InI64(i)
    ensures Encode(Float(bits)) == Encode(Int(i)) <==> IsInt64(bits) && IntPart(bits) == i
  {
    KeysAreCanonical(Float(bits), Int(i));
  }

  lemma ZerosAreInts(x: nat)
    ensures Magnitude(x) == 0 ==> IsInt64(x) && IntPart(x) == 0
  {
    assert Scaled(0) == 0;
  }

  /** Two floats group when they are one float or the two zeros. */
  lemma FloatsGroup(x: nat, y: nat)
    requires IsF64(x) && IsF64(y)
    ensures Encode(Float(x)) == Encode(Float(y)) <==> x == y || (Magnitude(x) == 0 && Magnitude(y) == 0)
  {
    KeysAreCanonical(Float(x), Float(y));
    ZerosAreInts(x);
    ZerosAreInts(y);
    if IsInt64(x) && IsInt64(y) && IntPart(x) == IntPart(y) { SameIntSameFloat(x, y); }
  }

  lemma {:induction false} CanonEntriesAgree(e: seq<Entry>, ei: seq<nat>, f: seq<Entry>, fi: seq<nat>, k: nat)
    requires |e| == |f| == |ei| == |fi| && k <= |e|
    requires forall j :: 0 <= j < |e| ==> ei[j] < |e| && fi[j] < |f| && e[ei[j]] == f[fi[j]]
    ensures CanonEntries(e, ei, k) == CanonEntries(f, fi, k)
    decreases |e| - k
  {
    if k < |e| { CanonEntriesAgree(e, ei, f, fi, k + 1); }
  }

  /** Insertion order does not split groups. */
  lemma InsertionOrderGroups(e: seq<Entry>, f: seq<Entry>, s: seq<nat>)
    requires Reorders(e, f, s) && DistinctKeys(e) && Encodable(Map(e)) && Encodable(Map(f))
    ensures Encode(Map(e)) == Encode(Map(f))
  {
    SortForgetsInsertion(e, f, s);
    CanonEntriesAgree(e, KeySorted(e), f, KeySorted(f), 0);
    SameCanonSameKey(Map(e), Map(f));
  }

  // ---- the appending loops -----------------------------------------------------------------------------

  /** Appends the encoding of `v` to `b`. */
  method AppendKey(b: Bytes, v: Value) returns (r: Bytes)
    requires Encodable(v)
    ensures r == b + Encode(v)
    decreases v, 0
  {
    r := b + [Tag(v)];
    if v.List? {
      r := AppendItems(r + BigEndian(|v.items|, 4), v.items);
      Regroup(b + [Tag(v)], BigEndian(|v.items|, 4), Items(v.items));
    } else if v.Path? {
      r := AppendPath(r, v.nodes, v.rels);
    } else if v.Map? {
      r := AppendEntries(r + BigEndian(|v.entries|, 4), v.entries);
      Regroup(b + [Tag(v)], BigEndian(|v.entries|, 4), Entries(v.entries, KeySorted(v.entries), 0));
    } else {
      r := r + Body(v);
    }
    Regroup(b, [Tag(v)], Body(v));
  }

  method AppendPath(b: Bytes, nodes: seq<nat>, rels: seq<nat>) returns (r: Bytes)
    ensures r == b + (BigEndian(|nodes|, 4) + (IdBytes(nodes) + (BigEndian(|rels|, 4) + IdBytes(rels))))
  {
    var n, m := BigEndian(|nodes|, 4), BigEndian(|rels|, 4);
    r := AppendIds(b + n, nodes);
    r := AppendIds(r + m, rels);
    Regroup(b + n + IdBytes(nodes), m, IdBytes(rels));
    Regroup(b + n, IdBytes(nodes), m + IdBytes(rels));
    Regroup(b, n, IdBytes(nodes) + (m + IdBytes(rels)));
  }

  method AppendItems(b: Bytes, items: seq<Value>) returns (r: Bytes)
    requires forall k :: 0 <= k < |items| ==> Encodable(items[k])
    ensures r == b + Items(items)
    decreases items, 0
  {
    r := b;
    for k := 0 to |items|
      invariant r + Items(items[k..]) == b + Items(items)
    {
      assert items[k..][0] == items[k] && items[k..][1..] == items[k + 1..];
      Regroup(r, Encode(items[k]), Items(items[k + 1..]));
      r := AppendKey(r, items[k]);
    }
    assert r + Items(items[|items|..]) == r;
  }

  method AppendIds(b: Bytes, ids: seq<nat>) returns (r: Bytes)
    ensures r == b + IdBytes(ids)
  {
    r := b;
    for k := 0 to |ids|
      invariant r + IdBytes(ids[k..]) == b + IdBytes(ids)
    {
      assert ids[k..][0] == ids[k] && ids[k..][1..] == ids[k + 1..];
      Regroup(r, BigEndian(ids[k], 4), IdBytes(ids[k + 1..]));
      r := r + BigEndian(ids[k], 4);
    }
    assert r + IdBytes(ids[|ids|..]) == r;
  }

  method AppendEntries(b: Bytes, entries: seq<Entry>) returns (r: Bytes)
    requires forall j :: 0 <= j < |entries| ==> Encodable(entries[j].val)
    ensures r == b + Entries(entries, KeySorted(entries), 0)
    decreases entries, 0
  {
    var idx := KeySorted(entries);
    r := b;
    for k := 0 to |entries|
      invariant r + Entries(entries, idx, k) == b + Entries(entries, idx, 0)
    {
      var e := entries[idx[k]];
      EntryAppended(r, e, Entries(entries, idx, k + 1));
      r := AppendKey(r + BigEndian(|e.key|, 4) + e.key, e.val);
    }
    assert r + Entries(entries, idx, |entries|) == r;
  }

  lemma EntryAppended(r: Bytes, e: Entry, rest: Bytes)
    requires Encodable(e.val)
    ensures r + (BigEndian(|e.key|, 4) + (e.key + (Encode(e.val) + rest)))
         == (r + BigEndian(|e.key|, 4) + e.key + Encode(e.val)) + rest
  {
    var n, v := BigEndian(|e.key|, 4), Encode(e.val);
    Regroup(r + n + e.key, v, rest);
    Regroup(r + n, e.key, v + rest);
    Regroup(r, n, e.key + (v + rest));
  }
}
