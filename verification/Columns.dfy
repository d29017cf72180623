/** Property columns: staged pairs resolved last-write-wins and stored in whichever layout the
    sizes select. Values travel as their 64-bit payloads: the integer itself, a float's bit
    pattern, 0/1 for a boolean, an atom id for a string. */
module Columns {
  import opened StableSort
  import opened Powers

  datatype Kind = I64 | F64 | Bool | Str

  /** One staged write: a position and a payload. */
  datatype Pair = Pair(id: nat, val: int)

  datatype Option<T> = None | Some(value: T)

  // ---- last write wins ---------------------------------------------------------------------

  /** The reference meaning of a staged list: at each position, the newest write. */
  function LastWrites(pairs: seq<Pair>): map<nat, int> {
    if pairs == [] then map[]
    else LastWrites(pairs[..|pairs| - 1])[pairs[|pairs| - 1].id := pairs[|pairs| - 1].val]
  }

  ghost predicate Ascending(es: seq<Pair>) {
    forall i, j :: 0 <= i < j < |es| ==> es[i].id < es[j].id
  }

  ghost predicate SortedById(es: seq<Pair>) {
    forall i, j :: 0 <= i < j < |es| ==> es[i].id <= es[j].id
  }

  ghost predicate InSpan(pairs: seq<Pair>, span: nat) {
    forall i :: 0 <= i < |pairs| ==> pairs[i].id < span
  }

  /** Stable insertion by position: after every pair at or below it. */
  function Insert(s: seq<Pair>, p: Pair): seq<Pair> {
    if s == [] || s[|s| - 1].id <= p.id then s + [p]
    else Insert(s[..|s| - 1], p) + [s[|s| - 1]]
  }

  /** The stable sort by position. */
  function SortById(pairs: seq<Pair>): seq<Pair> {
    if pairs == [] then [] else Insert(SortById(pairs[..|pairs| - 1]), pairs[|pairs| - 1])
  }

  /** The first `i` pairs without those that a later pair for the same position follows. */
  function KeepUpTo(s: seq<Pair>, i: nat): seq<Pair>
    requires i <= |s|
  {
    if i == 0 then []
    else KeepUpTo(s, i - 1) + if i < |s| && s[i].id == s[i - 1].id then [] else [s[i - 1]]
  }

  /** Staged pairs as the column builders see them: one pair per position, ascending. */
  function Canon(pairs: seq<Pair>): seq<Pair> {
    var s := SortById(pairs);
    KeepUpTo(s, |s|)
  }

  lemma {:induction false} InsertHolds(s: seq<Pair>, p: Pair, x: Pair)
    ensures x in Insert(s, p) <==> x in s || x == p
  {
    if s != [] && s[|s| - 1].id > p.id {
      InsertHolds(s[..|s| - 1], p, x);
      assert s == s[..|s| - 1] + [s[|s| - 1]];
    }
  }

  lemma {:induction false} InsertSorts(s: seq<Pair>, p: Pair)
    requires SortedById(s)
    ensures SortedById(Insert(s, p))
  {
    if s != [] && s[|s| - 1].id > p.id {
      var init := s[..|s| - 1];
      InsertSorts(init, p);
      var r := Insert(init, p);
      forall i | 0 <= i < |r| ensures r[i].id <= s[|s| - 1].id {
        InsertHolds(init, p, r[i]);
      }
    }
  }

  lemma {:induction false} InsertKeepsWrites(s: seq<Pair>, p: Pair)
    requires SortedById(s)
    ensures LastWrites(Insert(s, p)) == LastWrites(s)[p.id := p.val]
  {
    if s == [] || s[|s| - 1].id <= p.id {
      assert (s + [p])[..|s|] == s;
    } else {
      var init, last := s[..|s| - 1], s[|s| - 1];
      InsertKeepsWrites(init, p);
      assert (Insert(init, p) + [last])[..|Insert(init, p)|] == Insert(init, p);
    }
  }

  lemma {:induction false} SortKeepsWrites(pairs: seq<Pair>)
    ensures SortedById(SortById(pairs)) && LastWrites(SortById(pairs)) == LastWrites(pairs)
    ensures forall x :: x in SortById(pairs) ==> x in pairs
  {
    if pairs != [] {
      var init := pairs[..|pairs| - 1];
      SortKeepsWrites(init);
      InsertSorts(SortById(init), pairs[|pairs| - 1]);
      InsertKeepsWrites(SortById(init), pairs[|pairs| - 1]);
      forall x | x in SortById(pairs) ensures x in pairs {
        InsertHolds(SortById(init), pairs[|pairs| - 1], x);
      }
    }
  }

  /** The next pair writes the same position again. */
  predicate Superseded(s: seq<Pair>, i: nat) {
    0 < i < |s| && s[i].id == s[i - 1].id
  }

  lemma {:induction false} KeepAscends(s: seq<Pair>, i: nat)
    requires SortedById(s) && i <= |s|
    ensures Ascending(KeepUpTo(s, i))
    ensures forall x :: x in KeepUpTo(s, i) ==> i > 0 && x in s && x.id <= s[i - 1].id
    ensures Superseded(s, i) ==> forall x :: x in KeepUpTo(s, i) ==> x.id < s[i].id
  {
    if i > 0 {
      KeepAscends(s, i - 1);
      var k := KeepUpTo(s, i - 1);
      assert forall x :: x in k ==> x.id < s[i - 1].id;
      assert forall a :: 0 <= a < |k| ==> k[a] in k;
    }
  }

  /** What `KeepUpTo` still owes: a position whose newest write lies ahead. */
  lemma {:induction false} KeepsWrites(s: seq<Pair>, i: nat)
    requires SortedById(s) && i <= |s|
    ensures Superseded(s, i) ==> LastWrites(s[..i]) == LastWrites(KeepUpTo(s, i))[s[i].id := s[i - 1].val]
    ensures !Superseded(s, i) ==> LastWrites(s[..i]) == LastWrites(KeepUpTo(s, i))
  {
    if i > 0 {
      KeepsWrites(s, i - 1);
      var k := KeepUpTo(s, i - 1);
      assert s[..i][..i - 1] == s[..i - 1];
      assert (k + [s[i - 1]])[..|k|] == k;
      assert Superseded(s, i) ==> KeepUpTo(s, i) == k;
    }
  }

  /** The canonical list has one pair per written position, ascending, holding its newest write. */
  lemma {:induction false} CanonIsLastWrites(pairs: seq<Pair>)
    ensures Ascending(Canon(pairs)) && LastWrites(Canon(pairs)) == LastWrites(pairs)
    ensures forall x :: x in Canon(pairs) ==> x in pairs
  {
    var s := SortById(pairs);
    SortKeepsWrites(pairs);
    KeepAscends(s, |s|);
    KeepsWrites(s, |s|);
    assert s[..|s|] == s;
  }

  lemma {:induction false} SortedIsFixed(es: seq<Pair>)
    requires SortedById(es)
    ensures SortById(es) == es
  {
    if es != [] {
      SortedIsFixed(es[..|es| - 1]);
    }
  }

  lemma {:induction false} AscendingIsKept(es: seq<Pair>, i: nat)
    requires Ascending(es) && i <= |es|
    ensures KeepUpTo(es, i) == es[..i]
  {
    if i > 0 {
      AscendingIsKept(es, i - 1);
    }
  }

  /** Restaging a canonical list changes nothing. */
  lemma {:induction false} CanonIsIdempotent(es: seq<Pair>)
    requires Ascending(es)
    ensures Canon(es) == es
  {
    SortedIsFixed(es);
    AscendingIsKept(es, |es|);
  }

  lemma {:induction false} WritesAt(es: seq<Pair>, k: nat)
    requires Ascending(es) && k < |es|
    ensures es[k].id in LastWrites(es) && LastWrites(es)[es[k].id] == es[k].val
  {
    if k < |es| - 1 {
      WritesAt(es[..|es| - 1], k);
    }
  }

  lemma {:induction false} WrittenIds(es: seq<Pair>, pos: nat)
    ensures pos in LastWrites(es) <==> exists k :: 0 <= k < |es| && es[k].id == pos
  {
    if es != [] {
      var init := es[..|es| - 1];
      WrittenIds(init, pos);
      if k :| 0 <= k < |es| && es[k].id == pos {
        if k < |init| { assert init[k].id == pos; }
      }
      if pos in LastWrites(init) {
        var k :| 0 <= k < |init| && init[k].id == pos;
        assert es[k].id == pos;
      }
    }
  }

  // ---- narrow integer vectors ---------------------------------------------------------------

  const NARROW_MIN_LEN: nat := 1024
  const TWO64: int := 0x1_0000_0000_0000_0000
  const TWO63: int := 0x8000_0000_0000_0000
  const TWO48: int := 0x1_0000_0000_0000

  predicate InI64(v: int) {
    -TWO63 <= v < TWO63
  }

  /** Two's-complement wrap-around to 64 signed bits. */
  function WrapI64(x: int): int {
    (x + TWO63) % TWO64 - TWO63
  }

  /** `uint64(a - b)`: a wrapping subtraction reinterpreted unsigned. */
  function U64Diff(a: int, b: int): int {
    WrapI64(a - b) % TWO64
  }

  /** Wrap-around cancels: the unsigned span of any two 64-bit values is their true distance. */
  lemma {:induction false} SpanIsExact(lo: int, hi: int)
    requires InI64(lo) && InI64(hi) && lo <= hi
    ensures U64Diff(hi, lo) == hi - lo
  {
    var d := hi - lo;
    if d < TWO63 {
      assert (d + TWO63) % TWO64 == d + TWO63;
    } else {
      assert (d + TWO63) % TWO64 == d + TWO63 - TWO64;
    }
  }

  /** Little-endian bytes of `d`, low `w` of them. */
  function LeBytes(d: nat, w: nat): (b: seq<nat>)
    ensures |b| == w && forall i :: 0 <= i < w ==> b[i] < 256
  {
    if w == 0 then [] else [d % 256] + LeBytes(d / 256, w - 1)
  }

  /** The number little-endian bytes spell. */
  function LeValue(b: seq<nat>): nat {
    if b == [] then 0 else b[0] + 256 * LeValue(b[1..])
  }

  lemma {:induction false} LeRoundTrip(d: nat, w: nat)
    requires d < Pow256(w)
    ensures LeValue(LeBytes(d, w)) == d
  {
    if w > 0 {
      LeRoundTrip(d / 256, w - 1);
      assert LeBytes(d, w)[1..] == LeBytes(d / 256, w - 1);
    }
  }

  /** A load wider than the element spills only into higher digits, which the mask clears. */
  lemma {:induction false} LeMasked(b: seq<nat>, more: seq<nat>)
    requires forall i :: 0 <= i < |b| ==> b[i] < 256
    ensures LeValue(b + more) % Pow256(|b|) == LeValue(b) && LeValue(b) < Pow256(|b|)
  {
    if b == [] {
    } else {
      LeMasked(b[1..], more);
      assert (b + more)[1..] == b[1..] + more;
      var p, x, y := Pow256(|b| - 1), LeValue(b[1..] + more), LeValue(b[1..]);
      assert x % p == y;
      ScaledRemainder(x, p, b[0]);
    }
  }

  lemma {:induction false} ScaledRemainder(x: nat, p: nat, low: nat)
    requires p > 0 && low < 256
    ensures (low + 256 * x) % (256 * p) == low + 256 * (x % p)
  {
    var q, r := x / p, x % p;
    assert x == p * q + r;
    assert low + 256 * x == (256 * p) * q + (low + 256 * r);
    assert 0 <= low + 256 * r < 256 * p;
    RemainderIs(low + 256 * x, 256 * p, q, low + 256 * r);
  }

  lemma {:induction false} RemainderIs(x: nat, m: nat, q: nat, r: nat)
    requires m > 0 && x == m * q + r && r < m
    ensures x % m == r
  {
    var q', r' := x / m, x % m;
    assert m * (q' - q) == r - r';
    assert q' - q >= 1 ==> m * (q' - q) >= m;
    assert q - q' >= 1 ==> m * (q - q') >= m;
  }

  /** A value vector: as is, one bit per value, or min-offset deltas at a byte width. */
  datatype Vec = Wide(vals: seq<int>) | Bit(min: int, bits: seq<bool>) | Narrow(min: int, w: nat, bytes: seq<nat>)

  /** The narrowest byte class holding `span`; 0 when only the full eight bytes do. */
  function WidthFor(span: int): nat {
    if span <= 0xFF then 1
    else if span <= 0xFFFF then 2
    else if span <= 0xFFFF_FFFF then 4
    else if span <= 0xFFFF_FFFF_FFFF then 6
    else 0
  }

  /** Equal-width rows laid end to end. */
  function Flat(rows: seq<seq<nat>>): seq<nat> {
    if rows == [] then [] else Flat(rows[..|rows| - 1]) + rows[|rows| - 1]
  }

  /** Each value's offset from the minimum, in `w` bytes. */
  function DeltaRows(vals: seq<int>, min: int, w: nat): (rows: seq<seq<nat>>)
    requires forall j :: 0 <= j < |vals| ==> min <= vals[j]
    ensures |rows| == |vals| && forall j :: 0 <= j < |vals| ==> rows[j] == LeBytes(vals[j] - min, w) && |rows[j]| == w
  {
    seq(|vals|, j requires 0 <= j < |vals| => LeBytes(vals[j] - min, w))
  }

  /** The delta bytes of `vals`, element after element. */
  function Deltas(vals: seq<int>, min: int, w: nat): seq<nat>
    requires forall i :: 0 <= i < |vals| ==> min <= vals[i]
  {
    Flat(DeltaRows(vals, min, w))
  }

  /** The six-byte class is padded so that its eight-byte loads stay in bounds. */
  function Pad(w: nat): seq<nat> {
    if w == 6 then [0, 0] else []
  }

  function Least(vals: seq<int>): (m: int)
    requires vals != []
    ensures m in vals && forall i :: 0 <= i < |vals| ==> m <= vals[i]
  {
    if |vals| == 1 then vals[0]
    else var m := Least(vals[..|vals| - 1]); if vals[|vals| - 1] < m then vals[|vals| - 1] else m
  }

  function Greatest(vals: seq<int>): (m: int)
    requires vals != []
    ensures m in vals && forall i :: 0 <= i < |vals| ==> vals[i] <= m
  {
    if |vals| == 1 then vals[0]
    else var m := Greatest(vals[..|vals| - 1]); if vals[|vals| - 1] > m then vals[|vals| - 1] else m
  }

  function NarrowOf(vals: seq<int>): Option<Vec> {
    if |vals| < NARROW_MIN_LEN then None
    else
      var lo := Least(vals);
      var w := WidthFor(U64Diff(Greatest(vals), lo));
      if w == 0 then None else Some(Narrow(lo, w, Deltas(vals, lo, w) + Pad(w)))
  }

  /** The storage class of a value vector; only integers narrow, and only dense ones to bits. */
  function VecOf(kind: Kind, vals: seq<int>, dense: bool): Vec {
    if !kind.I64? then Wide(vals)
    else if dense && |vals| >= NARROW_MIN_LEN && U64Diff(Greatest(vals), Least(vals)) <= 1 then
      Bit(Least(vals), seq(|vals|, i requires 0 <= i < |vals| => vals[i] != Least(vals)))
    else if NarrowOf(vals).Some? then NarrowOf(vals).value
    else Wide(vals)
  }

  function VecLen(v: Vec): nat {
    match v
    case Wide(vals) => |vals|
    case Bit(_, bits) => |bits|
    case Narrow(_, w, bytes) => if w == 0 then 0 else |bytes| / w
  }

  /** The element read: one little-endian load, eight bytes wide and masked for the u48 class. */
  function At(v: Vec, i: nat): int {
    match v
    case Wide(vals) => if i < |vals| then vals[i] else 0
    case Bit(min, bits) => if i < |bits| && bits[i] then WrapI64(min + 1) else min
    case Narrow(min, w, bytes) =>
      if w == 6 then
        if i * 6 + 8 <= |bytes| then WrapI64(min + LeValue(bytes[i * 6..i * 6 + 8]) % TWO48) else 0
      else
        if i * w + w <= |bytes| then WrapI64(min + LeValue(bytes[i * w..i * w + w])) else 0
  }

  lemma {:induction false} WrapFits(x: int)
    requires InI64(x)
    ensures WrapI64(x) == x
  {
  }

  lemma {:induction false} ByteWidths()
    ensures Pow256(1) == 0x100 && Pow256(2) == 0x1_0000 && Pow256(4) == 0x1_0000_0000 && Pow256(6) == TWO48
  {
    assert Pow256(2) == 256 * Pow256(1);
    assert Pow256(3) == 256 * Pow256(2);
    assert Pow256(4) == 256 * Pow256(3);
    assert Pow256(5) == 256 * Pow256(4);
    assert Pow256(6) == 256 * Pow256(5);
  }

  /** `n` elements of `w` bytes, by addition. */
  function Rows(n: nat, w: nat): nat {
    if n == 0 then 0 else Rows(n - 1, w) + w
  }

  lemma {:induction false} RowsMultiply(n: nat, w: nat)
    ensures Rows(n, w) == n * w
  {
    if n > 0 { RowsMultiply(n - 1, w); }
  }

  lemma {:induction false} FlatLen(rows: seq<seq<nat>>, w: nat)
    requires forall i :: 0 <= i < |rows| ==> |rows[i]| == w
    ensures |Flat(rows)| == Rows(|rows|, w)
  {
    if rows != [] { FlatLen(rows[..|rows| - 1], w); }
  }

  lemma {:induction false} FlatAt(rows: seq<seq<nat>>, w: nat, i: nat)
    requires (forall k :: 0 <= k < |rows| ==> |rows[k]| == w) && i < |rows|
    ensures Rows(i, w) + w <= |Flat(rows)| && Flat(rows)[Rows(i, w)..Rows(i, w) + w] == rows[i]
  {
    var n, at := |rows| - 1, Rows(i, w);
    FlatLen(rows[..n], w);
    if i < n {
      FlatAt(rows[..n], w, i);
      SliceLeft(Flat(rows[..n]), rows[n], at, at + w);
    }
  }

  lemma {:induction false} DeltaRowsInit(vals: seq<int>, min: int, w: nat, init: seq<int>)
    requires vals != [] && init == vals[..|vals| - 1] && forall j :: 0 <= j < |vals| ==> min <= vals[j]
    ensures DeltaRows(vals, min, w)[..|vals| - 1] == DeltaRows(init, min, w)
  {
    var rows, fewer := DeltaRows(vals, min, w), DeltaRows(init, min, w);
    forall j | 0 <= j < |init| ensures rows[j] == fewer[j] {
      assert init[j] == vals[j];
    }
  }

  /** One value more. */
  lemma {:induction false} DeltasStep(vals: seq<int>, min: int, w: nat, i: nat)
    requires i < |vals| && forall j :: 0 <= j < |vals| ==> min <= vals[j]
    ensures Deltas(vals[..i + 1], min, w) == Deltas(vals[..i], min, w) + LeBytes(vals[i] - min, w)
  {
    assert vals[..i + 1][..i] == vals[..i];
    DeltaRowsInit(vals[..i + 1], min, w, vals[..i]);
  }

  lemma {:induction false} DeltaLen(vals: seq<int>, min: int, w: nat)
    requires forall j :: 0 <= j < |vals| ==> min <= vals[j]
    ensures |Deltas(vals, min, w)| == Rows(|vals|, w)
  {
    FlatLen(DeltaRows(vals, min, w), w);
  }

  lemma {:induction false} DeltaAt(vals: seq<int>, min: int, w: nat, i: nat, at: nat)
    requires forall k :: 0 <= k < |vals| ==> min <= vals[k]
    requires i < |vals| && at == Rows(i, w)
    ensures at + w <= |Deltas(vals, min, w)| && Deltas(vals, min, w)[at..at + w] == LeBytes(vals[i] - min, w)
  {
    FlatAt(DeltaRows(vals, min, w), w, i);
  }

  lemma {:induction false} SliceLeft(a: seq<nat>, b: seq<nat>, lo: nat, hi: nat)
    requires lo <= hi <= |a|
    ensures (a + b)[lo..hi] == a[lo..hi]
  {
  }

  /** One value's bytes among all of them, padding and all. */
  lemma {:induction false} DeltaSlice(vals: seq<int>, min: int, w: nat, i: nat, bytes: seq<nat>, at: nat)
    requires (forall k :: 0 <= k < |vals| ==> min <= vals[k]) && i < |vals| && bytes == Deltas(vals, min, w) + Pad(w)
    requires at == Rows(i, w)
    ensures at + w <= |bytes| && (w == 6 ==> at + 8 <= |bytes|)
    ensures bytes[at..at + w] == LeBytes(vals[i] - min, w)
  {
    DeltaAt(vals, min, w, i, at);
    SliceLeft(Deltas(vals, min, w), Pad(w), at, at + w);
  }

  /** `v` stores `d` at byte `at`. */
  ghost predicate Stores(v: Vec, at: nat, d: nat)
    requires v.Narrow?
  {
    && d < Pow256(v.w) && at + v.w <= |v.bytes| && (v.w == 6 ==> at + 8 <= |v.bytes|)
    && v.bytes[at..at + v.w] == LeBytes(d, v.w)
  }

  lemma {:induction false} NarrowDelta(vals: seq<int>, i: nat) returns (d: nat)
    requires forall j :: 0 <= j < |vals| ==> InI64(vals[j])
    requires NarrowOf(vals).Some? && i < |vals|
    ensures var v := NarrowOf(vals).value;
            v.min + d == vals[i] && Stores(v, Rows(i, v.w), d)
  {
    var v := NarrowOf(vals).value;
    d := vals[i] - v.min;
    WidthFits(Greatest(vals), v.min, vals[i]);
    DeltaStored(vals, v, i, d);
  }

  lemma {:induction false} DeltaStored(vals: seq<int>, v: Vec, i: nat, d: nat)
    requires v.Narrow? && (forall k :: 0 <= k < |vals| ==> v.min <= vals[k]) && v.bytes == Deltas(vals, v.min, v.w) + Pad(v.w)
    requires i < |vals| && d == vals[i] - v.min < Pow256(v.w)
    ensures Stores(v, Rows(i, v.w), d)
  {
    DeltaSlice(vals, v.min, v.w, i, v.bytes, Rows(i, v.w));
  }

  /** The class chosen for the whole span holds every offset in it. */
  lemma {:induction false} WidthFits(hi: int, lo: int, x: int)
    requires InI64(lo) && InI64(hi) && lo <= x <= hi
    ensures WidthFor(U64Diff(hi, lo)) != 0 ==> x - lo < Pow256(WidthFor(U64Diff(hi, lo)))
  {
    SpanIsExact(lo, hi);
    ByteWidths();
  }

  /** Narrowed exactly when long enough and spanning less than 2^48, from the least value, in the
      first of one, two, four and six bytes that holds the span. */
  lemma {:induction false} NarrowIsNarrowest(vals: seq<int>)
    requires vals != [] && forall j :: 0 <= j < |vals| ==> InI64(vals[j])
    ensures NarrowOf(vals).Some? <==> |vals| >= 1024 && Greatest(vals) - Least(vals) < 0x1_0000_0000_0000
    ensures NarrowOf(vals).Some? ==>
            var v := NarrowOf(vals).value;
            v.Narrow? && v.min == Least(vals) && Narrowest(v.w, Greatest(vals) - Least(vals))
  {
    SpanIsExact(Least(vals), Greatest(vals));
    WidthIsNarrowest(Greatest(vals) - Least(vals));
  }

  /** `w` of the four classes holds `span`, and no smaller one does. */
  ghost predicate Narrowest(w: nat, span: int) {
    || (w == 1 && span < 0x100)
    || (w == 2 && 0x100 <= span < 0x1_0000)
    || (w == 4 && 0x1_0000 <= span < 0x1_0000_0000)
    || (w == 6 && 0x1_0000_0000 <= span < 0x1_0000_0000_0000)
  }

  lemma {:induction false} WidthIsNarrowest(span: int)
    ensures WidthFor(span) == 0 <==> span >= 0x1_0000_0000_0000
    ensures WidthFor(span) != 0 ==> Narrowest(WidthFor(span), span)
  {
  }

  lemma {:induction false} NarrowReads(vals: seq<int>, i: nat)
    requires forall j :: 0 <= j < |vals| ==> InI64(vals[j])
    requires NarrowOf(vals).Some? && i < |vals|
    ensures At(NarrowOf(vals).value, i) == vals[i]
  {
    var v := NarrowOf(vals).value;
    var d := NarrowDelta(vals, i);
    RowsMultiply(i, v.w);
    NarrowLoad(v, i, i * v.w, d);
    WrapFits(vals[i]);
  }

  /** A load of either kind finds the offset stored there. */
  lemma {:induction false} NarrowLoad(v: Vec, i: nat, at: nat, d: nat)
    requires v.Narrow? && Stores(v, at, d) && at == i * v.w
    ensures At(v, i) == WrapI64(v.min + d)
  {
    if v.w == 6 {
      SixByteLoad(v.bytes, at, d);
    } else {
      PlainLoad(v.bytes, at, v.w, d);
    }
  }

  lemma {:induction false} PlainLoad(bytes: seq<nat>, at: nat, w: nat, d: nat)
    requires at + w <= |bytes| && bytes[at..at + w] == LeBytes(d, w) && d < Pow256(w)
    ensures LeValue(bytes[at..at + w]) == d
  {
    LeRoundTrip(d, w);
  }

  /** The eight-byte load of a six-byte value, its two spare bytes masked off. */
  lemma {:induction false} SixByteLoad(bytes: seq<nat>, at: nat, d: nat)
    requires at + 8 <= |bytes| && bytes[at..at + 6] == LeBytes(d, 6) && d < Pow256(6)
    ensures LeValue(bytes[at..at + 8]) % TWO48 == d
  {
    var more := bytes[at + 6..at + 8];
    assert bytes[at..at + 8] == LeBytes(d, 6) + more;
    LeMasked(LeBytes(d, 6), more);
    LeRoundTrip(d, 6);
    ByteWidths();
  }

  lemma {:induction false} NarrowLen(vals: seq<int>)
    requires NarrowOf(vals).Some?
    ensures VecLen(NarrowOf(vals).value) == |vals|
  {
    var v := NarrowOf(vals).value;
    DeltaLen(vals, v.min, v.w);
    RowsMultiply(|vals|, v.w);
    QuotientIs(|v.bytes|, v.w, |vals|, |Pad(v.w)|);
  }

  lemma {:induction false} QuotientIs(x: nat, m: nat, q: nat, r: nat)
    requires m > 0 && x == q * m + r && r < m
    ensures x / m == q
  {
    assert x == m * q + r;
    RemainderIs(x, m, q, r);
    assert m * (x / m) == m * q;
  }

  /** Every storage class reads back the value it stored. */
  lemma {:induction false} VecReads(kind: Kind, vals: seq<int>, dense: bool, i: nat)
    requires kind.I64? ==> forall j :: 0 <= j < |vals| ==> InI64(vals[j])
    ensures VecLen(VecOf(kind, vals, dense)) == |vals|
    ensures i < |vals| ==> At(VecOf(kind, vals, dense), i) == vals[i]
  {
    if kind.I64? {
      if dense && |vals| >= NARROW_MIN_LEN && U64Diff(Greatest(vals), Least(vals)) <= 1 {
        SpanIsExact(Least(vals), Greatest(vals));
        if i < |vals| { WrapFits(vals[i]); }
      } else if NarrowOf(vals).Some? {
        NarrowLen(vals);
        if i < |vals| { NarrowReads(vals, i); }
      }
    }
  }

  // ---- rank/select ------------------------------------------------------------------------------

  const RANK_BLOCK: nat := 64

  /** Presence bits plus the number of set bits before each block. */
  datatype RankIndex = RankIndex(present: seq<bool>, blockRank: seq<nat>)

  function CountTrue(bits: seq<bool>, lo: nat, hi: nat): nat
    requires hi <= |bits|
    decreases hi
  {
    if lo >= hi then 0 else CountTrue(bits, lo, hi - 1) + if bits[hi - 1] then 1 else 0
  }

  function Smaller(a: nat, b: nat): nat {
    if a < b then a else b
  }

  function RankOf(ids: seq<nat>, span: nat): RankIndex {
    var present := seq(span, p => p in ids);
    RankIndex(present, seq((span + RANK_BLOCK - 1) / RANK_BLOCK + 1, b requires 0 <= b => CountTrue(present, 0, Smaller(b * RANK_BLOCK, span))))
  }

  /** One block-rank read plus a bounded popcount. */
  function Slot(r: RankIndex, pos: nat): Option<nat> {
    if pos >= |r.present| || !r.present[pos] || pos / RANK_BLOCK >= |r.blockRank| then None
    else Some(r.blockRank[pos / RANK_BLOCK] + CountTrue(r.present, pos / RANK_BLOCK * RANK_BLOCK, pos))
  }

  ghost predicate AscendingIds(ids: seq<nat>) {
    forall i, j :: 0 <= i < j < |ids| ==> ids[i] < ids[j]
  }

  lemma {:induction false} CountSplits(bits: seq<bool>, mid: nat, hi: nat)
    requires mid <= hi <= |bits|
    ensures CountTrue(bits, 0, hi) == CountTrue(bits, 0, mid) + CountTrue(bits, mid, hi)
  {
    if mid < hi {
      CountSplits(bits, mid, hi - 1);
    }
  }

  lemma {:induction false} PresentBelow(ids: seq<nat>, span: nat, p: nat)
    requires AscendingIds(ids) && p <= span
    ensures CountTrue(RankOf(ids, span).present, 0, p) == CountLess(ids, p)
  {
    if p == 0 {
      CountLessAtZero(ids);
    } else {
      PresentBelow(ids, span, p - 1);
      CountStep(ids, p - 1);
      DistinctCountsOnce(ids, p - 1);
      OccurrenceCounts(ids, p - 1);
    }
  }

  lemma {:induction false} AscendingRank(ids: seq<nat>, k: nat)
    requires AscendingIds(ids) && k < |ids|
    ensures CountLess(ids, ids[k]) == k
  {
    var n := |ids| - 1;
    if k < n {
      AscendingRank(ids[..n], k);
    } else {
      CountLessEnds(ids[..n], ids[n]);
    }
  }

  /** The slot of a present position is the number of present positions below it. */
  lemma {:induction false} SlotCountsBelow(ids: seq<nat>, span: nat, pos: nat)
    requires AscendingIds(ids) && pos < span
    ensures pos in ids ==> Slot(RankOf(ids, span), pos) == Some(CountLess(ids, pos))
    ensures pos !in ids ==> Slot(RankOf(ids, span), pos) == None
  {
    var r, b := RankOf(ids, span), pos / RANK_BLOCK;
    BlockRankAt(ids, span, b);
    SlotCounts(r, pos, b);
    PresentBelow(ids, span, pos);
  }

  lemma {:induction false} SlotCounts(r: RankIndex, pos: nat, b: nat)
    requires pos < |r.present| && b == pos / RANK_BLOCK < |r.blockRank| && b * RANK_BLOCK <= pos
    requires r.blockRank[b] == CountTrue(r.present, 0, b * RANK_BLOCK)
    ensures Slot(r, pos) == if r.present[pos] then Some(CountTrue(r.present, 0, pos)) else None
  {
    CountSplits(r.present, b * RANK_BLOCK, pos);
  }

  lemma {:induction false} BlockRankAt(ids: seq<nat>, span: nat, b: nat)
    requires b * RANK_BLOCK < span
    ensures var r := RankOf(ids, span);
            b < |r.blockRank| && r.blockRank[b] == CountTrue(r.present, 0, b * RANK_BLOCK)
  {
  }
}
