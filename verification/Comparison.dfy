/** `Compare` and `Equal`, the comparison behind `=`, against the grouping key: exactly when they
    disagree on scalars, and a class of values of any depth on which they never do. */
module Comparison {
  import opened StableSort
  import opened Powers
  import opened Floats
  import opened Values
  import opened SortOrder
  import opened GroupKey

  datatype Verdict = Incomparable | Is(c: int)

  // ---- the comparison -------------------------------------------------------------------------------------

  predicate IsNaN(bits: nat) {
    Magnitude(bits) > INFINITE
  }

  /** Floats by value, an infinity beyond every finite one, both zeros alike. */
  function CompareFloats(x: nat, y: nat): Verdict {
    if IsNaN(x) || IsNaN(y) then Incomparable else Is(CmpInt(ValueOf(x), ValueOf(y)))
  }

  function Moment(v: Value): int
    requires v.Temporal? || v.Int?
  {
    if v.Temporal? then v.millis else v.i
  }

  predicate Numeric(v: Value) {
    v.Int? || v.Float?
  }

  function EqualOnly(same: bool): Verdict {
    if same then Is(0) else Incomparable
  }

  function Compare(a: Value, b: Value): Verdict
    decreases a, 0
  {
    if a.Bool? && b.Bool? then Is(CmpInt(if a.b then 1 else 0, if b.b then 1 else 0))
    else if a.Str? && b.Str? then Is(CmpStr(a.s, b.s))
    else if a.Node? && b.Node? then Is(CmpInt(a.id, b.id))
    else if a.Rel? && b.Rel? then Is(CmpInt(a.pos, b.pos))
    else if a.List? && b.List? then CompareItems(a.items, b.items)
    else if a.Map? && b.Map? then EqualOnly(|a.entries| == |b.entries| && AllFound(a.entries, b.entries, 0))
    else if a.Path? && b.Path? then EqualOnly(a.nodes == b.nodes && a.rels == b.rels)
    else if (a.Temporal? && (b.Temporal? || b.Int?)) || (a.Int? && b.Temporal?) then Is(CmpInt(Moment(a), Moment(b)))
    else if a.Duration? && b.Duration? then EqualOnly(a.months == b.months && a.days == b.days && a.ms == b.ms)
    else if Numeric(a) && Numeric(b) then CompareFloats(OrderNum(a), OrderNum(b))
    else Incomparable
  }

  /** Element by element, then by length; the first pair that differs or does not compare decides. */
  function CompareItems(x: seq<Value>, y: seq<Value>): Verdict
    decreases x, 0
  {
    if x == [] || y == [] then Is(CmpInt(|x|, |y|))
    else
      var c := Compare(x[0], y[0]);
      if c != Is(0) then c else CompareItems(x[1..], y[1..])
  }

  /** The first entry with this key at or after `j`, or past the end. */
  function FirstWith(y: seq<Entry>, key: Bytes, j: nat): (r: nat)
    requires j <= |y|
    ensures j <= r <= |y| && (r < |y| ==> y[r].key == key) && forall i :: j <= i < r ==> y[i].key != key
    decreases |y| - j
  {
    if j == |y| || y[j].key == key then j else FirstWith(y, key, j + 1)
  }

  /** Every entry of `x` from the `k`-th on has an equal one in `y`. */
  predicate AllFound(x: seq<Entry>, y: seq<Entry>, k: nat)
    requires k <= |x|
    decreases x, |x| - k
  {
    k == |x| || (Found(x, y, k) && AllFound(x, y, k + 1))
  }

  predicate Found(x: seq<Entry>, y: seq<Entry>, k: nat)
    requires k < |x|
    decreases x, 0
  {
    var j := FirstWith(y, x[k].key, 0);
    j < |y| && Compare(x[k].val, y[j].val) == Is(0)
  }

  predicate Equal(a: Value, b: Value) {
    Compare(a, b) == Is(0)
  }

  // ---- the loops -------------------------------------------------------------------------------------------

  method CompareValues(a: Value, b: Value) returns (v: Verdict)
    ensures v == Compare(a, b)
    decreases a, 1
  {
    if a.List? && b.List? {
      v := CompareLists(a.items, b.items);
    } else if a.Map? && b.Map? {
      var same := MapsEqual(a.entries, b.entries);
      v := EqualOnly(same);
    } else {
      v := Compare(a, b);
    }
  }

  method CompareLists(x: seq<Value>, y: seq<Value>) returns (v: Verdict)
    ensures v == CompareItems(x, y)
    decreases x, 0
  {
    var n := if |x| < |y| then |x| else |y|;
    for i := 0 to n
      invariant CompareItems(x, y) == CompareItems(x[i..], y[i..])
    {
      assert x[i..][1..] == x[i + 1..] && y[i..][1..] == y[i + 1..];
      v := CompareValues(x[i], y[i]);
      if v != Is(0) { return; }
    }
    v := Is(CmpInt(|x|, |y|));
  }

  method MapsEqual(x: seq<Entry>, y: seq<Entry>) returns (same: bool)
    ensures same <==> |x| == |y| && AllFound(x, y, 0)
    decreases x, 1
  {
    if |x| != |y| { return false; }
    for k := 0 to |x|
      invariant AllFound(x, y, 0) == AllFound(x, y, k)
    {
      var found := FindEqual(x, y, k);
      if !found { return false; }
    }
    return true;
  }

  method FindEqual(x: seq<Entry>, y: seq<Entry>, k: nat) returns (found: bool)
    requires k < |x|
    ensures found <==> Found(x, y, k)
    decreases x, 0
  {
    for j := 0 to |y|
      invariant FirstWith(y, x[k].key, 0) == FirstWith(y, x[k].key, j)
    {
      if y[j].key == x[k].key {
        var v := CompareValues(x[k].val, y[j].val);
        return v == Is(0);
      }
    }
    return false;
  }

  // ---- numbers ----------------------------------------------------------------------------------------------

  lemma {:induction false} IntValue(i: int, u: nat)
    requires 0 - TWO63 <= i < TWO63 && u == UNITS
    ensures IsF64(ToF64(i)) && !IsNaN(ToF64(i)) && ValueOf(ToF64(i)) == NearestInt(i) * Pow2(u)
  {
    var n: nat := if i < 0 then -i else i;
    NearestIsFinite(n);
    NearestValue(n, u);
    Negated(Nearest53(n), Pow2(u));
  }

  lemma {:induction false} Negated(x: nat, p: nat)
    ensures 0 - x * p == (0 - x) * p
  {
  }

  /** A float worth exactly `n` is `n`'s own, and `n` needs no rounding. */
  lemma {:induction false} ExactlyWorth(mag: nat, n: nat, u: nat)
    requires u == UNITS && Scaled(mag) == n * Pow2(u)
    ensures Nearest53(n) == n && mag == NearestMagnitude(n)
  {
    ConversionIsNearest(n, mag, u);
    NothingNearer(NearestMagnitude(n), n, mag, Pow2(u));
    NearestValue(n, u);
    OneValueOneMagnitude(NearestMagnitude(n), mag, Nearest53(n), n, Pow2(u));
  }

  lemma {:induction false} NothingNearer(mine: nat, n: nat, mag: nat, p: nat)
    requires IsNearest(mine, n, mag, p) && p > 0 && Scaled(mag) == n * p
    ensures Scaled(mine) == n * p && mine == mag
  {
    if mine < mag { ScaledGrows(mine, mag); } else if mag < mine { ScaledGrows(mag, mine); }
  }

  /** A float equal to an integer is a whole number, and the integer it is worth. */
  lemma {:induction false} WorthAnInteger(bits: nat, i: int, u: nat)
    requires IsF64(bits) && u == UNITS && 0 - TWO63 <= i < TWO63
    ensures ValueOf(bits) == i * Pow2(u) <==> IsInt64(bits) && IntPart(bits) == i
    ensures ValueOf(bits) == i * Pow2(u) ==> NearestInt(i) == i
  {
    var mag, p := Magnitude(bits), Pow2(u);
    if ValueOf(bits) == i * p {
      SameSign(bits, i, p);
      var n: nat := if i < 0 then -i else i;
      ExactlyWorth(mag, n, u);
      NearestIsFinite(n);
      Multiple(n, p);
    }
    if IsInt64(bits) && IntPart(bits) == i {
      Remultiplied(Scaled(mag), p);
      Negated(Scaled(mag) / p, p);
    }
  }

  /** Its magnitude is the integer's, and its sign too unless it is zero. */
  lemma {:induction false} SameSign(bits: nat, i: int, p: nat)
    requires p > 0 && ValueOf(bits) == i * p
    ensures Scaled(Magnitude(bits)) == (if i < 0 then -i else i) * p
    ensures i != 0 ==> (Negative(bits) <==> i < 0)
  {
    if i < 0 { Negated(-i, p); Ordered(1, -i, p); } else if i > 0 { Ordered(1, i, p); }
  }

  /** The integer does not survive its own conversion, and the float is what it converts to. */
  predicate Rounds(i: int, bits: nat) {
    NearestInt(i) != i && bits == ToF64(i)
  }

  lemma {:induction false} IntAgainstFloat(i: int, bits: nat, u: nat)
    requires InI64(i) && IsF64(bits) && u == UNITS
    ensures Equal(Int(i), Float(bits)) <==> (IsInt64(bits) && IntPart(bits) == i) || Rounds(i, bits)
    ensures Rounds(i, bits) ==> !(IsInt64(bits) && IntPart(bits) == i)
  {
    IntValue(i, u);
    WorthAnInteger(bits, i, u);
    if NearestInt(i) != i { RoundedFloat(i, bits, u); } else { ExactFloatIsNumber(bits, i, u); }
  }

  /** Where rounding moves the integer, only its own float is worth what it rounds to. */
  lemma {:induction false} RoundedFloat(i: int, bits: nat, u: nat)
    requires InI64(i) && IsF64(bits) && u == UNITS && NearestInt(i) != i
    ensures !IsNaN(bits) && ValueOf(bits) == NearestInt(i) * Pow2(u) <==> bits == ToF64(i)
  {
    IntValue(i, u);
    if ValueOf(bits) == NearestInt(i) * Pow2(u) {
      NearestIsNonzero(i);
      SameSign(bits, NearestInt(i), Pow2(u));
      SameSign(ToF64(i), NearestInt(i), Pow2(u));
      var a, b := Magnitude(bits), Magnitude(ToF64(i));
      if a < b { ScaledGrows(a, b); } else if b < a { ScaledGrows(b, a); }
    }
  }

  lemma {:induction false} NearestIsNonzero(i: int)
    ensures i != 0 ==> NearestInt(i) != 0
    ensures i == 0 ==> NearestInt(i) == 0
  {
    if i < 0 { Nearest53IsPositive(-i); } else if i > 0 { Nearest53IsPositive(i); }
  }

  lemma {:induction false} ExactFloatIsNumber(bits: nat, i: int, u: nat)
    requires IsF64(bits) && u == UNITS && InI64(i)
    ensures ValueOf(bits) == i * Pow2(u) ==> !IsNaN(bits)
  {
    WorthAnInteger(bits, i, u);
  }

  lemma {:induction false} IntAgainstInt(i: int, j: int)
    requires InI64(i) && InI64(j)
    ensures Equal(Int(i), Int(j)) <==> NearestInt(i) == NearestInt(j)
  {
    IntsByValue(i, j, UNITS);
  }

  lemma {:induction false} IntsByValue(i: int, j: int, u: nat)
    requires InI64(i) && InI64(j) && u == UNITS
    ensures Equal(Int(i), Int(j)) <==> NearestInt(i) == NearestInt(j)
  {
    IntValue(i, u);
    IntValue(j, u);
    OneFactor(NearestInt(i), NearestInt(j), Pow2(u));
  }

  lemma {:induction false} OneFactor(x: int, y: int, p: nat)
    requires p > 0
    ensures x * p == y * p <==> x == y
  {
    assert (x - y) * p == x * p - y * p;
  }

  lemma {:induction false} FloatAgainstFloat(x: nat, y: nat)
    requires IsF64(x) && IsF64(y)
    ensures Equal(Float(x), Float(y)) <==> !IsNaN(x) && !IsNaN(y) && (x == y || (Magnitude(x) == 0 && Magnitude(y) == 0))
  {
    var a, b := Magnitude(x), Magnitude(y);
    ScaledIsPositive(a);
    ScaledIsPositive(b);
    if a < b { ScaledGrows(a, b); } else if b < a { ScaledGrows(b, a); }
  }

  // ---- scalars ------------------------------------------------------------------------------------------------

  predicate Scalar(v: Value) {
    !v.List? && !v.Map?
  }

  /** Where one key does not mean equal, or equal does not mean one key: nulls and NaNs; integers that
      round together, or to the float compared with; moments that differ in kind alone; and a moment
      against an integer. */
  predicate Disagree(a: Value, b: Value) {
    || (a.Null? && b.Null?)
    || (a.Float? && b.Float? && a == b && IsNaN(a.bits))
    || (a.Int? && b.Int? && a != b && NearestInt(a.i) == NearestInt(b.i))
    || (a.Int? && b.Float? && Rounds(a.i, b.bits))
    || (a.Float? && b.Int? && Rounds(b.i, a.bits))
    || (a.Temporal? && b.Temporal? && a.millis == b.millis && a.aux != b.aux)
    || (a.Temporal? && b.Int? && a.millis == b.i)
    || (a.Int? && b.Temporal? && a.i == b.millis)
  }

  lemma {:induction false} EqualIsSymmetricOnNumbers(a: Value, b: Value)
    requires Numeric(a) && Numeric(b)
    ensures Equal(a, b) <==> Equal(b, a)
  {
  }

  lemma {:induction false} NumbersAgreeIff(a: Value, b: Value)
    requires Encodable(a) && Encodable(b) && Numeric(a) && Numeric(b)
    ensures (Equal(a, b) <==> Canon(a) == Canon(b)) <==> !Disagree(a, b)
  {
    if a.Int? && b.Int? {
      IntAgainstInt(a.i, b.i);
    } else if a.Int? {
      IntAgainstFloat(a.i, b.bits, UNITS);
    } else if b.Int? {
      EqualIsSymmetricOnNumbers(a, b);
      IntAgainstFloat(b.i, a.bits, UNITS);
    } else {
      FloatAgainstFloat(a.bits, b.bits);
      FloatsGroup(a.bits, b.bits);
      KeysAreCanonical(a, b);
      NaNKeys(a.bits);
    }
  }

  lemma {:induction false} NaNKeys(bits: nat)
    ensures IsNaN(bits) ==> !IsInt64(bits) && Magnitude(bits) != 0
  {
  }

  /** On scalars the group key and `=` agree exactly outside those cases. */
  lemma {:induction false} ScalarsAgreeIff(a: Value, b: Value)
    requires Encodable(a) && Encodable(b) && Scalar(a) && Scalar(b)
    ensures (Equal(a, b) <==> Encode(a) == Encode(b)) <==> !Disagree(a, b)
  {
    KeysAreCanonical(a, b);
    if Numeric(a) && Numeric(b) {
      NumbersAgreeIff(a, b);
    } else {
      OthersAgreeIff(a, b);
    }
  }

  lemma {:induction false} OthersAgreeIff(a: Value, b: Value)
    requires Scalar(a) && Scalar(b) && !(Numeric(a) && Numeric(b))
    ensures (Equal(a, b) <==> Canon(a) == Canon(b)) <==> !Disagree(a, b)
  {
    if a.Str? && b.Str? { CmpStrSigns(a.s, b.s); }
  }

  /** 2^53 and 2^53 + 1 are equal and group apart. */
  lemma {:induction false} EqualIntegersGroupApart(i: int)
    requires i == TWO53
    ensures Equal(Int(i), Int(i + 1)) && Encode(Int(i)) != Encode(Int(i + 1))
  {
    NeighborsTie(i);
    KeysAreCanonical(Int(i), Int(i + 1));
    IntAgainstInt(i, i);
    ConversionTiesIff(i, i + 1);
    IntAgainstInt(i, i + 1);
  }

  // ---- values of any depth ---------------------------------------------------------------------------------------

  /** Null, NaN and moments nowhere, every integer one a float can hold, map keys distinct. */
  ghost predicate Plain(v: Value)
    decreases v
  {
    match v
    case Null => false
    case Temporal(_, _) => false
    case Int(i) => NearestInt(i) == i
    case Float(bits) => !IsNaN(bits)
    case List(items) => forall k :: 0 <= k < |items| ==> Plain(items[k])
    case Map(entries) => DistinctKeys(entries) && forall k :: 0 <= k < |entries| ==> Plain(entries[k].val)
    case _ => true
  }

  ghost predicate Agree(a: Value, b: Value) {
    Equal(a, b) <==> Canon(a) == Canon(b)
  }

  ghost predicate AgreeAt(x: seq<Entry>, i: nat, y: seq<Entry>, j: nat) {
    i < |x| && j < |y| ==> Agree(x[i].val, y[j].val)
  }

  ghost predicate AllAgree(x: seq<Entry>, y: seq<Entry>) {
    forall i: nat, j: nat {:trigger AgreeAt(x, i, y, j)} :: AgreeAt(x, i, y, j)
  }

  /** On plain values of any depth `=` and the group key are one. */
  lemma {:induction false} PlainValuesAgree(a: Value, b: Value)
    requires Encodable(a) && Encodable(b) && Plain(a) && Plain(b)
    ensures Agree(a, b)
    decreases a, 1
  {
    if a.List? && b.List? {
      PlainListsAgree(a.items, b.items);
    } else if a.Map? && b.Map? {
      PlainMapsAgree(a, b);
    } else if Scalar(a) && Scalar(b) {
      PlainScalarsAgree(a, b);
    } else {
      MixedAgree(a, b);
    }
  }

  lemma {:induction false} PlainMapsAgree(a: Value, b: Value)
    requires Encodable(a) && Encodable(b) && Plain(a) && Plain(b) && a.Map? && b.Map?
    ensures Agree(a, b)
    decreases a, 0
  {
    var x, y := a.entries, b.entries;
    forall i: nat, j: nat ensures AgreeAt(x, i, y, j) {
      if i < |x| && j < |y| { PlainValuesAgree(x[i].val, y[j].val); }
    }
    MapsAgree(x, y);
  }

  lemma {:induction false} PlainScalarsAgree(a: Value, b: Value)
    requires Encodable(a) && Encodable(b) && Plain(a) && Plain(b) && Scalar(a) && Scalar(b)
    ensures Agree(a, b)
  {
    ScalarsAgreeIff(a, b);
    KeysAreCanonical(a, b);
  }

  /** A container keeps its constructor, and no scalar becomes one. */
  lemma {:induction false} CanonKeepsShape(v: Value)
    ensures (v.List? <==> Canon(v).List?) && (v.Map? <==> Canon(v).Map?)
  {
  }

  lemma {:induction false} MixedAgree(a: Value, b: Value)
    requires !(a.List? && b.List?) && !(a.Map? && b.Map?) && !(Scalar(a) && Scalar(b))
    ensures Agree(a, b)
  {
    CanonKeepsShape(a);
    CanonKeepsShape(b);
    MixedIncomparable(a, b);
  }

  lemma {:induction false} MixedIncomparable(a: Value, b: Value)
    requires !(a.List? && b.List?) && !(a.Map? && b.Map?) && !(Scalar(a) && Scalar(b))
    ensures Compare(a, b) == Incomparable
  {
  }

  lemma {:induction false} PlainListsAgree(x: seq<Value>, y: seq<Value>)
    requires (forall k :: 0 <= k < |x| ==> Encodable(x[k]) && Plain(x[k])) && forall k :: 0 <= k < |y| ==> Encodable(y[k]) && Plain(y[k])
    ensures CompareItems(x, y) == Is(0) <==> CanonItems(x) == CanonItems(y)
    decreases x, 0
  {
    if x != [] && y != [] {
      PlainValuesAgree(x[0], y[0]);
      PlainListsAgree(x[1..], y[1..]);
      assert CanonItems(x)[0] == Canon(x[0]) && CanonItems(y)[0] == Canon(y[0]);
      assert CanonItems(x)[1..] == CanonItems(x[1..]) && CanonItems(y)[1..] == CanonItems(y[1..]);
    } else {
      assert |CanonItems(x)| == |x| && |CanonItems(y)| == |y|;
    }
  }

  // ---- maps ----------------------------------------------------------------------------------------------------

  ghost predicate FoundAt(x: seq<Entry>, y: seq<Entry>, i: nat) {
    i < |x| ==> Found(x, y, i)
  }

  lemma {:induction false} FoundEverywhere(x: seq<Entry>, y: seq<Entry>, k: nat, i: nat)
    requires k <= i && k <= |x| && AllFound(x, y, k)
    ensures FoundAt(x, y, i)
    decreases i - k
  {
    if k < i && k < |x| { FoundEverywhere(x, y, k + 1, i); }
  }

  lemma {:induction false} EverywhereFound(x: seq<Entry>, y: seq<Entry>, k: nat)
    requires k <= |x| && forall i: nat {:trigger FoundAt(x, y, i)} :: FoundAt(x, y, i)
    ensures AllFound(x, y, k)
    decreases |x| - k
  {
    if k < |x| {
      EverywhereFound(x, y, k + 1);
      assert FoundAt(x, y, k);
    }
  }

  lemma {:induction false} CanonEntryAt(e: seq<Entry>, idx: seq<nat>, k: nat, i: nat)
    requires |idx| == |e| && k <= i < |e| && forall j :: 0 <= j < |idx| ==> idx[j] < |e|
    ensures CanonEntries(e, idx, k)[i - k] == Entry(e[idx[i]].key, Canon(e[idx[i]].val))
    decreases i - k
  {
    if k < i { CanonEntryAt(e, idx, k + 1, i); }
  }

  /** The `k`-th entries in key order are the same canonically. */
  ghost predicate SameAt(x: seq<Entry>, y: seq<Entry>, k: nat)
    requires k < |x| == |y|
  {
    var i, j := KeySorted(x)[k], KeySorted(y)[k];
    x[i].key == y[j].key && Canon(x[i].val) == Canon(y[j].val)
  }

  ghost predicate AllSame(x: seq<Entry>, y: seq<Entry>)
    requires |x| == |y|
  {
    forall k :: 0 <= k < |x| ==> SameAt(x, y, k)
  }

  /** Canonical maps are one when their entries agree in key order. */
  lemma {:induction false} CanonMapsIff(x: seq<Entry>, y: seq<Entry>)
    requires |x| == |y|
    ensures CanonEntries(x, KeySorted(x), 0) == CanonEntries(y, KeySorted(y), 0)
       <==> AllSame(x, y)
  {
    var cx, cy := CanonEntries(x, KeySorted(x), 0), CanonEntries(y, KeySorted(y), 0);
    forall k | 0 <= k < |x| ensures cx[k] == cy[k] <==> SameAt(x, y, k) {
      CanonEntryAt(x, KeySorted(x), 0, k);
      CanonEntryAt(y, KeySorted(y), 0, k);
    }
  }

  /** With distinct keys the first entry of a key is the only one. */
  lemma {:induction false} OnlyWith(y: seq<Entry>, key: Bytes, j: nat)
    requires DistinctKeys(y) && j < |y| && y[j].key == key
    ensures FirstWith(y, key, 0) == j
  {
  }

  /** The entries without their values. */
  function Bare(e: seq<Entry>): (r: seq<Entry>)
    ensures |r| == |e| && forall i :: 0 <= i < |e| ==> r[i] == Entry(e[i].key, Null)
    ensures KeySorted(r) == KeySorted(e)
  {
    var r := seq(|e|, i requires 0 <= i < |e| => Entry(e[i].key, Null));
    assert Keys(r) == Keys(e);
    r
  }

  /** Where each entry of `x` finds its key in `y`. */
  ghost function Partners(x: seq<Entry>, y: seq<Entry>): (m: seq<nat>)
    ensures |m| == |x| && forall i :: 0 <= i < |x| ==> m[i] == FirstWith(y, x[i].key, 0)
  {
    seq(|x|, i requires 0 <= i < |x| => FirstWith(y, x[i].key, 0))
  }

  /** Maps of one size whose keys are all found sort to the same keys. */
  lemma {:induction false} SameKeyOrder(x: seq<Entry>, y: seq<Entry>, m: seq<nat>)
    requires DistinctKeys(x) && |x| == |y| == |m|
    requires forall i :: 0 <= i < |x| ==> m[i] < |y| && y[m[i]].key == x[i].key
    ensures forall k :: 0 <= k < |x| ==> x[KeySorted(x)[k]].key == y[KeySorted(y)[k]].key
  {
    assert IsPerm(m) by {
      forall i, j | 0 <= i < j < |m| ensures m[i] != m[j] {
        assert x[i].key != x[j].key;
      }
    }
    var s := Inverse(m);
    forall j | 0 <= j < |y| ensures Bare(y)[j] == Bare(x)[s[j]] {
      assert m[s[j]] == j;
    }
    SortForgetsInsertion(Bare(x), Bare(y), s);
    forall k | 0 <= k < |x| ensures x[KeySorted(x)[k]].key == y[KeySorted(y)[k]].key {
      assert Bare(x)[KeySorted(x)[k]] == Bare(y)[KeySorted(y)[k]];
    }
  }

  lemma {:induction false} FoundAreSame(x: seq<Entry>, y: seq<Entry>)
    requires |x| == |y| && DistinctKeys(x) && DistinctKeys(y) && AllFound(x, y, 0)
    requires AllAgree(x, y)
    ensures AllSame(x, y)
  {
    forall i | 0 <= i < |x| ensures Partners(x, y)[i] < |y| {
      FoundEverywhere(x, y, 0, i);
    }
    SameKeyOrder(x, y, Partners(x, y));
    forall k | 0 <= k < |x| ensures SameAt(x, y, k) {
      var i, j := KeySorted(x)[k], KeySorted(y)[k];
      OnlyWith(y, x[i].key, j);
      FoundEverywhere(x, y, 0, i);
      assert AgreeAt(x, i, y, j);
    }
  }

  lemma {:induction false} SameAreFound(x: seq<Entry>, y: seq<Entry>)
    requires |x| == |y| && DistinctKeys(y)
    requires AllSame(x, y)
    requires AllAgree(x, y)
    ensures AllFound(x, y, 0)
  {
    SortedPermutes(Keys(x), |x|);
    forall i: nat ensures FoundAt(x, y, i) {
      if i < |x| {
        var k := IndexOf(KeySorted(x), i);
        var j := KeySorted(y)[k];
        assert SameAt(x, y, k);
        OnlyWith(y, x[i].key, j);
        assert AgreeAt(x, i, y, j);
      }
    }
    EverywhereFound(x, y, 0);
  }

  /** Maps of distinct keys whose values agree pairwise agree. */
  lemma {:induction false} MapsAgree(x: seq<Entry>, y: seq<Entry>)
    requires DistinctKeys(x) && DistinctKeys(y)
    requires AllAgree(x, y)
    ensures Agree(Map(x), Map(y))
  {
    if |x| == |y| {
      FoundIffSame(x, y);
    } else {
      assert |CanonEntries(x, KeySorted(x), 0)| == |x| && |CanonEntries(y, KeySorted(y), 0)| == |y|;
    }
  }

  lemma {:induction false} FoundIffSame(x: seq<Entry>, y: seq<Entry>)
    requires |x| == |y| && DistinctKeys(x) && DistinctKeys(y) && AllAgree(x, y)
    ensures AllFound(x, y, 0) <==> CanonEntries(x, KeySorted(x), 0) == CanonEntries(y, KeySorted(y), 0)
  {
    CanonMapsIff(x, y);
    if AllFound(x, y, 0) { FoundAreSame(x, y); }
    if AllSame(x, y) { SameAreFound(x, y); }
  }
}
