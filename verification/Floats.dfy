/** 64-bit floats as bit patterns: the total-order comparison trick against the order it implements,
    and which floats equal a 64-bit integer. */
module Floats {
  import opened Powers

  const TWO63: nat := 0x8000_0000_0000_0000
  const TWO64: nat := 0x1_0000_0000_0000_0000
  /** One past the largest fraction. */
  const HIDDEN: nat := 0x10_0000_0000_0000
  /** The magnitude of an infinity; greater magnitudes are NaNs. */
  const INFINITE: nat := 0x7FF0_0000_0000_0000
  /** Finite values count in units of 2^-1074. */
  const UNITS: nat := 1074

  function Negative(bits: nat): bool {
    bits >= TWO63
  }

  function Magnitude(bits: nat): nat {
    if bits >= TWO63 then bits - TWO63 else bits
  }

  predicate IsF64(bits: nat) {
    bits < TWO64
  }

  // ---- totalCmpF64 -------------------------------------------------------------------------------------

  /** The pattern read as a signed integer. */
  function Signed(bits: nat): int {
    if bits >= TWO63 then bits - TWO64 else bits
  }

  /** All but the sign bit complemented when the sign bit is set, then read as a signed integer. */
  function TotalKey(bits: nat): int {
    var x := Signed(bits);
    if x < 0 then TWO63 - 1 - (x + TWO63) - TWO63 else x
  }

  /** The value of a finite magnitude, in units of 2^-1074. */
  function Scaled(mag: nat): nat {
    var e, m := mag / HIDDEN, mag % HIDDEN;
    if e == 0 then m else (HIDDEN + m) * Pow2(e - 1)
  }

  lemma ScaledGrows(a: nat, b: nat)
    requires a < b
    ensures Scaled(a) < Scaled(b)
  {
    var ea, ma, eb, mb := a / HIDDEN, a % HIDDEN, b / HIDDEN, b % HIDDEN;
    if ea == eb {
      if ea > 0 { Scale(HIDDEN + ma, HIDDEN + mb, Pow2(ea - 1)); }
    } else {
      assert ea < eb;
      Scale(HIDDEN, HIDDEN + mb + 1, Pow2(eb - 1));
      if ea == 0 {
        if eb > 1 { PowersGrow(0, eb - 1); }
        Scale(1, Pow2(eb - 1) + 1, HIDDEN);
      } else {
        PowersGrow(ea - 1, eb - 1);
        Scale(HIDDEN + ma, 2 * HIDDEN, Pow2(ea - 1));
        Scale(2 * Pow2(ea - 1), Pow2(eb - 1) + 1, HIDDEN);
      }
    }
  }

  lemma Scale(x: nat, y: nat, p: nat)
    requires x < y && p > 0
    ensures x * p < y * p && x * p <= (y - 1) * p
  {
  }

  /** A finite value with its sign, in units of 2^-1074. */
  function ValueOf(bits: nat): int {
    if Negative(bits) then 0 - Scaled(Magnitude(bits)) else Scaled(Magnitude(bits))
  }

  /** -NaN, -infinity, finite, +infinity, +NaN. */
  function Tier(bits: nat): nat {
    var m := Magnitude(bits);
    if m < INFINITE then 2
    else if m == INFINITE then if Negative(bits) then 1 else 3
    else if Negative(bits) then 0 else 4
  }

  /** The strict total order of section 5.10 of IEEE 754-2019: by tier, finite values by value with
      the negative zero first, NaNs of one sign by payload. */
  ghost predicate TotalBefore(x: nat, y: nat) {
    if Tier(x) != Tier(y) then Tier(x) < Tier(y)
    else if Tier(x) == 2 then ValueOf(x) < ValueOf(y) || (ValueOf(x) == ValueOf(y) && Negative(x) && !Negative(y))
    else if Negative(x) then Magnitude(y) < Magnitude(x)
    else Magnitude(x) < Magnitude(y)
  }

  /** The bit trick decides exactly that order. */
  lemma TotalKeyIsTotalOrder(x: nat, y: nat)
    requires IsF64(x) && IsF64(y)
    ensures TotalKey(x) < TotalKey(y) <==> TotalBefore(x, y)
    ensures TotalKey(x) == TotalKey(y) <==> x == y
  {
    var a, b := Magnitude(x), Magnitude(y);
    if a < b { ScaledGrows(a, b); } else if b < a { ScaledGrows(b, a); }
  }

  // ---- floats that are integers ------------------------------------------------------------------------

  /** A finite magnitude is a whole number of `2^u` units. */
  predicate Whole(mag: nat, u: nat) {
    mag < INFINITE && Scaled(mag) % Pow2(u) == 0
  }

  /** A signed magnitude in `2^u` units, fraction dropped. */
  function WholePart(bits: nat, u: nat): int {
    var q := Scaled(Magnitude(bits)) / Pow2(u);
    if Negative(bits) then -q else q
  }

  function IntPart(bits: nat): int {
    WholePart(bits, UNITS)
  }

  /** `f == Trunc(f)` and in the 64-bit range. */
  predicate IsInt64(bits: nat) {
    Whole(Magnitude(bits), UNITS) && 0 - TWO63 <= IntPart(bits) < TWO63
  }

  /** Two floats meet in one integer only if they are the same float or the two zeros. */
  lemma SameIntSameFloat(x: nat, y: nat)
    requires IsF64(x) && IsF64(y) && IsInt64(x) && IsInt64(y) && IntPart(x) == IntPart(y)
    ensures x == y || (Magnitude(x) == 0 && Magnitude(y) == 0)
  {
    SameWholeSameFloat(x, y, UNITS);
  }

  lemma SameWholeSameFloat(x: nat, y: nat, u: nat)
    requires IsF64(x) && IsF64(y) && Whole(Magnitude(x), u) && Whole(Magnitude(y), u)
    requires WholePart(x, u) == WholePart(y, u)
    ensures x == y || (Magnitude(x) == 0 && Magnitude(y) == 0)
  {
    var a, b := Magnitude(x), Magnitude(y);
    Remultiplied(Scaled(a), Pow2(u));
    Remultiplied(Scaled(b), Pow2(u));
    assert Scaled(a) == Scaled(b);
    if a < b { ScaledGrows(a, b); } else if b < a { ScaledGrows(b, a); }
    ScaledIsPositive(a);
  }

  lemma ScaledIsPositive(mag: nat)
    ensures Scaled(mag) == 0 <==> mag == 0
  {
    if mag > 0 { ScaledGrows(0, mag); }
  }

  lemma Remultiplied(s: nat, p: nat)
    requires p > 0 && s % p == 0
    ensures s == (s / p) * p
  {
  }

  // ---- integers as floats ------------------------------------------------------------------------------

  function BitLength(n: nat): nat {
    if n == 0 then 0 else 1 + BitLength(n / 2)
  }

  /** The magnitude nearest to `n`, ties to even; a carry out of the fraction moves the exponent. */
  function NearestMagnitude(n: nat): nat {
    var k := BitLength(n);
    if n == 0 then 0
    else if k <= 53 then (1021 + k) * HIDDEN + n * Pow2(53 - k)
    else (1021 + k) * HIDDEN + Rounded(n, Pow2(k - 53))
  }

  /** `n` in units, to the nearest, ties to the even quotient. */
  function Rounded(n: nat, unit: nat): nat
    requires unit > 0
  {
    var q, r := n / unit, n % unit;
    if 2 * r > unit || (2 * r == unit && q % 2 == 1) then q + 1 else q
  }

  /** `float64(i)`. */
  function ToF64(i: int): nat {
    if i < 0 then TWO63 + NearestMagnitude(-i) else NearestMagnitude(i)
  }

  lemma {:induction false} PowersAdd(j: nat, k: nat)
    ensures Pow2(j) * Pow2(k) == Pow2(j + k)
  {
    if j > 0 {
      PowersAdd(j - 1, k);
      assert Pow2(j) * Pow2(k) == 2 * (Pow2(j - 1) * Pow2(k));
    }
  }

  lemma {:induction false} BitLengthBounds(n: nat)
    requires n > 0
    ensures BitLength(n) > 0 && Pow2(BitLength(n) - 1) <= n < Pow2(BitLength(n))
  {
    if n > 1 { BitLengthBounds(n / 2); }
  }

  lemma HiddenIsPower()
    ensures Pow2(52) == HIDDEN && Pow2(53) == 2 * HIDDEN
  {
    assert Pow2(13) == 0x2000;
    PowersAdd(13, 13);
    PowersAdd(26, 26);
  }

  lemma ShortBits(n: nat)
    requires 0 < n < Pow2(53)
    ensures 0 < BitLength(n) <= 53
    ensures HIDDEN <= n * Pow2(53 - BitLength(n)) < 2 * HIDDEN
  {
    BitLengthBounds(n);
    var k := BitLength(n);
    HiddenIsPower();
    assert k <= 53;
    PowersAdd(k - 1, 53 - k);
    PowersAdd(k, 53 - k);
    Ordered(Pow2(k - 1), n, Pow2(53 - k));
    Scale(n, Pow2(k), Pow2(53 - k));
  }

  lemma Ordered(x: nat, y: nat, p: nat)
    requires x <= y
    ensures x * p <= y * p
  {
  }

  lemma NearestIsExact(n: nat, u: nat)
    requires 0 < n < Pow2(53) && u == UNITS
    ensures Scaled(NearestMagnitude(n)) == n * Pow2(u) && NearestMagnitude(n) < INFINITE
  {
    HiddenIsPower();
    ShortBits(n);
    var k := BitLength(n);
    var f := n * Pow2(53 - k);
    var mag := NearestMagnitude(n);
    assert mag == (1022 + k) * HIDDEN + (f - HIDDEN);
    assert mag / HIDDEN == 1022 + k && mag % HIDDEN == f - HIDDEN;
    PowersAdd(53 - k, 1021 + k);
    Regroup(n, Pow2(53 - k), Pow2(1021 + k));
  }

  /** Below 2^53 an integer converts exactly, so it and its float are one number again. */
  lemma SmallIntegersAreExact(i: int)
    requires 0 - Pow2(53) < i < Pow2(53)
    ensures IsInt64(ToF64(i)) && IntPart(ToF64(i)) == i
  {
    HiddenIsPower();
    SmallWhole(i, UNITS);
  }

  lemma SmallWhole(i: int, u: nat)
    requires 0 - Pow2(53) < i < Pow2(53) && u == UNITS
    ensures Whole(Magnitude(ToF64(i)), u) && WholePart(ToF64(i), u) == i
  {
    var n: nat := if i < 0 then -i else i;
    if n == 0 {
      assert Scaled(0) == 0;
    } else {
      NearestIsExact(n, u);
      Multiple(n, Pow2(u));
    }
  }

  // ---- conversion keeps order ------------------------------------------------------------------------------

  lemma {:induction false} BitLengthGrows(n: nat, m: nat)
    requires n <= m
    ensures BitLength(n) <= BitLength(m)
  {
    if n > 0 { BitLengthGrows(n / 2, m / 2); }
  }

  /** Long integers keep 53 leading bits. */
  lemma LongBits(n: nat)
    requires BitLength(n) > 53
    ensures HIDDEN <= n / Pow2(BitLength(n) - 53) < 2 * HIDDEN
  {
    var k := BitLength(n);
    var unit := Pow2(k - 53);
    BitLengthBounds(n);
    HiddenIsPower();
    PowersAdd(52, k - 53);
    PowersAdd(53, k - 53);
    QuotientBetween(n, unit, HIDDEN, 2 * HIDDEN);
  }

  lemma QuotientBetween(n: nat, unit: nat, lo: nat, hi: nat)
    requires unit > 0 && lo * unit <= n < hi * unit
    ensures lo <= n / unit < hi
  {
    var q, r := n / unit, n % unit;
    assert n == q * unit + r;
    if q + 1 <= lo { Ordered(q + 1, lo, unit); }
    if q >= hi { Ordered(hi, q, unit); }
  }

  /** An integer of `k` bits lands within one exponent, or on the first value of the next. */
  lemma NearestBetween(n: nat)
    requires n > 0
    ensures (1022 + BitLength(n)) * HIDDEN <= NearestMagnitude(n) <= (1023 + BitLength(n)) * HIDDEN
  {
    if BitLength(n) <= 53 { ShortNearest(n, 53); } else { LongBits(n); }
  }

  lemma ShortNearest(n: nat, top: nat)
    requires n > 0 && BitLength(n) <= top == 53
    ensures (1022 + BitLength(n)) * HIDDEN <= NearestMagnitude(n) < (1023 + BitLength(n)) * HIDDEN
  {
    var k := BitLength(n);
    BitLengthBounds(n);
    if k < top { PowersGrow(k, top); }
    ShortBits(n);
  }

  /** Within one bit length the rounded quotients ascend. */
  lemma SameLengthAscends(n: nat, m: nat)
    requires 0 < n <= m && BitLength(n) == BitLength(m)
    ensures NearestMagnitude(n) <= NearestMagnitude(m)
  {
    var k := BitLength(n);
    if k <= 53 {
      Ordered(n, m, Pow2(53 - k));
    } else {
      RoundingAscends(n, m, Pow2(k - 53));
    }
  }

  lemma RoundingAscends(n: nat, m: nat, unit: nat)
    requires n <= m && unit > 0
    ensures n / unit < m / unit || (n / unit == m / unit && n % unit <= m % unit)
  {
    var q, q' := n / unit, m / unit;
    assert n == q * unit + n % unit && m == q' * unit + m % unit;
    if q > q' { Ordered(q' + 1, q, unit); }
  }

  lemma NearestAscends(n: nat, m: nat)
    requires n <= m
    ensures NearestMagnitude(n) <= NearestMagnitude(m)
  {
    if n > 0 {
      BitLengthGrows(n, m);
      if BitLength(n) == BitLength(m) {
        SameLengthAscends(n, m);
      } else {
        NearestBetween(n);
        NearestBetween(m);
      }
    }
  }

  /** Every 64-bit integer's magnitude is a finite float's. */
  lemma NearestIsFinite(n: nat)
    requires n <= TWO63
    ensures NearestMagnitude(n) < INFINITE
  {
    if n > 0 {
      HiddenIsPower();
      assert Pow2(11) == 0x800;
      PowersAdd(11, 52);
      BitLengthBounds(n);
      if BitLength(n) > 64 { PowersGrow(63, BitLength(n) - 1); }
      NearestBetween(n);
    }
  }

  /** Conversion to float is monotone over all 64-bit integers, however it rounds. */
  lemma ConversionAscends(i: int, j: int)
    requires 0 - TWO63 <= i <= j < TWO63
    ensures IsF64(ToF64(i)) && IsF64(ToF64(j)) && TotalKey(ToF64(i)) <= TotalKey(ToF64(j))
  {
    NearestIsFinite(if i < 0 then -i else i);
    NearestIsFinite(if j < 0 then -j else j);
    if j < 0 { NearestAscends(-j, -i); } else if i >= 0 { NearestAscends(i, j); }
  }

  const TWO53: nat := 0x20_0000_0000_0000

  /** The first two integers that share a float. */
  lemma NeighborsTie(i: int)
    requires i == TWO53
    ensures ToF64(i) == ToF64(i + 1)
  {
    HiddenIsPower();
    FiftyFourBits(i, 53);
    FiftyFourBits(i + 1, 53);
    HalfUnit(i, 54);
  }

  lemma FiftyFourBits(n: nat, k: nat)
    requires k == 53 && Pow2(k) <= n < Pow2(k) + 2 && Pow2(k) == TWO53
    ensures BitLength(n) == k + 1
  {
    TopBit(n, k);
  }

  lemma HalfUnit(n: nat, k: nat)
    requires n == TWO53 && k == 54 && BitLength(n) == BitLength(n + 1) == k
    ensures NearestMagnitude(n) == NearestMagnitude(n + 1)
  {
    assert Pow2(k - 53) == 2 by { assert Pow2(1) == 2; }
    assert n / 2 == HIDDEN && (n + 1) / 2 == HIDDEN;
  }

  lemma TopBit(n: nat, k: nat)
    requires Pow2(k) <= n < Pow2(k + 1)
    ensures BitLength(n) == k + 1
  {
    BitLengthBounds(n);
    var b := BitLength(n);
    if b < k + 1 { if b < k { PowersGrow(b, k); } } else if b > k + 1 { if b - 1 > k + 1 { PowersGrow(k + 1, b - 1); } }
  }

  // ---- what an integer converts to -----------------------------------------------------------------------

  /** `n` to 53 bits: itself if it has no more, else the nearest multiple of its last place. */
  function Nearest53(n: nat): nat {
    if BitLength(n) <= 53 then n else Rounded(n, Pow2(BitLength(n) - 53)) * Pow2(BitLength(n) - 53)
  }

  function NearestInt(i: int): int {
    if i < 0 then 0 - Nearest53(-i) else Nearest53(i)
  }

  lemma RoundedBetween(n: nat, k: nat)
    requires k == BitLength(n) > 53
    ensures HIDDEN <= Rounded(n, Pow2(k - 53)) <= 2 * HIDDEN
  {
    LongBits(n);
  }

  /** A fraction `f` at exponent `e`, the carry into the next exponent included. */
  lemma ScaledAt(e: nat, f: nat)
    requires e >= 1 && HIDDEN <= f <= 2 * HIDDEN
    ensures Scaled((e - 1) * HIDDEN + f) == f * Pow2(e - 1)
  {
    var mag := (e - 1) * HIDDEN + f;
    if f < 2 * HIDDEN {
      assert mag == e * HIDDEN + (f - HIDDEN);
      assert mag / HIDDEN == e && mag % HIDDEN == f - HIDDEN;
    } else {
      assert mag == (e + 1) * HIDDEN;
      assert mag / HIDDEN == e + 1 && mag % HIDDEN == 0;
      assert Pow2(e) == 2 * Pow2(e - 1);
      Regroup(HIDDEN, 2, Pow2(e - 1));
    }
  }

  /** The float of `n` is worth exactly `Nearest53(n)`. */
  lemma NearestValue(n: nat, u: nat)
    requires u == UNITS
    ensures Scaled(NearestMagnitude(n)) == Nearest53(n) * Pow2(u)
  {
    if n == 0 {
      assert Scaled(0) == 0;
    } else if BitLength(n) <= 53 {
      ShortValue(n, u, 53);
    } else {
      LongValue(n, u, BitLength(n), Rounded(n, Pow2(BitLength(n) - 53)));
    }
  }

  lemma LongValue(n: nat, u: nat, k: nat, f: nat)
    requires u == UNITS && k == BitLength(n) > 53 && f == Rounded(n, Pow2(k - 53))
    ensures NearestMagnitude(n) == (1021 + k) * HIDDEN + f && Nearest53(n) == f * Pow2(k - 53)
    ensures Scaled(NearestMagnitude(n)) == f * Pow2(k - 53) * Pow2(u)
  {
    RoundedBetween(n, k);
    ScaledAt(1022 + k, f);
    PowersAdd(k - 53, u);
    Regroup(f, Pow2(k - 53), Pow2(u));
  }

  lemma ShortValue(n: nat, u: nat, top: nat)
    requires u == UNITS && n > 0 && BitLength(n) <= top == 53
    ensures Scaled(NearestMagnitude(n)) == n * Pow2(u)
  {
    BitLengthBounds(n);
    if BitLength(n) < top { PowersGrow(BitLength(n), top); }
    NearestIsExact(n, u);
  }

  /** Two magnitudes share a float exactly when they round to one number. */
  lemma NearestTiesIff(n: nat, m: nat)
    ensures NearestMagnitude(n) == NearestMagnitude(m) <==> Nearest53(n) == Nearest53(m)
  {
    SharedValue(n, m, UNITS);
  }

  lemma SharedValue(n: nat, m: nat, u: nat)
    requires u == UNITS
    ensures NearestMagnitude(n) == NearestMagnitude(m) <==> Nearest53(n) == Nearest53(m)
  {
    NearestValue(n, u);
    NearestValue(m, u);
    OneValueOneMagnitude(NearestMagnitude(n), NearestMagnitude(m), Nearest53(n), Nearest53(m), Pow2(u));
  }

  lemma OneValueOneMagnitude(a: nat, b: nat, x: nat, y: nat, p: nat)
    requires p > 0 && Scaled(a) == x * p && Scaled(b) == y * p
    ensures a == b <==> x == y
  {
    if a < b { ScaledGrows(a, b); } else if b < a { ScaledGrows(b, a); }
    if x <= y { SameWhenScaled(x, y, p); } else { SameWhenScaled(y, x, p); }
  }

  lemma Nearest53IsPositive(n: nat)
    requires n > 0
    ensures Nearest53(n) > 0
  {
    if BitLength(n) > 53 {
      RoundedBetween(n, BitLength(n));
      Ordered(1, Rounded(n, Pow2(BitLength(n) - 53)), Pow2(BitLength(n) - 53));
    }
  }

  /** Two 64-bit integers convert to one float exactly when they round to one number. */
  lemma ConversionTiesIff(i: int, j: int)
    requires 0 - TWO63 <= i < TWO63 && 0 - TWO63 <= j < TWO63
    ensures ToF64(i) == ToF64(j) <==> NearestInt(i) == NearestInt(j)
  {
    var n: nat, m: nat := if i < 0 then -i else i, if j < 0 then -j else j;
    NearestIsFinite(n);
    NearestIsFinite(m);
    NearestTiesIff(n, m);
    if i < 0 { Nearest53IsPositive(n); }
    if j < 0 { Nearest53IsPositive(m); }
  }

  // ---- it is the nearest float ------------------------------------------------------------------------------

  function Apart(x: int, y: int): nat {
    if x < y then y - x else x - y
  }

  /** No multiple of the unit is nearer, and one as near leaves the even quotient chosen. */
  lemma RoundedIsNearest(n: nat, unit: nat, j: nat)
    requires unit > 0
    ensures Apart(Rounded(n, unit) * unit, n) <= Apart(j * unit, n)
    ensures Apart(Rounded(n, unit) * unit, n) == Apart(j * unit, n) && j != Rounded(n, unit) ==> Rounded(n, unit) % 2 == 0
  {
    assert n == n / unit * unit + n % unit;
    NearerQuotient(n, unit, n / unit, n % unit, Rounded(n, unit), j);
  }

  lemma NearerQuotient(n: nat, unit: nat, q: nat, r: nat, f: nat, j: nat)
    requires n == q * unit + r && r < unit
    requires f == if 2 * r > unit || (2 * r == unit && q % 2 == 1) then q + 1 else q
    ensures Apart(f * unit, n) <= Apart(j * unit, n)
    ensures Apart(f * unit, n) == Apart(j * unit, n) && j != f ==> f % 2 == 0
  {
    MultipleApart(n, unit, q, r, j);
    MultipleApart(n, unit, q, r, f);
  }

  /** How far the multiples of the unit lie from `n`, the two around it and the rest. */
  lemma MultipleApart(n: nat, unit: nat, q: nat, r: nat, j: nat)
    requires n == q * unit + r && r < unit
    ensures j == q ==> Apart(j * unit, n) == r
    ensures j == q + 1 ==> Apart(j * unit, n) == unit - r
    ensures j < q ==> Apart(j * unit, n) >= unit + r
    ensures j > q + 1 ==> Apart(j * unit, n) >= 2 * unit - r
  {
    if j < q {
      Ordered(j + 1, q, unit);
      assert (j + 1) * unit == j * unit + unit;
    } else if j == q + 1 {
      assert (q + 1) * unit == q * unit + unit;
    } else if j > q + 1 {
      Ordered(q + 2, j, unit);
      assert (q + 2) * unit == q * unit + 2 * unit;
    }
  }

  /** Multiplying by the scale keeps which is nearer. */
  lemma ScaledApart(x: nat, y: nat, p: nat)
    ensures Apart(x * p, y * p) == Apart(x, y) * p
  {
    if x < y { assert y * p - x * p == (y - x) * p; } else { assert x * p - y * p == (x - y) * p; }
    if x < y { Ordered(x, y, p); } else { Ordered(y, x, p); }
  }

  /** A finite value beside `n`'s: below its first power of two, at a multiple of its last place, or at
      or above the next power. */
  lemma FloatsAround(n: nat, mag: nat, u: nat, k: nat, base: nat) returns (j: nat)
    requires u == UNITS && k == BitLength(n) > 53 && base == (1021 + k) * HIDDEN
    ensures Around(Scaled(mag), mag, n, Pow2(u), j, Pow2(k - 53), base)
  {
    LongSpan(n, k, Pow2(k - 53));
    var low, high := (1022 + k) * HIDDEN, (1023 + k) * HIDDEN;
    PowersAdd(k - 53, u);
    ScaledAt(1022 + k, HIDDEN);
    ScaledAt(1022 + k, 2 * HIDDEN);
    Regroup(HIDDEN, Pow2(k - 53), Pow2(u));
    Regroup(2 * HIDDEN, Pow2(k - 53), Pow2(u));
    if mag < low {
      ScaledGrows(mag, low);
      j := HIDDEN;
    } else if mag > high {
      ScaledGrows(high, mag);
      j := 2 * HIDDEN;
    } else {
      j := mag - (1021 + k) * HIDDEN;
      ScaledAt(1022 + k, j);
      Regroup(j, Pow2(k - 53), Pow2(u));
    }
  }

  /** No finite float is nearer to `n`'s value than its own, and where another is as near, its own is
      even. */
  ghost predicate IsNearest(mag: nat, n: nat, other: nat, p: nat) {
    var mine, theirs := Apart(Scaled(mag), n * p), Apart(Scaled(other), n * p);
    mine <= theirs && (mine == theirs && other != mag ==> mag % 2 == 0)
  }

  lemma ConversionIsNearest(n: nat, other: nat, u: nat)
    requires u == UNITS
    ensures IsNearest(NearestMagnitude(n), n, other, Pow2(u))
  {
    NearestValue(n, u);
    if BitLength(n) > 53 {
      LongIsNearest(n, other, u, BitLength(n));
    } else if other < NearestMagnitude(n) {
      ScaledGrows(other, NearestMagnitude(n));
    } else if other > NearestMagnitude(n) {
      ScaledGrows(NearestMagnitude(n), other);
    }
  }

  lemma LongIsNearest(n: nat, other: nat, u: nat, k: nat)
    requires u == UNITS && k == BitLength(n) > 53
    ensures IsNearest(NearestMagnitude(n), n, other, Pow2(u))
  {
    var unit, base := Pow2(k - 53), (1021 + k) * HIDDEN;
    var f := Rounded(n, unit);
    LongValue(n, u, k, f);
    var j := FloatsAround(n, other, u, k, base);
    EvenBase(k, base, f, NearestMagnitude(n));
    RoundedIsNearest(n, unit, j);
    NearerMultiple(NearestMagnitude(n), n, other, Pow2(u), f, j, unit, base);
  }

  /** The case split over where the other float lies. */
  lemma NearerMultiple(mag: nat, n: nat, other: nat, p: nat, f: nat, j: nat, unit: nat, base: nat)
    requires p > 0 && mag == base + f && Scaled(mag) == f * unit * p && (f % 2 == 0 ==> mag % 2 == 0)
    requires Apart(f * unit, n) <= Apart(j * unit, n)
    requires Apart(f * unit, n) == Apart(j * unit, n) && j != f ==> f % 2 == 0
    requires Around(Scaled(other), other, n, p, j, unit, base)
    ensures IsNearest(mag, n, other, p)
  {
    var x, y := f * unit, j * unit;
    ScaledApart(x, n, p);
    ScaledApart(y, n, p);
    Ordered(Apart(x, n), Apart(y, n), p);
    SameWhenScaled(Apart(x, n), Apart(y, n), p);
    if y <= n { Ordered(y, n, p); }
    if n <= y { Ordered(n, y, p); }
    Weigh(Scaled(other), y * p, n * p, Apart(x, n) * p, Apart(y, n) * p, y, n);
  }

  lemma Weigh(s: nat, y: nat, n: nat, mine: nat, dy: nat, y0: nat, n0: nat)
    requires Apart(y, n) == dy && mine <= dy && (y0 <= n0 ==> y <= n) && (n0 <= y0 ==> n <= y)
    requires s == y || (s < y && y0 <= n0) || (s > y && n0 <= y0)
    ensures mine <= Apart(s, n) && (mine == Apart(s, n) ==> s == y && mine == dy)
  {
  }

  /** `s`, a float's value in units, lies below, at or above the `j`-th multiple, on the far side of
      `n` unless at it. */
  ghost predicate Around(s: nat, mag: nat, n: nat, p: nat, j: nat, unit: nat, base: nat) {
    || (s < j * unit * p && j * unit <= n)
    || (s == j * unit * p && mag == base + j)
    || (s > j * unit * p && n <= j * unit)
  }

  lemma EvenBase(k: nat, base: nat, f: nat, mag: nat)
    requires base == (1021 + k) * HIDDEN && mag == base + f
    ensures f % 2 == 0 ==> mag % 2 == 0
  {
    EvenProduct(1021 + k, HIDDEN / 2);
    assert base == (1021 + k) * (2 * (HIDDEN / 2));
  }

  lemma EvenProduct(x: nat, h: nat)
    ensures (x * (2 * h)) % 2 == 0
  {
    assert x * (2 * h) == 2 * (x * h);
  }

  lemma LongSpan(n: nat, k: nat, unit: nat)
    requires k == BitLength(n) > 53 && unit == Pow2(k - 53)
    ensures HIDDEN * unit <= n <= 2 * HIDDEN * unit
  {
    BitLengthBounds(n);
    HiddenIsPower();
    PowersAdd(52, k - 53);
    PowersAdd(53, k - 53);
  }

  lemma SameWhenScaled(x: nat, y: nat, p: nat)
    requires p > 0 && x <= y
    ensures x * p == y * p ==> x == y
  {
    if x < y { Scale(x, y, p); }
  }

  lemma Regroup(a: nat, b: nat, c: nat)
    ensures (a * b) * c == a * (b * c)
  {
  }

  lemma Multiple(n: nat, p: nat)
    requires p > 0
    ensures (n * p) % p == 0 && (n * p) / p == n
  {
    var q, r := (n * p) / p, (n * p) % p;
    var d := n - q;
    assert d * p == r;
    if d >= 1 { Ordered(1, d, p); }
  }
}
