/** The per-position relationship-type vector, palette-compressed when few distinct types occur, and
    the type tests over either form. */
module RelTypes {
  const PALETTE_MAX: nat := 256
  const DENSE_TYPE_BOUND: nat := 0x1_0000

  datatype RelTypes = Wide(wide: seq<nat>) | Narrow(palette: seq<nat>, idx: seq<nat>)

  ghost predicate Valid(r: RelTypes) {
    r.Narrow? ==>
      && |r.palette| <= PALETTE_MAX
      && (forall i, j :: 0 <= i < j < |r.palette| ==> r.palette[i] != r.palette[j])
      && (forall p :: 0 <= p < |r.idx| ==> r.idx[p] < |r.palette|)
  }

  function Len(r: RelTypes): nat {
    if r.Wide? then |r.wide| else |r.idx|
  }

  function At(r: RelTypes, pos: nat): nat
    requires Valid(r) && pos < Len(r)
  {
    if r.Wide? then r.wide[pos] else r.palette[r.idx[pos]]
  }

  /** Whatever the form, the vector reads as `ts`. */
  ghost predicate SpellsOut(r: RelTypes, ts: seq<nat>) {
    Valid(r) && Len(r) == |ts| && forall p :: 0 <= p < |ts| ==> At(r, p) == ts[p]
  }

  method MaxOf(ts: seq<nat>) returns (max: nat)
    ensures forall p :: 0 <= p < |ts| ==> ts[p] <= max
  {
    max := 0;
    for p := 0 to |ts|
      invariant forall q :: 0 <= q < p ==> ts[q] <= max
    {
      if ts[p] > max { max := ts[p]; }
    }
  }

  /** The direct-index table inverts the palette. */
  ghost predicate Inverts(lut: seq<int>, palette: seq<nat>) {
    && (forall t :: 0 <= t < |lut| ==> -1 <= lut[t] < |palette| && (lut[t] >= 0 ==> palette[lut[t]] == t))
    && (forall i :: 0 <= i < |palette| ==> palette[i] < |lut| && lut[palette[i]] == i)
  }

  lemma PaletteGrows(lut: seq<int>, palette: seq<nat>, t: nat)
    requires Inverts(lut, palette) && t < |lut| && lut[t] < 0
    ensures Inverts(lut[t := |palette|], palette + [t])
  {
  }

  /** The narrowest form that holds the types. */
  method Compress(ts: seq<nat>) returns (r: RelTypes)
    ensures SpellsOut(r, ts)
  {
    var max := MaxOf(ts);
    if max >= DENSE_TYPE_BOUND { return Wide(ts); }
    var lut := new int[max + 1](_ => -1);
    var palette: seq<nat>, idx: seq<nat> := [], [];
    for p := 0 to |ts|
      invariant Inverts(lut[..], palette) && |palette| <= PALETTE_MAX
      invariant |idx| == p && forall q :: 0 <= q < p ==> idx[q] < |palette| && palette[idx[q]] == ts[q]
    {
      var t := ts[p];
      if lut[t] < 0 {
        if |palette| >= PALETTE_MAX { return Wide(ts); }
        PaletteGrows(lut[..], palette, t);
        ghost var was := lut[..];
        lut[t] := |palette|;
        assert lut[..] == was[t := |palette|];
        palette := palette + [t];
      }
      idx := idx + [lut[t]];
    }
    r := Narrow(palette, idx);
    forall i, j | 0 <= i < j < |palette| ensures palette[i] != palette[j] {
      assert lut[palette[i]] == i && lut[palette[j]] == j;
    }
  }

  /** `t`'s palette index, or -1 when it has none. */
  method PaletteIndexOf(r: RelTypes, t: nat) returns (i: int)
    requires Valid(r)
    ensures IsPaletteIndex(r, t, i)
  {
    if r.Wide? { return -1; }
    for k := 0 to |r.palette|
      invariant forall j :: 0 <= j < k ==> r.palette[j] != t
    {
      if r.palette[k] == t { return k; }
    }
    return -1;
  }

  ghost predicate IsPaletteIndex(r: RelTypes, t: nat, i: int) {
    if r.Wide? then i == -1
    else -1 <= i < |r.palette| && (i >= 0 ==> r.palette[i] == t) && (i == -1 ==> t !in r.palette)
  }

  // ---- matchers ------------------------------------------------------------------------------------------

  datatype RelMatch = MatchAll | MatchOne(one: nat) | MatchMany(many: seq<nat>)

  predicate Matches(m: RelMatch, t: nat) {
    match m
    case MatchAll => true
    case MatchOne(one) => one == t
    case MatchMany(many) => t in many
  }

  /** A resolved per-position test. */
  datatype Test = Always | Never | WideIs(t: nat) | IndexIs(b: nat) | IndexIn(mask: set<nat>) | WideIn(ts: seq<nat>)

  predicate Passes(test: Test, r: RelTypes, pos: nat)
    requires pos < Len(r)
  {
    match test
    case Always => true
    case Never => false
    case WideIs(t) => r.Wide? && r.wide[pos] == t
    case IndexIs(b) => r.Narrow? && r.idx[pos] == b
    case IndexIn(mask) => r.Narrow? && r.idx[pos] in mask
    case WideIn(ts) => r.Wide? && r.wide[pos] in ts
  }

  /** The palette indexes of the sought types. */
  method MaskOf(palette: seq<nat>, many: seq<nat>) returns (mask: set<nat>)
    ensures forall i: nat :: i in mask <==> i < |palette| && palette[i] in many
  {
    mask := {};
    for i := 0 to |palette|
      invariant forall j: nat :: j in mask <==> j < i && palette[j] in many
    {
      for k := 0 to |many|
        invariant forall j: nat :: j in mask <==> (j < i && palette[j] in many) || (j == i && palette[i] in many[..k])
      {
        if palette[i] == many[k] { mask := mask + {i}; }
      }
      assert many[..|many|] == many;
    }
  }

  /** Representation, palette resolution and match-all settled once; the test then agrees with the
      matcher at every position. `ti` is the single type's palette index, resolved beforehand. */
  method TypeTest(m: RelMatch, r: RelTypes, ti: int) returns (test: Test)
    requires Valid(r) && (m.MatchOne? ==> IsPaletteIndex(r, m.one, ti))
    ensures forall pos :: 0 <= pos < Len(r) ==> (Passes(test, r, pos) <==> Matches(m, At(r, pos)))
  {
    match m
    case MatchAll => return Always;
    case MatchOne(t) =>
      if r.Wide? { return WideIs(t); }
      if ti < 0 { return Never; }
      return IndexIs(ti);
    case MatchMany(many) =>
      if many == [] { return Never; }
      if r.Wide? { return WideIn(many); }
      var mask := MaskOf(r.palette, many);
      if mask == {} { return Never; }
      return IndexIn(mask);
  }
}
