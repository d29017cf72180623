/** The atoms section of an RCPG file -- a count, then length-prefixed strings -- with its eager codec
    and the block index over it. */
module AtomSection {
  import opened Powers
  import opened Columns

  const U32: nat := 0x1_0000_0000

  /** Strings are byte sequences; lengths and the count fit 32 bits. */
  ghost predicate Writable(atoms: seq<seq<nat>>) {
    |atoms| < U32 && forall i :: 0 <= i < |atoms| ==> |atoms[i]| < U32
  }

  function WString(s: seq<nat>): seq<nat> {
    LeBytes(|s|, 4) + s
  }

  function Strings(atoms: seq<seq<nat>>): seq<nat> {
    if atoms == [] then [] else Strings(atoms[..|atoms| - 1]) + WString(atoms[|atoms| - 1])
  }

  /** The section body. */
  function Body(atoms: seq<seq<nat>>): seq<nat> {
    LeBytes(|atoms|, 4) + Strings(atoms)
  }

  /** Where atom `k`'s length prefix is in the body; past the last atom, the body's length. */
  function OffsetOf(atoms: seq<seq<nat>>, k: nat): nat
    requires k <= |atoms|
  {
    if k == 0 then 4 else OffsetOf(atoms, k - 1) + 4 + |atoms[k - 1]|
  }

  lemma {:induction false} StringsLength(atoms: seq<seq<nat>>, k: nat)
    requires k <= |atoms|
    ensures 4 + |Strings(atoms[..k])| == OffsetOf(atoms, k)
  {
    if k > 0 {
      StringsLength(atoms, k - 1);
      assert atoms[..k][..k - 1] == atoms[..k - 1];
    }
  }

  lemma {:induction false} StringsSplit(atoms: seq<seq<nat>>, k: nat)
    requires k <= |atoms|
    ensures |Strings(atoms[..k])| <= |Strings(atoms)|
    ensures Strings(atoms)[..|Strings(atoms[..k])|] == Strings(atoms[..k])
  {
    if k == |atoms| {
      assert atoms[..k] == atoms;
    } else {
      var init := atoms[..|atoms| - 1];
      StringsSplit(init, k);
      assert init[..k] == atoms[..k];
    }
  }

  lemma BodyLength(atoms: seq<seq<nat>>)
    ensures |Body(atoms)| == OffsetOf(atoms, |atoms|)
  {
    StringsLength(atoms, |atoms|);
    assert atoms[..|atoms|] == atoms;
  }

  lemma {:induction false} OffsetsAscend(atoms: seq<seq<nat>>, j: nat, k: nat)
    requires j <= k <= |atoms|
    ensures OffsetOf(atoms, j) + 4 * (k - j) <= OffsetOf(atoms, k)
    ensures OffsetOf(atoms, j) >= 4
    decreases k
  {
    if j < k { OffsetsAscend(atoms, j, k - 1); } else if k > 0 { OffsetsAscend(atoms, j - 1, k - 1); }
  }

  /** Atom `k` sits at its offset: prefix, then bytes. */
  lemma AtomAt(atoms: seq<seq<nat>>, k: nat)
    requires k < |atoms|
    ensures OffsetOf(atoms, k + 1) <= |Body(atoms)|
    ensures Body(atoms)[OffsetOf(atoms, k)..OffsetOf(atoms, k + 1)] == WString(atoms[k])
  {
    BodyLength(atoms);
    OffsetsAscend(atoms, k + 1, |atoms|);
    StringsSplit(atoms, k + 1);
    StringsLength(atoms, k);
    StringsLength(atoms, k + 1);
    assert atoms[..k + 1][..k] == atoms[..k];
    var s, a, b := Strings(atoms), |Strings(atoms[..k])|, |Strings(atoms[..k + 1])|;
    assert s[a..b] == s[..b][a..] == WString(atoms[k]);
    assert Body(atoms)[4 + a..4 + b] == s[a..b];
  }

  /** The length prefix read back. */
  lemma PrefixReads(n: nat, rest: seq<nat>)
    requires n < U32
    ensures LeValue((LeBytes(n, 4) + rest)[..4]) == n
  {
    ByteWidths();
    LeRoundTrip(n, 4);
    assert (LeBytes(n, 4) + rest)[..4] == LeBytes(n, 4);
  }

  lemma AtomReads(atoms: seq<seq<nat>>, k: nat)
    requires Writable(atoms) && k < |atoms|
    ensures var p := OffsetOf(atoms, k);
            && p + 4 + |atoms[k]| == OffsetOf(atoms, k + 1) <= |Body(atoms)|
            && LeValue(Body(atoms)[p..p + 4]) == |atoms[k]|
            && Body(atoms)[p + 4..p + 4 + |atoms[k]|] == atoms[k]
  {
    AtomAt(atoms, k);
    var body, p, e := Body(atoms), OffsetOf(atoms, k), OffsetOf(atoms, k + 1);
    PrefixReads(|atoms[k]|, atoms[k]);
    assert body[p..p + 4] == body[p..e][..4];
    assert body[p + 4..e] == body[p..e][4..];
  }

  /** `encodeAtoms`. */
  method EncodeAtoms(atoms: seq<seq<nat>>) returns (body: seq<nat>)
    ensures body == Body(atoms)
  {
    body := LeBytes(|atoms|, 4);
    for i := 0 to |atoms|
      invariant body == LeBytes(|atoms|, 4) + Strings(atoms[..i])
    {
      assert atoms[..i + 1][..i] == atoms[..i];
      body := body + LeBytes(|atoms[i]|, 4) + atoms[i];
    }
    assert atoms[..|atoms|] == atoms;
  }

  /** The bounds-checked length prefix at `pos`: a count whose elements could still fit. */
  function LenPrefix(b: seq<nat>, pos: nat): Option<nat>
    requires pos <= |b|
  {
    if |b| - pos < 4 then None
    else
      var n := LeValue(b[pos..pos + 4]);
      if n > |b| - pos - 4 then None else Some(n)
  }

  /** `decodeAtoms`: every atom, or nothing on a corrupt body. What was written comes back. */
  method DecodeAtoms(body: seq<nat>, ghost written: seq<seq<nat>>) returns (atoms: Option<seq<seq<nat>>>)
    ensures Writable(written) && body == Body(written) ==> atoms == Some(written)
  {
    ghost var mine := Writable(written) && body == Body(written);
    if mine { CountReads(written); }
    var count := LenPrefix(body, 0);
    if count.None? { return None; }
    var pos: nat, got: seq<seq<nat>> := 4, [];
    for i := 0 to count.value
      invariant pos <= |body| && |got| == i
      invariant mine ==> Decoded(written, got, pos, count.value)
    {
      if mine { AtomReads(written, i); }
      var n := LenPrefix(body, pos);
      if n.None? { return None; }
      got := got + [body[pos + 4..pos + 4 + n.value]];
      pos := pos + 4 + n.value;
    }
    assert mine ==> written[..|written|] == written;
    return Some(got);
  }

  lemma CountReads(atoms: seq<seq<nat>>)
    requires Writable(atoms)
    ensures LenPrefix(Body(atoms), 0) == Some(|atoms|)
  {
    PrefixReads(|atoms|, Strings(atoms));
    BodyLength(atoms);
    OffsetsAscend(atoms, 0, |atoms|);
    assert Body(atoms)[0..4] == Body(atoms)[..4];
  }

  ghost predicate Decoded(atoms: seq<seq<nat>>, got: seq<seq<nat>>, pos: nat, count: nat) {
    |got| <= |atoms| == count && got == atoms[..|got|] && pos == OffsetOf(atoms, |got|)
  }

  // ---- the block index -------------------------------------------------------------------------------------

  /** Blocks of `len` atoms needed for `n`. */
  function Blocks(n: nat, len: nat): nat
    requires len > 0
  {
    (n + len - 1) / len
  }

  lemma BlockFits(n: nat, len: nat, b: nat)
    requires len > 0
    ensures b < Blocks(n, len) <==> b * len < n
  {
    var q, r := (n + len - 1) / len, (n + len - 1) % len;
    assert n + len - 1 == q * len + r;
    if b < q {
      assert (b + 1) * len <= q * len;
      assert b * len + len == (b + 1) * len;
    } else {
      assert q * len <= b * len;
    }
  }

  /** The starts of the blocks that begin before atom `i`. */
  function StartsUpTo(atoms: seq<seq<nat>>, len: nat, i: nat): seq<nat>
    requires len > 0 && i <= |atoms|
  {
    if i == 0 then []
    else StartsUpTo(atoms, len, i - 1) + if (i - 1) % len == 0 then [OffsetOf(atoms, i - 1)] else []
  }

  /** Every block's start. */
  function BlockStarts(atoms: seq<seq<nat>>, len: nat): seq<nat>
    requires len > 0
  {
    StartsUpTo(atoms, len, |atoms|)
  }

  /** Entry `b` is the start of atom `b * len`. */
  ghost predicate StartsAt(atoms: seq<seq<nat>>, len: nat, starts: seq<nat>, b: nat)
    requires b < |starts|
  {
    b * len <= |atoms| && starts[b] == OffsetOf(atoms, b * len)
  }

  lemma {:induction false} StartsAreExact(atoms: seq<seq<nat>>, len: nat, i: nat)
    requires len > 0 && i <= |atoms|
    ensures |StartsUpTo(atoms, len, i)| == Blocks(i, len)
    ensures forall b :: 0 <= b < |StartsUpTo(atoms, len, i)| ==> StartsAt(atoms, len, StartsUpTo(atoms, len, i), b)
  {
    if i == 0 {
      Quotient(len - 1, len, 0, len - 1);
    } else {
      StartsAreExact(atoms, len, i - 1);
      BlockOf(i - 1, len);
      var before, after := StartsUpTo(atoms, len, i - 1), StartsUpTo(atoms, len, i);
      forall b | 0 <= b < |after| ensures StartsAt(atoms, len, after, b) {
        if b < |before| { assert StartsAt(atoms, len, before, b); }
      }
    }
  }

  function Words(ws: seq<nat>): seq<nat> {
    if ws == [] then [] else Words(ws[..|ws| - 1]) + LeBytes(ws[|ws| - 1], 8)
  }

  /** The index section's body: block length, a reserved word, the count, then the starts. */
  function IndexBody(atoms: seq<seq<nat>>, len: nat): seq<nat>
    requires len > 0
  {
    LeBytes(len, 4) + LeBytes(0, 4) + LeBytes(Blocks(|atoms|, len), 4) + Words(BlockStarts(atoms, len))
  }

  /** `encodeAtomIndex`: a running offset written at every block's first atom. */
  method EncodeAtomIndex(atoms: seq<seq<nat>>, len: nat) returns (body: seq<nat>)
    requires len > 0
    ensures body == IndexBody(atoms, len)
  {
    var words: seq<nat>, running: nat := [], 4;
    for i := 0 to |atoms|
      invariant running == OffsetOf(atoms, i) && words == Words(StartsUpTo(atoms, len, i))
    {
      ghost var starts := StartsUpTo(atoms, len, i);
      if i % len == 0 {
        WordsAppend(starts, running);
        words := words + LeBytes(running, 8);
      } else {
        assert StartsUpTo(atoms, len, i + 1) == starts;
      }
      running := running + 4 + |atoms[i]|;
    }
    body := LeBytes(len, 4) + LeBytes(0, 4) + LeBytes(Blocks(|atoms|, len), 4) + words;
  }

  lemma WordsAppend(ws: seq<nat>, w: nat)
    ensures Words(ws + [w]) == Words(ws) + LeBytes(w, 8)
  {
    assert (ws + [w])[..|ws|] == ws;
  }

  lemma {:induction false} WordAt(ws: seq<nat>, j: nat)
    requires j < |ws| && ws[j] < Pow256(8)
    ensures |Words(ws)| == 8 * |ws|
    ensures LeValue(Words(ws)[8 * j..8 * j + 8]) == ws[j]
  {
    var last := |ws| - 1;
    WordsLength(ws);
    WordsLength(ws[..last]);
    if j == last {
      assert Words(ws)[8 * j..8 * j + 8] == LeBytes(ws[j], 8);
      LeRoundTrip(ws[j], 8);
    } else {
      WordAt(ws[..last], j);
      assert Words(ws)[8 * j..8 * j + 8] == Words(ws[..last])[8 * j..8 * j + 8];
    }
  }

  lemma {:induction false} WordsLength(ws: seq<nat>)
    ensures |Words(ws)| == 8 * |ws|
  {
    if ws != [] { WordsLength(ws[..|ws| - 1]); }
  }

  /** An index whose numbers fit their fields. */
  ghost predicate Indexable(atoms: seq<seq<nat>>, len: nat) {
    Writable(atoms) && 0 < len < U32 && |Body(atoms)| < Pow256(8)
  }

  /** `decodeAtomIndex`, with its strict-ascent check. What was written comes back. */
  method DecodeAtomIndex(body: seq<nat>, ghost atoms: seq<seq<nat>>, ghost len: nat) returns (index: Option<(nat, seq<nat>)>)
    ensures Indexable(atoms, len) && body == IndexBody(atoms, len) ==> index == Some((len, BlockStarts(atoms, len)))
  {
    ghost var mine := Indexable(atoms, len) && body == IndexBody(atoms, len);
    if mine { HeadReads(atoms, len); }
    if |body| < 12 { return None; }
    var blockLen, count := LeValue(body[0..4]), LeValue(body[8..12]);
    if count * 8 > |body| - 12 { return None; }
    var offsets: seq<nat> := [];
    for j := 0 to count
      invariant |offsets| == j
      invariant mine ==> count == |BlockStarts(atoms, len)| && offsets == BlockStarts(atoms, len)[..j]
    {
      if mine { StartReads(atoms, len, j); }
      var off := LeValue(body[12 + 8 * j..20 + 8 * j]);
      if j > 0 && off <= offsets[j - 1] { return None; }
      offsets := offsets + [off];
    }
    assert mine ==> BlockStarts(atoms, len)[..count] == BlockStarts(atoms, len);
    return Some((blockLen, offsets));
  }

  lemma HeadReads(atoms: seq<seq<nat>>, len: nat)
    requires Indexable(atoms, len)
    ensures var body := IndexBody(atoms, len);
            && |body| == 12 + 8 * |BlockStarts(atoms, len)|
            && LeValue(body[0..4]) == len && LeValue(body[8..12]) == |BlockStarts(atoms, len)|
  {
    var body, starts := IndexBody(atoms, len), BlockStarts(atoms, len);
    StartsAreExact(atoms, len, |atoms|);
    WordsLength(starts);
    assert body[0..4] == LeBytes(len, 4);
    assert body[8..12] == LeBytes(Blocks(|atoms|, len), 4);
    ByteWidths();
    BlocksAtMost(|atoms|, len);
    LeRoundTrip(len, 4);
    LeRoundTrip(|starts|, 4);
  }

  lemma BlocksAtMost(n: nat, len: nat)
    requires len > 0
    ensures Blocks(n, len) <= n
  {
    if n == 0 {
      Quotient(len - 1, len, 0, len - 1);
    } else {
      BlockFits(n, len, n);
      assert n * len >= n;
    }
  }

  lemma StartReads(atoms: seq<seq<nat>>, len: nat, j: nat)
    requires Indexable(atoms, len) && j < |BlockStarts(atoms, len)|
    ensures var body := IndexBody(atoms, len);
            && |body| == 12 + 8 * |BlockStarts(atoms, len)|
            && LeValue(body[12 + 8 * j..20 + 8 * j]) == BlockStarts(atoms, len)[j]
            && (j > 0 ==> BlockStarts(atoms, len)[j - 1] < BlockStarts(atoms, len)[j])
  {
    HeadReads(atoms, len);
    var body, starts := IndexBody(atoms, len), BlockStarts(atoms, len);
    StartsFit(atoms, len, j);
    WordAt(starts, j);
    assert body[12..] == Words(starts);
    assert body[12 + 8 * j..20 + 8 * j] == body[12..][8 * j..8 * j + 8];
  }

  lemma StartsFit(atoms: seq<seq<nat>>, len: nat, j: nat)
    requires len > 0 && j < |BlockStarts(atoms, len)|
    ensures BlockStarts(atoms, len)[j] <= |Body(atoms)|
    ensures j > 0 ==> BlockStarts(atoms, len)[j - 1] < BlockStarts(atoms, len)[j]
  {
    var starts := BlockStarts(atoms, len);
    StartsAreExact(atoms, len, |atoms|);
    assert StartsAt(atoms, len, starts, j);
    StartInside(atoms, len, starts, j);
    if j > 0 {
      assert StartsAt(atoms, len, starts, j - 1);
      StartsAscend(atoms, len, starts, j);
    }
  }

  lemma StartInside(atoms: seq<seq<nat>>, len: nat, starts: seq<nat>, j: nat)
    requires j < |starts| && StartsAt(atoms, len, starts, j)
    ensures starts[j] <= |Body(atoms)|
  {
    BodyLength(atoms);
    OffsetsOrdered(atoms, j * len, |atoms|);
  }

  lemma StartsAscend(atoms: seq<seq<nat>>, len: nat, starts: seq<nat>, j: nat)
    requires 0 < j < |starts| && len > 0 && StartsAt(atoms, len, starts, j - 1) && StartsAt(atoms, len, starts, j)
    ensures starts[j - 1] < starts[j]
  {
    BlockStep(j, len);
    OffsetsOrdered(atoms, (j - 1) * len, j * len);
  }

  lemma BlockStep(j: nat, len: nat)
    requires j > 0 && len > 0
    ensures (j - 1) * len < j * len
  {
  }

  lemma OffsetsOrdered(atoms: seq<seq<nat>>, j: nat, k: nat)
    requires j <= k <= |atoms|
    ensures OffsetOf(atoms, j) <= OffsetOf(atoms, k)
    ensures j < k ==> OffsetOf(atoms, j) < OffsetOf(atoms, k)
  {
    OffsetsAscend(atoms, j, k);
  }

  /** A new block starts exactly at the multiples of its length. */
  lemma BlockOf(i: nat, len: nat)
    requires len > 0
    ensures i % len == 0 ==> Blocks(i, len) * len == i && Blocks(i + 1, len) == Blocks(i, len) + 1
    ensures i % len != 0 ==> Blocks(i + 1, len) == Blocks(i, len)
  {
    var q, r := i / len, i % len;
    assert i == q * len + r;
    if r == 0 {
      assert i + len - 1 == q * len + (len - 1);
      Quotient(i + len - 1, len, q, len - 1);
      Quotient(i + len, len, q + 1, 0);
    } else {
      Quotient(i + len - 1, len, q + 1, r - 1);
      Quotient(i + len, len, q + 1, r);
    }
  }

  lemma Quotient(x: nat, m: nat, q: nat, r: nat)
    requires m > 0 && x == q * m + r && r < m
    ensures x / m == q && x % m == r
  {
    var q', r' := x / m, x % m;
    var d := q' - q;
    assert x == q' * m + r';
    assert d * m == r - r';
    NoMultipleBetween(d, m);
  }

  lemma NoMultipleBetween(d: int, m: nat)
    requires m > 0
    ensures d >= 1 ==> d * m >= m
    ensures d <= -1 ==> d * m <= 0 - m
  {
  }

  /** `validateAtomIndex`: accepts exactly the starts of the atoms' own blocks. */
  method ValidateAtomIndex(len: nat, offsets: seq<nat>, atoms: seq<seq<nat>>) returns (ok: bool)
    ensures ok <==> len > 0 && offsets == BlockStarts(atoms, len)
  {
    if len == 0 { return false; }
    StartsAreExact(atoms, len, |atoms|);
    if |offsets| != Blocks(|atoms|, len) { return false; }
    var running: nat, block: nat := 4, 0;
    for i := 0 to |atoms|
      invariant running == OffsetOf(atoms, i) && block == |StartsUpTo(atoms, len, i)| <= |offsets|
      invariant StartsUpTo(atoms, len, i) == offsets[..block]
    {
      PrefixOfStarts(atoms, len, i + 1);
      if i % len == 0 {
        assert BlockStarts(atoms, len)[block] == BlockStarts(atoms, len)[..block + 1][block] == running;
        if offsets[block] != running { return false; }
        block := block + 1;
      }
      running := running + 4 + |atoms[i]|;
    }
    assert offsets[..block] == offsets;
    return true;
  }

  lemma {:induction false} PrefixOfStarts(atoms: seq<seq<nat>>, len: nat, i: nat)
    requires len > 0 && i <= |atoms|
    ensures |StartsUpTo(atoms, len, i)| <= |BlockStarts(atoms, len)|
    ensures BlockStarts(atoms, len)[..|StartsUpTo(atoms, len, i)|] == StartsUpTo(atoms, len, i)
    decreases |atoms| - i
  {
    if i < |atoms| { PrefixOfStarts(atoms, len, i + 1); }
  }
}
