/** The word-packed bit vector: masked popcounts, set-bit iteration and the byte-packed form, against
    the plain sequence of bits. A word is its 64 bits, lowest first. */
module Bitset {
  import opened Columns
  import opened ColumnStore

  const WORD: nat := 64
  const ZERO: seq<bool> := seq(64, _ => false)

  function Words(n: nat): nat {
    (n + WORD - 1) / WORD
  }

  function Bytes(n: nat): nat {
    (n + 7) / 8
  }

  /** Bit `i` of words of `w` bits. */
  function BitAt(words: seq<seq<bool>>, w: nat, i: nat): bool
    requires w > 0
  {
    i / w < |words| && i % w < |words[i / w]| && words[i / w][i % w]
  }

  function Flatten(words: seq<seq<bool>>, w: nat, n: nat): (bits: seq<bool>)
    requires w > 0
    ensures |bits| == n && forall i :: 0 <= i < n ==> bits[i] == BitAt(words, w, i)
  {
    seq(n, i requires 0 <= i => BitAt(words, w, i))
  }

  ghost predicate Packed(words: seq<seq<bool>>, n: nat) {
    |words| == Words(n) && (forall k :: 0 <= k < |words| ==> |words[k]| == WORD)
  }

  /** The words spell the bits, 64 at a time. */
  ghost predicate Spells(words: seq<seq<bool>>, bits: seq<bool>) {
    && (forall k :: 0 <= k < |words| ==> |words[k]| == WORD)
    && forall k, j :: 0 <= k < |words| && 0 <= j < WORD && k * WORD + j < |bits| ==> words[k][j] == bits[k * WORD + j]
  }

  lemma FlattenSpells(words: seq<seq<bool>>, n: nat)
    requires Packed(words, n)
    ensures Spells(words, Flatten(words, WORD, n)) && n <= |words| * WORD
  {
    var bits := Flatten(words, WORD, n);
    forall k, j | 0 <= k < |words| && 0 <= j < WORD && k * WORD + j < n ensures words[k][j] == bits[k * WORD + j] {
      var i := k * WORD + j;
      assert i / WORD == k && i % WORD == j;
    }
  }

  // ---- popcounts ------------------------------------------------------------------------------------------

  /** `OnesCount64`. */
  function OnesCount(word: seq<bool>): nat {
    CountTrue(word, 0, |word|)
  }

  /** A word's bits from `lo` up to but not including `hi`; the others cleared. */
  function Masked(word: seq<bool>, lo: nat, hi: nat): (r: seq<bool>)
    ensures |r| == |word| && forall i :: 0 <= i < |word| ==> r[i] == (lo <= i < hi && word[i])
  {
    seq(|word|, i requires 0 <= i < |word| => lo <= i < hi && word[i])
  }

  lemma {:induction false} MaskedCountsUpTo(word: seq<bool>, lo: nat, hi: nat, k: nat)
    requires hi <= |word| && k <= |word|
    ensures CountTrue(Masked(word, lo, hi), 0, k) == CountTrue(word, lo, if k < hi then k else hi)
  {
    if k > 0 { MaskedCountsUpTo(word, lo, hi, k - 1); }
  }

  /** A masked popcount counts the masked range. */
  lemma MaskedCounts(word: seq<bool>, lo: nat, hi: nat)
    requires lo <= hi <= |word|
    ensures OnesCount(Masked(word, lo, hi)) == CountTrue(word, lo, hi)
  {
    MaskedCountsUpTo(word, lo, hi, |word|);
  }

  /** The same range counted within one word and within the whole vector. */
  lemma {:induction false} WordRange(words: seq<seq<bool>>, bits: seq<bool>, k: nat, lo: nat, hi: nat)
    requires Spells(words, bits) && k < |words| && lo <= hi <= WORD && k * WORD + hi <= |bits|
    ensures CountTrue(bits, k * WORD + lo, k * WORD + hi) == CountTrue(words[k], lo, hi)
  {
    if lo < hi {
      WordRange(words, bits, k, lo, hi - 1);
      assert words[k][hi - 1] == bits[k * WORD + hi - 1];
    }
  }

  lemma {:induction false} RangeSplits(bits: seq<bool>, lo: nat, mid: nat, hi: nat)
    requires lo <= mid <= hi <= |bits|
    ensures CountTrue(bits, lo, hi) == CountTrue(bits, lo, mid) + CountTrue(bits, mid, hi)
  {
    if mid < hi { RangeSplits(bits, lo, mid, hi - 1); }
  }

  /** The set bits between bit `loBit` of word `loW` and bit `hiBit` of word `hiW`: masked at both
      ends, whole words between. */
  method CountBetween(words: seq<seq<bool>>, loW: nat, loBit: nat, hiW: nat, hiBit: nat, ghost bits: seq<bool>) returns (c: nat)
    requires Spells(words, bits) && loW <= hiW < |words| && loBit < WORD && 0 < hiBit <= WORD
    requires loW * WORD + loBit < hiW * WORD + hiBit <= |bits|
    ensures c == CountTrue(bits, loW * WORD + loBit, hiW * WORD + hiBit)
  {
    ghost var from := loW * WORD + loBit;
    if loW == hiW {
      PartWord(words, bits, loW, loBit, hiBit);
      return OnesCount(Masked(words[loW], loBit, hiBit));
    }
    PartWord(words, bits, loW, loBit, WORD);
    c := OnesCount(Masked(words[loW], loBit, WORD));
    c := CountWhole(words, loW + 1, hiW, c, bits, from);
    NextWord(words, bits, from, hiW, hiBit);
    MaskedCounts(words[hiW], 0, hiBit);
    c := c + OnesCount(Masked(words[hiW], 0, hiBit));
  }

  /** The whole words of a range, on top of what was counted before them. */
  method CountWhole(words: seq<seq<bool>>, lo: nat, hi: nat, start: nat, ghost bits: seq<bool>, ghost from: nat) returns (c: nat)
    requires Spells(words, bits) && lo <= hi <= |words| && from <= lo * WORD && hi * WORD <= |bits|
    requires start == CountTrue(bits, from, lo * WORD)
    ensures c == CountTrue(bits, from, hi * WORD)
  {
    c := start;
    for w := lo to hi
      invariant c == CountTrue(bits, from, w * WORD)
    {
      NextWord(words, bits, from, w, WORD);
      c := c + OnesCount(words[w]);
    }
  }

  lemma PartWord(words: seq<seq<bool>>, bits: seq<bool>, k: nat, lo: nat, hi: nat)
    requires Spells(words, bits) && k < |words| && lo <= hi <= WORD && k * WORD + hi <= |bits|
    ensures OnesCount(Masked(words[k], lo, hi)) == CountTrue(bits, k * WORD + lo, k * WORD + hi)
  {
    MaskedCounts(words[k], lo, hi);
    WordRange(words, bits, k, lo, hi);
  }

  lemma NextWord(words: seq<seq<bool>>, bits: seq<bool>, from: nat, k: nat, hi: nat)
    requires Spells(words, bits) && k < |words| && hi <= WORD && from <= k * WORD && k * WORD + hi <= |bits|
    ensures CountTrue(bits, from, k * WORD + hi) == CountTrue(bits, from, k * WORD) + CountTrue(words[k], 0, hi)
  {
    WordRange(words, bits, k, 0, hi);
    RangeSplits(bits, from, k * WORD, k * WORD + hi);
  }

  /** The lowest set bit at or above `p`, or 64. */
  function TrailingZeros(word: seq<bool>, p: nat): (t: nat)
    requires p <= |word|
    ensures p <= t <= |word| && (t < |word| ==> word[t]) && forall i :: p <= i < t ==> !word[i]
    decreases |word| - p
  {
    if p == |word| || word[p] then p else TrailingZeros(word, p + 1)
  }

  lemma {:induction false} NoneBetween(bits: seq<bool>, a: nat, b: nat)
    requires a <= b && forall i :: a <= i < b && i < |bits| ==> !bits[i]
    ensures OnesFrom(bits, a) == OnesFrom(bits, b)
    decreases b - a
  {
    if a < b { NoneBetween(bits, a + 1, b); }
  }

  lemma SkipZeros(words: seq<seq<bool>>, bits: seq<bool>, k: nat, p: nat, t: nat)
    requires Spells(words, bits) && k < |words| && p <= t <= WORD && forall i :: p <= i < t ==> !words[k][i]
    ensures OnesFrom(bits, k * WORD + p) == OnesFrom(bits, k * WORD + t)
  {
    var a, b := k * WORD + p, k * WORD + t;
    forall i | a <= i < b && i < |bits| ensures !bits[i] {
      assert words[k][i - k * WORD] == bits[k * WORD + (i - k * WORD)];
    }
    NoneBetween(bits, a, b);
  }

  lemma TakeOne(bits: seq<bool>, i: nat, out: seq<nat>)
    requires i < |bits| && bits[i] && out + OnesFrom(bits, i) == OnesFrom(bits, 0)
    ensures (out + [i]) + OnesFrom(bits, i + 1) == OnesFrom(bits, 0)
  {
    assert OnesFrom(bits, i) == [i] + OnesFrom(bits, i + 1);
  }

  /** One word's set bits below the length, after those of the words before it. */
  method OnesOfWord(words: seq<seq<bool>>, n: nat, k: nat, before: seq<nat>, ghost bits: seq<bool>) returns (out: seq<nat>)
    requires Spells(words, bits) && |bits| == n && k < |words|
    requires before + OnesFrom(bits, k * WORD) == OnesFrom(bits, 0)
    ensures out + OnesFrom(bits, (k + 1) * WORD) == OnesFrom(bits, 0)
  {
    out := before;
    var p := 0;
    while p < WORD
      invariant 0 <= p <= WORD && out + OnesFrom(bits, k * WORD + p) == OnesFrom(bits, 0)
    {
      var t := TrailingZeros(words[k], p);
      NextOne(words, bits, k, p, t, out);
      if t == WORD || k * WORD + t >= n { return; }
      out := out + [k * WORD + t];
      p := t + 1;
    }
  }

  /** The lowest remaining bit is the next to list, or nothing of the word is left. */
  lemma NextOne(words: seq<seq<bool>>, bits: seq<bool>, k: nat, p: nat, t: nat, out: seq<nat>)
    requires Spells(words, bits) && k < |words| && p < WORD && t == TrailingZeros(words[k], p)
    requires out + OnesFrom(bits, k * WORD + p) == OnesFrom(bits, 0)
    ensures t == WORD || k * WORD + t >= |bits| ==> out + OnesFrom(bits, (k + 1) * WORD) == OnesFrom(bits, 0)
    ensures t < WORD && k * WORD + t < |bits| ==>
              (out + [k * WORD + t]) + OnesFrom(bits, k * WORD + (t + 1)) == OnesFrom(bits, 0)
  {
    SkipZeros(words, bits, k, p, t);
    if t == WORD || k * WORD + t >= |bits| {
      PastTheEnd(bits, k * WORD + t, (k + 1) * WORD);
    } else {
      assert words[k][t] == bits[k * WORD + t];
      TakeOne(bits, k * WORD + t, out);
    }
  }

  lemma PastTheEnd(bits: seq<bool>, a: nat, b: nat)
    requires a <= b && (a == b || a >= |bits|)
    ensures OnesFrom(bits, a) == OnesFrom(bits, b)
  {
  }

  method OnesOf(words: seq<seq<bool>>, n: nat, ghost bits: seq<bool>) returns (out: seq<nat>)
    requires Spells(words, bits) && |bits| == n <= |words| * WORD
    ensures out == OnesFrom(bits, 0)
  {
    out := [];
    for k := 0 to |words|
      invariant out + OnesFrom(bits, k * WORD) == OnesFrom(bits, 0)
    {
      out := OnesOfWord(words, n, k, out, bits);
    }
    assert OnesFrom(bits, |words| * WORD) == [];
  }

  method CountClamped(words: seq<seq<bool>>, n: nat, lo: int, hi: int, ghost bits: seq<bool>) returns (c: nat)
    requires Spells(words, bits) && |bits| == n <= |words| * WORD
    ensures var from, to := if lo < 0 then 0 else lo, if hi < n then hi else n;
            c == if from < to then CountTrue(bits, from, to) else 0
  {
    var from, to := if lo < 0 then 0 else lo, if hi < n then hi else n;
    if from >= to { return 0; }
    var loW, hiW := from / WORD, (to - 1) / WORD;
    c := CountBetween(words, loW, from % WORD, hiW, (to - 1) % WORD + 1, bits);
  }

  class Bits {
    var words: seq<seq<bool>>
    const n: nat

    ghost predicate Valid()
      reads this
    {
      Packed(words, n)
    }

    ghost function Contents(): seq<bool>
      reads this
    {
      Flatten(words, WORD, n)
    }

    constructor (n: nat)
      ensures Valid() && this.n == n && Contents() == seq(n, _ => false)
    {
      this.n := n;
      words := seq(Words(n), _ => ZERO);
      new;
      assert forall i :: 0 <= i < n ==> !BitAt(words, WORD, i);
    }

    /** False out of range. */
    method Get(i: int) returns (v: bool)
      requires Valid()
      ensures v == (0 <= i < n && Contents()[i])
    {
      if i < 0 || i >= n { return false; }
      return words[i / WORD][i % WORD];
    }

    method Set(i: nat, v: bool)
      requires Valid() && i < n
      modifies this
      ensures Valid() && Contents() == old(Contents())[i := v]
    {
      var k := i / WORD;
      words := words[k := words[k][i % WORD := v]];
      assert forall j :: 0 <= j < n ==> BitAt(words, WORD, j) == if j == i then v else BitAt(old(words), WORD, j) by {
        forall j | 0 <= j < n && j != i ensures BitAt(words, WORD, j) == BitAt(old(words), WORD, j) {
          if j / WORD == k { assert j % WORD != i % WORD; }
        }
      }
    }

    /** The set bits of `[lo, hi)`, bounds clamped: masked at both ends, whole words between. */
    method CountRange(lo: int, hi: int) returns (c: nat)
      requires Valid()
      ensures var from, to := if lo < 0 then 0 else lo, if hi < n then hi else n;
              c == if from < to then CountTrue(Contents(), from, to) else 0
    {
      FlattenSpells(words, n);
      c := CountClamped(words, n, lo, hi, Contents());
    }

    /** The set positions, ascending: each word's lowest set bit is taken and cleared until none is
        left. */
    method Ones() returns (out: seq<nat>)
      requires Valid()
      ensures out == OnesFrom(Contents(), 0)
    {
      FlattenSpells(words, n);
      out := OnesOf(words, n, Contents());
    }

    /** Bits packed lowest first into bytes. */
    method ToPackedLsb() returns (bytes: seq<seq<bool>>)
      requires Valid()
      ensures |bytes| == Bytes(n) && (forall k :: 0 <= k < |bytes| ==> |bytes[k]| == 8)
      ensures Flatten(bytes, 8, n) == Contents()
    {
      bytes := seq(Bytes(n), _ => seq(8, _ => false));
      for i := 0 to n
        invariant |bytes| == Bytes(n) && (forall k :: 0 <= k < |bytes| ==> |bytes[k]| == 8)
        invariant forall j :: 0 <= j < n ==> BitAt(bytes, 8, j) == (j < i && Contents()[j])
      {
        var on := Get(i);
        if on {
          var k := i / 8;
          ghost var was := bytes;
          bytes := bytes[k := bytes[k][i % 8 := true]];
          forall j | 0 <= j < n && j != i ensures BitAt(bytes, 8, j) == BitAt(was, 8, j) {
            if j / 8 == k { assert j % 8 != i % 8; }
          }
        }
      }
    }
  }

  /** `FromPackedLSB`. */
  method FromPackedLsb(bytes: seq<seq<bool>>, n: nat) returns (b: Bits)
    requires |bytes| >= Bytes(n) && forall k :: 0 <= k < |bytes| ==> |bytes[k]| == 8
    ensures fresh(b) && b.Valid() && b.n == n && b.Contents() == Flatten(bytes, 8, n)
  {
    b := new Bits(n);
    for i := 0 to n
      invariant fresh(b) && b.Valid() && b.n == n
      invariant forall j :: 0 <= j < n ==> b.Contents()[j] == (j < i && BitAt(bytes, 8, j))
    {
      if bytes[i / 8][i % 8] { b.Set(i, true); }
    }
  }
}
