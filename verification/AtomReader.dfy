/** Block-lazy atom resolution: a router discovered by scanning length prefixes forward, and a small
    FIFO cache of decoded blocks, against the eager table. */
module AtomReader {
  import opened Powers
  import opened Columns
  import opened AtomSection

  function Min(a: nat, b: nat): nat {
    if a < b then a else b
  }

  function Max(a: nat, b: nat): nat {
    if a < b then b else a
  }

  /** The block starts a forward scan has recorded after `k` atoms: one at every boundary crossed. */
  ghost function Crossed(atoms: seq<seq<nat>>, len: nat, k: nat): seq<nat>
    requires len > 0 && k <= |atoms|
  {
    if k == 0 then [4] else Crossed(atoms, len, k - 1) + if Phase(k, len) == 0 then [OffsetOf(atoms, k)] else []
  }

  /** How far into its block atom `k` is. */
  ghost function Phase(k: nat, len: nat): (p: nat)
    requires len > 0
    ensures p < len
  {
    if k == 0 then 0 else if Phase(k - 1, len) + 1 == len then 0 else Phase(k - 1, len) + 1
  }

  /** ... which is the remainder, and the quotient counts the boundaries crossed. */
  lemma {:induction false} PhaseIsRemainder(k: nat, len: nat)
    requires len > 0
    ensures Phase(k, len) == k % len
    ensures k > 0 ==> k / len == (k - 1) / len + (if Phase(k, len) == 0 then 1 else 0)
  {
    if k == 0 {
      Quotient(0, len, 0, 0);
    } else {
      PhaseIsRemainder(k - 1, len);
      RemainderStep(k, len);
    }
  }

  lemma RemainderStep(k: nat, len: nat)
    requires k > 0 && len > 0
    ensures (k - 1) % len + 1 == len ==> k % len == 0 && k / len == (k - 1) / len + 1
    ensures (k - 1) % len + 1 != len ==> k % len == (k - 1) % len + 1 && k / len == (k - 1) / len
  {
    var q, r := (k - 1) / len, (k - 1) % len;
    assert k - 1 == q * len + r;
    if r + 1 == len {
      assert k == (q + 1) * len + 0;
      Quotient(k, len, q + 1, 0);
    } else {
      Quotient(k, len, q, r + 1);
    }
  }

  method AtBoundary(k: nat, len: nat) returns (yes: bool)
    requires len > 0
    ensures yes <==> Phase(k, len) == 0
  {
    PhaseIsRemainder(k, len);
    yes := k % len == 0;
  }

  /** The router knows the extents of the first `scanned` atoms, and the block starts they reach -- by
      scanning, or all of them from the file's own index. */
  ghost predicate Routes(atoms: seq<seq<nat>>, len: nat, starts: seq<nat>, scanned: nat, frontier: nat) {
    && len > 0 && scanned <= |atoms| && frontier == OffsetOf(atoms, scanned)
    && (starts == Crossed(atoms, len, scanned) || (scanned == |atoms| && starts == BlockStarts(atoms, len)))
  }

  lemma {:induction false} CrossedAreExact(atoms: seq<seq<nat>>, len: nat, k: nat)
    requires len > 0 && k <= |atoms|
    ensures |Crossed(atoms, len, k)| == k / len + 1
    ensures forall b :: 0 <= b < |Crossed(atoms, len, k)| ==> StartsAt(atoms, len, Crossed(atoms, len, k), b)
  {
    if k > 0 {
      CrossedAreExact(atoms, len, k - 1);
      PhaseIsRemainder(k, len);
      var before, after := Crossed(atoms, len, k - 1), Crossed(atoms, len, k);
      forall b | 0 <= b < |after| ensures StartsAt(atoms, len, after, b) {
        if b < |before| { assert StartsAt(atoms, len, before, b); } else { WholeBlocks(k, len); }
      }
    } else {
      Quotient(0, len, 0, 0);
    }
  }

  lemma WholeBlocks(k: nat, len: nat)
    requires len > 0 && k % len == 0
    ensures (k / len) * len == k
  {
  }

  /** Block `b`'s last atom, exclusive. */
  function BlockEnd(n: nat, len: nat, b: nat): nat {
    Min((b + 1) * len, n)
  }

  ghost predicate IsBlock(atoms: seq<seq<nat>>, len: nat, b: nat, block: seq<seq<nat>>) {
    b * len <= BlockEnd(|atoms|, len, b) && block == atoms[b * len..BlockEnd(|atoms|, len, b)]
  }

  ghost predicate CacheHolds(atoms: seq<seq<nat>>, len: nat, cache: map<nat, seq<seq<nat>>>, fifo: seq<nat>, cap: nat) {
    && (forall b :: b in cache ==> IsBlock(atoms, len, b, cache[b]))
    && |cache| == |fifo| <= cap
    && (forall b :: b in cache <==> b in fifo)
    && (forall i, j :: 0 <= i < j < |fifo| ==> fifo[i] != fifo[j])
  }

  class AtomReader {
    /** The atoms section, as the fetcher serves it. */
    const body: seq<nat>
    const n: nat
    const scanChunk: nat
    const cacheCap: nat
    ghost const atoms: seq<seq<nat>>
    var blockLen: nat
    var starts: seq<nat>
    var frontier: nat
    var scanned: nat
    var cache: map<nat, seq<seq<nat>>>
    var fifo: seq<nat>

    ghost predicate Opened() {
      && Writable(atoms) && body == Body(atoms) && n == |atoms|
      && scanChunk >= 16 && cacheCap >= 1
    }

    ghost predicate Valid()
      reads this
    {
      && Opened() && Routes(atoms, blockLen, starts, scanned, frontier)
      && CacheHolds(atoms, blockLen, cache, fifo, cacheCap)
    }

    constructor (section: seq<nat>, len: nat, chunk: nat, cap: nat, ghost written: seq<seq<nat>>)
      requires Writable(written) && section == Body(written)
      ensures Valid() && atoms == written && n == |written| && cache == map[] && blockLen == Max(len, 1)
    {
      CountReads(written);
      body, atoms := section, written;
      n := LeValue(section[0..4]);
      scanChunk, cacheCap, blockLen := Max(chunk, 16), Max(cap, 1), Max(len, 1);
      starts, frontier, scanned := [4], 4, 0;
      cache, fifo := map[], [];
      new;
      FirstBlock(atoms, blockLen);
    }

    /** `adoptIndex`: the file's own block starts become the router, and no scan ever runs. */
    method AdoptIndex(index: seq<nat>, ghost len: nat) returns (ok: bool)
      requires Valid() && cache == map[] && Indexable(atoms, len) && index == IndexBody(atoms, len)
      modifies this`blockLen, this`starts, this`scanned, this`frontier
      ensures ok && Valid() && blockLen == len && scanned == n && starts == BlockStarts(atoms, len)
    {
      var decoded := DecodeAtomIndex(index, atoms, len);
      if decoded.None? { return false; }
      var (fileLen, offsets) := decoded.value;
      if fileLen == 0 || |offsets| != Blocks(n, fileLen) {
        StartsAreExact(atoms, len, n);
        return false;
      }
      StartsAreExact(atoms, len, n);
      BodyLength(atoms);
      if |offsets| > 0 {
        IndexEnds(atoms, len);
        if offsets[0] != 4 || offsets[|offsets| - 1] >= |body| { return false; }
      }
      blockLen, starts, scanned, frontier := fileLen, offsets, n, |body|;
      return true;
    }

    /** One chunk's worth of length prefixes: every whole atom in it advances the scan. */
    method ScanChunk(target: nat, buf: seq<nat>) returns (ok: bool, pos: nat, wanted: Option<nat>)
      requires Opened() && Routes(atoms, blockLen, starts, scanned, frontier) && scanned < target <= n && |buf| >= 4
      requires frontier + |buf| <= |body| && buf == body[frontier..frontier + |buf|]
      modifies this`starts, this`scanned
      ensures ok && scanned <= target && old(scanned) <= scanned
      ensures Routes(atoms, blockLen, starts, scanned, old(frontier) + pos)
      ensures wanted.Some? ==> scanned < target && wanted.value == 4 + |atoms[scanned]|
      ensures pos == 0 ==> wanted.Some? && scanned == old(scanned) && wanted.value > |buf|
      ensures pos > 0 ==> scanned > old(scanned)
    {
      pos, wanted := 0, None;
      while scanned < target && pos + 4 <= |buf|
        invariant old(scanned) <= scanned <= target && Routes(atoms, blockLen, starts, scanned, frontier + pos)
        invariant pos <= |buf| && (pos == 0 <==> scanned == old(scanned))
        decreases target - scanned
      {
        ChunkReads(atoms, body, frontier, buf, pos, scanned);
        var slen := LeValue(buf[pos..pos + 4]);
        if frontier + pos + 4 + slen > |body| { return false, pos, None; }
        if pos + 4 + slen > |buf| { return true, pos, Some(4 + slen); }
        pos := pos + 4 + slen;
        scanned := scanned + 1;
        var crossed := AtBoundary(scanned, blockLen);
        if crossed { starts := starts + [frontier + pos]; }
      }
      return true, pos, None;
    }

    /** Chunk after chunk up to atom `target`. A chunk that holds no whole atom is followed by a longer
        one, which is what the loop's measure counts. */
    method EnsureScanned(target: nat) returns (ok: bool)
      requires Opened() && Routes(atoms, blockLen, starts, scanned, frontier) && target <= n
      modifies this`starts, this`scanned, this`frontier
      ensures ok && Routes(atoms, blockLen, starts, scanned, frontier) && scanned == Max(old(scanned), target)
    {
      var need := scanChunk;
      while scanned < target
        invariant Routes(atoms, blockLen, starts, scanned, frontier) && old(scanned) <= scanned <= Max(old(scanned), target)
        invariant need == scanChunk || (scanned < target && need == 4 + |atoms[scanned]|)
        decreases target - scanned, if scanned < target && need == 4 + |atoms[scanned]| then 0 else 1
      {
        RoomForNext(atoms, scanned);
        var remain := |body| - frontier;
        if remain == 0 { return false; }
        var size := Min(need, remain);
        var buf := body[frontier..frontier + size];
        var fine, pos, wanted := ScanChunk(target, buf);
        if !fine { return false; }
        need := if wanted.Some? then wanted.value else scanChunk;
        if pos == 0 && need == scanChunk { return false; }
        frontier := frontier + pos;
      }
      return true;
    }

    /** Fetches and decodes block `b`, evicting the oldest block when the cache is full. */
    method LoadBlock(b: nat) returns (block: Option<seq<seq<nat>>>)
      requires Valid() && b * blockLen < n && b !in cache
      modifies this`starts, this`scanned, this`frontier, this`cache, this`fifo
      ensures Valid() && block.Some? && IsBlock(atoms, blockLen, b, block.value)
      ensures b in cache && cache[b] == block.value
    {
      var last := BlockEnd(n, blockLen, b);
      var ok := EnsureScanned(last);
      if !ok { return None; }
      BlockExtent(atoms, blockLen, starts, scanned, frontier, b);
      var start := starts[b];
      var end := if b + 1 < |starts| then starts[b + 1] else frontier;
      var decoded := DecodeBlock(body[start..end], b * blockLen, last);
      if decoded.None? { return None; }
      Remember(b, decoded.value);
      return decoded;
    }

    /** `last - first` strings, and nothing left over. */
    method DecodeBlock(chunk: seq<nat>, first: nat, last: nat) returns (block: Option<seq<seq<nat>>>)
      requires Opened() && first <= last <= n
      requires OffsetOf(atoms, first) <= OffsetOf(atoms, last) <= |body|
      requires chunk == body[OffsetOf(atoms, first)..OffsetOf(atoms, last)]
      ensures block == Some(atoms[first..last])
    {
      var pos: nat, got: seq<seq<nat>> := 0, [];
      ghost var base := OffsetOf(atoms, first);
      for k := first to last
        invariant pos <= |chunk| && base + pos == OffsetOf(atoms, k) && got == atoms[first..k]
      {
        BlockReads(atoms, body, first, last, chunk, pos, k);
        var len := LenPrefix(chunk, pos);
        if len.None? { return None; }
        got := got + [chunk[pos + 4..pos + 4 + len.value]];
        pos := pos + 4 + len.value;
      }
      if pos != |chunk| { return None; }
      return Some(got);
    }

    method Remember(b: nat, block: seq<seq<nat>>)
      requires Opened() && CacheHolds(atoms, blockLen, cache, fifo, cacheCap) && b !in cache
      requires IsBlock(atoms, blockLen, b, block)
      modifies this`cache, this`fifo
      ensures CacheHolds(atoms, blockLen, cache, fifo, cacheCap) && b in cache && cache[b] == block
    {
      if |cache| >= cacheCap {
        EvictOldest(atoms, blockLen, cache, fifo, cacheCap);
        cache, fifo := cache - {fifo[0]}, fifo[1..];
      }
      CacheGrows(atoms, blockLen, cache, fifo, cacheCap, b, block);
      cache, fifo := cache[b := block], fifo + [b];
    }

    /** The string of atom `id`, whatever the block length, chunk size, cache size and lookups before:
        what the eager decoder has there. Ids past the count are refused. */
    method Atom(id: nat) returns (s: Option<seq<nat>>)
      requires Valid()
      modifies this`starts, this`scanned, this`frontier, this`cache, this`fifo
      ensures Valid()
      ensures s == if id < |atoms| then Some(atoms[id]) else None
    {
      if id >= n { return None; }
      var b, r := Locate(id, blockLen, n);
      var block := BlockOf(b);
      if block.None? { return None; }
      InBlock(atoms, blockLen, b, block.value, id, r);
      return Some(block.value[r]);
    }

    /** A block from the cache, or loaded into it. */
    method BlockOf(b: nat) returns (block: Option<seq<seq<nat>>>)
      requires Valid() && b * blockLen < n
      modifies this`starts, this`scanned, this`frontier, this`cache, this`fifo
      ensures Valid() && block.Some? && IsBlock(atoms, blockLen, b, block.value)
    {
      if b in cache { return Some(cache[b]); }
      block := LoadBlock(b);
    }
  }

  lemma IndexEnds(atoms: seq<seq<nat>>, len: nat)
    requires len > 0 && BlockStarts(atoms, len) != []
    ensures BlockStarts(atoms, len)[0] == 4
    ensures BlockStarts(atoms, len)[|BlockStarts(atoms, len)| - 1] < |Body(atoms)|
  {
    var starts := BlockStarts(atoms, len);
    var b := |starts| - 1;
    StartsAreExact(atoms, len, |atoms|);
    assert StartsAt(atoms, len, starts, 0) && StartsAt(atoms, len, starts, b);
    BlockFits(|atoms|, len, b);
    RoomForNext(atoms, b * len);
  }

  lemma InBlock(atoms: seq<seq<nat>>, len: nat, b: nat, block: seq<seq<nat>>, id: nat, r: nat)
    requires IsBlock(atoms, len, b, block) && b * len <= id < BlockEnd(|atoms|, len, b) && id == b * len + r
    ensures r < |block| && block[r] == atoms[id]
  {
  }

  /** The block an id falls in, and its place there. */
  method Locate(id: nat, len: nat, n: nat) returns (b: nat, r: nat)
    requires len > 0 && id < n
    ensures b * len <= id < BlockEnd(n, len, b) && id == b * len + r
  {
    b, r := id / len, id % len;
    assert id == b * len + r;
    assert (b + 1) * len == b * len + len;
  }

  /** A block's bytes run from its own start to the next block's, or to the frontier when it is the
      last. */
  lemma BlockExtent(atoms: seq<seq<nat>>, len: nat, starts: seq<nat>, scanned: nat, frontier: nat, b: nat)
    requires Routes(atoms, len, starts, scanned, frontier) && b * len < |atoms| && BlockEnd(|atoms|, len, b) <= scanned
    ensures b < |starts| && starts[b] == OffsetOf(atoms, b * len) && b * len <= BlockEnd(|atoms|, len, b)
    ensures (if b + 1 < |starts| then starts[b + 1] else frontier) == OffsetOf(atoms, BlockEnd(|atoms|, len, b))
    ensures OffsetOf(atoms, b * len) <= OffsetOf(atoms, BlockEnd(|atoms|, len, b)) <= |Body(atoms)|
  {
    var last := BlockEnd(|atoms|, len, b);
    assert (b + 1) * len == b * len + len;
    BodyLength(atoms);
    OffsetsAscend(atoms, b * len, last);
    OffsetsAscend(atoms, last, |atoms|);
    if starts == Crossed(atoms, len, scanned) {
      CrossedAreExact(atoms, len, scanned);
      QuotientBounds(scanned, len);
      Reached(scanned, len, b);
      Reached(scanned, len, b + 1);
    } else {
      StartsAreExact(atoms, len, |atoms|);
      BlockFits(|atoms|, len, b);
      BlockFits(|atoms|, len, b + 1);
    }
    assert StartsAt(atoms, len, starts, b);
    if b + 1 < |starts| { assert StartsAt(atoms, len, starts, b + 1); }
  }

  lemma QuotientBounds(x: nat, m: nat)
    requires m > 0
    ensures (x / m) * m <= x < (x / m) * m + m
  {
    assert x == (x / m) * m + x % m;
  }

  /** A scan of `k` atoms has crossed into block `b` exactly when it has reached its first atom. */
  lemma Reached(k: nat, len: nat, b: nat)
    requires len > 0
    ensures b <= k / len <==> b * len <= k
  {
    QuotientBounds(k, len);
    var q := k / len;
    if b <= q {
      assert b * len <= q * len;
    } else {
      assert (q + 1) * len <= b * len;
      assert (q + 1) * len == q * len + len;
    }
  }

  lemma BlockReads(atoms: seq<seq<nat>>, body: seq<nat>, first: nat, last: nat, chunk: seq<nat>, pos: nat, k: nat)
    requires Writable(atoms) && body == Body(atoms) && first <= k < last <= |atoms|
    requires OffsetOf(atoms, first) <= OffsetOf(atoms, last) <= |body|
    requires chunk == body[OffsetOf(atoms, first)..OffsetOf(atoms, last)]
    requires OffsetOf(atoms, first) + pos == OffsetOf(atoms, k) && pos <= |chunk|
    ensures LenPrefix(chunk, pos) == Some(|atoms[k]|)
    ensures pos + 4 + |atoms[k]| <= |chunk| && chunk[pos + 4..pos + 4 + |atoms[k]|] == atoms[k]
    ensures OffsetOf(atoms, first) + pos + 4 + |atoms[k]| == OffsetOf(atoms, k + 1)
  {
    AtomReads(atoms, k);
    OffsetsAscend(atoms, k + 1, last);
    var base, p := OffsetOf(atoms, first), OffsetOf(atoms, k);
    assert chunk[pos..pos + 4] == body[p..p + 4];
    assert chunk[pos + 4..pos + 4 + |atoms[k]|] == body[p + 4..p + 4 + |atoms[k]|];
  }

  lemma EvictOldest(atoms: seq<seq<nat>>, len: nat, cache: map<nat, seq<seq<nat>>>, fifo: seq<nat>, cap: nat)
    requires CacheHolds(atoms, len, cache, fifo, cap) && |cache| >= cap >= 1
    ensures fifo[0] in cache && CacheHolds(atoms, len, cache - {fifo[0]}, fifo[1..], cap)
    ensures |cache - {fifo[0]}| < cap
  {
    var oldest := fifo[0];
    assert oldest in cache;
    assert (cache - {oldest}).Keys == cache.Keys - {oldest};
    assert |cache - {oldest}| == |cache.Keys - {oldest}| == |cache| - 1;
  }

  lemma CacheGrows(atoms: seq<seq<nat>>, len: nat, cache: map<nat, seq<seq<nat>>>, fifo: seq<nat>, cap: nat,
                   b: nat, block: seq<seq<nat>>)
    requires CacheHolds(atoms, len, cache, fifo, cap) && |cache| < cap && b !in cache && IsBlock(atoms, len, b, block)
    ensures CacheHolds(atoms, len, cache[b := block], fifo + [b], cap)
  {
    assert (cache[b := block]).Keys == cache.Keys + {b};
    assert |cache[b := block]| == |cache.Keys + {b}| == |cache| + 1;
  }

  lemma RoomForNext(atoms: seq<seq<nat>>, k: nat)
    requires k < |atoms|
    ensures OffsetOf(atoms, k) + 4 + |atoms[k]| <= |Body(atoms)|
  {
    AtomAt(atoms, k);
  }

  /** A length prefix inside a fetched chunk. */
  lemma ChunkReads(atoms: seq<seq<nat>>, body: seq<nat>, frontier: nat, buf: seq<nat>, pos: nat, k: nat)
    requires Writable(atoms) && body == Body(atoms) && k < |atoms|
    requires frontier + |buf| <= |body| && buf == body[frontier..frontier + |buf|]
    requires frontier + pos == OffsetOf(atoms, k) && pos + 4 <= |buf|
    ensures LeValue(buf[pos..pos + 4]) == |atoms[k]|
    ensures frontier + pos + 4 + |atoms[k]| == OffsetOf(atoms, k + 1) <= |body|
  {
    AtomReads(atoms, k);
    assert buf[pos..pos + 4] == body[frontier + pos..frontier + pos + 4];
  }

  lemma FirstBlock(atoms: seq<seq<nat>>, len: nat)
    requires len > 0
    ensures Routes(atoms, len, [4], 0, 4)
  {
  }
}
