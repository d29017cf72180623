/** Stable counting-sort ranks and permutations of `0..n`: the vocabulary in which both the
    CSR build and the radix pairing of the two CSR directions are specified. */
module StableSort {

  /** How many entries of `keys` are below `k`. */
  function CountLess(keys: seq<nat>, k: nat): nat {
    if keys == [] then 0
    else CountLess(keys[..|keys| - 1], k) + if keys[|keys| - 1] < k then 1 else 0
  }

  /** How many entries of `keys` equal `k`. */
  function CountEqual(keys: seq<nat>, k: nat): nat {
    if keys == [] then 0
    else CountEqual(keys[..|keys| - 1], k) + if keys[|keys| - 1] == k then 1 else 0
  }

  /** The slot a stable sort by `keys` gives entry `i`: everything with a smaller key comes
      first, then the earlier entries with the same key. */
  function Rank(keys: seq<nat>, i: nat): nat
    requires i < |keys|
  {
    CountLess(keys, keys[i]) + CountEqual(keys[..i], keys[i])
  }

  ghost predicate Before(keys: seq<nat>, i: nat, j: nat)
    requires i < |keys| && j < |keys|
  {
    keys[i] < keys[j] || (keys[i] == keys[j] && i < j)
  }

  /** `p` lists every number below its own length exactly once. */
  ghost predicate IsPerm(p: seq<nat>) {
    && (forall i :: 0 <= i < |p| ==> p[i] < |p|)
    && (forall i, j :: 0 <= i < j < |p| ==> p[i] != p[j])
  }

  lemma {:induction false} CountStep(keys: seq<nat>, k: nat)
    ensures CountLess(keys, k + 1) == CountLess(keys, k) + CountEqual(keys, k)
  {
    if keys != [] {
      CountStep(keys[..|keys| - 1], k);
    }
  }

  lemma {:induction false} CountLessMonotone(keys: seq<nat>, k: nat, l: nat)
    requires k <= l
    ensures CountLess(keys, k) <= CountLess(keys, l) <= |keys|
  {
    if keys != [] {
      CountLessMonotone(keys[..|keys| - 1], k, l);
    }
  }

  lemma {:induction false} CountLessAtZero(keys: seq<nat>)
    ensures CountLess(keys, 0) == 0
  {
    if keys != [] {
      CountLessAtZero(keys[..|keys| - 1]);
    }
  }

  lemma {:induction false} CountLessEnds(keys: seq<nat>, bound: nat)
    requires forall i :: 0 <= i < |keys| ==> keys[i] < bound
    ensures CountLess(keys, 0) == 0 && CountLess(keys, bound) == |keys|
  {
    if keys != [] {
      CountLessEnds(keys[..|keys| - 1], bound);
    }
  }

  /** Growing a prefix never lowers a count, and raises it at a match. */
  lemma {:induction false} CountEqualPrefix(keys: seq<nat>, i: nat, j: nat, k: nat)
    requires i <= j <= |keys|
    ensures CountEqual(keys[..i], k) <= CountEqual(keys[..j], k)
    ensures i < j && keys[i] == k ==> CountEqual(keys[..i], k) < CountEqual(keys[..j], k)
    decreases j - i
  {
    if i < j {
      assert keys[..i + 1][..i] == keys[..i];
      CountEqualPrefix(keys, i + 1, j, k);
    }
  }

  /** Every rank falls inside its own key's block. */
  lemma RankInBlock(keys: seq<nat>, i: nat)
    requires i < |keys|
    ensures CountLess(keys, keys[i]) <= Rank(keys, i) < CountLess(keys, keys[i] + 1) <= |keys|
  {
    CountEqualPrefix(keys, i, |keys|, keys[i]);
    assert keys[..|keys|] == keys;
    CountStep(keys, keys[i]);
    CountLessMonotone(keys, keys[i] + 1, keys[i] + 1);
  }

  /** Ranks realise exactly the order "by key, then by index". */
  lemma RankOrder(keys: seq<nat>, i: nat, j: nat)
    requires i < |keys| && j < |keys|
    ensures Before(keys, i, j) <==> Rank(keys, i) < Rank(keys, j)
  {
    RankIsMonotone(keys, i, j);
    RankIsMonotone(keys, j, i);
  }

  lemma RankIsMonotone(keys: seq<nat>, i: nat, j: nat)
    requires i < |keys| && j < |keys|
    ensures Before(keys, i, j) ==> Rank(keys, i) < Rank(keys, j)
  {
    RankInBlock(keys, i);
    RankInBlock(keys, j);
    if keys[i] < keys[j] {
      CountLessMonotone(keys, keys[i] + 1, keys[j]);
    } else if keys[i] == keys[j] && i < j {
      CountEqualPrefix(keys, i, j, keys[i]);
    }
  }

  ghost function Ranks(keys: seq<nat>): (r: seq<nat>)
    ensures |r| == |keys|
  {
    seq(|keys|, i requires 0 <= i < |keys| => Rank(keys, i))
  }

  lemma RanksPermute(keys: seq<nat>)
    ensures IsPerm(Ranks(keys))
  {
    var r := Ranks(keys);
    forall i | 0 <= i < |r| ensures r[i] < |r| {
      RankInBlock(keys, i);
    }
    forall i, j | 0 <= i < j < |r| ensures r[i] != r[j] {
      RankOrder(keys, i, j);
      RankOrder(keys, j, i);
    }
  }

  lemma {:induction false} DistinctCountsOnce(p: seq<nat>, k: nat)
    requires forall i, j :: 0 <= i < j < |p| ==> p[i] != p[j]
    ensures CountEqual(p, k) <= 1
    ensures k !in p ==> CountEqual(p, k) == 0
  {
    if p != [] {
      DistinctCountsOnce(p[..|p| - 1], k);
    }
  }

  lemma {:induction false} DistinctCountGrowth(p: seq<nat>, lo: nat, hi: nat)
    requires forall i, j :: 0 <= i < j < |p| ==> p[i] != p[j]
    requires lo <= hi
    ensures CountLess(p, hi) <= CountLess(p, lo) + (hi - lo)
    decreases hi - lo
  {
    if lo < hi {
      CountStep(p, lo);
      DistinctCountsOnce(p, lo);
      DistinctCountGrowth(p, lo + 1, hi);
    }
  }

  /** A permutation has exactly `v` entries below `v`: no slot is skipped. */
  lemma PermCountLess(p: seq<nat>, v: nat)
    requires IsPerm(p) && v <= |p|
    ensures CountLess(p, v) == v
  {
    CountLessEnds(p, |p|);
    DistinctCountGrowth(p, 0, v);
    DistinctCountGrowth(p, v, |p|);
  }

  lemma {:induction false} OccurrenceCounts(p: seq<nat>, v: nat)
    ensures v in p ==> CountEqual(p, v) >= 1
  {
    if p != [] {
      OccurrenceCounts(p[..|p| - 1], v);
    }
  }

  lemma {:induction false} PresentCountGrowth(p: seq<nat>, m: nat)
    requires forall v :: 0 <= v < m ==> v in p
    ensures CountLess(p, m) >= m
  {
    if m > 0 {
      PresentCountGrowth(p, m - 1);
      CountStep(p, m - 1);
      OccurrenceCounts(p, m - 1);
    }
  }

  /** Distinct entries below `m` number at most `m`, and exactly `m` once all of them occur. */
  lemma DistinctBelow(p: seq<nat>, m: nat)
    requires forall i :: 0 <= i < |p| ==> p[i] < m
    requires forall i, j :: 0 <= i < j < |p| ==> p[i] != p[j]
    ensures |p| <= m
    ensures (forall v :: 0 <= v < m ==> v in p) ==> |p| == m
  {
    CountLessEnds(p, m);
    DistinctCountGrowth(p, 0, m);
    if forall v :: 0 <= v < m ==> v in p {
      PresentCountGrowth(p, m);
    }
  }

  /** The index at which a permutation holds `v`. */
  ghost function IndexOf(p: seq<nat>, v: nat): (i: nat)
    requires IsPerm(p) && v < |p|
    ensures i < |p| && p[i] == v
  {
    assert v in p by {
      PermCountLess(p, v);
      PermCountLess(p, v + 1);
      CountStep(p, v);
      DistinctCountsOnce(p, v);
    }
    var i :| 0 <= i < |p| && p[i] == v;
    i
  }

  lemma {:induction false} SameTestsSameCount(a: seq<nat>, x: nat, b: seq<nat>, y: nat)
    requires |a| == |b|
    requires forall j :: 0 <= j < |a| ==> (a[j] < x <==> b[j] < y)
    ensures CountLess(a, x) == CountLess(b, y)
  {
    if a != [] {
      SameTestsSameCount(a[..|a| - 1], x, b[..|b| - 1], y);
    }
  }

  /** Two permutations that compare every pair of indexes the same way are the same
      permutation: a total order has one enumeration. */
  lemma SameOrderSamePerm(a: seq<nat>, b: seq<nat>)
    requires IsPerm(a) && IsPerm(b) && |a| == |b|
    requires forall i, j :: 0 <= i < |a| && 0 <= j < |a| ==> (a[i] < a[j] <==> b[i] < b[j])
    ensures a == b
  {
    forall i | 0 <= i < |a| ensures a[i] == b[i] {
      SameTestsSameCount(a, a[i], b, b[i]);
      PermCountLess(a, a[i]);
      PermCountLess(b, b[i]);
    }
  }

  /** The inverse of a permutation, `IndexOf` tabulated. */
  ghost function Inverse(p: seq<nat>): (q: seq<nat>)
    requires IsPerm(p)
    ensures |q| == |p| && IsPerm(q)
    ensures forall v :: 0 <= v < |p| ==> p[q[v]] == v
    ensures forall i :: 0 <= i < |p| ==> q[p[i]] == i
  {
    seq(|p|, v requires 0 <= v < |p| => IndexOf(p, v))
  }
}
