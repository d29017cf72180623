/** Runtime query values, floats as bit patterns, and the key order of map entries. */
module Values {
  import opened StableSort

  type Byte = x: int | 0 <= x < 256
  type Bytes = seq<Byte>

  datatype Value =
    | Null
    | Bool(b: bool)
    | Int(i: int)
    | Float(bits: nat)
    | Str(s: Bytes)
    | List(items: seq<Value>)
    | Node(id: nat)
    | Rel(pos: nat)
    | Path(nodes: seq<nat>, rels: seq<nat>)
    | Map(entries: seq<Entry>)
    | Temporal(millis: int, aux: nat)
    | Duration(months: int, days: int, ms: int)

  /** One map entry; entries keep insertion order. */
  datatype Entry = Entry(key: Bytes, val: Value)

  // ---- three-way comparison --------------------------------------------------------------------------

  function CmpInt(a: int, b: int): int {
    if a < b then -1 else if a > b then 1 else 0
  }

  /** Byte strings in lexicographic order, a prefix first. */
  function CmpStr(a: Bytes, b: Bytes): int {
    if a == [] || b == [] then CmpInt(|a|, |b|)
    else if a[0] != b[0] then CmpInt(a[0], b[0])
    else CmpStr(a[1..], b[1..])
  }

  lemma {:induction false} CmpStrSigns(a: Bytes, b: Bytes)
    ensures CmpStr(a, b) == -CmpStr(b, a) && (CmpStr(a, b) == 0 <==> a == b)
  {
    if a != [] && b != [] && a[0] == b[0] {
      CmpStrSigns(a[1..], b[1..]);
      assert a == [a[0]] + a[1..] && b == [b[0]] + b[1..];
    }
  }

  lemma {:induction false} CmpStrTransitive(a: Bytes, b: Bytes, c: Bytes)
    requires CmpStr(a, b) <= 0 && CmpStr(b, c) <= 0
    ensures CmpStr(a, c) <= 0
  {
    if a != [] && b != [] && c != [] && a[0] == b[0] == c[0] {
      CmpStrTransitive(a[1..], b[1..], c[1..]);
    }
  }

  // ---- key-sorted entries ------------------------------------------------------------------------------

  /** Where `key` goes among sorted indexes: after every key at or below it. */
  function SlotOf(keys: seq<Bytes>, idx: seq<nat>, key: Bytes, p: nat): (q: nat)
    requires p <= |idx| && forall k :: 0 <= k < |idx| ==> idx[k] < |keys|
    ensures q <= p && (q > 0 ==> CmpStr(keys[idx[q - 1]], key) <= 0)
    ensures forall k :: q <= k < p ==> CmpStr(keys[idx[k]], key) > 0
  {
    if p == 0 || CmpStr(keys[idx[p - 1]], key) <= 0 then p else SlotOf(keys, idx, key, p - 1)
  }

  /** The first `n` entry indexes in ascending key order. */
  function SortedUpTo(keys: seq<Bytes>, n: nat): (idx: seq<nat>)
    requires n <= |keys|
    ensures |idx| == n && forall k :: 0 <= k < |idx| ==> idx[k] < n
  {
    if n == 0 then []
    else
      var rest := SortedUpTo(keys, n - 1);
      var p := SlotOf(keys, rest, keys[n - 1], |rest|);
      rest[..p] + [n - 1] + rest[p..]
  }

  function Keys(entries: seq<Entry>): (keys: seq<Bytes>)
    ensures |keys| == |entries| && forall k :: 0 <= k < |keys| ==> keys[k] == entries[k].key
  {
    seq(|entries|, k requires 0 <= k < |entries| => entries[k].key)
  }

  /** `keySorted`: the entry indexes in ascending key order. */
  function KeySorted(entries: seq<Entry>): (idx: seq<nat>)
    ensures |idx| == |entries| && forall k :: 0 <= k < |idx| ==> idx[k] < |entries|
  {
    SortedUpTo(Keys(entries), |entries|)
  }

  ghost predicate Ascends(keys: seq<Bytes>, idx: seq<nat>)
    requires forall k :: 0 <= k < |idx| ==> idx[k] < |keys|
  {
    forall j, k :: 0 <= j < k < |idx| ==> CmpStr(keys[idx[j]], keys[idx[k]]) <= 0
  }

  lemma InsertAscends(keys: seq<Bytes>, idx: seq<nat>, p: nat, i: nat)
    requires p <= |idx| && i < |keys| && (forall k :: 0 <= k < |idx| ==> idx[k] < |keys|) && Ascends(keys, idx)
    requires p > 0 ==> CmpStr(keys[idx[p - 1]], keys[i]) <= 0
    requires forall k :: p <= k < |idx| ==> CmpStr(keys[idx[k]], keys[i]) > 0
    ensures forall k :: 0 <= k <= |idx| ==> (idx[..p] + [i] + idx[p..])[k] < |keys|
    ensures Ascends(keys, idx[..p] + [i] + idx[p..])
  {
    forall k | 0 <= k < p ensures CmpStr(keys[idx[k]], keys[i]) <= 0 {
      if k < p - 1 { CmpStrTransitive(keys[idx[k]], keys[idx[p - 1]], keys[i]); }
    }
    forall k | p <= k < |idx| ensures CmpStr(keys[i], keys[idx[k]]) <= 0 {
      CmpStrSigns(keys[i], keys[idx[k]]);
    }
  }

  lemma {:induction false} SortedAscends(keys: seq<Bytes>, n: nat)
    requires n <= |keys|
    ensures Ascends(keys, SortedUpTo(keys, n))
  {
    if n > 0 {
      SortedAscends(keys, n - 1);
      var rest := SortedUpTo(keys, n - 1);
      var p := SlotOf(keys, rest, keys[n - 1], |rest|);
      InsertAscends(keys, rest, p, n - 1);
      assert SortedUpTo(keys, n) == rest[..p] + [n - 1] + rest[p..];
    }
  }

  lemma InsertPermutes(rest: seq<nat>, p: nat)
    requires IsPerm(rest) && p <= |rest|
    ensures IsPerm(rest[..p] + [|rest|] + rest[p..])
  {
    var idx := rest[..p] + [|rest|] + rest[p..];
    forall j, k | 0 <= j < k < |idx| ensures idx[j] != idx[k] {
      var j', k' := if j < p then j else j - 1, if k < p then k else k - 1;
      assert j != p ==> idx[j] == rest[j'];
      assert k != p ==> idx[k] == rest[k'];
    }
  }

  lemma {:induction false} SortedPermutes(keys: seq<Bytes>, n: nat)
    requires n <= |keys|
    ensures IsPerm(SortedUpTo(keys, n))
  {
    if n > 0 {
      SortedPermutes(keys, n - 1);
      var rest := SortedUpTo(keys, n - 1);
      InsertPermutes(rest, SlotOf(keys, rest, keys[n - 1], |rest|));
    }
  }

  // ---- insertion order -----------------------------------------------------------------------------------

  ghost predicate DistinctKeys(entries: seq<Entry>) {
    forall i, j :: 0 <= i < j < |entries| ==> entries[i].key != entries[j].key
  }

  /** `f` lists the entries of `e` in the order `s`. */
  ghost predicate Reorders(e: seq<Entry>, f: seq<Entry>, s: seq<nat>) {
    |s| == |e| == |f| && IsPerm(s) && forall i :: 0 <= i < |f| ==> f[i] == e[s[i]]
  }

  /** In a sorted index list, position order is key order. */
  lemma SortedPlaces(entries: seq<Entry>, j: nat, k: nat)
    requires DistinctKeys(entries) && j < |entries| && k < |entries|
    ensures IsPerm(KeySorted(entries))
    ensures var place := Inverse(KeySorted(entries));
            place[j] < place[k] <==> j != k && CmpStr(entries[j].key, entries[k].key) <= 0
  {
    var keys, idx := Keys(entries), KeySorted(entries);
    SortedPermutes(keys, |entries|);
    SortedAscends(keys, |entries|);
    var p, q := Inverse(idx)[j], Inverse(idx)[k];
    assert idx[p] == j && idx[q] == k;
    CmpStrSigns(entries[j].key, entries[k].key);
  }

  /** Map entries with distinct keys sort the same however they were inserted. */
  lemma SortForgetsInsertion(e: seq<Entry>, f: seq<Entry>, s: seq<nat>)
    requires Reorders(e, f, s) && DistinctKeys(e)
    ensures forall k :: 0 <= k < |e| ==> e[KeySorted(e)[k]] == f[KeySorted(f)[k]]
  {
    assert DistinctKeys(f) by {
      forall i, j | 0 <= i < j < |f| ensures f[i].key != f[j].key {
        assert s[i] != s[j];
      }
    }
    SortedPermutes(Keys(e), |e|);
    SortedPermutes(Keys(f), |f|);
    forall i, j | 0 <= i < |f| && 0 <= j < |f| ensures SamePlaces(KeySorted(e), KeySorted(f), s, i, j) {
      SortedPlaces(e, s[i], s[j]);
      SortedPlaces(f, i, j);
    }
    SameListing(e, f, s, KeySorted(e), KeySorted(f));
  }

  /** Two entries stand the same way round in both listings. */
  ghost predicate SamePlaces(se: seq<nat>, sf: seq<nat>, s: seq<nat>, i: nat, j: nat)
    requires IsPerm(se) && IsPerm(sf) && IsPerm(s) && |se| == |sf| == |s| && i < |s| && j < |s|
  {
    Inverse(se)[s[i]] < Inverse(se)[s[j]] <==> Inverse(sf)[i] < Inverse(sf)[j]
  }

  /** Then the same entry is at the same place in either. */
  lemma SameListing(e: seq<Entry>, f: seq<Entry>, s: seq<nat>, se: seq<nat>, sf: seq<nat>)
    requires Reorders(e, f, s) && IsPerm(se) && IsPerm(sf) && |se| == |sf| == |s|
    requires forall i, j :: 0 <= i < |s| && 0 <= j < |s| ==> SamePlaces(se, sf, s, i, j)
    ensures forall k :: 0 <= k < |e| ==> e[se[k]] == f[sf[k]]
  {
    var pe, pf := Inverse(se), Inverse(sf);
    var via := Through(pe, s);
    forall i, j | 0 <= i < |s| && 0 <= j < |s| ensures via[i] < via[j] <==> pf[i] < pf[j] {
      assert SamePlaces(se, sf, s, i, j);
    }
    SameOrderSamePerm(via, pf);
    forall k | 0 <= k < |e| ensures e[se[k]] == f[sf[k]] {
      assert pe[s[sf[k]]] == pf[sf[k]] == k;
    }
  }

  /** One permutation after another. */
  ghost function Through(p: seq<nat>, q: seq<nat>): (r: seq<nat>)
    requires IsPerm(p) && IsPerm(q) && |p| == |q|
    ensures |r| == |p| && IsPerm(r) && forall i :: 0 <= i < |r| ==> r[i] == p[q[i]]
  {
    var r := seq(|p|, i requires 0 <= i < |p| => p[q[i]]);
    assert forall i, j :: 0 <= i < j < |r| ==> q[i] != q[j] && r[i] == p[q[i]] && r[j] == p[q[j]];
    r
  }
}
