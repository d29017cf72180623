/** The open-addressing probe table: linear probing over an array whose zero slots are empty and
    whose other slots hold id + 1. */
module FlatTable {
  const TWO32: nat := 0x1_0000_0000
  const FIBONACCI: nat := 2654435761

  /** The 32-bit product, masked to a table of `n` slots (`n` a power of two). */
  function Home(id: nat, n: nat): (h: nat)
    requires n > 0
    ensures h < n
  {
    id * FIBONACCI % TWO32 % n
  }

  /** `d` slots past `h`, wrapping. */
  function Past(h: nat, d: nat, n: nat): (p: nat)
    requires h < n && d <= n
    ensures p < n
  {
    if h + d < n then h + d else h + d - n
  }

  /** How far past `h` position `p` lies. */
  function Gap(h: nat, p: nat, n: nat): (d: nat)
    requires h < n && p < n
    ensures d < n && Past(h, d, n) == p
  {
    if h <= p then p - h else p + n - h
  }

  /** Every slot from the home of the id at `p` up to `p` is taken. */
  ghost predicate Reachable(t: seq<nat>, p: nat)
    requires p < |t|
  {
    t[p] == 0 ||
    (var h := Home(t[p] - 1, |t|);
     forall d :: 0 <= d < Gap(h, p, |t|) ==> t[Past(h, d, |t|)] != 0)
  }

  ghost predicate Distinct(t: seq<nat>) {
    forall p, q :: 0 <= p < q < |t| && t[p] != 0 ==> t[p] != t[q]
  }

  ghost predicate Sound(t: seq<nat>) {
    |t| > 0 && Distinct(t) && forall p :: 0 <= p < |t| ==> Reachable(t, p)
  }

  /** The ids stored. */
  ghost function Ids(t: seq<nat>): set<nat> {
    set p | 0 <= p < |t| && t[p] != 0 :: t[p] - 1
  }

  /** How many slots are taken. */
  ghost function Used(t: seq<nat>): nat {
    if t == [] then 0 else Used(t[..|t| - 1]) + if t[|t| - 1] != 0 then 1 else 0
  }

  ghost predicate HasFree(t: seq<nat>) {
    exists p :: 0 <= p < |t| && t[p] == 0
  }

  /** The probe for `id` has passed `d` slots, all taken by others. */
  ghost predicate Passed(t: seq<nat>, id: nat, d: nat)
    requires |t| > 0 && d <= |t|
  {
    forall e :: 0 <= e < d ==> t[Past(Home(id, |t|), e, |t|)] != 0 && t[Past(Home(id, |t|), e, |t|)] != id + 1
  }

  lemma PassedAll(t: seq<nat>, id: nat)
    requires |t| > 0 && Passed(t, id, |t|)
    ensures !HasFree(t) && id !in Ids(t)
  {
    forall p | 0 <= p < |t| ensures t[p] != 0 && t[p] != id + 1 {
      var e := Gap(Home(id, |t|), p, |t|);
      assert t[Past(Home(id, |t|), e, |t|)] != 0;
    }
  }

  lemma PassedMore(t: seq<nat>, id: nat, h: nat, d: nat)
    requires |t| > 0 && h == Home(id, |t|) && d < |t| && Passed(t, id, d)
    requires t[Past(h, d, |t|)] != 0 && t[Past(h, d, |t|)] != id + 1
    ensures Passed(t, id, d + 1)
  {
  }

  /** A probe that ends on an empty slot proves absence. */
  lemma EmptyMeansAbsent(t: seq<nat>, id: nat, d: nat)
    requires Sound(t) && d < |t| && Passed(t, id, d) && t[Past(Home(id, |t|), d, |t|)] == 0
    ensures forall p :: 0 <= p < |t| ==> t[p] != id + 1
    ensures id !in Ids(t)
  {
    forall p | 0 <= p < |t| ensures t[p] != id + 1 {
      assert Reachable(t, p);
      var g := Gap(Home(id, |t|), p, |t|);
      assert Past(Home(id, |t|), g, |t|) == p;
    }
  }

  /** Filling the slot where the probe ended keeps the table sound. */
  lemma FillSlot(t: seq<nat>, id: nat, d: nat)
    requires Sound(t) && d < |t| && Passed(t, id, d) && t[Past(Home(id, |t|), d, |t|)] == 0
    ensures var i := Past(Home(id, |t|), d, |t|);
            && Sound(t[i := id + 1]) && Ids(t[i := id + 1]) == Ids(t) + {id}
            && Used(t[i := id + 1]) == Used(t) + 1
  {
    EmptyMeansAbsent(t, id, d);
    var i := Past(Home(id, |t|), d, |t|);
    var t' := t[i := id + 1];
    forall p | 0 <= p < |t'| ensures Reachable(t', p) {
      assert Reachable(t, p);
      if p == i { GapOfPast(Home(id, |t|), d, |t|); }
    }
    FilledIds(t, i, id);
    FilledUsed(t, i, id + 1);
  }

  lemma FilledIds(t: seq<nat>, i: nat, id: nat)
    requires i < |t| && t[i] == 0
    ensures Ids(t[i := id + 1]) == Ids(t) + {id}
  {
    var t' := t[i := id + 1];
    forall x ensures x in Ids(t') <==> x in Ids(t) + {id} {
      if x in Ids(t) {
        var p :| 0 <= p < |t| && t[p] != 0 && t[p] - 1 == x;
        assert t'[p] - 1 == x;
      }
      if x == id { assert t'[i] - 1 == x; }
    }
  }

  lemma {:induction false} FilledUsed(t: seq<nat>, i: nat, k: nat)
    requires i < |t| && t[i] == 0 && k != 0
    ensures Used(t[i := k]) == Used(t) + 1
  {
    var last := |t| - 1;
    if i == last {
      assert t[i := k][..last] == t[..last];
    } else {
      FilledUsed(t[..last], i, k);
      assert t[i := k][..last] == t[..last][i := k];
    }
  }

  lemma GapOfPast(h: nat, d: nat, n: nat)
    requires h < n && d < n
    ensures Gap(h, Past(h, d, n), n) == d
  {
  }

  lemma IdsOfLast(t: seq<nat>)
    requires t != []
    ensures Ids(t) == Ids(t[..|t| - 1]) + if t[|t| - 1] != 0 then {t[|t| - 1] - 1} else {}
  {
    var last := |t| - 1;
    var init := t[..last];
    forall x ensures x in Ids(t) <==> x in Ids(init) || (t[last] != 0 && x == t[last] - 1) {
      if x in Ids(t) {
        var p :| 0 <= p < |t| && t[p] != 0 && t[p] - 1 == x;
        if p < last { assert init[p] - 1 == x; }
      }
      if x in Ids(init) {
        var p :| 0 <= p < |init| && init[p] != 0 && init[p] - 1 == x;
        assert t[p] - 1 == x;
      }
    }
  }

  /** As many ids as taken slots. */
  lemma {:induction false} CountsAgree(t: seq<nat>)
    requires Distinct(t)
    ensures |Ids(t)| == Used(t)
  {
    if t != [] {
      var last := |t| - 1;
      CountsAgree(t[..last]);
      IdsOfLast(t);
    }
  }

  /** Fewer taken than slots leaves one free. */
  lemma {:induction false} FreeSlot(t: seq<nat>)
    requires Used(t) < |t|
    ensures HasFree(t)
  {
    var last := |t| - 1;
    if t[last] != 0 {
      FreeSlot(t[..last]);
      var p :| 0 <= p < last && t[..last][p] == 0;
      assert t[p] == 0;
    }
  }

  lemma {:induction false} UsedOfPrefix(t: seq<nat>, k: nat)
    requires k <= |t|
    ensures Used(t[..k]) <= Used(t)
  {
    if k == |t| {
      assert t[..k] == t;
    } else {
      UsedOfPrefix(t[..|t| - 1], k);
      assert t[..|t| - 1][..k] == t[..k];
    }
  }

  lemma EmptyIsSound(t: seq<nat>)
    requires |t| > 0 && forall p :: 0 <= p < |t| ==> t[p] == 0
    ensures Sound(t) && Ids(t) == {} && Used(t) == 0
  {
    NothingUsed(t);
  }

  lemma {:induction false} NothingUsed(t: seq<nat>)
    requires forall p :: 0 <= p < |t| ==> t[p] == 0
    ensures Used(t) == 0
  {
    if t != [] { NothingUsed(t[..|t| - 1]); }
  }

  /** What lies past the masked region is empty, so the whole array stores what the region does. */
  lemma {:induction false} TailIsEmpty(t: seq<nat>, n: nat)
    requires n <= |t| && forall p :: n <= p < |t| ==> t[p] == 0
    ensures Used(t) == Used(t[..n]) && Ids(t) == Ids(t[..n]) && (Distinct(t[..n]) ==> Distinct(t))
  {
    if n == |t| {
      assert t[..n] == t;
    } else {
      var last := |t| - 1;
      TailIsEmpty(t[..last], n);
      assert t[..last][..n] == t[..n];
      IdsOfLast(t);
    }
  }

  /** A table with no slot free counts as many as it has. */
  lemma {:induction false} FullTable(t: seq<nat>)
    requires !HasFree(t)
    ensures Used(t) == |t|
  {
    if t != [] {
      var last := |t| - 1;
      assert t[last] != 0;
      forall p | 0 <= p < last ensures t[..last][p] != 0 {
        assert t[p] != 0;
      }
      FullTable(t[..last]);
    }
  }

  lemma {:induction false} UsedAtMost(t: seq<nat>)
    ensures Used(t) <= |t|
  {
    if t != [] { UsedAtMost(t[..|t| - 1]); }
  }

  /** There is a slot free exactly when fewer are taken than there are. */
  lemma FreeIff(t: seq<nat>)
    ensures HasFree(t) <==> Used(t) < |t|
  {
    UsedAtMost(t);
    if Used(t) < |t| { FreeSlot(t); }
    if !HasFree(t) { FullTable(t); }
    if HasFree(t) && Used(t) == |t| { FullHasNone(t); }
  }

  lemma {:induction false} FullHasNone(t: seq<nat>)
    requires Used(t) == |t|
    ensures !HasFree(t)
  {
    if t != [] {
      var last := |t| - 1;
      UsedAtMost(t[..last]);
      FullHasNone(t[..last]);
      forall p | 0 <= p < |t| ensures t[p] != 0 {
        if p < last { assert t[..last][p] != 0; }
      }
    }
  }

  // ---- probing ------------------------------------------------------------------------------------

  /** The slot holding `id`, or the empty slot where it belongs, among the `n` slots the mask covers.
      The probe ends exactly when there is one or the other: having come full circle it would meet
      the same slots again, for ever. */
  method Probe(a: array<nat>, n: nat, id: nat) returns (ended: bool, i: nat, d: nat)
    requires 0 < n <= a.Length && Sound(a[..n])
    ensures ended <==> HasFree(a[..n]) || id in Ids(a[..n])
    ensures ended ==> i < n && (a[i] == 0 || a[i] == id + 1) && (a[i] == id + 1 <==> id in Ids(a[..n]))
    ensures ended && a[i] == 0 ==> d < n && Passed(a[..n], id, d) && i == Past(Home(id, n), d, n)
  {
    ghost var t: seq<nat> := a[..n];
    var h := Home(id, n);
    i, d := h, 0;
    while a[i] != 0
      invariant d < n && i == Past(h, d, n) && Passed(t, id, d)
      decreases n - d
    {
      if a[i] == id + 1 {
        assert t[i] - 1 == id;
        return true, i, d;
      }
      assert t[i] == a[i];
      PassedMore(t, id, h, d);
      if d + 1 == n {
        PassedAll(t, id);
        return false, i, d;
      }
      d := d + 1;
      i := if i + 1 < n then i + 1 else 0;
    }
    assert t[i] == 0;
    EmptyMeansAbsent(t, id, d);
    return true, i, d;
  }

  /** Adds an id the table lacks, at the slot the probe found. */
  method Fill(a: array<nat>, n: nat, id: nat, i: nat, ghost d: nat)
    requires 0 < n <= a.Length && Sound(a[..n]) && d < n && Passed(a[..n], id, d)
    requires i == Past(Home(id, n), d, n) && a[i] == 0
    modifies a
    ensures a[..] == old(a[..])[i := id + 1]
    ensures Sound(a[..n]) && Ids(a[..n]) == old(Ids(a[..n])) + {id} && Used(a[..n]) == old(Used(a[..n])) + 1
  {
    ghost var t: seq<nat> := a[..n];
    FillSlot(t, id, d);
    a[i] := id + 1;
    assert a[..n] == t[i := id + 1];
  }

  /** Places one more id in a table of full width, if there is room. */
  method Settle(to: array<nat>, id: nat) returns (ended: bool)
    requires to.Length > 0 && Sound(to[..]) && id !in Ids(to[..])
    modifies to
    ensures ended <==> old(Used(to[..])) < to.Length
    ensures ended ==> Sound(to[..]) && Ids(to[..]) == old(Ids(to[..])) + {id} && Used(to[..]) == old(Used(to[..])) + 1
  {
    ghost var t: seq<nat> := to[..];
    assert to[..to.Length] == t;
    FreeIff(t);
    var i, d;
    ended, i, d := Probe(to, to.Length, id);
    if ended {
      Fill(to, to.Length, id, i, d);
      assert to[..to.Length] == to[..];
    }
  }

  /** Rehashes every id of `from` into the empty table `to`; it ends exactly when they fit. */
  method Rehash(from: array<nat>, to: array<nat>) returns (ended: bool)
    requires from != to && Distinct(from[..]) && to.Length > 0
    requires forall p :: 0 <= p < to.Length ==> to[p] == 0
    modifies to
    ensures ended <==> Used(from[..]) <= to.Length
    ensures ended ==> Sound(to[..]) && Ids(to[..]) == Ids(from[..]) && Used(to[..]) == Used(from[..])
  {
    EmptyIsSound(to[..]);
    ghost var t: seq<nat> := from[..];
    for k := 0 to from.Length
      invariant from[..] == t
      invariant Sound(to[..]) && Ids(to[..]) == Ids(t[..k]) && Used(to[..]) == Used(t[..k])
    {
      IdsOfLast(t[..k + 1]);
      assert t[..k + 1][..k] == t[..k];
      UsedOfPrefix(t, k + 1);
      if from[k] != 0 {
        IsNew(t, k);
        ended := Settle(to, from[k] - 1);
        if !ended { return; }
      }
    }
    assert t[..from.Length] == t;
    UsedAtMost(to[..]);
    ended := true;
  }

  lemma IsNew(t: seq<nat>, k: nat)
    requires Distinct(t) && k < |t| && t[k] != 0
    ensures t[k] - 1 !in Ids(t[..k])
  {
  }
}
