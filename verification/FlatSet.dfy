/** Flat id sets sharing one recycler of slot arrays. */
module FlatSet {
  import opened FlatTable
  import opened Powers

  const CLASSES: nat := 26
  const TWO31: nat := 0x8000_0000
  /** The largest table whose size class is its size. */
  const LARGEST: nat := 0x200_0000

  // ---- size classes -----------------------------------------------------------------------------------

  ghost predicate PowerOfTwo(n: nat) {
    exists k: nat :: n == Pow2(k)
  }

  /** The halving count, clamped into the free lists. */
  method LogOf(n: nat) returns (lg: nat)
    ensures lg == Class(n)
  {
    var m: nat := n;
    lg := 0;
    while m > 1
      invariant Halvings(n) == lg + Halvings(m)
    {
      m := m / 2;
      lg := lg + 1;
    }
    if lg >= CLASSES { lg := CLASSES - 1; }
  }

  function Halvings(n: nat): nat {
    if n <= 1 then 0 else 1 + Halvings(n / 2)
  }

  function Class(n: nat): (lg: nat)
    ensures lg < CLASSES
  {
    if Halvings(n) >= CLASSES then CLASSES - 1 else Halvings(n)
  }

  lemma {:induction false} HalvingsOfPower(k: nat)
    ensures Halvings(Pow2(k)) == k
  {
    if k > 0 { HalvingsOfPower(k - 1); }
  }

  lemma LargestIsPower()
    ensures LARGEST == Pow2(CLASSES - 1)
  {
    assert Pow2(5) == 32;
    assert Pow2(10) == 1024;
    assert Pow2(15) == 0x8000;
    assert Pow2(20) == 0x10_0000;
    assert Pow2(25) == LARGEST;
  }

  /** A size class fixes the size, except that everything from the largest size up shares the last
      class. */
  lemma ClassIsSize(m: nat, n: nat)
    requires PowerOfTwo(m) && PowerOfTwo(n)
    ensures Class(m) == Class(n) <==> m == n || (m >= LARGEST && n >= LARGEST)
  {
    var j: nat :| m == Pow2(j);
    var k: nat :| n == Pow2(k);
    HalvingsOfPower(j);
    HalvingsOfPower(k);
    LargestIsPower();
    if j < k { PowersGrow(j, k); } else if k < j { PowersGrow(k, j); }
    if j < CLASSES - 1 { PowersGrow(j, CLASSES - 1); } else if j > CLASSES - 1 { PowersGrow(CLASSES - 1, j); }
    if k < CLASSES - 1 { PowersGrow(k, CLASSES - 1); } else if k > CLASSES - 1 { PowersGrow(CLASSES - 1, k); }
  }

  // ---- the free lists --------------------------------------------------------------------------------

  ghost function Filed(byLog: seq<seq<array<nat>>>): set<array<nat>> {
    set lg, j | 0 <= lg < |byLog| && 0 <= j < |byLog[lg]| :: byLog[lg][j]
  }

  function Slots(list: seq<array<nat>>): nat {
    if list == [] then 0 else Slots(list[..|list| - 1]) + list[|list| - 1].Length
  }

  function AllSlots(byLog: seq<seq<array<nat>>>): nat {
    if byLog == [] then 0 else AllSlots(byLog[..|byLog| - 1]) + Slots(byLog[|byLog| - 1])
  }

  /** Every filed array sits in its own class, once. */
  ghost predicate InOrder(byLog: seq<seq<array<nat>>>) {
    && |byLog| == CLASSES
    && (forall lg, j :: 0 <= lg < CLASSES && 0 <= j < |byLog[lg]| ==>
          PowerOfTwo(byLog[lg][j].Length) && Class(byLog[lg][j].Length) == lg)
    && (forall lg, i, j :: 0 <= lg < CLASSES && 0 <= i < j < |byLog[lg]| ==> byLog[lg][i] != byLog[lg][j])
  }

  lemma {:induction false} SlotsChange(byLog: seq<seq<array<nat>>>, lg: nat, list: seq<array<nat>>)
    requires lg < |byLog|
    ensures AllSlots(byLog[lg := list]) == AllSlots(byLog) - Slots(byLog[lg]) + Slots(list)
  {
    var last := |byLog| - 1;
    if lg == last {
      assert byLog[lg := list][..last] == byLog[..last];
    } else {
      SlotsChange(byLog[..last], lg, list);
      assert byLog[lg := list][..last] == byLog[..last][lg := list];
    }
  }

  /** How many slots an array asked for with size `n` will have. */
  ghost function Handed(byLog: seq<seq<array<nat>>>, n: nat): nat
    requires |byLog| == CLASSES
  {
    var free := byLog[Class(n)];
    if free == [] then n else free[|free| - 1].Length
  }

  /** The size asked for, up to the last class; there, whatever was filed last. */
  lemma HandedExactly(byLog: seq<seq<array<nat>>>, n: nat)
    requires InOrder(byLog) && PowerOfTwo(n)
    ensures n < LARGEST ==> Handed(byLog, n) == n
    ensures n >= LARGEST ==> Handed(byLog, n) >= LARGEST
    ensures PowerOfTwo(Handed(byLog, n))
  {
    var free := byLog[Class(n)];
    if free != [] { ClassIsSize(free[|free| - 1].Length, n); }
  }

  class Recycle {
    var byLog: seq<seq<array<nat>>>
    var held: int

    ghost predicate Valid()
      reads this
    {
      InOrder(byLog) && held == 4 * AllSlots(byLog)
    }

    constructor ()
      ensures Valid() && Filed(byLog) == {}
    {
      byLog, held := seq(CLASSES, _ => []), 0;
      new;
      NothingHeld(byLog);
    }

    /** A zeroed array, or null when the class is empty. It has exactly `n` slots if and only if `n`
        is below the shared last class or the array filed there last has. */
    method Take(n: nat) returns (a: array?<nat>)
      requires Valid() && PowerOfTwo(n)
      modifies this, Filed(byLog)
      ensures Valid()
      ensures a == null <==> old(byLog[Class(n)]) == []
      ensures a == null ==> byLog == old(byLog)
      ensures a != null ==> a.Length == old(Handed(byLog, n))
      ensures a != null ==> (a.Length == n <==> n < LARGEST || old(Handed(byLog, n)) == n)
      ensures a != null ==> a in old(Filed(byLog)) && Filed(byLog) == old(Filed(byLog)) - {a}
      ensures a != null ==> forall i :: 0 <= i < a.Length ==> a[i] == 0
    {
      var lg := LogOf(n);
      var free := byLog[lg];
      if free == [] { return null; }
      var last := free[|free| - 1];
      assert last in Filed(byLog);
      SlotsChange(byLog, lg, free[..|free| - 1]);
      Popped(byLog, lg);
      HandedExactly(byLog, n);
      byLog := byLog[lg := free[..|free| - 1]];
      held := held - 4 * last.Length;
      forall i | 0 <= i < last.Length { last[i] := 0; }
      a := last;
    }

    /** Files an array under its size class. */
    method Put(a: array<nat>)
      requires Valid() && PowerOfTwo(a.Length) && a !in Filed(byLog)
      modifies this
      ensures Valid() && Filed(byLog) == old(Filed(byLog)) + {a}
    {
      var lg := LogOf(a.Length);
      SlotsChange(byLog, lg, byLog[lg] + [a]);
      assert (byLog[lg] + [a])[..|byLog[lg]|] == byLog[lg];
      Pushed(byLog, lg, a);
      byLog := byLog[lg := byLog[lg] + [a]];
      held := held + 4 * a.Length;
    }
  }

  lemma {:induction false} NothingHeld(byLog: seq<seq<array<nat>>>)
    requires forall lg :: 0 <= lg < |byLog| ==> byLog[lg] == []
    ensures AllSlots(byLog) == 0
  {
    if byLog != [] { NothingHeld(byLog[..|byLog| - 1]); }
  }

  lemma Popped(byLog: seq<seq<array<nat>>>, lg: nat)
    requires InOrder(byLog) && lg < CLASSES && byLog[lg] != []
    ensures var last := |byLog[lg]| - 1;
            var less := byLog[lg := byLog[lg][..last]];
            InOrder(less) && Filed(less) == Filed(byLog) - {byLog[lg][last]}
  {
    var last := |byLog[lg]| - 1;
    var a, less := byLog[lg][last], byLog[lg := byLog[lg][..last]];
    forall x ensures x in Filed(less) <==> x in Filed(byLog) && x != a {
      if x in Filed(byLog) && x != a {
        var g, j :| 0 <= g < |byLog| && 0 <= j < |byLog[g]| && byLog[g][j] == x;
        assert less[g][j] == x;
      }
      if x in Filed(less) {
        var g, j :| 0 <= g < |less| && 0 <= j < |less[g]| && less[g][j] == x;
        assert byLog[g][j] == x;
      }
    }
  }

  lemma Pushed(byLog: seq<seq<array<nat>>>, lg: nat, a: array<nat>)
    requires InOrder(byLog) && PowerOfTwo(a.Length) && lg == Class(a.Length) && a !in Filed(byLog)
    ensures var more := byLog[lg := byLog[lg] + [a]];
            InOrder(more) && Filed(more) == Filed(byLog) + {a}
  {
    var more := byLog[lg := byLog[lg] + [a]];
    forall x ensures x in Filed(more) <==> x in Filed(byLog) || x == a {
      if x in Filed(byLog) {
        var g, j :| 0 <= g < |byLog| && 0 <= j < |byLog[g]| && byLog[g][j] == x;
        assert more[g][j] == x;
      }
      if x in Filed(more) {
        var g, j :| 0 <= g < |more| && 0 <= j < |more[g]| && more[g][j] == x;
        if g != lg || j < |byLog[lg]| { assert byLog[g][j] == x; }
      }
      if x == a { assert more[lg][|byLog[lg]|] == a; }
    }
    forall i, j | 0 <= i < j < |more[lg]| ensures more[lg][i] != more[lg][j] {
      assert byLog[lg][i] in Filed(byLog);
    }
  }

  // ---- the set ---------------------------------------------------------------------------------------

  /** A probe table: the mask covers the first `n` slots and nothing is stored past them. */
  ghost predicate TableOf(t: seq<nat>, n: nat, count: nat) {
    && 0 < n <= |t| && PowerOfTwo(|t|) && |t| >= 16
    && Sound(t[..n]) && count == Used(t[..n])
    && forall p :: n <= p < |t| ==> t[p] == 0
  }

  lemma DoubledPower(n: nat)
    requires PowerOfTwo(n)
    ensures PowerOfTwo(2 * n) && (n >= 4 ==> n % 4 == 0)
  {
    var k: nat :| n == Pow2(k);
    assert Pow2(k + 1) == 2 * n;
    if n >= 4 {
      assert k >= 2;
      FourTimes(k - 2, n);
    }
  }

  lemma FourTimes(j: nat, n: nat)
    requires n == Pow2(j + 2)
    ensures n % 4 == 0
  {
    assert Pow2(j + 2) == 2 * Pow2(j + 1) == 4 * Pow2(j);
  }

  lemma RoomForOne(n: nat, count: nat)
    requires PowerOfTwo(n) && n >= 16 && count * 4 < n * 3
    ensures (count + 1) * 4 <= n * 3
  {
    DoubledPower(n);
    QuarterFree(n / 4, count);
  }

  lemma QuarterFree(q: nat, count: nat)
    requires count * 4 < 4 * q * 3
    ensures (count + 1) * 4 <= 4 * q * 3
  {
  }

  lemma SixteenIsPower()
    ensures PowerOfTwo(16)
  {
    assert Pow2(4) == 16;
  }

  /** A zeroed table under a full mask. */
  lemma FreshTable(t: seq<nat>, n: nat)
    requires 0 < n <= |t| && PowerOfTwo(|t|) && |t| >= 16 && forall p :: 0 <= p < |t| ==> t[p] == 0
    ensures TableOf(t, n, 0) && Ids(t[..n]) == {}
  {
    EmptyIsSound(t[..n]);
  }

  class U32Set {
    var slots: array?<nat>
    /** One more than the mask. */
    var size: nat
    var count: nat
    const rec: Recycle?

    constructor (rec: Recycle?)
      ensures this.rec == rec && slots == null && Valid() && fresh(this)
    {
      slots, size, count, this.rec := null, 0, 0, rec;
    }

    ghost predicate Valid()
      reads this, slots
    {
      if slots == null then count == 0 else TableOf(slots[..], size, count)
    }

    /** The recycler is in order and holds nothing of this set's. */
    ghost predicate Apart()
      reads this, rec
    {
      rec != null ==> rec.Valid() && (slots != null ==> slots !in Filed(rec.byLog))
    }

    ghost function Members(): set<nat>
      reads this, slots
      requires slots != null ==> size <= slots.Length
    {
      if slots == null then {} else Ids(slots[..size])
    }

    /** The mask covers the whole array, a quarter of it free. */
    ghost predicate Healthy()
      reads this
    {
      slots != null ==> size == slots.Length && count * 4 <= slots.Length * 3
    }

    predicate GrowthDue()
      reads this
    {
      slots != null && count * 4 >= slots.Length * 3
    }

    /** How many slots the next array of size `n` will have. */
    ghost function NextSize(n: nat): nat
      reads this, rec
      requires Apart()
    {
      if rec == null then n else Handed(rec.byLog, n)
    }

    /** When adding `id` ends: the growth that is due finds an array its ids fit into, and there is a
        free slot under the mask or the id is there already. */
    ghost predicate AddEnds(id: nat)
      reads this, slots, rec
      requires Valid() && Apart()
    {
      var room := if slots == null then 16 else if GrowthDue() then NextSize(2 * slots.Length) else size;
      count < room || (count == room && id in Members())
    }

    /** The arrays this set may hand around. */
    ghost function Arrays(): set<array<nat>>
      reads this, rec
    {
      (if slots == null then {} else {slots}) + if rec == null then {} else Filed(rec.byLog)
    }

    method Len() returns (n: nat)
      requires Valid()
      ensures n == |Members()|
    {
      if slots != null { CountsAgree(slots[..size]); }
      return count;
    }

    /** Membership; the probe for an absent id ends only at a free slot. */
    method Has(id: nat) returns (ended: bool, found: bool)
      requires Valid()
      ensures ended <==> slots == null || count < size || id in Members()
      ensures ended ==> (found <==> id in Members())
    {
      if slots == null { return true, false; }
      FreeIff(slots[..size]);
      var i, d;
      ended, i, d := Probe(slots, size, id);
      found := ended && slots[i] != 0;
    }

    /** A zeroed array from the recycler, or a fresh one. */
    method NewSlots(n: nat) returns (a: array<nat>)
      requires Apart() && PowerOfTwo(n) && n > 0
      modifies rec, if rec == null then {} else Filed(rec.byLog)
      ensures Apart() && a.Length == old(NextSize(n)) && PowerOfTwo(a.Length)
      ensures forall i :: 0 <= i < a.Length ==> a[i] == 0
      ensures a !in Arrays() && Arrays() <= old(Arrays())
      ensures fresh(a) || a in old(Arrays())
    {
      if rec != null {
        HandedExactly(rec.byLog, n);
        var taken := rec.Take(n);
        if taken != null { return taken; }
      }
      a := new nat[n](_ => 0);
    }

    /** Moves every id into the array handed out for twice the size and files the outgrown one; it
        ends exactly when they fit. */
    method Grow() returns (ended: bool)
      requires Valid() && Apart() && slots != null
      modifies this`slots, this`size, rec, Arrays()
      ensures ended <==> count <= old(NextSize(2 * slots.Length))
      ensures ended ==> Valid() && Apart() && slots != null && size == slots.Length == old(NextSize(2 * slots.Length))
      ensures ended ==> Members() == old(Members())
      ensures fresh(Arrays() - old(Arrays()))
    {
      var was := slots;
      ghost var t: seq<nat> := was[..];
      DoubledPower(was.Length);
      LongEnough(2 * was.Length);
      var grown := NewSlots(2 * was.Length);
      TailIsEmpty(t, size);
      assert was[..] == t;
      ended := Rehash(was, grown);
      if !ended { return; }
      slots, size := grown, grown.Length;
      assert slots[..size] == slots[..];
      if rec != null { rec.Put(was); }
    }

    lemma LongEnough(n: nat)
      requires Apart() && PowerOfTwo(n) && n >= 16
      ensures NextSize(n) >= 16
    {
      if rec != null { HandedExactly(rec.byLog, n); }
    }

    /** Below the last class a growth always finds room. */
    lemma SmallTablesGrow()
      requires Valid() && Apart() && slots != null && slots.Length < LARGEST
      ensures NextSize(2 * slots.Length) >= 2 * slots.Length
    {
      DoubledPower(slots.Length);
      if rec != null {
        HandedExactly(rec.byLog, 2 * slots.Length);
        UpToLargest(slots.Length);
      }
    }

    /** Adding ends exactly under the stated condition, and then adds just the one id. A healthy set
        whose growth, if due, is handed twice its size or more always ends, and stays healthy. */
    method Add(id: nat) returns (ended: bool, added: bool)
      requires Valid() && Apart() && id < 0xFFFF_FFFF
      modifies this`slots, this`size, this`count, rec, Arrays()
      ensures ended <==> old(AddEnds(id))
      ensures ended ==> Valid() && Apart() && Members() == old(Members()) + {id}
      ensures ended ==> (added <==> id !in old(Members()))
      ensures ended ==> count == old(count) + if added then 1 else 0
      ensures old(slots) != null && !old(GrowthDue()) ==> slots == old(slots) && size == old(size) && Arrays() == old(Arrays())
      ensures old(Healthy()) && (old(GrowthDue()) ==> old(NextSize(2 * slots.Length)) >= 2 * old(slots).Length) ==> ended && Healthy()
      ensures fresh(Arrays() - old(Arrays()))
    {
      if slots != null { UsedAtMost(slots[..size]); }
      ended := MakeRoom();
      if !ended { return false, false; }
      if count * 4 < slots.Length * 3 { RoomForOne(slots.Length, count); }
      ended, added := Place(id);
    }

    /** The first table, or the growth that is due. */
    method MakeRoom() returns (ended: bool)
      requires Valid() && Apart()
      modifies this`slots, this`size, rec, Arrays()
      ensures ended <==> old(slots == null || !GrowthDue() || count <= NextSize(2 * slots.Length))
      ensures ended ==> Valid() && Apart() && slots != null && Members() == old(Members())
      ensures ended ==> size == old(if slots == null then 16 else if GrowthDue() then NextSize(2 * slots.Length) else size)
      ensures ended && (old(slots) == null || old(GrowthDue())) ==> slots.Length == size
      ensures old(slots) != null && !old(GrowthDue()) ==> slots == old(slots) && Arrays() == old(Arrays())
      ensures fresh(Arrays() - old(Arrays()))
    {
      if slots == null {
        SixteenIsPower();
        Materialize(16);
        return true;
      }
      if GrowthDue() {
        ended := Grow();
        return;
      }
      return true;
    }

    method Place(id: nat) returns (ended: bool, added: bool)
      requires Valid() && Apart() && slots != null
      modifies this`count, slots
      ensures ended <==> old(count) < size || id in old(Members())
      ensures ended ==> Valid() && Apart() && slots == old(slots)
      ensures ended ==> Members() == old(Members()) + {id} && (added <==> id !in old(Members()))
      ensures ended ==> count == old(count) + if added then 1 else 0
    {
      ghost var t: seq<nat> := slots[..];
      FreeIff(slots[..size]);
      var i, d;
      ended, i, d := Probe(slots, size, id);
      if !ended { return false, false; }
      if slots[i] != 0 {
        assert Members() + {id} == Members();
        return true, false;
      }
      Fill(slots, size, id, i, d);
      count := count + 1;
      return true, true;
    }

    /** An empty table under a mask for `n`, in whatever array is handed out for `n`. */
    method Materialize(n: nat)
      requires Valid() && Apart() && slots == null && PowerOfTwo(n) && n >= 16
      modifies this`slots, this`size, rec, Arrays()
      ensures Apart() && slots != null && size == n && slots.Length == old(NextSize(n))
      ensures Valid() <==> n <= slots.Length
      ensures Valid() ==> Members() == {}
      ensures n < LARGEST ==> slots.Length == n
      ensures fresh(Arrays() - old(Arrays()))
    {
      LongEnough(n);
      if rec != null { HandedExactly(rec.byLog, n); }
      slots := NewSlots(n);
      size := n;
      if n <= slots.Length { FreshTable(slots[..], n); }
    }

    /** The mask comes from `n`, the array from the recycler: the table is a healthy one of `n` slots
        exactly when that array has `n`, and none at all when it has fewer. */
    method Presize(n: nat)
      requires Valid() && Apart() && PowerOfTwo(n)
      modifies this`slots, this`size, rec, Arrays()
      ensures Apart() && count == old(count)
      ensures old(slots) != null || n <= 16 ==> slots == old(slots) && size == old(size) && Valid()
      ensures old(slots) == null && n > 16 ==> slots != null && size == n && slots.Length == old(NextSize(n))
      ensures old(slots) == null && n > 16 ==> (Valid() <==> n <= slots.Length) && (Valid() && Healthy() <==> n == slots.Length)
      ensures n < LARGEST ==> Valid() && (old(Healthy()) ==> Healthy())
      ensures Valid() ==> Members() == old(Members())
      ensures fresh(Arrays() - old(Arrays()))
    {
      if slots != null || n <= 16 { return; }
      Materialize(n);
    }

    method Reset()
      requires Valid() && Apart()
      modifies this`count, slots
      ensures Valid() && Apart() && Members() == {} && slots == old(slots) && (old(Healthy()) ==> Healthy())
    {
      if slots != null {
        forall i | 0 <= i < slots.Length { slots[i] := 0; }
        FreshTable(slots[..], size);
      }
      count := 0;
    }

    method Release()
      requires Valid() && Apart()
      modifies this, rec
      ensures Valid() && Apart() && Members() == {} && slots == null && Arrays() <= old(Arrays())
    {
      if rec != null && slots != null { rec.Put(slots); }
      slots, size, count := null, 0, 0;
    }
  }

  lemma UpToLargest(n: nat)
    requires PowerOfTwo(n) && n < LARGEST
    ensures 2 * n <= LARGEST
  {
    var k: nat :| n == Pow2(k);
    LargestIsPower();
    if k >= CLASSES - 1 {
      if k > CLASSES - 1 { PowersGrow(CLASSES - 1, k); }
    } else if k < CLASSES - 2 {
      PowersGrow(k, CLASSES - 2);
    }
  }

  // ---- the mask and the array disagree ----------------------------------------------------------------

  /** A recycler that hands out 2^26 slots when asked for 2^25. */
  method OversizedRecycler() returns (rec: Recycle)
    ensures fresh(rec) && rec.Valid() && fresh(Filed(rec.byLog)) && Handed(rec.byLog, LARGEST) == 2 * LARGEST
  {
    rec := new Recycle();
    var a := new nat[2 * LARGEST](_ => 0);
    LargestIsPower();
    DoubledPower(LARGEST);
    ClassIsSize(2 * LARGEST, LARGEST);
    rec.Put(a);
    OnlyOneFiled(rec.byLog, a, LARGEST);
  }

  lemma OnlyOneFiled(byLog: seq<seq<array<nat>>>, a: array<nat>, n: nat)
    requires InOrder(byLog) && Filed(byLog) == {a} && Class(a.Length) == Class(n)
    ensures Handed(byLog, n) == a.Length
  {
    assert a in Filed(byLog);
    var lg, j :| 0 <= lg < |byLog| && 0 <= j < |byLog[lg]| && byLog[lg][j] == a;
    var free := byLog[lg];
    assert free[|free| - 1] in Filed(byLog);
  }

  ghost function Below(n: nat): (s: set<nat>)
    ensures forall x: nat :: x in s <==> x < n
  {
    if n == 0 then {} else Below(n - 1) + {n - 1}
  }

  /** The ids below `k`, under a mask for `n`, in an array at least twice as long. */
  ghost predicate Oversized(s: U32Set, n: nat, k: nat)
    reads s, s.slots, s.rec
  {
    && s.Valid() && s.Apart() && s.slots != null && s.size == n && s.slots.Length >= 2 * n
    && s.count == k && s.Members() == Below(k)
  }

  method FillNext(s: U32Set, n: nat, k: nat)
    requires Oversized(s, n, k) && k < n < TWO31
    modifies s`slots, s`size, s`count, s.rec, s.Arrays()
    ensures Oversized(s, n, k + 1) && s.Arrays() == old(s.Arrays())
  {
    var ended, added := s.Add(k);
  }

  lemma FullIsStuck(s: U32Set, n: nat)
    requires Oversized(s, n, n) && n > 0
    ensures forall id :: id >= n ==> !s.AddEnds(id)
  {
  }

  /** Presized for `n` in an array twice as long, the set takes `n` ids without growing -- and then
      no other id can be added, or found absent: the masked slots are all taken, the array's length
      calls for no growth, and the probe goes round for ever. */
  method FillOversized(rec: Recycle, n: nat) returns (s: U32Set)
    requires rec.Valid() && PowerOfTwo(n) && 16 < n < TWO31 && Handed(rec.byLog, n) >= 2 * n
    modifies rec, Filed(rec.byLog)
    ensures s.Valid() && s.Apart() && s.count == n && s.Members() == Below(n)
    ensures forall id :: id >= n ==> !s.AddEnds(id)
  {
    s := new U32Set(rec);
    s.Presize(n);
    for k := 0 to n
      invariant Oversized(s, n, k) && s.rec == rec && fresh(s) && fresh(s.Arrays() - old(Filed(rec.byLog)))
    {
      FillNext(s, n, k);
    }
    FullIsStuck(s, n);
  }

  /** Presized into an array shorter than the mask, the set has ids whose home slot lies outside it. */
  lemma HomeOutside(n: nat, length: nat) returns (id: nat)
    requires length < n <= TWO32
    ensures id < TWO32 && Home(id, n) == length
  {
    id := length * 244002641 % TWO32;
    var q := length * 244002641 / TWO32;
    assert 244002641 * FIBONACCI == 150801925 * TWO32 + 1;
    Unscrambled(length, 244002641, id, q, 150801925, FIBONACCI);
    WholeTurns(length, length * 150801925 - q * FIBONACCI, TWO32);
    WholeTurns(length, 0, n);
  }

  lemma Unscrambled(x: int, g: int, id: int, q: int, k: int, f: int)
    requires x * g == q * TWO32 + id && g * f == k * TWO32 + 1
    ensures id * f == x + (x * k - q * f) * TWO32
  {
    calc {
      id * f;
      (x * g - q * TWO32) * f;
      x * (g * f) - q * f * TWO32;
      x * (k * TWO32 + 1) - q * f * TWO32;
    }
  }

  lemma WholeTurns(x: int, z: int, m: int)
    requires 0 <= x < m
    ensures (x + z * m) % m == x
  {
    var y := x + z * m;
    assert y == y / m * m + y % m;
    Pinned(y / m - z, m, x - y % m);
  }

  lemma Pinned(d: int, m: int, e: int)
    requires d * m == e && -m < e < m
    ensures d == 0
  {
    assert d >= 1 ==> d * m >= m;
    assert d <= -1 ==> d * m <= -m;
  }

  // ---- many sets, one recycler ---------------------------------------------------------------------

  /** No slot array is both filed and live, or live in two sets. */
  ghost predicate Sharing(sets: set<U32Set>, rec: Recycle?)
    reads sets, set s | s in sets && s.slots != null :: s.slots, rec
  {
    && (forall s :: s in sets ==> s.rec == rec && s.Valid() && s.Apart())
    && (forall s, t :: s in sets && t in sets && s != t && s.slots != null ==> s.slots != t.slots)
  }

  /** When a growth that is due is handed twice the size or more. */
  ghost predicate Roomy(s: U32Set)
    requires s.Apart()
    reads s, s.rec
  {
    s.GrowthDue() ==> s.NextSize(2 * s.slots.Length) >= 2 * s.slots.Length
  }

  method AddShared(ghost sets: set<U32Set>, s: U32Set, id: nat) returns (ended: bool, added: bool)
    requires Sharing(sets, s.rec) && s in sets && id < 0xFFFF_FFFF
    modifies s`slots, s`size, s`count, s.rec, s.Arrays()
    ensures ended <==> old(s.AddEnds(id))
    ensures ended ==> Sharing(sets, s.rec)
    ensures ended ==> s.Members() == old(s.Members()) + {id} && (added <==> id !in old(s.Members()))
    ensures ended ==> s.count == old(s.count) + if added then 1 else 0
    ensures old(s.Healthy() && Roomy(s)) ==> ended && s.Healthy()
    ensures fresh(s.Arrays() - old(s.Arrays()))
    ensures forall t :: t in sets && t != s ==> t.Valid() && t.Members() == old(t.Members()) && t.slots == old(t.slots)
  {
    ended, added := AddBeside(sets, s, id);
  }

  method AddBeside(ghost sets: set<U32Set>, s: U32Set, id: nat) returns (ended: bool, added: bool)
    requires Sharing(sets, s.rec) && s in sets && id < 0xFFFF_FFFF
    modifies s`slots, s`size, s`count, s.rec, s.Arrays()
    ensures ended <==> old(s.AddEnds(id))
    ensures ended ==> s.Valid() && s.Apart() && s.Members() == old(s.Members()) + {id} && (added <==> id !in old(s.Members()))
    ensures ended ==> s.count == old(s.count) + if added then 1 else 0
    ensures old(s.Healthy() && Roomy(s)) ==> ended && s.Healthy()
    ensures fresh(s.Arrays() - old(s.Arrays()))
    ensures Bystanders(sets, s)
    ensures forall t :: t in sets && t != s ==> t.Members() == old(t.Members()) && t.slots == old(t.slots)
  {
    ended, added := s.Add(id);
  }

  /** The other sets are as they should be, whatever happened to `s`. */
  ghost predicate Bystanders(sets: set<U32Set>, s: U32Set)
    reads sets, set t | t in sets && t.slots != null :: t.slots, s, s.rec
  {
    forall t :: t in sets && t != s ==>
      && t.rec == s.rec && t.Valid() && (s.rec != null && t.slots != null ==> t.slots !in Filed(s.rec.byLog))
      && (t.slots != null ==> s.slots != t.slots)
  }

  method ReleaseShared(ghost sets: set<U32Set>, s: U32Set)
    requires Sharing(sets, s.rec) && s in sets
    modifies s, s.rec
    ensures Sharing(sets, s.rec) && s.Members() == {} && s.slots == null && s.Arrays() <= old(s.Arrays())
    ensures forall t :: t in sets && t != s ==> t.Valid() && t.Members() == old(t.Members()) && t.slots == old(t.slots)
  {
    s.Release();
  }

  method PresizeShared(ghost sets: set<U32Set>, s: U32Set, n: nat)
    requires Sharing(sets, s.rec) && s in sets && PowerOfTwo(n)
    modifies s`slots, s`size, s.rec, s.Arrays()
    ensures Sharing(sets, s.rec) <==> old(s.slots != null || n <= 16 || n <= s.NextSize(n))
    ensures Sharing(sets, s.rec) ==> s.Members() == old(s.Members())
    ensures old(s.Healthy()) ==> (Sharing(sets, s.rec) && s.Healthy() <==> old(s.slots != null || n <= 16 || n == s.NextSize(n)))
    ensures n < LARGEST ==> Sharing(sets, s.rec) && (old(s.Healthy()) ==> s.Healthy())
    ensures fresh(s.Arrays() - old(s.Arrays()))
    ensures forall t :: t in sets && t != s ==> t.Valid() && t.Members() == old(t.Members()) && t.slots == old(t.slots)
  {
    PresizeBeside(sets, s, n);
  }

  method PresizeBeside(ghost sets: set<U32Set>, s: U32Set, n: nat)
    requires Sharing(sets, s.rec) && s in sets && PowerOfTwo(n)
    modifies s`slots, s`size, s.rec, s.Arrays()
    ensures s.Apart() && Bystanders(sets, s)
    ensures s.Valid() <==> old(s.slots != null || n <= 16 || n <= s.NextSize(n))
    ensures s.Valid() ==> s.Members() == old(s.Members())
    ensures old(s.Healthy()) ==> (s.Valid() && s.Healthy() <==> old(s.slots != null || n <= 16 || n == s.NextSize(n)))
    ensures n < LARGEST ==> s.Valid() && (old(s.Healthy()) ==> s.Healthy())
    ensures fresh(s.Arrays() - old(s.Arrays()))
    ensures forall t :: t in sets && t != s ==> t.Members() == old(t.Members()) && t.slots == old(t.slots)
  {
    s.Presize(n);
  }

  method ResetShared(ghost sets: set<U32Set>, s: U32Set)
    requires Sharing(sets, s.rec) && s in sets
    modifies s`count, s.slots
    ensures Sharing(sets, s.rec) && s.Members() == {} && s.slots == old(s.slots) && (old(s.Healthy()) ==> s.Healthy())
    ensures s.Arrays() == old(s.Arrays())
    ensures forall t :: t in sets && t != s ==> t.Valid() && t.Members() == old(t.Members()) && t.slots == old(t.slots)
  {
    s.Reset();
  }
}
