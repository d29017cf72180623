/** The hand-rolled binary heap behind both shortest-path searches. */
module Heap {

  /** One frontier state. Costs are exact: `+Inf` never enters the heap. */
  datatype Entry = Entry(cost: real, node: nat)

  /** Cheaper first, then the smaller id, so no two entries of different nodes tie. */
  predicate Less(x: Entry, y: Entry) {
    x.cost < y.cost || (x.cost == y.cost && x.node < y.node)
  }

  function Parent(i: nat): nat
    requires i > 0
  {
    (i - 1) / 2
  }

  /** Heap order everywhere but between `hole` and its parent, the hole's children already
      fitting above it. */
  ghost predicate UpHeap(a: seq<Entry>, hole: nat) {
    && (forall i :: 0 < i < |a| && i != hole ==> !Less(a[i], a[Parent(i)]))
    && (forall i :: 0 < i < |a| && Parent(i) == hole && hole > 0 && hole < |a| ==> !Less(a[i], a[Parent(hole)]))
  }

  /** Heap order everywhere but between `hole` and its children, which already fit above it. */
  ghost predicate DownHeap(a: seq<Entry>, hole: nat) {
    && (forall i :: 0 < i < |a| && Parent(i) != hole ==> !Less(a[i], a[Parent(i)]))
    && (forall i :: 0 < i < |a| && Parent(i) == hole && hole > 0 ==> !Less(a[i], a[Parent(hole)]))
  }

  ghost predicate IsHeap(a: seq<Entry>) {
    forall i :: 0 < i < |a| ==> !Less(a[i], a[Parent(i)])
  }

  lemma {:induction false} RootIsLeast(a: seq<Entry>, i: nat)
    requires IsHeap(a) && i < |a|
    ensures !Less(a[i], a[0])
  {
    if i > 0 {
      RootIsLeast(a, Parent(i));
    }
  }

  function Swap(a: seq<Entry>, i: nat, j: nat): (r: seq<Entry>)
    requires i < |a| && j < |a|
    ensures |r| == |a| && multiset(r) == multiset(a)
  {
    a[i := a[j]][j := a[i]]
  }

  lemma SwapUp(a: seq<Entry>, i: nat)
    requires 0 < i < |a| && UpHeap(a, i) && Less(a[i], a[Parent(i)])
    ensures UpHeap(Swap(a, i, Parent(i)), Parent(i))
  {
    var p := Parent(i);
    var r := Swap(a, i, p);
    forall j | 0 < j < |r| && j != p ensures !Less(r[j], r[Parent(j)]) {
      assert j != i ==> !Less(a[j], a[Parent(j)]);
    }
    forall j | 0 < j < |r| && Parent(j) == p && p > 0 ensures !Less(r[j], r[Parent(p)]) {
      assert !Less(a[p], a[Parent(p)]);
      assert j != i ==> !Less(a[j], a[p]);
    }
  }

  lemma SwapDown(a: seq<Entry>, i: nat, small: nat)
    requires DownHeap(a, i) && 0 < small < |a| && Parent(small) == i && Less(a[small], a[i])
    requires forall j :: 0 < j < |a| && Parent(j) == i ==> !Less(a[j], a[small])
    ensures DownHeap(Swap(a, i, small), small)
  {
    var r := Swap(a, i, small);
    forall j | 0 < j < |r| && Parent(j) != small ensures !Less(r[j], r[Parent(j)]) {
      assert Parent(j) != i ==> !Less(a[j], a[Parent(j)]);
      assert Parent(j) == i ==> !Less(a[j], a[small]);
    }
    forall j | 0 < j < |r| && Parent(j) == small ensures !Less(r[j], r[Parent(small)]) {
      assert !Less(a[j], a[Parent(j)]);
    }
  }

  /** The smaller child of `i`, if any child is in range. */
  function SmallerChild(a: seq<Entry>, i: nat): (c: nat)
    requires 2 * i + 1 < |a|
    ensures 0 < c < |a| && Parent(c) == i
    ensures forall j :: 0 < j < |a| && Parent(j) == i ==> !Less(a[j], a[c])
  {
    var l := 2 * i + 1;
    assert forall j :: 0 < j < |a| && Parent(j) == i ==> j == l || j == l + 1;
    if l + 1 < |a| && Less(a[l + 1], a[l]) then l + 1 else l
  }

  /** A hole no child undercuts is no hole. */
  lemma HoleFilled(a: seq<Entry>, i: nat)
    requires DownHeap(a, i) && forall j :: 0 < j < |a| && Parent(j) == i ==> !Less(a[j], a[i])
    ensures IsHeap(a)
  {
  }

  lemma NoChildren(a: seq<Entry>, i: nat)
    requires DownHeap(a, i) && 2 * i + 1 >= |a|
    ensures IsHeap(a)
  {
    assert forall j :: 0 < j < |a| ==> Parent(j) != i;
  }

  class DijkstraHeap {
    var a: seq<Entry>

    constructor (first: Entry)
      ensures a == [first] && IsHeap(a)
    {
      a := [first];
    }

    method Push(s: Entry)
      requires IsHeap(a)
      modifies this
      ensures IsHeap(a) && multiset(a) == old(multiset(a)) + multiset{s}
    {
      a := a + [s];
      var i := |a| - 1;
      while i > 0
        invariant 0 <= i < |a| && UpHeap(a, i)
        invariant multiset(a) == old(multiset(a)) + multiset{s}
      {
        var parent := (i - 1) / 2;
        if !Less(a[i], a[parent]) {
          break;
        }
        SwapUp(a, i);
        a := Swap(a, i, parent);
        i := parent;
      }
    }

    method Pop() returns (top: Entry)
      requires IsHeap(a) && |a| > 0
      modifies this
      ensures IsHeap(a) && top in old(a) && multiset(a) == old(multiset(a)) - multiset{top}
      ensures forall e :: e in old(a) ==> !Less(e, top)
    {
      top := a[0];
      forall e | e in a ensures !Less(e, top) {
        var i :| 0 <= i < |a| && a[i] == e;
        RootIsLeast(a, i);
      }
      assert a == [top] + a[1..];
      a := MoveLastToRoot(a);
      SiftDown();
    }

    /** Restores heap order below a displaced root. */
    method SiftDown()
      requires DownHeap(a, 0)
      modifies this
      ensures IsHeap(a) && multiset(a) == old(multiset(a))
    {
      var i, n := 0, |a|;
      while true
        invariant |a| == n && 0 <= i && (i < n || n == 0) && DownHeap(a, i)
        invariant multiset(a) == old(multiset(a))
        decreases n - i
      {
        if 2 * i + 1 >= n {
          NoChildren(a, i);
          break;
        }
        var small := SmallerChild(a, i);
        if !Less(a[small], a[i]) {
          NoSmaller(a, i, small);
          HoleFilled(a, i);
          break;
        }
        SwapDown(a, i, small);
        a := Swap(a, i, small);
        i := small;
      }
    }
  }

  lemma NoSmaller(a: seq<Entry>, i: nat, small: nat)
    requires i < |a| && small < |a| && !Less(a[small], a[i])
    requires forall j :: 0 < j < |a| && Parent(j) == i ==> !Less(a[j], a[small])
    ensures forall j :: 0 < j < |a| && Parent(j) == i ==> !Less(a[j], a[i])
  {
  }

  /** `a[0] = a[n]; a = a[:n]`. */
  function MoveLastToRoot(a: seq<Entry>): (r: seq<Entry>)
    requires |a| > 0 && IsHeap(a)
    ensures |r| == |a| - 1 && DownHeap(r, 0)
    ensures multiset(r) == multiset(a[1..])
  {
    var n := |a| - 1;
    var r := a[0 := a[n]][..n];
    assert multiset(r) == multiset(a[1..]) by {
      if n > 0 {
        assert r == [a[n]] + a[1..n];
        assert a[1..] == a[1..n] + [a[n]];
      }
    }
    r
  }
}
