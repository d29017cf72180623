/** Counting and locating the relationships between two given nodes: side-picked runs, sorted edge
    keys and mapped reverse runs all see the same relationships. */
module BoundPair {
  import opened StableSort
  import opened Csr
  import opened InToOut
  import opened Thaw
  import opened RelTypes
  import opened TypedAdjacency
  import Columns
  import ColumnStore

  const TWO32: nat := 0x1_0000_0000

  /** The relationships asked for: matched, and from `u` to `v` seen in direction `d`. */
  predicate Wanted(r: Rel, d: Side, u: nat, v: nat, m: RelMatch) {
    Owner(r, d) == u && Other(r, d) == v && Matches(m, r.typ)
  }

  function Flip(d: Side): Side {
    if d.Out? then In else Out
  }

  datatype Direction = Outgoing | Incoming | Both

  // ---- multiplicity --------------------------------------------------------------------------------------

  /** How many of them were staged. */
  function Multiplicity(rels: seq<Rel>, d: Side, u: nat, v: nat, m: RelMatch): nat {
    if rels == [] then 0
    else Multiplicity(rels[..|rels| - 1], d, u, v, m) + if Wanted(rels[|rels| - 1], d, u, v, m) then 1 else 0
  }

  /** The same relationships seen from the other end. */
  lemma {:induction false} FlippedCount(rels: seq<Rel>, d: Side, u: nat, v: nat, m: RelMatch)
    ensures Multiplicity(rels, Flip(d), v, u, m) == Multiplicity(rels, d, u, v, m)
  {
    if rels != [] { FlippedCount(rels[..|rels| - 1], d, u, v, m); }
  }

  method CountHits(run: seq<nat>, x: nat) returns (k: nat)
    ensures k == CountEqual(run, x)
  {
    k := 0;
    for i := 0 to |run|
      invariant k == CountEqual(run[..i], x)
    {
      assert run[..i + 1][..i] == run[..i];
      if run[i] == x { k := k + 1; }
    }
    assert run[..|run|] == run;
  }

  lemma {:induction false} StagedCount(rels: seq<Rel>, d: Side, u: nat, v: nat, m: RelMatch)
    ensures Multiplicity(StagedAt(rels, d, u), d, u, v, m) == Multiplicity(rels, d, u, v, m)
  {
    if rels != [] {
      var init, last := rels[..|rels| - 1], rels[|rels| - 1];
      StagedCount(init, d, u, v, m);
      var kept := StagedAt(init, d, u);
      assert (kept + [last])[..|kept|] == kept;
    }
  }

  /** The positions from `off` on hold `st`, all owned by `u`. */
  ghost predicate Lists(a: Adjacency, off: nat, st: seq<Rel>, d: Side, u: nat) {
    && off + |st| <= |a.nbrs| == |a.types|
    && forall c :: 0 <= c < |st| ==>
         Owner(st[c], d) == u && a.nbrs[off + c] == Other(st[c], d) && a.types[off + c] == st[c].typ
  }

  lemma HitsStep(a: Adjacency, m: RelMatch, posMap: seq<nat>, off: nat, k: nat, v: nat)
    requires off <= k < |a.nbrs| == |a.types|
    ensures CountEqual(Nbrs(Hits(a, m, posMap, off, k + 1)), v)
         == CountEqual(Nbrs(Hits(a, m, posMap, off, k)), v) + if Matches(m, a.types[k]) && a.nbrs[k] == v then 1 else 0
  {
    var before, after := Hits(a, m, posMap, off, k), Hits(a, m, posMap, off, k + 1);
    if Matches(m, a.types[k]) {
      assert Nbrs(after)[..|before|] == Nbrs(before);
    } else {
      assert after == before;
    }
  }

  /** `c` relationships in, the range has met the wanted ones as often as the list has them. */
  lemma {:induction false} HitsCountPrefix(a: Adjacency, off: nat, st: seq<Rel>, d: Side, posMap: seq<nat>,
                                           u: nat, v: nat, m: RelMatch, c: nat)
    requires Lists(a, off, st, d, u) && c <= |st|
    ensures CountEqual(Nbrs(Hits(a, m, posMap, off, off + c)), v) == Multiplicity(st[..c], d, u, v, m)
  {
    if c == 0 {
      assert Nbrs(Hits(a, m, posMap, off, off + c)) == [];
    } else {
      HitsCountPrefix(a, off, st, d, posMap, u, v, m, c - 1);
      HitsStep(a, m, posMap, off, off + c - 1, v);
      assert st[..c][..c - 1] == st[..c - 1];
    }
  }

  lemma RangeEnds(a: Adjacency, rels: seq<Rel>, d: Side, n: nat, u: nat)
    requires Lays(a, rels, d, n) && u < n
    ensures a.offsets[u + 1] == a.offsets[u] + |StagedAt(rels, d, u)| <= |a.nbrs| == |a.types|
  {
    StagedAtIndex(rels, d, u);
    CountStep(Owners(rels, d), u);
    CountLessMonotone(Owners(rels, d), u + 1, n);
  }

  lemma ListedAt(a: Adjacency, rels: seq<Rel>, d: Side, n: nat, u: nat, c: nat)
    requires Lays(a, rels, d, n) && u < n && c < |StagedAt(rels, d, u)|
    ensures Csr.Holds(a, a.offsets[u] + c, StagedAt(rels, d, u)[c], d) && Owner(StagedAt(rels, d, u)[c], d) == u
  {
    RangeListsStaged(a, rels, d, n, u, c);
    StagedAtIndex(rels, d, u);
    assert StagedAt(rels, d, u)[c] in StagedAt(rels, d, u);
  }

  lemma RangeLists(a: Adjacency, rels: seq<Rel>, d: Side, n: nat, u: nat)
    requires Lays(a, rels, d, n) && u < n
    ensures a.offsets[u + 1] == a.offsets[u] + |StagedAt(rels, d, u)|
    ensures Lists(a, a.offsets[u], StagedAt(rels, d, u), d, u)
  {
    RangeEnds(a, rels, d, n, u);
    forall c | 0 <= c < |StagedAt(rels, d, u)|
      ensures Csr.Holds(a, a.offsets[u] + c, StagedAt(rels, d, u)[c], d) && Owner(StagedAt(rels, d, u)[c], d) == u
    {
      ListedAt(a, rels, d, n, u, c);
    }
  }

  /** How often a node's filtered range names the other endpoint is how many wanted relationships
      were staged -- from either side, for any matcher. */
  lemma HitsCountStaged(a: Adjacency, rels: seq<Rel>, d: Side, n: nat, posMap: seq<nat>, u: nat, v: nat, m: RelMatch)
    requires Lays(a, rels, d, n) && WellFormed(a, n)
    ensures CountEqual(Nbrs(HitsAt(a, n, m, posMap, u)), v) == Multiplicity(rels, d, u, v, m)
  {
    if u < n {
      RangeLists(a, rels, d, n, u);
      HitsCountList(a, n, StagedAt(rels, d, u), d, posMap, u, v, m);
      StagedCount(rels, d, u, v, m);
    } else {
      NotStaged(rels, n, d, u, v, m);
    }
  }

  lemma HitsCountList(a: Adjacency, n: nat, st: seq<Rel>, d: Side, posMap: seq<nat>, u: nat, v: nat, m: RelMatch)
    requires WellFormed(a, n) && u < n && a.offsets[u + 1] == a.offsets[u] + |st| && Lists(a, a.offsets[u], st, d, u)
    ensures CountEqual(Nbrs(HitsAt(a, n, m, posMap, u)), v) == Multiplicity(st, d, u, v, m)
  {
    HitsCountPrefix(a, a.offsets[u], st, d, posMap, u, v, m, |st|);
    assert st[..|st|] == st;
  }

  lemma {:induction false} NotStaged(rels: seq<Rel>, n: nat, d: Side, u: nat, v: nat, m: RelMatch)
    requires InSpace(rels, n) && u >= n
    ensures Multiplicity(rels, d, u, v, m) == 0
  {
    if rels != [] { NotStaged(rels[..|rels| - 1], n, d, u, v, m); }
  }

  // ---- edge keys ------------------------------------------------------------------------------------------

  ghost predicate Ascending(s: seq<nat>) {
    forall i, j :: 0 <= i < j < |s| ==> s[i] <= s[j]
  }

  function Inserted(s: seq<nat>, x: nat): seq<nat> {
    if s == [] || s[|s| - 1] <= x then s + [x] else Inserted(s[..|s| - 1], x) + [s[|s| - 1]]
  }

  function Sorted(s: seq<nat>): seq<nat> {
    if s == [] then [] else Inserted(Sorted(s[..|s| - 1]), s[|s| - 1])
  }

  lemma {:induction false} InsertedAscends(s: seq<nat>, x: nat)
    requires Ascending(s)
    ensures Ascending(Inserted(s, x))
    ensures forall i :: 0 <= i < |Inserted(s, x)| ==>
              Inserted(s, x)[i] <= if s != [] && s[|s| - 1] > x then s[|s| - 1] else x
  {
    if s != [] && s[|s| - 1] > x {
      InsertedAscends(s[..|s| - 1], x);
    }
  }

  lemma {:induction false} InsertedKeeps(s: seq<nat>, x: nat)
    ensures multiset(Inserted(s, x)) == multiset(s) + multiset{x}
  {
    if s != [] && s[|s| - 1] > x {
      InsertedKeeps(s[..|s| - 1], x);
      assert s == s[..|s| - 1] + [s[|s| - 1]];
    }
  }

  lemma {:induction false} SortedAscends(s: seq<nat>)
    ensures Ascending(Sorted(s)) && multiset(Sorted(s)) == multiset(s)
  {
    if s != [] {
      SortedAscends(s[..|s| - 1]);
      InsertedAscends(Sorted(s[..|s| - 1]), s[|s| - 1]);
      InsertedKeeps(Sorted(s[..|s| - 1]), s[|s| - 1]);
      assert s == s[..|s| - 1] + [s[|s| - 1]];
    }
  }

  function EdgeKey(u: nat, v: nat): nat {
    u * TWO32 + v
  }

  /** The keys of one node's hits. */
  function KeysFrom(u: nat, hits: seq<Hit>): (r: seq<nat>)
    ensures |r| == |hits| && forall i :: 0 <= i < |hits| ==> r[i] == EdgeKey(u, hits[i].nbr)
  {
    seq(|hits|, i requires 0 <= i < |hits| => EdgeKey(u, hits[i].nbr))
  }

  function KeysBelow(a: Adjacency, n: nat, t: nat, u: nat): seq<nat>
    requires WellFormed(a, n) && u <= n
  {
    if u == 0 then [] else KeysBelow(a, n, t, u - 1) + KeysFrom(u - 1, HitsAt(a, n, MatchOne(t), [], u - 1))
  }

  /** The type's sorted key multiset, from one pass over the outgoing CSR. */
  method EdgeKeys(a: Adjacency, n: nat, types: RelTypes, t: nat) returns (keys: seq<nat>)
    requires WellFormed(a, n) && SpellsOut(types, a.types)
    ensures Ascending(keys) && multiset(keys) == multiset(KeysBelow(a, n, t, n))
  {
    keys := [];
    for u := 0 to n
      invariant keys == KeysBelow(a, n, t, u)
    {
      keys := AppendKeys(a, n, types, t, u, keys);
    }
    SortedAscends(keys);
    keys := Sorted(keys);
  }

  method AppendKeys(a: Adjacency, n: nat, types: RelTypes, t: nat, u: nat, base: seq<nat>) returns (keys: seq<nat>)
    requires WellFormed(a, n) && SpellsOut(types, a.types) && u < n
    ensures keys == base + KeysFrom(u, HitsAt(a, n, MatchOne(t), [], u))
  {
    keys := base;
    for k := a.offsets[u] to a.offsets[u + 1]
      invariant keys == base + KeysFrom(u, Hits(a, MatchOne(t), [], a.offsets[u], k))
    {
      if At(types, k) == t { keys := keys + [EdgeKey(u, a.nbrs[k])]; }
    }
  }

  /** The occurrences of `key`: a binary search for the first, a walk to the last. */
  method CountKeyHits(keys: seq<nat>, key: nat) returns (k: nat)
    requires Ascending(keys)
    ensures k == multiset(keys)[key]
  {
    var lo, hi := 0, |keys|;
    while lo < hi
      invariant 0 <= lo <= hi <= |keys|
      invariant forall i :: 0 <= i < lo ==> keys[i] < key
      invariant forall i :: hi <= i < |keys| ==> keys[i] >= key
    {
      var mid := (lo + hi) / 2;
      if keys[mid] < key { lo := mid + 1; } else { hi := mid; }
    }
    k := 0;
    while lo + k < |keys| && keys[lo + k] == key
      invariant lo + k <= |keys| && forall i :: lo <= i < lo + k ==> keys[i] == key
    {
      k := k + 1;
    }
    RunIsCount(keys, key, lo, lo + k);
  }

  lemma RunIsCount(keys: seq<nat>, key: nat, lo: nat, hi: nat)
    requires lo <= hi <= |keys| && (forall i :: 0 <= i < |keys| ==> (lo <= i < hi <==> keys[i] == key))
    ensures multiset(keys)[key] == hi - lo
  {
    assert keys == keys[..lo] + keys[lo..hi] + keys[hi..];
    assert key !in keys[..lo] && key !in keys[hi..];
    AllSame(keys[lo..hi], key);
  }

  lemma {:induction false} AllSame(s: seq<nat>, x: nat)
    requires forall i :: 0 <= i < |s| ==> s[i] == x
    ensures multiset(s)[x] == |s|
  {
    if s != [] {
      AllSame(s[..|s| - 1], x);
      assert s == s[..|s| - 1] + [s[|s| - 1]];
    }
  }

  /** Only a node's own hits carry its keys. */
  lemma {:induction false} KeyCount(a: Adjacency, n: nat, t: nat, u: nat, v: nat, w: nat)
    requires WellFormed(a, n) && w <= n <= TWO32 && v < TWO32
    ensures multiset(KeysBelow(a, n, t, w))[EdgeKey(u, v)]
         == if u < w then CountEqual(Nbrs(HitsAt(a, n, MatchOne(t), [], u)), v) else 0
  {
    if w > 0 {
      KeyCount(a, n, t, u, v, w - 1);
      NbrsBelow(a, n, t, w - 1);
      KeyCountAt(w - 1, HitsAt(a, n, MatchOne(t), [], w - 1), u, v);
      CountsAdd(KeysBelow(a, n, t, w - 1), KeysFrom(w - 1, HitsAt(a, n, MatchOne(t), [], w - 1)), EdgeKey(u, v));
    }
  }

  lemma CountsAdd(x: seq<nat>, y: seq<nat>, key: nat)
    ensures multiset(x + y)[key] == multiset(x)[key] + multiset(y)[key]
  {
  }

  lemma {:induction false} HitsBelow(a: Adjacency, n: nat, m: RelMatch, posMap: seq<nat>, lo: nat, hi: nat)
    requires WellFormed(a, n) && hi <= |a.nbrs|
    ensures forall i :: 0 <= i < |Hits(a, m, posMap, lo, hi)| ==> Hits(a, m, posMap, lo, hi)[i].nbr < n
  {
    if lo < hi { HitsBelow(a, n, m, posMap, lo, hi - 1); }
  }

  lemma NbrsBelow(a: Adjacency, n: nat, t: nat, u: nat)
    requires WellFormed(a, n) && u < n
    ensures forall i :: 0 <= i < |HitsAt(a, n, MatchOne(t), [], u)| ==> HitsAt(a, n, MatchOne(t), [], u)[i].nbr < n
  {
    HitsBelow(a, n, MatchOne(t), [], a.offsets[u], a.offsets[u + 1]);
  }

  lemma {:induction false} KeyCountAt(w: nat, hits: seq<Hit>, u: nat, v: nat)
    requires (forall i :: 0 <= i < |hits| ==> hits[i].nbr < TWO32) && v < TWO32
    ensures multiset(KeysFrom(w, hits))[EdgeKey(u, v)] == if u == w then CountEqual(Nbrs(hits), v) else 0
  {
    if hits != [] {
      var init, last := hits[..|hits| - 1], hits[|hits| - 1];
      KeyCountAt(w, init, u, v);
      assert KeysFrom(w, hits) == KeysFrom(w, init) + [EdgeKey(w, last.nbr)];
      assert Nbrs(hits)[..|hits| - 1] == Nbrs(init);
      KeysDiffer(w, last.nbr, u, v);
    }
  }

  lemma KeysDiffer(w: nat, x: nat, u: nat, v: nat)
    requires x < TWO32 && v < TWO32
    ensures EdgeKey(w, x) == EdgeKey(u, v) <==> w == u && x == v
  {
  }

  /** Both CSRs with their type vectors; one snapshot's topology. */
  datatype Topology = Topology(n: nat, out: Adjacency, inn: Adjacency, outTypes: RelTypes, inTypes: RelTypes)

  function Towards(g: Topology, d: Side): Adjacency {
    if d.Out? then g.out else g.inn
  }

  function TypesOf(g: Topology, d: Side): RelTypes {
    if d.Out? then g.outTypes else g.inTypes
  }

  /** The topology of a staged sequence. */
  ghost predicate Stages(g: Topology, rels: seq<Rel>) {
    && g.n <= TWO32 && Consistent(g.out, g.inn, rels, g.n) && WellFormed(g.out, g.n) && WellFormed(g.inn, g.n)
    && SpellsOut(g.outTypes, g.out.types) && SpellsOut(g.inTypes, g.inn.types)
  }

  /** One direction's count. A held single type reads the shorter of the two typed runs above the
      floor and the sorted edge keys below it; every other matcher scans `u`'s range. All of them
      count the staged relationships that match. */
  method CountDirection(g: Topology, d: Side, u: nat, v: nat, m: RelMatch, held: bool, aboveFloor: bool,
                        ghost rels: seq<Rel>)
    returns (k: nat)
    requires Stages(g, rels) && u < TWO32 && v < TWO32 && (held ==> m.MatchOne?)
    ensures k == Multiplicity(rels, d, u, v, m)
  {
    if held && aboveFloor {
      HitsCountStaged(Towards(g, d), rels, d, g.n, [], u, v, m);
      HitsCountStaged(Towards(g, Flip(d)), rels, Flip(d), g.n, [], v, u, m);
      FlippedCount(rels, d, u, v, m);
      k := CountShorter(g, d, u, v, m.one);
    } else if held {
      k := CountKeyed(g, d, u, v, m.one, rels);
    } else {
      HitsCountStaged(Towards(g, d), rels, d, g.n, [], u, v, m);
      k := CountScanned(g, d, u, v, m);
    }
  }

  /** `CountNeighborsMatch`: both directions of a loop count it twice. */
  method CountNeighbors(g: Topology, dir: Direction, u: nat, v: nat, m: RelMatch, held: bool, aboveFloor: bool,
                        ghost rels: seq<Rel>)
    returns (k: nat)
    requires Stages(g, rels) && u < TWO32 && v < TWO32 && (held ==> m.MatchOne?)
    ensures k == (if dir.Incoming? then 0 else Multiplicity(rels, Out, u, v, m))
               + (if dir.Outgoing? then 0 else Multiplicity(rels, In, u, v, m))
  {
    k := 0;
    if !dir.Incoming? {
      var c := CountDirection(g, Out, u, v, m, held, aboveFloor, rels);
      k := k + c;
    }
    if !dir.Outgoing? {
      var c := CountDirection(g, In, u, v, m, held, aboveFloor, rels);
      k := k + c;
    }
  }

  /** The edge-key tier: one key list answers both directions. */
  method CountKeyed(g: Topology, d: Side, u: nat, v: nat, t: nat, ghost rels: seq<Rel>) returns (k: nat)
    requires Stages(g, rels) && u < TWO32 && v < TWO32
    ensures k == Multiplicity(rels, d, u, v, MatchOne(t))
  {
    var keys := EdgeKeys(g.out, g.n, g.outTypes, t);
    var (src, dst) := if d.Out? then (u, v) else (v, u);
    KeyCount(g.out, g.n, t, src, dst, g.n);
    HitsCountStaged(g.out, rels, Out, g.n, [], src, dst, MatchOne(t));
    FlippedCount(rels, d, u, v, MatchOne(t));
    k := CountKeyHits(keys, EdgeKey(src, dst));
  }

  /** The scan tier: every relationship of the range, put to the resolved test unless all match. */
  method CountScanned(g: Topology, d: Side, u: nat, v: nat, m: RelMatch) returns (k: nat)
    requires WellFormed(g.out, g.n) && WellFormed(g.inn, g.n)
    requires SpellsOut(g.outTypes, g.out.types) && SpellsOut(g.inTypes, g.inn.types)
    ensures k == CountEqual(Nbrs(HitsAt(Towards(g, d), g.n, m, [], u)), v)
  {
    var a := Towards(g, d);
    var (lo, hi) := RelRange(a.offsets, u);
    if m.MatchAll? {
      k := CountRange(a, v, lo, hi);
    } else {
      k := CountMatching(a, TypesOf(g, d), m, v, lo, hi);
    }
    assert HitsAt(a, g.n, m, [], u) == Hits(a, m, [], lo, hi);
  }

  method CountRange(a: Adjacency, v: nat, lo: nat, hi: nat) returns (k: nat)
    requires lo <= hi <= |a.nbrs| == |a.types|
    ensures k == CountEqual(Nbrs(Hits(a, MatchAll, [], lo, hi)), v)
  {
    k := 0;
    for p := lo to hi
      invariant k == CountEqual(Nbrs(Hits(a, MatchAll, [], lo, p)), v)
    {
      HitsStep(a, MatchAll, [], lo, p, v);
      if a.nbrs[p] == v { k := k + 1; }
    }
  }

  method CountMatching(a: Adjacency, types: RelTypes, m: RelMatch, v: nat, lo: nat, hi: nat) returns (k: nat)
    requires lo <= hi <= |a.nbrs| == |a.types| && SpellsOut(types, a.types)
    ensures k == CountEqual(Nbrs(Hits(a, m, [], lo, hi)), v)
  {
    var test := Resolve(m, types);
    k := 0;
    for p := lo to hi
      invariant k == CountEqual(Nbrs(Hits(a, m, [], lo, p)), v)
    {
      HitsStep(a, m, [], lo, p, v);
      if a.nbrs[p] == v && Passes(test, types, p) { k := k + 1; }
    }
  }

  /** The matcher against one direction's palette. */
  method Resolve(m: RelMatch, types: RelTypes) returns (test: Test)
    requires Valid(types)
    ensures forall p :: 0 <= p < Len(types) ==> (Passes(test, types, p) <==> Matches(m, At(types, p)))
  {
    var ti := -1;
    if m.MatchOne? { ti := PaletteIndexOf(types, m.one); }
    test := TypeTest(m, types, ti);
  }

  /** The typed-view tier: whichever endpoint's run is shorter. */
  method CountShorter(g: Topology, d: Side, u: nat, v: nat, t: nat) returns (k: nat)
    requires WellFormed(g.out, g.n) && WellFormed(g.inn, g.n)
    requires SpellsOut(g.outTypes, g.out.types) && SpellsOut(g.inTypes, g.inn.types)
    ensures || k == CountEqual(Nbrs(HitsAt(Towards(g, d), g.n, MatchOne(t), [], u)), v)
            || k == CountEqual(Nbrs(HitsAt(Towards(g, Flip(d)), g.n, MatchOne(t), [], v)), u)
  {
    var a, b := Towards(g, d), Towards(g, Flip(d));
    var near := BuildTypedCsr(a, g.n, TypesOf(g, d), [], t);
    var far := BuildTypedCsr(b, g.n, TypesOf(g, Flip(d)), [], t);
    TypedCsrRun(near, a, g.n, t, [], u);
    TypedCsrRun(far, b, g.n, t, [], v);
    var (lo, hi) := RelRange(near.offsets, u);
    var (lo', hi') := RelRange(far.offsets, v);
    if hi' - lo' < hi - lo {
      assert far.nbrs[lo'..hi'] == Nbrs(HitsAt(b, g.n, MatchOne(t), [], v));
      k := CountHits(far.nbrs[lo'..hi'], u);
    } else {
      assert near.nbrs[lo..hi] == Nbrs(HitsAt(a, g.n, MatchOne(t), [], u));
      k := CountHits(near.nbrs[lo..hi], v);
    }
  }

  // ---- positions -------------------------------------------------------------------------------------------

  /** `p` is where some wanted relationship is stored, counted in direction `frame`. */
  ghost predicate StoredAt(rels: seq<Rel>, frame: Side, d: Side, u: nat, v: nat, m: RelMatch, p: nat) {
    exists i :: 0 <= i < |rels| && Wanted(rels[i], d, u, v, m) && Rank(Owners(rels, frame), i) == p
  }

  ghost predicate Climbing(s: seq<nat>) {
    forall i, j :: 0 <= i < j < |s| ==> s[i] < s[j]
  }

  /** `s` lists exactly those positions, ascending. */
  ghost predicate Seeks(s: seq<nat>, rels: seq<Rel>, frame: Side, d: Side, u: nat, v: nat, m: RelMatch) {
    Climbing(s) && forall p: nat :: p in s <==> StoredAt(rels, frame, d, u, v, m, p)
  }

  /** The positions of the hits on `x`. */
  function Kept(hits: seq<Hit>, x: nat): seq<nat> {
    if hits == [] then []
    else
      var last := hits[|hits| - 1];
      Kept(hits[..|hits| - 1], x) + if last.nbr == x then [last.pos] else []
  }

  method AppendPosEq(dst: seq<nat>, nbrs: seq<nat>, poss: seq<nat>, x: nat, ghost hits: seq<Hit>) returns (r: seq<nat>)
    requires TypedAdjacency.Holds(nbrs, poss, hits)
    ensures r == dst + Kept(hits, x)
  {
    r := dst;
    for k := 0 to |nbrs|
      invariant r == dst + Kept(hits[..k], x)
    {
      assert hits[..k + 1][..k] == hits[..k];
      if nbrs[k] == x { r := r + [poss[k]]; }
    }
    assert hits[..|nbrs|] == hits;
  }

  /** A position whose relationship matches and leads to `x`. */
  ghost predicate Leads(a: Adjacency, m: RelMatch, x: nat, k: nat) {
    k < |a.nbrs| == |a.types| && Matches(m, a.types[k]) && a.nbrs[k] == x
  }

  /** Later leading positions of the range are stored at higher places. */
  ghost predicate Climbs(a: Adjacency, m: RelMatch, posMap: seq<nat>, lo: nat, hi: nat, x: nat) {
    forall j: nat, k: nat :: lo <= j < k < hi && Leads(a, m, x, j) && Leads(a, m, x, k) ==> Stored(posMap, j) < Stored(posMap, k)
  }

  lemma KeptStep(a: Adjacency, m: RelMatch, posMap: seq<nat>, lo: nat, hi: nat, x: nat)
    requires lo < hi <= |a.nbrs| == |a.types|
    ensures Kept(Hits(a, m, posMap, lo, hi), x)
         == Kept(Hits(a, m, posMap, lo, hi - 1), x) + if Leads(a, m, x, hi - 1) then [Stored(posMap, hi - 1)] else []
  {
    var before, after := Hits(a, m, posMap, lo, hi - 1), Hits(a, m, posMap, lo, hi);
    if Matches(m, a.types[hi - 1]) {
      assert after[..|before|] == before;
    } else {
      assert after == before;
    }
  }

  /** `p` is where a leading position of the range is stored. */
  ghost predicate LeadsTo(a: Adjacency, m: RelMatch, posMap: seq<nat>, lo: nat, hi: nat, x: nat, p: nat) {
    exists k: nat :: lo <= k < hi && Leads(a, m, x, k) && Stored(posMap, k) == p
  }

  lemma LeadsToStep(a: Adjacency, m: RelMatch, posMap: seq<nat>, lo: nat, hi: nat, x: nat, p: nat)
    requires lo < hi
    ensures LeadsTo(a, m, posMap, lo, hi, x, p) <==>
            LeadsTo(a, m, posMap, lo, hi - 1, x, p) || (Leads(a, m, x, hi - 1) && p == Stored(posMap, hi - 1))
  {
    if Leads(a, m, x, hi - 1) && p == Stored(posMap, hi - 1) { assert lo <= hi - 1 < hi; }
  }

  /** What a range keeps is what its leading positions are stored at. */
  lemma {:induction false} KeptMembers(a: Adjacency, m: RelMatch, posMap: seq<nat>, lo: nat, hi: nat, x: nat, p: nat)
    requires hi <= |a.nbrs| == |a.types|
    ensures p in Kept(Hits(a, m, posMap, lo, hi), x) <==> LeadsTo(a, m, posMap, lo, hi, x, p)
    decreases hi
  {
    if lo < hi {
      KeptMembers(a, m, posMap, lo, hi - 1, x, p);
      KeptStep(a, m, posMap, lo, hi, x);
      LeadsToStep(a, m, posMap, lo, hi, x, p);
    }
  }

  lemma {:induction false} KeptClimbs(a: Adjacency, m: RelMatch, posMap: seq<nat>, lo: nat, hi: nat, x: nat)
    requires hi <= |a.nbrs| == |a.types| && Climbs(a, m, posMap, lo, hi, x)
    ensures Climbing(Kept(Hits(a, m, posMap, lo, hi), x))
    decreases hi
  {
    if lo < hi {
      KeptClimbs(a, m, posMap, lo, hi - 1, x);
      KeptStep(a, m, posMap, lo, hi, x);
      if Leads(a, m, x, hi - 1) {
        var kept := Kept(Hits(a, m, posMap, lo, hi - 1), x);
        KeptBelow(a, m, posMap, lo, hi, x, kept);
        assert forall i :: 0 <= i < |kept| ==> kept[i] in kept;
      }
    }
  }

  lemma KeptBelow(a: Adjacency, m: RelMatch, posMap: seq<nat>, lo: nat, hi: nat, x: nat, kept: seq<nat>)
    requires lo < hi <= |a.nbrs| == |a.types| && Climbs(a, m, posMap, lo, hi, x) && Leads(a, m, x, hi - 1)
    requires kept == Kept(Hits(a, m, posMap, lo, hi - 1), x)
    ensures forall p: nat :: p in kept ==> p < Stored(posMap, hi - 1)
  {
    forall p: nat | p in kept ensures p < Stored(posMap, hi - 1) {
      KeptMembers(a, m, posMap, lo, hi - 1, x, p);
      var k: nat :| lo <= k < hi - 1 && Leads(a, m, x, k) && Stored(posMap, k) == p;
    }
  }

  /** A leading position of `u`'s range holds a wanted relationship. */
  lemma LeadsIsStaged(a: Adjacency, rels: seq<Rel>, d: Side, n: nat, u: nat, x: nat, m: RelMatch, k: nat) returns (i: nat)
    requires Lays(a, rels, d, n) && u < n && a.offsets[u] <= k < a.offsets[u + 1] && Leads(a, m, x, k)
    ensures i < |rels| && Wanted(rels[i], d, u, x, m) && Rank(Owners(rels, d), i) == k
  {
    i := RelAt(a, rels, d, n, k);
    BlockSide(Owners(rels, d), i, u);
    BlockSide(Owners(rels, d), i, u + 1);
  }

  /** A wanted relationship lies in `u`'s range and leads on. */
  lemma StagedLeads(a: Adjacency, rels: seq<Rel>, d: Side, n: nat, u: nat, x: nat, m: RelMatch, i: nat)
    requires Lays(a, rels, d, n) && u < n && i < |rels| && Wanted(rels[i], d, u, x, m)
    ensures var k := Rank(Owners(rels, d), i); a.offsets[u] <= k < a.offsets[u + 1] && Leads(a, m, x, k)
  {
    var own := Owners(rels, d);
    BlockSide(own, i, u);
    BlockSide(own, i, u + 1);
    assert Csr.Holds(a, Rank(own, i), rels[i], d);
  }

  /** `posMap` takes direction `d`'s positions to `frame`'s. */
  ghost predicate MapsTo(posMap: seq<nat>, rels: seq<Rel>, d: Side, frame: Side) {
    forall i :: 0 <= i < |rels| ==> Stored(posMap, Rank(Owners(rels, d), i)) == Rank(Owners(rels, frame), i)
  }

  /** Both CSRs keep parallel relationships in staging order. */
  lemma ParallelOrder(rels: seq<Rel>, d: Side, frame: Side, i: nat, j: nat)
    requires i < |rels| && j < |rels| && rels[i].src == rels[j].src && rels[i].dst == rels[j].dst
    requires Rank(Owners(rels, d), i) < Rank(Owners(rels, d), j)
    ensures Rank(Owners(rels, frame), i) < Rank(Owners(rels, frame), j)
  {
    RankOrder(Owners(rels, d), i, j);
    RankOrder(Owners(rels, frame), i, j);
  }

  lemma RunClimbs(a: Adjacency, rels: seq<Rel>, d: Side, n: nat, posMap: seq<nat>, frame: Side, u: nat, x: nat, m: RelMatch)
    requires Lays(a, rels, d, n) && u < n && MapsTo(posMap, rels, d, frame)
    ensures Climbs(a, m, posMap, a.offsets[u], a.offsets[u + 1], x)
  {
    forall j: nat, k: nat | a.offsets[u] <= j < k < a.offsets[u + 1] && Leads(a, m, x, j) && Leads(a, m, x, k)
      ensures Stored(posMap, j) < Stored(posMap, k)
    {
      var i := LeadsIsStaged(a, rels, d, n, u, x, m, j);
      var i' := LeadsIsStaged(a, rels, d, n, u, x, m, k);
      ParallelOrder(rels, d, frame, i, i');
    }
  }

  lemma LeadsHome(a: Adjacency, rels: seq<Rel>, d: Side, n: nat, posMap: seq<nat>, frame: Side, u: nat, x: nat, m: RelMatch, p: nat)
    requires Lays(a, rels, d, n) && u < n && MapsTo(posMap, rels, d, frame)
    ensures LeadsTo(a, m, posMap, a.offsets[u], a.offsets[u + 1], x, p) <==> StoredAt(rels, frame, d, u, x, m, p)
  {
    if LeadsTo(a, m, posMap, a.offsets[u], a.offsets[u + 1], x, p) {
      var k: nat :| a.offsets[u] <= k < a.offsets[u + 1] && Leads(a, m, x, k) && Stored(posMap, k) == p;
      var i := LeadsIsStaged(a, rels, d, n, u, x, m, k);
      assert Rank(Owners(rels, frame), i) == p;
    }
    if StoredAt(rels, frame, d, u, x, m, p) {
      var i :| 0 <= i < |rels| && Wanted(rels[i], d, u, x, m) && Rank(Owners(rels, frame), i) == p;
      StagedLeads(a, rels, d, n, u, x, m, i);
    }
  }

  /** What a node's range keeps, unsorted, is exactly the wanted positions, ascending -- for any
      matcher, in the frame its positions are mapped to. */
  lemma RunSeeks(a: Adjacency, rels: seq<Rel>, d: Side, n: nat, posMap: seq<nat>, frame: Side, u: nat, x: nat, m: RelMatch)
    requires Lays(a, rels, d, n) && WellFormed(a, n) && MapsTo(posMap, rels, d, frame)
    ensures Seeks(Kept(HitsAt(a, n, m, posMap, u), x), rels, frame, d, u, x, m)
  {
    var kept := Kept(HitsAt(a, n, m, posMap, u), x);
    if u < n {
      RunClimbs(a, rels, d, n, posMap, frame, u, x, m);
      KeptClimbs(a, m, posMap, a.offsets[u], a.offsets[u + 1], x);
      forall p: nat ensures p in kept <==> StoredAt(rels, frame, d, u, x, m, p) {
        KeptMembers(a, m, posMap, a.offsets[u], a.offsets[u + 1], x, p);
        LeadsHome(a, rels, d, n, posMap, frame, u, x, m, p);
      }
    }
  }

  /** Seen from the other end, the same positions. */
  lemma FlippedSeek(s: seq<nat>, rels: seq<Rel>, frame: Side, d: Side, u: nat, v: nat, m: RelMatch)
    requires Seeks(s, rels, frame, Flip(d), v, u, m)
    ensures Seeks(s, rels, frame, d, u, v, m)
  {
    forall p: nat ensures StoredAt(rels, frame, d, u, v, m, p) <==> StoredAt(rels, frame, Flip(d), v, u, m, p) {
    }
  }

  /** Sorting what is ascending already changes nothing. */
  lemma {:induction false} SortIsIdle(s: seq<nat>)
    requires Climbing(s)
    ensures Sorted(s) == s
  {
    if s != [] {
      SortIsIdle(s[..|s| - 1]);
    }
  }

  /** One answer only. */
  lemma {:induction false} SeekIsUnique(s: seq<nat>, q: seq<nat>)
    requires Climbing(s) && Climbing(q)
    requires forall p: nat :: p in s <==> p in q
    ensures s == q
  {
    assert |s| > 0 ==> s[0] in q;
    assert |q| > 0 ==> q[0] in s;
    if s != [] {
      var a, b, s', q' := s[|s| - 1], q[|q| - 1], s[..|s| - 1], q[..|q| - 1];
      assert a in q && b in s;
      assert a == b;
      forall p: nat ensures p in s' <==> p in q' {
        assert p in s' <==> p in s && p != a;
        assert p in q' <==> p in q && p != b;
      }
      SeekIsUnique(s', q');
    }
  }

  // ---- the seek ----------------------------------------------------------------------------------------

  /** How many matching relationships `u` owns in direction `d`: its run's length. */
  function RunLength(rels: seq<Rel>, d: Side, u: nat, m: RelMatch): nat {
    if rels == [] then 0
    else
      var last := rels[|rels| - 1];
      RunLength(rels[..|rels| - 1], d, u, m) + if Owner(last, d) == u && Matches(m, last.typ) then 1 else 0
  }

  lemma {:induction false} StagedLength(rels: seq<Rel>, d: Side, u: nat, m: RelMatch)
    ensures RunLength(StagedAt(rels, d, u), d, u, m) == RunLength(rels, d, u, m)
  {
    if rels != [] {
      var init, last := rels[..|rels| - 1], rels[|rels| - 1];
      StagedLength(init, d, u, m);
      var kept := StagedAt(init, d, u);
      assert (kept + [last])[..|kept|] == kept;
    }
  }

  lemma {:induction false} PrefixLength(a: Adjacency, off: nat, st: seq<Rel>, d: Side, posMap: seq<nat>, u: nat, m: RelMatch, c: nat)
    requires Lists(a, off, st, d, u) && c <= |st|
    ensures |Hits(a, m, posMap, off, off + c)| == RunLength(st[..c], d, u, m)
  {
    if c > 0 {
      PrefixLength(a, off, st, d, posMap, u, m, c - 1);
      assert st[..c][..c - 1] == st[..c - 1];
    }
  }

  lemma {:induction false} NoRun(rels: seq<Rel>, n: nat, d: Side, u: nat, m: RelMatch)
    requires InSpace(rels, n) && u >= n
    ensures RunLength(rels, d, u, m) == 0
  {
    if rels != [] { NoRun(rels[..|rels| - 1], n, d, u, m); }
  }

  lemma ListLength(a: Adjacency, n: nat, st: seq<Rel>, d: Side, posMap: seq<nat>, u: nat, m: RelMatch)
    requires WellFormed(a, n) && u < n && a.offsets[u + 1] == a.offsets[u] + |st| && Lists(a, a.offsets[u], st, d, u)
    ensures |HitsAt(a, n, m, posMap, u)| == RunLength(st, d, u, m)
  {
    PrefixLength(a, a.offsets[u], st, d, posMap, u, m, |st|);
    assert st[..|st|] == st;
  }

  lemma HitsLength(a: Adjacency, rels: seq<Rel>, d: Side, n: nat, posMap: seq<nat>, u: nat, m: RelMatch)
    requires Lays(a, rels, d, n) && WellFormed(a, n)
    ensures |HitsAt(a, n, m, posMap, u)| == RunLength(rels, d, u, m)
  {
    if u < n {
      RangeLists(a, rels, d, n, u);
      ListLength(a, n, StagedAt(rels, d, u), d, posMap, u, m);
      StagedLength(rels, d, u, m);
    } else {
      NoRun(rels, n, d, u, m);
    }
  }

  /** Which side is read: the other one if it may be, and has the shorter run. */
  function SideRead(rels: seq<Rel>, d: Side, u: nat, v: nat, m: RelMatch, held: bool, hasRelProps: bool): Side {
    if held && hasRelProps && RunLength(rels, Flip(d), v, m) < RunLength(rels, d, u, m) then Flip(d) else d
  }

  /** What reading the position map yields: the map home, or nothing. Without relationship
      properties it is never there. */
  ghost predicate MapHeld(inToOut: Columns.Option<seq<nat>>, hasRelProps: bool, rels: seq<Rel>) {
    inToOut.Some? ==> hasRelProps && MapsTo(inToOut.value, rels, In, Out)
  }

  function MapFor(d: Side, inToOut: Columns.Option<seq<nat>>): seq<nat> {
    if d.Out? || inToOut.None? then [] else inToOut.value
  }

  /** The direction a run's positions are counted in. */
  function FrameOf(d: Side, inToOut: Columns.Option<seq<nat>>): Side {
    if inToOut.Some? then Out else d
  }

  lemma FrameIsMapped(rels: seq<Rel>, d: Side, inToOut: Columns.Option<seq<nat>>, hasRelProps: bool)
    requires MapHeld(inToOut, hasRelProps, rels)
    ensures MapsTo(MapFor(d, inToOut), rels, d, FrameOf(d, inToOut))
  {
  }

  /** One direction's run of `u`, as the typed view or the run view has it. */
  method RunOf(g: Topology, d: Side, posMap: seq<nat>, t: nat, aboveFloor: bool, u: nat)
    returns (nbrs: seq<nat>, poss: seq<nat>)
    requires WellFormed(g.out, g.n) && WellFormed(g.inn, g.n)
    requires SpellsOut(g.outTypes, g.out.types) && SpellsOut(g.inTypes, g.inn.types)
    ensures TypedAdjacency.Holds(nbrs, poss, HitsAt(Towards(g, d), g.n, MatchOne(t), posMap, u))
  {
    var a := Towards(g, d);
    if aboveFloor {
      var tc := BuildTypedCsr(a, g.n, TypesOf(g, d), posMap, t);
      TypedCsrRun(tc, a, g.n, t, posMap, u);
      var (lo, hi) := RelRange(tc.offsets, u);
      return tc.nbrs[lo..hi], tc.poss[lo..hi];
    }
    var r := BuildTypedRuns(a, g.n, TypesOf(g, d), posMap, t);
    var lo, hi := RunRange(r, u, a, g.n, t, posMap);
    return r.nbrs[lo..hi], r.poss[lo..hi];
  }

  /** One direction's seek. A held single type reads the shorter run, typed view or run view alike,
      where positions are readable (`hasRelProps`), else `u`'s own, and sorts the appended tail;
      every other matcher scans `u`'s range and sorts nothing. Whatever the tier, the tail lists the
      wanted positions, ascending. They are outgoing positions if and only if the map is there or the
      outgoing side was read; else they are incoming ones. */
  method SeekDirection(g: Topology, d: Side, u: nat, v: nat, m: RelMatch, held: bool, aboveFloor: bool,
                       hasRelProps: bool, inToOut: Columns.Option<seq<nat>>, dst: seq<nat>, ghost rels: seq<Rel>)
    returns (r: seq<nat>, ghost found: seq<nat>, ghost frame: Side)
    requires Stages(g, rels) && MapHeld(inToOut, hasRelProps, rels) && (held ==> m.MatchOne?)
    ensures r == dst + found && Seeks(found, rels, frame, d, u, v, m)
    ensures frame.Out? <==> inToOut.Some? || SideRead(rels, d, u, v, m, held, hasRelProps).Out?
  {
    var tail: seq<nat>;
    if held {
      tail := SeekHeld(g, d, u, v, m.one, aboveFloor, hasRelProps, inToOut, rels);
      SortIsIdle(tail);
      tail := Sorted(tail);
    } else {
      tail := SeekScanned(g, d, u, v, m, MapFor(d, inToOut));
      FrameIsMapped(rels, d, inToOut, hasRelProps);
      RunSeeks(Towards(g, d), rels, d, g.n, MapFor(d, inToOut), FrameOf(d, inToOut), u, v, m);
    }
    r, found, frame := dst + tail, tail, FrameOf(SideRead(rels, d, u, v, m, held, hasRelProps), inToOut);
  }

  /** The two view tiers: the shorter run. */
  method SeekHeld(g: Topology, d: Side, u: nat, v: nat, t: nat, aboveFloor: bool, hasRelProps: bool,
                  inToOut: Columns.Option<seq<nat>>, ghost rels: seq<Rel>)
    returns (tail: seq<nat>)
    requires Stages(g, rels) && MapHeld(inToOut, hasRelProps, rels)
    ensures Seeks(tail, rels, FrameOf(SideRead(rels, d, u, v, MatchOne(t), true, hasRelProps), inToOut), d, u, v, MatchOne(t))
  {
    var flip := Flip(d);
    var nbrs, poss := RunOf(g, d, MapFor(d, inToOut), t, aboveFloor, u);
    var nbrs', poss' := RunOf(g, flip, MapFor(flip, inToOut), t, aboveFloor, v);
    HitsLength(Towards(g, d), rels, d, g.n, MapFor(d, inToOut), u, MatchOne(t));
    HitsLength(Towards(g, flip), rels, flip, g.n, MapFor(flip, inToOut), v, MatchOne(t));
    if hasRelProps && |nbrs'| < |nbrs| {
      tail := SeekRun(g, flip, v, u, t, nbrs', poss', inToOut, hasRelProps, rels);
      FlippedSeek(tail, rels, FrameOf(flip, inToOut), d, u, v, MatchOne(t));
    } else {
      tail := SeekRun(g, d, u, v, t, nbrs, poss, inToOut, hasRelProps, rels);
    }
  }

  /** One side's run, the other endpoint picked out. */
  method SeekRun(g: Topology, d: Side, u: nat, v: nat, t: nat, nbrs: seq<nat>, poss: seq<nat>,
                 inToOut: Columns.Option<seq<nat>>, ghost hasRelProps: bool, ghost rels: seq<Rel>)
    returns (tail: seq<nat>)
    requires Stages(g, rels) && MapHeld(inToOut, hasRelProps, rels)
    requires TypedAdjacency.Holds(nbrs, poss, HitsAt(Towards(g, d), g.n, MatchOne(t), MapFor(d, inToOut), u))
    ensures Seeks(tail, rels, FrameOf(d, inToOut), d, u, v, MatchOne(t))
  {
    FrameIsMapped(rels, d, inToOut, hasRelProps);
    RunSeeks(Towards(g, d), rels, d, g.n, MapFor(d, inToOut), FrameOf(d, inToOut), u, v, MatchOne(t));
    tail := AppendPosEq([], nbrs, poss, v, HitsAt(Towards(g, d), g.n, MatchOne(t), MapFor(d, inToOut), u));
  }

  /** The scan tier. */
  method SeekScanned(g: Topology, d: Side, u: nat, v: nat, m: RelMatch, posMap: seq<nat>) returns (tail: seq<nat>)
    requires WellFormed(g.out, g.n) && WellFormed(g.inn, g.n)
    requires SpellsOut(g.outTypes, g.out.types) && SpellsOut(g.inTypes, g.inn.types)
    ensures tail == Kept(HitsAt(Towards(g, d), g.n, m, posMap, u), v)
  {
    var a, types := Towards(g, d), TypesOf(g, d);
    var (lo, hi) := RelRange(a.offsets, u);
    tail := AppendMatching(a, types, m, v, posMap, lo, hi);
    assert HitsAt(a, g.n, m, posMap, u) == Hits(a, m, posMap, lo, hi);
  }

  method AppendMatching(a: Adjacency, types: RelTypes, m: RelMatch, v: nat, posMap: seq<nat>, lo: nat, hi: nat)
    returns (tail: seq<nat>)
    requires lo <= hi <= |a.nbrs| == |a.types| && SpellsOut(types, a.types)
    ensures tail == Kept(Hits(a, m, posMap, lo, hi), v)
  {
    tail := [];
    if lo < hi {
      var test := Resolve(m, types);
      for k := lo to hi
        invariant tail == Kept(Hits(a, m, posMap, lo, k), v)
      {
        KeptStep(a, m, posMap, lo, k + 1, v);
        if a.nbrs[k] == v && Passes(test, types, k) { tail := tail + [Stored(posMap, k)]; }
      }
    }
  }

  /** `AppendRelsBetweenMatch`: the outgoing segment, then the incoming one, each in outgoing positions
      if and only if the map is there or its outgoing side was read. */
  method SeekBetween(g: Topology, dir: Direction, u: nat, v: nat, m: RelMatch, held: bool, aboveFloor: bool,
                     hasRelProps: bool, inToOut: Columns.Option<seq<nat>>, dst: seq<nat>, ghost rels: seq<Rel>)
    returns (r: seq<nat>, ghost forth: seq<nat>, ghost back: seq<nat>, ghost frames: (Side, Side))
    requires Stages(g, rels) && MapHeld(inToOut, hasRelProps, rels) && (held ==> m.MatchOne?)
    ensures r == dst + forth + back
    ensures if dir.Incoming? then forth == [] else Seeks(forth, rels, frames.0, Out, u, v, m)
    ensures if dir.Outgoing? then back == [] else Seeks(back, rels, frames.1, In, u, v, m)
    ensures !dir.Incoming? ==> (frames.0.Out? <==> inToOut.Some? || SideRead(rels, Out, u, v, m, held, hasRelProps).Out?)
    ensures !dir.Outgoing? ==> (frames.1.Out? <==> inToOut.Some? || SideRead(rels, In, u, v, m, held, hasRelProps).Out?)
  {
    ghost var f, b := Out, In;
    r, forth, back := dst, [], [];
    if !dir.Incoming? {
      r, forth, f := SeekDirection(g, Out, u, v, m, held, aboveFloor, hasRelProps, inToOut, r, rels);
    }
    if !dir.Outgoing? {
      r, back, b := SeekDirection(g, In, u, v, m, held, aboveFloor, hasRelProps, inToOut, r, rels);
    }
    frames := (f, b);
  }

  /** The map the snapshot derives from its CSRs is a map home. */
  lemma DerivedMapIsHome(inToOut: seq<nat>, rels: seq<Rel>)
    requires PairsRels(inToOut, rels) && IsPerm(inToOut)
    ensures MapsTo(inToOut, rels, In, Out)
  {
    forall i | 0 <= i < |rels| ensures Stored(inToOut, Rank(Owners(rels, In), i)) == Rank(Owners(rels, Out), i) {
      assert PairsAt(inToOut, Rank(Owners(rels, In), i), Rank(Owners(rels, Out), i));
    }
  }

  // ---- a property read at the wrong position ----------------------------------------------------------

  /** Two relationships leave node 1, one of them for node 0, which has one of its own. */
  const CROSSED: seq<Rel> := [Rel(1, 0, 5), Rel(1, 2, 5), Rel(0, 1, 5)]

  lemma CrossedRanks(rels: seq<Rel>)
    requires rels == CROSSED
    ensures Rank(Owners(rels, Out), 0) == 1 && Rank(Owners(rels, Out), 2) == 0 && Rank(Owners(rels, In), 0) == 0
  {
    var o, i := Owners(rels, Out), Owners(rels, In);
    assert o == [1, 1, 0] && i == [0, 2, 1];
    assert o[..2] == [1, 1] && o[..1] == [1] && i[..2] == [0, 2] && i[..1] == [0];
    assert CountLess([1], 1) == 0 && CountLess([1, 1], 1) == 0;
    assert CountEqual(o[..0], 1) == 0 && CountEqual(i[..0], 0) == 0;
    CountLessAtZero(o);
    CountLessAtZero(i);
    assert CountEqual([1], 0) == 0 && CountEqual([1, 1], 0) == 0;
  }

  lemma CrossedRuns(rels: seq<Rel>, m: RelMatch)
    requires rels == CROSSED && m == MatchOne(5)
    ensures RunLength(rels, Out, 1, m) == 2 && RunLength(rels, In, 0, m) == 1
  {
    assert rels[..2] == [Rel(1, 0, 5), Rel(1, 2, 5)] && rels[..2][..1] == [Rel(1, 0, 5)];
    var one := [Rel(1, 0, 5)];
    assert one[..0] == [];
    assert RunLength(one, Out, 1, m) == 1 && RunLength(one, In, 0, m) == 1;
  }

  lemma OnlyPosition(s: seq<nat>, p: nat)
    requires Climbing(s) && forall q: nat :: q in s <==> q == p
    ensures s == [p]
  {
    SeekIsUnique(s, [p]);
  }

  /** With relationship columns and no map, the outgoing seek from node 1 to node 0 reads node 0's
      shorter run and returns its incoming position. */
  lemma CrossedSeek(found: seq<nat>, rels: seq<Rel>)
    requires rels == CROSSED && Seeks(found, rels, In, Out, 1, 0, MatchOne(5))
    ensures found == [0]
  {
    CrossedRanks(rels);
    forall q: nat ensures q in found <==> q == 0 {
      assert Wanted(rels[0], Out, 1, 0, MatchOne(5));
      assert StoredAt(rels, In, Out, 1, 0, MatchOne(5), q) <==> q == 0;
    }
    OnlyPosition(found, 0);
  }

  method BuildTopology(rels: seq<Rel>, n: nat) returns (g: Topology)
    requires InSpace(rels, n) && n <= TWO32
    ensures Stages(g, rels) && g.n == n
  {
    var degOut := Degrees(n, rels, Out);
    var degIn := Degrees(n, rels, In);
    var out, _ := BuildCsrDirection(n, rels, degOut, Out);
    var inn, _ := BuildCsrDirection(n, rels, degIn, In);
    LaysWellFormed(out, rels, Out, n);
    LaysWellFormed(inn, rels, In, n);
    var outTypes := Compress(out.types);
    var inTypes := Compress(inn.types);
    g := Topology(n, out, inn, outTypes, inTypes);
  }

  /** Beside relationship columns and without a map, a seek that reads the incoming side returns
      incoming positions. */
  method SeekWithoutMap(g: Topology, u: nat, v: nat, m: RelMatch, aboveFloor: bool, ghost rels: seq<Rel>) returns (r: seq<nat>)
    requires Stages(g, rels) && m.MatchOne? && SideRead(rels, Out, u, v, m, true, true).In?
    ensures Seeks(r, rels, In, Out, u, v, m)
  {
    ghost var found, frame;
    r, found, frame := SeekDirection(g, Out, u, v, m, true, aboveFloor, true, Columns.None, [], rels);
    assert [] + found == found;
    assert frame == In;
  }

  method SeekCrossed(rels: seq<Rel>, aboveFloor: bool) returns (p: nat)
    requires rels == CROSSED && InSpace(rels, 3)
    ensures p == 0
  {
    var g := BuildTopology(rels, 3);
    CrossedRuns(rels, MatchOne(5));
    var r := SeekWithoutMap(g, 1, 0, MatchOne(5), aboveFloor, rels);
    CrossedSeek(r, rels);
    p := r[0];
  }

  /** The relationship asked for carries 42; the position the map-less seek returns reads another
      relationship's 7. */
  method ReadsAnothersProperty(aboveFloor: bool) returns (carried: Columns.Option<int>, read: Columns.Option<int>)
    ensures carried == Columns.Some(42) && read == Columns.Some(7)
  {
    var p := SeekCrossed(CROSSED, aboveFloor);
    var column := [Columns.Pair(1, 42), Columns.Pair(0, 7)];
    CrossedWrites(column);
    carried := ColumnStore.BuildAndGet(Columns.I64, column, 3, 1);
    read := ColumnStore.BuildAndGet(Columns.I64, column, 3, p);
  }

  /** The column as Finalize stages it: 42 where the first relationship is stored, 7 where the last is. */
  lemma CrossedWrites(column: seq<Columns.Pair>)
    requires column == [Columns.Pair(1, 42), Columns.Pair(0, 7)]
    ensures var w := Columns.LastWrites(column); 0 in w && w[0] == 7 && 1 in w && w[1] == 42
    ensures Rank(Owners(CROSSED, Out), 0) == column[0].id && Rank(Owners(CROSSED, Out), 2) == column[1].id
  {
    CrossedRanks(CROSSED);
    var one := [Columns.Pair(1, 42)];
    assert column[..1] == one && one[..0] == [];
    assert Columns.LastWrites(one) == map[1 := 42];
  }
}
