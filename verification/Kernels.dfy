/** Forest roots of a relationship chain, built with path compression, and the chain collapse:
    when one root lookup answers an unbounded reachability expansion. */
module Kernels {
  import opened StableSort
  import opened Csr
  import opened InToOut
  import opened Columns

  /** "Not resolved yet"; no node has this id. */
  const UNRESOLVED: nat := 0xFFFF_FFFF

  // ---- one chain -----------------------------------------------------------------------------------

  /** The first `t` neighbor among positions `k..end`. */
  function FirstFrom(a: Adjacency, t: nat, k: nat, end: nat): Option<nat>
    requires k <= end <= |a.nbrs| == |a.types|
    decreases end - k
  {
    if k == end then None
    else if a.types[k] == t then Some(a.nbrs[k])
    else FirstFrom(a, t, k + 1, end)
  }

  /** The neighbor a chain moves to from `v`. */
  function Next(a: Adjacency, n: nat, t: nat, v: nat): Option<nat>
    requires WellFormed(a, n)
  {
    if v < n then FirstFrom(a, t, a.offsets[v], a.offsets[v + 1]) else None
  }

  /** Where `k` moves lead. */
  function Along(a: Adjacency, n: nat, t: nat, v: nat, k: nat): Option<nat>
    requires WellFormed(a, n)
    decreases k
  {
    if k == 0 then Some(v)
    else if Next(a, n, t, v).None? then None
    else Along(a, n, t, Next(a, n, t, v).value, k - 1)
  }

  /** The chain from `v` stops at `w` after exactly `k` moves. */
  ghost predicate Ends(a: Adjacency, n: nat, t: nat, v: nat, w: nat, k: nat)
    requires WellFormed(a, n)
  {
    Along(a, n, t, v, k) == Some(w) && Next(a, n, t, w).None?
  }

  /** `w` lies on the chain of `v`, and if that chain stops it stops at `w`. */
  ghost predicate RootOf(a: Adjacency, n: nat, t: nat, v: nat, w: nat)
    requires WellFormed(a, n)
  {
    && (exists k: nat :: Along(a, n, t, v, k) == Some(w))
    && (forall u, k: nat :: Ends(a, n, t, v, u, k) ==> u == w)
  }

  lemma {:induction false} FirstFromIn(a: Adjacency, n: nat, t: nat, k: nat, end: nat)
    requires WellFormed(a, n) && k <= end <= |a.nbrs|
    ensures FirstFrom(a, t, k, end).Some? ==>
      exists p :: k <= p < end && a.types[p] == t && a.nbrs[p] == FirstFrom(a, t, k, end).value
    ensures FirstFrom(a, t, k, end).None? ==> forall p :: k <= p < end ==> a.types[p] != t
    decreases end - k
  {
    if k < end && a.types[k] != t {
      FirstFromIn(a, n, t, k + 1, end);
    }
  }

  lemma NextBelow(a: Adjacency, n: nat, t: nat, v: nat)
    requires WellFormed(a, n) && Next(a, n, t, v).Some?
    ensures Next(a, n, t, v).value < n
  {
    FirstFromIn(a, n, t, a.offsets[v], a.offsets[v + 1]);
  }

  /** A chain stops at one place, after one number of moves. */
  lemma {:induction false} EndsOnce(a: Adjacency, n: nat, t: nat, v: nat, w: nat, k: nat, w': nat, k': nat)
    requires WellFormed(a, n) && Ends(a, n, t, v, w, k) && Ends(a, n, t, v, w', k')
    ensures w == w' && k == k'
    decreases k
  {
    if k > 0 && k' > 0 {
      EndsOnce(a, n, t, Next(a, n, t, v).value, w, k - 1, w', k' - 1);
    }
  }

  lemma StopsHere(a: Adjacency, n: nat, t: nat, v: nat)
    requires WellFormed(a, n) && Next(a, n, t, v).None?
    ensures RootOf(a, n, t, v, v)
  {
    assert Along(a, n, t, v, 0) == Some(v);
  }

  /** A root of the next node is a root of this one. */
  lemma RootCarriesBack(a: Adjacency, n: nat, t: nat, v: nat, w: nat)
    requires WellFormed(a, n) && Next(a, n, t, v).Some? && RootOf(a, n, t, Next(a, n, t, v).value, w)
    ensures RootOf(a, n, t, v, w)
  {
    var x := Next(a, n, t, v).value;
    var k: nat :| Along(a, n, t, x, k) == Some(w);
    assert Along(a, n, t, v, k + 1) == Some(w);
    forall u, k: nat | Ends(a, n, t, v, u, k) ensures u == w {
      assert Ends(a, n, t, x, u, k - 1);
    }
  }

  // ---- the walked path -------------------------------------------------------------------------------

  /** The nodes walked so far, each moving to the following one and the last to `cur`. */
  ghost predicate Trail(a: Adjacency, n: nat, t: nat, path: seq<nat>, cur: nat)
    requires WellFormed(a, n)
    decreases |path|
  {
    path == [] ||
    (var last := |path| - 1;
     path[last] < n && Next(a, n, t, path[last]) == Some(cur) && Trail(a, n, t, path[..last], path[last]))
  }

  lemma {:induction false} TrailRoots(a: Adjacency, n: nat, t: nat, path: seq<nat>, cur: nat, w: nat)
    requires WellFormed(a, n) && Trail(a, n, t, path, cur) && RootOf(a, n, t, cur, w)
    ensures forall i :: 0 <= i < |path| ==> path[i] < n && RootOf(a, n, t, path[i], w)
    decreases |path|
  {
    if path != [] {
      var last := |path| - 1;
      RootCarriesBack(a, n, t, path[last], w);
      TrailRoots(a, n, t, path[..last], path[last], w);
      forall i | 0 <= i < |path| ensures path[i] < n && RootOf(a, n, t, path[i], w) {
        if i < last { assert path[i] == path[..last][i]; }
      }
    }
  }

  lemma {:induction false} TrailEnds(a: Adjacency, n: nat, t: nat, path: seq<nat>, cur: nat, w: nat, k: nat)
    requires WellFormed(a, n) && Trail(a, n, t, path, cur) && Ends(a, n, t, cur, w, k)
    ensures forall i :: 0 <= i < |path| ==> path[i] < n && Ends(a, n, t, path[i], w, k + |path| - i)
    decreases |path|
  {
    if path != [] {
      var last := |path| - 1;
      assert Ends(a, n, t, path[last], w, k + 1);
      TrailEnds(a, n, t, path[..last], path[last], w, k + 1);
      forall i | 0 <= i < |path| ensures path[i] < n && Ends(a, n, t, path[i], w, k + |path| - i) {
        if i < last { assert path[i] == path[..last][i]; }
      }
    }
  }

  /** A trail whose chain stops visits distinct nodes, and there are only `n`. */
  lemma StoppingTrailIsShort(a: Adjacency, n: nat, t: nat, path: seq<nat>, cur: nat, w: nat, k: nat)
    requires WellFormed(a, n) && Trail(a, n, t, path, cur) && Ends(a, n, t, cur, w, k)
    ensures |path| <= n
  {
    TrailEnds(a, n, t, path, cur, w, k);
    forall i, j | 0 <= i < j < |path| ensures path[i] != path[j] {
      if path[i] == path[j] {
        EndsOnce(a, n, t, path[i], w, k + |path| - i, w, k + |path| - j);
      }
    }
    DistinctBelow(path, n);
  }

  /** The depth cap trips only on a chain that never stops. */
  lemma CapMeansEndless(a: Adjacency, n: nat, t: nat, path: seq<nat>, cur: nat)
    requires WellFormed(a, n) && Trail(a, n, t, path, cur) && |path| > n
    ensures forall w, k: nat :: !Ends(a, n, t, cur, w, k)
    ensures RootOf(a, n, t, cur, cur)
  {
    assert Along(a, n, t, cur, 0) == Some(cur);
    forall w, k: nat ensures !Ends(a, n, t, cur, w, k) {
      if Ends(a, n, t, cur, w, k) { StoppingTrailIsShort(a, n, t, path, cur, w, k); }
    }
  }

  method FirstNeighbor(a: Adjacency, n: nat, t: nat, v: nat) returns (next: Option<nat>)
    requires WellFormed(a, n)
    ensures next == Next(a, n, t, v)
  {
    if v >= n { return None; }
    var k, end := a.offsets[v], a.offsets[v + 1];
    while k < end
      invariant a.offsets[v] <= k <= end
      invariant FirstFrom(a, t, k, end) == Next(a, n, t, v)
    {
      if a.types[k] == t { return Some(a.nbrs[k]); }
      k := k + 1;
    }
    return None;
  }

  /** Follows one chain to a resolved node, a stop, or the depth cap. */
  method Chase(a: Adjacency, n: nat, t: nat, root: array<nat>, start: nat) returns (path: seq<nat>, terminal: nat)
    requires WellFormed(a, n) && root.Length == n && start < n <= UNRESOLVED
    requires forall v :: 0 <= v < n && root[v] != UNRESOLVED ==> RootOf(a, n, t, v, root[v])
    ensures forall i :: 0 <= i < |path| ==> path[i] < n && RootOf(a, n, t, path[i], terminal)
    ensures RootOf(a, n, t, start, terminal) && terminal < UNRESOLVED
  {
    path := [];
    var cur: nat := start;
    while true
      invariant cur < n && |path| <= n + 1 && Trail(a, n, t, path, cur)
      invariant start == if path == [] then cur else path[0]
      decreases n + 1 - |path|
    {
      if root[cur] != UNRESOLVED {
        terminal := root[cur];
        break;
      }
      var next := FirstNeighbor(a, n, t, cur);
      if next.None? || |path| > n {
        terminal := cur;
        if next.None? { StopsHere(a, n, t, cur); } else { CapMeansEndless(a, n, t, path, cur); }
        break;
      }
      NextBelow(a, n, t, cur);
      assert (path + [cur])[..|path|] == path;
      path := path + [cur];
      cur := next.value;
    }
    TrailRoots(a, n, t, path, cur, terminal);
    RootBelow(a, n, t, start, terminal);
  }

  lemma {:induction false} AlongBelow(a: Adjacency, n: nat, t: nat, v: nat, k: nat)
    requires WellFormed(a, n) && v < n && Along(a, n, t, v, k).Some?
    ensures Along(a, n, t, v, k).value < n
    decreases k
  {
    if k > 0 {
      NextBelow(a, n, t, v);
      AlongBelow(a, n, t, Next(a, n, t, v).value, k - 1);
    }
  }

  lemma RootBelow(a: Adjacency, n: nat, t: nat, v: nat, w: nat)
    requires WellFormed(a, n) && v < n && RootOf(a, n, t, v, w)
    ensures w < n
  {
    var k: nat :| Along(a, n, t, v, k) == Some(w);
    AlongBelow(a, n, t, v, k);
  }

  /** Every node's root, with path compression; terminates on cycles too. */
  method BuildRootsVia(a: Adjacency, n: nat, t: nat) returns (roots: seq<nat>)
    requires WellFormed(a, n) && n <= UNRESOLVED
    ensures |roots| == n
    ensures forall v :: 0 <= v < n ==> RootOf(a, n, t, v, roots[v])
  {
    var root := new nat[n](_ => UNRESOLVED);
    for start := 0 to n
      invariant forall v :: 0 <= v < n && root[v] != UNRESOLVED ==> RootOf(a, n, t, v, root[v])
      invariant forall v :: 0 <= v < start ==> root[v] != UNRESOLVED
    {
      if root[start] == UNRESOLVED {
        var path, terminal := Chase(a, n, t, root, start);
        for i := 0 to |path|
          invariant forall v :: 0 <= v < n && root[v] != UNRESOLVED ==> RootOf(a, n, t, v, root[v])
          invariant forall v :: 0 <= v < start ==> root[v] != UNRESOLVED
        {
          root[path[i]] := terminal;
        }
        root[start] := terminal;
      }
    }
    roots := root[..];
  }

  // ---- the collapse ------------------------------------------------------------------------------------

  /** One `t` relationship from `u` to `w`, at any position. */
  ghost predicate Hop(a: Adjacency, n: nat, t: nat, u: nat, w: nat)
    requires WellFormed(a, n)
  {
    u < n && exists p :: a.offsets[u] <= p < a.offsets[u + 1] && a.types[p] == t && a.nbrs[p] == w
  }

  /** A walk of any number of hops, along any relationships. */
  ghost predicate HopsTo(a: Adjacency, n: nat, t: nat, walk: seq<nat>)
    requires WellFormed(a, n)
  {
    walk != [] && forall i :: 0 <= i < |walk| - 1 ==> Hop(a, n, t, walk[i], walk[i + 1])
  }

  ghost predicate Reaches(a: Adjacency, n: nat, t: nat, v: nat, w: nat)
    requires WellFormed(a, n)
  {
    exists walk :: HopsTo(a, n, t, walk) && walk[0] == v && walk[|walk| - 1] == w
  }

  /** At most one `t` relationship per node. */
  ghost predicate Functional(a: Adjacency, n: nat, t: nat)
    requires WellFormed(a, n)
  {
    forall v, p, q :: 0 <= v < n && a.offsets[v] <= p < q < a.offsets[v + 1] && a.types[p] == t ==> a.types[q] != t
  }

  /** No member has a `t` relationship. */
  ghost predicate TerminalOnly(a: Adjacency, n: nat, t: nat, members: set<nat>)
    requires WellFormed(a, n)
  {
    forall v :: v in members ==> Next(a, n, t, v).None?
  }

  function RootAt(roots: seq<nat>, v: nat): nat {
    if v < |roots| then roots[v] else v
  }

  lemma {:induction false} AlongIsWalk(a: Adjacency, n: nat, t: nat, v: nat, k: nat) returns (walk: seq<nat>)
    requires WellFormed(a, n) && Along(a, n, t, v, k).Some?
    ensures HopsTo(a, n, t, walk) && walk[0] == v && walk[|walk| - 1] == Along(a, n, t, v, k).value
    decreases k
  {
    if k == 0 {
      walk := [v];
    } else {
      var rest := AlongIsWalk(a, n, t, Next(a, n, t, v).value, k - 1);
      FirstFromIn(a, n, t, a.offsets[v], a.offsets[v + 1]);
      walk := [v] + rest;
    }
  }

  lemma OnlyHop(a: Adjacency, n: nat, t: nat, u: nat, w: nat)
    requires WellFormed(a, n) && Functional(a, n, t) && Hop(a, n, t, u, w)
    ensures Next(a, n, t, u) == Some(w)
  {
    FirstFromIn(a, n, t, a.offsets[u], a.offsets[u + 1]);
    var p :| a.offsets[u] <= p < a.offsets[u + 1] && a.types[p] == t && a.nbrs[p] == w;
    assert Next(a, n, t, u).Some?;
    var q :| a.offsets[u] <= q < a.offsets[u + 1] && a.types[q] == t && a.nbrs[q] == Next(a, n, t, u).value;
    assert p == q;
  }

  /** On a functional type every walk is the chain. */
  lemma {:induction false} WalkIsAlong(a: Adjacency, n: nat, t: nat, walk: seq<nat>)
    requires WellFormed(a, n) && Functional(a, n, t) && HopsTo(a, n, t, walk)
    ensures Along(a, n, t, walk[0], |walk| - 1) == Some(walk[|walk| - 1])
    decreases |walk|
  {
    if |walk| > 1 {
      assert Hop(a, n, t, walk[0], walk[1]);
      OnlyHop(a, n, t, walk[0], walk[1]);
      var rest := walk[1..];
      forall i | 0 <= i < |rest| - 1 ensures Hop(a, n, t, rest[i], rest[i + 1]) {
        assert Hop(a, n, t, walk[i + 1], walk[i + 2]);
      }
      WalkIsAlong(a, n, t, rest);
    }
  }

  /** The collapse: on a functional type whose chains only end at members, the members reachable
      from `v` in zero or more hops are `v`'s root if that is a member, and otherwise none. */
  lemma CollapseIsReachability(a: Adjacency, n: nat, t: nat, members: set<nat>, roots: seq<nat>, v: nat, w: nat)
    requires WellFormed(a, n) && Functional(a, n, t) && TerminalOnly(a, n, t, members)
    requires |roots| == n && forall u :: 0 <= u < n ==> RootOf(a, n, t, u, roots[u])
    ensures Reaches(a, n, t, v, w) && w in members <==> w == RootAt(roots, v) && w in members
  {
    if Reaches(a, n, t, v, w) && w in members {
      var walk :| HopsTo(a, n, t, walk) && walk[0] == v && walk[|walk| - 1] == w;
      WalkIsAlong(a, n, t, walk);
      assert Ends(a, n, t, v, w, |walk| - 1);
      if v >= n { assert |walk| == 1; }
    }
    if w == RootAt(roots, v) {
      if v < n {
        var k: nat :| Along(a, n, t, v, k) == Some(w);
        var walk := AlongIsWalk(a, n, t, v, k);
      } else {
        assert HopsTo(a, n, t, [v]);
      }
    }
  }

  method CheckFunctional(a: Adjacency, n: nat, t: nat) returns (ok: bool)
    requires WellFormed(a, n)
    ensures ok <==> Functional(a, n, t)
  {
    for v := 0 to n
      invariant forall u, p, q :: 0 <= u < v && a.offsets[u] <= p < q < a.offsets[u + 1] && a.types[p] == t ==> a.types[q] != t
    {
      var one := AtMostOne(a.types, t, a.offsets[v], a.offsets[v + 1]);
      if !one { return false; }
    }
    return true;
  }

  /** One node's range: a second hit ends the check. */
  method AtMostOne(types: seq<nat>, t: nat, lo: nat, hi: nat) returns (ok: bool)
    requires lo <= hi <= |types|
    ensures ok <==> forall p, q :: lo <= p < q < hi && types[p] == t ==> types[q] != t
  {
    var count := 0;
    ghost var hit := lo;
    for k := lo to hi
      invariant 0 <= count <= 1
      invariant count == 0 ==> forall p :: lo <= p < k ==> types[p] != t
      invariant count == 1 ==> lo <= hit < k && types[hit] == t
      invariant count == 1 ==> forall p :: lo <= p < k && p != hit ==> types[p] != t
    {
      if types[k] == t {
        count := count + 1;
        if count > 1 { return false; }
        hit := k;
      }
    }
    return true;
  }

  method CheckTerminalOnly(a: Adjacency, n: nat, t: nat, members: set<nat>) returns (ok: bool)
    requires WellFormed(a, n)
    ensures ok <==> TerminalOnly(a, n, t, members)
  {
    var todo, done: set<nat> := members, {};
    while todo != {}
      invariant todo + done == members
      invariant TerminalOnly(a, n, t, done)
    {
      var id :| id in todo;
      if id + 1 < |a.offsets| {
        FirstFromIn(a, n, t, a.offsets[id], a.offsets[id + 1]);
        for k := a.offsets[id] to a.offsets[id + 1]
          invariant forall p :: a.offsets[id] <= p < k ==> a.types[p] != t
        {
          if a.types[k] == t { return false; }
        }
      }
      todo, done := todo - {id}, done + {id};
    }
    assert done == members;
    return true;
  }

  /** Verified, never assumed: the root array comes back exactly when both facts hold, and then it
      answers the expansion from every node. */
  method ChainCollapse(a: Adjacency, n: nat, t: nat, members: set<nat>) returns (roots: Option<seq<nat>>)
    requires WellFormed(a, n) && n <= UNRESOLVED
    ensures roots.Some? <==> Functional(a, n, t) && TerminalOnly(a, n, t, members)
    ensures roots.Some? ==> forall v: nat, w :: w in members ==>
      (Reaches(a, n, t, v, w) <==> w == RootAt(roots.value, v))
  {
    var functional := CheckFunctional(a, n, t);
    if !functional { return None; }
    var terminal := CheckTerminalOnly(a, n, t, members);
    if !terminal { return None; }
    var built := BuildRootsVia(a, n, t);
    forall v: nat, w | w in members ensures Reaches(a, n, t, v, w) <==> w == RootAt(built, v) {
      CollapseIsReachability(a, n, t, members, built, v, w);
    }
    return Some(built);
  }
}
