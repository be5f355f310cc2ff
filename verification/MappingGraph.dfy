// Recursive decomposition: the mapping graph, its cycles, and its longest walks.
module MappingGraph {

  /** Where the entries of a table lead; a code point without an entry leads nowhere. */
  type Graph = map<nat, seq<nat>>

  function Next(g: Graph, x: nat): seq<nat> {
    if x in g then g[x] else []
  }

  predicate Step(g: Graph, x: nat, y: nat) {
    x in g && y in g[x]
  }

  ghost predicate IsWalk(g: Graph, p: seq<nat>) {
    p != [] && forall i :: 0 <= i < |p| - 1 ==> Step(g, p[i], p[i + 1])
  }

  /** A walk that comes back to where it started. */
  ghost predicate IsCycle(g: Graph, p: seq<nat>) {
    |p| > 1 && IsWalk(g, p) && p[0] == p[|p| - 1]
  }

  ghost predicate Acyclic(g: Graph) {
    forall p :: !IsCycle(g, p)
  }

  // ---------------------------------------------------------------------------------------------
  // An order of completion

  /** Every completed code point comes after all its targets that have an entry. */
  ghost predicate Ordered(g: Graph, done: seq<nat>) {
    forall i, y :: 0 <= i < |done| && Step(g, done[i], y) && y in g ==> y in done[..i]
  }

  ghost function IndexOf(done: seq<nat>, x: nat): (i: nat)
    requires x in done
    ensures i < |done| && done[i] == x && x !in done[..i]
  {
    if done[0] == x then 0 else
      var i := IndexOf(done[1..], x);
      assert done[..i + 1] == [done[0]] + done[1..][..i];
      i + 1
  }

  lemma PrefixIndex(done: seq<nat>, i: nat, y: nat)
    requires i <= |done| && y in done[..i]
    ensures y in done && IndexOf(done, y) < i
  {
    var j :| 0 <= j < i && done[j] == y;
    IndexLeast(done, y, j);
  }

  lemma {:induction false} IndexLeast(done: seq<nat>, y: nat, j: nat)
    requires j < |done| && done[j] == y
    ensures IndexOf(done, y) <= j
  {
    if done[0] != y {
      IndexLeast(done[1..], y, j - 1);
    }
  }

  lemma StepBack(g: Graph, done: seq<nat>, x: nat, y: nat)
    requires Ordered(g, done) && x in done && Step(g, x, y) && y in g
    ensures y in done && IndexOf(done, y) < IndexOf(done, x)
  {
    PrefixIndex(done, IndexOf(done, x), y);
  }

  lemma {:induction false} WalkBack(g: Graph, done: seq<nat>, p: seq<nat>, i: nat)
    requires Ordered(g, done) && IsWalk(g, p) && 0 < i < |p| && p[0] in done
    requires forall j :: 0 <= j <= i ==> p[j] in g
    ensures p[i] in done && IndexOf(done, p[i]) < IndexOf(done, p[0])
  {
    hide Ordered;
    assert Step(g, p[i - 1], p[i - 1 + 1]);
    if i > 1 {
      WalkBack(g, done, p, i - 1);
    }
    StepBack(g, done, p[i - 1], p[i]);
  }

  lemma CycleInside(g: Graph, p: seq<nat>, i: nat)
    requires IsCycle(g, p) && i < |p|
    ensures p[i] in g
  {
    if i < |p| - 1 {
      assert Step(g, p[i], p[i + 1]);
    } else {
      assert Step(g, p[0], p[0 + 1]);
    }
  }

  /** If everything is completed in order, there is no cycle. */
  lemma OrderedAcyclic(g: Graph, done: seq<nat>)
    requires Ordered(g, done) && forall x :: x in g ==> x in done
    ensures Acyclic(g)
  {
    forall p
      ensures !IsCycle(g, p)
    {
      if IsCycle(g, p) {
        forall j: nat | j < |p|
          ensures p[j] in g
        {
          CycleInside(g, p, j);
        }
        WalkBack(g, done, p, |p| - 1);
        assert false;
      }
    }
  }

  // ---------------------------------------------------------------------------------------------
  // Validation by depth-first search

  datatype CycleError = CyclicAt(code: nat)

  /** The active code points form a walk, and none of them is completed. */
  ghost predicate Active(g: Graph, path: seq<nat>, active: set<nat>, done: seq<nat>) {
    && active == (set x | x in path) && (path != [] ==> IsWalk(g, path))
    && (forall x :: x in path ==> x !in done)
    && (forall i, j :: 0 <= i < j < |path| ==> path[i] != path[j])
  }

  lemma ActiveCycle(g: Graph, path: seq<nat>, x: nat)
    requires IsWalk(g, path) && x in path && Step(g, path[|path| - 1], x)
    ensures !Acyclic(g)
  {
    var i :| 0 <= i < |path| && path[i] == x;
    var p := path[i..] + [x];
    forall j | 0 <= j < |p| - 1
      ensures Step(g, p[j], p[j + 1])
    {
      if j + 1 < |path| - i {
        assert Step(g, path[i + j], path[i + j + 1]);
      }
    }
    assert IsCycle(g, p);
  }

  lemma PathNext(g: Graph, path: seq<nat>, x: nat)
    requires path == [] || (IsWalk(g, path) && Step(g, path[|path| - 1], x))
    ensures IsWalk(g, path + [x])
  {
    var p := path + [x];
    forall i | 0 <= i < |p| - 1
      ensures Step(g, p[i], p[i + 1])
    {
      if i < |path| - 1 {
        assert Step(g, path[i], path[i + 1]);
      }
    }
  }

  lemma OrderedNext(g: Graph, done: seq<nat>, x: nat)
    requires Ordered(g, done) && forall y :: Step(g, x, y) && y in g ==> y in done
    ensures Ordered(g, done + [x])
  {
    var more := done + [x];
    forall i, y | 0 <= i < |more| && Step(g, more[i], y) && y in g
      ensures y in more[..i]
    {
      assert more[..i] == done[..i];
      if i == |done| {
        assert done[..i] == done;
      }
    }
  }

  // ---------------------------------------------------------------------------------------------
  // Longest walks

  ghost predicate WalkFrom(g: Graph, p: seq<nat>, x: nat) {
    IsWalk(g, p) && p[0] == x
  }

  ghost predicate HasWalk(g: Graph, x: nat, n: nat) {
    exists p :: WalkFrom(g, p, x) && |p| == n
  }

  ghost predicate WalksWithin(g: Graph, x: nat, n: nat) {
    forall p :: WalkFrom(g, p, x) ==> |p| <= n
  }

  /** The number of code points on a longest walk. */
  ghost predicate IsLongest(g: Graph, x: nat, n: nat) {
    HasWalk(g, x, n) && WalksWithin(g, x, n)
  }

  lemma LongestUnique(g: Graph, x: nat, m: nat, n: nat)
    requires IsLongest(g, x, m) && IsLongest(g, x, n)
    ensures m == n
  {}

  lemma WalkLoop(g: Graph, p: seq<nat>, i: nat, j: nat)
    requires IsWalk(g, p) && i < j < |p| && p[i] == p[j]
    ensures !Acyclic(g)
  {
    var q := p[i..j + 1];
    forall k | 0 <= k < |q| - 1
      ensures Step(g, q[k], q[k + 1])
    {
      assert Step(g, p[i + k], p[i + k + 1]);
    }
    assert IsCycle(g, q);
  }

  lemma WalkDistinct(g: Graph, p: seq<nat>, i: nat, j: nat)
    requires Acyclic(g) && IsWalk(g, p) && i < j < |p|
    ensures p[i] != p[j]
  {
    hide Acyclic, IsWalk;
    if p[i] == p[j] {
      WalkLoop(g, p, i, j);
    }
  }

  lemma {:induction false} DistinctFew(p: seq<nat>, s: set<nat>)
    requires (forall x :: x in p ==> x in s) && forall i, j :: 0 <= i < j < |p| ==> p[i] != p[j]
    ensures |p| <= |s|
  {
    if |p| > 0 {
      assert p[0] in p;
      DistinctFew(p[1..], s - {p[0]});
    }
  }

  /** Without cycles, all code points on a walk but the last are different entries. */
  lemma WalkShort(g: Graph, p: seq<nat>)
    requires Acyclic(g) && IsWalk(g, p)
    ensures |p| <= |g.Keys| + 1
  {
    var q := p[..|p| - 1];
    forall x | x in q
      ensures x in g.Keys
    {
      var i :| 0 <= i < |q| && q[i] == x;
      assert Step(g, p[i], p[i + 1]);
    }
    forall i, j | 0 <= i < j < |q|
      ensures q[i] != q[j]
    {
      WalkDistinct(g, p, i, j);
    }
    hide IsWalk, Acyclic;
    DistinctFew(q, g.Keys);
  }

  lemma {:induction false} LongestBelow(g: Graph, x: nat, n: nat) returns (m: nat)
    requires n > 0 && forall p :: WalkFrom(g, p, x) ==> |p| <= n
    ensures IsLongest(g, x, m)
  {
    if HasWalk(g, x, n) {
      m := n;
    } else if n == 1 {
      assert WalkFrom(g, [x], x);
      assert false;
    } else {
      forall p | WalkFrom(g, p, x)
        ensures |p| <= n - 1
      {
        assert |p| != n;
      }
      m := LongestBelow(g, x, n - 1);
    }
  }

  lemma LongestExists(g: Graph, x: nat)
    requires Acyclic(g)
    ensures exists n :: IsLongest(g, x, n)
  {
    forall p | WalkFrom(g, p, x)
      ensures |p| <= |g.Keys| + 1
    {
      WalkShort(g, p);
    }
    var m := LongestBelow(g, x, |g.Keys| + 1);
  }

  ghost function Height(g: Graph, x: nat): (n: nat)
    requires Acyclic(g)
    ensures IsLongest(g, x, n)
  {
    LongestExists(g, x);
    var n :| IsLongest(g, x, n);
    n
  }

  lemma WalkTail(g: Graph, p: seq<nat>)
    requires IsWalk(g, p) && |p| > 1
    ensures Step(g, p[0], p[1]) && IsWalk(g, p[1..])
  {
    forall i | 0 <= i < |p[1..]| - 1
      ensures Step(g, p[1..][i], p[1..][i + 1])
    {
      assert Step(g, p[i + 1], p[i + 1 + 1]);
    }
    assert Step(g, p[0], p[0 + 1]);
  }

  lemma WalkPrepend(g: Graph, x: nat, p: seq<nat>)
    requires IsWalk(g, p) && Step(g, x, p[0])
    ensures WalkFrom(g, [x] + p, x)
  {
    var q := [x] + p;
    forall i | 0 <= i < |q| - 1
      ensures Step(g, q[i], q[i + 1])
    {
      if i > 0 {
        assert Step(g, p[i - 1], p[i - 1 + 1]);
      }
    }
  }

  lemma LongestSteps(g: Graph, x: nat, y: nat, m: nat, n: nat)
    requires IsLongest(g, x, m) && IsLongest(g, y, n) && Step(g, x, y)
    ensures 1 <= n < m
  {
    var p :| WalkFrom(g, p, y) && |p| == n;
    WalkPrepend(g, x, p);
  }

  /** One more than the best target; one where there is no target. */
  lemma LongestFrom(g: Graph, x: nat, best: nat)
    requires forall y :: Step(g, x, y) ==> WalksWithin(g, y, best)
    requires best == 0 || exists y :: Step(g, x, y) && IsLongest(g, y, best)
    ensures IsLongest(g, x, best + 1)
  {
    if best == 0 {
      assert WalkFrom(g, [x], x);
    } else {
      var y :| Step(g, x, y) && IsLongest(g, y, best);
      var p :| WalkFrom(g, p, y) && |p| == best;
      WalkPrepend(g, x, p);
      assert |[x] + p| == best + 1;
    }
    forall p | WalkFrom(g, p, x)
      ensures |p| <= best + 1
    {
      if |p| > 1 {
        WalkTail(g, p);
        assert WalkFrom(g, p[1..], p[1]);
      }
    }
  }
}
