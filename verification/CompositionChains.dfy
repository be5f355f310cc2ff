// How often a starter can compose with class-zero code points: memoised longest walks.
module CompositionChains {
  import opened Wrappers
  import opened MappingGraph
  import opened CycleSearch

  ghost predicate Lengths(g: Graph, depths: map<nat, nat>) {
    forall x :: x in depths ==> IsLongest(g, x, depths[x])
  }

  lemma LengthKnown(g: Graph, depths: map<nat, nat>, x: nat)
    requires Lengths(g, depths) && x in depths
    ensures IsLongest(g, x, depths[x])
  {}

  lemma LengthAdded(g: Graph, depths: map<nat, nat>, x: nat, n: nat)
    requires Lengths(g, depths) && IsLongest(g, x, n)
    ensures Lengths(g, depths[x := n]) && depths[x := n].Keys == depths.Keys + {x}
  {
    hide IsLongest;
  }

  /** The longest chain among the first i targets, zero without any. */
  ghost predicate BestSoFar(g: Graph, x: nat, i: nat, best: nat) {
    && i <= |Next(g, x)|
    && (forall j :: 0 <= j < i ==> WalksWithin(g, Next(g, x)[j], best))
    && (best == 0 || exists j :: 0 <= j < i && IsLongest(g, Next(g, x)[j], best))
  }

  lemma BestNone(g: Graph, x: nat)
    ensures BestSoFar(g, x, 0, 0)
  {}

  function Max(a: nat, b: nat): nat {
    if a < b then b else a
  }

  lemma BestNext(g: Graph, x: nat, i: nat, best: nat, n: nat)
    requires BestSoFar(g, x, i, best) && i < |Next(g, x)| && IsLongest(g, Next(g, x)[i], n)
    ensures BestSoFar(g, x, i + 1, Max(best, n))
  {
    forall j | 0 <= j < i + 1
      ensures WalksWithin(g, Next(g, x)[j], Max(best, n))
    {
      WithinMore(g, Next(g, x)[j], if j < i then best else n, Max(best, n));
    }
  }

  lemma WithinMore(g: Graph, x: nat, m: nat, n: nat)
    requires WalksWithin(g, x, m) && m <= n
    ensures WalksWithin(g, x, n)
  {}

  lemma BestAll(g: Graph, x: nat, best: nat)
    requires BestSoFar(g, x, |Next(g, x)|, best)
    ensures IsLongest(g, x, best + 1)
  {
    forall y | Step(g, x, y)
      ensures WalksWithin(g, y, best)
    {
      var j :| 0 <= j < |Next(g, x)| && Next(g, x)[j] == y;
    }
    if best != 0 {
      var j :| 0 <= j < |Next(g, x)| && IsLongest(g, Next(g, x)[j], best);
      assert Step(g, x, Next(g, x)[j]);
    }
    LongestFrom(g, x, best);
  }

  class ChainSearch {
    const g: Graph
    var depths: map<nat, nat>
    var active: set<nat>
    ghost var path: seq<nat>
    ghost var done: seq<nat>

    constructor (g: Graph)
      ensures this.g == g && Now() == Search({}, {}, [], []) && Lengths(g, depths)
    {
      this.g := g;
      depths, active, path, done := map[], {}, [], [];
    }

    ghost function Now(): Search
      reads this
    {
      Search(depths.Keys, active, path, done)
    }

    lemma NowIs()
      ensures Now() == Search(depths.Keys, active, path, done)
    {}

    method Length(starter: nat) returns (r: Result<nat, CycleError>)
      requires Sound(g, Now()) && Leads(g, Now(), starter) && Lengths(g, depths)
      modifies this
      ensures r.Failure? ==> !Acyclic(g)
      ensures r.Success? ==> Sound(g, Now()) && Back(old(Now()), Now()) && Lengths(g, depths)
      ensures r.Success? ==> starter in depths && IsLongest(g, starter, r.value)
      decreases g.Keys - active
    {
      hide *;
      NowIs();
      if starter in depths {
        BackSelf(Now());
        LengthKnown(g, depths, starter);
        return Success(depths[starter]);
      }
      if starter in active {
        CycleFound(g, Now(), starter);
        return Failure(CyclicAt(starter));
      }
      EnterSound(g, Now(), starter);
      active, path := active + {starter}, path + [starter];
      NowIs();
      EnteredIs(old(Now()), Now(), starter);
      BackSelf(Now());
      ChildrenFirst(g, starter, depths.Keys);
      BestNone(g, starter);
      var children := Next(g, starter);
      var best: nat := 0;
      for i := 0 to |children|
        invariant Sound(g, Now()) && Back(Entered(old(Now()), starter), Now()) && Lengths(g, depths)
        invariant TargetsDone(g, starter, i, depths.Keys) && BestSoFar(g, starter, i, best)
      {
        NowIs();
        TargetIsStep(g, old(Now()), Now(), starter, i);
        Deeper(g, old(active), starter);
        ghost var before := Now();
        var length := Length(children[i]);
        if length.Failure? {
          return length;
        }
        BackParts(before, Now());
        BackTransitive(Entered(old(Now()), starter), before, Now());
        NowIs();
        TargetsNext(g, starter, i, before.completed, depths.Keys);
        BestNext(g, starter, i, best, length.value);
        best := Max(best, length.value);
      }
      NowIs();
      AllTargetsDone(g, starter, depths.Keys);
      EnteredPath(old(Now()), Now(), starter);
      CompleteSound(g, Now(), starter);
      CompleteBack(old(Now()), Now(), starter);
      BestAll(g, starter, best);
      LengthAdded(g, depths, starter, best + 1);
      ghost var before := Now();
      active, path := active - {starter}, path[..|path| - 1];
      depths, done := depths[starter := best + 1], done + [starter];
      NowIs();
      CompletedIs(before, Now(), starter);
      return Success(best + 1);
    }
  }

  const HANGUL_CHAIN: nat := 3

  /** No chain from the first i starters is longer, and the bound is reached unless it is the floor. */
  ghost predicate ChainBound(g: Graph, starters: seq<nat>, i: nat, bound: nat) {
    && i <= |starters| && 3 <= bound
    && (forall j :: 0 <= j < i ==> WalksWithin(g, starters[j], bound))
    && (bound == 3 || exists j :: 0 <= j < i && HasWalk(g, starters[j], bound))
  }

  lemma ChainBoundFirst(g: Graph, starters: seq<nat>)
    ensures ChainBound(g, starters, 0, HANGUL_CHAIN)
  {}

  lemma ChainBoundNext(g: Graph, starters: seq<nat>, i: nat, bound: nat, n: nat)
    requires ChainBound(g, starters, i, bound) && i < |starters| && IsLongest(g, starters[i], n)
    ensures ChainBound(g, starters, i + 1, Max(bound, n))
  {
    forall j | 0 <= j < i + 1
      ensures WalksWithin(g, starters[j], Max(bound, n))
    {
      WithinMore(g, starters[j], if j < i then bound else n, Max(bound, n));
    }
  }

  /** The longest chain of the whole graph, at least the three of Hangul; fails exactly on a cycle. */
  method MaximumCompositionChain(g: Graph, starters: seq<nat>) returns (r: Result<nat, CycleError>)
    requires forall x :: x in g <==> x in starters
    ensures r.Success? <==> Acyclic(g)
    ensures r.Success? ==> ChainBound(g, starters, |starters|, r.value)
  {
    hide *;
    var search := new ChainSearch(g);
    SoundFirst(g);
    ChainBoundFirst(g, starters);
    search.NowIs();
    var bound: nat := HANGUL_CHAIN;
    for i := 0 to |starters|
      invariant Sound(g, search.Now()) && search.path == [] && search.g == g && Lengths(g, search.depths)
      invariant forall j :: 0 <= j < i ==> starters[j] in search.depths
      invariant ChainBound(g, starters, i, bound)
    {
      search.NowIs();
      ghost var before := search.Now();
      EmptyLeads(g, before, starters[i]);
      var length := search.Length(starters[i]);
      if length.Failure? {
        return Failure(length.error);
      }
      search.NowIs();
      BackParts(before, search.Now());
      ChainBoundNext(g, starters, i, bound, length.value);
      bound := Max(bound, length.value);
    }
    search.NowIs();
    forall x | x in g.Keys
      ensures x in search.depths.Keys
    {
      assert x in starters;
    }
    AllCompleted(g, search.Now());
    return Success(bound);
  }
}
