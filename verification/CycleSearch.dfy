// Depth-first searches of the normalization generator: cycle validation and composition chains.
module CycleSearch {
  import opened Wrappers
  import opened MappingGraph

  /** The sets of a search, with the order in which code points were entered and completed. */
  datatype Search = Search(completed: set<nat>, active: set<nat>, path: seq<nat>, done: seq<nat>)

  ghost predicate Sound(g: Graph, s: Search) {
    && Active(g, s.path, s.active, s.done) && Ordered(g, s.done)
    && s.completed == (set x | x in s.done)
  }

  function Entered(s: Search, x: nat): Search {
    s.(active := s.active + {x}, path := s.path + [x])
  }

  function Completed(s: Search, x: nat): Search {
    s.(completed := s.completed + {x}, done := s.done + [x],
       active := s.active - {x}, path := if s.path == [] then [] else s.path[..|s.path| - 1])
  }

  /** The search may go on from the end of the active path. */
  ghost predicate Leads(g: Graph, s: Search, x: nat) {
    s.path == [] || Step(g, s.path[|s.path| - 1], x)
  }

  /** A visit comes back to where it started, and completes only more. */
  ghost predicate Back(s: Search, t: Search) {
    t.path == s.path && t.active == s.active && s.done <= t.done && s.completed <= t.completed
  }

  lemma SoundFirst(g: Graph)
    ensures Sound(g, Search({}, {}, [], []))
  {}

  lemma EnterSound(g: Graph, s: Search, x: nat)
    requires Sound(g, s) && Leads(g, s, x) && x !in s.completed && x !in s.active
    ensures Sound(g, Entered(s, x)) && Entered(s, x).path[|Entered(s, x).path| - 1] == x
  {
    PathNext(g, s.path, x);
    hide IsWalk, Ordered;
    assert forall i :: 0 <= i < |s.path| ==> s.path[i] in s.path;
  }

  lemma CycleFound(g: Graph, s: Search, x: nat)
    requires Sound(g, s) && Leads(g, s, x) && x in s.active
    ensures !Acyclic(g)
  {
    hide IsWalk, Ordered, Acyclic;
    ActiveCycle(g, s.path, x);
  }

  lemma CompleteSound(g: Graph, s: Search, x: nat)
    requires Sound(g, s) && s.path != [] && s.path[|s.path| - 1] == x
    requires forall y :: Step(g, x, y) && y in g ==> y in s.completed
    ensures Sound(g, Completed(s, x)) && x in Completed(s, x).completed
  {
    OrderedNext(g, s.done, x);
    hide Ordered;
    var front := s.path[..|s.path| - 1];
    assert s.path == front + [x];
    forall y | y in s.path && y != x
      ensures y in front
    {}
  }

  /** Leaving the code point that was entered restores the path. */
  lemma CompleteBack(s: Search, t: Search, x: nat)
    requires Back(Entered(s, x), t) && x !in s.active
    ensures Back(s, Completed(t, x))
  {
    assert (s.path + [x])[..|s.path|] == s.path;
    assert s.active + {x} - {x} == s.active;
  }

  lemma BackTransitive(s: Search, t: Search, u: Search)
    requires Back(s, t) && Back(t, u)
    ensures Back(s, u)
  {}

  lemma AllCompleted(g: Graph, s: Search)
    requires Sound(g, s) && g.Keys <= s.completed
    ensures Acyclic(g)
  {
    hide Acyclic, Active, Ordered;
    OrderedAcyclic(g, s.done);
  }

  /** The search goes deeper only into entries that are not active yet. */
  lemma Deeper(g: Graph, active: set<nat>, x: nat)
    requires x in g && x !in active
    ensures g.Keys - (active + {x}) < g.Keys - active
  {
    assert x in g.Keys - active;
  }

  /** All targets before the i-th that have an entry are completed. */
  ghost predicate TargetsDone(g: Graph, x: nat, i: nat, completed: set<nat>) {
    i <= |Next(g, x)| && forall j :: 0 <= j < i && Next(g, x)[j] in g ==> Next(g, x)[j] in completed
  }

  lemma AllTargetsDone(g: Graph, x: nat, completed: set<nat>)
    requires TargetsDone(g, x, |Next(g, x)|, completed)
    ensures forall y :: Step(g, x, y) && y in g ==> y in completed
  {}

  lemma TargetsNext(g: Graph, x: nat, i: nat, completed: set<nat>, more: set<nat>)
    requires TargetsDone(g, x, i, completed) && completed <= more && i < |Next(g, x)|
    requires Next(g, x)[i] in g ==> Next(g, x)[i] in more
    ensures TargetsDone(g, x, i + 1, more)
  {}

  lemma TargetIsStep(g: Graph, s: Search, t: Search, x: nat, i: nat)
    requires Back(Entered(s, x), t) && i < |Next(g, x)|
    ensures Leads(g, t, Next(g, x)[i]) && x in g && t.active == s.active + {x}
  {}

  lemma BackSelf(s: Search)
    ensures Back(s, s)
  {}

  class CycleCheck {
    const g: Graph
    var completed: set<nat>
    var active: set<nat>
    ghost var path: seq<nat>
    ghost var done: seq<nat>

    constructor (g: Graph)
      ensures this.g == g && Now() == Search({}, {}, [], [])
    {
      this.g := g;
      completed, active, path, done := {}, {}, [], [];
    }

    ghost function Now(): Search
      reads this
    {
      Search(completed, active, path, done)
    }

    lemma NowIs()
      ensures Now() == Search(completed, active, path, done)
    {}

    method Visit(code: nat) returns (r: Option<CycleError>)
      requires Sound(g, Now()) && Leads(g, Now(), code)
      modifies this
      ensures r.Some? ==> !Acyclic(g)
      ensures r.None? ==> Sound(g, Now()) && Back(old(Now()), Now()) && (code in g ==> code in completed)
      decreases g.Keys - active
    {
      hide *;
      NowIs();
      if code in completed || code !in g {
        BackSelf(Now());
        return None;
      }
      if code in active {
        CycleFound(g, Now(), code);
        return Some(CyclicAt(code));
      }
      EnterSound(g, Now(), code);
      Deeper(g, active, code);
      active, path := active + {code}, path + [code];
      NowIs();
      EnteredIs(old(Now()), Now(), code);
      BackSelf(Now());
      ChildrenFirst(g, code, completed);
      for i := 0 to |g[code]|
        invariant Sound(g, Now()) && Back(Entered(old(Now()), code), Now())
        invariant TargetsDone(g, code, i, completed)
      {
        NowIs();
        NextIs(g, code);
        TargetIsStep(g, old(Now()), Now(), code, i);
        ghost var before := Now();
        var error := Visit(g[code][i]);
        if error.Some? {
          return error;
        }
        BackParts(before, Now());
        BackTransitive(Entered(old(Now()), code), before, Now());
        NowIs();
        TargetsNext(g, code, i, before.completed, completed);
      }
      NowIs();
      NextIs(g, code);
      AllTargetsDone(g, code, completed);
      EnteredPath(old(Now()), Now(), code);
      CompleteSound(g, Now(), code);
      CompleteBack(old(Now()), Now(), code);
      ghost var before := Now();
      active, path := active - {code}, path[..|path| - 1];
      completed, done := completed + {code}, done + [code];
      NowIs();
      CompletedIs(before, Now(), code);
      return None;
    }
  }

  lemma EnteredIs(s: Search, t: Search, x: nat)
    requires t == s.(active := s.active + {x}, path := s.path + [x])
    ensures t == Entered(s, x)
  {}

  lemma CompletedIs(s: Search, t: Search, x: nat)
    requires s.path != [] && t == Search(s.completed + {x}, s.active - {x}, s.path[..|s.path| - 1], s.done + [x])
    ensures t == Completed(s, x)
  {}

  lemma EnteredPath(s: Search, t: Search, x: nat)
    requires Back(Entered(s, x), t)
    ensures t.path != [] && t.path[|t.path| - 1] == x
  {}

  lemma BackParts(s: Search, t: Search)
    requires Back(s, t)
    ensures s.completed <= t.completed && t.active == s.active && t.path == s.path
  {}

  lemma NextIs(g: Graph, x: nat)
    requires x in g
    ensures Next(g, x) == g[x]
  {}

  lemma ChildrenFirst(g: Graph, x: nat, completed: set<nat>)
    ensures TargetsDone(g, x, 0, completed)
  {}

  /** Validation fails exactly when some chain of mappings comes back to its start. */
  method ValidateDecompositionGraph(g: Graph, codes: seq<nat>) returns (r: Option<CycleError>)
    requires forall x :: x in g <==> x in codes
    ensures r.None? <==> Acyclic(g)
  {
    hide *;
    var check := new CycleCheck(g);
    SoundFirst(g);
    check.NowIs();
    for i := 0 to |codes|
      invariant Sound(g, check.Now()) && check.path == []
      invariant forall j :: 0 <= j < i ==> codes[j] in check.completed
      invariant check.g == g
    {
      check.NowIs();
      ghost var before := check.Now();
      EmptyLeads(g, before, codes[i]);
      var error := check.Visit(codes[i]);
      if error.Some? {
        return error;
      }
      check.NowIs();
      BackParts(before, check.Now());
      assert codes[i] in g;
    }
    check.NowIs();
    forall x | x in g.Keys
      ensures x in check.completed
    {
      assert x in codes;
    }
    AllCompleted(g, check.Now());
    return None;
  }

  lemma EmptyLeads(g: Graph, s: Search, x: nat)
    requires s.path == []
    ensures Leads(g, s, x)
  {}
}
