// Every include cycle as a strongly connected component.
module Tarjan {
  import opened Graphs
  import opened TarjanInvariant
  import opened TarjanSteps
  import opened ComponentOrder

  /** A component is an include cycle when it has two nodes or includes itself. */
  ghost predicate IsCycle(g: Graph, c: set<Node>) {
    |c| > 1 || exists x :: x in c && HasEdge(g, x, x)
  }

  /** The cycles among the components popped so far, in the order in which they were popped. */
  ghost function Reported(g: Graph, popped: seq<set<Node>>): seq<seq<Node>> {
    if popped == [] then []
    else
      var c := popped[|popped| - 1];
      Reported(g, popped[..|popped| - 1]) + if IsCycle(g, c) then [Selected(g.nodes, c)] else []
  }

  lemma ReportedNext(g: Graph, popped: seq<set<Node>>, c: set<Node>)
    ensures Reported(g, popped + [c]) == Reported(g, popped) + if IsCycle(g, c) then [Selected(g.nodes, c)] else []
  {
    assert (popped + [c])[..|popped|] == popped;
  }

  ghost predicate AllDifferent(s: seq<Node>) {
    forall i, j :: 0 <= i < j < |s| ==> s[i] != s[j]
  }

  lemma {:induction false} ElementsCount(s: seq<Node>)
    requires AllDifferent(s)
    ensures |Elements(s)| == |s|
  {
    if s != [] {
      var n := |s| - 1;
      ElementsCount(s[..n]);
      ElementsOfAppend(s[..n], s[n]);
      assert s[..n] + [s[n]] == s;
    }
  }

  lemma CycleTest(g: Graph, c: set<Node>, component: seq<Node>)
    requires AllDifferent(component) && Elements(component) == c && component != []
    requires component[0] in g.nodes
    ensures IsCycle(g, c) <==> |component| > 1 || component[0] in Adjacent(g, component[0])
  {
    hide HasEdge, Adjacent;
    ElementsCount(component);
    AdjacentIsEdge(g, component[0], component[0]);
    assert component[0] in c;
  }

  lemma StackDifferent(g: Graph, s: State, gray: set<Node>)
    requires Inv(g, s, gray)
    ensures AllDifferent(s.stack)
  {
    InvParts(g, s, gray);
    hide Inv, ToGray, Upward, Partition, BlackClosed, Closed;
  }

  lemma TopReversed(s: seq<Node>, n: nat, component: seq<Node>)
    requires AllDifferent(s) && n < |s| && |component| == |s| - n
    requires forall i :: 0 <= i < |component| ==> component[i] == s[|s| - 1 - i]
    ensures AllDifferent(component) && Elements(component) == Elements(s[n..])
  {
    forall x | x in s[n..]
      ensures x in component
    {
      var i :| 0 <= i < |s| - n && s[n..][i] == x;
      assert component[|s| - 1 - n - i] == x;
    }
  }

  lemma AllSeen(g: Graph, v: Node)
    requires v in g.nodes
    ensures SeesAll(g, v, Adjacent(g, v))
  {
    hide HasEdge, Adjacent;
    forall y | HasEdge(g, v, y)
      ensures y in Adjacent(g, v)
    {
      AdjacentIsEdge(g, v, y);
    }
  }

  /** What the scanning loop needs to know of its state. */
  lemma ScanState(g: Graph, s0: State, s: State, gray: set<Node>, v: Node, seen: seq<Node>)
    requires Scanning(g, s0, s, gray, v, seen)
    ensures v in s.lowLinks && v in s.indices && s.lowLinks.Keys == s.indices.Keys
    ensures s0.indices.Keys <= s.indices.Keys && v !in s0.indices
    ensures |s0.stack| < |s.stack| && s.stack[|s0.stack|] == v
    ensures Inv(g, s, gray + {v})
  {
    ScanningParts(g, s0, s, gray, v, seen);
    hide Scanning, Inv, LowIsReached, NoEscape, SeenAll;
    StateFacts(g, s, gray + {v});
    ExtendsFacts(s0, s);
  }

  lemma VisitedKeys(g: Graph, s0: State, s: State, gray: set<Node>, v: Node)
    requires Visited(g, s0, s, gray, v)
    ensures s0.indices.Keys <= s.indices.Keys && v in s.indices && s.lowLinks.Keys == s.indices.Keys
    ensures s0.lowLinks.Keys <= s.lowLinks.Keys && Inv(g, s, gray)
  {
    VisitedParts(g, s0, s, gray, v);
    hide Visited, Inv, LowIsReached, NoEscape;
    StateFacts(g, s, gray);
    ExtendsFacts(s0, s);
  }

  lemma GrayReach(g: Graph, gray: set<Node>, v: Node, y: Node)
    requires HasEdge(g, v, y) && v in g.nodes && forall x :: x in gray ==> Reaches(g, x, v)
    ensures forall x :: x in gray + {v} ==> Reaches(g, x, y)
  {
    hide Reaches, HasEdge;
    forall x | x in gray + {v}
      ensures Reaches(g, x, y)
    {
      ReachesSelf(g, v);
      ReachesStep(g, x, v, y);
    }
  }

  class SccRun {
    const g: Graph
    var index: nat
    var indices: map<Node, nat>
    var lowLinks: map<Node, nat>
    var stack: seq<Node>
    var onStack: set<Node>
    var components: seq<seq<Node>>
    ghost var popped: seq<set<Node>>

    constructor (g: Graph)
      ensures this.g == g && Snapshot() == State(0, map[], map[], [], {}, []) && components == []
    {
      this.g := g;
      index, indices, lowLinks, stack, onStack, components := 0, map[], map[], [], {}, [];
      popped := [];
    }

    ghost function Snapshot(): State
      reads this
    {
      State(index, indices, lowLinks, stack, onStack, popped)
    }

    ghost function Unvisited(): set<Node>
      reads this
    {
      Elements(g.nodes) - indices.Keys
    }

    /** Pop the stack down to and including a node. */
    method PopComponent(path: Node, ghost n: nat) returns (component: seq<Node>)
      requires n < |stack| && stack[n] == path && AllDifferent(stack) && onStack == Elements(stack)
      modifies this
      ensures stack == old(stack)[..n] && onStack == old(onStack) - Elements(old(stack)[n..])
      ensures |component| == |old(stack)| - n
      ensures forall i :: 0 <= i < |component| ==> component[i] == old(stack)[|old(stack)| - 1 - i]
      ensures index == old(index) && indices == old(indices) && lowLinks == old(lowLinks)
      ensures components == old(components) && popped == old(popped)
    {
      ghost var all := stack;
      component := [];
      assert all[|all|..] == [] && all[..|all|] == all;
      while true
        invariant n < |stack| <= |all| && stack == all[..|stack|]
        invariant |component| == |all| - |stack|
        invariant forall i :: 0 <= i < |component| ==> component[i] == all[|all| - 1 - i]
        invariant onStack == Elements(all) - Elements(all[|stack|..])
        invariant index == old(index) && indices == old(indices) && lowLinks == old(lowLinks)
        invariant components == old(components) && popped == old(popped)
        decreases |stack|
      {
        var dependency := stack[|stack| - 1];
        PopOne(all, |stack| - 1);
        stack := stack[..|stack| - 1];
        onStack := onStack - {dependency};
        component := component + [dependency];
        if dependency == path {
          assert |stack| == n;
          break;
        }
      }
    }

    method Visit(path: Node, ghost gray: set<Node>)
      requires Inv(g, Snapshot(), gray) && components == Reported(g, popped)
      requires path in g.nodes && path !in indices && forall y :: y in gray ==> Reaches(g, y, path)
      modifies this
      ensures Visited(g, old(Snapshot()), Snapshot(), gray, path) && components == Reported(g, popped)
      decreases Unvisited(), 0
    {
      hide *;
      ghost var s0 := Snapshot();
      SnapshotIs();
      UnvisitedIs();
      StateFacts(g, s0, gray);
      ScanFirst(g, s0, gray, path);
      EnteredIs(s0, path);
      indices := indices[path := index];
      lowLinks := lowLinks[path := index];
      index := index + 1;
      stack := stack + [path];
      onStack := onStack + {path};
      SnapshotIs();
      var dependencies := Adjacent(g, path);
      AllSeen(g, path);
      assert dependencies[..0] == [];
      for i := 0 to |dependencies|
        invariant Scanning(g, s0, Snapshot(), gray, path, dependencies[..i]) && components == Reported(g, popped)
      {
        AdjacentIsEdge(g, path, dependencies[i]);
        ScanState(g, s0, Snapshot(), gray, path, dependencies[..i]);
        SnapshotIs();
        UnvisitedIs();
        FewerUnvisited(g.nodes, s0.indices.Keys, indices.Keys, path);
        Follow(path, dependencies[i], gray, s0, dependencies[..i]);
        assert dependencies[..i + 1] == dependencies[..i] + [dependencies[i]];
      }
      assert dependencies[..|dependencies|] == dependencies;
      ScanState(g, s0, Snapshot(), gray, path, dependencies);
      SnapshotIs();
      if lowLinks[path] != indices[path] {
        LeaveBlack(g, s0, Snapshot(), gray, path, dependencies);
        return;
      }
      CloseComponent(path, gray, s0, dependencies);
    }

    /** One round of the loop over the includes of a node. */
    method Follow(path: Node, dependency: Node, ghost gray: set<Node>, ghost s0: State, ghost seen: seq<Node>)
      requires Scanning(g, s0, Snapshot(), gray, path, seen) && components == Reported(g, popped)
      requires s0.lowLinks.Keys == s0.indices.Keys && HasEdge(g, path, dependency)
      requires path in g.nodes && dependency in g.nodes && forall y :: y in gray ==> Reaches(g, y, path)
      modifies this
      ensures Scanning(g, s0, Snapshot(), gray, path, seen + [dependency]) && components == Reported(g, popped)
      decreases Unvisited(), 1
    {
      hide *;
      ghost var s := Snapshot();
      ScanState(g, s0, s, gray, path, seen);
      SnapshotIs();
      if dependency !in indices {
        GrayReach(g, gray, path, dependency);
        Visit(dependency, gray + {path});
        ghost var t := Snapshot();
        SnapshotIs();
        VisitedKeys(g, s, t, gray + {path}, dependency);
        ScanTree(g, s0, s, t, gray, path, seen, dependency);
        LoweredIs(t, path, lowLinks[dependency]);
        lowLinks := lowLinks[path := if lowLinks[path] <= lowLinks[dependency] then lowLinks[path] else lowLinks[dependency]];
      } else if dependency in onStack {
        ScanBack(g, s0, s, gray, path, seen, dependency);
        LoweredIs(s, path, indices[dependency]);
        lowLinks := lowLinks[path := if lowLinks[path] <= indices[dependency] then lowLinks[path] else indices[dependency]];
      } else {
        ScanCross(g, s0, s, gray, path, seen, dependency);
      }
      SnapshotIs();
    }

    /** The end of the visit of a component's root. */
    method CloseComponent(path: Node, ghost gray: set<Node>, ghost s0: State, ghost seen: seq<Node>)
      requires Inv(g, s0, gray) && Scanning(g, s0, Snapshot(), gray, path, seen) && SeesAll(g, path, seen)
      requires path in lowLinks && path in indices && lowLinks[path] == indices[path]
      requires path in g.nodes && components == Reported(g, popped)
      modifies this
      ensures Visited(g, s0, Snapshot(), gray, path) && components == Reported(g, popped)
    {
      hide *;
      ghost var s := Snapshot();
      SnapshotIs();
      ScanState(g, s0, s, gray, path, seen);
      ghost var n := |s0.stack|;
      LeavePop(g, s0, s, gray, path, seen);
      StackDifferent(g, s, gray + {path});
      StackElements(g, s, gray + {path});
      var component := PopComponent(path, n);
      TopReversed(s.stack, n, component);
      TopIs(s, n);
      PoppedFields(s, n);
      ghost var c := Top(s, n);
      StateFacts(g, s, gray + {path});
      CycleTest(g, c, component);
      ReportedNext(g, popped, c);
      popped := popped + [c];
      if |component| > 1 || component[0] in Adjacent(g, component[0]) {
        SortedComponent(component, c);
        components := components + [Selected(g.nodes, Members(component))];
      }
      SnapshotIs();
    }

    lemma SnapshotIs()
      ensures Snapshot() == State(index, indices, lowLinks, stack, onStack, popped)
    {}

    lemma UnvisitedIs()
      ensures Unvisited() == Elements(g.nodes) - indices.Keys
    {}
  }

  lemma PopOne(all: seq<Node>, k: nat)
    requires k < |all|
    ensures Elements(all[k..]) == Elements(all[k + 1..]) + {all[k]}
  {
    assert all[k..] == [all[k]] + all[k + 1..];
  }

  lemma EnteredIs(s: State, v: Node)
    ensures Entered(s, v)
         == State(s.index + 1, s.indices[v := s.index], s.lowLinks[v := s.index], s.stack + [v], s.onStack + {v}, s.popped)
  {}

  lemma LoweredIs(s: State, v: Node, n: nat)
    requires v in s.lowLinks
    ensures Lowered(s, v, n)
         == State(s.index, s.indices, s.lowLinks[v := if s.lowLinks[v] <= n then s.lowLinks[v] else n], s.stack, s.onStack, s.popped)
  {}

  lemma FewerUnvisited(nodes: seq<Node>, before: set<Node>, after: set<Node>, v: Node)
    requires v in nodes && v !in before && v in after && before <= after
    ensures Elements(nodes) - after < Elements(nodes) - before
  {
    assert v in Elements(nodes) - before;
  }

  lemma StackElements(g: Graph, s: State, gray: set<Node>)
    requires Inv(g, s, gray)
    ensures s.onStack == Elements(s.stack)
  {
    InvParts(g, s, gray);
    hide Inv, Elements;
  }

  lemma TopIs(s: State, n: nat)
    requires n <= |s.stack|
    ensures Top(s, n) == Elements(s.stack[n..])
  {}

  function Members(s: seq<Node>): set<Node> {
    set x | x in s
  }

  lemma SortedComponent(component: seq<Node>, c: set<Node>)
    requires Elements(component) == c
    ensures Members(component) == c
  {}

  // ---------------------------------------------------------------------------------------------
  // The complete run

  /** The list is a component that is a cycle, in display order. */
  ghost predicate IsCycleList(g: Graph, list: seq<Node>) {
    && IsComponent(g, Elements(list)) && IsCycle(g, Elements(list))
    && list == Selected(g.nodes, Elements(list)) && InDisplayOrder(g.nodes, list)
  }

  /** The report lists every include cycle exactly once, each in display order. */
  ghost predicate ListsAllCycles(g: Graph, report: seq<seq<Node>>) {
    && (forall i :: 0 <= i < |report| ==> IsCycleList(g, report[i]))
    && Disjoint(report)
    && (forall c :: IsComponent(g, c) && IsCycle(g, c) ==> exists i :: 0 <= i < |report| && Elements(report[i]) == c)
  }

  lemma InitialInv(g: Graph)
    ensures Inv(g, State(0, map[], map[], [], {}, []), {})
  {}

  lemma SomeGray(g: Graph, s: State, gray: set<Node>, i: nat)
    requires ToGray(g, s, gray) && i < |s.stack|
    ensures gray != {}
  {
    hide Reaches;
    assert HasGrayBelow(g, s, gray, s.stack[i]);
  }

  /** With no visit running the stack is empty, so every visited node is in a popped component. */
  lemma IdleStack(g: Graph, s: State)
    requires Inv(g, s, {})
    ensures s.stack == [] && s.onStack == {} && Done(s) == s.indices.Keys
  {
    InvParts(g, s, {});
    hide Inv, Upward, Partition, BlackClosed, Closed;
    if s.stack != [] {
      SomeGray(g, s, {}, 0);
    }
  }

  lemma ComponentInside(g: Graph, c: set<Node>)
    requires IsComponent(g, c)
    ensures forall x :: x in c ==> x in g.nodes
  {
    hide Reaches;
    forall x | x in c
      ensures x in g.nodes
    {
      ReachesInside(g, x, x);
    }
  }

  lemma SelectedElements(nodes: seq<Node>, c: set<Node>)
    requires forall x :: x in c ==> x in nodes
    ensures Elements(Selected(nodes, c)) == c
  {
    hide Selected;
  }

  /** Two components that share a node are the same. */
  lemma SameComponent(g: Graph, c: set<Node>, d: set<Node>, x: Node)
    requires IsComponent(g, c) && IsComponent(g, d) && x in c && x in d
    ensures c == d
  {
    hide Reaches;
    forall y
      ensures y in c <==> y in d
    {
      if y in c {
        assert Mutual(g, x, y);
      }
      if y in d {
        assert Mutual(g, x, y);
      }
    }
  }

  lemma {:induction false} ReportedFrom(g: Graph, popped: seq<set<Node>>, i: nat)
    requires i < |Reported(g, popped)|
    ensures exists k :: 0 <= k < |popped| && IsCycle(g, popped[k]) && Reported(g, popped)[i] == Selected(g.nodes, popped[k])
  {
    var n := |popped| - 1;
    if i < |Reported(g, popped[..n])| {
      ReportedFrom(g, popped[..n], i);
      var k :| 0 <= k < n && IsCycle(g, popped[..n][k]) && Reported(g, popped[..n])[i] == Selected(g.nodes, popped[..n][k]);
      assert popped[..n][k] == popped[k];
    }
  }

  lemma {:induction false} ReportedHas(g: Graph, popped: seq<set<Node>>, k: nat) returns (i: nat)
    requires k < |popped| && IsCycle(g, popped[k])
    ensures i < |Reported(g, popped)| && Reported(g, popped)[i] == Selected(g.nodes, popped[k])
  {
    var n := |popped| - 1;
    if k < n {
      i := ReportedHas(g, popped[..n], k);
    } else {
      i := |Reported(g, popped[..n])|;
    }
  }

  /** Reports of different popped sets come from different places. */
  lemma {:induction false} ReportedDisjoint(g: Graph, popped: seq<set<Node>>, i: nat, j: nat)
    requires i < j < |Reported(g, popped)|
    requires forall k :: 0 <= k < |popped| ==> forall x :: x in popped[k] ==> x in g.nodes
    requires forall k, l :: 0 <= k < l < |popped| ==> popped[k] !! popped[l]
    ensures Elements(Reported(g, popped)[i]) !! Elements(Reported(g, popped)[j])
  {
    var n := |popped| - 1;
    var front := popped[..n];
    if j < |Reported(g, front)| {
      ReportedDisjoint(g, front, i, j);
    } else {
      ReportedFrom(g, front, i);
      hide Selected, IsCycle, Reported;
      var k :| 0 <= k < n && Reported(g, front)[i] == Selected(g.nodes, front[k]);
      SelectedElements(g.nodes, front[k]);
      SelectedElements(g.nodes, popped[n]);
      LastReported(g, popped, j);
      FrontReported(g, popped, i);
    }
  }

  lemma FrontReported(g: Graph, popped: seq<set<Node>>, i: nat)
    requires popped != [] && i < |Reported(g, popped[..|popped| - 1])|
    ensures i < |Reported(g, popped)| && Reported(g, popped)[i] == Reported(g, popped[..|popped| - 1])[i]
  {}

  lemma LastReported(g: Graph, popped: seq<set<Node>>, j: nat)
    requires popped != [] && |Reported(g, popped[..|popped| - 1])| <= j < |Reported(g, popped)|
    ensures Reported(g, popped)[j] == Selected(g.nodes, popped[|popped| - 1])
  {}

  lemma ReportIsComplete(g: Graph, popped: seq<set<Node>>, done: set<Node>)
    requires Partition(g, popped, done) && forall x :: x in g.nodes ==> x in done
    ensures ListsAllCycles(g, Reported(g, popped))
  {
    var report := Reported(g, popped);
    forall k | 0 <= k < |popped|
      ensures forall x :: x in popped[k] ==> x in g.nodes
    {
      ComponentInside(g, popped[k]);
    }
    hide IsComponent, IsCycle, Selected, Reported, InDisplayOrder;
    forall i | 0 <= i < |report|
      ensures IsCycleList(g, report[i])
    {
      ReportedFrom(g, popped, i);
      var k :| 0 <= k < |popped| && IsCycle(g, popped[k]) && report[i] == Selected(g.nodes, popped[k]);
      SelectedElements(g.nodes, popped[k]);
      SelectedOrdered(g.nodes, popped[k]);
    }
    forall i, j | 0 <= i < j < |report|
      ensures Elements(report[i]) !! Elements(report[j])
    {
      ReportedDisjoint(g, popped, i, j);
    }
    forall c | IsComponent(g, c) && IsCycle(g, c)
      ensures exists i :: 0 <= i < |report| && Elements(report[i]) == c
    {
      CycleIsReported(g, popped, done, c);
    }
  }

  lemma PoppedWith(g: Graph, popped: seq<set<Node>>, done: set<Node>, c: set<Node>) returns (k: nat)
    requires Partition(g, popped, done) && c != {} && c <= done && IsComponent(g, c)
    ensures k < |popped| && popped[k] == c
  {
    hide Reaches, Mutual;
    var x :| x in c;
    assert exists i :: 0 <= i < |popped| && x in popped[i];
    k :| 0 <= k < |popped| && x in popped[k];
    SameComponent(g, c, popped[k], x);
  }

  lemma CycleIsReported(g: Graph, popped: seq<set<Node>>, done: set<Node>, c: set<Node>)
    requires Partition(g, popped, done) && forall x :: x in g.nodes ==> x in done
    requires IsComponent(g, c) && IsCycle(g, c)
    ensures exists i :: 0 <= i < |Reported(g, popped)| && Elements(Reported(g, popped)[i]) == c
  {
    hide *;
    ComponentInside(g, c);
    ComponentNotEmpty(g, c);
    var k := PoppedWith(g, popped, done, c);
    var i := ReportedHas(g, popped, k);
    SelectedElements(g.nodes, c);
  }

  lemma ComponentNotEmpty(g: Graph, c: set<Node>)
    requires IsComponent(g, c)
    ensures c != {}
  {}

  /** The lists themselves are in the display order of their first nodes. */
  ghost predicate ListsInOrder(g: Graph, report: seq<seq<Node>>) {
    && (forall i :: 0 <= i < |report| ==> report[i] != [])
    && InDisplayOrder(g.nodes, Heads(report))
  }

  lemma CycleListNotEmpty(g: Graph, list: seq<Node>)
    requires IsCycleList(g, list)
    ensures list != [] && list[0] in g.nodes
  {
    ComponentNotEmpty(g, Elements(list));
    ComponentInside(g, Elements(list));
    assert list != [] ==> list[0] in Elements(list);
  }

  /** Sorting the report keeps what it lists. */
  lemma SortedReport(g: Graph, report: seq<seq<Node>>)
    requires ListsAllCycles(g, report)
    ensures ListsAllCycles(g, Sorted(g.nodes, report)) && ListsInOrder(g, Sorted(g.nodes, report))
  {
    var sorted := Sorted(g.nodes, report);
    SortedKeeps(g.nodes, report);
    hide Sorted, IsComponent, IsCycle, IsCycleList, Elements, InDisplayOrder;
    forall i | 0 <= i < |sorted|
      ensures IsCycleList(g, sorted[i]) && sorted[i] != [] && sorted[i][0] in g.nodes
    {
      assert sorted[i] in report;
      CycleListNotEmpty(g, sorted[i]);
    }
    forall c | IsComponent(g, c) && IsCycle(g, c)
      ensures exists i :: 0 <= i < |sorted| && Elements(sorted[i]) == c
    {
      var i :| 0 <= i < |report| && Elements(report[i]) == c;
      assert report[i] in sorted;
    }
    HeadsOrdered(g.nodes, sorted);
  }

  method StronglyConnectedComponents(g: Graph) returns (components: seq<seq<Node>>)
    ensures ListsAllCycles(g, components) && ListsInOrder(g, components)
  {
    hide *;
    var run := new SccRun(g);
    InitialInv(g);
    ghost var s := run.Snapshot();
    NothingReported(g);
    run.SnapshotIs();
    for i := 0 to |g.nodes|
      invariant run.g == g && Inv(g, run.Snapshot(), {}) && run.components == Reported(g, run.popped)
      invariant forall j :: 0 <= j < i ==> g.nodes[j] in run.indices
    {
      s := run.Snapshot();
      run.SnapshotIs();
      if g.nodes[i] !in run.indices {
        run.Visit(g.nodes[i], {});
        run.SnapshotIs();
        VisitedKeys(g, s, run.Snapshot(), {}, g.nodes[i]);
      }
    }
    s := run.Snapshot();
    run.SnapshotIs();
    IdleStack(g, s);
    InvParts(g, s, {});
    ReportIsComplete(g, run.popped, Done(s));
    SortedReport(g, run.components);
    return Sorted(g.nodes, run.components);
  }

  lemma NothingReported(g: Graph)
    ensures Reported(g, []) == []
  {}
}
