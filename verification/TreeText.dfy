// Rendering the include tree of one file.
module TreeText {
  import opened Wrappers
  import opened Graphs
  import opened TreeInvariant
  import opened TreeMarkers
  import opened TreeLayout

  lemma StepFacts(g: Graph, root: Node, t: Tree, active: set<Node>, limit: Option<nat>)
    requires Inv(g, root, t, active, limit)
    ensures active <= t.seen && root in t.seen && forall x :: x in t.seen ==> Reaches(g, root, x) && x in g.nodes
    ensures forall x :: x in t.seen && x !in active ==> x in t.finished
  {
    InvParts(g, root, t, active, limit);
    hide Inv, ItemsOnce, ExpandedOnce, Complete, Reaches;
    forall x | x in t.seen
      ensures x in g.nodes
    {
      ReachesInside(g, root, x);
    }
  }

  lemma ItemIs(g: Graph, depth: nat, path: Node, i: nat, marker: Marker)
    requires i < |EdgesOf(g, path)|
    ensures var item := Item(depth, path, i, marker);
            IsItem(g, item) && Prints(item, path, i) && EdgeOf(g, item) == EdgesOf(g, path)[i]
    ensures marker == Unmarked && EdgesOf(g, path)[i].inside ==> Expands(g, Item(depth, path, i, marker), EdgesOf(g, path)[i].target)
  {}

  lemma EdgeIs(g: Graph, path: Node, i: nat)
    requires Valid(g) && path in g.nodes && i < |EdgesOf(g, path)| && EdgesOf(g, path)[i].inside
    ensures HasEdge(g, path, EdgesOf(g, path)[i].target) && EdgesOf(g, path)[i].target in g.nodes
  {
    assert EdgesOf(g, path)[i] in EdgesOf(g, path);
  }

  lemma EdgeEnds(g: Graph, x: Node, y: Node)
    requires HasEdge(g, x, y)
    ensures x in g.nodes && y in g.nodes
  {}

  lemma Unseen(g: Graph, before: set<Node>, after: set<Node>, x: Node)
    requires before <= after && x in g.nodes && x !in after
    ensures NodeSet(g) - (after + {x}) < NodeSet(g) - before
  {
    assert x in NodeSet(g) - before;
  }

  lemma GrowsParts(t: Tree, u: Tree)
    requires Grows(t, u)
    ensures t.lines <= u.lines && t.seen <= u.seen && t.finished <= u.finished
  {}

  lemma NothingNew(t: Tree, path: Node)
    ensures Grows(t, t) && NewItems(t, t, path)
  {}

  lemma NothingHandled(g: Graph, t: Tree, path: Node)
    ensures Handled(g, t, path, 0)
  {}

  lemma LeftGrows(t: Tree, path: Node)
    ensures Grows(t, Left(t, path)) && NewItems(t, Left(t, path), path) && Left(t, path).finished == t.finished + [path]
  {}

  /** The note about a cut depth is not an item. */
  lemma TruncateInv(g: Graph, root: Node, t: Tree, active: set<Node>, limit: Option<nat>, depth: nat)
    requires Inv(g, root, t, active, limit)
    ensures Inv(g, root, WithItem(t, Truncated(depth)), active, limit)
  {
    InvParts(g, root, t, active, limit);
    TruncateOnce(g, t, depth);
    hide Inv, ItemsOnce, ExpandedOnce, IsItem;
    NoExpansion(g, depth);
    MarkedExpanded(g, root, t, Truncated(depth));
    ItemComplete(g, t, Truncated(depth), limit);
    ItemColoured(g, root, t, active, Truncated(depth));
    hide Coloured, Complete;
    InvFrom(g, root, WithItem(t, Truncated(depth)), active, limit);
  }

  lemma TruncateOnce(g: Graph, t: Tree, depth: nat)
    requires ItemsOnce(g, t)
    ensures ItemsOnce(g, WithItem(t, Truncated(depth)))
  {}

  lemma NoExpansion(g: Graph, depth: nat)
    ensures forall x :: !Expands(g, Truncated(depth), x)
  {}

  class TreeRun {
    const g: Graph
    const root: Node
    const maxDepth: Option<nat>
    var lines: seq<Line>
    var seen: set<Node>
    ghost var finished: seq<Node>

    constructor (g: Graph, root: Node, maxDepth: Option<nat>)
      ensures this.g == g && this.root == root && this.maxDepth == maxDepth
      ensures Snapshot() == Tree([Root(root)], {root}, [])
    {
      this.g, this.root, this.maxDepth := g, root, maxDepth;
      lines, seen := [Root(root)], {root};
      finished := [];
    }

    ghost function Snapshot(): Tree
      reads this
    {
      Tree(lines, seen, finished)
    }

    ghost function Remaining(): set<Node>
      reads this
    {
      NodeSet(g) - seen
    }

    lemma SnapshotIs()
      ensures Snapshot() == Tree(lines, seen, finished) && Remaining() == NodeSet(g) - seen
    {}

    /** Print the directives of a node, expanding every include that has not been seen. */
    method Visit(path: Node, depth: nat, active: set<Node>)
      requires Valid(g) && Inv(g, root, Snapshot(), active, maxDepth) && path in active && path in g.nodes
      requires Branch(g, root, lines, path, active) && ItemsBelow(Snapshot(), path, 0)
      requires lines != [] && Enters(g, lines[|lines| - 1], path, depth) && Shape(g, root, lines, maxDepth, |lines| - 1)
      requires maxDepth.Some? ==> depth <= maxDepth.value
      modifies this
      ensures Inv(g, root, Snapshot(), active - {path}, maxDepth) && path in finished
      ensures Grows(old(Snapshot()), Snapshot()) && NewItems(old(Snapshot()), Snapshot(), path)
      ensures Shape(g, root, lines, maxDepth, |lines|) && AllDeep(lines, |old(lines)|, depth)
      decreases Remaining(), 1
    {
      hide *;
      ghost var t0 := Snapshot();
      SnapshotIs();
      NothingNew(t0, path);
      NothingDeep(lines, depth);
      var edges := EdgesOf(g, path);
      if maxDepth.Some? && depth >= maxDepth.value {
        LastCutOff(g, lines, path, depth);
        if |edges| > 0 {
          TruncateInv(g, root, t0, active, maxDepth, depth);
          ItemFields(t0, Truncated(depth));
          TruncateNew(t0, depth, path);
          ShapeCut(g, root, lines, depth, path);
          ItemDeep(lines, Truncated(depth), depth);
          CutOffStays(g, lines, lines + [Truncated(depth)], maxDepth, path);
          lines := lines + [Truncated(depth)];
          SnapshotIs();
        } else {
          ShapeOpen(g, root, lines, maxDepth, depth, path);
        }
        Finish(path, active, t0);
        return;
      }
      ShapeOpen(g, root, lines, maxDepth, depth, path);
      NothingHandled(g, t0, path);
      for i := 0 to |edges|
        invariant Inv(g, root, Snapshot(), active, maxDepth) && ItemsBelow(Snapshot(), path, i)
        invariant Grows(t0, Snapshot()) && NewItems(t0, Snapshot(), path) && Handled(g, Snapshot(), path, i)
        invariant Shape(g, root, lines, maxDepth, |lines|) && AllDeep(lines, |t0.lines|, depth)
      {
        SnapshotIs();
        GrowsParts(t0, Snapshot());
        assert NodeSet(g) - seen <= NodeSet(g) - t0.seen;
        UnderEntry(g, t0.lines, lines, path, depth);
        InvParts(g, root, Snapshot(), active, maxDepth);
        BranchStays(g, root, t0, Snapshot(), path, active);
        ghost var before := lines;
        PrintEdge(path, i, depth, active, t0);
        SnapshotIs();
        DeepMore(before, lines, |t0.lines|, depth, depth);
      }
      SnapshotIs();
      Finish(path, active, t0);
    }

    lemma TruncateNew(t: Tree, depth: nat, path: Node)
      ensures Grows(t, WithItem(t, Truncated(depth))) && NewItems(t, WithItem(t, Truncated(depth)), path)
    {}

    /** The end of a visit; only the bookkeeping of finished nodes changes. */
    ghost method Finish(path: Node, active: set<Node>, t0: Tree)
      requires Inv(g, root, Snapshot(), active, maxDepth) && path in active
      requires Handled(g, Snapshot(), path, |EdgesOf(g, path)|) || CutOff(g, lines, maxDepth, path)
      requires Grows(t0, Snapshot()) && NewItems(t0, Snapshot(), path)
      modifies this`finished
      ensures lines == old(lines)
      ensures Inv(g, root, Snapshot(), active - {path}, maxDepth)
      ensures Grows(t0, Snapshot()) && NewItems(t0, Snapshot(), path) && path in finished
    {
      hide *;
      var t := Snapshot();
      SnapshotIs();
      Leave(g, root, t, active, maxDepth, path);
      LeftGrows(t, path);
      GrowsTransitive(t0, t, Left(t, path));
      NewItemsTransitive(t0, t, Left(t, path), path, path);
      LeftIs(t, path);
      SnapshotIs();
      finished := finished + [path];
      SnapshotIs();
    }

    /** One round of the loop over the directives. */
    method PrintEdge(path: Node, i: nat, depth: nat, active: set<Node>, ghost t0: Tree)
      requires Valid(g) && Inv(g, root, Snapshot(), active, maxDepth) && path in active && path in g.nodes
      requires Branch(g, root, lines, path, active) && ItemsBelow(Snapshot(), path, i)
      requires i < |EdgesOf(g, path)| && Handled(g, Snapshot(), path, i)
      requires Grows(t0, Snapshot()) && NewItems(t0, Snapshot(), path)
      requires Shape(g, root, lines, maxDepth, |lines|) && Under(g, lines, path, depth)
      requires maxDepth.Some? ==> depth < maxDepth.value
      modifies this
      ensures Shape(g, root, lines, maxDepth, |lines|) && AllDeep(lines, |old(lines)|, depth) && old(lines) <= lines
      ensures Inv(g, root, Snapshot(), active, maxDepth) && ItemsBelow(Snapshot(), path, i + 1)
      ensures Grows(t0, Snapshot()) && NewItems(t0, Snapshot(), path) && Handled(g, Snapshot(), path, i + 1)
      decreases Remaining(), 0
    {
      hide *;
      ghost var t := Snapshot();
      SnapshotIs();
      StepFacts(g, root, t, active, maxDepth);
      var edge := EdgesOf(g, path)[i];
      var marker := Unmarked;
      if edge.inside && edge.target in active {
        marker := Cycle;
      } else if edge.inside && edge.target in seen {
        marker := Seen;
      }
      var item := Item(depth, path, i, marker);
      ItemIs(g, depth, path, i, marker);
      ItemsBelowNext(t, item, path, i);
      ItemPrinted(t, item, path, i);
      ItemFields(t, item);
      GrowsTransitive(t0, t, WithItem(t, item));
      GrowsParts(t0, t);
      NewItemsTransitive(t0, t, WithItem(t, item), path, path);
      if edge.inside {
        EdgeIs(g, path, i);
      }
      InvParts(g, root, t, active, maxDepth);
      MarkerChosen(g, root, t, item, active);
      ShapeItem(g, root, lines, maxDepth, item);
      ItemDeep(lines, item, depth);
      ghost var before := lines;
      lines := lines + [item];
      SnapshotIs();
      if !edge.inside || marker != Unmarked {
        NotExpanding(g, item);
        MarkedItem(g, root, t, active, maxDepth, item);
        MarkedHandled(g, t, item, path, i);
        return;
      }
      EnterItem(g, root, t, active, maxDepth, item, edge.target);
      EnteredIs(t, item, edge.target);
      ghost var u := Entered(t, item, edge.target);
      EnterBounds(g, root, t, u, path, edge.target, i, item, active, maxDepth);
      EnteredIsSeen(g, root, t, edge.target);
      BranchBelow(g, root, before, item, edge.target, active);
      Unseen(g, seen, seen, edge.target);
      seen := seen + {edge.target};
      SnapshotIs();
      LastEnters(g, before, item, edge.target);
      Visit(edge.target, depth + 1, active + {edge.target});
      ghost var v := Snapshot();
      SnapshotIs();
      GrowsParts(u, v);
      DeepMore(before + [item], lines, |before|, depth, depth + 1);
      assert active + {edge.target} - {edge.target} == active;
      ExpandHandled(g, t0, t, u, v, path, i, edge.target);
    }
  }

  lemma MarkedHandled(g: Graph, t: Tree, item: Line, path: Node, i: nat)
    requires Handled(g, t, path, i) && Prints(item, path, i) && i < |EdgesOf(g, path)| && item.Item?
    requires EdgesOf(g, path)[i].inside ==>
               item.marker != Unmarked && EdgesOf(g, path)[i].target in t.seen
               && (EdgesOf(g, path)[i].target in t.finished || item.marker == Cycle)
    ensures Handled(g, WithItem(t, item), path, i + 1)
  {
    if item.marker == Cycle {
      ItemMarked(t, item, path, i);
    }
    ItemPrinted(t, item, path, i);
    ItemFields(t, item);
    hide Handled, MarkedCycle, Printed, Prints;
    HandledNext(g, t, WithItem(t, item), path, i);
  }

  lemma EnterBounds(g: Graph, root: Node, t: Tree, u: Tree, path: Node, x: Node, i: nat, item: Line, active: set<Node>, limit: Option<nat>)
    requires Inv(g, root, t, active, limit) && u == Tree(t.lines + [item], t.seen + {x}, t.finished) && x !in t.seen
    requires Prints(item, path, i) && path in t.seen && ItemsBelow(t, path, i)
    ensures ItemsBelow(u, x, 0) && ItemsBelow(u, path, i + 1) && Grows(t, u) && NewItems(t, u, path)
    ensures Printed(u, path, i)
  {
    InvParts(g, root, t, active, limit);
    hide Inv, ExpandedOnce, Coloured, Complete;
    ItemsBelowFresh(g, t, x);
    hide ItemsOnce;
    ItemPrinted(t, item, path, i);
    hide Printed;
    assert Printed(WithItem(t, item), path, i);
    PrintedStays(WithItem(t, item), u, path, i);
  }

  /** After the visit of an included node its directive is handled. */
  lemma ExpandHandled(g: Graph, t0: Tree, t: Tree, u: Tree, v: Tree, path: Node, i: nat, x: Node)
    requires Grows(t0, t) && NewItems(t0, t, path) && Grows(t, u) && NewItems(t, u, path) && x !in t.seen && x in u.seen && path in u.seen
    requires Grows(u, v) && NewItems(u, v, x) && ItemsBelow(u, path, i + 1) && Printed(u, path, i) && x in v.finished && x != path
    requires Handled(g, t, path, i) && i < |EdgesOf(g, path)| && EdgesOf(g, path)[i].target == x
    ensures Grows(t0, v) && NewItems(t0, v, path) && Handled(g, v, path, i + 1) && ItemsBelow(v, path, i + 1)
  {
    hide *;
    GrowsParts(t0, t);
    GrowsParts(t, u);
    GrowsParts(u, v);
    GrowsTransitive(t, u, v);
    GrowsTransitive(t0, t, v);
    NewItemsTransitive(t, u, v, path, x);
    NewItemsTransitive(t0, t, v, path, path);
    ItemsBelowStay(u, v, path, x, i + 1);
    PrintedStays(u, v, path, i);
    HandledNext(g, t, v, path, i);
  }

  // ---------------------------------------------------------------------------------------------
  // The complete tree

  lemma StartInv(g: Graph, root: Node, limit: Option<nat>)
    requires root in g.nodes
    ensures var t := Tree([Root(root)], {root}, []);
            Inv(g, root, t, {root}, limit) && ItemsBelow(t, root, 0)
  {
    ReachesSelf(g, root);
    hide Reaches, HasEdge, EdgesOf;
  }

  ghost predicate ReachedBy(g: Graph, root: Node, x: Node) {
    x in g.nodes && Reaches(g, root, x)
  }

  /** When the visit of the root has ended, exactly the reachable nodes are finished. */
  lemma FinishedIsReachable(g: Graph, root: Node, t: Tree)
    requires Inv(g, root, t, {}, None)
    ensures forall x :: ReachedBy(g, root, x) <==> x in t.finished
    ensures forall x :: x in t.seen <==> x in t.finished
    ensures root in t.finished
  {
    InvParts(g, root, t, {}, None);
    StepFacts(g, root, t, {}, None);
    hide Inv, ItemsOnce, ExpandedOnce, Reaches, HasEdge, Printed, Topological;
    assert Closed(g, t.seen) by {
      forall x, y | x in t.seen && HasEdge(g, x, y)
        ensures y in t.seen
      {
        assert FullyPrinted(g, t, x);
      }
    }
    forall x
      ensures ReachedBy(g, root, x) <==> x in t.finished
    {
      if ReachedBy(g, root, x) {
        ClosedContains(g, t.seen, root, x);
      }
    }
  }

  /** A closed path below the root. */
  ghost predicate IsCycle(g: Graph, root: Node, p: seq<Node>) {
    |p| > 1 && PathBetween(g, p, p[0], p[0]) && ReachedBy(g, root, p[0])
  }

  ghost predicate CycleReachable(g: Graph, root: Node) {
    exists p :: IsCycle(g, root, p)
  }

  ghost predicate HasCycleMarker(lines: seq<Line>) {
    exists k :: 0 <= k < |lines| && lines[k].Item? && lines[k].marker == Cycle
  }

  /** Every directive that includes one file in the other is marked as closing a cycle. */
  ghost predicate AllMarked(g: Graph, lines: seq<Line>, u: Node, v: Node) {
    forall i: nat :: i < |EdgesOf(g, u)| && EdgesOf(g, u)[i].inside && EdgesOf(g, u)[i].target == v ==> MarkedCycle(lines, u, i)
  }

  ghost predicate MarkedStep(g: Graph, lines: seq<Line>, p: seq<Node>, j: nat) {
    j + 1 < |p| && AllMarked(g, lines, p[j], p[j + 1])
  }

  ghost predicate EveryCycleMarked(g: Graph, root: Node, lines: seq<Line>) {
    forall p :: IsCycle(g, root, p) ==> exists j :: MarkedStep(g, lines, p, j)
  }

  /** Along includes that are not marked the nodes were finished earlier and earlier. */
  lemma {:induction false} FinishedEarlier(
      g: Graph, lines: seq<Line>, finished: seq<Node>, p: seq<Node>, u: Node, v: Node, k: nat)
    requires Topological(g, lines, finished) && k < |finished| && finished[k] == u && PathBetween(g, p, u, v)
    requires forall j: nat :: !MarkedStep(g, lines, p, j)
    ensures exists j :: 0 <= j <= k && finished[j] == v && (|p| > 1 ==> j < k)
    decreases |p|
  {
    if |p| > 1 {
      PathFront(g, p, u, v);
      var n := |p| - 2;
      var front := p[..|p| - 1];
      hide PathBetween, HasEdge, MarkedCycle;
      forall j: nat
        ensures !MarkedStep(g, lines, front, j)
      {
        assert !MarkedStep(g, lines, p, j);
      }
      FinishedEarlier(g, lines, finished, front, u, p[n], k);
      var j: nat :| j <= k && finished[j] == p[n];
      assert AfterItsIncludes(g, lines, finished, j);
      assert !MarkedStep(g, lines, p, n);
      var i :| 0 <= i < j && finished[..j][i] == v;
      assert finished[i] == v;
    }
  }

  lemma CycleIsMarked(g: Graph, root: Node, lines: seq<Line>, finished: seq<Node>, p: seq<Node>)
    requires |p| > 0 && (ReachedBy(g, root, p[0]) ==> p[0] in finished)
    requires forall i, j :: 0 <= i < j < |finished| ==> finished[i] != finished[j]
    requires IsCycle(g, root, p) && Topological(g, lines, finished)
    ensures exists j :: MarkedStep(g, lines, p, j)
  {
    hide PathBetween, Topological, MarkedStep;
    if !exists j :: MarkedStep(g, lines, p, j) {
      var k: nat :| k < |finished| && finished[k] == p[0];
      FinishedEarlier(g, lines, finished, p, p[0], p[0], k);
      assert false;
    }
  }

  /** Every include directive of a reachable file appears on exactly one line, and no other directive does. */
  ghost predicate PrintsEachEdgeOnce(g: Graph, root: Node, lines: seq<Line>) {
    && (forall x :: ReachedBy(g, root, x) ==> AllPrinted(g, lines, x))
    && (forall k :: 0 <= k < |lines| && lines[k].Item? ==> IsItem(g, lines[k]) && ReachedBy(g, root, lines[k].source))
    && (forall k, l :: 0 <= k < l < |lines| && lines[k].Item? && lines[l].Item? ==>
          !Prints(lines[l], lines[k].source, lines[k].index))
  }

  /** Every reachable file but the root is expanded under exactly one line, and nothing else is. */
  ghost predicate ExpandsEachNodeOnce(g: Graph, root: Node, lines: seq<Line>) {
    && (forall x :: ReachedBy(g, root, x) && x != root ==> ExpandedIn(g, lines, x))
    && (forall k, x :: 0 <= k < |lines| && Expands(g, lines[k], x) ==> ReachedBy(g, root, x) && x != root)
    && NeverTwice(g, lines)
  }

  lemma FinishedEdges(g: Graph, root: Node, t: Tree)
    requires Inv(g, root, t, {}, None)
    ensures PrintsEachEdgeOnce(g, root, t.lines)
  {
    FinishedIsReachable(g, root, t);
    InvParts(g, root, t, {}, None);
    hide Inv, ExpandedOnce, ReachedBy, HasEdge, Coloured, Topological, IsItem, FullyPrinted, AllPrinted;
    forall x | ReachedBy(g, root, x)
      ensures AllPrinted(g, t.lines, x)
    {
      assert FullyPrinted(g, t, x);
      FullyAllPrinted(g, t, x);
    }
  }

  lemma FinishedNodes(g: Graph, root: Node, t: Tree)
    requires Inv(g, root, t, {}, None)
    ensures ExpandsEachNodeOnce(g, root, t.lines)
  {
    FinishedIsReachable(g, root, t);
    InvParts(g, root, t, {}, None);
    hide Inv, ItemsOnce, ReachedBy, Coloured, Complete, Expands, ExpandedIn, NeverTwice;
  }

  lemma FinishedCycles(g: Graph, root: Node, t: Tree)
    requires Inv(g, root, t, {}, None)
    ensures EveryCycleMarked(g, root, t.lines)
  {
    FinishedIsReachable(g, root, t);
    InvParts(g, root, t, {}, None);
    hide Inv, ItemsOnce, ExpandedOnce, IsCycle, MarkedStep, Topological;
    forall p | IsCycle(g, root, p)
      ensures exists j :: MarkedStep(g, t.lines, p, j)
    {
      CycleIsMarked(g, root, t.lines, t.finished, p);
    }
  }

  lemma MarkedStepHasMarker(g: Graph, lines: seq<Line>, p: seq<Node>, u: Node, v: Node, j: nat)
    requires PathBetween(g, p, u, v) && MarkedStep(g, lines, p, j)
    ensures HasCycleMarker(lines)
  {
    assert HasEdge(g, p[j], p[j + 1]);
    var i: nat :| i < |EdgesOf(g, p[j])| && EdgesOf(g, p[j])[i].inside && EdgesOf(g, p[j])[i].target == p[j + 1];
    assert MarkedCycle(lines, p[j], i);
  }

  lemma ClosingLineCycle(g: Graph, root: Node, line: Line)
    requires ClosesCycle(g, line) && ReachedBy(g, root, line.source)
    ensures CycleReachable(g, root)
  {
    var x := EdgeOf(g, line).target;
    ReachesStep(g, root, line.source, x);
    var p :| PathBetween(g, p, x, line.source);
    PathAppend(g, p, x, line.source, x);
    EdgeEnds(g, line.source, x);
    hide Reaches, HasEdge, IsPath;
    assert IsCycle(g, root, p + [x]);
  }

  /** There is a cycle marker exactly when a cycle can be reached. */
  lemma MarkerIffCycle(g: Graph, root: Node, lines: seq<Line>)
    requires EveryCycleMarked(g, root, lines) && SoundLines(g, root, lines)
    ensures HasCycleMarker(lines) <==> CycleReachable(g, root)
  {
    hide Prints, ReachedBy, MarkerRight, OnPath, ClosesCycle, MarkedStep, PathBetween, IsItem;
    if HasCycleMarker(lines) {
      var k :| 0 <= k < |lines| && lines[k].Item? && lines[k].marker == Cycle;
      ClosingLineCycle(g, root, lines[k]);
    }
    if CycleReachable(g, root) {
      var p :| IsCycle(g, root, p);
      var j: nat :| MarkedStep(g, lines, p, j);
      MarkedStepHasMarker(g, lines, p, p[0], p[0], j);
    }
  }

  /**
   * With or without a depth limit: the directives are those of reachable files, in their order and none of
   * them twice, every marker is the right one, and a cycle marker stands at an include that leads back.
   */
  ghost predicate SoundLines(g: Graph, root: Node, lines: seq<Line>) {
    && (forall k :: 0 <= k < |lines| && lines[k].Item? ==> IsItem(g, lines[k]) && ReachedBy(g, root, lines[k].source))
    && InOrder(lines)
    && MarkersRight(g, root, lines)
    && (forall k :: 0 <= k < |lines| && lines[k].Item? && lines[k].marker == Cycle ==> ClosesCycle(g, lines[k]))
  }

  lemma LinesAreSound(g: Graph, root: Node, t: Tree, limit: Option<nat>)
    requires Valid(g) && Inv(g, root, t, {}, limit) && MarkersRight(g, root, t.lines)
    ensures SoundLines(g, root, t.lines)
  {
    InvParts(g, root, t, {}, limit);
    StepFacts(g, root, t, {}, limit);
    hide Inv, ExpandedOnce, Coloured, Complete, Reaches, IsItem, MarkersRight, ClosesCycle, Valid;
    CycleMarkersAreTrue(g, root, t.lines);
  }

  /** Every line is at its place, notes stand where they have to, and nothing above the limit is missing. */
  ghost predicate FullLines(g: Graph, root: Node, lines: seq<Line>, limit: Option<nat>) {
    Layout(g, root, lines, limit) && CutsMade(g, lines, |lines|, limit) && Covered(g, lines, limit)
  }

  method TreeLines(g: Graph, root: Node, maxDepth: Option<nat>) returns (lines: seq<Line>)
    requires Valid(g) && root in g.nodes
    ensures SoundLines(g, root, lines) && FullLines(g, root, lines, maxDepth)
    ensures maxDepth.None? ==> PrintsEachEdgeOnce(g, root, lines) && ExpandsEachNodeOnce(g, root, lines)
    ensures maxDepth.None? ==> EveryCycleMarked(g, root, lines) && (HasCycleMarker(lines) <==> CycleReachable(g, root))
  {
    hide *;
    var run := new TreeRun(g, root, maxDepth);
    StartInv(g, root, maxDepth);
    BranchFirst(g, root);
    ShapeFirst(g, root, maxDepth);
    RootEnters(g, root);
    run.SnapshotIs();
    run.Visit(root, 0, {root});
    run.SnapshotIs();
    assert {root} - {root} == {};
    ghost var t := run.Snapshot();
    ShapeParts(g, root, t.lines, maxDepth, |t.lines|);
    LinesAreSound(g, root, t, maxDepth);
    FinishedCovered(g, root, t, maxDepth);
    FullLinesFrom(g, root, t.lines, maxDepth);
    if maxDepth.None? {
      FinishedEdges(g, root, t);
      FinishedNodes(g, root, t);
      FinishedCycles(g, root, t);
      MarkerIffCycle(g, root, t.lines);
    }
    return run.lines;
  }

  lemma RootEnters(g: Graph, root: Node)
    ensures Enters(g, [Root(root)][0], root, 0)
  {}

  lemma FullLinesFrom(g: Graph, root: Node, lines: seq<Line>, limit: Option<nat>)
    requires Layout(g, root, lines, limit) && CutsMade(g, lines, |lines|, limit) && Covered(g, lines, limit)
    ensures FullLines(g, root, lines, limit)
  {}
}
