// The cycle and repetition markers of the include tree, judged by the lines above them.
module TreeMarkers {
  import opened Graphs
  import opened TreeInvariant

  /** The root, or a node that is expanded under one of the lines. */
  ghost predicate EnteredIn(g: Graph, root: Node, lines: seq<Line>, x: Node) {
    x == root || ExpandedIn(g, lines, x)
  }

  /** The node is on the way from the root down to the expansion of a path. */
  ghost predicate OnPath(g: Graph, root: Node, lines: seq<Line>, x: Node, path: Node)
    decreases |lines|
  {
    x == path
    || (path != root && exists k :: 0 <= k < |lines| && Expands(g, lines[k], path) && OnPath(g, root, lines[..k], x, lines[k].source))
  }

  /** An include of a node on the way down is a cycle, another one of an expanded node is a repetition. */
  ghost predicate MarkerRight(g: Graph, root: Node, above: seq<Line>, item: Line)
    requires IsItem(g, item)
  {
    var edge := EdgeOf(g, item);
    && (item.marker == Cycle <==> edge.inside && OnPath(g, root, above, edge.target, item.source))
    && (item.marker == Seen <==>
          edge.inside && !OnPath(g, root, above, edge.target, item.source) && EnteredIn(g, root, above, edge.target))
  }

  ghost predicate MarkersRight(g: Graph, root: Node, lines: seq<Line>) {
    forall k :: 0 <= k < |lines| && lines[k].Item? ==> IsItem(g, lines[k]) && MarkerRight(g, root, lines[..k], lines[k])
  }

  lemma MarkersRightNext(g: Graph, root: Node, lines: seq<Line>, line: Line)
    requires MarkersRight(g, root, lines)
    requires line.Item? ==> IsItem(g, line) && MarkerRight(g, root, lines, line)
    ensures MarkersRight(g, root, lines + [line])
  {
    hide MarkerRight, IsItem;
    var longer := lines + [line];
    forall k | 0 <= k < |longer|
      ensures longer[..k] == lines[..k]
    {}
    assert lines[..|lines|] == lines;
  }

  // ---------------------------------------------------------------------------------------------
  // The active nodes of a visit

  /** The active nodes are those on the way down to the visited one. */
  ghost predicate Branch(g: Graph, root: Node, lines: seq<Line>, path: Node, active: set<Node>) {
    EnteredIn(g, root, lines, path) && forall x :: x in active <==> OnPath(g, root, lines, x, path)
  }

  lemma BranchFirst(g: Graph, root: Node)
    ensures Branch(g, root, [Root(root)], root, {root})
  {}

  lemma EnteredIsSeen(g: Graph, root: Node, t: Tree, x: Node)
    requires ExpandedOnce(g, root, t) && root in t.seen
    ensures EnteredIn(g, root, t.lines, x) <==> x in t.seen
  {
    hide Expands;
  }

  lemma EnteredStays(g: Graph, root: Node, lines: seq<Line>, longer: seq<Line>, x: Node)
    requires EnteredIn(g, root, lines, x) && lines <= longer
    ensures EnteredIn(g, root, longer, x)
  {
    if x != root {
      ExpandedStays(g, lines, longer, x);
    }
  }

  /** Later lines do not change the way down to a node, because it is not expanded again. */
  lemma OnPathStays(g: Graph, root: Node, t: Tree, u: Tree, x: Node, path: Node)
    requires EnteredIn(g, root, t.lines, path) && t.lines <= u.lines && ExpandedOnce(g, root, u)
    ensures OnPath(g, root, t.lines, x, path) <==> OnPath(g, root, u.lines, x, path)
  {
    if path != root {
      var k :| 0 <= k < |t.lines| && Expands(g, t.lines[k], path);
      assert u.lines[k] == t.lines[k] && t.lines[..k] == u.lines[..k];
      assert forall l :: 0 <= l < |u.lines| && Expands(g, u.lines[l], path) ==> l == k;
      assert forall l :: 0 <= l < |t.lines| ==> t.lines[l] == u.lines[l];
      hide Expands;
    }
  }

  lemma BranchStays(g: Graph, root: Node, t: Tree, u: Tree, path: Node, active: set<Node>)
    requires Branch(g, root, t.lines, path, active) && t.lines <= u.lines && ExpandedOnce(g, root, u)
    ensures Branch(g, root, u.lines, path, active)
  {
    hide OnPath, EnteredIn, ExpandedOnce;
    EnteredStays(g, root, t.lines, u.lines, path);
    forall x
      ensures x in active <==> OnPath(g, root, u.lines, x, path)
    {
      OnPathStays(g, root, t, u, x, path);
    }
  }

  lemma OnPathBelow(g: Graph, root: Node, lines: seq<Line>, item: Line, x: Node, target: Node)
    requires Expands(g, item, target) && target != root && !EnteredIn(g, root, lines, target)
    ensures OnPath(g, root, lines + [item], x, target) <==> x == target || OnPath(g, root, lines, x, item.source)
  {
    var longer := lines + [item];
    assert longer[|lines|] == item && longer[..|lines|] == lines;
    assert forall l :: 0 <= l < |longer| && Expands(g, longer[l], target) ==> l == |lines|;
    hide Expands;
  }

  /** A node that is entered joins the active ones. */
  lemma BranchBelow(g: Graph, root: Node, lines: seq<Line>, item: Line, target: Node, active: set<Node>)
    requires item.Item? && Branch(g, root, lines, item.source, active)
    requires Expands(g, item, target) && target != root && !EnteredIn(g, root, lines, target)
    ensures Branch(g, root, lines + [item], target, active + {target})
  {
    assert (lines + [item])[|lines|] == item;
    assert EnteredIn(g, root, lines + [item], target);
    hide OnPath, EnteredIn, Expands;
    forall x
      ensures x in active + {target} <==> OnPath(g, root, lines + [item], x, target)
    {
      OnPathBelow(g, root, lines, item, x, target);
    }
  }

  /** The marker that the program chooses by its two sets is the right one. */
  lemma MarkerChosen(g: Graph, root: Node, t: Tree, item: Line, active: set<Node>)
    requires IsItem(g, item) && ExpandedOnce(g, root, t) && root in t.seen && Branch(g, root, t.lines, item.source, active)
    requires item.marker == if !EdgeOf(g, item).inside then Unmarked
                            else if EdgeOf(g, item).target in active then Cycle
                            else if EdgeOf(g, item).target in t.seen then Seen else Unmarked
    ensures MarkerRight(g, root, t.lines, item)
  {
    EnteredIsSeen(g, root, t, EdgeOf(g, item).target);
    hide OnPath, EnteredIn, ExpandedOnce;
  }

  // ---------------------------------------------------------------------------------------------
  // What a cycle marker means in the graph

  /** Every directive on a line is one of a node of the graph. */
  ghost predicate FromNodes(g: Graph, lines: seq<Line>) {
    forall k :: 0 <= k < |lines| && lines[k].Item? ==> IsItem(g, lines[k]) && lines[k].source in g.nodes
  }

  lemma ItemEdge(g: Graph, item: Line)
    requires Valid(g) && IsItem(g, item) && item.source in g.nodes && EdgeOf(g, item).inside
    ensures HasEdge(g, item.source, EdgeOf(g, item).target)
  {
    assert EdgeOf(g, item) in EdgesOf(g, item.source);
  }

  lemma {:induction false} OnPathReaches(g: Graph, root: Node, lines: seq<Line>, x: Node, path: Node)
    requires Valid(g) && FromNodes(g, lines) && path in g.nodes && OnPath(g, root, lines, x, path)
    ensures Reaches(g, x, path)
    decreases |lines|
  {
    hide Reaches, HasEdge, Valid;
    if x == path {
      ReachesSelf(g, path);
    } else {
      var k :| 0 <= k < |lines| && Expands(g, lines[k], path) && OnPath(g, root, lines[..k], x, lines[k].source);
      OnPathReaches(g, root, lines[..k], x, lines[k].source);
      ItemEdge(g, lines[k]);
      ReachesStep(g, x, lines[k].source, path);
    }
  }

  /** The include on a line leads back to the file that includes it. */
  ghost predicate ClosesCycle(g: Graph, line: Line) {
    IsItem(g, line) && HasEdge(g, line.source, EdgeOf(g, line).target) && Reaches(g, EdgeOf(g, line).target, line.source)
  }

  lemma CycleMarkersAreTrue(g: Graph, root: Node, lines: seq<Line>)
    requires Valid(g) && FromNodes(g, lines) && MarkersRight(g, root, lines)
    ensures forall k :: 0 <= k < |lines| && lines[k].Item? && lines[k].marker == Cycle ==> ClosesCycle(g, lines[k])
  {
    forall k | 0 <= k < |lines| && lines[k].Item? && lines[k].marker == Cycle
      ensures ClosesCycle(g, lines[k])
    {
      hide Reaches, HasEdge, Valid, OnPath, EnteredIn;
      assert FromNodes(g, lines[..k]) && MarkerRight(g, root, lines[..k], lines[k]);
      OnPathReaches(g, root, lines[..k], EdgeOf(g, lines[k]).target, lines[k].source);
      ItemEdge(g, lines[k]);
    }
  }
}
