// The indentation and order of the lines of the include tree, and the notes where it is cut.
module TreeLayout {
  import opened Wrappers
  import opened Graphs
  import opened TreeInvariant
  import opened TreeMarkers

  ghost predicate Deep(line: Line, depth: nat) {
    !line.Root? && line.depth >= depth
  }

  ghost predicate AllDeep(lines: seq<Line>, from: nat, depth: nat) {
    forall m :: from <= m < |lines| ==> Deep(lines[m], depth)
  }

  /** The nearest line above with less indentation is the one that enters the node. */
  ghost predicate Under(g: Graph, lines: seq<Line>, path: Node, depth: nat) {
    exists k :: 0 <= k < |lines| && Enters(g, lines[k], path, depth) && AllDeep(lines, k + 1, depth)
  }

  /** The line enters a node with directives. */
  ghost predicate EntersFull(g: Graph, line: Line, depth: nat) {
    exists x :: Enters(g, line, x, depth) && EdgesOf(g, x) != []
  }

  /**
   * The root is the first line; a directive is below the line that enters its file, and above the limit;
   * a note stands right below a line that enters a file with directives at the limit.
   */
  ghost predicate Placed(g: Graph, root: Node, above: seq<Line>, line: Line, limit: Option<nat>) {
    match line
    case Root(node) => above == [] && node == root
    case Item(depth, source, _, _) => Under(g, above, source, depth) && (limit.Some? ==> depth < limit.value)
    case Truncated(depth) => limit == Some(depth) && above != [] && EntersFull(g, above[|above| - 1], depth)
  }

  /** Every line is at its place. */
  ghost predicate Layout(g: Graph, root: Node, lines: seq<Line>, limit: Option<nat>) {
    lines != [] && forall k :: 0 <= k < |lines| ==> Placed(g, root, lines[..k], lines[k], limit)
  }

  /** Among the first lines, every one that enters a file with directives at the limit has a note below it. */
  ghost predicate CutsMade(g: Graph, lines: seq<Line>, n: nat, limit: Option<nat>) {
    forall k :: 0 <= k < n && k < |lines| && limit.Some? && EntersFull(g, lines[k], limit.value) ==>
      k + 1 < |lines| && lines[k + 1].Truncated?
  }

  /** What holds of the lines while the tree is printed; below the last one a note may still be missing. */
  ghost predicate Shape(g: Graph, root: Node, lines: seq<Line>, limit: Option<nat>, n: nat) {
    Layout(g, root, lines, limit) && MarkersRight(g, root, lines) && CutsMade(g, lines, n, limit)
  }

  lemma ShapeParts(g: Graph, root: Node, lines: seq<Line>, limit: Option<nat>, n: nat)
    requires Shape(g, root, lines, limit, n)
    ensures Layout(g, root, lines, limit) && MarkersRight(g, root, lines) && CutsMade(g, lines, n, limit)
    ensures lines != []
  {}

  lemma EntersOne(g: Graph, line: Line, x: Node, y: Node, d: nat, e: nat)
    requires Enters(g, line, x, d) && Enters(g, line, y, e)
    ensures x == y && d == e
  {}

  lemma LayoutNext(g: Graph, root: Node, lines: seq<Line>, line: Line, limit: Option<nat>)
    requires Layout(g, root, lines, limit) && Placed(g, root, lines, line, limit)
    ensures Layout(g, root, lines + [line], limit)
  {
    hide Placed;
    var longer := lines + [line];
    forall k | 0 <= k < |longer|
      ensures longer[..k] == lines[..k]
    {}
    assert lines[..|lines|] == lines;
  }

  lemma CutsNext(g: Graph, lines: seq<Line>, line: Line, limit: Option<nat>)
    requires CutsMade(g, lines, |lines|, limit)
    ensures CutsMade(g, lines + [line], |lines|, limit)
    ensures limit.None? || !EntersFull(g, line, limit.value) ==> CutsMade(g, lines + [line], |lines| + 1, limit)
  {
    hide EntersFull;
    var longer := lines + [line];
    forall k | 0 <= k < |longer| && limit.Some? && EntersFull(g, longer[k], limit.value) && k < |lines|
      ensures k + 1 < |longer| && longer[k + 1].Truncated?
    {
      assert longer[k] == lines[k];
    }
  }

  lemma ShapeFirst(g: Graph, root: Node, limit: Option<nat>)
    ensures Shape(g, root, [Root(root)], limit, 0)
  {}

  /** A directive is printed; if it enters a node at the limit, the note is still missing. */
  lemma ShapeItem(g: Graph, root: Node, lines: seq<Line>, limit: Option<nat>, item: Line)
    requires Shape(g, root, lines, limit, |lines|) && IsItem(g, item) && MarkerRight(g, root, lines, item)
    requires Under(g, lines, item.source, item.depth) && (limit.Some? ==> item.depth < limit.value)
    ensures Shape(g, root, lines + [item], limit, |lines|)
    ensures (forall x :: !Expands(g, item, x)) ==> Shape(g, root, lines + [item], limit, |lines| + 1)
  {
    assert Placed(g, root, lines, item, limit);
    assert (forall x :: !Expands(g, item, x)) && limit.Some? ==> !EntersFull(g, item, limit.value);
    hide Layout, MarkersRight, CutsMade, MarkerRight, Expands;
    LayoutNext(g, root, lines, item, limit);
    MarkersRightNext(g, root, lines, item);
    CutsNext(g, lines, item, limit);
  }

  /** The note below a node that is entered at the limit. */
  lemma ShapeCut(g: Graph, root: Node, lines: seq<Line>, depth: nat, path: Node)
    requires lines != [] && Shape(g, root, lines, Some(depth), |lines| - 1)
    requires Enters(g, lines[|lines| - 1], path, depth) && EdgesOf(g, path) != []
    ensures Shape(g, root, lines + [Truncated(depth)], Some(depth), |lines| + 1)
  {
    var (note, longer) := (Truncated(depth), lines + [Truncated(depth)]);
    assert EntersFull(g, lines[|lines| - 1], depth);
    assert !EntersFull(g, note, depth);
    hide EntersFull;
    assert Placed(g, root, lines, note, Some(depth));
    hide Layout, MarkersRight;
    LayoutNext(g, root, lines, note, Some(depth));
    MarkersRightNext(g, root, lines, note);
    forall k | 0 <= k < |longer| && EntersFull(g, longer[k], depth)
      ensures k + 1 < |longer| && longer[k + 1].Truncated?
    {
      assert k < |lines| && longer[k] == lines[k];
    }
  }

  /** No note is needed below a node without directives or above the limit. */
  lemma ShapeOpen(g: Graph, root: Node, lines: seq<Line>, limit: Option<nat>, depth: nat, path: Node)
    requires lines != [] && Shape(g, root, lines, limit, |lines| - 1)
    requires Enters(g, lines[|lines| - 1], path, depth) && (limit != Some(depth) || EdgesOf(g, path) == [])
    ensures Shape(g, root, lines, limit, |lines|)
  {
    hide Layout, MarkersRight, EntersFull, Enters;
    if limit.Some? {
      NotFull(g, lines[|lines| - 1], limit.value, depth, path);
    }
  }

  lemma NotFull(g: Graph, line: Line, limit: nat, depth: nat, path: Node)
    requires Enters(g, line, path, depth) && (limit != depth || EdgesOf(g, path) == [])
    ensures !EntersFull(g, line, limit)
  {
    hide Enters;
    if x :| Enters(g, line, x, limit) && EdgesOf(g, x) != [] {
      EntersOne(g, line, x, path, limit, depth);
    }
  }

  // ---------------------------------------------------------------------------------------------
  // Indentation while the lines grow

  lemma NothingDeep(lines: seq<Line>, depth: nat)
    ensures AllDeep(lines, |lines|, depth)
  {}

  lemma ItemDeep(lines: seq<Line>, line: Line, depth: nat)
    requires !line.Root? && line.depth == depth
    ensures AllDeep(lines + [line], |lines|, depth)
  {}

  lemma DeepMore(lines: seq<Line>, longer: seq<Line>, from: nat, depth: nat, deeper: nat)
    requires AllDeep(lines, from, depth) && lines <= longer && AllDeep(longer, |lines|, deeper) && depth <= deeper
    ensures AllDeep(longer, from, depth)
  {
    forall m | from <= m < |longer|
      ensures Deep(longer[m], depth)
    {
      if m < |lines| {
        assert longer[m] == lines[m];
      } else {
        assert Deep(longer[m], deeper);
      }
    }
  }

  /** Deeper lines do not change what a node's directives stand under. */
  lemma UnderEntry(g: Graph, lines: seq<Line>, longer: seq<Line>, path: Node, depth: nat)
    requires lines != [] && Enters(g, lines[|lines| - 1], path, depth)
    requires lines <= longer && AllDeep(longer, |lines|, depth)
    ensures Under(g, longer, path, depth)
  {
    hide Enters;
    assert longer[|lines| - 1] == lines[|lines| - 1];
  }

  lemma LastEnters(g: Graph, lines: seq<Line>, item: Line, x: Node)
    requires Expands(g, item, x)
    ensures item.Item? && Enters(g, (lines + [item])[|lines|], x, item.depth + 1)
  {}

  lemma LastCutOff(g: Graph, lines: seq<Line>, path: Node, depth: nat)
    requires lines != [] && Enters(g, lines[|lines| - 1], path, depth)
    ensures CutOff(g, lines, Some(depth), path)
  {}

  // ---------------------------------------------------------------------------------------------
  // The finished lines

  /** Every file that is entered above the limit has all its directives printed. */
  ghost predicate Covered(g: Graph, lines: seq<Line>, limit: Option<nat>) {
    forall k, x, d: nat :: 0 <= k < |lines| && Enters(g, lines[k], x, d) && (limit.Some? ==> d < limit.value) ==> AllPrinted(g, lines, x)
  }

  ghost predicate PrintedIn(lines: seq<Line>, source: Node, index: nat) {
    exists k :: 0 <= k < |lines| && Prints(lines[k], source, index)
  }

  ghost predicate AllPrinted(g: Graph, lines: seq<Line>, x: Node) {
    forall i: nat :: i < |EdgesOf(g, x)| ==> PrintedIn(lines, x, i)
  }

  lemma FullyAllPrinted(g: Graph, t: Tree, x: Node)
    requires FullyPrinted(g, t, x)
    ensures AllPrinted(g, t.lines, x)
  {
    hide HasEdge;
    forall i: nat | i < |EdgesOf(g, x)|
      ensures PrintedIn(t.lines, x, i)
    {
      assert Printed(t, x, i);
    }
  }

  lemma OnlyRootFirst(g: Graph, root: Node, lines: seq<Line>, limit: Option<nat>, k: nat)
    requires Layout(g, root, lines, limit) && k < |lines| && lines[k].Root?
    ensures k == 0 && lines[0] == Root(root)
  {
    assert Placed(g, root, lines[..k], lines[k], limit);
  }

  /** A node is entered by one line only. */
  lemma EnteredOnce(g: Graph, root: Node, t: Tree, limit: Option<nat>, k: nat, l: nat, x: Node, d: nat, e: nat)
    requires ExpandedOnce(g, root, t) && Layout(g, root, t.lines, limit)
    requires k < |t.lines| && l < |t.lines| && Enters(g, t.lines[k], x, d) && Enters(g, t.lines[l], x, e)
    ensures d == e
  {
    hide Layout;
    if t.lines[k].Root? {
      OnlyRootFirst(g, root, t.lines, limit, k);
    }
    if t.lines[l].Root? {
      OnlyRootFirst(g, root, t.lines, limit, l);
    }
    EntersHow(g, t.lines[k], x, d);
    EntersHow(g, t.lines[l], x, e);
    hide Enters, Expands;
    if t.lines[k].Item? && t.lines[l].Item? {
      assert k >= l && l >= k;
    } else if t.lines[l].Item? {
      RootNotExpanded(g, root, t, l, x);
    } else if t.lines[k].Item? {
      RootNotExpanded(g, root, t, k, x);
    }
  }

  lemma RootNotExpanded(g: Graph, root: Node, t: Tree, k: nat, x: Node)
    requires ExpandedOnce(g, root, t) && k < |t.lines| && Expands(g, t.lines[k], x)
    ensures x != root
  {
    assert x in t.seen;
  }

  lemma EntersHow(g: Graph, line: Line, x: Node, d: nat)
    requires Enters(g, line, x, d)
    ensures line.Root? ==> line.node == x && d == 0
    ensures !line.Root? ==> line.Item? && Expands(g, line, x) && d == line.depth + 1
  {}

  lemma EnteredIsFinished(g: Graph, root: Node, t: Tree, limit: Option<nat>, k: nat, x: Node, d: nat)
    requires Inv(g, root, t, {}, limit) && Layout(g, root, t.lines, limit)
    requires k < |t.lines| && Enters(g, t.lines[k], x, d)
    ensures x in t.finished
  {
    InvParts(g, root, t, {}, limit);
    hide Inv, ItemsOnce, Complete, Layout, Reaches;
    if t.lines[k].Root? {
      OnlyRootFirst(g, root, t.lines, limit, k);
    } else {
      assert Expands(g, t.lines[k], x);
    }
  }

  lemma FinishedCovered(g: Graph, root: Node, t: Tree, limit: Option<nat>)
    requires Inv(g, root, t, {}, limit) && Layout(g, root, t.lines, limit)
    ensures Covered(g, t.lines, limit)
  {
    InvParts(g, root, t, {}, limit);
    hide Inv, ItemsOnce, ExpandedOnce, Coloured, Layout, Enters, FullyPrinted, Topological;
    forall k, x, d: nat | 0 <= k < |t.lines| && Enters(g, t.lines[k], x, d) && (limit.Some? ==> d < limit.value)
      ensures AllPrinted(g, t.lines, x)
    {
      EnteredIsFinished(g, root, t, limit, k, x, d);
      if CutOff(g, t.lines, limit, x) {
        var l :| 0 <= l < |t.lines| && Enters(g, t.lines[l], x, limit.value);
        EnteredOnce(g, root, t, limit, k, l, x, d, limit.value);
      }
      FullyAllPrinted(g, t, x);
    }
  }
}
