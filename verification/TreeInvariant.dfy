// The depth-first include tree: its lines and what every visit keeps.
module TreeInvariant {
  import opened Wrappers
  import opened Graphs

  datatype Marker = Unmarked | Cycle | Seen

  /** A printed line: the root, one include directive of a node, or the note that the depth was cut. */
  datatype Line =
    | Root(node: Node)
    | Item(depth: nat, source: Node, index: nat, marker: Marker)
    | Truncated(depth: nat)

  /** Printed lines, nodes seen so far, and the nodes whose visits have ended, in that order. */
  datatype Tree = Tree(lines: seq<Line>, seen: set<Node>, finished: seq<Node>)

  ghost predicate IsItem(g: Graph, line: Line) {
    line.Item? && line.index < |EdgesOf(g, line.source)|
  }

  function EdgeOf(g: Graph, line: Line): Edge
    requires line.Item? && line.index < |EdgesOf(g, line.source)|
  {
    EdgesOf(g, line.source)[line.index]
  }

  /** The line under which a node is expanded. */
  ghost predicate Expands(g: Graph, line: Line, x: Node) {
    IsItem(g, line) && line.marker == Unmarked && EdgeOf(g, line).inside && EdgeOf(g, line).target == x
  }

  ghost predicate Prints(line: Line, source: Node, index: nat) {
    line.Item? && line.source == source && line.index == index
  }

  // ---------------------------------------------------------------------------------------------
  // What holds of the lines

  ghost predicate InOrder(lines: seq<Line>) {
    forall k, l :: 0 <= k < l < |lines| && lines[k].Item? && lines[l].Item? && lines[k].source == lines[l].source ==>
      lines[k].index < lines[l].index
  }

  /** Every item belongs to a seen node, and the directives of a node are in order, none of them twice. */
  ghost predicate ItemsOnce(g: Graph, t: Tree) {
    && (forall k :: 0 <= k < |t.lines| && t.lines[k].Item? ==> IsItem(g, t.lines[k]) && t.lines[k].source in t.seen)
    && InOrder(t.lines)
  }

  ghost predicate ExpandedIn(g: Graph, lines: seq<Line>, x: Node) {
    exists k :: 0 <= k < |lines| && Expands(g, lines[k], x)
  }

  lemma ExpandedStays(g: Graph, lines: seq<Line>, longer: seq<Line>, x: Node)
    requires lines <= longer && ExpandedIn(g, lines, x)
    ensures ExpandedIn(g, longer, x)
  {
    hide Expands;
    var k :| 0 <= k < |lines| && Expands(g, lines[k], x);
    assert longer[k] == lines[k];
  }

  ghost predicate OnlySeen(g: Graph, root: Node, lines: seq<Line>, seen: set<Node>) {
    forall k, x {:trigger Expands(g, lines[k], x)} :: 0 <= k < |lines| && Expands(g, lines[k], x) ==> x in seen && x != root
  }

  ghost predicate NeverTwice(g: Graph, lines: seq<Line>) {
    forall k, l, x {:trigger Expands(g, lines[k], x), Expands(g, lines[l], x)} ::
      0 <= k < l < |lines| && Expands(g, lines[k], x) ==> !Expands(g, lines[l], x)
  }

  /** Every seen node but the root is expanded under exactly one line. */
  ghost predicate ExpandedOnce(g: Graph, root: Node, t: Tree) {
    && OnlySeen(g, root, t.lines, t.seen)
    && NeverTwice(g, t.lines)
    && (forall x :: x in t.seen && x != root ==> ExpandedIn(g, t.lines, x))
  }

  /** The directive is on a line that says it closes a cycle. */
  ghost predicate MarkedCycle(lines: seq<Line>, source: Node, index: nat) {
    exists k :: 0 <= k < |lines| && Prints(lines[k], source, index) && lines[k].marker == Cycle
  }

  // ---------------------------------------------------------------------------------------------
  // What holds of the visits

  ghost predicate Coloured(g: Graph, root: Node, t: Tree, active: set<Node>) {
    && (forall x :: x in t.seen <==> x in active || x in t.finished)
    && (forall x :: x in t.finished ==> x !in active)
    && (forall i, j :: 0 <= i < j < |t.finished| ==> t.finished[i] != t.finished[j])
    && (forall x :: x in t.seen ==> Reaches(g, root, x))
    && root in t.seen
  }

  ghost predicate Printed(t: Tree, source: Node, index: nat) {
    exists k :: 0 <= k < |t.lines| && Prints(t.lines[k], source, index)
  }

  /** The line enters a node: its directives are printed below, at this depth. */
  ghost predicate Enters(g: Graph, line: Line, x: Node, depth: nat) {
    match line
    case Root(node) => x == node && depth == 0
    case Item(d, _, _, _) => Expands(g, line, x) && d + 1 == depth
    case Truncated(_) => false
  }

  /** A node entered at the depth limit; its directives are not printed. */
  ghost predicate CutOff(g: Graph, lines: seq<Line>, limit: Option<nat>, x: Node) {
    limit.Some? && exists k :: 0 <= k < |lines| && Enters(g, lines[k], x, limit.value)
  }

  lemma CutOffStays(g: Graph, lines: seq<Line>, longer: seq<Line>, limit: Option<nat>, x: Node)
    requires lines <= longer
    ensures CutOff(g, lines, limit, x) ==> CutOff(g, longer, limit, x)
  {
    hide Enters;
    if CutOff(g, lines, limit, x) {
      var k :| 0 <= k < |lines| && Enters(g, lines[k], x, limit.value);
      assert longer[k] == lines[k];
    }
  }

  /** Unless it was cut off, a finished node has all its directives printed and its includes seen. */
  ghost predicate FullyPrinted(g: Graph, t: Tree, x: Node) {
    && (forall i: nat :: i < |EdgesOf(g, x)| ==> Printed(t, x, i))
    && (forall y :: HasEdge(g, x, y) ==> y in t.seen)
  }

  /** Every include of the node at a place was finished before it, unless it was marked as closing a cycle. */
  ghost predicate AfterItsIncludes(g: Graph, lines: seq<Line>, finished: seq<Node>, k: nat)
    requires k < |finished|
  {
    forall i: nat :: i < |EdgesOf(g, finished[k])| && EdgesOf(g, finished[k])[i].inside ==>
      EdgesOf(g, finished[k])[i].target in finished[..k] || MarkedCycle(lines, finished[k], i)
  }

  ghost predicate Topological(g: Graph, lines: seq<Line>, finished: seq<Node>) {
    forall k: nat :: k < |finished| ==> AfterItsIncludes(g, lines, finished, k)
  }

  ghost predicate Complete(g: Graph, t: Tree, limit: Option<nat>) {
    && (forall x :: x in t.finished ==> FullyPrinted(g, t, x) || CutOff(g, t.lines, limit, x))
    && (limit.None? ==> Topological(g, t.lines, t.finished))
  }

  ghost predicate Inv(g: Graph, root: Node, t: Tree, active: set<Node>, limit: Option<nat>) {
    && ItemsOnce(g, t)
    && ExpandedOnce(g, root, t)
    && Coloured(g, root, t, active)
    && Complete(g, t, limit)
  }

  lemma InvParts(g: Graph, root: Node, t: Tree, active: set<Node>, limit: Option<nat>)
    requires Inv(g, root, t, active, limit)
    ensures ItemsOnce(g, t) && ExpandedOnce(g, root, t) && Coloured(g, root, t, active) && Complete(g, t, limit)
  {}

  lemma InvFrom(g: Graph, root: Node, t: Tree, active: set<Node>, limit: Option<nat>)
    requires ItemsOnce(g, t) && ExpandedOnce(g, root, t) && Coloured(g, root, t, active) && Complete(g, t, limit)
    ensures Inv(g, root, t, active, limit)
  {}

  /** A later state of the same run. */
  ghost predicate Grows(t: Tree, u: Tree) {
    t.lines <= u.lines && t.seen <= u.seen && t.finished <= u.finished
  }

  /** New items belong to the visited node or to nodes that were not seen before. */
  ghost predicate NewItems(t: Tree, u: Tree, path: Node) {
    forall k :: |t.lines| <= k < |u.lines| && u.lines[k].Item? ==> u.lines[k].source == path || u.lines[k].source !in t.seen
  }

  ghost predicate ItemsBelow(t: Tree, path: Node, n: nat) {
    forall k :: 0 <= k < |t.lines| && t.lines[k].Item? && t.lines[k].source == path ==> t.lines[k].index < n
  }

  // ---------------------------------------------------------------------------------------------
  // Printing one item

  function WithItem(t: Tree, item: Line): Tree {
    t.(lines := t.lines + [item])
  }

  lemma ItemOnce(g: Graph, t: Tree, item: Line)
    requires ItemsOnce(g, t) && IsItem(g, item) && item.source in t.seen && ItemsBelow(t, item.source, item.index)
    ensures ItemsOnce(g, WithItem(t, item))
  {}

  lemma MarkedStays(lines: seq<Line>, longer: seq<Line>, source: Node, index: nat)
    requires lines <= longer
    ensures MarkedCycle(lines, source, index) ==> MarkedCycle(longer, source, index)
  {
    if MarkedCycle(lines, source, index) {
      var k :| 0 <= k < |lines| && Prints(lines[k], source, index) && lines[k].marker == Cycle;
      assert longer[k] == lines[k];
    }
  }

  lemma ItemMarked(t: Tree, item: Line, source: Node, index: nat)
    requires Prints(item, source, index) && item.marker == Cycle
    ensures MarkedCycle(WithItem(t, item).lines, source, index)
  {
    assert WithItem(t, item).lines[|t.lines|] == item;
  }

  lemma TopologicalStays(g: Graph, lines: seq<Line>, longer: seq<Line>, finished: seq<Node>)
    requires Topological(g, lines, finished) && lines <= longer
    ensures Topological(g, longer, finished)
  {
    forall k: nat | k < |finished|
      ensures AfterItsIncludes(g, longer, finished, k)
    {
      assert AfterItsIncludes(g, lines, finished, k);
      forall i: nat
        ensures MarkedCycle(lines, finished[k], i) ==> MarkedCycle(longer, finished[k], i)
      {
        MarkedStays(lines, longer, finished[k], i);
      }
      hide MarkedCycle;
    }
  }

  lemma ItemPrinted(t: Tree, item: Line, source: Node, index: nat)
    ensures Printed(t, source, index) ==> Printed(WithItem(t, item), source, index)
    ensures Prints(item, source, index) ==> Printed(WithItem(t, item), source, index)
  {
    var u := WithItem(t, item);
    if Printed(t, source, index) {
      var k :| 0 <= k < |t.lines| && Prints(t.lines[k], source, index);
      assert u.lines[k] == t.lines[k];
    }
    assert u.lines[|t.lines|] == item;
  }

  lemma ItemComplete(g: Graph, t: Tree, item: Line, limit: Option<nat>)
    requires Complete(g, t, limit)
    ensures Complete(g, WithItem(t, item), limit)
  {
    hide HasEdge, Printed, Topological;
    if limit.None? {
      TopologicalStays(g, t.lines, WithItem(t, item).lines, t.finished);
    }
    forall x | x in t.finished
      ensures FullyPrinted(g, WithItem(t, item), x) || CutOff(g, WithItem(t, item).lines, limit, x)
    {
      CutOffStays(g, t.lines, WithItem(t, item).lines, limit, x);
      hide CutOff;
      forall i: nat
        ensures Printed(t, x, i) ==> Printed(WithItem(t, item), x, i)
      {
        ItemPrinted(t, item, x, i);
      }
    }
  }

  /** One more line, which expands at most one node, and that for the first time. */
  lemma ExpandedNext(g: Graph, root: Node, lines: seq<Line>, item: Line, seen: set<Node>, more: set<Node>)
    requires OnlySeen(g, root, lines, seen) && NeverTwice(g, lines) && seen <= more
    requires forall x :: Expands(g, item, x) ==> x !in seen && x in more && x != root
    ensures OnlySeen(g, root, lines + [item], more) && NeverTwice(g, lines + [item])
  {
    hide Expands;
    var longer := lines + [item];
    forall k, x | 0 <= k < |longer| && Expands(g, longer[k], x)
      ensures x in more && x != root
    {
      if k < |lines| {
        assert Expands(g, lines[k], x);
      }
    }
    forall k, l, x | 0 <= k < l < |longer| && Expands(g, longer[k], x)
      ensures !Expands(g, longer[l], x)
    {
      assert Expands(g, lines[k], x);
      if l < |lines| {
        assert longer[l] == lines[l];
      }
    }
  }

  lemma MarkedExpanded(g: Graph, root: Node, t: Tree, item: Line)
    requires ExpandedOnce(g, root, t) && forall x :: !Expands(g, item, x)
    ensures ExpandedOnce(g, root, WithItem(t, item))
  {
    hide Expands, ExpandedIn, OnlySeen, NeverTwice;
    var u := WithItem(t, item);
    ExpandedNext(g, root, t.lines, item, t.seen, t.seen);
    forall x | x in t.seen && x != root
      ensures ExpandedIn(g, u.lines, x)
    {
      ExpandedStays(g, t.lines, u.lines, x);
    }
  }

  /** A marked or external item changes nothing but the lines. */
  lemma MarkedItem(g: Graph, root: Node, t: Tree, active: set<Node>, limit: Option<nat>, item: Line)
    requires Inv(g, root, t, active, limit)
    requires IsItem(g, item) && item.source in t.seen && ItemsBelow(t, item.source, item.index)
    requires item.marker != Unmarked || !EdgeOf(g, item).inside
    ensures Inv(g, root, WithItem(t, item), active, limit)
  {
    hide *;
    InvParts(g, root, t, active, limit);
    ItemOnce(g, t, item);
    NotExpanding(g, item);
    MarkedExpanded(g, root, t, item);
    ItemComplete(g, t, item, limit);
    ItemColoured(g, root, t, active, item);
    ItemIsItem(g, item);
    InvFrom(g, root, WithItem(t, item), active, limit);
  }

  lemma ItemIsItem(g: Graph, item: Line)
    requires IsItem(g, item)
    ensures item.Item? && item.index < |EdgesOf(g, item.source)|
  {}

  lemma NotExpanding(g: Graph, item: Line)
    requires IsItem(g, item) && (item.marker != Unmarked || !EdgeOf(g, item).inside)
    ensures forall x :: !Expands(g, item, x)
  {}

  lemma ItemColoured(g: Graph, root: Node, t: Tree, active: set<Node>, item: Line)
    requires Coloured(g, root, t, active)
    ensures Coloured(g, root, WithItem(t, item), active)
  {
    hide Reaches;
  }

  // ---------------------------------------------------------------------------------------------
  // Entering a node under its item

  function Entered(t: Tree, item: Line, x: Node): Tree {
    t.(lines := t.lines + [item], seen := t.seen + {x})
  }

  lemma EnterExpanded(g: Graph, root: Node, t: Tree, item: Line, x: Node)
    requires ExpandedOnce(g, root, t) && Expands(g, item, x) && x !in t.seen && root in t.seen
    ensures ExpandedOnce(g, root, Entered(t, item, x))
  {
    var u := Entered(t, item, x);
    assert forall y :: Expands(g, item, y) ==> y == x;
    assert u.lines[|t.lines|] == item;
    assert ExpandedIn(g, u.lines, x);
    hide Expands, ExpandedIn, OnlySeen, NeverTwice;
    ExpandedNext(g, root, t.lines, item, t.seen, u.seen);
    forall y | y in t.seen && y != root
      ensures ExpandedIn(g, u.lines, y)
    {
      ExpandedStays(g, t.lines, u.lines, y);
    }
  }

  lemma EnterSeen(g: Graph, t: Tree, x: Node, limit: Option<nat>)
    requires ItemsOnce(g, t) && Complete(g, t, limit)
    ensures var u := t.(seen := t.seen + {x}); ItemsOnce(g, u) && Complete(g, u, limit)
  {
    hide HasEdge, Topological, Prints, IsItem;
    var u := t.(seen := t.seen + {x});
    forall y, i: nat
      ensures Printed(t, y, i) ==> Printed(u, y, i)
    {}
    hide Printed, CutOff;
    forall y | y in t.finished
      ensures FullyPrinted(g, u, y) || CutOff(g, u.lines, limit, y)
    {}
  }

  lemma EnterColoured(g: Graph, root: Node, t: Tree, active: set<Node>, path: Node, x: Node)
    requires Coloured(g, root, t, active) && x !in t.seen && path in t.seen && HasEdge(g, path, x)
    ensures Coloured(g, root, t.(seen := t.seen + {x}), active + {x})
  {
    hide Reaches, HasEdge;
    ReachesStep(g, root, path, x);
  }

  lemma EnterItem(g: Graph, root: Node, t: Tree, active: set<Node>, limit: Option<nat>, item: Line, x: Node)
    requires Inv(g, root, t, active, limit)
    requires IsItem(g, item) && item.source in t.seen && ItemsBelow(t, item.source, item.index)
    requires Expands(g, item, x) && x !in t.seen && HasEdge(g, item.source, x)
    ensures Inv(g, root, Entered(t, item, x), active + {x}, limit)
  {
    hide *;
    InvParts(g, root, t, active, limit);
    ExpandsUnmarked(g, item, x);
    ItemOnce(g, t, item);
    ColouredRoot(g, root, t, active);
    EnterExpanded(g, root, t, item, x);
    ItemComplete(g, t, item, limit);
    ItemColoured(g, root, t, active, item);
    EnterSeen(g, WithItem(t, item), x, limit);
    ItemFields(t, item);
    EnterColoured(g, root, WithItem(t, item), active, item.source, x);
    EnteredIs(t, item, x);
    InvFrom(g, root, Entered(t, item, x), active + {x}, limit);
  }

  lemma ColouredRoot(g: Graph, root: Node, t: Tree, active: set<Node>)
    requires Coloured(g, root, t, active)
    ensures root in t.seen
  {}

  lemma ItemFields(t: Tree, item: Line)
    ensures WithItem(t, item).seen == t.seen && WithItem(t, item).finished == t.finished
    ensures WithItem(t, item).lines == t.lines + [item]
  {}

  lemma ExpandsUnmarked(g: Graph, item: Line, x: Node)
    requires Expands(g, item, x)
    ensures item.Item? && item.marker == Unmarked
  {}

  lemma EnteredIs(t: Tree, item: Line, x: Node)
    ensures Entered(t, item, x) == WithItem(t, item).(seen := t.seen + {x})
    ensures Entered(t, item, x) == Tree(t.lines + [item], t.seen + {x}, t.finished)
  {}

  // ---------------------------------------------------------------------------------------------
  // Leaving a node

  function Left(t: Tree, path: Node): Tree {
    t.(finished := t.finished + [path])
  }

  /** The includes of a node before a place are seen and, unless marked as closing a cycle, finished. */
  ghost predicate Handled(g: Graph, t: Tree, path: Node, n: nat) {
    && (forall i: nat :: i < n && i < |EdgesOf(g, path)| ==> Printed(t, path, i))
    && (forall i: nat :: i < n && i < |EdgesOf(g, path)| && EdgesOf(g, path)[i].inside ==>
          && EdgesOf(g, path)[i].target in t.seen
          && (EdgesOf(g, path)[i].target in t.finished || MarkedCycle(t.lines, path, i)))
  }

  lemma HandledAll(g: Graph, t: Tree, path: Node)
    requires Handled(g, t, path, |EdgesOf(g, path)|)
    ensures FullyPrinted(g, t, path)
    ensures forall i: nat :: i < |EdgesOf(g, path)| && EdgesOf(g, path)[i].inside ==>
              EdgesOf(g, path)[i].target in t.finished || MarkedCycle(t.lines, path, i)
  {
    hide Printed, MarkedCycle;
  }

  lemma LeaveTopological(g: Graph, lines: seq<Line>, finished: seq<Node>, path: Node)
    requires Topological(g, lines, finished)
    requires forall i: nat :: i < |EdgesOf(g, path)| && EdgesOf(g, path)[i].inside ==>
               EdgesOf(g, path)[i].target in finished || MarkedCycle(lines, path, i)
    ensures Topological(g, lines, finished + [path])
  {
    hide MarkedCycle;
    var longer := finished + [path];
    forall k: nat | k < |longer|
      ensures AfterItsIncludes(g, lines, longer, k)
    {
      if k < |finished| {
        assert AfterItsIncludes(g, lines, finished, k);
        assert longer[..k] == finished[..k] && longer[k] == finished[k];
      } else {
        assert longer[..k] == finished;
      }
    }
  }

  lemma LeaveComplete(g: Graph, t: Tree, path: Node, limit: Option<nat>)
    requires Complete(g, t, limit)
    requires Handled(g, t, path, |EdgesOf(g, path)|) || CutOff(g, t.lines, limit, path)
    ensures Complete(g, Left(t, path), limit)
  {
    if limit.None? {
      HandledAll(g, t, path);
      hide Handled, HasEdge, Topological;
      LeaveTopological(g, t.lines, t.finished, path);
    }
    hide MarkedCycle, Prints, HasEdge, CutOff, Topological;
    forall x | x in Left(t, path).finished
      ensures FullyPrinted(g, Left(t, path), x) || CutOff(g, t.lines, limit, x)
    {
      if x == path && Handled(g, t, path, |EdgesOf(g, path)|) {
        HandledAll(g, t, path);
      }
      hide Handled;
      forall i: nat
        ensures Printed(t, x, i) ==> Printed(Left(t, path), x, i)
      {}
    }
  }

  lemma LeaveColoured(g: Graph, root: Node, t: Tree, active: set<Node>, path: Node)
    requires Coloured(g, root, t, active) && path in active
    ensures Coloured(g, root, Left(t, path), active - {path})
  {
    hide Reaches;
    var u := Left(t, path);
    forall x
      ensures x in u.seen <==> x in active - {path} || x in u.finished
    {}
  }

  lemma LeaveLines(g: Graph, root: Node, t: Tree, path: Node)
    requires ItemsOnce(g, t) && ExpandedOnce(g, root, t)
    ensures ItemsOnce(g, Left(t, path)) && ExpandedOnce(g, root, Left(t, path))
  {
    var u := Left(t, path);
    assert u.lines == t.lines && u.seen == t.seen;
  }

  lemma Leave(g: Graph, root: Node, t: Tree, active: set<Node>, limit: Option<nat>, path: Node)
    requires Inv(g, root, t, active, limit) && path in active
    requires Handled(g, t, path, |EdgesOf(g, path)|) || CutOff(g, t.lines, limit, path)
    ensures Inv(g, root, Left(t, path), active - {path}, limit)
  {
    hide *;
    InvParts(g, root, t, active, limit);
    LeaveLines(g, root, t, path);
    LeaveComplete(g, t, path, limit);
    LeaveColoured(g, root, t, active, path);
    LeftIs(t, path);
    InvFrom(g, root, Left(t, path), active - {path}, limit);
  }

  lemma LeftIs(t: Tree, path: Node)
    ensures Left(t, path) == Tree(t.lines, t.seen, t.finished + [path])
  {}

  // ---------------------------------------------------------------------------------------------
  // Progress of the loop over the directives of a node

  lemma HandledNext(g: Graph, t: Tree, u: Tree, path: Node, n: nat)
    requires Handled(g, t, path, n) && Grows(t, u) && Printed(u, path, n)
    requires n < |EdgesOf(g, path)| && EdgesOf(g, path)[n].inside ==>
               EdgesOf(g, path)[n].target in u.seen
               && (EdgesOf(g, path)[n].target in u.finished || MarkedCycle(u.lines, path, n))
    ensures Handled(g, u, path, n + 1)
  {
    hide MarkedCycle;
    forall i: nat | i < n && i < |EdgesOf(g, path)|
      ensures Printed(u, path, i)
    {
      PrintedStays(t, u, path, i);
    }
    hide Printed;
    forall i: nat | i < n + 1 && i < |EdgesOf(g, path)| && EdgesOf(g, path)[i].inside
      ensures EdgesOf(g, path)[i].target in u.seen
      ensures EdgesOf(g, path)[i].target in u.finished || MarkedCycle(u.lines, path, i)
    {
      if i < n {
        MarkedStays(t.lines, u.lines, path, i);
        PrefixHas(t.finished, u.finished, EdgesOf(g, path)[i].target);
      }
    }
  }

  lemma PrefixHas(s: seq<Node>, t: seq<Node>, x: Node)
    requires s <= t
    ensures x in s ==> x in t
  {
    if i :| 0 <= i < |s| && s[i] == x {
      assert t[i] == x;
    }
  }

  lemma PrintedStays(t: Tree, u: Tree, source: Node, index: nat)
    requires t.lines <= u.lines
    ensures Printed(t, source, index) ==> Printed(u, source, index)
  {
    if Printed(t, source, index) {
      var k :| 0 <= k < |t.lines| && Prints(t.lines[k], source, index);
      assert u.lines[k] == t.lines[k];
    }
  }

  lemma GrowsTransitive(t: Tree, u: Tree, v: Tree)
    requires Grows(t, u) && Grows(u, v)
    ensures Grows(t, v)
  {}

  lemma NewItemsTransitive(t: Tree, u: Tree, v: Tree, path: Node, x: Node)
    requires Grows(t, u) && Grows(u, v) && NewItems(t, u, path) && NewItems(u, v, x) && (x == path || x !in t.seen)
    ensures NewItems(t, v, path)
  {
    forall k | |t.lines| <= k < |v.lines| && v.lines[k].Item?
      ensures v.lines[k].source == path || v.lines[k].source !in t.seen
    {
      if k < |u.lines| {
        assert v.lines[k] == u.lines[k];
      }
    }
  }

  lemma ItemsBelowStay(t: Tree, u: Tree, path: Node, x: Node, n: nat)
    requires Grows(t, u) && NewItems(t, u, x) && ItemsBelow(t, path, n) && path in t.seen && path != x
    ensures ItemsBelow(u, path, n)
  {
    forall k | 0 <= k < |u.lines| && u.lines[k].Item? && u.lines[k].source == path
      ensures u.lines[k].index < n
    {
      if k < |t.lines| {
        assert u.lines[k] == t.lines[k];
      }
    }
  }

  lemma ItemsBelowNext(t: Tree, item: Line, path: Node, n: nat)
    requires ItemsBelow(t, path, n) && Prints(item, path, n)
    ensures ItemsBelow(WithItem(t, item), path, n + 1)
    ensures Grows(t, WithItem(t, item)) && NewItems(t, WithItem(t, item), path)
  {}

  lemma ItemsBelowFresh(g: Graph, t: Tree, x: Node)
    requires ItemsOnce(g, t) && x !in t.seen
    ensures ItemsBelow(t, x, 0)
  {}
}
