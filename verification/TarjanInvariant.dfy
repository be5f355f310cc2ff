// The invariant of Tarjan's algorithm, step by step.
module TarjanInvariant {
  import opened Graphs

  /** The variables shared by the recursive visits, with all components popped so far. */
  datatype State = State(
    index: nat,
    indices: map<Node, nat>,
    lowLinks: map<Node, nat>,
    stack: seq<Node>,
    onStack: set<Node>,
    popped: seq<set<Node>>)

  ghost function Elements(s: seq<Node>): set<Node> {
    set x | x in s
  }

  /** The nodes of components that have been popped. */
  ghost function Done(s: State): set<Node> {
    s.indices.Keys - s.onStack
  }

  /** A largest set of nodes that reach each other. */
  ghost predicate IsComponent(g: Graph, c: set<Node>) {
    && c != {}
    && (forall x, y :: x in c && y in c ==> Reaches(g, x, y))
    && (forall x, y :: x in c && Mutual(g, x, y) ==> y in c)
  }

  // ---------------------------------------------------------------------------------------------
  // The invariant; gray nodes are those whose visit is still running

  ghost predicate Numbered(g: Graph, s: State) {
    && s.lowLinks.Keys == s.indices.Keys
    && (forall x :: x in s.indices ==> x in g.nodes && s.indices[x] < s.index)
    && (forall x, y :: x in s.indices && y in s.indices && s.indices[x] == s.indices[y] ==> x == y)
  }

  ghost predicate Stacked(s: State, gray: set<Node>) {
    && s.onStack == Elements(s.stack)
    && gray <= s.onStack
    && (forall i :: 0 <= i < |s.stack| ==> s.stack[i] in s.indices)
    && (forall i, j :: 0 <= i < j < |s.stack| ==> s.indices[s.stack[i]] < s.indices[s.stack[j]])
  }

  /** Everything included by a node whose visit has ended has been visited. */
  ghost predicate BlackClosed(g: Graph, s: State, gray: set<Node>) {
    forall x, y :: x in s.indices && x !in gray && HasEdge(g, x, y) ==> y in s.indices
  }

  ghost predicate GrayBelow(g: Graph, s: State, gray: set<Node>, x: Node, y: Node) {
    x in s.indices && y in gray && y in s.indices && s.indices[y] <= s.indices[x] && Reaches(g, x, y)
  }

  ghost predicate HasGrayBelow(g: Graph, s: State, gray: set<Node>, x: Node) {
    exists y :: GrayBelow(g, s, gray, x, y)
  }

  /** Every node of the stack reaches a gray node at or below it. */
  ghost predicate ToGray(g: Graph, s: State, gray: set<Node>) {
    forall i :: 0 <= i < |s.stack| ==> HasGrayBelow(g, s, gray, s.stack[i])
  }

  ghost predicate Upward(g: Graph, stack: seq<Node>) {
    forall i, j :: 0 <= i <= j < |stack| ==> Reaches(g, stack[i], stack[j])
  }

  ghost predicate Partition(g: Graph, popped: seq<set<Node>>, done: set<Node>) {
    && (forall i :: 0 <= i < |popped| ==> IsComponent(g, popped[i]) && popped[i] <= done)
    && (forall i, j :: 0 <= i < j < |popped| ==> popped[i] !! popped[j])
    && (forall x :: x in done ==> exists i :: 0 <= i < |popped| && x in popped[i])
  }

  ghost predicate Inv(g: Graph, s: State, gray: set<Node>) {
    && Numbered(g, s)
    && Stacked(s, gray)
    && BlackClosed(g, s, gray)
    && Closed(g, Done(s))
    && ToGray(g, s, gray)
    && Upward(g, s.stack)
    && Partition(g, s.popped, Done(s))
  }

  lemma InvParts(g: Graph, s: State, gray: set<Node>)
    requires Inv(g, s, gray)
    ensures Numbered(g, s) && Stacked(s, gray) && BlackClosed(g, s, gray) && Closed(g, Done(s))
    ensures ToGray(g, s, gray) && Upward(g, s.stack) && Partition(g, s.popped, Done(s))
  {}

  lemma InvFrom(g: Graph, s: State, gray: set<Node>)
    requires Numbered(g, s) && Stacked(s, gray) && BlackClosed(g, s, gray) && Closed(g, Done(s))
    requires ToGray(g, s, gray) && Upward(g, s.stack) && Partition(g, s.popped, Done(s))
    ensures Inv(g, s, gray)
  {}

  // ---------------------------------------------------------------------------------------------
  // Entering a node

  function Entered(s: State, v: Node): State {
    State(s.index + 1, s.indices[v := s.index], s.lowLinks[v := s.index], s.stack + [v], s.onStack + {v}, s.popped)
  }

  lemma EnterNumbered(g: Graph, s: State, v: Node)
    requires Numbered(g, s) && v in g.nodes && v !in s.indices
    ensures Numbered(g, Entered(s, v))
  {}

  lemma ElementsOfAppend(s: seq<Node>, v: Node)
    ensures Elements(s + [v]) == Elements(s) + {v}
  {}

  lemma EnterStacked(g: Graph, s: State, gray: set<Node>, v: Node)
    requires Numbered(g, s) && Stacked(s, gray) && v !in s.indices
    ensures Stacked(Entered(s, v), gray + {v})
  {
    ElementsOfAppend(s.stack, v);
    hide Elements;
    var t := Entered(s, v);
    forall i | 0 <= i < |s.stack|
      ensures t.stack[i] == s.stack[i] && t.indices[t.stack[i]] == s.indices[s.stack[i]] < s.index
    {}
  }

  lemma EnterClosed(g: Graph, s: State, gray: set<Node>, v: Node)
    requires BlackClosed(g, s, gray) && Closed(g, Done(s)) && v !in s.indices
    ensures BlackClosed(g, Entered(s, v), gray + {v})
    ensures Done(Entered(s, v)) == Done(s) && Closed(g, Done(Entered(s, v)))
  {
    assert Done(Entered(s, v)) == Done(s);
    hide Done, HasEdge;
  }

  lemma EnterToGray(g: Graph, s: State, gray: set<Node>, v: Node)
    requires Stacked(s, gray) && ToGray(g, s, gray) && v !in s.indices && v in g.nodes
    requires Stacked(Entered(s, v), gray + {v})
    ensures ToGray(g, Entered(s, v), gray + {v})
  {
    hide Reaches;
    var t := Entered(s, v);
    forall i | 0 <= i < |t.stack|
      ensures HasGrayBelow(g, t, gray + {v}, t.stack[i])
    {
      if i < |s.stack| {
        assert HasGrayBelow(g, s, gray, s.stack[i]);
        var y :| GrayBelow(g, s, gray, s.stack[i], y);
        assert GrayBelow(g, t, gray + {v}, t.stack[i], y);
      } else {
        ReachesSelf(g, v);
        assert GrayBelow(g, t, gray + {v}, v, v);
      }
    }
  }

  lemma StackReachesGray(g: Graph, s: State, gray: set<Node>, v: Node, i: nat)
    requires Stacked(s, gray) && ToGray(g, s, gray) && i < |s.stack|
    requires forall y :: y in gray ==> Reaches(g, y, v)
    ensures Reaches(g, s.stack[i], v)
  {
    hide Reaches;
    assert HasGrayBelow(g, s, gray, s.stack[i]);
    var y :| GrayBelow(g, s, gray, s.stack[i], y);
    ReachesTransitive(g, s.stack[i], y, v);
  }

  lemma EnterUpward(g: Graph, s: State, gray: set<Node>, v: Node)
    requires Stacked(s, gray) && ToGray(g, s, gray) && Upward(g, s.stack) && v in g.nodes
    requires forall y :: y in gray ==> Reaches(g, y, v)
    ensures Upward(g, Entered(s, v).stack)
  {
    hide Reaches, ToGray;
    var t := s.stack + [v];
    ReachesSelf(g, v);
    forall i, j | 0 <= i <= j < |t|
      ensures Reaches(g, t[i], t[j])
    {
      if i < j == |s.stack| {
        StackReachesGray(g, s, gray, v, i);
      }
    }
  }

  lemma EnterInv(g: Graph, s: State, gray: set<Node>, v: Node)
    requires Inv(g, s, gray) && v in g.nodes && v !in s.indices
    requires forall y :: y in gray ==> Reaches(g, y, v)
    ensures Inv(g, Entered(s, v), gray + {v})
  {
    hide *;
    InvParts(g, s, gray);
    EnterNumbered(g, s, v);
    EnterStacked(g, s, gray, v);
    EnterClosed(g, s, gray, v);
    EnterToGray(g, s, gray, v);
    EnterUpward(g, s, gray, v);
    EnteredFields(s, v);
    InvFrom(g, Entered(s, v), gray + {v});
  }

  lemma EnteredFields(s: State, v: Node)
    ensures Entered(s, v).popped == s.popped && Entered(s, v).stack == s.stack + [v]
    ensures v in Entered(s, v).indices && Entered(s, v).indices[v] == s.index == Entered(s, v).lowLinks[v]
  {}

  // ---------------------------------------------------------------------------------------------
  // What a visit leaves behind

  /** Nothing that was known before the visit of a node has changed; what is new has a new number. */
  ghost predicate Extends(s0: State, s: State) {
    && s0.index <= s.index
    && (forall x :: x in s0.indices ==> x in s.indices && s.indices[x] == s0.indices[x])
    && (forall x :: x in s0.lowLinks ==> x in s.lowLinks && s.lowLinks[x] == s0.lowLinks[x])
    && (forall x :: x in s.indices && x !in s0.indices ==> s0.index <= s.indices[x])
    && s0.stack <= s.stack
    && (forall i :: |s0.stack| <= i < |s.stack| ==> s.stack[i] !in s0.indices)
  }

  ghost predicate LowWitness(g: Graph, s: State, v: Node, y: Node) {
    v in s.lowLinks && y in s.onStack && y in s.indices && s.indices[y] == s.lowLinks[v] && Reaches(g, v, y)
  }

  /** The low link is the number of a node of the stack that is reachable. */
  ghost predicate LowIsReached(g: Graph, s: State, v: Node) {
    exists y :: LowWitness(g, s, v, y)
  }

  /** No node of the stack from one place on includes a node before another place with a smaller number. */
  ghost predicate NoEscape(g: Graph, s: State, from: nat, n: nat, low: nat) {
    forall i, j ::
      (from <= i < |s.stack| && 0 <= j < n && j < |s.stack| && HasEdge(g, s.stack[i], s.stack[j]) && s.stack[j] in s.indices)
      ==> low <= s.indices[s.stack[j]]
  }

  ghost predicate Visited(g: Graph, s0: State, s: State, gray: set<Node>, v: Node) {
    && Inv(g, s, gray)
    && Extends(s0, s)
    && v in s.indices && v in s.lowLinks && s.lowLinks[v] <= s.indices[v]
    && (v in s.onStack ==> LowIsReached(g, s, v))
    && (v !in s.onStack ==> s0.index <= s.lowLinks[v] && s.stack == s0.stack)
    && NoEscape(g, s, |s0.stack|, |s0.stack|, s.lowLinks[v])
  }

  /** The visit of a node after some of its includes. */
  ghost predicate Scanning(g: Graph, s0: State, s: State, gray: set<Node>, v: Node, seen: seq<Node>) {
    && Inv(g, s, gray + {v})
    && v !in s0.indices && v !in gray
    && Extends(s0, s)
    && |s0.stack| < |s.stack| && s.stack[|s0.stack|] == v
    && v in s.indices && v in s.lowLinks && s.indices[v] == s0.index && s.lowLinks[v] <= s.indices[v]
    && LowIsReached(g, s, v)
    && NoEscape(g, s, |s0.stack| + 1, |s0.stack|, s.lowLinks[v])
    && forall m :: 0 <= m < |seen| ==> seen[m] in s.indices && NoBackEdge(s, |s0.stack|, seen[m], s.lowLinks[v])
  }

  /** If a node is in the lower part of the stack, its number is no smaller than the low link. */
  ghost predicate NoBackEdge(s: State, n: nat, y: Node, low: nat) {
    n <= |s.stack| && (y in s.stack[..n] && y in s.indices ==> low <= s.indices[y])
  }

  lemma ScanFirst(g: Graph, s0: State, gray: set<Node>, v: Node)
    requires Inv(g, s0, gray) && v in g.nodes && v !in s0.indices
    requires forall y :: y in gray ==> Reaches(g, y, v)
    ensures Scanning(g, s0, Entered(s0, v), gray, v, [])
  {
    EnterInv(g, s0, gray, v);
    InvParts(g, s0, gray);
    EnterExtends(g, s0, v);
    EnterLow(g, s0, v);
    OnStackVisited(s0, gray);
    hide Inv, ToGray, Upward, Partition, BlackClosed, Closed, Extends, LowIsReached, Elements;
  }

  lemma OnStackVisited(s: State, gray: set<Node>)
    requires Stacked(s, gray)
    ensures forall x :: x in s.onStack ==> x in s.indices && x in s.stack
    ensures forall x :: x in s.stack ==> x in s.onStack
    ensures gray <= s.onStack
  {}

  lemma EnterExtends(g: Graph, s0: State, v: Node)
    requires v !in s0.indices && s0.lowLinks.Keys == s0.indices.Keys
    ensures Extends(s0, Entered(s0, v))
  {}

  lemma EnterLow(g: Graph, s0: State, v: Node)
    requires v in g.nodes
    ensures LowIsReached(g, Entered(s0, v), v)
  {
    ReachesSelf(g, v);
    hide Reaches;
    assert LowWitness(g, Entered(s0, v), v, v);
  }

  // ---------------------------------------------------------------------------------------------
  // Lowering the low link

  function Lowered(s: State, v: Node, n: nat): State
    requires v in s.lowLinks
  {
    s.(lowLinks := s.lowLinks[v := if s.lowLinks[v] <= n then s.lowLinks[v] else n])
  }

  lemma LoweredInv(g: Graph, s: State, gray: set<Node>, v: Node, n: nat)
    requires Inv(g, s, gray) && v in s.lowLinks
    ensures Inv(g, Lowered(s, v, n), gray)
  {
    hide Reaches, HasEdge, Partition, Closed;
    var t := Lowered(s, v, n);
    assert t.lowLinks.Keys == s.lowLinks.Keys;
    assert Done(t) == Done(s);
    forall i | 0 <= i < |t.stack|
      ensures HasGrayBelow(g, t, gray, t.stack[i])
    {
      assert HasGrayBelow(g, s, gray, s.stack[i]);
      var y :| GrayBelow(g, s, gray, s.stack[i], y);
      assert GrayBelow(g, t, gray, t.stack[i], y);
    }
  }

  lemma LoweredFields(s: State, v: Node, n: nat)
    requires v in s.lowLinks
    ensures var t := Lowered(s, v, n);
            && t.index == s.index && t.indices == s.indices && t.stack == s.stack && t.onStack == s.onStack && t.popped == s.popped
            && v in t.lowLinks && t.lowLinks[v] == (if s.lowLinks[v] <= n then s.lowLinks[v] else n)
            && t.lowLinks.Keys == s.lowLinks.Keys && forall x :: x in s.lowLinks && x != v ==> t.lowLinks[x] == s.lowLinks[x]
  {}

  // ---------------------------------------------------------------------------------------------
  // One more include

  lemma WitnessCarries(g: Graph, s: State, t: State, v: Node)
    requires LowIsReached(g, s, v)
    requires s.onStack <= t.onStack && Extends(s, t) && v in s.lowLinks
    ensures LowIsReached(g, t, v)
  {
    hide Reaches;
    var y :| LowWitness(g, s, v, y);
    assert LowWitness(g, t, v, y);
  }

  lemma WitnessVia(g: Graph, s: State, v: Node, x: Node)
    requires HasEdge(g, v, x) && LowIsReached(g, s, x) && x in s.lowLinks && v in s.lowLinks
    requires v in g.nodes
    ensures LowIsReached(g, s.(lowLinks := s.lowLinks[v := s.lowLinks[x]]), v)
  {
    hide Reaches, HasEdge;
    var y :| LowWitness(g, s, x, y);
    ReachesEdge(g, v, x);
    ReachesTransitive(g, v, x, y);
    assert LowWitness(g, s.(lowLinks := s.lowLinks[v := s.lowLinks[x]]), v, y);
  }

  lemma WitnessDirect(g: Graph, s: State, v: Node, x: Node)
    requires HasEdge(g, v, x) && x in s.onStack && x in s.indices
    ensures LowIsReached(g, s.(lowLinks := s.lowLinks[v := s.indices[x]]), v)
  {
    ReachesEdge(g, v, x);
    hide Reaches, HasEdge;
    assert LowWitness(g, s.(lowLinks := s.lowLinks[v := s.indices[x]]), v, x);
  }

  /** Extending twice. */
  lemma ExtendsTransitive(s0: State, s: State, t: State)
    requires Extends(s0, s) && Extends(s, t) && s0.indices.Keys <= s.indices.Keys
    ensures Extends(s0, t)
  {}

  lemma LoweredExtends(s0: State, s: State, v: Node, n: nat)
    requires Extends(s0, s) && v in s.lowLinks && v !in s0.lowLinks
    ensures Extends(s0, Lowered(s, v, n))
  {}

  /** A smaller low link keeps every promise about escapes. */
  lemma NoEscapeLower(g: Graph, s: State, t: State, from: nat, n: nat, low: nat, low': nat)
    requires NoEscape(g, s, from, n, low) && low' <= low
    requires t.stack == s.stack && t.indices == s.indices
    ensures NoEscape(g, t, from, n, low')
  {
    hide HasEdge;
  }

  /** The part of the stack that a nested visit added escapes no further than its own low link. */
  lemma NoEscapeJoin(g: Graph, s: State, t: State, from: nat, n: nat, low: nat, m: nat)
    requires NoEscape(g, s, from, n, low) && NoEscape(g, t, m, m, low) && m == |s.stack| && n <= from <= m
    requires s.stack <= t.stack && (forall x :: x in s.indices ==> x in t.indices && t.indices[x] == s.indices[x])
    requires forall i :: 0 <= i < |s.stack| ==> s.stack[i] in s.indices
    ensures NoEscape(g, t, from, n, low)
  {
    hide HasEdge;
    forall i, j | from <= i < |t.stack| && 0 <= j < n && HasEdge(g, t.stack[i], t.stack[j]) && t.stack[j] in t.indices
      ensures low <= t.indices[t.stack[j]]
    {
      assert t.stack[j] == s.stack[j];
      if i < m {
        assert t.stack[i] == s.stack[i];
      }
    }
  }

  lemma NoBackEdgeLower(s: State, t: State, n: nat, y: Node, low: nat, low': nat)
    requires NoBackEdge(s, n, y, low) && low' <= low && y in s.indices
    requires s.stack <= t.stack && (forall x :: x in s.indices ==> x in t.indices && t.indices[x] == s.indices[x])
    ensures NoBackEdge(t, n, y, low')
  {
    assert t.stack[..n] == s.stack[..n];
  }
}
