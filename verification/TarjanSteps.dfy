// One visit of Tarjan's algorithm keeps the invariant, whichever branch it takes.
module TarjanSteps {
  import opened Graphs
  import opened TarjanInvariant

  ghost predicate SeenAll(s: State, n: nat, seen: seq<Node>, low: nat) {
    forall m :: 0 <= m < |seen| ==> seen[m] in s.indices && NoBackEdge(s, n, seen[m], low)
  }

  lemma ScanningParts(g: Graph, s0: State, s: State, gray: set<Node>, v: Node, seen: seq<Node>)
    requires Scanning(g, s0, s, gray, v, seen)
    ensures Inv(g, s, gray + {v}) && v !in s0.indices && v !in gray && Extends(s0, s)
    ensures |s0.stack| < |s.stack| && s.stack[|s0.stack|] == v
    ensures v in s.indices && v in s.lowLinks && s.indices[v] == s0.index && s.lowLinks[v] <= s.indices[v]
    ensures LowIsReached(g, s, v) && NoEscape(g, s, |s0.stack| + 1, |s0.stack|, s.lowLinks[v])
    ensures SeenAll(s, |s0.stack|, seen, s.lowLinks[v])
  {
    hide Inv, Extends, LowIsReached, NoEscape, NoBackEdge;
  }

  lemma ScanningFrom(g: Graph, s0: State, s: State, gray: set<Node>, v: Node, seen: seq<Node>)
    requires Inv(g, s, gray + {v}) && v !in s0.indices && v !in gray && Extends(s0, s)
    requires |s0.stack| < |s.stack| && s.stack[|s0.stack|] == v
    requires v in s.indices && v in s.lowLinks && s.indices[v] == s0.index && s.lowLinks[v] <= s.indices[v]
    requires LowIsReached(g, s, v) && NoEscape(g, s, |s0.stack| + 1, |s0.stack|, s.lowLinks[v])
    requires SeenAll(s, |s0.stack|, seen, s.lowLinks[v])
    ensures Scanning(g, s0, s, gray, v, seen)
  {
    hide Inv, Extends, LowIsReached, NoEscape, NoBackEdge;
  }

  lemma SeenNext(s: State, n: nat, seen: seq<Node>, y: Node, low: nat)
    requires SeenAll(s, n, seen, low) && y in s.indices && NoBackEdge(s, n, y, low)
    ensures SeenAll(s, n, seen + [y], low)
  {
    hide NoBackEdge;
  }

  lemma SeenLower(s: State, t: State, n: nat, seen: seq<Node>, low: nat, low': nat)
    requires SeenAll(s, n, seen, low) && low' <= low && s.stack <= t.stack
    requires forall x :: x in s.indices ==> x in t.indices && t.indices[x] == s.indices[x]
    ensures SeenAll(t, n, seen, low')
  {
    hide NoBackEdge;
    forall m | 0 <= m < |seen|
      ensures seen[m] in t.indices && NoBackEdge(t, n, seen[m], low')
    {
      NoBackEdgeLower(s, t, n, seen[m], low, low');
    }
  }

  lemma StateFacts(g: Graph, s: State, gray: set<Node>)
    requires Inv(g, s, gray)
    ensures s.lowLinks.Keys == s.indices.Keys && gray <= s.onStack
    ensures forall x :: x in s.indices ==> x in g.nodes && s.indices[x] < s.index
    ensures forall x :: x in s.onStack <==> x in s.stack
    ensures forall x :: x in s.onStack ==> x in s.indices
    ensures forall i :: 0 <= i < |s.stack| ==> s.stack[i] in s.indices
    ensures forall i, j :: 0 <= i < j < |s.stack| ==> s.indices[s.stack[i]] < s.indices[s.stack[j]]
  {
    hide BlackClosed, Closed, ToGray, Upward, Partition;
    OnStackVisited(s, gray);
  }

  lemma ExtendsFacts(s0: State, s: State)
    requires Extends(s0, s)
    ensures s0.index <= s.index && s0.stack <= s.stack
    ensures forall x :: x in s0.indices ==> x in s.indices && s.indices[x] == s0.indices[x]
    ensures forall x :: x in s0.lowLinks ==> x in s.lowLinks && s.lowLinks[x] == s0.lowLinks[x]
    ensures forall i :: |s0.stack| <= i < |s.stack| ==> s.stack[i] !in s0.indices
    ensures forall x :: x in s.indices && x !in s0.indices ==> s0.index <= s.indices[x]
  {}

  // ---------------------------------------------------------------------------------------------
  // An include of a node that is still on the stack

  lemma LowNumber(s: State, v: Node, n: nat)
    requires v in s.lowLinks
    ensures Lowered(s, v, n) == s || Lowered(s, v, n) == s.(lowLinks := s.lowLinks[v := n])
    ensures s.lowLinks[v] <= n ==> Lowered(s, v, n) == s
    ensures s.lowLinks[v] > n ==> Lowered(s, v, n) == s.(lowLinks := s.lowLinks[v := n])
  {
    assert s.lowLinks[v := s.lowLinks[v]] == s.lowLinks;
  }

  lemma ScanBack(g: Graph, s0: State, s: State, gray: set<Node>, v: Node, seen: seq<Node>, y: Node)
    requires Scanning(g, s0, s, gray, v, seen) && HasEdge(g, v, y) && y in s.onStack && y in s.indices && v in s.lowLinks
    requires s0.lowLinks.Keys == s0.indices.Keys
    ensures Scanning(g, s0, Lowered(s, v, s.indices[y]), gray, v, seen + [y])
  {
    hide *;
    ScanningParts(g, s0, s, gray, v, seen);
    var n := |s0.stack|;
    var t := Lowered(s, v, s.indices[y]);
    LoweredFields(s, v, s.indices[y]);
    LoweredInv(g, s, gray + {v}, v, s.indices[y]);
    LoweredExtends(s0, s, v, s.indices[y]);
    LowNumber(s, v, s.indices[y]);
    WitnessDirect(g, s, v, y);
    NoEscapeLower(g, s, t, n + 1, n, s.lowLinks[v], t.lowLinks[v]);
    SeenLower(s, t, n, seen, s.lowLinks[v], t.lowLinks[v]);
    BackEdgeTo(t, n, y, t.lowLinks[v]);
    SeenNext(t, n, seen, y, t.lowLinks[v]);
    ScanningFrom(g, s0, t, gray, v, seen + [y]);
  }

  lemma BackEdgeTo(s: State, n: nat, y: Node, low: nat)
    requires y in s.indices && low <= s.indices[y] && n <= |s.stack|
    ensures NoBackEdge(s, n, y, low)
  {}

  // ---------------------------------------------------------------------------------------------
  // An include of a node whose component is complete

  lemma ScanCross(g: Graph, s0: State, s: State, gray: set<Node>, v: Node, seen: seq<Node>, y: Node)
    requires Scanning(g, s0, s, gray, v, seen) && y in s.indices && y !in s.onStack
    ensures Scanning(g, s0, s, gray, v, seen + [y])
  {
    hide *;
    ScanningParts(g, s0, s, gray, v, seen);
    StateFacts(g, s, gray + {v});
    NotInLowerPart(s, |s0.stack|, y, s.lowLinks[v]);
    SeenNext(s, |s0.stack|, seen, y, s.lowLinks[v]);
    ScanningFrom(g, s0, s, gray, v, seen + [y]);
  }

  lemma NotInLowerPart(s: State, n: nat, y: Node, low: nat)
    requires y !in s.stack && n <= |s.stack|
    ensures NoBackEdge(s, n, y, low)
  {}

  // ---------------------------------------------------------------------------------------------
  // An include that is visited now

  lemma VisitedParts(g: Graph, s0: State, s: State, gray: set<Node>, v: Node)
    requires Visited(g, s0, s, gray, v)
    ensures Inv(g, s, gray) && Extends(s0, s)
    ensures v in s.indices && v in s.lowLinks && s.lowLinks[v] <= s.indices[v]
    ensures v in s.onStack ==> LowIsReached(g, s, v)
    ensures v !in s.onStack ==> s0.index <= s.lowLinks[v] && s.stack == s0.stack
    ensures NoEscape(g, s, |s0.stack|, |s0.stack|, s.lowLinks[v])
  {
    hide Inv, Extends, LowIsReached, NoEscape;
  }

  lemma StackGrows(s: State, t: State)
    requires s.stack <= t.stack
    requires forall x :: x in s.onStack <==> x in s.stack
    requires forall x :: x in t.onStack <==> x in t.stack
    ensures s.onStack <= t.onStack
  {
    forall x | x in s.onStack
      ensures x in t.onStack
    {
      var i :| 0 <= i < |s.stack| && s.stack[i] == x;
      assert t.stack[i] == x;
    }
  }

  /** The low link after a nested visit still belongs to a reachable node of the stack. */
  lemma TreeWitness(g: Graph, s: State, t: State, v: Node, y: Node)
    requires HasEdge(g, v, y) && v in g.nodes && LowIsReached(g, t, v)
    requires v in t.lowLinks && y in t.lowLinks
    requires y in t.onStack ==> LowIsReached(g, t, y)
    requires y !in t.onStack ==> t.lowLinks[v] <= t.lowLinks[y]
    ensures LowIsReached(g, Lowered(t, v, t.lowLinks[y]), v)
  {
    hide *;
    LowNumber(t, v, t.lowLinks[y]);
    if t.lowLinks[v] > t.lowLinks[y] {
      WitnessVia(g, t, v, y);
    }
  }

  lemma ScanTree(g: Graph, s0: State, s: State, t: State, gray: set<Node>, v: Node, seen: seq<Node>, y: Node)
    requires Scanning(g, s0, s, gray, v, seen) && HasEdge(g, v, y) && y !in s.indices
    requires Visited(g, s, t, gray + {v}, y) && v in t.lowLinks && y in t.lowLinks
    requires s0.lowLinks.Keys == s0.indices.Keys && s0.indices.Keys <= s.indices.Keys
    ensures Scanning(g, s0, Lowered(t, v, t.lowLinks[y]), gray, v, seen + [y])
  {
    hide *;
    ScanningParts(g, s0, s, gray, v, seen);
    VisitedParts(g, s, t, gray + {v}, y);
    StateFacts(g, s, gray + {v});
    StateFacts(g, t, gray + {v});
    ExtendsFacts(s, t);
    ExtendsTransitive(s0, s, t);
    StackGrows(s, t);
    WitnessCarries(g, s, t, v);
    TreeWitness(g, s, t, v, y);
    var n := |s0.stack|;
    var low := t.lowLinks[y];
    var r := Lowered(t, v, low);
    LoweredFields(t, v, low);
    LoweredInv(g, t, gray + {v}, v, low);
    LoweredExtends(s0, t, v, low);
    NoEscapeLower(g, s, s, n + 1, n, s.lowLinks[v], r.lowLinks[v]);
    NoEscapeLower(g, t, t, |s.stack|, |s.stack|, low, r.lowLinks[v]);
    NoEscapeJoin(g, s, t, n + 1, n, r.lowLinks[v], |s.stack|);
    NoEscapeLower(g, t, r, n + 1, n, r.lowLinks[v], r.lowLinks[v]);
    SeenLower(s, r, n, seen, s.lowLinks[v], r.lowLinks[v]);
    FreshNotBelow(s, r, n, y, r.lowLinks[v]);
    SeenNext(r, n, seen, y, r.lowLinks[v]);
    ScanningFrom(g, s0, r, gray, v, seen + [y]);
  }

  lemma FreshNotBelow(s: State, t: State, n: nat, y: Node, low: nat)
    requires s.stack <= t.stack && n <= |s.stack| && y !in s.indices
    requires forall i :: 0 <= i < |s.stack| ==> s.stack[i] in s.indices
    ensures NoBackEdge(t, n, y, low)
  {
    assert t.stack[..n] == s.stack[..n];
  }

  // ---------------------------------------------------------------------------------------------
  // Leaving a node

  /** Every include of v is among those seen. */
  ghost predicate SeesAll(g: Graph, v: Node, seen: seq<Node>) {
    forall y :: HasEdge(g, v, y) ==> y in seen
  }

  lemma BlackAfterScan(g: Graph, s: State, gray: set<Node>, v: Node, n: nat, seen: seq<Node>, low: nat)
    requires BlackClosed(g, s, gray + {v}) && SeesAll(g, v, seen) && SeenAll(s, n, seen, low)
    ensures BlackClosed(g, s, gray)
  {
    hide HasEdge, NoBackEdge;
    forall x, y | x in s.indices && x !in gray && HasEdge(g, x, y)
      ensures y in s.indices
    {
      if x == v {
        var m :| 0 <= m < |seen| && seen[m] == y;
        assert seen[m] in s.indices;
      }
    }
  }

  lemma NoEscapeWithRoot(g: Graph, s: State, v: Node, n: nat, seen: seq<Node>, low: nat)
    requires NoEscape(g, s, n + 1, n, low) && SeesAll(g, v, seen) && SeenAll(s, n, seen, low)
    requires n < |s.stack| && s.stack[n] == v
    ensures NoEscape(g, s, n, n, low)
  {
    hide HasEdge;
    forall i, j | n <= i < |s.stack| && 0 <= j < n && HasEdge(g, s.stack[i], s.stack[j]) && s.stack[j] in s.indices
      ensures low <= s.indices[s.stack[j]]
    {
      if i == n {
        var m :| 0 <= m < |seen| && seen[m] == s.stack[j];
        assert NoBackEdge(s, n, seen[m], low);
        assert s.stack[..n][j] == s.stack[j];
      }
    }
  }

  lemma OnStackHasGray(g: Graph, s: State, gray: set<Node>, x: Node)
    requires Stacked(s, gray) && ToGray(g, s, gray) && x in s.onStack
    ensures HasGrayBelow(g, s, gray, x)
  {
    hide HasGrayBelow;
    OnStackVisited(s, gray);
    var i :| 0 <= i < |s.stack| && s.stack[i] == x;
    assert HasGrayBelow(g, s, gray, s.stack[i]);
  }

  /** A node that is not the root of its component reaches a gray node below it. */
  lemma LowerGray(g: Graph, s: State, gray: set<Node>, v: Node)
    requires Stacked(s, gray + {v}) && ToGray(g, s, gray + {v})
    requires v in s.indices && v in s.lowLinks && s.lowLinks[v] < s.indices[v] && LowIsReached(g, s, v)
    ensures HasGrayBelow(g, s, gray, v)
  {
    hide Reaches, Stacked, ToGray;
    var w :| LowWitness(g, s, v, w);
    OnStackHasGray(g, s, gray + {v}, w);
    var y :| GrayBelow(g, s, gray + {v}, w, y);
    ReachesTransitive(g, v, w, y);
    assert GrayBelow(g, s, gray, v, y);
  }

  lemma GrayThrough(g: Graph, s: State, gray: set<Node>, v: Node, x: Node)
    requires HasGrayBelow(g, s, gray + {v}, x) && HasGrayBelow(g, s, gray, v)
    ensures HasGrayBelow(g, s, gray, x)
  {
    hide Reaches;
    var y :| GrayBelow(g, s, gray + {v}, x, y);
    var z :| GrayBelow(g, s, gray, v, z);
    if y == v {
      ReachesTransitive(g, x, v, z);
      assert GrayBelow(g, s, gray, x, z);
    } else {
      assert GrayBelow(g, s, gray, x, y);
    }
  }

  lemma ToGrayWithout(g: Graph, s: State, gray: set<Node>, v: Node)
    requires ToGray(g, s, gray + {v}) && HasGrayBelow(g, s, gray, v)
    ensures ToGray(g, s, gray)
  {
    hide HasGrayBelow;
    forall i | 0 <= i < |s.stack|
      ensures HasGrayBelow(g, s, gray, s.stack[i])
    {
      GrayThrough(g, s, gray, v, s.stack[i]);
    }
  }

  lemma StackedWithout(s: State, gray: set<Node>, v: Node)
    requires Stacked(s, gray + {v})
    ensures Stacked(s, gray) && gray <= s.onStack && v in s.onStack
  {}

  lemma VisitedFrom(g: Graph, s0: State, s: State, gray: set<Node>, v: Node)
    requires Inv(g, s, gray) && Extends(s0, s)
    requires v in s.indices && v in s.lowLinks && s.lowLinks[v] <= s.indices[v]
    requires v in s.onStack ==> LowIsReached(g, s, v)
    requires v !in s.onStack ==> s0.index <= s.lowLinks[v] && s.stack == s0.stack
    requires NoEscape(g, s, |s0.stack|, |s0.stack|, s.lowLinks[v])
    ensures Visited(g, s0, s, gray, v)
  {
    hide Inv, Extends, LowIsReached, NoEscape;
  }

  /** The visit of a node that is not the root of its component leaves it on the stack. */
  lemma LeaveBlack(g: Graph, s0: State, s: State, gray: set<Node>, v: Node, seen: seq<Node>)
    requires Scanning(g, s0, s, gray, v, seen) && SeesAll(g, v, seen)
    requires v in s.lowLinks && v in s.indices && s.lowLinks[v] != s.indices[v]
    ensures Visited(g, s0, s, gray, v)
  {
    hide *;
    ScanningParts(g, s0, s, gray, v, seen);
    InvParts(g, s, gray + {v});
    var n := |s0.stack|;
    BlackAfterScan(g, s, gray, v, n, seen, s.lowLinks[v]);
    StackedWithout(s, gray, v);
    LowerGray(g, s, gray, v);
    ToGrayWithout(g, s, gray, v);
    InvFrom(g, s, gray);
    NoEscapeWithRoot(g, s, v, n, seen, s.lowLinks[v]);
    VisitedFrom(g, s0, s, gray, v);
  }

  // ---------------------------------------------------------------------------------------------
  // Popping a component

  ghost function Top(s: State, n: nat): set<Node>
    requires n <= |s.stack|
  {
    Elements(s.stack[n..])
  }

  ghost function Popped(s: State, n: nat): State
    requires n <= |s.stack|
  {
    State(s.index, s.indices, s.lowLinks, s.stack[..n], s.onStack - Top(s, n), s.popped + [Top(s, n)])
  }

  lemma TopFacts(s: State, gray: set<Node>, n: nat)
    requires Stacked(s, gray) && n <= |s.stack|
    ensures forall x :: x in Top(s, n) <==> x in s.onStack && x in s.indices && exists i :: n <= i < |s.stack| && s.stack[i] == x
    ensures s.onStack - Top(s, n) == Elements(s.stack[..n])
  {
    assert s.stack == s.stack[..n] + s.stack[n..];
    forall x | x in Elements(s.stack[..n])
      ensures x !in Top(s, n)
    {
      var i :| 0 <= i < n && s.stack[i] == x;
      assert forall j :: n <= j < |s.stack| ==> s.indices[s.stack[i]] < s.indices[s.stack[j]];
    }
  }

  lemma PoppedFields(s: State, n: nat)
    requires n <= |s.stack|
    ensures var t := Popped(s, n);
            && t.index == s.index && t.indices == s.indices && t.lowLinks == s.lowLinks && t.stack == s.stack[..n]
            && t.onStack == s.onStack - Top(s, n) && t.popped == s.popped + [Top(s, n)]
  {}

  lemma PoppedStacked(s: State, gray: set<Node>, n: nat, v: Node)
    requires Stacked(s, gray + {v}) && n < |s.stack| && s.stack[n] == v && v !in gray
    requires forall y :: y in gray ==> y in s.indices && v in s.indices && s.indices[y] < s.indices[v]
    ensures Stacked(Popped(s, n), gray)
  {
    TopFacts(s, gray + {v}, n);
    hide Top;
    var t := Popped(s, n);
    forall y | y in gray
      ensures y in t.onStack
    {
      OnStackVisited(s, gray + {v});
      assert forall i :: n < i < |s.stack| ==> s.indices[v] < s.indices[s.stack[i]];
    }
    assert forall i :: 0 <= i < n ==> t.stack[i] == s.stack[i];
  }

  /** The nodes popped together with those popped before are closed under includes. */
  lemma PoppedClosed(g: Graph, s: State, gray: set<Node>, v: Node, n: nat, low: nat)
    requires Stacked(s, gray + {v}) && n < |s.stack| && s.stack[n] == v
    requires BlackClosed(g, s, gray) && Closed(g, Done(s)) && NoEscape(g, s, n, n, low)
    requires low == s.indices[v]
    requires forall y :: y in gray ==> y in s.indices && s.indices[y] < s.indices[v]
    ensures Done(Popped(s, n)) == Done(s) + Top(s, n)
    ensures Closed(g, Done(Popped(s, n)))
  {
    hide HasEdge;
    TopFacts(s, gray + {v}, n);
    OnStackVisited(s, gray + {v});
    hide Top, Elements;
    assert Done(Popped(s, n)) == Done(s) + Top(s, n);
    forall x, y | x in Done(s) + Top(s, n) && HasEdge(g, x, y)
      ensures y in Done(s) + Top(s, n)
    {
      if x in Top(s, n) {
        TopEdge(g, s, gray, v, n, x, y);
      }
    }
  }

  lemma TopEdge(g: Graph, s: State, gray: set<Node>, v: Node, n: nat, x: Node, y: Node)
    requires Stacked(s, gray + {v}) && n < |s.stack| && s.stack[n] == v
    requires BlackClosed(g, s, gray) && NoEscape(g, s, n, n, s.indices[v])
    requires forall y :: y in gray ==> y in s.indices && s.indices[y] < s.indices[v]
    requires x in Top(s, n) && HasEdge(g, x, y)
    ensures y in Done(s) + Top(s, n)
  {
    hide HasEdge;
    TopFacts(s, gray + {v}, n);
    OnStackVisited(s, gray + {v});
    hide Top, Elements;
    var i :| n <= i < |s.stack| && s.stack[i] == x;
    assert s.indices[v] <= s.indices[x];
    assert y in s.indices;
    if y in s.onStack {
      var j :| 0 <= j < |s.stack| && s.stack[j] == y;
      assert n <= j;
    }
  }

  /** The popped nodes reach each other. */
  lemma TopStrong(g: Graph, s: State, gray: set<Node>, v: Node, n: nat, x: Node)
    requires Stacked(s, gray + {v}) && n < |s.stack| && s.stack[n] == v && x in Top(s, n)
    requires ToGray(g, s, gray + {v}) && Upward(g, s.stack) && Closed(g, Done(s) + Top(s, n))
    requires forall y :: y in gray ==> y in s.onStack && y !in Top(s, n)
    ensures Mutual(g, v, x)
  {
    hide *;
    TopIsReached(g, s, gray + {v}, v, n, x);
    OnStackHasGray(g, s, gray + {v}, x);
    TopReturns(g, s, gray, v, n, x);
    MutualFrom(g, v, x);
  }

  lemma MutualFrom(g: Graph, x: Node, y: Node)
    requires Reaches(g, x, y) && Reaches(g, y, x)
    ensures Mutual(g, x, y)
  {}

  lemma TopIsReached(g: Graph, s: State, gray: set<Node>, v: Node, n: nat, x: Node)
    requires Stacked(s, gray) && n < |s.stack| && s.stack[n] == v && x in Top(s, n) && Upward(g, s.stack)
    ensures Reaches(g, v, x) && x in s.onStack
  {
    TopFacts(s, gray, n);
    hide Top, Elements, Reaches, Stacked;
    var i :| n <= i < |s.stack| && s.stack[i] == x;
    assert Reaches(g, s.stack[n], s.stack[i]);
  }

  lemma TopReturns(g: Graph, s: State, gray: set<Node>, v: Node, n: nat, x: Node)
    requires n <= |s.stack| && x in Top(s, n) && HasGrayBelow(g, s, gray + {v}, x)
    requires Closed(g, Done(s) + Top(s, n))
    requires forall y :: y in gray ==> y in s.onStack && y !in Top(s, n)
    ensures Reaches(g, x, v)
  {
    hide Top, Elements, Reaches, Closed;
    var y :| GrayBelow(g, s, gray + {v}, x, y);
    ClosedContains(g, Done(s) + Top(s, n), x, y);
  }

  /** The popped nodes are one component. */
  lemma TopComponent(g: Graph, s: State, gray: set<Node>, v: Node, n: nat)
    requires Stacked(s, gray + {v}) && n < |s.stack| && s.stack[n] == v
    requires ToGray(g, s, gray + {v}) && Upward(g, s.stack) && Closed(g, Done(s) + Top(s, n)) && Closed(g, Done(s))
    requires forall y :: y in gray ==> y in s.onStack && y !in Top(s, n)
    ensures IsComponent(g, Top(s, n))
  {
    TopFacts(s, gray + {v}, n);
    hide Top, Elements, Reaches, ToGray, Upward;
    assert v in Top(s, n) && v !in Done(s);
    forall x, y | x in Top(s, n) && y in Top(s, n)
      ensures Reaches(g, x, y)
    {
      TopStrong(g, s, gray, v, n, x);
      TopStrong(g, s, gray, v, n, y);
      ReachesTransitive(g, x, v, y);
    }
    forall x, y | x in Top(s, n) && Mutual(g, x, y)
      ensures y in Top(s, n)
    {
      ClosedContains(g, Done(s) + Top(s, n), x, y);
      if y in Done(s) {
        ClosedContains(g, Done(s), y, x);
      }
    }
  }

  lemma GrayNotTop(s: State, gray: set<Node>, v: Node, n: nat)
    requires Stacked(s, gray + {v}) && n < |s.stack| && s.stack[n] == v
    requires forall y :: y in gray ==> y in s.indices && s.indices[y] < s.indices[v]
    ensures forall y :: y in gray ==> y in s.onStack && y !in Top(s, n)
  {
    TopFacts(s, gray + {v}, n);
    hide Top, Elements;
    forall y | y in gray
      ensures y in s.onStack && y !in Top(s, n)
    {
      assert forall i :: n < i < |s.stack| ==> s.indices[v] < s.indices[s.stack[i]];
    }
  }

  lemma PoppedToGray(g: Graph, s: State, gray: set<Node>, v: Node, n: nat)
    requires Stacked(s, gray + {v}) && n < |s.stack| && s.stack[n] == v && ToGray(g, s, gray + {v})
    ensures ToGray(g, Popped(s, n), gray)
  {
    hide Reaches, Top;
    var t := Popped(s, n);
    forall i | 0 <= i < n
      ensures HasGrayBelow(g, t, gray, t.stack[i])
    {
      assert HasGrayBelow(g, s, gray + {v}, s.stack[i]);
      var y :| GrayBelow(g, s, gray + {v}, s.stack[i], y);
      assert s.indices[s.stack[i]] < s.indices[s.stack[n]];
      assert GrayBelow(g, t, gray, t.stack[i], y);
    }
  }

  lemma PoppedPartition(g: Graph, popped: seq<set<Node>>, done: set<Node>, c: set<Node>)
    requires Partition(g, popped, done) && IsComponent(g, c) && c !! done
    ensures Partition(g, popped + [c], done + c)
  {
    hide IsComponent;
    var q := popped + [c];
    forall x | x in done + c
      ensures exists i :: 0 <= i < |q| && x in q[i]
    {
      if x in done {
        var i :| 0 <= i < |popped| && x in popped[i];
        assert q[i] == popped[i];
      } else {
        assert q[|popped|] == c;
      }
    }
  }

  lemma PoppedRest(g: Graph, s: State, gray: set<Node>, n: nat)
    requires n <= |s.stack| && Numbered(g, s) && BlackClosed(g, s, gray) && Upward(g, s.stack)
    ensures Numbered(g, Popped(s, n)) && BlackClosed(g, Popped(s, n), gray) && Upward(g, Popped(s, n).stack)
  {
    hide Reaches, HasEdge, Top;
  }

  lemma TopNotDone(s: State, gray: set<Node>, n: nat)
    requires Stacked(s, gray) && n <= |s.stack|
    ensures Top(s, n) !! Done(s)
  {
    TopFacts(s, gray, n);
    hide Top;
  }

  lemma PoppedInv(g: Graph, s: State, gray: set<Node>, v: Node, n: nat)
    requires Inv(g, s, gray + {v}) && BlackClosed(g, s, gray) && v !in gray
    requires n < |s.stack| && s.stack[n] == v && v in s.indices && NoEscape(g, s, n, n, s.indices[v])
    requires forall y :: y in gray ==> y in s.indices && s.indices[y] < s.indices[v]
    ensures Inv(g, Popped(s, n), gray)
  {
    hide *;
    InvParts(g, s, gray + {v});
    GrayNotTop(s, gray, v, n);
    PoppedClosed(g, s, gray, v, n, s.indices[v]);
    TopComponent(g, s, gray, v, n);
    PoppedStacked(s, gray, n, v);
    PoppedToGray(g, s, gray, v, n);
    PoppedRest(g, s, gray, n);
    TopNotDone(s, gray + {v}, n);
    PoppedPartition(g, s.popped, Done(s), Top(s, n));
    PoppedFields(s, n);
    InvFrom(g, Popped(s, n), gray);
  }

  lemma PoppedExtends(s0: State, s: State)
    requires Extends(s0, s)
    ensures |s0.stack| <= |s.stack| && Extends(s0, Popped(s, |s0.stack|)) && Popped(s, |s0.stack|).stack == s0.stack
  {
    hide Top;
  }

  lemma NoEscapeEmpty(g: Graph, s: State, low: nat)
    ensures NoEscape(g, s, |s.stack|, |s.stack|, low)
  {}

  lemma RootInTop(s: State, n: nat, v: Node)
    requires n < |s.stack| && s.stack[n] == v
    ensures v !in Popped(s, n).onStack && v in Top(s, n)
  {
    assert s.stack[n..][0] == v;
  }

  /** The visit of the root of a component pops exactly that component. */
  lemma LeavePop(g: Graph, s0: State, s: State, gray: set<Node>, v: Node, seen: seq<Node>)
    requires Inv(g, s0, gray) && Scanning(g, s0, s, gray, v, seen) && SeesAll(g, v, seen)
    requires v in s.lowLinks && v in s.indices && s.lowLinks[v] == s.indices[v] && |s0.stack| <= |s.stack|
    ensures Visited(g, s0, Popped(s, |s0.stack|), gray, v)
    ensures IsComponent(g, Top(s, |s0.stack|))
  {
    hide *;
    ScanningParts(g, s0, s, gray, v, seen);
    InvParts(g, s, gray + {v});
    StateFacts(g, s0, gray);
    ExtendsFacts(s0, s);
    var n := |s0.stack|;
    BlackAfterScan(g, s, gray, v, n, seen, s.lowLinks[v]);
    NoEscapeWithRoot(g, s, v, n, seen, s.lowLinks[v]);
    PoppedInv(g, s, gray, v, n);
    PoppedExtends(s0, s);
    PoppedFields(s, n);
    RootInTop(s, n, v);
    NoEscapeEmpty(g, Popped(s, n), s.lowLinks[v]);
    VisitedFrom(g, s0, Popped(s, n), gray, v);
    GrayNotTop(s, gray, v, n);
    PoppedClosed(g, s, gray, v, n, s.indices[v]);
    TopComponent(g, s, gray, v, n);
  }
}
