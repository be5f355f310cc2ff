// Shortest include paths by breadth-first search, with the goal tested on discovery.
module ShortestPaths {
  import opened Wrappers
  import opened Graphs
  import opened PathOrder

  /** The search: predecessors, the queue, and for every discovered node the path recorded for it. */
  datatype Search = Search(previous: map<Node, Option<Node>>, queue: seq<Node>, paths: map<Node, seq<Node>>)

  ghost function Distance(s: Search, x: Node): int
    requires x in s.paths
  {
    |s.paths[x]| - 1
  }

  ghost predicate Recorded(g: Graph, source: Node, s: Search) {
    && s.previous.Keys == s.paths.Keys
    && source in s.paths
    && (forall x :: x in s.paths ==> PathBetween(g, s.paths[x], source, x))
    && (forall x :: x in s.previous && s.previous[x].None? ==> s.paths[x] == [x])
    && (forall x :: x in s.previous && s.previous[x].Some? ==>
          s.previous[x].value in s.paths && s.paths[x] == s.paths[s.previous[x].value] + [x])
  }

  /** Queued nodes are ordered by distance, spread over at most two distances. */
  ghost predicate Ordered(s: Search) {
    && (forall i :: 0 <= i < |s.queue| ==> s.queue[i] in s.paths)
    && (forall i, j :: 0 <= i <= j < |s.queue| ==>
          Distance(s, s.queue[i]) <= Distance(s, s.queue[j]) <= Distance(s, s.queue[i]) + 1)
  }

  /** Every include of a node that has left the queue is recorded at most one step further. */
  ghost predicate Explored(g: Graph, s: Search, open: seq<Node>) {
    forall x, y :: x in s.paths && x !in open && HasEdge(g, x, y) ==>
      y in s.paths && Distance(s, y) <= Distance(s, x) + 1
  }

  /** Every path of at most d steps leads to a recorded node, recorded with no longer path. */
  ghost predicate Complete(g: Graph, source: Node, s: Search, d: int) {
    forall p, x :: PathBetween(g, p, source, x) && |p| - 1 <= d ==> x in s.paths && Distance(s, x) <= |p| - 1
  }

  lemma SearchFirst(g: Graph, source: Node)
    requires source in g.nodes
    ensures var s := Search(map[source := None], [source], map[source := [source]]);
            Recorded(g, source, s) && Ordered(s) && Explored(g, s, s.queue) && Complete(g, source, s, 0)
  {
    hide HasEdge;
    var s := Search(map[source := None], [source], map[source := [source]]);
    forall p, x | PathBetween(g, p, source, x) && |p| - 1 <= 0
      ensures x in s.paths && Distance(s, x) <= |p| - 1
    {
      assert |p| == 1;
    }
  }

  function Discovered(s: Search, current: Node, x: Node): Search
    requires current in s.paths
  {
    Search(s.previous[x := Some(current)], s.queue + [x], s.paths[x := s.paths[current] + [x]])
  }

  lemma DiscoverRecorded(g: Graph, source: Node, s: Search, current: Node, x: Node)
    requires Recorded(g, source, s) && current in s.paths && x !in s.paths && HasEdge(g, current, x)
    ensures Recorded(g, source, Discovered(s, current, x))
  {
    PathAppend(g, s.paths[current], source, current, x);
    hide PathBetween, HasEdge;
  }

  /** Queued nodes are at distance d or d + 1. */
  ghost predicate Around(s: Search, d: int) {
    Ordered(s) && forall i :: 0 <= i < |s.queue| ==> d <= Distance(s, s.queue[i]) <= d + 1
  }

  lemma DiscoverOrdered(s: Search, current: Node, x: Node, d: int)
    requires current in s.paths && x !in s.paths && Around(s, d) && Distance(s, current) == d
    ensures Around(Discovered(s, current, x), d)
  {
    var t := Discovered(s, current, x);
    assert Distance(t, x) == d + 1;
    forall i | 0 <= i < |s.queue|
      ensures t.queue[i] == s.queue[i] && Distance(t, t.queue[i]) == Distance(s, s.queue[i])
    {}
    hide Distance;
  }

  lemma DiscoverExplored(g: Graph, s: Search, current: Node, x: Node)
    requires current in s.paths && x !in s.paths && Explored(g, s, s.queue + [current])
    ensures Explored(g, Discovered(s, current, x), Discovered(s, current, x).queue + [current])
  {
    hide HasEdge;
  }

  lemma DiscoverComplete(g: Graph, source: Node, s: Search, current: Node, x: Node, d: int)
    requires current in s.paths && x !in s.paths && Complete(g, source, s, d)
    ensures Complete(g, source, Discovered(s, current, x), d)
  {
    hide PathBetween;
  }

  /** The includes of the current node that have been looked at. */
  ghost predicate LookedAt(s: Search, seen: seq<Node>, d: int) {
    forall y :: y in seen ==> y in s.paths && Distance(s, y) <= d + 1
  }

  lemma DiscoverLookedAt(s: Search, current: Node, x: Node, seen: seq<Node>, d: int)
    requires current in s.paths && x !in s.paths && LookedAt(s, seen, d) && Distance(s, current) == d
    ensures LookedAt(Discovered(s, current, x), seen + [x], d)
  {}

  lemma SkipLookedAt(s: Search, x: Node, seen: seq<Node>, d: int)
    requires x in s.paths && LookedAt(s, seen, d) && Within(s, d)
    ensures LookedAt(s, seen + [x], d)
  {
    hide Distance;
  }

  /** Nothing is recorded further than one step beyond the current distance. */
  ghost predicate Within(s: Search, d: int) {
    forall x :: x in s.paths ==> Distance(s, x) <= d + 1
  }

  lemma DiscoverWithin(s: Search, current: Node, x: Node, d: int)
    requires current in s.paths && x !in s.paths && Within(s, d) && Distance(s, current) == d
    ensures Within(Discovered(s, current, x), d)
  {}

  lemma ExploredCurrent(g: Graph, s: Search, current: Node, seen: seq<Node>, d: int)
    requires Explored(g, s, s.queue + [current]) && LookedAt(s, seen, d)
    requires current in s.paths && Distance(s, current) == d
    requires forall y :: HasEdge(g, current, y) ==> y in seen
    ensures Explored(g, s, s.queue)
  {
    hide HasEdge, Distance;
    forall x, y | x in s.paths && x !in s.queue && HasEdge(g, x, y)
      ensures y in s.paths && Distance(s, y) <= Distance(s, x) + 1
    {
      if x != current {
        assert x !in s.queue + [current];
      }
    }
  }

  /** When the queue has moved on to distance d + 1, all paths of d + 1 steps are accounted for. */
  lemma CompleteNext(g: Graph, source: Node, s: Search, d: int)
    requires Complete(g, source, s, d) && Explored(g, s, s.queue)
    requires forall x :: x in s.queue ==> x in s.paths && Distance(s, x) >= d + 1
    requires 0 <= d
    ensures Complete(g, source, s, d + 1)
  {
    forall p, x | PathBetween(g, p, source, x) && |p| - 1 <= d + 1
      ensures x in s.paths && Distance(s, x) <= |p| - 1
    {
      if |p| - 1 == d + 1 {
        PathFront(g, p, source, x);
        hide PathBetween, HasEdge;
        assert p[|p| - 2] in s.paths && Distance(s, p[|p| - 2]) <= d;
      }
    }
  }

  /** The state between two rounds of the search. */
  ghost predicate Between(g: Graph, source: Node, target: Node, s: Search) {
    && Recorded(g, source, s) && Ordered(s) && Explored(g, s, s.queue) && target !in s.paths
    && (s.queue != [] ==> s.queue[0] in s.paths && Complete(g, source, s, Distance(s, s.queue[0])) && Within(s, Distance(s, s.queue[0])))
  }

  /** The state inside a round. */
  ghost predicate Inside(g: Graph, source: Node, target: Node, s: Search, current: Node, seen: seq<Node>, d: int) {
    && Recorded(g, source, s) && Around(s, d) && Explored(g, s, s.queue + [current]) && target !in s.paths
    && current in s.paths && Distance(s, current) == d && d >= 0
    && Complete(g, source, s, d) && LookedAt(s, seen, d) && Within(s, d)
  }

  lemma RoundFirst(g: Graph, source: Node, target: Node, s: Search)
    requires Between(g, source, target, s) && s.queue != []
    ensures s.queue[0] in s.paths
    ensures Inside(g, source, target, s.(queue := s.queue[1..]), s.queue[0], [], Distance(s, s.queue[0]))
  {
    BetweenParts(g, source, target, s);
    hide *;
    var t := s.(queue := s.queue[1..]);
    var current := s.queue[0];
    PathLong(g, source, s, current);
    PopRecorded(g, source, s, Distance(s, current));
    PopAround(s);
    PopExplored(g, s);
    InsideFrom(g, source, target, t, current, Distance(s, current));
  }

  lemma BetweenParts(g: Graph, source: Node, target: Node, s: Search)
    requires Between(g, source, target, s) && s.queue != []
    ensures Recorded(g, source, s) && Ordered(s) && Explored(g, s, s.queue) && target !in s.paths
    ensures s.queue[0] in s.paths && Complete(g, source, s, Distance(s, s.queue[0])) && Within(s, Distance(s, s.queue[0]))
  {
    hide Recorded, Ordered, Explored, Complete, Within, Distance;
  }

  lemma PopRecorded(g: Graph, source: Node, s: Search, d: int)
    requires Recorded(g, source, s) && Complete(g, source, s, d) && Within(s, d) && s.queue != []
    ensures var t := s.(queue := s.queue[1..]); Recorded(g, source, t) && Complete(g, source, t, d) && Within(t, d)
    ensures var t := s.(queue := s.queue[1..]); forall x :: x in s.paths ==> Distance(t, x) == Distance(s, x)
  {
    hide PathBetween;
  }

  lemma PopAround(s: Search)
    requires Ordered(s) && s.queue != []
    ensures s.queue[0] in s.paths && Around(s.(queue := s.queue[1..]), Distance(s, s.queue[0]))
  {
    var t := s.(queue := s.queue[1..]);
    assert forall i :: 0 <= i < |t.queue| ==> t.queue[i] == s.queue[i + 1] && s.queue[i + 1] in s.paths;
    assert forall x :: x in s.paths ==> Distance(t, x) == Distance(s, x);
    hide Distance;
  }

  lemma PopExplored(g: Graph, s: Search)
    requires Explored(g, s, s.queue) && s.queue != []
    ensures Explored(g, s.(queue := s.queue[1..]), s.queue[1..] + [s.queue[0]])
  {
    hide HasEdge;
    assert s.queue == [s.queue[0]] + s.queue[1..];
  }

  lemma InsideFrom(g: Graph, source: Node, target: Node, s: Search, current: Node, d: int)
    requires Recorded(g, source, s) && Around(s, d) && Explored(g, s, s.queue + [current]) && target !in s.paths
    requires current in s.paths && Distance(s, current) == d && d >= 0
    requires Complete(g, source, s, d) && Within(s, d)
    ensures Inside(g, source, target, s, current, [], d)
  {
    hide Recorded, Around, Explored, Complete, Within, Distance;
  }

  lemma InsideParts(g: Graph, source: Node, target: Node, s: Search, current: Node, seen: seq<Node>, d: int)
    requires Inside(g, source, target, s, current, seen, d)
    ensures Recorded(g, source, s) && Around(s, d) && Explored(g, s, s.queue + [current]) && target !in s.paths
    ensures current in s.paths && Distance(s, current) == d && d >= 0
    ensures Complete(g, source, s, d) && LookedAt(s, seen, d) && Within(s, d) && s.previous.Keys == s.paths.Keys
  {
    hide Around, Explored, Complete, Within, Distance, LookedAt;
  }

  lemma InsideJoin(g: Graph, source: Node, target: Node, s: Search, current: Node, seen: seq<Node>, d: int)
    requires Recorded(g, source, s) && Around(s, d) && Explored(g, s, s.queue + [current]) && target !in s.paths
    requires current in s.paths && Distance(s, current) == d && d >= 0
    requires Complete(g, source, s, d) && LookedAt(s, seen, d) && Within(s, d)
    ensures Inside(g, source, target, s, current, seen, d)
  {
    hide Recorded, Around, Explored, Complete, Within, Distance, LookedAt;
  }

  lemma InsideSkip(g: Graph, source: Node, target: Node, s: Search, current: Node, seen: seq<Node>, d: int, x: Node)
    requires Inside(g, source, target, s, current, seen, d) && x in s.previous
    ensures Inside(g, source, target, s, current, seen + [x], d)
  {
    hide *;
    InsideParts(g, source, target, s, current, seen, d);
    SkipLookedAt(s, x, seen, d);
    InsideJoin(g, source, target, s, current, seen + [x], d);
  }

  lemma InsideDiscover(g: Graph, source: Node, target: Node, s: Search, current: Node, seen: seq<Node>, d: int, x: Node)
    requires Inside(g, source, target, s, current, seen, d)
    requires x !in s.previous && x != target && HasEdge(g, current, x)
    ensures current in s.paths && Inside(g, source, target, Discovered(s, current, x), current, seen + [x], d)
  {
    hide *;
    InsideParts(g, source, target, s, current, seen, d);
    DiscoverRecorded(g, source, s, current, x);
    DiscoverOrdered(s, current, x, d);
    DiscoverExplored(g, s, current, x);
    DiscoverComplete(g, source, s, current, x, d);
    DiscoverLookedAt(s, current, x, seen, d);
    DiscoverWithin(s, current, x, d);
    DiscoverKeeps(s, current, x);
    InsideJoin(g, source, target, Discovered(s, current, x), current, seen + [x], d);
  }

  lemma DiscoverKeeps(s: Search, current: Node, x: Node)
    requires current in s.paths && x !in s.paths
    ensures var t := Discovered(s, current, x);
            && current in t.paths && Distance(t, current) == Distance(s, current)
            && (forall y :: y in t.paths <==> y in s.paths || y == x)
            && t.previous == s.previous[x := Some(current)] && t.queue == s.queue + [x]
            && t.paths == s.paths[x := s.paths[current] + [x]]
  {}

  lemma RoundLast(g: Graph, source: Node, target: Node, s: Search, current: Node, seen: seq<Node>, d: int)
    requires Inside(g, source, target, s, current, seen, d) && forall y :: HasEdge(g, current, y) ==> y in seen
    ensures Between(g, source, target, s)
  {
    hide *;
    InsideParts(g, source, target, s, current, seen, d);
    ExploredCurrent(g, s, current, seen, d);
    AroundParts(s, d);
    if s.queue != [] && Distance(s, s.queue[0]) > d {
      CompleteNext(g, source, s, d);
      WithinMore(s, d);
    }
    BetweenFrom(g, source, target, s, d);
  }

  lemma AroundParts(s: Search, d: int)
    requires Around(s, d)
    ensures Ordered(s)
    ensures s.queue != [] ==> s.queue[0] in s.paths && d <= Distance(s, s.queue[0]) <= d + 1
    ensures s.queue != [] && Distance(s, s.queue[0]) > d ==> forall x :: x in s.queue ==> x in s.paths && Distance(s, x) >= d + 1
  {
    hide Distance;
  }

  lemma WithinMore(s: Search, d: int)
    requires Within(s, d)
    ensures Within(s, d + 1)
  {
    hide Distance;
  }

  lemma BetweenFrom(g: Graph, source: Node, target: Node, s: Search, d: int)
    requires Recorded(g, source, s) && Ordered(s) && Explored(g, s, s.queue) && target !in s.paths
    requires s.queue != [] ==> s.queue[0] in s.paths && d <= Distance(s, s.queue[0]) <= d + 1
    requires Complete(g, source, s, d) && Within(s, d)
    requires s.queue != [] && Distance(s, s.queue[0]) > d ==> Complete(g, source, s, d + 1) && Within(s, d + 1)
    ensures Between(g, source, target, s)
  {
    hide Recorded, Ordered, Explored, Complete, Within, Distance;
  }

  lemma PathLong(g: Graph, source: Node, s: Search, x: Node)
    requires Recorded(g, source, s) && x in s.paths
    ensures Distance(s, x) >= 0
  {
    assert PathBetween(g, s.paths[x], source, x);
  }

  function Reversed(p: seq<Node>): seq<Node> {
    if p == [] then [] else Reversed(p[1..]) + [p[0]]
  }

  lemma {:induction false} ReversedAppend(p: seq<Node>, x: Node)
    ensures Reversed(p + [x]) == [x] + Reversed(p)
  {
    if p != [] {
      ReversedAppend(p[1..], x);
      assert (p + [x])[1..] == p[1..] + [x];
      assert [x] + (Reversed(p[1..]) + [p[0]]) == [x] + Reversed(p[1..]) + [p[0]];
    } else {
      assert [x][1..] == [];
    }
  }

  lemma PredecessorStep(g: Graph, source: Node, s: Search, x: Node)
    requires Recorded(g, source, s) && x in s.previous
    ensures s.previous[x].None? ==> s.paths[x] == [x]
    ensures s.previous[x].Some? ==>
              var q := s.previous[x].value;
              q in s.previous && s.paths[x] == s.paths[q] + [x] && |s.paths[q]| < |s.paths[x]|
  {
    hide PathBetween;
  }

  lemma TraceStep(whole: seq<Node>, here: seq<Node>, next: seq<Node>, trail: seq<Node>, x: Node)
    requires trail != [] && here == next + [trail[|trail| - 1]] && whole == here + Reversed(trail[..|trail| - 1])
    ensures var longer := trail + [x]; whole == next + Reversed(longer[..|longer| - 1])
  {
    var (n, last) := (|trail| - 1, trail[|trail| - 1]);
    assert (trail + [x])[..n + 1] == trail[..n] + [last];
    ReversedAppend(trail[..n], last);
    hide Reversed;
    assert next + [last] + Reversed(trail[..n]) == next + ([last] + Reversed(trail[..n]));
  }

  lemma TraceEnd(whole: seq<Node>, trail: seq<Node>)
    requires trail != [] && whole == [trail[|trail| - 1]] + Reversed(trail[..|trail| - 1])
    ensures whole == Reversed(trail)
  {
    hide *;
    assert trail == trail[..|trail| - 1] + [trail[|trail| - 1]];
    ReversedAppend(trail[..|trail| - 1], trail[|trail| - 1]);
  }

  lemma TraceFirst(path: seq<Node>, x: Node)
    ensures path == path + Reversed([x][..0])
  {
    assert [x][..0] == [] && path + [] == path;
  }

  lemma RecordedKeys(g: Graph, source: Node, s: Search)
    requires Recorded(g, source, s)
    ensures s.previous.Keys == s.paths.Keys
  {
    hide PathBetween;
  }

  /** Follow the predecessors back from a discovered node. */
  method TracePath(previous: map<Node, Option<Node>>, x: Node, ghost g: Graph, ghost source: Node, ghost s: Search)
    returns (path: seq<Node>)
    requires Recorded(g, source, s) && previous == s.previous && x in previous
    ensures x in s.paths && path == s.paths[x]
  {
    hide *;
    path := [x];
    RecordedKeys(g, source, s);
    TraceFirst(s.paths[x], x);
    while previous[path[|path| - 1]].Some?
      invariant path != [] && path[|path| - 1] in previous
      invariant s.paths[x] == s.paths[path[|path| - 1]] + Reversed(path[..|path| - 1])
      decreases |s.paths[path[|path| - 1]]|
    {
      var last := path[|path| - 1];
      PredecessorStep(g, source, s, last);
      var next := previous[last].value;
      TraceStep(s.paths[x], s.paths[last], s.paths[next], path, next);
      path := path + [next];
    }
    PredecessorStep(g, source, s, path[|path| - 1]);
    TraceEnd(s.paths[x], path);
    return Reversed(path);
  }

  ghost predicate IsShortest(g: Graph, path: seq<Node>, source: Node, target: Node) {
    PathBetween(g, path, source, target) && forall p :: PathBetween(g, p, source, target) ==> |path| <= |p|
  }

  /** A path found while the target was still unrecorded is as short as any. */
  lemma FoundShortest(g: Graph, source: Node, target: Node, s: Search, current: Node, seen: seq<Node>, d: int)
    requires Inside(g, source, target, s, current, seen, d) && HasEdge(g, current, target)
    ensures current in s.paths && IsShortest(g, s.paths[current] + [target], source, target)
  {
    InsideParts(g, source, target, s, current, seen, d);
    PathAppend(g, s.paths[current], source, current, target);
    hide HasEdge, Inside, Around, Explored, LookedAt, Within, Recorded;
    forall p | PathBetween(g, p, source, target)
      ensures |s.paths[current] + [target]| <= |p|
    {
      hide PathBetween;
    }
  }

  lemma NotReached(g: Graph, source: Node, target: Node, s: Search)
    requires Between(g, source, target, s) && s.queue == []
    ensures !Reaches(g, source, target)
  {
    hide PathBetween, HasEdge;
    if Reaches(g, source, target) {
      var x, y := ReachesExit(g, s.paths.Keys, source, target);
      assert false;
    }
  }

  lemma SingleShortest(g: Graph, x: Node)
    requires x in g.nodes
    ensures IsShortest(g, [x], x, x)
  {}

  // ---------------------------------------------------------------------------------------------
  // Which of the shortest paths is found

  ghost predicate NodesOnce(g: Graph) {
    forall k, l :: 0 <= k < l < |g.nodes| ==> g.nodes[k] != g.nodes[l]
  }

  /** Every recorded path comes before all others of its length to the same node. */
  ghost predicate Least(g: Graph, source: Node, s: Search) {
    forall x, p :: x in s.paths && PathBetween(g, p, source, x) && |p| == |s.paths[x]| ==> NotAfter(g.nodes, s.paths[x], p)
  }

  ghost predicate PathLess(g: Graph, s: Search, u: Node, v: Node) {
    u in s.paths && v in s.paths && |s.paths[u]| == |s.paths[v]| ==> Less(g.nodes, s.paths[u], s.paths[v])
  }

  /** Queued nodes of the same distance are in the order of their paths. */
  ghost predicate QueueRanked(g: Graph, s: Search) {
    forall i, j :: 0 <= i < j < |s.queue| ==> PathLess(g, s, s.queue[i], s.queue[j])
  }

  /** Nodes that have left the queue come before queued nodes of the same distance. */
  ghost predicate DoneFirst(g: Graph, s: Search) {
    forall u, v :: u in s.paths && u !in s.queue && v in s.queue ==> PathLess(g, s, u, v)
  }

  /** Nodes are found from nodes that have left the queue. */
  ghost predicate FromDone(s: Search) {
    forall q :: q in s.previous && s.previous[q].Some? ==> s.previous[q].value !in s.queue
  }

  ghost predicate Ranked(g: Graph, source: Node, s: Search) {
    Least(g, source, s) && QueueRanked(g, s) && DoneFirst(g, s) && FromDone(s)
  }

  /** What is found next from the current node comes after everything found at its distance. */
  ghost predicate FoundBefore(g: Graph, s: Search, current: Node, rest: seq<Node>)
    requires current in s.paths
  {
    forall q, y :: q in s.paths && |s.paths[q]| == |s.paths[current]| + 1 && y in rest ==>
      Less(g.nodes, s.paths[q], s.paths[current] + [y])
  }

  ghost predicate RankedInside(g: Graph, source: Node, s: Search, current: Node, rest: seq<Node>) {
    Ranked(g, source, s) && current in s.paths && current !in s.queue && FoundBefore(g, s, current, rest)
  }

  lemma RankedFirst(g: Graph, source: Node)
    requires source in g.nodes
    ensures Ranked(g, source, Search(map[source := None], [source], map[source := [source]]))
  {
    hide HasEdge;
  }

  lemma PopRanked(g: Graph, source: Node, s: Search, rest: seq<Node>)
    requires Recorded(g, source, s) && Ordered(s) && Ranked(g, source, s) && s.queue != []
    ensures RankedInside(g, source, s.(queue := s.queue[1..]), s.queue[0], rest)
  {
    hide *;
    RankedParts(g, source, s);
    PopLeast(g, source, s);
    PopQueue(g, s);
    PopDone(g, s);
    PopFrom(g, source, s, rest);
    RankedFrom(g, source, s.(queue := s.queue[1..]), s.queue[0], rest);
  }

  lemma RankedParts(g: Graph, source: Node, s: Search)
    requires Ranked(g, source, s)
    ensures Least(g, source, s) && QueueRanked(g, s) && DoneFirst(g, s) && FromDone(s)
  {}

  lemma RankedFrom(g: Graph, source: Node, s: Search, current: Node, rest: seq<Node>)
    requires Least(g, source, s) && QueueRanked(g, s) && DoneFirst(g, s) && FromDone(s)
    requires current in s.paths && current !in s.queue && FoundBefore(g, s, current, rest)
    ensures RankedInside(g, source, s, current, rest)
  {
    hide Least, QueueRanked, DoneFirst, FromDone, FoundBefore;
  }

  lemma InsideRankedParts(g: Graph, source: Node, s: Search, current: Node, rest: seq<Node>)
    requires RankedInside(g, source, s, current, rest)
    ensures Least(g, source, s) && QueueRanked(g, s) && DoneFirst(g, s) && FromDone(s) && Ranked(g, source, s)
    ensures current in s.paths && current !in s.queue && FoundBefore(g, s, current, rest)
  {
    hide Least, QueueRanked, DoneFirst, FromDone, FoundBefore;
  }

  lemma PopLeast(g: Graph, source: Node, s: Search)
    requires Ranked(g, source, s) && s.queue != []
    ensures Least(g, source, s.(queue := s.queue[1..]))
  {
    hide PathBetween, NotAfter, QueueRanked, DoneFirst, FromDone;
  }

  lemma PopQueue(g: Graph, s: Search)
    requires s.queue != [] && QueueRanked(g, s)
    ensures QueueRanked(g, s.(queue := s.queue[1..]))
    ensures forall v :: v in s.queue[1..] ==> PathLess(g, s, s.queue[0], v)
  {
    hide Less;
    var t := s.(queue := s.queue[1..]);
    forall i, j | 0 <= i < j < |t.queue|
      ensures PathLess(g, t, t.queue[i], t.queue[j])
    {
      assert PathLess(g, s, s.queue[i + 1], s.queue[j + 1]);
    }
    forall v | v in s.queue[1..]
      ensures PathLess(g, s, s.queue[0], v)
    {
      var j :| 0 <= j < |s.queue[1..]| && s.queue[1..][j] == v;
      assert PathLess(g, s, s.queue[0], s.queue[j + 1]);
    }
  }

  lemma PopDone(g: Graph, s: Search)
    requires s.queue != [] && DoneFirst(g, s) && forall v :: v in s.queue[1..] ==> PathLess(g, s, s.queue[0], v)
    ensures DoneFirst(g, s.(queue := s.queue[1..]))
  {
    hide Less;
    var t := s.(queue := s.queue[1..]);
    assert s.queue == [s.queue[0]] + s.queue[1..];
    forall u, v | u in t.paths && u !in t.queue && v in t.queue
      ensures PathLess(g, t, u, v)
    {
      assert PathLess(g, s, u, v);
    }
  }

  lemma PopFrom(g: Graph, source: Node, s: Search, rest: seq<Node>)
    requires Recorded(g, source, s) && Ordered(s) && QueueRanked(g, s) && DoneFirst(g, s) && FromDone(s) && s.queue != []
    requires forall v :: v in s.queue[1..] ==> PathLess(g, s, s.queue[0], v)
    ensures var t := s.(queue := s.queue[1..]);
      FromDone(t) && s.queue[0] in t.paths && s.queue[0] !in t.queue && FoundBefore(g, t, s.queue[0], rest)
  {
    var (t, current) := (s.(queue := s.queue[1..]), s.queue[0]);
    assert current in s.paths && s.queue == [current] + t.queue;
    hide PathBetween, Less;
    if current in t.queue {
      assert PathLess(g, s, current, current);
      LessNotItself(g.nodes, s.paths[current]);
    }
    forall q, y | q in t.paths && |t.paths[q]| == |t.paths[current]| + 1 && y in rest
      ensures Less(g.nodes, t.paths[q], t.paths[current] + [y])
    {
      PathStart(g, source, s, current);
      var before := s.previous[q].value;
      assert PathLess(g, s, before, current);
      LessAppend(g.nodes, s.paths[before], s.paths[current], q, y);
    }
  }

  lemma PathStart(g: Graph, source: Node, s: Search, x: Node)
    requires Recorded(g, source, s) && x in s.paths
    ensures |s.paths[x]| > 0
  {
    assert PathBetween(g, s.paths[x], source, x);
  }

  /** The path to a node that is found now comes before every other one of its length. */
  lemma DiscoverLeast(g: Graph, source: Node, s: Search, current: Node, x: Node, d: int, rest: seq<Node>, p: seq<Node>)
    requires RankedInside(g, source, s, current, rest) && Complete(g, source, s, d) && Explored(g, s, s.queue + [current])
    requires Around(s, d) && Distance(s, current) == d && d >= 0 && x !in s.paths
    requires PathBetween(g, p, source, x) && |p| == |s.paths[current]| + 1
    ensures NotAfter(g.nodes, s.paths[current] + [x], p)
  {
    InsideRankedParts(g, source, s, current, rest);
    PathFront(g, p, source, x);
    var (front, u) := (p[..|p| - 1], p[|p| - 2]);
    hide PathBetween, HasEdge, Less, QueueRanked, FromDone, FoundBefore, Ranked, RankedInside, NotAfter;
    assert u in s.paths && Distance(s, u) <= d;
    assert u in s.queue + [current];
    if u in s.queue {
      var i :| 0 <= i < |s.queue| && s.queue[i] == u;
      assert Distance(s, s.queue[i]) >= d;
      assert PathLess(g, s, current, u);
    }
    assert NotAfter(g.nodes, s.paths[u], front);
    NotAfterAppend(g.nodes, s.paths[current], s.paths[u], front, x);
    assert PathBetween(g, p, source, x) ==> p == front + [x] by {
      EndsWith(g, p, source, x);
    }
  }

  lemma EndsWith(g: Graph, p: seq<Node>, u: Node, v: Node)
    requires PathBetween(g, p, u, v)
    ensures p == p[..|p| - 1] + [v]
  {
    hide HasEdge;
  }

  lemma DiscoverAllLeast(g: Graph, source: Node, s: Search, current: Node, x: Node, d: int, rest: seq<Node>)
    requires RankedInside(g, source, s, current, rest) && Complete(g, source, s, d) && Explored(g, s, s.queue + [current])
    requires Around(s, d) && current in s.paths && Distance(s, current) == d && d >= 0 && x !in s.paths
    ensures Least(g, source, Discovered(s, current, x))
  {
    var t := Discovered(s, current, x);
    InsideRankedParts(g, source, s, current, rest);
    hide PathBetween, NotAfter, RankedInside, Complete, Explored, Around, Distance, Ranked, QueueRanked, DoneFirst, FromDone, FoundBefore;
    forall y, p | y in t.paths && PathBetween(g, p, source, y) && |p| == |t.paths[y]|
      ensures NotAfter(g.nodes, t.paths[y], p)
    {
      if y == x {
        DiscoverLeast(g, source, s, current, x, d, rest, p);
      }
    }
  }

  lemma DiscoverPathLess(g: Graph, s: Search, current: Node, x: Node, rest: seq<Node>)
    requires current in s.paths && x !in s.paths && FoundBefore(g, s, current, [x] + rest)
    ensures var t := Discovered(s, current, x);
      && (forall u, v :: u in s.paths && v in s.paths && PathLess(g, s, u, v) ==> PathLess(g, t, u, v))
      && (forall u :: u in s.paths ==> PathLess(g, t, u, x))
  {
    hide Less;
    assert x in [x] + rest;
  }

  lemma DiscoverQueueRanked(g: Graph, s: Search, current: Node, x: Node)
    requires current in s.paths && x !in s.paths && QueueRanked(g, s) && forall v :: v in s.queue ==> v in s.paths
    requires var t := Discovered(s, current, x);
      && (forall u, v :: u in s.paths && v in s.paths && PathLess(g, s, u, v) ==> PathLess(g, t, u, v))
      && (forall u :: u in s.paths ==> PathLess(g, t, u, x))
    ensures QueueRanked(g, Discovered(s, current, x))
  {
    hide PathLess;
    var t := Discovered(s, current, x);
    forall i, j | 0 <= i < j < |t.queue|
      ensures PathLess(g, t, t.queue[i], t.queue[j])
    {
      assert t.queue[i] == s.queue[i];
      if j < |s.queue| {
        assert PathLess(g, s, s.queue[i], s.queue[j]);
      }
    }
  }

  lemma DiscoverDoneFirst(g: Graph, s: Search, current: Node, x: Node)
    requires current in s.paths && x !in s.paths && DoneFirst(g, s) && forall v :: v in s.queue ==> v in s.paths
    requires var t := Discovered(s, current, x);
      && (forall u, v :: u in s.paths && v in s.paths && PathLess(g, s, u, v) ==> PathLess(g, t, u, v))
      && (forall u :: u in s.paths ==> PathLess(g, t, u, x))
    ensures DoneFirst(g, Discovered(s, current, x))
  {
    hide PathLess;
    var t := Discovered(s, current, x);
    forall u, v | u in t.paths && u !in t.queue && v in t.queue
      ensures PathLess(g, t, u, v)
    {
      assert x in t.queue && forall w :: w in s.queue ==> w in t.queue;
      assert u in s.paths && u !in s.queue;
      if v != x {
        assert PathLess(g, s, u, v);
      }
    }
  }

  lemma DiscoverFromDone(g: Graph, source: Node, s: Search, current: Node, x: Node)
    requires current in s.paths && x !in s.paths && current !in s.queue && FromDone(s) && Recorded(g, source, s)
    ensures FromDone(Discovered(s, current, x)) && current in Discovered(s, current, x).paths && current !in Discovered(s, current, x).queue
  {
    hide PathBetween;
  }

  lemma DiscoverFoundBefore(g: Graph, s: Search, current: Node, x: Node, rest: seq<Node>)
    requires current in s.paths && x !in s.paths && FoundBefore(g, s, current, [x] + rest)
    requires forall y :: y in rest ==> Place(g.nodes, x) < Place(g.nodes, y)
    ensures current in Discovered(s, current, x).paths && FoundBefore(g, Discovered(s, current, x), current, rest)
  {
    var t := Discovered(s, current, x);
    hide Less, Place;
    assert forall y :: y in rest ==> y in [x] + rest;
    forall y | y in rest
      ensures Less(g.nodes, t.paths[x], t.paths[current] + [y])
    {
      LessLast(g.nodes, s.paths[current], x, y);
    }
  }

  lemma QueueRecorded(s: Search, d: int)
    requires Around(s, d)
    ensures forall v :: v in s.queue ==> v in s.paths
  {
    hide Distance;
  }

  lemma RankedDiscover(g: Graph, source: Node, s: Search, current: Node, x: Node, d: int, rest: seq<Node>)
    requires RankedInside(g, source, s, current, [x] + rest) && Complete(g, source, s, d) && Explored(g, s, s.queue + [current])
    requires Recorded(g, source, s) && Around(s, d) && current in s.paths && Distance(s, current) == d && d >= 0 && x !in s.paths
    requires forall y :: y in rest ==> Place(g.nodes, x) < Place(g.nodes, y)
    ensures RankedInside(g, source, Discovered(s, current, x), current, rest)
  {
    hide *;
    DiscoverAllLeast(g, source, s, current, x, d, [x] + rest);
    InsideRankedParts(g, source, s, current, [x] + rest);
    QueueRecorded(s, d);
    DiscoverPathLess(g, s, current, x, rest);
    DiscoverQueueRanked(g, s, current, x);
    DiscoverDoneFirst(g, s, current, x);
    DiscoverFromDone(g, source, s, current, x);
    DiscoverFoundBefore(g, s, current, x, rest);
    RankedFrom(g, source, Discovered(s, current, x), current, rest);
  }

  lemma RankedSkip(g: Graph, source: Node, s: Search, current: Node, x: Node, rest: seq<Node>)
    requires RankedInside(g, source, s, current, [x] + rest)
    ensures RankedInside(g, source, s, current, rest)
  {
    assert forall y :: y in rest ==> y in [x] + rest;
    hide Ranked, Less;
  }

  /** No other shortest path comes before this one. */
  ghost predicate IsFirstShortest(g: Graph, path: seq<Node>, source: Node, target: Node) {
    forall p :: PathBetween(g, p, source, target) && |p| == |path| ==> NotAfter(g.nodes, path, p)
  }

  lemma FoundFirst(g: Graph, source: Node, s: Search, current: Node, x: Node, d: int, rest: seq<Node>)
    requires RankedInside(g, source, s, current, rest) && Complete(g, source, s, d) && Explored(g, s, s.queue + [current])
    requires Around(s, d) && current in s.paths && Distance(s, current) == d && d >= 0 && x !in s.paths
    ensures IsFirstShortest(g, s.paths[current] + [x], source, x)
  {
    hide PathBetween, NotAfter, RankedInside, Complete, Explored, Around, Distance;
    forall p | PathBetween(g, p, source, x) && |p| == |s.paths[current] + [x]|
      ensures NotAfter(g.nodes, s.paths[current] + [x], p)
    {
      DiscoverLeast(g, source, s, current, x, d, rest, p);
    }
  }

  lemma SingleFirst(g: Graph, x: Node)
    ensures IsFirstShortest(g, [x], x, x)
  {}

  lemma LaterPlaces(g: Graph, current: Node, i: nat)
    requires NodesOnce(g) && i < |Adjacent(g, current)|
    ensures forall y :: y in Adjacent(g, current)[i + 1..] ==> Place(g.nodes, Adjacent(g, current)[i]) < Place(g.nodes, y)
    ensures Adjacent(g, current)[i..] == [Adjacent(g, current)[i]] + Adjacent(g, current)[i + 1..]
  {
    var all := Adjacent(g, current);
    SelectedOrdered(g.nodes, Targets(EdgesOf(g, current)));
    hide Selected, InDisplayOrder, Place, Targets;
    forall y | y in all[i + 1..]
      ensures Place(g.nodes, all[i]) < Place(g.nodes, y)
    {
      var j :| 0 <= j < |all[i + 1..]| && all[i + 1..][j] == y;
      OrderedPlaces(g.nodes, all, i, i + 1 + j);
    }
  }

  /** The search loop after the first test of the program, with the goal tested on discovery. */
  method ShortestPath(g: Graph, source: Node, target: Node) returns (r: Option<seq<Node>>)
    requires source in g.nodes && target in g.nodes
    ensures r.Some? <==> Reaches(g, source, target)
    ensures r.Some? ==> IsShortest(g, r.value, source, target)
    ensures r.Some? && NodesOnce(g) ==> IsFirstShortest(g, r.value, source, target)
  {
    hide *;
    if source == target {
      ReachesSelf(g, source);
      SingleFirst(g, source);
      SingleShortest(g, source);
      return Some([source]);
    }
    var previous: map<Node, Option<Node>> := map[source := None];
    var pending := [source];
    ghost var s := Search(previous, pending, map[source := [source]]);
    SearchFirst(g, source);
    BetweenFirst(g, source, target, s);
    RankedFirst(g, source);
    while pending != []
      invariant Between(g, source, target, s) && previous == s.previous && pending == s.queue
      invariant NodesOnce(g) ==> Ranked(g, source, s)
      decreases NodeSet(g) - previous.Keys, |pending|
    {
      var current := pending[0];
      RoundFirst(g, source, target, s);
      ghost var d := Distance(s, current);
      ghost var known := previous.Keys;
      ghost var waiting := |pending|;
      BetweenParts(g, source, target, s);
      if NodesOnce(g) {
        PopRanked(g, source, s, Adjacent(g, current));
      }
      s := s.(queue := s.queue[1..]);
      pending := pending[1..];
      var dependencies := Adjacent(g, current);
      CurrentInside(g, source, target, s, current, d);
      assert dependencies[..0] == [] && dependencies[0..] == dependencies;
      for i := 0 to |dependencies|
        invariant Inside(g, source, target, s, current, dependencies[..i], d)
        invariant NodesOnce(g) ==> RankedInside(g, source, s, current, dependencies[i..])
        invariant previous == s.previous && pending == s.queue
        invariant known <= previous.Keys && (previous.Keys == known ==> |pending| < waiting)
        invariant previous.Keys == known || NodeSet(g) - previous.Keys < NodeSet(g) - known
      {
        var dependency := dependencies[i];
        AdjacentIsEdge(g, current, dependency);
        assert dependencies[..i + 1] == dependencies[..i] + [dependency];
        InsideParts(g, source, target, s, current, dependencies[..i], d);
        if NodesOnce(g) {
          LaterPlaces(g, current, i);
        }
        if dependency in previous {
          if NodesOnce(g) {
            RankedSkip(g, source, s, current, dependency, dependencies[i + 1..]);
          }
          InsideSkip(g, source, target, s, current, dependencies[..i], d, dependency);
        } else {
          DiscoverKeeps(s, current, dependency);
          FewerUnknown(g, known, previous.Keys, dependency);
          previous := previous[dependency := Some(current)];
          if dependency == target {
            FoundShortest(g, source, target, s, current, dependencies[..i], d);
            if NodesOnce(g) {
              FoundFirst(g, source, s, current, target, d, dependencies[i..]);
            }
            DiscoverRecorded(g, source, s, current, dependency);
            var path := TracePath(previous, dependency, g, source, Discovered(s, current, dependency));
            ShortestReaches(g, path, source, target);
            return Some(path);
          }
          if NodesOnce(g) {
            RankedDiscover(g, source, s, current, dependency, d, dependencies[i + 1..]);
          }
          InsideDiscover(g, source, target, s, current, dependencies[..i], d, dependency);
          s := Discovered(s, current, dependency);
          pending := pending + [dependency];
        }
      }
      assert dependencies[..|dependencies|] == dependencies;
      AllAdjacent(g, current);
      RoundLast(g, source, target, s, current, dependencies, d);
      if NodesOnce(g) {
        InsideRankedParts(g, source, s, current, dependencies[|dependencies|..]);
      }
    }
    NotReached(g, source, target, s);
    return None;
  }

  lemma BetweenFirst(g: Graph, source: Node, target: Node, s: Search)
    requires Recorded(g, source, s) && Ordered(s) && Explored(g, s, s.queue) && Complete(g, source, s, 0)
    requires s.queue == [source] && s.paths == map[source := [source]] && source != target
    ensures Between(g, source, target, s)
  {
    hide Recorded, Ordered, Explored, Complete;
  }

  lemma CurrentInside(g: Graph, source: Node, target: Node, s: Search, current: Node, d: int)
    requires Inside(g, source, target, s, current, [], d)
    ensures current in g.nodes
  {
    InsideParts(g, source, target, s, current, [], d);
    hide HasEdge, Inside, Around, Explored, LookedAt, Within, Complete;
    assert PathBetween(g, s.paths[current], source, current);
    PathInside(g, s.paths[current], |s.paths[current]| - 1);
  }

  lemma AllAdjacent(g: Graph, x: Node)
    requires x in g.nodes
    ensures forall y :: HasEdge(g, x, y) ==> y in Adjacent(g, x)
  {
    hide HasEdge, Adjacent;
    forall y | HasEdge(g, x, y)
      ensures y in Adjacent(g, x)
    {
      AdjacentIsEdge(g, x, y);
    }
  }

  lemma FewerUnknown(g: Graph, before: set<Node>, now: set<Node>, x: Node)
    requires before <= now && x !in now && x in g.nodes
    ensures before <= now + {x} && now + {x} != before
    ensures NodeSet(g) - (now + {x}) < NodeSet(g) - before
  {
    assert x in NodeSet(g) - before;
  }

  lemma ShortestReaches(g: Graph, p: seq<Node>, source: Node, target: Node)
    requires IsShortest(g, p, source, target)
    ensures Reaches(g, source, target)
  {
    hide PathBetween;
  }
}
