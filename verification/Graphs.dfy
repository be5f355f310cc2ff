// The include graph, paths in it, and reachability.
module Graphs {

  /** A source file, named by its path. */
  datatype Node = Node(path: string)

  /** One include directive; an external target is not a node of the graph. */
  datatype Edge = Edge(target: Node, line: nat, inside: bool)

  /**
   * The nodes in display order, and the include directives of every node. The reversed direction of
   * the program is the same graph with the internal edges turned round.
   */
  datatype Graph = Graph(nodes: seq<Node>, edges: map<Node, seq<Edge>>)

  function EdgesOf(g: Graph, n: Node): seq<Edge> {
    if n in g.edges then g.edges[n] else []
  }

  /** Nodes are listed once, and internal edges stay among them. */
  ghost predicate Valid(g: Graph) {
    && (forall i, j :: 0 <= i < j < |g.nodes| ==> g.nodes[i] != g.nodes[j])
    && (forall n, e :: n in g.nodes && e in EdgesOf(g, n) && e.inside ==> e.target in g.nodes)
  }

  predicate HasEdge(g: Graph, u: Node, v: Node) {
    u in g.nodes && v in g.nodes && exists i :: 0 <= i < |EdgesOf(g, u)| && EdgesOf(g, u)[i].inside && EdgesOf(g, u)[i].target == v
  }

  ghost function NodeSet(g: Graph): set<Node> {
    set x | x in g.nodes
  }

  function Selected(nodes: seq<Node>, s: set<Node>): (r: seq<Node>)
    ensures forall v :: v in r <==> v in nodes && v in s
  {
    if nodes == [] then []
    else if nodes[0] in s then [nodes[0]] + Selected(nodes[1..], s)
    else Selected(nodes[1..], s)
  }

  /** Where a node comes in the display order. */
  function Place(nodes: seq<Node>, x: Node): (n: nat)
    ensures n <= |nodes| && (x in nodes ==> n < |nodes| && nodes[n] == x)
    ensures forall i :: 0 <= i < n ==> nodes[i] != x
  {
    if nodes == [] || nodes[0] == x then 0 else 1 + Place(nodes[1..], x)
  }

  /** The members of a list stand at ascending places of the display order, each at one of its own. */
  ghost predicate InDisplayOrder(nodes: seq<Node>, s: seq<Node>) {
    exists places: seq<nat> :: ArePlaces(nodes, s, places)
  }

  ghost predicate ArePlaces(nodes: seq<Node>, s: seq<Node>, places: seq<nat>) {
    && |places| == |s|
    && (forall i :: 0 <= i < |s| ==> places[i] < |nodes| && nodes[places[i]] == s[i])
    && (forall i, j :: 0 <= i < j < |s| ==> places[i] < places[j])
  }

  lemma PlacesLater(nodes: seq<Node>, s: seq<Node>, places: seq<nat>) returns (later: seq<nat>)
    requires nodes != [] && ArePlaces(nodes[1..], s, places)
    ensures ArePlaces(nodes, s, later) && ArePlaces(nodes, [nodes[0]] + s, [0] + later)
  {
    later := seq(|places|, i requires 0 <= i < |places| => places[i] + 1);
  }

  lemma {:induction false} SelectedPlaces(nodes: seq<Node>, s: set<Node>) returns (places: seq<nat>)
    ensures ArePlaces(nodes, Selected(nodes, s), places)
  {
    if nodes == [] {
      places := [];
    } else {
      hide ArePlaces;
      places := SelectedPlaces(nodes[1..], s);
      places := PlacesLater(nodes, Selected(nodes[1..], s), places);
      places := if nodes[0] in s then [0] + places else places;
    }
  }

  /** What is selected keeps the display order. */
  lemma SelectedOrdered(nodes: seq<Node>, s: set<Node>)
    ensures InDisplayOrder(nodes, Selected(nodes, s))
  {
    var places := SelectedPlaces(nodes, s);
  }

  /** As nodes are listed once, so are the members of a list in display order. */
  lemma OrderedOnce(g: Graph, s: seq<Node>)
    requires Valid(g) && InDisplayOrder(g.nodes, s)
    ensures forall i, j :: 0 <= i < j < |s| ==> s[i] != s[j]
  {
    var places :| ArePlaces(g.nodes, s, places);
  }

  function Targets(edges: seq<Edge>): (r: set<Node>) {
    set e | e in edges && e.inside :: e.target
  }

  /** The unique internal targets of a node, in display order. */
  function Adjacent(g: Graph, u: Node): seq<Node> {
    Selected(g.nodes, Targets(EdgesOf(g, u)))
  }

  lemma AdjacentIsEdge(g: Graph, u: Node, v: Node)
    requires u in g.nodes
    ensures v in Adjacent(g, u) <==> HasEdge(g, u, v)
    ensures v in Adjacent(g, u) ==> v in g.nodes
  {
    hide Selected;
    if v in Adjacent(g, u) {
      var e :| e in EdgesOf(g, u) && e.inside && e.target == v;
      var i :| 0 <= i < |EdgesOf(g, u)| && EdgesOf(g, u)[i] == e;
    }
    if HasEdge(g, u, v) {
      var i :| 0 <= i < |EdgesOf(g, u)| && EdgesOf(g, u)[i].inside && EdgesOf(g, u)[i].target == v;
      assert EdgesOf(g, u)[i] in EdgesOf(g, u);
    }
  }

  // ---------------------------------------------------------------------------------------------
  // Paths

  ghost predicate IsPath(g: Graph, p: seq<Node>) {
    && p != [] && p[0] in g.nodes
    && forall i :: 0 <= i < |p| - 1 ==> HasEdge(g, p[i], p[i + 1])
  }

  ghost predicate PathBetween(g: Graph, p: seq<Node>, u: Node, v: Node) {
    IsPath(g, p) && p[0] == u && p[|p| - 1] == v
  }

  /** Some include path leads from u to v; a single node is a path. */
  ghost predicate Reaches(g: Graph, u: Node, v: Node) {
    exists p :: PathBetween(g, p, u, v)
  }

  lemma ReachesSelf(g: Graph, u: Node)
    requires u in g.nodes
    ensures Reaches(g, u, u)
  {
    assert PathBetween(g, [u], u, u);
  }

  lemma {:induction false} PathInside(g: Graph, p: seq<Node>, i: nat)
    requires IsPath(g, p) && i < |p|
    ensures p[i] in g.nodes
  {
    if i > 0 {
      assert HasEdge(g, p[i - 1], p[i - 1 + 1]);
    }
  }

  lemma ReachesInside(g: Graph, u: Node, v: Node)
    requires Reaches(g, u, v)
    ensures u in g.nodes && v in g.nodes
  {
    var p :| PathBetween(g, p, u, v);
    PathInside(g, p, |p| - 1);
  }

  lemma PathAppend(g: Graph, p: seq<Node>, u: Node, v: Node, w: Node)
    requires PathBetween(g, p, u, v) && HasEdge(g, v, w)
    ensures PathBetween(g, p + [w], u, w)
  {
    var q := p + [w];
    forall i | 0 <= i < |q| - 1
      ensures HasEdge(g, q[i], q[i + 1])
    {
      if i < |p| - 1 {
        assert q[i] == p[i] && q[i + 1] == p[i + 1];
      }
    }
  }

  lemma PathFront(g: Graph, p: seq<Node>, u: Node, w: Node)
    requires PathBetween(g, p, u, w) && |p| > 1
    ensures PathBetween(g, p[..|p| - 1], u, p[|p| - 2]) && HasEdge(g, p[|p| - 2], w)
  {
    var q := p[..|p| - 1];
    forall i | 0 <= i < |q| - 1
      ensures HasEdge(g, q[i], q[i + 1])
    {
      assert q[i] == p[i] && q[i + 1] == p[i + 1];
    }
    assert HasEdge(g, p[|p| - 2], p[|p| - 2 + 1]);
  }

  lemma ReachesStep(g: Graph, u: Node, v: Node, w: Node)
    requires Reaches(g, u, v) && HasEdge(g, v, w)
    ensures Reaches(g, u, w)
  {
    var p :| PathBetween(g, p, u, v);
    hide *;
    PathAppend(g, p, u, v, w);
    ReachesBy(g, p + [w], u, w);
  }

  lemma ReachesBy(g: Graph, p: seq<Node>, u: Node, v: Node)
    requires PathBetween(g, p, u, v)
    ensures Reaches(g, u, v)
  {}

  lemma ReachesEdge(g: Graph, u: Node, v: Node)
    requires HasEdge(g, u, v)
    ensures Reaches(g, u, v)
  {
    ReachesSelf(g, u);
    ReachesStep(g, u, u, v);
  }

  lemma {:induction false} ReachesAlong(g: Graph, u: Node, v: Node, p: seq<Node>, w: Node)
    requires Reaches(g, u, v) && PathBetween(g, p, v, w)
    ensures Reaches(g, u, w)
    decreases |p|
  {
    if |p| > 1 {
      PathFront(g, p, v, w);
      hide PathBetween;
      ReachesAlong(g, u, v, p[..|p| - 1], p[|p| - 2]);
      ReachesStep(g, u, p[|p| - 2], w);
    }
  }

  lemma ReachesTransitive(g: Graph, u: Node, v: Node, w: Node)
    requires Reaches(g, u, v) && Reaches(g, v, w)
    ensures Reaches(g, u, w)
  {
    var p :| PathBetween(g, p, v, w);
    hide PathBetween;
    ReachesAlong(g, u, v, p, w);
  }

  ghost predicate Closed(g: Graph, s: set<Node>) {
    forall x, y :: x in s && HasEdge(g, x, y) ==> y in s
  }

  /** A path that starts inside a set and ends outside it leaves the set along some edge. */
  lemma {:induction false} PathExit(g: Graph, s: set<Node>, p: seq<Node>, u: Node, v: Node) returns (x: Node, y: Node)
    requires PathBetween(g, p, u, v) && u in s && v !in s
    ensures x in s && y !in s && HasEdge(g, x, y) && Reaches(g, u, x) && Reaches(g, y, v)
    decreases |p|
  {
    PathFront(g, p, u, v);
    var (front, t) := (p[..|p| - 1], p[|p| - 2]);
    if t in s {
      x, y := t, v;
      ReachesBy(g, front, u, t);
      PathInside(g, p, |p| - 1);
      ReachesSelf(g, v);
    } else {
      hide PathBetween;
      x, y := PathExit(g, s, front, u, t);
      ReachesStep(g, y, t, v);
    }
  }

  lemma ReachesExit(g: Graph, s: set<Node>, u: Node, v: Node) returns (x: Node, y: Node)
    requires Reaches(g, u, v) && u in s && v !in s
    ensures x in s && y !in s && HasEdge(g, x, y) && Reaches(g, u, x) && Reaches(g, y, v)
  {
    var p :| PathBetween(g, p, u, v);
    hide PathBetween;
    x, y := PathExit(g, s, p, u, v);
  }

  lemma ClosedContains(g: Graph, s: set<Node>, u: Node, v: Node)
    requires Closed(g, s) && u in s && Reaches(g, u, v)
    ensures v in s
  {
    if v !in s {
      var x, y := ReachesExit(g, s, u, v);
      assert false;
    }
  }

  ghost predicate Mutual(g: Graph, x: Node, y: Node) {
    Reaches(g, x, y) && Reaches(g, y, x)
  }

  lemma MutualTransitive(g: Graph, x: Node, y: Node, z: Node)
    ensures Mutual(g, x, y) && Mutual(g, y, z) ==> Mutual(g, x, z)
    ensures Mutual(g, x, y) ==> Mutual(g, y, x)
  {
    hide Reaches;
    if Mutual(g, x, y) && Mutual(g, y, z) {
      ReachesTransitive(g, x, y, z);
      ReachesTransitive(g, z, y, x);
    }
  }
}
