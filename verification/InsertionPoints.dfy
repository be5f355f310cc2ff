// Where a required include can be added so that every public header reaches its target.
module InsertionPoints {
  import opened Graphs
  import opened GraphSearch

  // ---------------------------------------------------------------------------------------------
  // Missing headers and the frontier

  ghost function Missing(g: Graph, headers: set<Node>, excluded: set<Node>, target: Node): set<Node> {
    set x | x in g.nodes && x in headers && x !in excluded && !Reaches(g, x, target)
  }

  /** The missing headers that reach a missing header and are reached by it. */
  ghost function ClassOf(g: Graph, missing: set<Node>, x: Node): set<Node> {
    set y | y in missing && Mutual(g, x, y)
  }

  /** A class from which no other missing header can be reached. */
  ghost predicate IsSink(g: Graph, missing: set<Node>, x: Node) {
    forall y :: y in missing && Reaches(g, x, y) ==> Reaches(g, y, x)
  }

  /** The first node of a set in display order. */
  ghost predicate IsFirst(nodes: seq<Node>, s: set<Node>, x: Node) {
    x in s && exists i :: 0 <= i < |nodes| && nodes[i] == x && forall j :: 0 <= j < i ==> nodes[j] !in s
  }

  /** The insertion points: the first header of every sink class. */
  ghost predicate IsPoint(g: Graph, missing: set<Node>, x: Node) {
    x in missing && IsSink(g, missing, x) && IsFirst(g.nodes, ClassOf(g, missing, x), x)
  }

  lemma FirstUnique(nodes: seq<Node>, s: set<Node>, x: Node, y: Node)
    requires IsFirst(nodes, s, x) && IsFirst(nodes, s, y)
    ensures x == y
  {
    var i :| 0 <= i < |nodes| && nodes[i] == x && forall j :: 0 <= j < i ==> nodes[j] !in s;
    var k :| 0 <= k < |nodes| && nodes[k] == y && forall j :: 0 <= j < k ==> nodes[j] !in s;
  }

  /** min(s) in display order. */
  method FirstOf(nodes: seq<Node>, s: set<Node>, ghost member: Node) returns (x: Node)
    requires member in s && member in nodes
    ensures IsFirst(nodes, s, x)
  {
    var i := 0;
    while nodes[i] !in s
      invariant 0 <= i < |nodes| && (forall j :: 0 <= j < i ==> nodes[j] !in s)
      invariant exists j :: i <= j < |nodes| && nodes[j] == member
      decreases |nodes| - i
    {
      i := i + 1;
    }
    return nodes[i];
  }

  lemma MutualInside(g: Graph, x: Node)
    requires x in g.nodes
    ensures Mutual(g, x, x)
  {
    ReachesSelf(g, x);
  }

  lemma ClassSame(g: Graph, missing: set<Node>, x: Node, y: Node)
    requires Mutual(g, x, y)
    ensures ClassOf(g, missing, x) == ClassOf(g, missing, y)
  {
    hide Reaches;
    forall z
      ensures Mutual(g, x, z) <==> Mutual(g, y, z)
    {
      MutualTransitive(g, x, y, z);
      MutualTransitive(g, y, x, z);
    }
  }

  // ---------------------------------------------------------------------------------------------
  // Adding the required include

  /** The graph after adding an include of the target to some headers. */
  ghost function WithIncludes(g: Graph, points: set<Node>, target: Node): Graph {
    Graph(g.nodes, map x | x in g.nodes :: if x in points then EdgesOf(g, x) + [Edge(target, 0, true)] else EdgesOf(g, x))
  }

  lemma EdgeWithIncludes(g: Graph, points: set<Node>, target: Node, x: Node, y: Node)
    requires target in g.nodes
    ensures HasEdge(WithIncludes(g, points, target), x, y) <==>
              HasEdge(g, x, y) || (x in points && x in g.nodes && y == target)
  {
    var h := WithIncludes(g, points, target);
    if HasEdge(g, x, y) {
      var i :| 0 <= i < |EdgesOf(g, x)| && EdgesOf(g, x)[i].inside && EdgesOf(g, x)[i].target == y;
      assert EdgesOf(h, x)[i] == EdgesOf(g, x)[i];
    }
    if x in points && x in g.nodes && y == target {
      assert EdgesOf(h, x)[|EdgesOf(g, x)|] == Edge(target, 0, true);
    }
    if HasEdge(h, x, y) {
      var i :| 0 <= i < |EdgesOf(h, x)| && EdgesOf(h, x)[i].inside && EdgesOf(h, x)[i].target == y;
      if i < |EdgesOf(g, x)| {
        assert EdgesOf(h, x)[i] == EdgesOf(g, x)[i];
      }
    }
  }

  /** Every header of a set reaches the target once the points include it. */
  ghost predicate Covers(g: Graph, missing: set<Node>, points: set<Node>, target: Node) {
    forall x :: x in missing ==> Reaches(WithIncludes(g, points, target), x, target)
  }

  lemma PathWithIncludes(g: Graph, points: set<Node>, target: Node, p: seq<Node>, x: Node, y: Node)
    requires target in g.nodes && PathBetween(g, p, x, y)
    ensures Reaches(WithIncludes(g, points, target), x, y)
  {
    var h := WithIncludes(g, points, target);
    forall i | 0 <= i < |p| - 1
      ensures HasEdge(h, p[i], p[i + 1])
    {
      EdgeWithIncludes(g, points, target, p[i], p[i + 1]);
    }
    hide HasEdge;
    ReachesBy(h, p, x, y);
  }

  lemma ReachesPoint(g: Graph, points: set<Node>, target: Node, x: Node, p: Node)
    requires target in g.nodes && Reaches(g, x, p) && p in points
    ensures Reaches(WithIncludes(g, points, target), x, target)
  {
    ReachesInside(g, x, p);
    EdgeWithIncludes(g, points, target, p, target);
    var path :| PathBetween(g, path, x, p);
    hide HasEdge, PathBetween, WithIncludes;
    PathWithIncludes(g, points, target, path, x, p);
    ReachesStep(WithIncludes(g, points, target), x, p, target);
  }

  /** A header that reaches the target only with the new includes reaches one of the points without them. */
  lemma MustReachPoint(g: Graph, points: set<Node>, target: Node, x: Node) returns (p: Node)
    requires target in g.nodes && x in g.nodes && !Reaches(g, x, target)
    requires Reaches(WithIncludes(g, points, target), x, target)
    ensures p in points && Reaches(g, x, p)
  {
    var h := WithIncludes(g, points, target);
    var s := set y | y in g.nodes && Reaches(g, x, y);
    ReachesSelf(g, x);
    hide WithIncludes, HasEdge, Reaches;
    var u, v := ReachesExit(h, s, x, target);
    EdgeWithIncludes(g, points, target, u, v);
    if HasEdge(g, u, v) {
      ReachesStep(g, x, u, v);
      ReachesInside(g, x, v);
    }
    p := u;
  }

  // ---------------------------------------------------------------------------------------------
  // The frontier covers, is independent, and is as small as possible

  ghost function Below(g: Graph, missing: set<Node>, x: Node): set<Node> {
    set y | y in missing && Reaches(g, x, y)
  }

  lemma SinkBelow(g: Graph, missing: set<Node>, x: Node) returns (y: Node)
    requires x in missing && forall z :: z in missing ==> z in g.nodes
    ensures y in missing && Reaches(g, x, y) && IsSink(g, missing, y)
    decreases |Below(g, missing, x)|
  {
    ReachesSelf(g, x);
    hide Reaches;
    if IsSink(g, missing, x) {
      y := x;
    } else {
      var z :| z in missing && Reaches(g, x, z) && !Reaches(g, z, x);
      BelowShrinks(g, missing, x, z);
      y := SinkBelow(g, missing, z);
      ReachesTransitive(g, x, z, y);
    }
  }

  lemma BelowShrinks(g: Graph, missing: set<Node>, x: Node, z: Node)
    requires x in missing && Reaches(g, x, x) && Reaches(g, x, z) && !Reaches(g, z, x)
    ensures |Below(g, missing, z)| < |Below(g, missing, x)|
  {
    hide Reaches;
    forall y | y in Below(g, missing, z)
      ensures y in Below(g, missing, x)
    {
      ReachesTransitive(g, x, z, y);
    }
    assert x in Below(g, missing, x) && x !in Below(g, missing, z);
    Smaller(Below(g, missing, z), Below(g, missing, x), x);
  }

  lemma Smaller(a: set<Node>, b: set<Node>, x: Node)
    requires a <= b && x in b && x !in a
    ensures |a| < |b|
  {
    assert a <= b - {x};
    SubsetSize(a, b - {x});
  }

  lemma {:induction false} SubsetSize(a: set<Node>, b: set<Node>)
    requires a <= b
    ensures |a| <= |b|
  {
    if a != {} {
      var x :| x in a;
      SubsetSize(a - {x}, b - {x});
    }
  }

  lemma SinkOfClass(g: Graph, missing: set<Node>, x: Node, y: Node)
    requires IsSink(g, missing, x) && Mutual(g, x, y)
    ensures IsSink(g, missing, y)
  {
    hide Reaches;
    forall z | z in missing && Reaches(g, y, z)
      ensures Reaches(g, z, y)
    {
      ReachesTransitive(g, x, y, z);
      ReachesTransitive(g, z, x, y);
    }
  }

  lemma ClassHasPoint(g: Graph, missing: set<Node>, x: Node) returns (p: Node)
    requires x in missing && IsSink(g, missing, x) && forall z :: z in missing ==> z in g.nodes
    ensures IsPoint(g, missing, p) && Mutual(g, x, p)
  {
    MutualInside(g, x);
    p := FirstExists(g.nodes, ClassOf(g, missing, x), x);
    hide Reaches, IsFirst;
    assert Mutual(g, x, p);
    SinkOfClass(g, missing, x, p);
    ClassSame(g, missing, x, p);
  }

  lemma FirstExists(nodes: seq<Node>, s: set<Node>, x: Node) returns (p: Node)
    requires x in s && x in nodes
    ensures IsFirst(nodes, s, p) && p in s
  {
    var i := 0;
    while nodes[i] !in s
      invariant 0 <= i < |nodes| && (forall j :: 0 <= j < i ==> nodes[j] !in s)
      invariant exists j :: i <= j < |nodes| && nodes[j] == x
      decreases |nodes| - i
    {
      i := i + 1;
    }
    p := nodes[i];
  }

  /** Every missing header reaches the target after the include is added at every insertion point. */
  lemma FrontierCovers(g: Graph, missing: set<Node>, points: set<Node>, target: Node)
    requires target in g.nodes && forall z :: z in missing ==> z in g.nodes
    requires forall p :: p in points <==> IsPoint(g, missing, p)
    ensures Covers(g, missing, points, target)
  {
    hide Reaches, IsPoint, IsSink, WithIncludes;
    forall x | x in missing
      ensures Reaches(WithIncludes(g, points, target), x, target)
    {
      var y := SinkBelow(g, missing, x);
      var p := ClassHasPoint(g, missing, y);
      ReachesTransitive(g, x, y, p);
      ReachesPoint(g, points, target, x, p);
    }
  }

  /** No insertion point reaches another one. */
  lemma FrontierIndependent(g: Graph, missing: set<Node>, p: Node, q: Node)
    requires IsPoint(g, missing, p) && IsPoint(g, missing, q) && p != q
    ensures !Reaches(g, p, q)
  {
    hide Reaches, IsFirst;
    if Reaches(g, p, q) {
      assert Mutual(g, p, q);
      ClassSame(g, missing, p, q);
      FirstUnique(g.nodes, ClassOf(g, missing, p), p, q);
    }
  }

  /** A covering set of missing headers has a member in the class of every insertion point. */
  lemma ClassIsHit(g: Graph, missing: set<Node>, target: Node, cover: set<Node>, p: Node) returns (c: Node)
    requires target in g.nodes && cover <= missing && Covers(g, missing, cover, target)
    requires IsPoint(g, missing, p) && p in g.nodes && !Reaches(g, p, target)
    ensures c in cover && c in ClassOf(g, missing, p)
  {
    hide Reaches, IsFirst, WithIncludes;
    c := MustReachPoint(g, cover, target, p);
  }

  lemma {:induction false} FrontierAtMost(g: Graph, missing: set<Node>, target: Node, cover: set<Node>, rest: set<Node>, points: set<Node>)
    requires target in g.nodes && cover <= missing && Covers(g, missing, cover, target)
    requires forall p :: p in points ==> IsPoint(g, missing, p) && p in g.nodes && !Reaches(g, p, target)
    requires rest <= cover && forall c, p :: c in cover && p in points && c in ClassOf(g, missing, p) ==> c in rest
    ensures |points| <= |rest|
    decreases |points|
  {
    hide Reaches, IsPoint, Covers, WithIncludes;
    if points != {} {
      var p :| p in points;
      var c := ClassIsHit(g, missing, target, cover, p);
      forall d, q | d in cover && q in points - {p} && d in ClassOf(g, missing, q)
        ensures d in rest - {c}
      {
        if d == c {
          MutualTransitive(g, p, c, q);
          MutualTransitive(g, q, c, p);
          FrontierIndependent(g, missing, p, q);
        }
      }
      FrontierAtMost(g, missing, target, cover, rest - {c}, points - {p});
    }
  }

  /** No smaller set of missing headers covers all of them. */
  lemma FrontierSmallest(g: Graph, missing: set<Node>, target: Node, points: set<Node>, cover: set<Node>)
    requires target in g.nodes && cover <= missing && Covers(g, missing, cover, target)
    requires forall x :: x in missing ==> x in g.nodes && !Reaches(g, x, target)
    requires forall p :: p in points <==> IsPoint(g, missing, p)
    ensures |points| <= |cover|
  {
    forall p | p in points
      ensures p in missing
    {
      assert IsPoint(g, missing, p);
    }
    hide Reaches, IsPoint, Covers, ClassOf;
    FrontierAtMost(g, missing, target, cover, cover, points);
  }

  // ---------------------------------------------------------------------------------------------
  // The analysis

  method FindMissing(g: Graph, headers: set<Node>, excluded: set<Node>, target: Node) returns (missing: set<Node>)
    requires target in g.nodes
    ensures missing == Missing(g, headers, excluded, target)
  {
    hide Reaches;
    missing := {};
    for i := 0 to |g.nodes|
      invariant forall x :: x in missing <==>
        x in g.nodes[..i] && x in headers && x !in excluded && !Reaches(g, x, target)
    {
      var reaches := ReachesNode(g, g.nodes[i], target);
      assert g.nodes[..i + 1] == g.nodes[..i] + [g.nodes[i]];
      if g.nodes[i] in headers && g.nodes[i] !in excluded && !reaches {
        missing := missing + {g.nodes[i]};
      }
    }
    assert g.nodes[..|g.nodes|] == g.nodes;
  }

  /** The missing headers reachable from each missing header, without the header itself. */
  ghost predicate IsReachTable(g: Graph, missing: set<Node>, table: map<Node, set<Node>>) {
    table.Keys == missing && forall x :: x in missing ==> table[x] == ReachableFrom(g, x) * missing
  }

  method BuildReachTable(g: Graph, missing: set<Node>) returns (table: map<Node, set<Node>>)
    requires forall x :: x in missing ==> x in g.nodes
    ensures IsReachTable(g, missing, table)
  {
    hide ReachableFrom;
    table := map[];
    var rest := missing;
    while rest != {}
      invariant rest <= missing && table.Keys == missing - rest
      invariant forall x :: x in table ==> table[x] == ReachableFrom(g, x) * missing
      decreases |rest|
    {
      var x :| x in rest;
      var reachable := Reachable(g, x);
      table := table[x := reachable * missing];
      rest := rest - {x};
    }
  }

  lemma TableIsClass(g: Graph, missing: set<Node>, table: map<Node, set<Node>>, first: Node, x: Node)
    requires IsReachTable(g, missing, table) && first in missing && x in missing && forall y :: y in missing ==> y in g.nodes
    ensures x == first || (x in table[first] && first in table[x]) <==> Mutual(g, first, x)
  {
    hide Reaches;
    MutualInside(g, first);
  }

  /** Whole classes are taken out of the remaining headers. */
  ghost predicate ClassesRemain(g: Graph, missing: set<Node>, remaining: set<Node>) {
    remaining <= missing && forall x, y :: x in remaining && y in missing && Mutual(g, x, y) ==> y in remaining
  }

  method TakeComponent(g: Graph, missing: set<Node>, table: map<Node, set<Node>>, remaining: set<Node>)
    returns (component: set<Node>)
    requires IsReachTable(g, missing, table) && ClassesRemain(g, missing, remaining) && remaining != {}
    requires forall x :: x in missing ==> x in g.nodes
    ensures exists first :: first in remaining && component == ClassOf(g, missing, first)
    ensures component <= remaining && component != {} && ClassesRemain(g, missing, remaining - component)
  {
    hide Reaches, Mutual, IsFirst;
    ghost var member :| member in remaining;
    var first := FirstOf(g.nodes, remaining, member);
    FirstIsMember(g.nodes, remaining, first);
    component := set x | x in remaining && (x == first || (x in table[first] && first in table[x]));
    forall x | x in missing
      ensures x in component <==> Mutual(g, first, x)
    {
      TableIsClass(g, missing, table, first, x);
    }
    assert component == ClassOf(g, missing, first);
    forall x, y | x in remaining - component && y in missing && Mutual(g, x, y)
      ensures y in remaining - component
    {
      MutualTransitive(g, x, y, first);
      MutualTransitive(g, first, y, x);
      MutualTransitive(g, y, x, first);
      MutualTransitive(g, first, x, y);
    }
    MutualInside(g, first);
    TableIsClass(g, missing, table, first, first);
  }

  lemma FirstIsMember(nodes: seq<Node>, s: set<Node>, x: Node)
    requires IsFirst(nodes, s, x)
    ensures x in s && x in nodes
  {}

  ghost predicate IsClass(g: Graph, missing: set<Node>, c: set<Node>) {
    exists x :: x in c && x in missing && c == ClassOf(g, missing, x)
  }

  ghost predicate ClassList(g: Graph, missing: set<Node>, components: seq<set<Node>>, covered: set<Node>) {
    && (forall i :: 0 <= i < |components| ==> IsClass(g, missing, components[i]))
    && (forall x :: x in covered ==> exists i :: 0 <= i < |components| && x in components[i])
  }

  method SplitIntoClasses(g: Graph, missing: set<Node>, table: map<Node, set<Node>>) returns (components: seq<set<Node>>)
    requires IsReachTable(g, missing, table) && forall x :: x in missing ==> x in g.nodes
    ensures ClassList(g, missing, components, missing)
  {
    hide Reaches, Mutual, IsReachTable;
    components := [];
    var remaining := missing;
    while remaining != {}
      invariant ClassesRemain(g, missing, remaining) && ClassList(g, missing, components, missing - remaining)
      decreases |remaining|
    {
      var component := TakeComponent(g, missing, table, remaining);
      ClassFrom(g, missing, component);
      hide ClassOf, ClassesRemain;
      ClassListNext(g, missing, components, missing - remaining, component);
      components := components + [component];
      assert missing - (remaining - component) <= missing - remaining + component;
      RemainingShrinks(remaining, component);
      remaining := remaining - component;
    }
    assert missing - {} == missing;
  }

  lemma RemainingShrinks(remaining: set<Node>, component: set<Node>)
    requires component <= remaining && component != {}
    ensures |remaining - component| < |remaining|
  {
    var x :| x in component;
    Smaller(remaining - component, remaining, x);
  }

  lemma ClassFrom(g: Graph, missing: set<Node>, c: set<Node>)
    requires c != {} && exists first :: c == ClassOf(g, missing, first)
    ensures IsClass(g, missing, c)
  {
    hide Mutual;
    var first :| c == ClassOf(g, missing, first);
    var x :| x in c;
    ClassSame(g, missing, first, x);
  }

  lemma ClassListNext(g: Graph, missing: set<Node>, components: seq<set<Node>>, covered: set<Node>, c: set<Node>)
    requires ClassList(g, missing, components, covered) && IsClass(g, missing, c)
    ensures ClassList(g, missing, components + [c], covered + c)
  {
    hide IsClass;
    var longer := components + [c];
    forall x | x in covered + c
      ensures exists i :: 0 <= i < |longer| && x in longer[i]
    {
      if x in covered {
        var i :| 0 <= i < |components| && x in components[i];
        assert longer[i] == components[i];
      } else {
        assert longer[|components|] == c;
      }
    }
  }

  function Outgoing(component: set<Node>, table: map<Node, set<Node>>): set<Node>
    requires component <= table.Keys
  {
    (set x, y | x in component && y in table[x] :: y) - component
  }

  lemma OutgoingHas(component: set<Node>, table: map<Node, set<Node>>, x: Node, y: Node)
    requires component <= table.Keys && x in component && y in table[x] && y !in component
    ensures y in Outgoing(component, table)
  {}

  /** A class without outgoing missing headers is a sink, and the other way round. */
  lemma OutgoingIsSink(g: Graph, missing: set<Node>, table: map<Node, set<Node>>, c: set<Node>, x: Node)
    requires IsReachTable(g, missing, table) && x in missing && c == ClassOf(g, missing, x)
    requires forall y :: y in missing ==> y in g.nodes
    ensures c <= table.Keys
    ensures Outgoing(c, table) == {} <==> IsSink(g, missing, x)
  {
    hide Reaches;
    MutualInside(g, x);
    if Outgoing(c, table) == {} {
      forall y | y in missing && Reaches(g, x, y)
        ensures Reaches(g, y, x)
      {
        if y != x && !Reaches(g, y, x) {
          OutgoingHas(c, table, x, y);
        }
      }
    }
    if IsSink(g, missing, x) {
      forall z, y | z in c && y in table[z]
        ensures y in c
      {
        ReachesTransitive(g, x, z, y);
      }
    }
  }

  /** The point of a class, when the class is a sink. */
  lemma PointOfClass(g: Graph, missing: set<Node>, c: set<Node>, x: Node, p: Node)
    requires x in missing && c == ClassOf(g, missing, x) && p in c
    ensures IsSink(g, missing, x) <==> IsSink(g, missing, p)
    ensures c == ClassOf(g, missing, p) && p in missing
  {
    hide Reaches, IsSink;
    ClassSame(g, missing, x, p);
    MutualTransitive(g, x, p, x);
    if IsSink(g, missing, x) {
      SinkOfClass(g, missing, x, p);
    }
    if IsSink(g, missing, p) {
      SinkOfClass(g, missing, p, x);
    }
  }

  /** The points chosen from the first classes of a list. */
  ghost predicate PointsSoFar(g: Graph, missing: set<Node>, components: seq<set<Node>>, n: nat, points: set<Node>)
    requires n <= |components|
  {
    forall p :: p in points <==> IsPoint(g, missing, p) && exists i :: 0 <= i < n && p in components[i]
  }

  method ChoosePoint(g: Graph, missing: set<Node>, table: map<Node, set<Node>>, component: set<Node>)
    returns (found: bool, p: Node)
    requires IsReachTable(g, missing, table) && IsClass(g, missing, component)
    requires forall y :: y in missing ==> y in g.nodes
    ensures found ==> p in component && IsPoint(g, missing, p)
    ensures forall q :: q in component && IsPoint(g, missing, q) ==> found && q == p
  {
    hide Reaches, IsFirst, IsSink;
    ghost var x :| x in component && x in missing && component == ClassOf(g, missing, x);
    OutgoingIsSink(g, missing, table, component, x);
    p := FirstOf(g.nodes, component, x);
    FirstIsMember(g.nodes, component, p);
    found := Outgoing(component, table) == {};
    PointOfClass(g, missing, component, x, p);
    hide ClassOf, Outgoing, IsReachTable;
    forall q | q in component && IsPoint(g, missing, q)
      ensures found && q == p
    {
      PointOfClass(g, missing, component, x, q);
      FirstUnique(g.nodes, component, p, q);
    }
  }

  lemma PointsNext(g: Graph, missing: set<Node>, components: seq<set<Node>>, n: nat, points: set<Node>, found: bool, p: Node)
    requires n < |components| && PointsSoFar(g, missing, components, n, points)
    requires found ==> p in components[n] && IsPoint(g, missing, p)
    requires forall q :: q in components[n] && IsPoint(g, missing, q) ==> found && q == p
    ensures PointsSoFar(g, missing, components, n + 1, if found then points + {p} else points)
  {
    hide IsPoint;
    var after := if found then points + {p} else points;
    forall q
      ensures q in after <==> IsPoint(g, missing, q) && exists i :: 0 <= i < n + 1 && q in components[i]
    {
      if q in points {
        var i :| 0 <= i < n && q in components[i];
      }
    }
  }

  /** The missing headers and the insertion points, both in display order. */
  method AnalyzeRequiredDependency(g: Graph, headers: set<Node>, excluded: set<Node>, target: Node)
    returns (missing: seq<Node>, insertionPoints: seq<Node>)
    requires target in g.nodes
    ensures missing == Selected(g.nodes, Missing(g, headers, excluded, target))
    ensures forall p :: p in insertionPoints <==> IsPoint(g, Missing(g, headers, excluded, target), p)
    ensures insertionPoints == Selected(g.nodes, PointSet(insertionPoints))
    ensures forall x :: x in missing <==> x in Missing(g, headers, excluded, target)
    ensures InDisplayOrder(g.nodes, missing) && InDisplayOrder(g.nodes, insertionPoints)
  {
    hide *;
    var absent := FindMissing(g, headers, excluded, target);
    MissingInside(g, headers, excluded, target);
    var table := BuildReachTable(g, absent);
    var components := SplitIntoClasses(g, absent, table);
    var points: set<Node> := {};
    NoPoints(g, absent, components);
    for i := 0 to |components|
      invariant PointsSoFar(g, absent, components, i, points)
    {
      ClassAt(g, absent, components, i);
      var found, p := ChoosePoint(g, absent, table, components[i]);
      PointsNext(g, absent, components, i, points, found, p);
      if found {
        points := points + {p};
      }
    }
    AllPoints(g, absent, components, points);
    SelectedPoints(g.nodes, points);
    SelectedPoints(g.nodes, absent);
    SelectedOrdered(g.nodes, absent);
    SelectedOrdered(g.nodes, points);
    return Selected(g.nodes, absent), Selected(g.nodes, points);
  }

  ghost function PointSet(points: seq<Node>): set<Node> {
    set p | p in points
  }

  lemma MissingInside(g: Graph, headers: set<Node>, excluded: set<Node>, target: Node)
    ensures forall x :: x in Missing(g, headers, excluded, target) ==> x in g.nodes && !Reaches(g, x, target)
  {
    hide Reaches;
  }

  lemma NoPoints(g: Graph, missing: set<Node>, components: seq<set<Node>>)
    ensures PointsSoFar(g, missing, components, 0, {})
  {}

  lemma ClassAt(g: Graph, missing: set<Node>, components: seq<set<Node>>, i: nat)
    requires ClassList(g, missing, components, missing) && i < |components|
    ensures IsClass(g, missing, components[i])
  {
    hide IsClass;
  }

  lemma AllPoints(g: Graph, missing: set<Node>, components: seq<set<Node>>, points: set<Node>)
    requires ClassList(g, missing, components, missing) && PointsSoFar(g, missing, components, |components|, points)
    requires forall x :: x in missing ==> x in g.nodes
    ensures forall p :: p in points <==> IsPoint(g, missing, p)
    ensures forall p :: p in points ==> p in g.nodes
  {
    hide IsClass, IsSink, IsFirst, ClassOf;
  }

  lemma SelectedPoints(nodes: seq<Node>, points: set<Node>)
    requires forall p :: p in points ==> p in nodes
    ensures forall p :: p in Selected(nodes, points) <==> p in points
    ensures PointSet(Selected(nodes, points)) == points
  {
    hide Selected;
  }

  /**
   * The analysis finds a smallest cover: its points make every missing header reach the target, none of
   * them reaches another, and no set of missing headers does the same with fewer.
   */
  lemma AnalysisIsMinimal(g: Graph, headers: set<Node>, excluded: set<Node>, target: Node, points: set<Node>, cover: set<Node>)
    requires target in g.nodes
    requires forall p :: p in points <==> IsPoint(g, Missing(g, headers, excluded, target), p)
    ensures Covers(g, Missing(g, headers, excluded, target), points, target)
    ensures forall p, q :: p in points && q in points && p != q ==> !Reaches(g, p, q)
    ensures points <= Missing(g, headers, excluded, target)
    ensures (cover <= Missing(g, headers, excluded, target)
             && Covers(g, Missing(g, headers, excluded, target), cover, target)) ==> |points| <= |cover|
  {
    var missing := Missing(g, headers, excluded, target);
    MissingInside(g, headers, excluded, target);
    assert points <= missing by {
      hide Reaches, IsSink, IsFirst;
    }
    hide Missing, Reaches, IsPoint, Covers;
    FrontierCovers(g, missing, points, target);
    forall p, q | p in points && q in points && p != q
      ensures !Reaches(g, p, q)
    {
      FrontierIndependent(g, missing, p, q);
    }
    if cover <= missing && Covers(g, missing, cover, target) {
      FrontierSmallest(g, missing, target, points, cover);
    }
  }
}
