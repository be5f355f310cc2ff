// Reachability by a worklist.
module GraphSearch {
  import opened Graphs

  /** The nodes that the program calls reachable: the start itself is never among them. */
  ghost function ReachableFrom(g: Graph, start: Node): set<Node> {
    set x | x in g.nodes && x != start && Reaches(g, start, x)
  }

  // ---------------------------------------------------------------------------------------------
  // The worklist

  ghost predicate Worklist(g: Graph, start: Node, result: set<Node>, pending: seq<Node>) {
    && (forall x :: x in result ==> x != start && Reaches(g, start, x))
    && (forall x :: x in pending ==> Reaches(g, start, x))
    && (forall x, y :: (x in result || x == start) && HasEdge(g, x, y) ==> y in result || y == start || y in pending)
  }

  lemma AdjacentReached(g: Graph, start: Node, x: Node)
    requires Reaches(g, start, x)
    ensures forall y :: y in Adjacent(g, x) <==> HasEdge(g, x, y)
    ensures forall y :: y in Adjacent(g, x) ==> Reaches(g, start, y)
  {
    hide Reaches, Adjacent, HasEdge;
    ReachesInside(g, start, x);
    forall y
      ensures y in Adjacent(g, x) <==> HasEdge(g, x, y)
      ensures y in Adjacent(g, x) ==> Reaches(g, start, y)
    {
      AdjacentIsEdge(g, x, y);
      if HasEdge(g, x, y) {
        ReachesStep(g, start, x, y);
      }
    }
  }

  lemma WorklistFirst(g: Graph, start: Node)
    requires start in g.nodes
    ensures Worklist(g, start, {}, Adjacent(g, start))
  {
    ReachesSelf(g, start);
    AdjacentReached(g, start, start);
    hide Reaches, Adjacent, HasEdge;
  }

  lemma WorklistSkip(g: Graph, start: Node, result: set<Node>, pending: seq<Node>)
    requires Worklist(g, start, result, pending) && pending != []
    requires pending[|pending| - 1] == start || pending[|pending| - 1] in result
    ensures Worklist(g, start, result, pending[..|pending| - 1])
  {
    hide Reaches, HasEdge;
    var n := |pending| - 1;
    assert pending == pending[..n] + [pending[n]];
  }

  lemma WorklistAdd(g: Graph, start: Node, result: set<Node>, pending: seq<Node>, x: Node)
    requires Worklist(g, start, result, pending) && pending != []
    requires x == pending[|pending| - 1] && x != start && x !in result
    ensures Worklist(g, start, result + {x}, pending[..|pending| - 1] + Adjacent(g, x))
    ensures x in g.nodes
  {
    var n := |pending| - 1;
    assert x in pending;
    AdjacentReached(g, start, x);
    ReachesInside(g, start, x);
    hide Reaches, HasEdge, Adjacent;
    assert pending == pending[..n] + [x];
  }

  lemma WorklistDone(g: Graph, start: Node, result: set<Node>)
    requires Worklist(g, start, result, []) && start in g.nodes
    ensures result == ReachableFrom(g, start)
  {
    var s := result + {start};
    assert Closed(g, s) by {
      hide HasEdge, Reaches;
    }
    forall x
      ensures x in result <==> x in g.nodes && x != start && Reaches(g, start, x)
    {
      if x in result {
        ReachesInside(g, start, x);
      }
      if Reaches(g, start, x) {
        ClosedContains(g, s, start, x);
      }
    }
  }

  /** Every internal node reachable from the start over at least one include, without the start. */
  method Reachable(g: Graph, start: Node) returns (result: set<Node>)
    requires start in g.nodes
    ensures result == ReachableFrom(g, start)
  {
    hide *;
    result := {};
    var pending := Adjacent(g, start);
    WorklistFirst(g, start);
    while pending != []
      invariant Worklist(g, start, result, pending)
      decreases NodeSet(g) - result, |pending|
    {
      var current := pending[|pending| - 1];
      ghost var before := result;
      if current == start || current in result {
        WorklistSkip(g, start, result, pending);
        pending := pending[..|pending| - 1];
      } else {
        WorklistAdd(g, start, result, pending, current);
        FewerLeft(g, result, current);
        result := result + {current};
        pending := pending[..|pending| - 1] + Adjacent(g, current);
      }
    }
    WorklistDone(g, start, result);
  }

  lemma FewerLeft(g: Graph, result: set<Node>, x: Node)
    requires x in g.nodes && x !in result
    ensures NodeSet(g) - (result + {x}) < NodeSet(g) - result
  {
    assert x in NodeSet(g) - result;
  }

  /** Reachability over any number of includes, zero included. */
  method ReachesNode(g: Graph, source: Node, target: Node) returns (r: bool)
    requires source in g.nodes && target in g.nodes
    ensures r <==> Reaches(g, source, target)
  {
    if source == target {
      ReachesSelf(g, source);
      return true;
    }
    var reachable := Reachable(g, source);
    return target in reachable;
  }
}
