// Paths of the same length in the order of their first differing nodes.
module PathOrder {
  import opened Graphs

  /** At the first difference the first path has the node that is displayed earlier. */
  predicate Less(nodes: seq<Node>, a: seq<Node>, b: seq<Node>) {
    a != [] && b != [] && (Place(nodes, a[0]) < Place(nodes, b[0]) || (a[0] == b[0] && Less(nodes, a[1..], b[1..])))
  }

  ghost predicate NotAfter(nodes: seq<Node>, a: seq<Node>, b: seq<Node>) {
    a == b || Less(nodes, a, b)
  }

  lemma {:induction false} LessNotItself(nodes: seq<Node>, a: seq<Node>)
    ensures !Less(nodes, a, a)
  {
    if a != [] {
      LessNotItself(nodes, a[1..]);
    }
  }

  lemma {:induction false} LessTransitive(nodes: seq<Node>, a: seq<Node>, b: seq<Node>, c: seq<Node>)
    requires Less(nodes, a, b) && Less(nodes, b, c)
    ensures Less(nodes, a, c)
  {
    hide Place;
    if a[0] == b[0] == c[0] {
      LessTransitive(nodes, a[1..], b[1..], c[1..]);
    }
  }

  lemma {:induction false} LessAppend(nodes: seq<Node>, a: seq<Node>, b: seq<Node>, x: Node, y: Node)
    requires Less(nodes, a, b)
    ensures Less(nodes, a + [x], b + [y])
  {
    hide Place;
    if Place(nodes, a[0]) >= Place(nodes, b[0]) {
      LessAppend(nodes, a[1..], b[1..], x, y);
      assert (a + [x])[1..] == a[1..] + [x] && (b + [y])[1..] == b[1..] + [y];
    }
  }

  lemma {:induction false} LessLast(nodes: seq<Node>, a: seq<Node>, x: Node, y: Node)
    requires Place(nodes, x) < Place(nodes, y)
    ensures Less(nodes, a + [x], a + [y])
  {
    hide Place;
    if a != [] {
      LessLast(nodes, a[1..], x, y);
      assert (a + [x])[1..] == a[1..] + [x] && (a + [y])[1..] == a[1..] + [y];
    }
  }

  lemma NotAfterAppend(nodes: seq<Node>, a: seq<Node>, b: seq<Node>, c: seq<Node>, x: Node)
    requires (a == b || Less(nodes, a, b)) && NotAfter(nodes, b, c)
    ensures NotAfter(nodes, a + [x], c + [x])
  {
    if Less(nodes, a, b) && Less(nodes, b, c) {
      LessTransitive(nodes, a, b, c);
    }
    hide Less;
    if Less(nodes, a, c) {
      LessAppend(nodes, a, c, x, x);
    }
  }

  /** Where nodes are displayed once, a list in display order has ascending places. */
  lemma OrderedPlaces(nodes: seq<Node>, s: seq<Node>, i: nat, j: nat)
    requires InDisplayOrder(nodes, s) && i < j < |s|
    requires forall k, l :: 0 <= k < l < |nodes| ==> nodes[k] != nodes[l]
    ensures Place(nodes, s[i]) < Place(nodes, s[j])
  {
    var places :| ArePlaces(nodes, s, places);
    assert s[i] in nodes && s[j] in nodes;
    hide Place;
    assert nodes[Place(nodes, s[i])] == s[i] && nodes[Place(nodes, s[j])] == s[j];
  }
}
