// The order in which include cycles are reported: that of their first headers, and so on.
module ComponentOrder {
  import opened Graphs
  import opened TarjanInvariant

  /** Lists compare as tuples do: by their first difference, a beginning of a list before the list. */
  predicate AtMost(nodes: seq<Node>, a: seq<Node>, b: seq<Node>) {
    || a == []
    || (b != [] && (|| Place(nodes, a[0]) < Place(nodes, b[0])
                    || (Place(nodes, a[0]) == Place(nodes, b[0]) && AtMost(nodes, a[1..], b[1..]))))
  }

  lemma {:induction false} AtMostTotal(nodes: seq<Node>, a: seq<Node>, b: seq<Node>)
    ensures AtMost(nodes, a, b) || AtMost(nodes, b, a)
  {
    if a != [] && b != [] {
      AtMostTotal(nodes, a[1..], b[1..]);
    }
  }

  lemma {:induction false} AtMostTransitive(nodes: seq<Node>, a: seq<Node>, b: seq<Node>, c: seq<Node>)
    requires AtMost(nodes, a, b) && AtMost(nodes, b, c)
    ensures AtMost(nodes, a, c)
  {
    if a != [] {
      hide Place;
      if Place(nodes, a[0]) == Place(nodes, b[0]) == Place(nodes, c[0]) {
        AtMostTransitive(nodes, a[1..], b[1..], c[1..]);
      }
    }
  }

  function Insert(nodes: seq<Node>, x: seq<Node>, lists: seq<seq<Node>>): (r: seq<seq<Node>>)
    ensures |r| == |lists| + 1
  {
    if lists == [] || AtMost(nodes, x, lists[0]) then [x] + lists else [lists[0]] + Insert(nodes, x, lists[1..])
  }

  /** The lists in ascending order. */
  function Sorted(nodes: seq<Node>, lists: seq<seq<Node>>): (r: seq<seq<Node>>)
    ensures |r| == |lists|
  {
    if lists == [] then [] else Insert(nodes, lists[0], Sorted(nodes, lists[1..]))
  }

  ghost predicate Ascending(nodes: seq<Node>, lists: seq<seq<Node>>) {
    forall i, j :: 0 <= i < j < |lists| ==> AtMost(nodes, lists[i], lists[j])
  }

  ghost predicate Disjoint(lists: seq<seq<Node>>) {
    forall i, j :: 0 <= i < j < |lists| ==> Elements(lists[i]) !! Elements(lists[j])
  }

  lemma {:induction false} InsertHas(nodes: seq<Node>, x: seq<Node>, lists: seq<seq<Node>>, l: seq<Node>)
    ensures l in Insert(nodes, x, lists) <==> l == x || l in lists
  {
    hide AtMost;
    if lists != [] {
      assert lists == [lists[0]] + lists[1..];
      InsertHas(nodes, x, lists[1..], l);
    }
  }

  lemma {:induction false} InsertAscending(nodes: seq<Node>, x: seq<Node>, lists: seq<seq<Node>>)
    requires Ascending(nodes, lists)
    ensures Ascending(nodes, Insert(nodes, x, lists))
  {
    hide AtMost;
    if lists == [] {
    } else if AtMost(nodes, x, lists[0]) {
      forall j | 0 <= j < |lists|
        ensures AtMost(nodes, x, lists[j])
      {
        if j > 0 {
          AtMostTransitive(nodes, x, lists[0], lists[j]);
        }
      }
    } else {
      AtMostTotal(nodes, x, lists[0]);
      InsertAscending(nodes, x, lists[1..]);
      var rest := Insert(nodes, x, lists[1..]);
      forall j | 0 <= j < |rest|
        ensures AtMost(nodes, lists[0], rest[j])
      {
        InsertHas(nodes, x, lists[1..], rest[j]);
      }
    }
  }

  lemma {:induction false} InsertDisjoint(nodes: seq<Node>, x: seq<Node>, lists: seq<seq<Node>>)
    requires Disjoint(lists) && forall l :: l in lists ==> Elements(x) !! Elements(l)
    ensures Disjoint(Insert(nodes, x, lists))
  {
    hide AtMost, Elements;
    if lists != [] && !AtMost(nodes, x, lists[0]) {
      var rest := Insert(nodes, x, lists[1..]);
      InsertDisjoint(nodes, x, lists[1..]);
      forall j | 0 <= j < |rest|
        ensures Elements(lists[0]) !! Elements(rest[j])
      {
        InsertHas(nodes, x, lists[1..], rest[j]);
      }
    }
  }

  lemma {:induction false} SortedKeeps(nodes: seq<Node>, lists: seq<seq<Node>>)
    ensures Ascending(nodes, Sorted(nodes, lists))
    ensures forall l :: l in Sorted(nodes, lists) <==> l in lists
    ensures Disjoint(lists) ==> Disjoint(Sorted(nodes, lists))
  {
    if lists != [] {
      hide Insert, Ascending, Elements;
      var rest := Sorted(nodes, lists[1..]);
      SortedKeeps(nodes, lists[1..]);
      InsertAscending(nodes, lists[0], rest);
      forall l
        ensures l in Sorted(nodes, lists) <==> l in lists
      {
        InsertHas(nodes, lists[0], rest, l);
      }
      if Disjoint(lists) {
        InsertDisjoint(nodes, lists[0], rest);
      }
    }
  }

  ghost function Heads(lists: seq<seq<Node>>): seq<Node>
    requires forall i :: 0 <= i < |lists| ==> lists[i] != []
  {
    seq(|lists|, i requires 0 <= i < |lists| => lists[i][0])
  }

  /** Ascending lists without a common node have their first members in display order. */
  lemma HeadsOrdered(nodes: seq<Node>, lists: seq<seq<Node>>)
    requires Ascending(nodes, lists) && Disjoint(lists)
    requires forall i :: 0 <= i < |lists| ==> lists[i] != [] && lists[i][0] in nodes
    ensures InDisplayOrder(nodes, Heads(lists))
  {
    var places := seq(|lists|, i requires 0 <= i < |lists| => Place(nodes, lists[i][0]));
    forall i, j | 0 <= i < j < |lists|
      ensures places[i] < places[j]
    {
      assert lists[i][0] in Elements(lists[i]) && lists[j][0] in Elements(lists[j]);
      assert AtMost(nodes, lists[i], lists[j]);
    }
    assert ArePlaces(nodes, Heads(lists), places);
  }
}
