// Sums over finite sets, and the ascending listing of a finite set of integers.
module Collections {

  ghost function Sum(s: set<nat>, g: nat -> int): int
    decreases |s|
  {
    if s == {} then 0 else var x :| x in s; g(x) + Sum(s - {x}, g)
  }

  lemma {:induction false} SumPick(s: set<nat>, x: nat, g: nat -> int)
    requires x in s
    ensures Sum(s, g) == g(x) + Sum(s - {x}, g)
    decreases |s|
  {
    var y :| y in s && Sum(s, g) == g(y) + Sum(s - {y}, g);
    if y != x {
      SumPick(s - {y}, x, g);
      SumPick(s - {x}, y, g);
      assert s - {y} - {x} == s - {x} - {y};
    }
  }

  lemma {:induction false} SumUnion(s: set<nat>, t: set<nat>, g: nat -> int)
    requires s !! t
    ensures Sum(s + t, g) == Sum(s, g) + Sum(t, g)
    decreases |s|
  {
    if s == {} {
      assert s + t == t;
    } else {
      var x :| x in s;
      SumPick(s, x, g);
      SumPick(s + t, x, g);
      SumUnion(s - {x}, t, g);
      assert s + t - {x} == (s - {x}) + t;
    }
  }

  lemma SumSingle(x: nat, g: nat -> int)
    ensures Sum({x}, g) == g(x)
  {
    SumPick({x}, x, g);
    assert {x} - {x} == {};
  }

  lemma {:induction false} SumCongruent(s: set<nat>, g: nat -> int, h: nat -> int)
    requires forall x :: x in s ==> g(x) == h(x)
    ensures Sum(s, g) == Sum(s, h)
    decreases |s|
  {
    if s != {} {
      var x :| x in s;
      SumPick(s, x, g);
      SumPick(s, x, h);
      SumCongruent(s - {x}, g, h);
    }
  }

  lemma {:induction false} SumPlus(s: set<nat>, g: nat -> int, h: nat -> int, k: nat -> int)
    requires forall x :: x in s ==> k(x) == g(x) + h(x)
    ensures Sum(s, k) == Sum(s, g) + Sum(s, h)
    decreases |s|
  {
    if s != {} {
      var x :| x in s;
      SumPick(s, x, g);
      SumPick(s, x, h);
      SumPick(s, x, k);
      SumPlus(s - {x}, g, h, k);
    }
  }

  // ---------------------------------------------------------------------------------------------

  ghost predicate Ascending(xs: seq<nat>) {
    forall i, j :: 0 <= i < j < |xs| ==> xs[i] < xs[j]
  }

  ghost predicate IsLeast(x: nat, s: set<nat>) {
    x in s && forall y :: y in s ==> x <= y
  }

  lemma LeastBelow(s: set<nat>, x: nat) returns (m: nat)
    requires x in s
    ensures IsLeast(m, s)
    decreases x
  {
    m := x;
    if y :| y in s && y < x {
      m := LeastBelow(s, y);
    }
  }

  lemma LeastExists(s: set<nat>)
    requires s != {}
    ensures exists x :: IsLeast(x, s)
  {
    var x :| x in s;
    x := LeastBelow(s, x);
  }

  /** The elements of a set in ascending order. */
  function Listed(s: set<nat>): (r: seq<nat>)
    ensures Ascending(r) && |r| == |s|
    ensures forall x :: x in r <==> x in s
  {
    if s == {} then []
    else
      LeastExists(s);
      var x :| x in s && forall y :: y in s ==> x <= y;
      var rest := Listed(s - {x});
      Prepend(x, rest, s);
      [x] + rest
  }

  lemma Prepend(x: nat, rest: seq<nat>, s: set<nat>)
    requires Ascending(rest) && x in s
    requires forall y :: y in s ==> x <= y
    requires forall y :: y in rest <==> y in s - {x}
    ensures Ascending([x] + rest)
    ensures forall y :: y in [x] + rest <==> y in s
  {
    forall j | 0 <= j < |rest|
      ensures x < rest[j]
    {
      assert rest[j] in rest;
    }
  }
}
