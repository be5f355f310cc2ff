// Full decomposition: plain recursion, what it guarantees, and the memoised computation of the generator.
module Decomposition {
  import opened MappingGraph
  import opened CycleSearch
  import opened CompositionChains

  /** A direct mapping; canonical decomposition ignores the compatibility mappings. */
  datatype Mapping = Mapping(target: seq<nat>, compatibility: bool)

  type Mappings = map<nat, Mapping>

  /** The mappings of canonical or of compatibility decomposition. */
  function Applicable(m: Mappings, compatibility: bool): Graph {
    map x | x in m && (compatibility || !m[x].compatibility) :: m[x].target
  }

  /** The reader of the source file rejects empty mappings. */
  ghost predicate NoneEmpty(m: Mappings) {
    forall x :: x in m ==> m[x].target != []
  }

  lemma WalkWider(m: Mappings, p: seq<nat>)
    requires IsWalk(Applicable(m, false), p)
    ensures IsWalk(Applicable(m, true), p)
  {
    forall i | 0 <= i < |p| - 1
      ensures Step(Applicable(m, true), p[i], p[i + 1])
    {
      assert Step(Applicable(m, false), p[i], p[i + 1]);
    }
  }

  /** Fewer mappings close no cycle. */
  lemma CanonicalAcyclic(m: Mappings, compatibility: bool)
    requires Acyclic(Applicable(m, true))
    ensures Acyclic(Applicable(m, compatibility))
  {
    if !compatibility {
      forall p
        ensures !IsCycle(Applicable(m, false), p)
      {
        if IsCycle(Applicable(m, false), p) {
          WalkWider(m, p);
          assert IsCycle(Applicable(m, true), p);
        }
      }
    }
  }

  // ---------------------------------------------------------------------------------------------
  // Plain recursion

  function Flatten(parts: seq<seq<nat>>): (r: seq<nat>) {
    if parts == [] then [] else parts[0] + Flatten(parts[1..])
  }

  lemma TargetsLower(g: Graph, x: nat)
    requires Acyclic(g)
    ensures forall i :: 0 <= i < |Next(g, x)| ==> Height(g, Next(g, x)[i]) < Height(g, x)
  {
    hide IsLongest;
    forall i | 0 <= i < |Next(g, x)|
      ensures Height(g, Next(g, x)[i]) < Height(g, x)
    {
      LongestSteps(g, x, Next(g, x)[i], Height(g, x), Height(g, Next(g, x)[i]));
    }
  }

  /** The full decomposition: every target decomposed in turn, until no mapping applies. */
  ghost function Full(g: Graph, x: nat): seq<nat>
    requires Acyclic(g)
    decreases Height(g, x)
  {
    if x !in g then [x]
    else
      TargetsLower(g, x);
      var targets := Next(g, x);
      Flatten(seq(|targets|, i requires 0 <= i < |targets| => Full(g, targets[i])))
  }

  /** Decomposing every code point of a string. */
  ghost function FullAll(g: Graph, xs: seq<nat>): seq<nat>
    requires Acyclic(g)
  {
    if xs == [] then [] else Full(g, xs[0]) + FullAll(g, xs[1..])
  }

  lemma {:induction false} FlattenFull(g: Graph, xs: seq<nat>, parts: seq<seq<nat>>)
    requires Acyclic(g) && |parts| == |xs| && forall i :: 0 <= i < |xs| ==> parts[i] == Full(g, xs[i])
    ensures Flatten(parts) == FullAll(g, xs)
  {
    hide Full, Acyclic;
    if xs != [] {
      FlattenFull(g, xs[1..], parts[1..]);
    }
  }

  lemma FullSteps(g: Graph, x: nat)
    requires Acyclic(g)
    ensures Full(g, x) == if x in g then FullAll(g, g[x]) else [x]
  {
    if x in g {
      TargetsLower(g, x);
      var targets := g[x];
      var parts := seq(|targets|, i requires 0 <= i < |targets| => Full(g, targets[i]));
      assert Full(g, x) == Flatten(parts);
      hide Full, Acyclic;
      FlattenFull(g, targets, parts);
    }
  }

  lemma {:induction false} FullAllAppend(g: Graph, xs: seq<nat>, ys: seq<nat>)
    requires Acyclic(g)
    ensures FullAll(g, xs + ys) == FullAll(g, xs) + FullAll(g, ys)
  {
    hide Full, Acyclic;
    if xs == [] {
      assert xs + ys == ys;
    } else {
      FullAllAppend(g, xs[1..], ys);
      assert (xs + ys)[1..] == xs[1..] + ys;
    }
  }

  lemma FullAllOne(g: Graph, x: nat)
    requires Acyclic(g)
    ensures FullAll(g, [x]) == Full(g, x)
  {
    hide Full, Acyclic;
    assert [x][1..] == [];
  }

  ghost predicate Final(g: Graph, xs: seq<nat>) {
    forall x :: x in xs ==> x !in g
  }

  /** No mapping applies to a full decomposition any more. */
  lemma {:induction false} FullIsFinal(g: Graph, x: nat)
    requires Acyclic(g)
    ensures Final(g, Full(g, x))
    decreases Height(g, x), 0
  {
    TargetsLower(g, x);
    FullSteps(g, x);
    if x in g {
      FullAllIsFinal(g, Next(g, x), Height(g, x));
    }
  }

  lemma {:induction false} FullAllIsFinal(g: Graph, xs: seq<nat>, height: nat)
    requires Acyclic(g) && forall i :: 0 <= i < |xs| ==> Height(g, xs[i]) < height
    ensures Final(g, FullAll(g, xs))
    decreases height, 0, |xs|
  {
    hide Acyclic;
    if xs != [] {
      FullIsFinal(g, xs[0]);
      FullAllIsFinal(g, xs[1..], height);
    }
  }

  lemma {:induction false} FinalStays(g: Graph, xs: seq<nat>)
    requires Acyclic(g) && Final(g, xs)
    ensures FullAll(g, xs) == xs
  {
    hide Acyclic;
    if xs != [] {
      assert xs[0] in xs;
      FullSteps(g, xs[0]);
      FinalStays(g, xs[1..]);
      assert xs == [xs[0]] + xs[1..];
    }
  }

  /** Decomposing twice is decomposing once. */
  lemma FullIdempotent(g: Graph, x: nat)
    requires Acyclic(g)
    ensures FullAll(g, Full(g, x)) == Full(g, x)
  {
    hide Acyclic, Final, Full;
    FullIsFinal(g, x);
    FinalStays(g, Full(g, x));
  }

  lemma CanonicalIsApplicable(m: Mappings, x: nat)
    ensures x in Applicable(m, false) ==> x in Applicable(m, true) && Applicable(m, true)[x] == Applicable(m, false)[x]
  {}

  /** A canonical decomposition decomposes further, with compatibility mappings, to what the original does. */
  lemma {:induction false} CompatibilityOfCanonical(m: Mappings, x: nat)
    requires Acyclic(Applicable(m, true)) && Acyclic(Applicable(m, false))
    ensures FullAll(Applicable(m, true), Full(Applicable(m, false), x)) == Full(Applicable(m, true), x)
    decreases Height(Applicable(m, false), x), 0
  {
    var (c, k) := (Applicable(m, false), Applicable(m, true));
    CanonicalIsApplicable(m, x);
    TargetsLower(c, x);
    FullSteps(c, x);
    FullSteps(k, x);
    hide Acyclic, Full, Applicable;
    if x in c {
      CompatibilityOfCanonicalAll(m, Next(c, x), Height(c, x));
    } else {
      FullAllOne(k, x);
    }
  }

  lemma {:induction false} CompatibilityOfCanonicalAll(m: Mappings, xs: seq<nat>, height: nat)
    requires Acyclic(Applicable(m, true)) && Acyclic(Applicable(m, false))
    requires forall i :: 0 <= i < |xs| ==> Height(Applicable(m, false), xs[i]) < height
    ensures FullAll(Applicable(m, true), FullAll(Applicable(m, false), xs)) == FullAll(Applicable(m, true), xs)
    decreases height, 0, |xs|
  {
    hide Acyclic, Full, Applicable;
    if xs != [] {
      CompatibilityOfCanonical(m, xs[0]);
      CompatibilityOfCanonicalAll(m, xs[1..], height);
      FullAllAppend(Applicable(m, true), Full(Applicable(m, false), xs[0]), FullAll(Applicable(m, false), xs[1..]));
    }
  }

  // ---------------------------------------------------------------------------------------------
  // Memoised computation

  type Key = (nat, bool)

  ghost predicate Expansions(m: Mappings, cache: map<Key, seq<nat>>)
    requires Acyclic(Applicable(m, true)) && Acyclic(Applicable(m, false))
  {
    forall key :: key in cache ==> cache[key] == Full(Applicable(m, key.1), key.0)
  }

  /** Depths count mappings, heights count code points. */
  ghost predicate Depths(m: Mappings, cache: map<Key, nat>)
    requires Acyclic(Applicable(m, true)) && Acyclic(Applicable(m, false))
  {
    forall key :: key in cache ==> cache[key] + 1 == Height(Applicable(m, key.1), key.0)
  }

  ghost predicate Acyclics(m: Mappings) {
    Acyclic(Applicable(m, true)) && Acyclic(Applicable(m, false))
  }

  lemma ApplicableEntry(m: Mappings, x: nat, compatibility: bool)
    ensures x in Applicable(m, compatibility) <==> x in m && (compatibility || !m[x].compatibility)
    ensures x in Applicable(m, compatibility) ==> Next(Applicable(m, compatibility), x) == m[x].target
    ensures x !in Applicable(m, compatibility) ==> Next(Applicable(m, compatibility), x) == []
  {}

  lemma AcyclicsParts(m: Mappings, compatibility: bool)
    requires Acyclics(m)
    ensures Acyclic(Applicable(m, true)) && Acyclic(Applicable(m, false)) && Acyclic(Applicable(m, compatibility))
  {}

  lemma ExpansionKnown(m: Mappings, cache: map<Key, seq<nat>>, key: Key)
    requires Acyclics(m) && Expansions(m, cache) && key in cache
    ensures cache[key] == Full(Applicable(m, key.1), key.0)
  {}

  lemma ExpansionAdded(m: Mappings, cache: map<Key, seq<nat>>, key: Key, r: seq<nat>)
    requires Acyclics(m) && Expansions(m, cache) && r == Full(Applicable(m, key.1), key.0)
    ensures Expansions(m, cache[key := r])
  {
    hide Full, Acyclic, Applicable;
  }

  lemma DepthKnown(m: Mappings, cache: map<Key, nat>, key: Key)
    requires Acyclics(m) && Depths(m, cache) && key in cache
    ensures cache[key] + 1 == Height(Applicable(m, key.1), key.0)
  {
    hide Acyclic, Applicable;
  }

  lemma DepthAdded(m: Mappings, cache: map<Key, nat>, key: Key, r: nat)
    requires Acyclics(m) && Depths(m, cache) && r + 1 == Height(Applicable(m, key.1), key.0)
    ensures Depths(m, cache[key := r])
  {
    hide Acyclic, Applicable, IsLongest;
  }

  lemma FullAllSnoc(g: Graph, xs: seq<nat>, i: nat)
    requires Acyclic(g) && i < |xs|
    ensures FullAll(g, xs[..i + 1]) == FullAll(g, xs[..i]) + Full(g, xs[i])
  {
    hide Acyclic, Full, FullAll;
    assert xs[..i + 1] == xs[..i] + [xs[i]];
    FullAllAppend(g, xs[..i], [xs[i]]);
    FullAllOne(g, xs[i]);
  }

  lemma TargetLower(g: Graph, x: nat, i: nat)
    requires Acyclic(g) && i < |Next(g, x)|
    ensures Height(g, Next(g, x)[i]) < Height(g, x)
  {
    TargetsLower(g, x);
  }

  lemma HeightFrom(g: Graph, x: nat, best: nat)
    requires Acyclic(g) && BestSoFar(g, x, |Next(g, x)|, best)
    ensures Height(g, x) == best + 1
  {
    hide Acyclic, IsLongest, BestSoFar;
    BestAll(g, x, best);
    LongestUnique(g, x, Height(g, x), best + 1);
  }

  lemma HeightIsLongest(g: Graph, x: nat)
    requires Acyclic(g)
    ensures IsLongest(g, x, Height(g, x))
  {}

  class Expander {
    const mappings: Mappings
    var expansions: map<Key, seq<nat>>
    var depths: map<Key, nat>

    constructor (m: Mappings)
      requires Acyclics(m)
      ensures mappings == m && Sound()
    {
      mappings := m;
      expansions, depths := map[], map[];
    }

    ghost predicate Sound()
      reads this
    {
      Acyclics(mappings) && Expansions(mappings, expansions) && Depths(mappings, depths)
    }

    lemma SoundParts()
      requires Sound()
      ensures Acyclics(mappings) && Expansions(mappings, expansions) && Depths(mappings, depths)
    {}

    lemma SoundFrom()
      requires Acyclics(mappings) && Expansions(mappings, expansions) && Depths(mappings, depths)
      ensures Sound()
    {}

    method Expand(x: nat, compatibility: bool) returns (r: seq<nat>)
      requires Sound()
      modifies this
      ensures Sound() && r == Full(Applicable(mappings, compatibility), x)
      decreases Height(Applicable(mappings, compatibility), x)
    {
      hide *;
      SoundParts();
      var key := (x, compatibility);
      ghost var g := Applicable(mappings, compatibility);
      AcyclicsParts(mappings, compatibility);
      if key in expansions {
        ExpansionKnown(mappings, expansions, key);
        return expansions[key];
      }
      ApplicableEntry(mappings, x, compatibility);
      FullSteps(g, x);
      if x !in mappings || (mappings[x].compatibility && !compatibility) {
        r := [x];
      } else {
        var target := mappings[x].target;
        NextIs(g, x);
        r := [];
        assert target[..0] == [];
        FullAllNone(g);
        for i := 0 to |target|
          invariant Sound() && r == FullAll(g, target[..i])
        {
          TargetLower(g, x, i);
          var part := Expand(target[i], compatibility);
          FullAllSnoc(g, target, i);
          r := r + part;
        }
        assert target[..|target|] == target;
      }
      SoundParts();
      ExpansionAdded(mappings, expansions, key, r);
      expansions := expansions[key := r];
      SoundFrom();
    }

    method Depth(x: nat, compatibility: bool) returns (r: nat)
      requires Sound() && NoneEmpty(mappings)
      modifies this
      ensures Sound() && r + 1 == Height(Applicable(mappings, compatibility), x)
      decreases Height(Applicable(mappings, compatibility), x)
    {
      hide *;
      SoundParts();
      var key := (x, compatibility);
      ghost var g := Applicable(mappings, compatibility);
      AcyclicsParts(mappings, compatibility);
      if key in depths {
        DepthKnown(mappings, depths, key);
        return depths[key];
      }
      ApplicableEntry(mappings, x, compatibility);
      BestNone(g, x);
      if x !in mappings || (mappings[x].compatibility && !compatibility) {
        r := 0;
        HeightFrom(g, x, 0);
      } else {
        var target := mappings[x].target;
        var best: nat := 0;
        for i := 0 to |target|
          invariant Sound() && (i == 0 ==> best == 0) && BestSoFar(g, x, i, if i == 0 then 0 else best + 1)
        {
          TargetLower(g, x, i);
          var depth := Depth(target[i], compatibility);
          HeightIsLongest(g, target[i]);
          BestNext(g, x, i, if i == 0 then 0 else best + 1, depth + 1);
          MaxIs(best, depth);
          best := Max(best, depth);
        }
        NotEmpty(mappings, x);
        HeightFrom(g, x, best + 1);
        r := 1 + best;
      }
      SoundParts();
      DepthAdded(mappings, depths, key, r);
      depths := depths[key := r];
      SoundFrom();
    }
  }

  lemma FullAllNone(g: Graph)
    requires Acyclic(g)
    ensures FullAll(g, []) == []
  {}

  lemma MaxIs(a: nat, b: nat)
    ensures Max(a + 1, b + 1) == Max(a, b) + 1 && Max(0, b + 1) == b + 1 && Max(0, b) == b
  {}

  lemma NotEmpty(m: Mappings, x: nat)
    requires NoneEmpty(m) && x in m
    ensures m[x].target != []
  {}
}
