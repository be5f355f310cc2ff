// The bounds the generator checks for the fixed buffers of the normalizer.
module RuntimeLimits {
  import opened Wrappers
  import opened CombiningClasses
  import opened MappingGraph
  import opened CycleSearch
  import opened CompositionChains
  import opened Decomposition

  const HANGUL_LENGTH: nat := 3
  const MAX_LENGTH: nat := 18
  const MAX_DEPTH: nat := 3
  const NON_STARTERS: nat := 30
  const MAX_WINDOW: nat := 64

  datatype LimitError =
    | NonStarterFirst(code: nat)
    | TooLong(length: nat)
    | TooDeep(depth: nat)
    | CyclicChain(error: CycleError)
    | WindowTooLong(length: nat)

  datatype Limits = Limits(length: nat, depth: nat, chain: nat, window: nat)

  /** The expansion does not begin with a non-starter that a starter follows. */
  predicate StartsWell(classes: map<nat, nat>, xs: seq<nat>) {
    xs == [] || ClassOf(classes, xs[0]) == 0 || forall i :: 1 <= i < |xs| ==> ClassOf(classes, xs[i]) != 0
  }

  /** A non-starter comes first, and a starter somewhere behind it. */
  ghost predicate LateStarter(classes: map<nat, nat>, xs: seq<nat>) {
    xs != [] && ClassOf(classes, xs[0]) != 0 && exists i :: 1 <= i < |xs| && ClassOf(classes, xs[i]) == 0
  }

  lemma StartsWellIs(classes: map<nat, nat>, xs: seq<nat>)
    ensures StartsWell(classes, xs) <==> !LateStarter(classes, xs)
  {}

  /** The full decomposition of a code point, canonical or with compatibility mappings. */
  ghost function Expansion(m: Mappings, key: Key): seq<nat>
    requires Acyclics(m)
  {
    AcyclicsParts(m, key.1);
    Full(Applicable(m, key.1), key.0)
  }

  /** How deep mappings are nested below a code point. */
  ghost function DepthOf(m: Mappings, key: Key): int
    requires Acyclics(m)
  {
    AcyclicsParts(m, key.1);
    Height(Applicable(m, key.1), key.0) - 1
  }

  ghost predicate Fits(m: Mappings, classes: map<nat, nat>, key: Key, length: nat, depth: nat)
    requires Acyclics(m)
  {
    !LateStarter(classes, Expansion(m, key)) && |Expansion(m, key)| <= length && DepthOf(m, key) <= depth
  }

  /** Every code point stays within the maxima, and the maxima are reached unless they are the floor. */
  ghost predicate Measured(m: Mappings, classes: map<nat, nat>, keys: seq<Key>, length: nat, depth: nat)
    requires Acyclics(m)
  {
    && 3 <= length && 1 <= depth
    && (forall i :: 0 <= i < |keys| ==> Fits(m, classes, keys[i], length, depth))
    && (length == 3 || exists i :: 0 <= i < |keys| && |Expansion(m, keys[i])| == length)
    && (depth == 1 || exists i :: 0 <= i < |keys| && DepthOf(m, keys[i]) == depth)
  }

  lemma MeasuredFirst(m: Mappings, classes: map<nat, nat>)
    requires Acyclics(m)
    ensures Measured(m, classes, [], HANGUL_LENGTH, 1)
  {}

  lemma FitsMore(m: Mappings, classes: map<nat, nat>, key: Key, length: nat, depth: nat, longer: nat, deeper: nat)
    requires Acyclics(m) && Fits(m, classes, key, length, depth) && length <= longer && depth <= deeper
    ensures Fits(m, classes, key, longer, deeper)
  {
    hide Acyclics, Expansion, DepthOf, LateStarter;
  }

  lemma MeasuredNext(m: Mappings, classes: map<nat, nat>, keys: seq<Key>, length: nat, depth: nat, key: Key, l: nat, d: nat)
    requires Acyclics(m) && Measured(m, classes, keys, length, depth)
    requires l == |Expansion(m, key)| && d == DepthOf(m, key) && !LateStarter(classes, Expansion(m, key))
    ensures Measured(m, classes, keys + [key], Max(length, l), Max(depth, d))
  {
    hide Acyclics, Expansion, DepthOf, LateStarter;
    var more := keys + [key];
    assert Fits(m, classes, key, l, d);
    hide Fits;
    forall i | 0 <= i < |more|
      ensures Fits(m, classes, more[i], Max(length, l), Max(depth, d))
    {
      if i < |keys| {
        FitsMore(m, classes, keys[i], length, depth, Max(length, l), Max(depth, d));
      } else {
        FitsMore(m, classes, key, l, d, Max(length, l), Max(depth, d));
      }
    }
    assert more[|keys|] == key && forall i :: 0 <= i < |keys| ==> more[i] == keys[i];
  }

  // ---------------------------------------------------------------------------------------------

  function Keys(codes: seq<nat>, compatibility: bool): seq<Key> {
    seq(|codes|, i requires 0 <= i < |codes| => (codes[i], compatibility))
  }

  /** Canonical expansions are measured first, then compatibility expansions. */
  function AllKeys(codes: seq<nat>): seq<Key> {
    Keys(codes, false) + Keys(codes, true)
  }

  lemma AllKeysAre(codes: seq<nat>, x: nat, compatibility: bool)
    requires x in codes
    ensures (x, compatibility) in AllKeys(codes)
  {
    var i :| 0 <= i < |codes| && codes[i] == x;
    assert Keys(codes, compatibility)[i] == (x, compatibility);
  }

  lemma ExpanderGives(m: Mappings, key: Key, expanded: seq<nat>, depth: nat)
    requires Acyclics(m) && Acyclic(Applicable(m, key.1))
    requires expanded == Full(Applicable(m, key.1), key.0) && depth + 1 == Height(Applicable(m, key.1), key.0)
    ensures expanded == Expansion(m, key) && depth == DepthOf(m, key)
  {}

  lemma KeysNext(codes: seq<nat>, i: nat, compatibility: bool)
    requires i < |codes|
    ensures Keys(codes[..i + 1], compatibility) == Keys(codes[..i], compatibility) + [(codes[i], compatibility)]
  {}

  lemma Append(keys: seq<Key>, more: seq<Key>, key: Key)
    ensures keys + (more + [key]) == keys + more + [key] && keys + [] == keys
  {}

  ghost predicate BadStart(m: Mappings, classes: map<nat, nat>, codes: seq<nat>, code: nat)
    requires Acyclics(m)
  {
    code in codes && exists c :: LateStarter(classes, Expansion(m, (code, c)))
  }

  /** One round over all mappings; `before` lists what has been measured already. */
  method Measure(e: Expander, classes: map<nat, nat>, codes: seq<nat>, compatibility: bool,
                 length0: nat, depth0: nat, ghost before: seq<Key>)
    returns (error: Option<LimitError>, length: nat, depth: nat)
    requires e.Sound() && Acyclics(e.mappings) && NoneEmpty(e.mappings)
    requires Measured(e.mappings, classes, before, length0, depth0)
    modifies e
    ensures e.Sound()
    ensures error.None? ==> Measured(e.mappings, classes, before + Keys(codes, compatibility), length, depth)
    ensures error.Some? ==> error.value.NonStarterFirst? && BadStart(e.mappings, classes, codes, error.value.code)
  {
    hide *;
    length, depth := length0, depth0;
    NoKeys(before, codes, compatibility);
    for i := 0 to |codes|
      invariant e.Sound()
      invariant Measured(e.mappings, classes, before + Keys(codes[..i], compatibility), length, depth)
    {
      ghost var key := (codes[i], compatibility);
      AcyclicsParts(e.mappings, compatibility);
      var expanded := e.Expand(codes[i], compatibility);
      var d := e.Depth(codes[i], compatibility);
      ExpanderGives(e.mappings, key, expanded, d);
      StartsWellIs(classes, expanded);
      if !StartsWell(classes, expanded) {
        BadStartAt(e.mappings, classes, codes, i, compatibility);
        return Some(NonStarterFirst(codes[i])), length, depth;
      }
      MeasuredNext(e.mappings, classes, before + Keys(codes[..i], compatibility), length, depth, key, |expanded|, d);
      KeysNext(codes, i, compatibility);
      Append(before, Keys(codes[..i], compatibility), key);
      length, depth := Max(length, |expanded|), Max(depth, d);
    }
    assert codes[..|codes|] == codes;
    return None, length, depth;
  }

  lemma NoKeys(before: seq<Key>, codes: seq<nat>, compatibility: bool)
    ensures before + Keys(codes[..0], compatibility) == before
  {}

  lemma BadStartAt(m: Mappings, classes: map<nat, nat>, codes: seq<nat>, i: nat, compatibility: bool)
    requires Acyclics(m) && i < |codes| && LateStarter(classes, Expansion(m, (codes[i], compatibility)))
    ensures BadStart(m, classes, codes, codes[i])
  {}

  /** Everything the normalizer relies on, over all mappings and all chains of compositions. */
  ghost predicate WithinLimits(m: Mappings, classes: map<nat, nat>, codes: seq<nat>, g: Graph, starters: seq<nat>)
    requires Acyclics(m)
  {
    && (forall key: Key :: key.0 in codes ==> Fits(m, classes, key, MAX_LENGTH, MAX_DEPTH))
    && Acyclic(g)
    && forall x :: x in starters ==> WalksWithin(g, x, MAX_WINDOW - NON_STARTERS)
  }

  lemma MeasuredFits(m: Mappings, classes: map<nat, nat>, codes: seq<nat>, length: nat, depth: nat)
    requires Acyclics(m) && Measured(m, classes, AllKeys(codes), length, depth)
    ensures forall key: Key :: key.0 in codes ==> Fits(m, classes, key, length, depth)
  {
    hide Fits, AllKeys, Acyclics;
    forall key: Key | key.0 in codes
      ensures Fits(m, classes, key, length, depth)
    {
      AllKeysAre(codes, key.0, key.1);
    }
  }

  lemma KeyCode(codes: seq<nat>, i: nat)
    requires i < |AllKeys(codes)|
    ensures AllKeys(codes)[i].0 in codes
  {}

  lemma OneFails(m: Mappings, classes: map<nat, nat>, codes: seq<nat>, g: Graph, starters: seq<nat>, key: Key)
    requires Acyclics(m) && key.0 in codes && !Fits(m, classes, key, MAX_LENGTH, MAX_DEPTH)
    ensures !WithinLimits(m, classes, codes, g, starters)
  {
    hide Fits, Acyclics;
  }

  lemma TooLarge(m: Mappings, classes: map<nat, nat>, codes: seq<nat>, g: Graph, starters: seq<nat>, length: nat, depth: nat)
    requires Acyclics(m) && Measured(m, classes, AllKeys(codes), length, depth)
    requires length > MAX_LENGTH || depth > MAX_DEPTH
    ensures !WithinLimits(m, classes, codes, g, starters)
  {
    hide Acyclics, AllKeys, Expansion, DepthOf, LateStarter, Acyclic, WalksWithin;
    var keys := AllKeys(codes);
    if length > MAX_LENGTH {
      var i :| 0 <= i < |keys| && |Expansion(m, keys[i])| == length;
      KeyCode(codes, i);
      OneFails(m, classes, codes, g, starters, keys[i]);
    } else {
      var i :| 0 <= i < |keys| && DepthOf(m, keys[i]) == depth;
      KeyCode(codes, i);
      OneFails(m, classes, codes, g, starters, keys[i]);
    }
  }

  lemma BadStartFails(m: Mappings, classes: map<nat, nat>, codes: seq<nat>, g: Graph, starters: seq<nat>, code: nat)
    requires Acyclics(m) && BadStart(m, classes, codes, code)
    ensures !WithinLimits(m, classes, codes, g, starters)
  {
    hide Acyclics, Expansion, DepthOf, LateStarter, Acyclic, WalksWithin;
    var c :| LateStarter(classes, Expansion(m, (code, c)));
    OneFails(m, classes, codes, g, starters, (code, c));
  }

  lemma WindowFits(g: Graph, starters: seq<nat>, length: nat, chain: nat)
    requires ChainBound(g, starters, |starters|, chain) && length <= MAX_LENGTH
    ensures Max(length, chain) + NON_STARTERS <= MAX_WINDOW
       <==> forall x :: x in starters ==> WalksWithin(g, x, MAX_WINDOW - NON_STARTERS)
  {
    var bound := MAX_WINDOW - NON_STARTERS;
    if chain <= bound {
      forall x | x in starters
        ensures WalksWithin(g, x, bound)
      {
        var j :| 0 <= j < |starters| && starters[j] == x;
        WithinMore(g, x, chain, bound);
      }
    } else {
      var j :| 0 <= j < |starters| && HasWalk(g, starters[j], chain);
      assert starters[j] in starters && !WalksWithin(g, starters[j], bound);
    }
  }

  lemma WithinFrom(m: Mappings, classes: map<nat, nat>, codes: seq<nat>, g: Graph, starters: seq<nat>, length: nat, depth: nat)
    requires Acyclics(m) && Measured(m, classes, AllKeys(codes), length, depth) && Acyclic(g)
    requires length <= MAX_LENGTH && depth <= MAX_DEPTH
    ensures WithinLimits(m, classes, codes, g, starters)
       <==> forall x :: x in starters ==> WalksWithin(g, x, MAX_WINDOW - NON_STARTERS)
  {
    hide Acyclics, AllKeys, Fits, Acyclic, WalksWithin, Measured;
    MeasuredFits(m, classes, codes, length, depth);
    forall key: Key | key.0 in codes
      ensures Fits(m, classes, key, MAX_LENGTH, MAX_DEPTH)
    {
      FitsMore(m, classes, key, length, depth, MAX_LENGTH, MAX_DEPTH);
    }
  }

  lemma CyclicFails(m: Mappings, classes: map<nat, nat>, codes: seq<nat>, g: Graph, starters: seq<nat>)
    requires Acyclics(m) && !Acyclic(g)
    ensures !WithinLimits(m, classes, codes, g, starters)
  {}

  /** The graph of class-zero compositions: from a starter to the composites it becomes. */
  function ChainGraph(compositions: map<nat, seq<(nat, nat)>>, classes: map<nat, nat>): Graph {
    map starter | starter in compositions :: Composites(compositions[starter], classes)
  }

  function Composites(pairs: seq<(nat, nat)>, classes: map<nat, nat>): (r: seq<nat>)
    ensures forall y :: y in r <==> exists i :: 0 <= i < |pairs| && ClassOf(classes, pairs[i].0) == 0 && pairs[i].1 == y
  {
    if pairs == [] then []
    else (if ClassOf(classes, pairs[0].0) == 0 then [pairs[0].1] else []) + Composites(pairs[1..], classes)
  }

  // ---------------------------------------------------------------------------------------------
  // Chains of compositions

  /** A starter composes with a code point of class zero. */
  ghost predicate Becomes(compositions: map<nat, seq<(nat, nat)>>, classes: map<nat, nat>, x: nat, y: nat) {
    x in compositions && exists j :: 0 <= j < |compositions[x]| && compositions[x][j].1 == y && ClassOf(classes, compositions[x][j].0) == 0
  }

  ghost predicate IsChain(compositions: map<nat, seq<(nat, nat)>>, classes: map<nat, nat>, p: seq<nat>) {
    p != [] && forall i :: 0 <= i < |p| - 1 ==> Becomes(compositions, classes, p[i], p[i + 1])
  }

  lemma StepBecomes(compositions: map<nat, seq<(nat, nat)>>, classes: map<nat, nat>, x: nat, y: nat)
    ensures Step(ChainGraph(compositions, classes), x, y) <==> Becomes(compositions, classes, x, y)
  {
    hide ClassOf, Composites;
  }

  lemma WalkIsChain(compositions: map<nat, seq<(nat, nat)>>, classes: map<nat, nat>, p: seq<nat>)
    ensures IsWalk(ChainGraph(compositions, classes), p) <==> IsChain(compositions, classes, p)
  {
    hide Step, Becomes, ChainGraph;
    forall i | 0 <= i < |p| - 1
      ensures Step(ChainGraph(compositions, classes), p[i], p[i + 1]) <==> Becomes(compositions, classes, p[i], p[i + 1])
    {
      StepBecomes(compositions, classes, p[i], p[i + 1]);
    }
  }

  /** No chain is longer, and some chain is as long unless the bound is the floor. */
  ghost predicate LongestChain(compositions: map<nat, seq<(nat, nat)>>, classes: map<nat, nat>, n: nat) {
    && n >= 3
    && (forall p :: IsChain(compositions, classes, p) ==> |p| <= n)
    && (n == 3 || exists p :: IsChain(compositions, classes, p) && |p| == n)
  }

  lemma WalkStart(g: Graph, starters: seq<nat>, p: seq<nat>, bound: nat)
    requires forall x :: x in g <==> x in starters
    requires (forall x :: x in starters ==> WalksWithin(g, x, bound)) && bound >= 1 && IsWalk(g, p)
    ensures |p| <= bound
  {
    if |p| > 1 {
      assert Step(g, p[0], p[0 + 1]);
      assert WalkFrom(g, p, p[0]);
    }
  }

  lemma BoundIsLongest(compositions: map<nat, seq<(nat, nat)>>, classes: map<nat, nat>, starters: seq<nat>, bound: nat)
    requires forall x :: x in ChainGraph(compositions, classes) <==> x in starters
    requires ChainBound(ChainGraph(compositions, classes), starters, |starters|, bound)
    ensures LongestChain(compositions, classes, bound)
  {
    var g := ChainGraph(compositions, classes);
    hide ChainGraph, IsChain, WalksWithin, IsWalk;
    forall x | x in starters
      ensures WalksWithin(g, x, bound)
    {
      var j :| 0 <= j < |starters| && starters[j] == x;
    }
    forall p | IsChain(compositions, classes, p)
      ensures |p| <= bound
    {
      WalkIsChain(compositions, classes, p);
      WalkStart(g, starters, p, bound);
    }
    if bound != 3 {
      var j :| 0 <= j < |starters| && HasWalk(g, starters[j], bound);
      var p :| WalkFrom(g, p, starters[j]) && |p| == bound;
      WalkIsChain(compositions, classes, p);
    }
  }

  /**
   * What the normalizer has room for: expansions of at most 18 code points from at most three nested
   * mappings, none with a starter behind a non-starter, and chains that end within the window.
   */
  ghost predicate HasRoom(m: Mappings, classes: map<nat, nat>, codes: seq<nat>, compositions: map<nat, seq<(nat, nat)>>)
    requires Acyclics(m)
  {
    && (forall key: Key :: key.0 in codes ==> Fits(m, classes, key, 18, 3))
    && (forall p :: IsChain(compositions, classes, p) && |p| > 1 ==> p[0] != p[|p| - 1])
    && (forall p :: IsChain(compositions, classes, p) ==> |p| <= 64 - 30)
  }

  lemma ChainsAcyclic(compositions: map<nat, seq<(nat, nat)>>, classes: map<nat, nat>)
    ensures Acyclic(ChainGraph(compositions, classes))
       <==> forall p :: IsChain(compositions, classes, p) && |p| > 1 ==> p[0] != p[|p| - 1]
  {
    hide ChainGraph, IsChain, IsWalk;
    forall p
      ensures IsWalk(ChainGraph(compositions, classes), p) <==> IsChain(compositions, classes, p)
    {
      WalkIsChain(compositions, classes, p);
    }
    if Acyclic(ChainGraph(compositions, classes)) {
      forall p | IsChain(compositions, classes, p) && |p| > 1
        ensures p[0] != p[|p| - 1]
      {
        assert !MappingGraph.IsCycle(ChainGraph(compositions, classes), p);
      }
    }
  }

  lemma ChainsWithin(compositions: map<nat, seq<(nat, nat)>>, classes: map<nat, nat>, starters: seq<nat>, bound: nat)
    requires forall x :: x in ChainGraph(compositions, classes) <==> x in starters
    requires bound >= 1
    ensures (forall x :: x in starters ==> WalksWithin(ChainGraph(compositions, classes), x, bound))
       <==> forall p :: IsChain(compositions, classes, p) ==> |p| <= bound
  {
    var g := ChainGraph(compositions, classes);
    hide ChainGraph, IsChain, IsWalk;
    if forall x :: x in starters ==> WalksWithin(g, x, bound) {
      forall p | IsChain(compositions, classes, p)
        ensures |p| <= bound
      {
        WalkIsChain(compositions, classes, p);
        WalkStart(g, starters, p, bound);
      }
    }
    if forall p :: IsChain(compositions, classes, p) ==> |p| <= bound {
      forall x, p | x in starters && WalkFrom(g, p, x)
        ensures |p| <= bound
      {
        WalkIsChain(compositions, classes, p);
      }
    }
  }

  lemma RoomIsWithin(m: Mappings, classes: map<nat, nat>, codes: seq<nat>, compositions: map<nat, seq<(nat, nat)>>, starters: seq<nat>)
    requires Acyclics(m) && forall x :: x in ChainGraph(compositions, classes) <==> x in starters
    ensures HasRoom(m, classes, codes, compositions)
       <==> WithinLimits(m, classes, codes, ChainGraph(compositions, classes), starters)
  {
    hide Acyclics, Fits, Acyclic, WalksWithin, IsChain, ChainGraph;
    ChainsAcyclic(compositions, classes);
    ChainsWithin(compositions, classes, starters, 64 - 30);
  }

  /**
   * The limits are those of the data: maxima that all expansions and chains keep to, and that some of
   * them reach. The call fails exactly when the data exceeds what the normalizer has room for.
   */
  method ValidateRuntimeLimits(m: Mappings, codes: seq<nat>, classes: map<nat, nat>,
                               compositions: map<nat, seq<(nat, nat)>>, starters: seq<nat>)
    returns (r: Result<Limits, LimitError>)
    requires Acyclics(m) && NoneEmpty(m)
    requires forall x :: x in ChainGraph(compositions, classes) <==> x in starters
    ensures r.Success? <==> HasRoom(m, classes, codes, compositions)
    ensures r.Success? ==> Measured(m, classes, AllKeys(codes), r.value.length, r.value.depth)
    ensures r.Success? ==> LongestChain(compositions, classes, r.value.chain)
    ensures r.Success? ==> r.value.window == Max(r.value.length, r.value.chain) + 30 <= 64
  {
    hide *;
    LimitNumbers();
    RoomIsWithin(m, classes, codes, compositions, starters);
    var g := ChainGraph(compositions, classes);
    var e := new Expander(m);
    MeasuredFirst(m, classes);
    var error, length, depth := Measure(e, classes, codes, false, HANGUL_LENGTH, 1, []);
    if error.Some? {
      BadStartFails(m, classes, codes, g, starters, error.value.code);
      return Failure(error.value);
    }
    error, length, depth := Measure(e, classes, codes, true, length, depth, [] + Keys(codes, false));
    if error.Some? {
      BadStartFails(m, classes, codes, g, starters, error.value.code);
      return Failure(error.value);
    }
    AllKeysIs(codes);
    if length > MAX_LENGTH {
      TooLarge(m, classes, codes, g, starters, length, depth);
      return Failure(TooLong(length));
    }
    if depth > MAX_DEPTH {
      TooLarge(m, classes, codes, g, starters, length, depth);
      return Failure(TooDeep(depth));
    }
    var chain := MaximumCompositionChain(g, starters);
    if chain.Failure? {
      CyclicFails(m, classes, codes, g, starters);
      return Failure(CyclicChain(chain.error));
    }
    BoundIsLongest(compositions, classes, starters, chain.value);
    WindowFits(g, starters, length, chain.value);
    WithinFrom(m, classes, codes, g, starters, length, depth);
    var window: int := Max(length, chain.value) + NON_STARTERS;
    if window > MAX_WINDOW {
      return Failure(WindowTooLong(Max(length, chain.value) + NON_STARTERS));
    }
    return Success(Limits(length, depth, chain.value, window));
  }

  lemma LimitNumbers()
    ensures NON_STARTERS == 30 && MAX_WINDOW == 64
  {}

  lemma AllKeysIs(codes: seq<nat>)
    ensures [] + Keys(codes, false) + Keys(codes, true) == AllKeys(codes)
  {
    assert [] + Keys(codes, false) == Keys(codes, false);
  }
}
