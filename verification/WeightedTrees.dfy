// Binary trees over bare weights, and the greedy merging of a multiset of weights.
//
// The Huffman construction only ever compares weights, so the optimality argument is carried out
// on trees whose leaves are weights; module Huffman transports it to trees of tokens.
module WeightedTrees {

  datatype Tree = Leaf(weight: int) | Node(left: Tree, right: Tree)

  function Weight(t: Tree): int {
    match t
    case Leaf(w) => w
    case Node(l, r) => Weight(l) + Weight(r)
  }

  /** The weighted path length: every branch costs the weight below it. */
  function Cost(t: Tree): int {
    match t
    case Leaf(_) => 0
    case Node(l, r) => Weight(t) + Cost(l) + Cost(r)
  }

  ghost function Weights(t: Tree): (m: multiset<int>) {
    match t
    case Leaf(w) => multiset{w}
    case Node(l, r) => Weights(l) + Weights(r)
  }

  function Height(t: Tree): nat {
    match t
    case Leaf(_) => 0
    case Node(l, r) => 1 + if Height(l) >= Height(r) then Height(l) else Height(r)
  }

  lemma {:induction false} WeightsSize(t: Tree)
    ensures |Weights(t)| >= 1
    ensures t.Node? ==> |Weights(t)| >= 2
  {
    if t.Node? {
      WeightsSize(t.left);
      WeightsSize(t.right);
    }
  }

  // ---------------------------------------------------------------------------------------------
  // The two smallest weights

  ghost predicate TwoSmallest(m: multiset<int>, a: int, b: int) {
    && multiset{a, b} <= m
    && a <= b
    && forall w :: w in m - multiset{a, b} ==> b <= w
  }

  lemma SmallestExists(m: multiset<int>) returns (a: int)
    requires |m| > 0
    ensures a in m && forall w :: w in m ==> a <= w
  {
    if forall w :: w !in m {
      assert false;
    }
    var x :| x in m;
    var rest := m - multiset{x};
    if |rest| == 0 {
      a := x;
      assert forall w :: w in m ==> w == x || w in rest;
    } else {
      a := SmallestExists(rest);
      a := if x < a then x else a;
      assert forall w :: w in m ==> w == x || w in rest;
    }
  }

  lemma TwoSmallestExist(m: multiset<int>)
    requires |m| >= 2
    ensures exists a, b :: TwoSmallest(m, a, b)
  {
    var a := SmallestExists(m);
    var b := SmallestExists(m - multiset{a});
    assert m - multiset{a} - multiset{b} == m - multiset{a, b};
    assert multiset{a, b} <= m;
    assert TwoSmallest(m, a, b);
  }

  lemma TwoSmallestLeast(m: multiset<int>, a: int, b: int, c: int, d: int)
    requires TwoSmallest(m, a, b) && TwoSmallest(m, c, d)
    ensures a <= c && b <= d
  {
    var p := multiset{a, b};
    assert c in m && (c == a || c == b || c in m - p);
    assert (m - p)[d] > 0 || p[d] >= m[d] >= multiset{c, d}[d];
  }

  ghost function Join(m: multiset<int>, x: int, y: int, s: int): multiset<int> {
    m - multiset{x, y} + multiset{s}
  }

  lemma JoinSize(m: multiset<int>, x: int, y: int, s: int)
    requires multiset{x, y} <= m
    ensures |Join(m, x, y, s)| == |m| - 1
  {
    assert |multiset{x, y}| == 2;
  }

  /** What it costs to merge the two smallest weights until one is left. */
  ghost function MergeCost(m: multiset<int>): int
    decreases |m|
  {
    if |m| < 2 then 0
    else
      TwoSmallestExist(m);
      var a, b :| TwoSmallest(m, a, b);
      JoinSize(m, a, b, a + b);
      a + b + MergeCost(Join(m, a, b, a + b))
  }

  lemma MergeCostStep(m: multiset<int>, a: int, b: int)
    requires TwoSmallest(m, a, b)
    ensures |m| >= 2 && MergeCost(m) == a + b + MergeCost(Join(m, a, b, a + b))
  {
    hide Join;
    assert |m| == |m - multiset{a, b}| + |multiset{a, b}|;
    forall c, d | TwoSmallest(m, c, d)
      ensures c == a && d == b
    {
      TwoSmallestLeast(m, a, b, c, d);
      TwoSmallestLeast(m, c, d, a, b);
    }
  }

  lemma PairFirst(p: int, q: int, rest: multiset<int>)
    ensures multiset{p} + (multiset{q} + rest) == multiset{p, q} + rest
    ensures multiset{p, q} <= multiset{p, q} + rest
    ensures multiset{p, q} + rest - multiset{p, q} == rest
  {}

  lemma JoinFirst(p: int, q: int, rest: multiset<int>)
    ensures Join(multiset{p, q} + rest, p, q, p + q) == multiset{p + q} + rest
  {
    PairFirst(p, q, rest);
  }

  lemma MergeCostOfPair(p: int, q: int, rest: multiset<int>)
    requires TwoSmallest(multiset{p, q} + rest, p, q)
    ensures MergeCost(multiset{p, q} + rest) == p + q + MergeCost(multiset{p + q} + rest)
  {
    hide *;
    MergeCostStep(multiset{p, q} + rest, p, q);
    JoinFirst(p, q, rest);
  }

  // ---------------------------------------------------------------------------------------------
  // Exchange argument

  /** Replace one leaf of weight v by a leaf of weight w. */
  ghost function Subst(t: Tree, v: int, w: int): (r: Tree)
    ensures Height(r) == Height(t)
  {
    match t
    case Leaf(_) => Leaf(w)
    case Node(l, r) => if v in Weights(l) then Node(Subst(l, v, w), r) else Node(l, Subst(r, v, w))
  }

  ghost function Replace(m: multiset<int>, v: int, w: int): multiset<int> {
    m - multiset{v} + multiset{w}
  }

  lemma ReplaceInSum(m: multiset<int>, n: multiset<int>, v: int, w: int)
    ensures v in m ==> Replace(m, v, w) + n == Replace(m + n, v, w)
    ensures v in n ==> m + Replace(n, v, w) == Replace(m + n, v, w)
  {}

  lemma InEither(l: Tree, r: Tree, v: int)
    ensures v in Weights(Node(l, r)) <==> v in Weights(l) || v in Weights(r)
  {}

  lemma {:induction false} SubstWeights(t: Tree, v: int, w: int)
    requires v in Weights(t)
    ensures Weights(Subst(t, v, w)) == Replace(Weights(t), v, w)
    ensures Weight(Subst(t, v, w)) == Weight(t) - v + w
  {
    match t
    case Leaf(_) =>
      assert Replace(multiset{v}, v, w) == multiset{w};
    case Node(l, r) =>
      hide Replace;
      ReplaceInSum(Weights(l), Weights(r), v, w);
      if v in Weights(l) {
        SubstWeights(l, v, w);
      } else {
        SubstWeights(r, v, w);
      }
  }

  /** The product k * n, kept out of sight of the solver's arithmetic. */
  ghost function Times(k: int, n: nat): int {
    k * n
  }

  lemma TimesSteps(k: int, n: nat)
    ensures Times(k, 0) == 0
    ensures Times(k, n + 1) == Times(k, n) + k
  {}

  lemma TimesMonotone(k: int, m: nat, n: nat)
    requires 0 <= k && m <= n
    ensures 0 <= Times(k, m) <= Times(k, n)
  {}

  lemma TimesNext(k: int, m: nat, n: nat)
    requires 0 <= k && m < n
    ensures Times(k, m) + k <= Times(k, n)
  {
    TimesSteps(k, m);
    TimesMonotone(k, m + 1, n);
  }

  /** A heavier leaf costs at most the tree's height for every unit of weight. */
  lemma {:induction false} SubstCost(t: Tree, v: int, w: int)
    requires v in Weights(t) && v <= w
    ensures Cost(Subst(t, v, w)) <= Cost(t) + Times(w - v, Height(t))
  {
    hide Times;
    hide Replace;
    SubstWeights(t, v, w);
    if t.Leaf? {
      TimesMonotone(w - v, 0, 0);
    } else {
      InEither(t.left, t.right, v);
      hide Weights;
      if v in Weights(t.left) {
        SubstCost(t.left, v, w);
        TimesNext(w - v, Height(t.left), Height(t));
      } else {
        SubstCost(t.right, v, w);
        TimesNext(w - v, Height(t.right), Height(t));
      }
    }
  }

  /** The two leaves of a deepest sibling pair. */
  ghost function DeepPair(t: Tree): (int, int)
    requires t.Node?
  {
    if Height(t) == 1 then (t.left.weight, t.right.weight)
    else if Height(t.left) >= Height(t.right) then DeepPair(t.left)
    else DeepPair(t.right)
  }

  /** Replace a deepest sibling pair by a single leaf of weight s. */
  ghost function Collapse(t: Tree, s: int): (r: Tree)
    requires t.Node?
    ensures Height(r) <= Height(t)
  {
    if Height(t) == 1 then Leaf(s)
    else if Height(t.left) >= Height(t.right) then Node(Collapse(t.left, s), t.right)
    else Node(t.left, Collapse(t.right, s))
  }

  lemma JoinInSum(m: multiset<int>, n: multiset<int>, x: int, y: int, s: int)
    requires multiset{x, y} <= m
    ensures multiset{x, y} <= m + n && multiset{x, y} <= n + m
    ensures Join(m, x, y, s) + n == Join(m + n, x, y, s)
    ensures n + Join(m, x, y, s) == Join(n + m, x, y, s)
  {}

  lemma JoinPair(x: int, y: int, s: int)
    ensures multiset{x} + multiset{y} == multiset{x, y}
    ensures Join(multiset{x, y}, x, y, s) == multiset{s}
  {}

  lemma {:induction false} CollapseWeights(t: Tree, s: int)
    requires t.Node?
    ensures var (x, y) := DeepPair(t); multiset{x, y} <= Weights(t)
    ensures var (x, y) := DeepPair(t); Weights(Collapse(t, s)) == Join(Weights(t), x, y, s)
    ensures var (x, y) := DeepPair(t); Weight(Collapse(t, s)) == Weight(t) - x - y + s
  {
    hide Join;
    var (x, y) := DeepPair(t);
    if Height(t) == 1 {
      JoinPair(x, y, s);
    } else {
      if Height(t.left) >= Height(t.right) {
        CollapseWeights(t.left, s);
        JoinInSum(Weights(t.left), Weights(t.right), x, y, s);
      } else {
        CollapseWeights(t.right, s);
        JoinInSum(Weights(t.right), Weights(t.left), x, y, s);
      }
    }
  }

  lemma {:induction false} CollapseCost(t: Tree, s: int)
    requires t.Node?
    ensures var (x, y) := DeepPair(t);
            Cost(Collapse(t, s)) == Cost(t) - Times(x + y, Height(t)) + Times(s, Height(t) - 1)
  {
    hide Times;
    hide Join;
    hide Weights;
    var (x, y) := DeepPair(t);
    CollapseWeights(t, s);
    TimesSteps(x + y, Height(t) - 1);
    if Height(t) == 1 {
      TimesSteps(x + y, 0);
      TimesSteps(s, 0);
    } else {
      var u := if Height(t.left) >= Height(t.right) then t.left else t.right;
      CollapseWeights(u, s);
      CollapseCost(u, s);
      TimesSteps(s, Height(u) - 1);
    }
  }

  /** Exchange one leaf of weight v for weight w, unless the two weights are the same. */
  lemma Exchange(t: Tree, v: int, w: int) returns (r: Tree)
    requires v <= w && (v == w || v in Weights(t))
    ensures Weights(r) == if v == w then Weights(t) else Replace(Weights(t), v, w)
    ensures Height(r) == Height(t)
    ensures Cost(r) <= Cost(t) + Times(w - v, Height(t))
  {
    r := t;
    if v != w {
      SubstWeights(t, v, w);
      SubstCost(t, v, w);
      r := Subst(t, v, w);
    }
  }

  lemma SmallestBelowPair(m: multiset<int>, a: int, b: int, x: int, y: int)
    requires TwoSmallest(m, a, b) && x <= y && multiset{x, y} <= m
    ensures a <= x && b <= y
  {
    var n := m - multiset{a, b};
    assert m[x] > 0 && m[y] > 0;
    assert n[x] > 0 || x == a || x == b;
    assert n[y] > 0 || y == b || y == a;
    assert y == a < b ==> m[a] >= 2 && n[a] > 0;
  }

  lemma ExchangeFirst(m: multiset<int>, a: int, b: int, x: int, y: int, s: int)
    requires multiset{a, b} <= m && multiset{x, y} <= m && a <= b && x <= y && a <= x
    ensures a == x || a in Join(m, x, y, s)
    ensures a == y || multiset{a, y} <= m
    ensures a != x ==> Replace(Join(m, x, y, s), a, x) == Join(m, a, y, s)
  {
    if a != x {
      ReplaceInJoin(m, a, x, y, s);
    }
  }

  function One(k: int, x: int): int {
    if k == x then 1 else 0
  }

  lemma PairCount(m: multiset<int>, x: int, y: int, k: int)
    ensures multiset{x, y}[k] == One(k, x) + One(k, y)
    ensures multiset{x, y} <= m ==> One(k, x) + One(k, y) <= m[k]
  {}

  lemma JoinCount(m: multiset<int>, x: int, y: int, s: int, k: int)
    requires multiset{x, y} <= m
    ensures Join(m, x, y, s)[k] == m[k] - One(k, x) - One(k, y) + One(k, s)
  {
    PairCount(m, x, y, k);
  }

  lemma ReplaceCount(m: multiset<int>, v: int, w: int, k: int)
    requires v in m
    ensures Replace(m, v, w)[k] == m[k] - One(k, v) + One(k, w)
  {}

  lemma ReplaceInJoin(m: multiset<int>, v: int, x: int, y: int, s: int)
    requires multiset{x, y} <= m && multiset{v, y} <= m && v != x
    ensures v in Join(m, x, y, s) && Replace(Join(m, x, y, s), v, x) == Join(m, v, y, s)
  {
    PairCount(m, v, y, v);
    JoinCount(m, x, y, s, v);
    hide Replace, Join;
    forall k
      ensures Replace(Join(m, x, y, s), v, x)[k] == Join(m, v, y, s)[k]
    {
      ReplaceCount(Join(m, x, y, s), v, x, k);
      JoinCount(m, x, y, s, k);
      JoinCount(m, v, y, s, k);
    }
  }

  lemma ExchangeSecond(m: multiset<int>, a: int, b: int, y: int, s: int)
    requires multiset{a, b} <= m && multiset{a, y} <= m
    ensures b == y || b in Join(m, a, y, s)
    ensures b != y ==> Replace(Join(m, a, y, s), b, y) == Join(m, a, b, s)
  {
    JoinSwap(m, a, y, s);
    JoinSwap(m, a, b, s);
    hide Join, Replace;
    if b != y {
      ReplaceInJoin(m, b, y, a, s);
    }
  }

  lemma JoinSwap(m: multiset<int>, x: int, y: int, s: int)
    ensures multiset{x, y} == multiset{y, x} && Join(m, x, y, s) == Join(m, y, x, s)
  {
    assert multiset{x, y} == multiset{y, x};
  }

  lemma SmallestIn(m: multiset<int>, a: int, b: int)
    requires TwoSmallest(m, a, b)
    ensures multiset{a, b} <= m && a <= b
  {}

  lemma HeightOfNode(t: Tree)
    requires t.Node?
    ensures Height(t) >= 1
  {}

  lemma Savings(a: int, b: int, x: int, y: int, g: nat, h: nat)
    requires a <= x && b <= y && g <= h && 1 <= h
    ensures Times(x - a, g) + Times(y - b, g) - Times(x + y, h) + Times(a + b, h - 1) <= -a - b
  {
    var k := x + y - a - b;
    assert k * g <= k * h;
    assert (x - a) * g + (y - b) * g == k * g;
    assert (x + y) * h - (a + b) * h == k * h;
  }

  /** Every tree can be turned into one that has merged the two smallest weights, at no loss. */
  lemma MergeTree(t: Tree, a: int, b: int) returns (r: Tree)
    requires t.Node? && TwoSmallest(Weights(t), a, b)
    ensures Weights(r) == Join(Weights(t), a, b, a + b)
    ensures Cost(r) + a + b <= Cost(t)
  {
    hide *;
    var m, s := Weights(t), a + b;
    var (p, q) := DeepPair(t);
    CollapseWeights(t, s);
    CollapseCost(t, s);
    var c := Collapse(t, s);
    var (x, y) := if p <= q then (p, q) else (q, p);
    JoinSwap(m, p, q, s);
    SmallestIn(m, a, b);
    HeightOfNode(t);
    SmallestBelowPair(m, a, b, x, y);
    ExchangeFirst(m, a, b, x, y, s);
    var d := Exchange(c, a, x);
    ExchangeSecond(m, a, b, y, s);
    r := Exchange(d, b, y);
    Savings(a, b, x, y, Height(c), Height(t));
  }

  /** Greedy merging is a lower bound for every tree over the same weights. */
  lemma {:induction false} MergeCostIsLeast(t: Tree)
    ensures MergeCost(Weights(t)) <= Cost(t)
    decreases |Weights(t)|
  {
    var m := Weights(t);
    if t.Node? {
      WeightsSize(t);
      TwoSmallestExist(m);
      var a, b :| TwoSmallest(m, a, b);
      JoinSize(m, a, b, a + b);
      MergeCostStep(m, a, b);
      var r := MergeTree(t, a, b);
      MergeCostIsLeast(r);
    }
  }
}
