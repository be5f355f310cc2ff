// The heap loop builds a tree over exactly the given tokens, and no such tree spends fewer bits.
module HuffmanOptimality {
  import opened Collections
  import opened Huffman
  import W = WeightedTrees

  ghost function Weighted(t: Node, f: Frequencies): W.Tree {
    match t
    case Leaf(k) => W.Leaf(Count(f, k))
    case Branch(l, r) => W.Node(Weighted(l, f), Weighted(r, f))
  }

  // ---------------------------------------------------------------------------------------------
  // What a tree over given tokens determines

  ghost function Counted(f: Frequencies): nat -> int {
    (k: nat) => Count(f, k)
  }

  lemma {:induction false} WeightIsSum(t: Node, f: Frequencies)
    requires Distinct(t)
    ensures W.Weight(Weighted(t, f)) == Sum(Tokens(t), Counted(f))
  {
    match t
    case Leaf(k) =>
      SumSingle(k, Counted(f));
    case Branch(l, r) =>
      WeightIsSum(l, f);
      WeightIsSum(r, f);
      SumUnion(Tokens(l), Tokens(r), Counted(f));
  }

  lemma OneMore(c: nat, n: nat)
    ensures c * (n + 1) == c * n + c
  {}

  /** Below a branch every token costs one bit more than below the child. */
  lemma BitsBelow(t: Node, child: Node, f: Frequencies)
    requires t.Branch? && Distinct(t) && (child == t.left || child == t.right)
    ensures Sum(Tokens(child), Spent(t, f))
         == TotalBits(child, f) + Sum(Tokens(child), Counted(f))
  {
    var g, h := Spent(child, f), Counted(f);
    var both := Spent(t, f);
    forall k | k in Tokens(child)
      ensures both(k) == g(k) + h(k)
    {
      CodeLengthOfChild(t.left, t.right, k);
      hide CodeLength, Count;
      OneMore(Count(f, k), CodeLength(child, k));
    }
    hide *;
    SumPlus(Tokens(child), g, h, both);
  }

  /** The bits spent are the weighted path length. */
  lemma {:induction false} TotalBitsIsCost(t: Node, f: Frequencies)
    requires Distinct(t)
    ensures TotalBits(t, f) == W.Cost(Weighted(t, f))
  {
    match t
    case Leaf(k) =>
      SumSingle(k, Spent(t, f));
    case Branch(l, r) =>
      TotalBitsIsCost(l, f);
      TotalBitsIsCost(r, f);
      WeightIsSum(l, f);
      WeightIsSum(r, f);
      BitsBelow(t, l, f);
      BitsBelow(t, r, f);
      SumUnion(Tokens(l), Tokens(r), Spent(t, f));
  }

  ghost function Has(f: Frequencies, w: int): nat -> int {
    (k: nat) => if Count(f, k) == w then 1 else 0
  }

  lemma {:induction false} WeightsCount(t: Node, f: Frequencies, w: int)
    requires Distinct(t)
    ensures W.Weights(Weighted(t, f))[w] == Sum(Tokens(t), Has(f, w))
  {
    match t
    case Leaf(k) =>
      SumSingle(k, Has(f, w));
    case Branch(l, r) =>
      WeightsCount(l, f, w);
      WeightsCount(r, f, w);
      SumUnion(Tokens(l), Tokens(r), Has(f, w));
  }

  // ---------------------------------------------------------------------------------------------
  // The heap

  ghost predicate SortedHeap(heap: seq<Entry>) {
    forall i, j :: 0 <= i < j < |heap| ==> Before(heap[i], heap[j])
  }

  lemma {:induction false} PushSorted(heap: seq<Entry>, e: Entry)
    requires SortedHeap(heap)
    ensures SortedHeap(Push(heap, e))
    ensures forall x :: x in Push(heap, e) <==> x == e || x in heap
  {
    if heap != [] && !Before(e, heap[0]) {
      PushSorted(heap[1..], e);
      var rest := Push(heap[1..], e);
      forall j | 0 <= j < |rest|
        ensures Before(heap[0], rest[j])
      {
        assert rest[j] in rest;
      }
    }
  }

  ghost function Bag(heap: seq<Entry>): multiset<int> {
    if heap == [] then multiset{} else multiset{heap[0].frequency} + Bag(heap[1..])
  }

  lemma {:induction false} BagOfPush(heap: seq<Entry>, e: Entry)
    ensures Bag(Push(heap, e)) == multiset{e.frequency} + Bag(heap)
  {
    if heap != [] && !Before(e, heap[0]) {
      BagOfPush(heap[1..], e);
    } else {
      assert ([e] + heap)[1..] == heap;
    }
  }

  lemma {:induction false} BagBound(heap: seq<Entry>, b: int)
    requires forall e :: e in heap ==> b <= e.frequency
    ensures forall w :: w in Bag(heap) ==> b <= w
  {
    if heap != [] {
      BagBound(heap[1..], b);
    }
  }

  /** The two entries popped are the two lightest. */
  lemma PopsTwoSmallest(heap: seq<Entry>)
    requires SortedHeap(heap) && |heap| >= 2
    ensures W.TwoSmallest(Bag(heap), heap[0].frequency, heap[1].frequency)
    ensures Bag(heap) == multiset{heap[0].frequency, heap[1].frequency} + Bag(heap[2..])
  {
    var p, q := heap[0].frequency, heap[1].frequency;
    assert Bag(heap) == multiset{p} + (multiset{q} + Bag(heap[2..])) by {
      assert heap[1..][1..] == heap[2..];
    }
    W.PairFirst(p, q, Bag(heap[2..]));
    assert Before(heap[0], heap[1]);
    forall e | e in heap[2..]
      ensures q <= e.frequency
    {
      var i :| 2 <= i < |heap| && heap[i] == e;
      assert Before(heap[1], heap[i]);
    }
    BagBound(heap[2..], q);
  }

  ghost function AllTokens(heap: seq<Entry>): set<nat> {
    if heap == [] then {} else Tokens(heap[0].tree) + AllTokens(heap[1..])
  }

  /** The trees of the heap share no token, and every entry is labelled with its tree's weight. */
  ghost predicate Forest(heap: seq<Entry>, f: Frequencies) {
    heap != [] ==>
      && Distinct(heap[0].tree)
      && heap[0].frequency == W.Weight(Weighted(heap[0].tree, f))
      && Tokens(heap[0].tree) !! AllTokens(heap[1..])
      && Forest(heap[1..], f)
  }

  ghost function ForestCost(heap: seq<Entry>, f: Frequencies): int {
    if heap == [] then 0 else W.Cost(Weighted(heap[0].tree, f)) + ForestCost(heap[1..], f)
  }

  lemma {:induction false} ForestPush(heap: seq<Entry>, e: Entry, f: Frequencies)
    requires Forest(heap, f) && Distinct(e.tree) && e.frequency == W.Weight(Weighted(e.tree, f))
    requires Tokens(e.tree) !! AllTokens(heap)
    ensures Forest(Push(heap, e), f)
    ensures AllTokens(Push(heap, e)) == Tokens(e.tree) + AllTokens(heap)
    ensures ForestCost(Push(heap, e), f) == W.Cost(Weighted(e.tree, f)) + ForestCost(heap, f)
  {
    if heap != [] && !Before(e, heap[0]) {
      ForestPush(heap[1..], e, f);
    } else {
      assert ([e] + heap)[1..] == heap;
    }
  }

  lemma ForestTail(heap: seq<Entry>, f: Frequencies)
    requires |heap| >= 2 && Forest(heap, f)
    ensures Forest(heap[2..], f)
    ensures AllTokens(heap) == Tokens(heap[0].tree) + Tokens(heap[1].tree) + AllTokens(heap[2..])
    ensures Tokens(heap[0].tree) !! Tokens(heap[1].tree) !! AllTokens(heap[2..])
    ensures ForestCost(heap, f)
         == W.Cost(Weighted(heap[0].tree, f)) + W.Cost(Weighted(heap[1].tree, f)) + ForestCost(heap[2..], f)
    ensures forall i :: 0 <= i < 2 ==> Distinct(heap[i].tree) && heap[i].frequency == W.Weight(Weighted(heap[i].tree, f))
  {
    assert heap[1..][1..] == heap[2..];
  }

  /** The final tree holds every token once and costs what greedy merging costs. */
  lemma {:induction false} MergeAllCost(heap: seq<Entry>, serial: nat, f: Frequencies)
    requires heap != [] && SortedHeap(heap) && Forest(heap, f)
    ensures TreeOver(MergeAll(heap, serial), AllTokens(heap))
    ensures W.Cost(Weighted(MergeAll(heap, serial), f)) == ForestCost(heap, f) + W.MergeCost(Bag(heap))
    decreases |heap|
  {
    if |heap| == 1 {
      assert heap[1..] == [];
      assert Bag(heap) == multiset{heap[0].frequency};
    } else {
      hide *;
      var e := Union(heap[0], heap[1], serial);
      UnionEntry(heap[0], heap[1], serial, f);
      ForestTail(heap, f);
      SortedTail(heap);
      UnionFits(heap, serial, f);
      var next := Push(heap[2..], e);
      PushSorted(heap[2..], e);
      ForestPush(heap[2..], e, f);
      MergeAllCost(next, serial + 1, f);
      UnionFrequency(heap[0], heap[1], serial);
      MergeStepCost(heap, e, heap[0].frequency, heap[1].frequency);
      MergeAllStep(heap, serial);
    }
  }

  lemma MergeAllStep(heap: seq<Entry>, serial: nat)
    requires |heap| >= 2
    ensures MergeAll(heap, serial) == MergeAll(Push(heap[2..], Union(heap[0], heap[1], serial)), serial + 1)
  {}

  lemma UnionEntry(a: Entry, b: Entry, serial: nat, f: Frequencies)
    requires a.frequency == W.Weight(Weighted(a.tree, f)) && b.frequency == W.Weight(Weighted(b.tree, f))
    ensures var e := Union(a, b, serial);
            && e.frequency == a.frequency + b.frequency == W.Weight(Weighted(e.tree, f))
            && Tokens(e.tree) == Tokens(a.tree) + Tokens(b.tree)
            && W.Cost(Weighted(e.tree, f))
               == a.frequency + b.frequency + W.Cost(Weighted(a.tree, f)) + W.Cost(Weighted(b.tree, f))
  {}

  lemma UnionFits(heap: seq<Entry>, serial: nat, f: Frequencies)
    requires |heap| >= 2 && Forest(heap, f)
    ensures var e := Union(heap[0], heap[1], serial);
            Distinct(e.tree) && Tokens(e.tree) !! AllTokens(heap[2..]) && Tokens(e.tree) + AllTokens(heap[2..]) == AllTokens(heap)
  {
    ForestTail(heap, f);
  }

  lemma SortedTail(heap: seq<Entry>)
    requires SortedHeap(heap) && |heap| >= 2
    ensures SortedHeap(heap[2..])
  {}

  lemma MergeStepCost(heap: seq<Entry>, e: Entry, p: int, q: int)
    requires SortedHeap(heap) && |heap| >= 2
    requires p == heap[0].frequency && q == heap[1].frequency && e.frequency == p + q
    ensures W.MergeCost(Bag(heap)) == p + q + W.MergeCost(Bag(Push(heap[2..], e)))
  {
    hide *;
    PopsTwoSmallest(heap);
    BagOfPush(heap[2..], e);
    W.MergeCostOfPair(p, q, Bag(heap[2..]));
  }

  lemma UnionFrequency(a: Entry, b: Entry, serial: nat)
    ensures Union(a, b, serial).frequency == a.frequency + b.frequency
  {}

  // ---------------------------------------------------------------------------------------------
  // The initial heap

  ghost predicate AllLeaves(heap: seq<Entry>) {
    forall e :: e in heap ==> e.tree.Leaf?
  }

  lemma {:induction false} SinglesHeap(tokens: seq<nat>, f: Frequencies, n: nat)
    requires n <= |tokens| && Ascending(tokens)
    requires forall k :: k in tokens ==> k in f
    ensures var heap := Singles(tokens, f, n);
            && SortedHeap(heap) && Forest(heap, f) && AllLeaves(heap)
            && (forall k :: k in AllTokens(heap) <==> k in tokens[..n])
            && ForestCost(heap, f) == 0
  {
    if n > 0 {
      SinglesHeap(tokens, f, n - 1);
      var k := tokens[n - 1];
      var e := Entry(f[k], k, n - 1, Leaf(k));
      var heap := Singles(tokens, f, n - 1);
      assert tokens[..n] == tokens[..n - 1] + [k];
      PushSorted(heap, e);
      hide Push, SortedHeap, AllTokens;
      ForestPush(heap, e, f);
    }
  }

  lemma {:induction false} BagCount(heap: seq<Entry>, f: Frequencies, w: int)
    requires Forest(heap, f) && AllLeaves(heap)
    ensures Bag(heap)[w] == Sum(AllTokens(heap), Has(f, w))
  {
    if heap != [] {
      var k := heap[0].tree.token;
      assert heap[0] in heap && AllLeaves(heap[1..]);
      BagCount(heap[1..], f, w);
      SumSingle(k, Has(f, w));
      SumUnion({k}, AllTokens(heap[1..]), Has(f, w));
    }
  }

  lemma InitialForest(f: Frequencies)
    ensures var heap := InitialHeap(f);
            && SortedHeap(heap) && Forest(heap, f) && AllLeaves(heap)
            && AllTokens(heap) == f.Keys && ForestCost(heap, f) == 0
  {
    var tokens := Listed(f.Keys);
    hide Listed, Singles, SortedHeap, Forest, AllTokens, ForestCost, AllLeaves;
    SinglesHeap(tokens, f, |tokens|);
    Whole(tokens);
    SameElements(AllTokens(InitialHeap(f)), f.Keys, tokens);
  }

  lemma Whole(tokens: seq<nat>)
    ensures tokens[..|tokens|] == tokens
  {}

  lemma SameElements(s: set<nat>, t: set<nat>, list: seq<nat>)
    requires forall k :: k in s <==> k in list
    requires forall k :: k in list <==> k in t
    ensures s == t
  {}

  lemma InitialBag(f: Frequencies, t: Node)
    requires TreeOver(t, f.Keys)
    ensures Bag(InitialHeap(f)) == W.Weights(Weighted(t, f))
  {
    InitialForest(f);
    forall w
      ensures Bag(InitialHeap(f))[w] == W.Weights(Weighted(t, f))[w]
    {
      BagCount(InitialHeap(f), f, w);
      WeightsCount(t, f, w);
    }
    hide *;
  }

  /** The heap loop builds a tree over exactly the counted tokens. */
  lemma HuffmanTreeOver(f: Frequencies)
    requires |f| >= 2
    ensures TreeOver(HuffmanTree(f), f.Keys)
    ensures W.Cost(Weighted(HuffmanTree(f), f)) == W.MergeCost(Bag(InitialHeap(f)))
  {
    InitialForest(f);
    hide InitialHeap, TreeOver, MergeAll, Bag, W.MergeCost, W.Cost;
    MergeAllCost(InitialHeap(f), |f|, f);
  }

  /** No tree over the same tokens spends fewer bits than the one the heap loop builds. */
  lemma HuffmanIsOptimal(f: Frequencies, t: Node)
    requires |f| >= 2 && TreeOver(t, f.Keys)
    ensures TotalBits(HuffmanTree(f), f) <= TotalBits(t, f)
  {
    HuffmanTreeOver(f);
    InitialBag(f, t);
    W.MergeCostIsLeast(Weighted(t, f));
    TotalBitsIsCost(t, f);
    TotalBitsIsCost(HuffmanTree(f), f);
  }

  /** The tree is a branch, so every token has a code of at least one bit. */
  lemma HuffmanTreeIsBranch(f: Frequencies)
    requires |f| >= 2
    ensures HuffmanTree(f).Branch?
  {
    HuffmanTreeOver(f);
    OneToken(HuffmanTree(f));
    hide HuffmanTree;
  }

  lemma OneToken(t: Node)
    ensures t.Leaf? ==> |Tokens(t)| == 1
  {}
}
