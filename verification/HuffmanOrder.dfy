// Which child is left in the Huffman tree, and how ties fall.
module HuffmanOrder {
  import opened Huffman
  import opened HuffmanOptimality
  import opened Collections

  ghost function LeastToken(t: Node): (k: nat)
    ensures k in Tokens(t) && forall j :: j in Tokens(t) ==> k <= j
  {
    match t
    case Leaf(k) => k
    case Branch(l, r) => if LeastToken(l) <= LeastToken(r) then LeastToken(l) else LeastToken(r)
  }

  /** How often the tokens of a tree are counted. */
  ghost function WeightOf(t: Node, f: Frequencies): int {
    Sum(Tokens(t), Counted(f))
  }

  /** At every branch the left side is lighter, or as heavy and has the smaller least token. */
  ghost predicate LighterFirst(t: Node, f: Frequencies) {
    t.Branch? ==>
      && (|| WeightOf(t.left, f) < WeightOf(t.right, f)
          || (WeightOf(t.left, f) == WeightOf(t.right, f) && LeastToken(t.left) < LeastToken(t.right)))
      && LighterFirst(t.left, f) && LighterFirst(t.right, f)
  }

  ghost predicate Labelled(heap: seq<Entry>, f: Frequencies) {
    forall e :: e in heap ==> e.token == LeastToken(e.tree) && LighterFirst(e.tree, f)
  }

  lemma LabelledTail(heap: seq<Entry>, f: Frequencies)
    requires |heap| >= 2 && Labelled(heap, f)
    ensures Labelled(heap[2..], f)
    ensures forall i :: 0 <= i < 2 ==> heap[i].token == LeastToken(heap[i].tree) && LighterFirst(heap[i].tree, f)
  {
    assert heap[0] in heap && heap[1] in heap;
  }

  lemma UnionLabelled(heap: seq<Entry>, serial: nat, f: Frequencies)
    requires |heap| >= 2 && SortedHeap(heap) && Forest(heap, f) && Labelled(heap, f)
    ensures var e := Union(heap[0], heap[1], serial); e.token == LeastToken(e.tree) && LighterFirst(e.tree, f)
  {
    LabelledTail(heap, f);
    ForestTail(heap, f);
    WeightIsSum(heap[0].tree, f);
    WeightIsSum(heap[1].tree, f);
    assert Before(heap[0], heap[1]);
    hide SortedHeap, Forest, Labelled, Distinct, ForestCost;
    assert heap[0].token in Tokens(heap[0].tree) && heap[1].token in Tokens(heap[1].tree);
  }

  lemma PushLabelled(heap: seq<Entry>, e: Entry, f: Frequencies)
    requires SortedHeap(heap) && Labelled(heap, f) && e.token == LeastToken(e.tree) && LighterFirst(e.tree, f)
    ensures Labelled(Push(heap, e), f)
  {
    PushSorted(heap, e);
    hide Push, SortedHeap;
  }

  lemma {:induction false} MergeAllLighterFirst(heap: seq<Entry>, serial: nat, f: Frequencies)
    requires heap != [] && SortedHeap(heap) && Forest(heap, f) && Labelled(heap, f)
    ensures LighterFirst(MergeAll(heap, serial), f)
    decreases |heap|
  {
    if |heap| == 1 {
      assert heap[0] in heap;
    } else {
      hide *;
      var e := Union(heap[0], heap[1], serial);
      UnionLabelled(heap, serial, f);
      UnionEntry(heap[0], heap[1], serial, f);
      ForestTail(heap, f);
      SortedTail(heap);
      UnionFits(heap, serial, f);
      LabelledTail(heap, f);
      PushSorted(heap[2..], e);
      ForestPush(heap[2..], e, f);
      PushLabelled(heap[2..], e, f);
      MergeAllLighterFirst(Push(heap[2..], e), serial + 1, f);
      MergeAllStep(heap, serial);
    }
  }

  lemma {:induction false} SinglesLabelled(tokens: seq<nat>, f: Frequencies, n: nat)
    requires n <= |tokens| && Ascending(tokens)
    requires forall k :: k in tokens ==> k in f
    ensures Labelled(Singles(tokens, f, n), f)
  {
    if n > 0 {
      SinglesLabelled(tokens, f, n - 1);
      SinglesHeap(tokens, f, n - 1);
      var k := tokens[n - 1];
      hide Labelled, SortedHeap;
      PushLabelled(Singles(tokens, f, n - 1), Entry(f[k], k, n - 1, Leaf(k)), f);
    }
  }

  /** The heap loop puts the lighter tree left, and of two as heavy the one with the smaller least token. */
  lemma HuffmanLighterFirst(f: Frequencies)
    requires |f| >= 2
    ensures LighterFirst(HuffmanTree(f), f)
  {
    InitialForest(f);
    SinglesLabelled(Listed(f.Keys), f, |f.Keys|);
    hide Listed, Singles, SortedHeap, Forest, AllTokens, ForestCost, AllLeaves, MergeAll, Labelled, LighterFirst;
    MergeAllLighterFirst(InitialHeap(f), |f|, f);
  }
}
