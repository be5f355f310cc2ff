// Huffman trees over tokens: construction, codes and the flattened branch table.
module Huffman {
  import opened Wrappers
  import opened Collections

  datatype Node = Leaf(token: nat) | Branch(left: Node, right: Node)

  type Frequencies = map<nat, nat>

  function Tokens(t: Node): set<nat> {
    match t
    case Leaf(k) => {k}
    case Branch(l, r) => Tokens(l) + Tokens(r)
  }

  /** No token labels two leaves. */
  ghost predicate Distinct(t: Node) {
    t.Branch? ==> Tokens(t.left) !! Tokens(t.right) && Distinct(t.left) && Distinct(t.right)
  }

  /** A binary tree whose leaves are exactly the given tokens. */
  ghost predicate TreeOver(t: Node, tokens: set<nat>) {
    Distinct(t) && Tokens(t) == tokens
  }

  /** The branches taken from the root to a token; false is the left branch. */
  ghost function Path(t: Node, token: nat): seq<bool>
    requires token in Tokens(t)
  {
    match t
    case Leaf(_) => []
    case Branch(l, r) => if token in Tokens(r) then [true] + Path(r, token) else [false] + Path(l, token)
  }

  function Count(f: Frequencies, token: nat): nat {
    if token in f then f[token] else 0
  }

  ghost function CodeLength(t: Node, token: nat): nat {
    if token in Tokens(t) then |Path(t, token)| else 0
  }

  lemma CodeLengthOfChild(l: Node, r: Node, token: nat)
    requires Distinct(Branch(l, r))
    ensures token in Tokens(l) ==> CodeLength(Branch(l, r), token) == CodeLength(l, token) + 1
    ensures token in Tokens(r) ==> CodeLength(Branch(l, r), token) == CodeLength(r, token) + 1
  {}

  lemma SumOfBranch(t: Node, g: nat -> int)
    requires t.Branch? && Distinct(t)
    ensures Sum(Tokens(t), g) == Sum(Tokens(t.left), g) + Sum(Tokens(t.right), g)
  {
    SumUnion(Tokens(t.left), Tokens(t.right), g);
  }

  lemma PathOfChild(l: Node, r: Node, token: nat)
    requires token in Tokens(Branch(l, r))
    ensures var right := token in Tokens(r);
            var child := if right then r else l;
            token in Tokens(child) && Path(Branch(l, r), token) == [right] + Path(child, token)
  {}

  ghost function Spent(t: Node, f: Frequencies): nat -> int {
    (k: nat) => Count(f, k) * CodeLength(t, k)
  }

  /** How many bits the tree spends on a text with the given token counts. */
  ghost function TotalBits(t: Node, f: Frequencies): int {
    Sum(Tokens(t), Spent(t, f))
  }

  // ---------------------------------------------------------------------------------------------
  // Construction

  datatype Entry = Entry(frequency: nat, token: nat, serial: nat, tree: Node)

  predicate Before(a: Entry, b: Entry) {
    || a.frequency < b.frequency
    || (a.frequency == b.frequency && a.token < b.token)
    || (a.frequency == b.frequency && a.token == b.token && a.serial <= b.serial)
  }

  /** Put an entry in its place in an ascending heap. */
  function Push(heap: seq<Entry>, e: Entry): (r: seq<Entry>)
    ensures |r| == |heap| + 1
  {
    if heap == [] || Before(e, heap[0]) then [e] + heap
    else [heap[0]] + Push(heap[1..], e)
  }

  function Union(a: Entry, b: Entry, serial: nat): Entry {
    Entry(a.frequency + b.frequency, if a.token <= b.token then a.token else b.token, serial, Branch(a.tree, b.tree))
  }

  /** Unite the two least entries until one is left. */
  function MergeAll(heap: seq<Entry>, serial: nat): Node
    requires heap != []
    decreases |heap|
  {
    if |heap| == 1 then heap[0].tree
    else MergeAll(Push(heap[2..], Union(heap[0], heap[1], serial)), serial + 1)
  }

  /** One single-leaf entry for each of the first n tokens. */
  function Singles(tokens: seq<nat>, f: Frequencies, n: nat): (r: seq<Entry>)
    requires n <= |tokens|
    requires forall k :: k in tokens ==> k in f
    ensures |r| == n
  {
    if n == 0 then [] else Push(Singles(tokens, f, n - 1), Entry(f[tokens[n - 1]], tokens[n - 1], n - 1, Leaf(tokens[n - 1])))
  }

  function InitialHeap(f: Frequencies): (r: seq<Entry>)
    ensures |r| == |f|
  {
    Singles(Listed(f.Keys), f, |f.Keys|)
  }

  function HuffmanTree(f: Frequencies): Node
    requires |f| >= 2
  {
    MergeAll(InitialHeap(f), |f|)
  }

  datatype HuffmanError = AlphabetTooSmall | RootIsLeaf | TokenTooLarge | IndexTooLarge

  method BuildHuffmanTree(frequencies: Frequencies) returns (r: Result<Node, HuffmanError>)
    ensures |frequencies| < 2 ==> r == Failure(AlphabetTooSmall)
    ensures |frequencies| >= 2 ==> r == Success(HuffmanTree(frequencies))
  {
    var heap: seq<Entry> := [];
    var serial := 0;
    var items := Listed(frequencies.Keys);
    for i := 0 to |items|
      invariant serial == i && heap == Singles(items, frequencies, i)
    {
      heap := Push(heap, Entry(frequencies[items[i]], items[i], serial, Leaf(items[i])));
      serial := serial + 1;
    }
    if |heap| < 2 {
      return Failure(AlphabetTooSmall);
    }
    while |heap| > 1
      invariant |heap| >= 1 && MergeAll(heap, serial) == HuffmanTree(frequencies)
      decreases |heap|
    {
      var left := heap[0];
      var right := heap[1];
      heap := Push(heap[2..], Union(left, right, serial));
      serial := serial + 1;
    }
    r := Success(heap[0].tree);
  }
}
