// Bit codes of a Huffman tree, the flattened branch table, and decoding by walking that table.
module HuffmanCodes {
  import opened Powers
  import opened Wrappers
  import opened Collections
  import opened BitStream
  import opened Huffman

  // ---------------------------------------------------------------------------------------------
  // Codes

  /** For every token its code and the code's length. */
  type CodeTable = map<nat, (nat, nat)>

  ghost function CodeMap(node: Node, code: nat, length: nat): CodeTable {
    match node
    case Leaf(k) => map[k := (code, length)]
    case Branch(l, r) => CodeMap(l, 2 * code, length + 1) + CodeMap(r, 2 * code + 1, length + 1)
  }

  method VisitCodes(node: Node, code: nat, length: nat, table: CodeTable) returns (r: CodeTable)
    ensures r == table + CodeMap(node, code, length)
    decreases node
  {
    match node
    case Leaf(token) =>
      r := table[token := (code, length)];
    case Branch(left, right) =>
      r := VisitCodes(left, 2 * code, length + 1, table);
      r := VisitCodes(right, 2 * code + 1, length + 1, r);
  }

  method BuildCodes(tree: Node) returns (r: CodeTable)
    ensures r == CodeMap(tree, 0, 0)
  {
    r := VisitCodes(tree, 0, 0, map[]);
  }

  lemma {:induction false} CodeMapKeys(node: Node, code: nat, length: nat)
    ensures CodeMap(node, code, length).Keys == Tokens(node)
  {
    if node.Branch? {
      CodeMapKeys(node.left, 2 * code, length + 1);
      CodeMapKeys(node.right, 2 * code + 1, length + 1);
    }
  }

  lemma CodeMapOfChild(l: Node, r: Node, code: nat, length: nat, token: nat)
    requires token in Tokens(Branch(l, r))
    ensures token in CodeMap(Branch(l, r), code, length)
    ensures var right := token in Tokens(r);
            var child := CodeMap(if right then r else l, if right then 2 * code + 1 else 2 * code, length + 1);
            token in child && CodeMap(Branch(l, r), code, length)[token] == child[token]
  {
    CodeMapKeys(l, 2 * code, length + 1);
    CodeMapKeys(r, 2 * code + 1, length + 1);
  }

  lemma Associative(p: seq<bool>, b: bool, q: seq<bool>)
    ensures p + ([b] + q) == p + [b] + q
  {}

  lemma {:induction false} CodeMapPaths(node: Node, code: nat, length: nat, token: nat)
    requires token in Tokens(node)
    ensures token in CodeMap(node, code, length)
    ensures var (c, n) := CodeMap(node, code, length)[token];
            n == length + |Path(node, token)| && CodeBits(c, n) == CodeBits(code, length) + Path(node, token)
  {
    hide CodeBits;
    if node.Branch? {
      CodeMapOfChild(node.left, node.right, code, length, token);
      PathOfChild(node.left, node.right, token);
      hide CodeMap, Tokens, Path;
      var right := token in Tokens(node.right);
      var child := if right then node.right else node.left;
      var next := if right then 2 * code + 1 else 2 * code;
      CodeMapPaths(child, next, length + 1, token);
      CodeBitsExtend(code, length, right);
      Associative(CodeBits(code, length), right, Path(child, token));
    }
  }

  lemma CodeBitsExtend(code: nat, length: nat, bit: bool)
    ensures CodeBits(if bit then 2 * code + 1 else 2 * code, length + 1) == CodeBits(code, length) + [bit]
  {}

  /** The code of a token spells the branches from the root to it. */
  lemma CodesArePaths(tree: Node, token: nat)
    requires token in Tokens(tree)
    ensures token in CodeMap(tree, 0, 0)
    ensures var (c, n) := CodeMap(tree, 0, 0)[token]; n == |Path(tree, token)| && CodeBits(c, n) == Path(tree, token)
  {
    CodeMapPaths(tree, 0, 0, token);
    assert [] + Path(tree, token) == Path(tree, token);
  }

  /** No code is a prefix of another token's code. */
  lemma {:induction false} PrefixFree(tree: Node, a: nat, b: nat)
    requires Distinct(tree) && a in Tokens(tree) && b in Tokens(tree) && a != b
    ensures !(Path(tree, a) <= Path(tree, b))
  {
    match tree
    case Leaf(_) =>
    case Branch(l, r) =>
      var p, q := Path(tree, a), Path(tree, b);
      assert p[0] == (a in Tokens(r)) && q[0] == (b in Tokens(r));
      if p[0] == q[0] {
        var child := if p[0] then r else l;
        PrefixFree(child, a, b);
        SamePrefix(p[0], Path(child, a), Path(child, b));
      }
  }

  lemma SamePrefix(b: bool, p: seq<bool>, q: seq<bool>)
    ensures [b] + p <= [b] + q <==> p <= q
  {
    assert ([b] + p)[1..] == p && ([b] + q)[1..] == q;
  }

  ghost function Depth(t: Node): nat {
    match t
    case Leaf(_) => 0
    case Branch(l, r) => 1 + if Depth(l) >= Depth(r) then Depth(l) else Depth(r)
  }

  /** The share of all n-bit strings that begin with a token's code. */
  ghost function Share(t: Node, n: nat): nat -> int {
    (k: nat) => if CodeLength(t, k) <= n then Pow2(n - CodeLength(t, k)) else 0
  }

  lemma ShareOfChild(t: Node, child: Node, n: nat)
    requires t.Branch? && Distinct(t) && (child == t.left || child == t.right) && n > 0
    ensures Sum(Tokens(child), Share(t, n)) == Sum(Tokens(child), Share(child, n - 1))
  {
    forall k | k in Tokens(child)
      ensures Share(t, n)(k) == Share(child, n - 1)(k)
    {
      CodeLengthOfChild(t.left, t.right, k);
      hide Pow2, CodeLength;
    }
    hide Share;
    SumCongruent(Tokens(child), Share(t, n), Share(child, n - 1));
  }

  /** Kraft's sum is exactly one: the codes leave no bit string unused. */
  lemma {:induction false} KraftEquality(t: Node, n: nat)
    requires Distinct(t) && Depth(t) <= n
    ensures Sum(Tokens(t), Share(t, n)) == Pow2(n)
  {
    match t
    case Leaf(k) =>
      SumSingle(k, Share(t, n));
    case Branch(l, r) =>
      hide Share, Tokens;
      SumOfBranch(t, Share(t, n));
      ShareOfChild(t, l, n);
      ShareOfChild(t, r, n);
      KraftEquality(l, n - 1);
      KraftEquality(r, n - 1);
  }

  // ---------------------------------------------------------------------------------------------
  // Decoding by walking a branch table

  const LEAF_MASK: nat := 0x80

  predicate IsLeafEntry(entry: nat) {
    entry / LEAF_MASK % 2 == 1
  }

  /**
   * The token read by a walk that is at a branch, and the position after it. The walk fails when it
   * runs off the bits or off the table.
   */
  function Walk(bits: seq<bool>, position: nat, table: seq<nat>, node: nat): (r: Option<(nat, nat)>)
    ensures r.Some? ==> position < r.value.1 <= |bits|
    decreases |bits| - position
  {
    if position >= |bits| then None
    else
      var slot := 2 * node + if bits[position] then 1 else 0;
      if slot >= |table| then None
      else if IsLeafEntry(table[slot]) then Some((table[slot] % LEAF_MASK, position + 1))
      else Walk(bits, position + 1, table, table[slot])
  }

  method DecodeHuffmanToken(reader: BitReader, table: seq<nat>) returns (r: Option<nat>)
    modifies reader
    ensures var spec := Walk(BitsOf(reader.data, 8 * |reader.data|), old(reader.bitPosition), table, 0);
            match spec
            case None => r == None
            case Some(p) => r == Some(p.0) && reader.bitPosition == p.1
  {
    ghost var bits := BitsOf(reader.data, 8 * |reader.data|);
    ghost var spec := Walk(bits, reader.bitPosition, table, 0);
    var node: nat := 0;
    while true
      invariant Walk(bits, reader.bitPosition, table, node) == spec
      decreases |bits| - reader.bitPosition
    {
      var bit := reader.Read();
      if bit == None {
        return None;
      }
      var slot := 2 * node + if bit.value then 1 else 0;
      if slot >= |table| {
        return None;
      }
      var entry := table[slot];
      if IsLeafEntry(entry) {
        return Some(entry % LEAF_MASK);
      }
      node := entry;
    }
  }

  /** The pair of slots at an index describes a branch, and the slots it leads to describe its children. */
  ghost predicate Represents(table: seq<nat>, index: nat, t: Node)
    decreases t, 0
  {
    && t.Branch?
    && 2 * index + 1 < |table|
    && SlotFor(table, index, table[2 * index], t.left)
    && SlotFor(table, index, table[2 * index + 1], t.right)
  }

  /** A slot is a marked token, or the larger index of a child's own pair of slots. */
  ghost predicate SlotFor(table: seq<nat>, index: nat, entry: nat, child: Node)
    decreases child, 1
  {
    match child
    case Leaf(k) => k < LEAF_MASK && entry == LEAF_MASK + k
    case Branch(_, _) => index < entry < LEAF_MASK && Represents(table, entry, child)
  }

  /** Walking over a token's path reads the token and exactly its path. */
  lemma {:induction false} WalkReadsPath(bits: seq<bool>, position: nat, table: seq<nat>, index: nat, t: Node, token: nat)
    requires Represents(table, index, t) && token in Tokens(t)
    requires position <= |bits| && Path(t, token) <= bits[position..]
    ensures Walk(bits, position, table, index) == Some((token, position + |Path(t, token)|))
    decreases t
  {
    var path := Path(t, token);
    assert path[0] == bits[position..][0] == bits[position];
    var child := if path[0] then t.right else t.left;
    var entry := table[2 * index + if path[0] then 1 else 0];
    assert SlotFor(table, index, entry, child);
    if child.Branch? {
      assert path[1..] == Path(child, token);
      assert bits[position..][1..] == bits[position + 1..];
      WalkReadsPath(bits, position + 1, table, entry, child, token);
    }
  }
}
