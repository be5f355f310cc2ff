// Flattening a Huffman tree into its branch table.
module Flattening {
  import opened Wrappers
  import opened Huffman
  import opened HuffmanCodes

  /** A branch of the tree; its path stands for the identity of the node object. */
  datatype Place = Place(path: seq<bool>, node: Node)

  function Child(t: Node, right: bool): Node
    requires t.Branch?
  {
    if right then t.right else t.left
  }

  ghost function Branches(t: Node): nat {
    if t.Leaf? then 0 else 1 + Branches(t.left) + Branches(t.right)
  }

  ghost function Preorder(t: Node, path: seq<bool>): (r: seq<Place>)
    ensures |r| == Branches(t)
  {
    if t.Leaf? then []
    else [Place(path, t)] + Preorder(t.left, path + [false]) + Preorder(t.right, path + [true])
  }

  // ---------------------------------------------------------------------------------------------
  // Paths and preorder indices

  ghost predicate IsBranchPath(t: Node, p: seq<bool>) {
    t.Branch? && (p != [] ==> IsBranchPath(Child(t, p[0]), p[1..]))
  }

  ghost function Subtree(t: Node, p: seq<bool>): (r: Node)
    requires IsBranchPath(t, p)
    ensures r.Branch?
  {
    if p == [] then t else Subtree(Child(t, p[0]), p[1..])
  }

  ghost function IndexOf(t: Node, p: seq<bool>): (r: nat)
    requires IsBranchPath(t, p)
    ensures r < Branches(t)
  {
    if p == [] then 0
    else 1 + (if p[0] then Branches(t.left) else 0) + IndexOf(Child(t, p[0]), p[1..])
  }

  /** The path of the branch with a given preorder index. */
  ghost function PathAt(t: Node, i: nat): (p: seq<bool>)
    requires i < Branches(t)
    ensures IsBranchPath(t, p) && IndexOf(t, p) == i
  {
    if i == 0 then []
    else if i <= Branches(t.left) then [false] + PathAt(t.left, i - 1)
    else [true] + PathAt(t.right, i - 1 - Branches(t.left))
  }

  lemma {:induction false} PreorderAt(t: Node, base: seq<bool>, p: seq<bool>)
    requires IsBranchPath(t, p)
    ensures Preorder(t, base)[IndexOf(t, p)] == Place(base + p, Subtree(t, p))
  {
    if p == [] {
      assert base + [] == base;
    } else {
      PreorderAt(Child(t, p[0]), base + [p[0]], p[1..]);
      assert base + [p[0]] + p[1..] == base + p;
    }
  }

  lemma {:induction false} ExtendPath(t: Node, p: seq<bool>, b: bool)
    requires IsBranchPath(t, p) && Child(Subtree(t, p), b).Branch?
    ensures IsBranchPath(t, p + [b])
    ensures Subtree(t, p + [b]) == Child(Subtree(t, p), b)
    ensures IndexOf(t, p) < IndexOf(t, p + [b])
  {
    if p == [] {
      assert [] + [b] == [b] && [b][1..] == [];
    } else {
      ExtendPath(Child(t, p[0]), p[1..], b);
      assert (p + [b])[1..] == p[1..] + [b];
    }
  }

  /** The left branch comes right behind its parent, the right one behind all branches of the left. */
  lemma {:induction false} ChildIndex(t: Node, p: seq<bool>, b: bool)
    requires IsBranchPath(t, p) && Child(Subtree(t, p), b).Branch?
    ensures IsBranchPath(t, p + [b])
    ensures IndexOf(t, p + [b]) == IndexOf(t, p) + 1 + if b then Branches(Subtree(t, p).left) else 0
  {
    ExtendPath(t, p, b);
    if p == [] {
      assert [] + [b] == [b] && [b][1..] == [];
    } else {
      ChildIndex(Child(t, p[0]), p[1..], b);
      assert (p + [b])[1..] == p[1..] + [b] && (p + [b])[0] == p[0];
    }
  }

  /** Every branch but the root is the child of a branch. */
  lemma {:induction false} ParentPath(t: Node, p: seq<bool>)
    requires p != [] && IsBranchPath(t, p)
    ensures var q := p[..|p| - 1]; IsBranchPath(t, q) && Child(Subtree(t, q), p[|p| - 1]).Branch?
  {
    if |p| > 1 {
      ParentPath(Child(t, p[0]), p[1..]);
      assert p[1..][..|p| - 2] == p[..|p| - 1][1..];
    }
  }

  lemma {:induction false} SubtreeTokens(t: Node, p: seq<bool>)
    requires IsBranchPath(t, p)
    ensures Tokens(Subtree(t, p)) <= Tokens(t)
  {
    if p != [] {
      SubtreeTokens(Child(t, p[0]), p[1..]);
    }
  }

  // ---------------------------------------------------------------------------------------------
  // The table

  ghost predicate Fits(t: Node, p: seq<bool>, b: bool)
    requires IsBranchPath(t, p)
  {
    var child := Child(Subtree(t, p), b);
    if child.Leaf? then child.token < LEAF_MASK
    else ExtendPath(t, p, b); IndexOf(t, p + [b]) < LEAF_MASK
  }

  ghost function Slot(t: Node, p: seq<bool>, b: bool): nat
    requires IsBranchPath(t, p)
  {
    var child := Child(Subtree(t, p), b);
    if child.Leaf? then LEAF_MASK + child.token
    else ExtendPath(t, p, b); IndexOf(t, p + [b])
  }

  /** The first slots of the table hold their entries, and these fit. */
  ghost predicate Filled(t: Node, table: seq<nat>) {
    && |table| <= 2 * Branches(t)
    && forall s {:trigger table[s]} :: 0 <= s < |table| ==>
         Fits(t, PathAt(t, s / 2), s % 2 == 1) && table[s] == Slot(t, PathAt(t, s / 2), s % 2 == 1)
  }

  lemma {:induction false} PathOfIndex(t: Node, p: seq<bool>)
    requires IsBranchPath(t, p)
    ensures PathAt(t, IndexOf(t, p)) == p
  {
    if p != [] {
      PathOfIndex(Child(t, p[0]), p[1..]);
    }
  }

  lemma FilledEntry(t: Node, table: seq<nat>, i: nat, b: bool)
    requires Filled(t, table) && |table| == 2 * Branches(t) && i < Branches(t)
    ensures Fits(t, PathAt(t, i), b) && table[2 * i + if b then 1 else 0] == Slot(t, PathAt(t, i), b)
  {
    hide Fits, Slot, PathAt, IsBranchPath, Branches;
    var s := 2 * i + if b then 1 else 0;
    assert s / 2 == i && (s % 2 == 1) == b;
    assert table[s] == Slot(t, PathAt(t, s / 2), s % 2 == 1);
  }

  lemma FilledAt(t: Node, table: seq<nat>, p: seq<bool>, b: bool)
    requires Filled(t, table) && |table| == 2 * Branches(t) && IsBranchPath(t, p)
    ensures Fits(t, p, b) && table[2 * IndexOf(t, p) + if b then 1 else 0] == Slot(t, p, b)
  {
    hide *;
    PathOfIndex(t, p);
    FilledEntry(t, table, IndexOf(t, p), b);
  }

  ghost predicate HasSlot(table: seq<nat>, index: nat, b: bool, child: Node) {
    var slot := 2 * index + if b then 1 else 0;
    slot < |table| && SlotFor(table, index, table[slot], child)
  }

  lemma SlotOfLeaf(t: Node, p: seq<bool>, b: bool)
    requires IsBranchPath(t, p) && Child(Subtree(t, p), b).Leaf? && Fits(t, p, b)
    ensures Child(Subtree(t, p), b).token < LEAF_MASK
    ensures Slot(t, p, b) == LEAF_MASK + Child(Subtree(t, p), b).token
  {}

  lemma SlotOfBranch(t: Node, p: seq<bool>, b: bool)
    requires IsBranchPath(t, p) && Child(Subtree(t, p), b).Branch? && Fits(t, p, b)
    ensures IsBranchPath(t, p + [b]) && Slot(t, p, b) == IndexOf(t, p + [b])
    ensures IndexOf(t, p) < Slot(t, p, b) < LEAF_MASK
  {
    ExtendPath(t, p, b);
  }

  lemma FilledSlot(t: Node, table: seq<nat>, p: seq<bool>, b: bool)
    requires Filled(t, table) && |table| == 2 * Branches(t) && IsBranchPath(t, p)
    requires Child(Subtree(t, p), b).Branch? ==>
               IsBranchPath(t, p + [b]) && Represents(table, IndexOf(t, p + [b]), Child(Subtree(t, p), b))
    ensures HasSlot(table, IndexOf(t, p), b, Child(Subtree(t, p), b))
  {
    FilledAt(t, table, p, b);
    hide Filled, Slot, Fits, IndexOf, PathAt, Branches, IsBranchPath, Subtree, Represents, Child;
    if Child(Subtree(t, p), b).Branch? {
      SlotOfBranch(t, p, b);
    } else {
      SlotOfLeaf(t, p, b);
    }
  }

  lemma SlotsRepresent(table: seq<nat>, index: nat, t: Node)
    requires t.Branch? && HasSlot(table, index, false, t.left) && HasSlot(table, index, true, t.right)
    ensures Represents(table, index, t)
  {}

  lemma {:induction false} FilledRepresents(t: Node, table: seq<nat>, p: seq<bool>)
    requires Filled(t, table) && |table| == 2 * Branches(t) && IsBranchPath(t, p)
    ensures Represents(table, IndexOf(t, p), Subtree(t, p))
    decreases Subtree(t, p)
  {
    hide Filled, IndexOf, Represents, HasSlot, IsBranchPath, Subtree;
    var s := Subtree(t, p);
    if s.left.Branch? {
      ExtendPath(t, p, false);
      FilledRepresents(t, table, p + [false]);
    }
    if s.right.Branch? {
      ExtendPath(t, p, true);
      FilledRepresents(t, table, p + [true]);
    }
    FilledSlot(t, table, p, false);
    FilledSlot(t, table, p, true);
    SlotsRepresent(table, IndexOf(t, p), s);
  }

  /** Branches are listed as they are entered: a branch, then its left side, then its right side. */
  ghost predicate Preordered(table: seq<nat>, index: nat, t: Node)
    decreases t, 0
  {
    t.Branch? ==>
      && 2 * index + 1 < |table|
      && EntryOf(table, table[2 * index], index + 1, t.left)
      && EntryOf(table, table[2 * index + 1], index + 1 + Branches(t.left), t.right)
  }

  ghost predicate EntryOf(table: seq<nat>, entry: nat, index: nat, child: Node)
    decreases child, 1
  {
    child.Branch? ==> entry == index && Preordered(table, index, child)
  }

  lemma ChildSlot(t: Node, table: seq<nat>, p: seq<bool>, b: bool)
    requires Filled(t, table) && |table| == 2 * Branches(t) && IsBranchPath(t, p) && Child(Subtree(t, p), b).Branch?
    ensures IsBranchPath(t, p + [b]) && 2 * IndexOf(t, p) + 1 < |table|
    ensures table[2 * IndexOf(t, p) + if b then 1 else 0] == IndexOf(t, p + [b])
    ensures IndexOf(t, p + [b]) == IndexOf(t, p) + 1 + if b then Branches(Subtree(t, p).left) else 0
  {
    hide Filled, IndexOf, Branches, Subtree, Fits, Slot;
    FilledAt(t, table, p, b);
    SlotOfBranch(t, p, b);
    ChildIndex(t, p, b);
  }

  lemma {:induction false} FilledPreordered(t: Node, table: seq<nat>, p: seq<bool>)
    requires Filled(t, table) && |table| == 2 * Branches(t) && IsBranchPath(t, p)
    ensures Preordered(table, IndexOf(t, p), Subtree(t, p))
    decreases Subtree(t, p)
  {
    hide Filled, IndexOf, Preordered, IsBranchPath, Subtree, Branches;
    var s := Subtree(t, p);
    if s.left.Branch? {
      ChildSlot(t, table, p, false);
      ExtendPath(t, p, false);
      FilledPreordered(t, table, p + [false]);
    }
    if s.right.Branch? {
      ChildSlot(t, table, p, true);
      ExtendPath(t, p, true);
      FilledPreordered(t, table, p + [true]);
    }
    IndexFits(t, p);
    PreorderedFrom(table, IndexOf(t, p), s, IndexOf(t, p) + 1 + Branches(s.left));
  }

  lemma IndexFits(t: Node, p: seq<bool>)
    requires IsBranchPath(t, p)
    ensures 2 * IndexOf(t, p) + 1 < 2 * Branches(t)
  {}

  lemma PreorderedFrom(table: seq<nat>, index: nat, t: Node, right: nat)
    requires t.Branch? && 2 * index + 1 < |table| && right == index + 1 + Branches(t.left)
    requires EntryOf(table, table[2 * index], index + 1, t.left) && EntryOf(table, table[2 * index + 1], right, t.right)
    ensures Preordered(table, index, t)
  {
    hide EntryOf, Branches;
  }

  // ---------------------------------------------------------------------------------------------
  // The two passes of the flattening

  lemma PlaceAt(t: Node, i: nat)
    requires i < Branches(t)
    ensures Preorder(t, [])[i] == Place(PathAt(t, i), Subtree(t, PathAt(t, i)))
  {
    PreorderAt(t, [], PathAt(t, i));
    assert [] + PathAt(t, i) == PathAt(t, i);
  }

  /** A tree can be flattened exactly when every token and every child index fits below the leaf mark. */
  ghost predicate Flattenable(t: Node) {
    t.Branch? && Branches(t) <= 0x80 && forall k :: k in Tokens(t) ==> k < 0x80
  }

  lemma {:induction false} RepresentedTokens(table: seq<nat>, index: nat, t: Node)
    requires Represents(table, index, t)
    ensures forall k :: k in Tokens(t) ==> k < LEAF_MASK
    decreases t
  {
    assert SlotFor(table, index, table[2 * index], t.left);
    assert SlotFor(table, index, table[2 * index + 1], t.right);
    if t.left.Branch? {
      RepresentedTokens(table, table[2 * index], t.left);
    }
    if t.right.Branch? {
      RepresentedTokens(table, table[2 * index + 1], t.right);
    }
  }

  lemma FilledBranches(t: Node, table: seq<nat>)
    requires t.Branch? && Filled(t, table) && |table| == 2 * Branches(t)
    ensures Branches(t) <= LEAF_MASK
  {
    if Branches(t) > 1 {
      var p := PathAt(t, Branches(t) - 1);
      ParentPath(t, p);
      var q, b := p[..|p| - 1], p[|p| - 1];
      assert q + [b] == p;
      FilledAt(t, table, q, b);
    }
  }

  lemma FilledIsFlattenable(t: Node, table: seq<nat>)
    requires t.Branch? && Filled(t, table) && |table| == 2 * Branches(t)
    ensures Represents(table, 0, t) && Preordered(table, 0, t) && Flattenable(t)
  {
    FilledRepresents(t, table, []);
    FilledPreordered(t, table, []);
    RepresentedTokens(table, 0, t);
    FilledBranches(t, table);
  }

  /** Append the branches of a subtree in the order in which they are entered. */
  method AddNode(node: Node, path: seq<bool>, nodes: seq<Place>) returns (r: seq<Place>)
    requires node.Branch?
    ensures r == nodes + Preorder(node, path)
    decreases node
  {
    r := nodes + [Place(path, node)];
    if node.left.Branch? {
      r := AddNode(node.left, path + [false], r);
    }
    if node.right.Branch? {
      r := AddNode(node.right, path + [true], r);
    }
  }

  ghost predicate Indexed(t: Node, indices: map<seq<bool>, nat>, n: nat)
    requires n <= Branches(t)
  {
    forall i: nat {:trigger PathAt(t, i)} :: i < n ==> PathAt(t, i) in indices && indices[PathAt(t, i)] == i
  }

  lemma IndexNext(t: Node, indices: map<seq<bool>, nat>, n: nat)
    requires n < Branches(t) && Indexed(t, indices, n)
    ensures Indexed(t, indices[PathAt(t, n) := n], n + 1)
  {
    forall i: nat | i < n
      ensures PathAt(t, i) != PathAt(t, n)
    {
      PathAtInjective(t, i, n);
    }
    hide PathAt;
  }

  lemma PathAtInjective(t: Node, i: nat, j: nat)
    requires i < j < Branches(t)
    ensures PathAt(t, i) != PathAt(t, j)
  {
    assert IndexOf(t, PathAt(t, i)) == i && IndexOf(t, PathAt(t, j)) == j;
  }

  method BuildIndices(t: Node, nodes: seq<Place>) returns (indices: map<seq<bool>, nat>)
    requires nodes == Preorder(t, [])
    ensures Indexed(t, indices, Branches(t))
  {
    indices := map[];
    for i := 0 to |nodes|
      invariant Indexed(t, indices, i)
    {
      PlaceAt(t, i);
      IndexNext(t, indices, i);
      indices := indices[nodes[i].path := i];
    }
  }

  lemma FilledNext(t: Node, table: seq<nat>, i: nat, b: bool, entry: nat)
    requires i < Branches(t) && Filled(t, table) && |table| == 2 * i + if b then 1 else 0
    requires Fits(t, PathAt(t, i), b) && entry == Slot(t, PathAt(t, i), b)
    ensures Filled(t, table + [entry])
  {
    var longer := table + [entry];
    forall s | 0 <= s < |longer|
      ensures Fits(t, PathAt(t, s / 2), s % 2 == 1) && longer[s] == Slot(t, PathAt(t, s / 2), s % 2 == 1)
    {
      if s < |table| {
        assert longer[s] == table[s];
      } else {
        assert s / 2 == i && (s % 2 == 1) == b;
      }
    }
  }

  /** The table entry for one child of a branch, when it fits. */
  method ChildEntry(ghost t: Node, ghost i: nat, place: Place, b: bool, indices: map<seq<bool>, nat>)
    returns (r: Result<nat, HuffmanError>)
    requires i < Branches(t) && place == Place(PathAt(t, i), Subtree(t, PathAt(t, i)))
    requires Indexed(t, indices, Branches(t))
    ensures r.Success? ==> Fits(t, PathAt(t, i), b) && r.value == Slot(t, PathAt(t, i), b)
    ensures r.Failure? ==> !Flattenable(t) && (r.error == TokenTooLarge || r.error == IndexTooLarge)
    ensures r == Failure(TokenTooLarge) ==> exists k :: k in Tokens(t) && k >= LEAF_MASK
    ensures r == Failure(IndexTooLarge) ==> Branches(t) > LEAF_MASK
  {
    var child := Child(place.node, b);
    if child.Leaf? {
      SubtreeTokens(t, place.path);
      assert child.token in Tokens(place.node);
      if child.token >= LEAF_MASK {
        return Failure(TokenTooLarge);
      }
      return Success(LEAF_MASK + child.token);
    }
    ExtendPath(t, place.path, b);
    PathOfIndex(t, place.path + [b]);
    var index := indices[place.path + [b]];
    if index >= LEAF_MASK {
      return Failure(IndexTooLarge);
    }
    return Success(index);
  }

  /** Flatten a tree; failures are the RuntimeErrors of the program. */
  method FlattenHuffmanTree(tree: Node) returns (r: Result<seq<nat>, HuffmanError>)
    ensures r.Success? <==> Flattenable(tree)
    ensures r.Success? ==> Represents(r.value, 0, tree) && |r.value| == 2 * Branches(tree) && Preordered(r.value, 0, tree)
    ensures r.Success? ==> forall s :: 0 <= s < |r.value| ==> r.value[s] < 2 * LEAF_MASK
    ensures r == Failure(RootIsLeaf) <==> tree.Leaf?
    ensures r == Failure(TokenTooLarge) ==> exists k :: k in Tokens(tree) && k >= LEAF_MASK
    ensures r == Failure(IndexTooLarge) ==> Branches(tree) > LEAF_MASK
  {
    if tree.Leaf? {
      return Failure(RootIsLeaf);
    }
    var nodes := AddNode(tree, [], []);
    assert nodes == Preorder(tree, []);
    var indices := BuildIndices(tree, nodes);
    var table: seq<nat> := [];
    for i := 0 to |nodes|
      invariant Filled(tree, table) && |table| == 2 * i
    {
      PlaceAt(tree, i);
      hide Filled, Indexed, Flattenable, Tokens, Preorder, Fits, Slot, PathAt, Preordered;
      var left := ChildEntry(tree, i, nodes[i], false, indices);
      if left.Failure? {
        return Failure(left.error);
      }
      FilledNext(tree, table, i, false, left.value);
      table := table + [left.value];
      var right := ChildEntry(tree, i, nodes[i], true, indices);
      if right.Failure? {
        return Failure(right.error);
      }
      FilledNext(tree, table, i, true, right.value);
      table := table + [right.value];
    }
    FilledIsFlattenable(tree, table);
    FilledBytes(tree, table);
    return Success(table);
  }

  lemma FilledBytes(t: Node, table: seq<nat>)
    requires Filled(t, table)
    ensures forall s :: 0 <= s < |table| ==> table[s] < 2 * LEAF_MASK
  {}
}
