/** The Huffman tree of tree.go.  A TreeNode pointer is either nil or a node
    holding a byte value and two child pointers; the priority and index fields
    only matter while the tree is being built (see module PriorityQueue). */
module HuffmanTree {
  import opened Bits

  datatype Tree = Nil | Node(value: byte, left: Tree, right: Tree)

  /** TreeNode.IsLeaf: a node is a leaf exactly when both children are nil. */
  predicate IsLeaf(t: Tree)
    requires t.Node?
    ensures t.left.Nil? != t.right.Nil? ==> !IsLeaf(t)
  {
    t.left == Nil && t.right == Nil
  }

  /** Number of non-nil nodes. */
  function Size(t: Tree): nat {
    if t.Nil? then 0 else 1 + Size(t.left) + Size(t.right)
  }

  function LeafCount(t: Tree): nat {
    if t.Nil? then 0 else if IsLeaf(t) then 1 else LeafCount(t.left) + LeafCount(t.right)
  }

  /** Non-nil nodes that are not leaves (including nodes with one child). */
  function BranchCount(t: Tree): nat {
    if t.Nil? then 0 else if IsLeaf(t) then 0 else 1 + BranchCount(t.left) + BranchCount(t.right)
  }

  /** The multiset of leaf values. */
  function Leaves(t: Tree): (m: multiset<byte>)
    ensures |m| == LeafCount(t)
  {
    if t.Nil? then multiset{} else if IsLeaf(t) then multiset{t.value}
    else Leaves(t.left) + Leaves(t.right)
  }

  /** The shape buildEncodingTree produces: a non-nil tree in which every node
      is a leaf or has two children, and every branch carries the zero value
      that a fresh Go TreeNode{} has. */
  predicate WellFormed(t: Tree) {
    t.Node? && (IsLeaf(t) || (t.value == 0 && WellFormed(t.left) && WellFormed(t.right)))
  }

  /** A well-formed tree with N leaves has N - 1 branches. */
  lemma {:induction false} LeavesAndBranches(t: Tree)
    requires WellFormed(t)
    ensures LeafCount(t) == BranchCount(t) + 1
    ensures Size(t) == 2 * LeafCount(t) - 1
  {
    if !IsLeaf(t) {
      LeavesAndBranches(t.left);
      LeavesAndBranches(t.right);
    }
  }

  /** The child a bit selects: '0' the left one, anything else the right one. */
  function Child(t: Tree, bit: char): Tree {
    if t.Nil? then Nil else if bit == '0' then t.left else t.right
  }

  /** The node reached from t by following a path of bits (Nil once the path
      leaves the tree). */
  function Follow(t: Tree, path: seq<char>): Tree
    decreases |path|
  {
    if path == [] then t else Follow(Child(t, path[0]), path[1..])
  }

  lemma {:induction false} FollowAppend(t: Tree, p: seq<char>, q: seq<char>)
    ensures Follow(t, p + q) == Follow(Follow(t, p), q)
  {
    if p != [] {
      assert (p + q)[0] == p[0] && (p + q)[1..] == p[1..] + q;
      FollowAppend(Child(t, p[0]), p[1..], q);
    } else {
      assert p + q == q;
    }
  }

  lemma {:induction false} FollowNil(p: seq<char>)
    ensures Follow(Nil, p) == Nil
  {
    if p != [] { FollowNil(p[1..]); }
  }

  /** Below a leaf there is nothing: a path that reaches a leaf cannot be
      extended to reach another node. */
  lemma {:induction false} FollowPastLeaf(t: Tree, p: seq<char>, q: seq<char>)
    requires Follow(t, p).Node? && IsLeaf(Follow(t, p)) && q != []
    ensures Follow(t, p + q) == Nil
  {
    FollowAppend(t, p, q);
    FollowNil(q[1..]);
  }

  // ---------------------------------------------------------------------
  // printTree, modelled as the list of lines it would print.

  function DigitChar(d: nat): char
    requires d < 10
  {
    "0123456789"[d]
  }

  /** The value of a string of decimal digits. */
  function DecimalValue(s: seq<char>): nat {
    if s == [] then 0
    else
      var c := s[|s| - 1];
      10 * DecimalValue(s[..|s| - 1]) + (if '0' <= c <= '9' then (c as int) - ('0' as int) else 0)
  }

  /** fmt's %d rendering of a natural number. */
  function Decimal(n: nat): (s: seq<char>)
    ensures 0 < |s| && DecimalValue(s) == n
    ensures forall i :: 0 <= i < |s| ==> '0' <= s[i] <= '9'
    ensures n < 10 <==> |s| == 1
    ensures s[0] == '0' <==> n == 0
  {
    var last := [DigitChar(n % 10)];
    if n < 10 then
      assert last[..0] == [];
      last
    else
      var s := Decimal(n / 10) + last;
      assert s[..|s| - 1] == Decimal(n / 10);
      s
  }

  /** The label printTree writes after the '-': the decimal value of a leaf,
      '*' for any other node. */
  function Label(t: Tree): seq<char> {
    if t.Node? && IsLeaf(t) then Decimal(t.value) else "*"
  }

  /** printTree(prefix, node): a leaf prints prefix + "-" + its value, any
      other node prints prefix + "-*" and then both subtrees one '|' deeper. */
  function PrintTree(prefix: seq<char>, t: Tree): (lines: seq<seq<char>>)
    ensures t.Nil? ==> lines == []
    ensures t.Node? && IsLeaf(t) ==> lines == [prefix + "-" + Decimal(t.value)]
    ensures |lines| == Size(t)
    decreases t
  {
    if t.Nil? then []
    else if IsLeaf(t) then [prefix + "-" + Decimal(t.value)]
    else [prefix + "-*"] + PrintTree(prefix + "|", t.left) + PrintTree(prefix + "|", t.right)
  }

  function Bars(d: nat): (s: seq<char>)
    ensures |s| == d && forall i :: 0 <= i < d ==> s[i] == '|'
  {
    if d == 0 then [] else Bars(d - 1) + "|"
  }

  /** Independent reference: the non-nil nodes in pre-order, each with its
      depth below the root. */
  function Preorder(t: Tree): (r: seq<(nat, Tree)>)
    ensures |r| == Size(t)
    ensures forall i :: 0 <= i < |r| ==> r[i].1.Node?
  {
    if t.Nil? then []
    else [(0, t)] + Deepen(Preorder(t.left)) + Deepen(Preorder(t.right))
  }

  function Deepen(s: seq<(nat, Tree)>): (r: seq<(nat, Tree)>)
    ensures |r| == |s|
    ensures forall i :: 0 <= i < |s| ==> r[i] == (s[i].0 + 1, s[i].1)
  {
    if s == [] then [] else [(s[0].0 + 1, s[0].1)] + Deepen(s[1..])
  }

  /** One line per (depth, node): the prefix, one '|' per level, '-' and the label. */
  function Render(prefix: seq<char>, s: seq<(nat, Tree)>): (lines: seq<seq<char>>)
    ensures |lines| == |s|
    ensures forall i :: 0 <= i < |s| ==> lines[i] == prefix + Bars(s[i].0) + "-" + Label(s[i].1)
  {
    if s == [] then [] else [prefix + Bars(s[0].0) + "-" + Label(s[0].1)] + Render(prefix, s[1..])
  }

  lemma RenderAppend(prefix: seq<char>, a: seq<(nat, Tree)>, b: seq<(nat, Tree)>)
    ensures Render(prefix, a + b) == Render(prefix, a) + Render(prefix, b)
  {
  }

  lemma RenderDeepen(prefix: seq<char>, s: seq<(nat, Tree)>)
    ensures Render(prefix, Deepen(s)) == Render(prefix + "|", s)
  {
    var l, r := Render(prefix, Deepen(s)), Render(prefix + "|", s);
    forall i | 0 <= i < |s| ensures l[i] == r[i] {
      ShiftLine(prefix, s[i].0, Label(s[i].1));
    }
  }

  lemma ShiftLine(prefix: seq<char>, d: nat, text: seq<char>)
    ensures (prefix + "|") + Bars(d) + "-" + text == prefix + Bars(d + 1) + "-" + text
  {
    assert "|" + Bars(d) == Bars(d + 1);
  }

  /** printTree prints one line per non-nil node, in pre-order, each carrying
      one '|' per level of depth, then '-' and the node's label. */
  lemma {:induction false} PrintTreeLines(prefix: seq<char>, t: Tree)
    ensures PrintTree(prefix, t) == Render(prefix, Preorder(t))
    decreases t
  {
    if t.Node? {
      if IsLeaf(t) {
        assert Preorder(t) == [(0, t)];
        assert prefix + Bars(0) == prefix;
      } else {
        PrintTreeLines(prefix + "|", t.left);
        PrintTreeLines(prefix + "|", t.right);
        RenderDeepen(prefix, Preorder(t.left));
        RenderDeepen(prefix, Preorder(t.right));
        PrintBranch(prefix, t);
      }
    }
  }

  lemma PrintBranch(prefix: seq<char>, t: Tree)
    requires t.Node? && !IsLeaf(t)
    requires PrintTree(prefix + "|", t.left) == Render(prefix, Deepen(Preorder(t.left)))
    requires PrintTree(prefix + "|", t.right) == Render(prefix, Deepen(Preorder(t.right)))
    ensures PrintTree(prefix, t) == Render(prefix, Preorder(t))
  {
    var dl, dr := Deepen(Preorder(t.left)), Deepen(Preorder(t.right));
    assert PrintTree(prefix, t) == [prefix + "-*"] + Render(prefix, dl) + Render(prefix, dr);
    RenderAppend(prefix, [(0, t)], dl);
    RenderAppend(prefix, [(0, t)] + dl, dr);
    BranchLine(prefix, t);
    assert Preorder(t) == [(0, t)] + dl + dr;
  }

  /** The line of a branch at depth 0. */
  lemma BranchLine(prefix: seq<char>, t: Tree)
    requires t.Node? && !IsLeaf(t)
    ensures Render(prefix, [(0, t)]) == [prefix + "-*"]
  {
    assert Bars(0) == [] && Label(t) == "*";
    assert prefix + [] + "-" + "*" == prefix + "-*";
  }
}
