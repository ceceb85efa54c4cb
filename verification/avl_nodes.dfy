/** The AVL trees of the microcode: nodes that are rotated and updated in place. */
module AvlNodes {
  import opened AvlTree

  class TreeNode {
    var height: int
    var left: TreeNode?
    var rite: TreeNode?
    const entry: Entry
    ghost var Repr: set<TreeNode>

    /** leaf_make. */
    constructor (name: Name, value: nat)
      ensures Valid() && fresh(Repr) && entry == Entry(name, value) && Model() == Node(Empty, entry, 1, Empty)
    {
      entry := Entry(name, value);
      height, left, rite := 1, null, null;
      Repr := {this};
    }

    /** The branches are trees of their own nodes. */
    ghost predicate Valid()
      reads this, Repr
      decreases Repr
    {
      && this in Repr
      && (left != null ==> left in Repr && left.Repr < Repr && this !in left.Repr && left.Valid())
      && (rite != null ==> rite in Repr && rite.Repr < Repr && this !in rite.Repr && rite.Valid())
      && (left != null && rite != null ==> left.Repr !! rite.Repr)
      && Repr == {this} + (if left == null then {} else left.Repr) + (if rite == null then {} else rite.Repr)
    }

    /** The tree that hangs on this node. */
    ghost function Model(): Tree
      requires Valid()
      reads this, Repr
      decreases Repr
    {
      Node(if left == null then Empty else left.Model(), entry, height, if rite == null then Empty else rite.Model())
    }
  }

  ghost predicate IsTree(t: TreeNode?)
    reads if t == null then {} else {t} + t.Repr
  {
    t != null ==> t.Valid()
  }

  ghost function ModelOf(t: TreeNode?): Tree
    requires IsTree(t)
    reads if t == null then {} else {t} + t.Repr
  {
    if t == null then Empty else t.Model()
  }

  ghost function NodesOf(t: TreeNode?): set<TreeNode>
    reads if t == null then {} else {t}
  {
    if t == null then {} else t.Repr
  }

  /** BRANCH_HEIGHT. */
  function BranchHeight(t: TreeNode?): int
    reads if t == null then {} else {t}
  {
    if t == null then 0 else t.height
  }

  /** The branches of a node, apart from its own fields. */
  ghost predicate Branches(t: TreeNode)
    reads t, NodesOf(t.left), NodesOf(t.rite), if t.left == null then {} else {t.left}, if t.rite == null then {}
      else {t.rite}
  {
    && IsTree(t.left) && IsTree(t.rite) && NodesOf(t.left) !! NodesOf(t.rite)
    && t !in NodesOf(t.left) && t !in NodesOf(t.rite)
  }

  /** update_height. */
  method UpdateHeight(t: TreeNode)
    requires Branches(t)
    modifies t
    ensures t.Valid() && t.left == old(t.left) && t.rite == old(t.rite)
    ensures t.Repr == {t} + old(NodesOf(t.left)) + old(NodesOf(t.rite))
    ensures t.Model() == Updated(old(ModelOf(t.left)), t.entry, old(ModelOf(t.rite)))
  {
    t.height := 1 + (if BranchHeight(t.left) >= BranchHeight(t.rite) then BranchHeight(t.left)
      else BranchHeight(t.rite));
    t.Repr := {t} + NodesOf(t.left) + NodesOf(t.rite);
  }

  /** A tree is its root and its branches. */
  lemma Parts(t: TreeNode)
    requires t.Valid()
    ensures Branches(t) && t.Repr == {t} + NodesOf(t.left) + NodesOf(t.rite)
    ensures t.Model() == Node(ModelOf(t.left), t.entry, t.height, ModelOf(t.rite))
    ensures (t.left != null ==> t.left in t.left.Repr) && (t.rite != null ==> t.rite in t.rite.Repr) && t in t.Repr
  {}

  /** A node is put above two trees: the common part of the rotations. */
  method Relink(t: TreeNode, left: TreeNode?, rite: TreeNode?, ghost l: Tree, ghost r: Tree)
    requires IsTree(left) && IsTree(rite) && ModelOf(left) == l && ModelOf(rite) == r
    requires NodesOf(left) !! NodesOf(rite) && t !in NodesOf(left) && t !in NodesOf(rite)
    modifies t
    ensures t.Valid() && t.Repr == {t} + old(NodesOf(left)) + old(NodesOf(rite)) && t.Model() == Updated(l, t.entry, r)
  {
    t.left := left;
    t.rite := rite;
    UpdateHeight(t);
  }

  /** rotate_left. */
  method RotateNodesLeft(tree: TreeNode) returns (root: TreeNode)
    requires Branches(tree) && tree.rite != null
    modifies tree, tree.rite
    ensures root.Valid() && root.Repr == {tree} + old(NodesOf(tree.left)) + old(NodesOf(tree.rite))
    ensures root.Model() == RotateLeft(Node(old(ModelOf(tree.left)), tree.entry, 0, old(ModelOf(tree.rite))))
  {
    hide Updated, TreeNode.Valid, TreeNode.Model;
    var rite := tree.rite;
    var beta := rite.left;
    Parts(rite);
    ghost var a, b, c := ModelOf(tree.left), ModelOf(beta), ModelOf(rite.rite);
    Relink(tree, tree.left, beta, a, b);
    Relink(rite, tree, rite.rite, Updated(a, tree.entry, b), c);
    root := rite;
  }

  /** rotate_rite. */
  method RotateNodesRite(tree: TreeNode) returns (root: TreeNode)
    requires Branches(tree) && tree.left != null
    modifies tree, tree.left
    ensures root.Valid() && root.Repr == {tree} + old(NodesOf(tree.left)) + old(NodesOf(tree.rite))
    ensures root.Model() == RotateRite(Node(old(ModelOf(tree.left)), tree.entry, 0, old(ModelOf(tree.rite))))
  {
    hide Updated, TreeNode.Valid, TreeNode.Model;
    var left := tree.left;
    var beta := left.rite;
    Parts(left);
    ghost var a, b, c := ModelOf(left.left), ModelOf(beta), ModelOf(tree.rite);
    Relink(tree, beta, tree.rite, b, c);
    Relink(left, left.left, tree, a, Updated(b, tree.entry, c));
    root := left;
  }

  lemma BalancedParts(t: Tree)
    requires t.Node? && Balanced(t)
    ensures Balanced(t.left) && Balanced(t.rite) && Height(t.left) >= 0 && Height(t.rite) >= 0
  {
    HeightPositive(t.left);
    HeightPositive(t.rite);
  }

  /** rebalance_left. The branches are balanced trees, so the nodes that are read are there. */
  method RebalanceNodesLeft(tree: TreeNode) returns (root: TreeNode)
    requires Branches(tree) && Balanced(ModelOf(tree.left)) && Balanced(ModelOf(tree.rite))
    modifies tree, NodesOf(tree.left)
    ensures root.Valid() && root.Repr == {tree} + old(NodesOf(tree.left)) + old(NodesOf(tree.rite))
    ensures root.Model() ==
      RebalanceLeft(Node(old(ModelOf(tree.left)), tree.entry, old(tree.height), old(ModelOf(tree.rite))))
  {
    hide Updated, TreeNode.Valid, TreeNode.Model, Balanced;
    HeightPositive(ModelOf(tree.rite));
    HeightIs(tree.left);
    HeightIs(tree.rite);
    if 1 + BranchHeight(tree.rite) >= BranchHeight(tree.left) {
      UpdateHeight(tree);
      root := tree;
    } else {
      var q := tree.left;
      Parts(q);
      HeightIs(q.left);
      HeightIs(q.rite);
      BalancedParts(ModelOf(q));
      if BranchHeight(q.rite) > BranchHeight(q.left) {
        ghost var nodes, l, r := NodesOf(q), ModelOf(q), ModelOf(tree.rite);
        assert l == Node(ModelOf(q.left), q.entry, q.height, ModelOf(q.rite));
        var p := RotateNodesLeft(q);
        Parts(p);
        assert p.Repr == nodes && ModelOf(p) == RotateLeft(l);
        tree.left := p;
        assert ModelOf(tree.rite) == r;
      }
      root := RotateNodesRite(tree);
    }
  }

  /** rebalance_rite. */
  method RebalanceNodesRite(tree: TreeNode) returns (root: TreeNode)
    requires Branches(tree) && Balanced(ModelOf(tree.rite)) && Balanced(ModelOf(tree.left))
    modifies tree, NodesOf(tree.rite)
    ensures root.Valid() && root.Repr == {tree} + old(NodesOf(tree.rite)) + old(NodesOf(tree.left))
    ensures root.Model() ==
      RebalanceRite(Node(old(ModelOf(tree.left)), tree.entry, old(tree.height), old(ModelOf(tree.rite))))
  {
    hide Updated, TreeNode.Valid, TreeNode.Model, Balanced;
    HeightPositive(ModelOf(tree.left));
    HeightIs(tree.rite);
    HeightIs(tree.left);
    if 1 + BranchHeight(tree.left) >= BranchHeight(tree.rite) {
      UpdateHeight(tree);
      root := tree;
    } else {
      var q := tree.rite;
      Parts(q);
      HeightIs(q.rite);
      HeightIs(q.left);
      BalancedParts(ModelOf(q));
      if BranchHeight(q.left) > BranchHeight(q.rite) {
        ghost var nodes, r, l := NodesOf(q), ModelOf(q), ModelOf(tree.left);
        assert r == Node(ModelOf(q.left), q.entry, q.height, ModelOf(q.rite));
        var p := RotateNodesRite(q);
        Parts(p);
        assert p.Repr == nodes && ModelOf(p) == RotateRite(r);
        tree.rite := p;
        assert ModelOf(tree.left) == l;
      }
      root := RotateNodesLeft(tree);
    }
  }

  lemma HeightIs(t: TreeNode?)
    requires IsTree(t)
    ensures BranchHeight(t) == Height(ModelOf(t)) && (t != null ==> t in t.Repr)
  {}

  // ---------------------------------------------------------------- insertion

  /** tree_insert. */
  method InsertNode(tree: TreeNode?, name: Name, value: nat) returns (root: TreeNode, duplicate: bool)
    requires IsTree(tree) && Balanced(ModelOf(tree))
    modifies NodesOf(tree)
    ensures root.Valid() && fresh(root.Repr - old(NodesOf(tree))) && old(NodesOf(tree)) <= root.Repr
    ensures root.Model() == Insert(old(ModelOf(tree)), Entry(name, value))
    ensures duplicate <==> old(Lookup(ModelOf(tree), name)).Found?
    decreases NodesOf(tree)
  {
    hide Updated, TreeNode.Valid, TreeNode.Model, Balanced, RebalanceLeft, RebalanceRite;
    duplicate := false;
    if tree == null {
      root := new TreeNode(name, value);
      return;
    }
    Parts(tree);
    HeightIs(tree.left);
    HeightIs(tree.rite);
    ghost var t, e := ModelOf(tree), Entry(name, value);
    BalancedParts(t);
    var order := StrcmpCi(name, tree.entry.name);
    match order
    case Same =>
      duplicate := true;
      root := tree;
    case Less =>
      ghost var rest := NodesOf(tree.rite) + {tree};
      InsertBalanced(t.left, e);
      var p, d := InsertNode(tree.left, name, value);
      duplicate := d;
      assert p.Repr !! rest;
      tree.left := p;
      assert ModelOf(tree.rite) == t.rite;
      root := RebalanceNodesLeft(tree);
    case Greater =>
      ghost var rest := NodesOf(tree.left) + {tree};
      InsertBalanced(t.rite, e);
      var p, d := InsertNode(tree.rite, name, value);
      duplicate := d;
      assert p.Repr !! rest;
      tree.rite := p;
      assert ModelOf(tree.left) == t.left;
      root := RebalanceNodesRite(tree);
  }

  /** strcmp_ci. */
  method StrcmpCi(a: Name, b: Name) returns (order: Order)
    ensures order == Compared(a, b)
  {
    var i := 0;
    while true
      invariant i <= |a| && i <= |b| && Compared(a[i..], b[i..]) == Compared(a, b)
      decreases |a| - i
    {
      if i == |a| { return if i == |b| then Same else Less; }
      if i == |b| { return Greater; }
      var c, d := ToUpper(a[i]), ToUpper(b[i]);
      if c < d { return Less; }
      if c > d { return Greater; }
      assert a[i..][1..] == a[i + 1..] && b[i..][1..] == b[i + 1..];
      i := i + 1;
    }
  }

  /** tree_lookup: the node that holds the name, or null. */
  method LookupNode(tree: TreeNode?, name: Name) returns (found: TreeNode?)
    requires IsTree(tree)
    ensures Lookup(ModelOf(tree), name) == if found == null then NotFound else Found(found.entry)
    ensures found != null ==> found in NodesOf(tree)
  {
    var t := tree;
    while t != null
      invariant IsTree(t) && NodesOf(t) <= NodesOf(tree)
      invariant Lookup(ModelOf(t), name) == Lookup(ModelOf(tree), name)
      decreases NodesOf(t)
    {
      var order := StrcmpCi(name, t.entry.name);
      match order
      case Same => return t;
      case Less => t := t.left;
      case Greater => t := t.rite;
    }
    found := null;
  }

  // ---------------------------------------------------------------- building

  /** tree_build, with the static variable as a parameter and a result. */
  method BuildNodes(high: nat, names: seq<Name>, value: nat, bias: nat) returns (root: TreeNode?, bias': nat)
    requires high <= |names| && bias <= 1
    ensures IsTree(root) && fresh(NodesOf(root)) && bias' == NextBias(high, bias)
    ensures ModelOf(root) == Built(high, names, value, bias)
    decreases high
  {
    hide Updated, TreeNode.Valid, TreeNode.Model, Built, NextBias, Size, Balanced, Entries;
    BuiltIs(high, names, value, bias);
    BiasStep(high, bias);
    if high > 1 {
      var middle := high / 2;
      bias' := bias;
      if high % 2 == 0 {
        middle := middle - bias;
        bias' := 1 - bias;
      }
      var next := middle + 1;
      var tree := new TreeNode(names[middle], value + middle);
      var left, bias1 := BuildNodes(middle, names, value, bias');
      var rite, bias2 := BuildNodes(high - next, names[next..], value + next, bias1);
      bias' := bias2;
      Relink(tree, left, rite, ModelOf(left), ModelOf(rite));
      root := tree;
    } else if high == 1 {
      bias' := bias;
      root := new TreeNode(names[0], value);
    } else {
      bias' := bias;
      root := null;
    }
  }
}
