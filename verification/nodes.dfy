/** The tree's node records: `Branch` of branch.go and `Leaf` of leaf.go,
    with their getter/setter pairs, and the `BoundingBox` they carry.

    A node is an immutable value. The parent pointer `u` cannot be a pointer
    here, so it names the parent by position: the tree itself (`TreeOwner`,
    the value `_cut` stores in the root before `New` clears it), no parent,
    or the branch at a given path of left/right steps from the root. */
module Nodes {
  import opened Base

  /** BoundingBox is not part of this model's source files; its four fields
      are those _lr_branch_bbox reads and writes. */
  datatype BoundingBox = BoundingBox(ax: real, ay: real, dx: real, dy: real)

  /** The zero value a Go BoundingBox field starts with. */
  const ZeroBox := BoundingBox(0.0, 0.0, 0.0, 0.0)

  datatype Side = L | R

  datatype Parent = NoParent | TreeOwner | BranchAt(address: seq<Side>)

  /** `Leaf`: index i of its unique row, depth d, parent u, point x, number
      of points n, box b. `Branch`: cut dimension q and value p, children l
      and r (nil is `None`), parent u, leaf count n, box b. */
  datatype Node =
    | Leaf(i: nat, d: nat, u: Parent, x: seq<real>, n: int, b: BoundingBox)
    | Branch(q: nat, p: real, l: Option<Node>, r: Option<Node>, u: Parent, n: int, b: BoundingBox)

  /** The parent pointer of a node created at `address`: the tree for the
      root, otherwise the branch one step up. */
  function ParentOf(address: seq<Side>): Parent
  {
    if |address| == 0 then TreeOwner else BranchAt(address[..|address| - 1])
  }

  // ------------------------------------------------- getters and setters

  function GetU(node: Node): Parent { node.u }

  /** SetU: the new parent is read back and no other field changes. */
  function SetU(node: Node, u: Parent): (updated: Node)
    ensures GetU(updated) == u
    ensures updated.Leaf? == node.Leaf?
    ensures updated.(u := node.u) == node
  {
    node.(u := u)
  }

  function GetN(node: Node): int { node.n }

  /** SetN: the new count is read back and no other field changes. */
  function SetN(node: Node, n: int): (updated: Node)
    ensures GetN(updated) == n
    ensures updated.Leaf? == node.Leaf?
    ensures updated.(n := node.n) == node
  {
    node.(n := n)
  }

  function GetB(node: Node): BoundingBox { node.b }

  /** SetB: the new box is read back and no other field changes. */
  function SetB(node: Node, bb: BoundingBox): (updated: Node)
    ensures GetB(updated) == bb
    ensures updated.Leaf? == node.Leaf?
    ensures updated.(b := node.b) == node
  {
    node.(b := bb)
  }

  /** The setters on a Leaf keep its index, depth and point. */
  lemma LeafSettersKeepPoint(leaf: Node, u: Parent, n: int, bb: BoundingBox)
    requires leaf.Leaf?
    ensures var s := SetB(SetN(SetU(leaf, u), n), bb);
      s.Leaf? && s.i == leaf.i && s.d == leaf.d && s.x == leaf.x
      && GetU(s) == u && GetN(s) == n && GetB(s) == bb
  {
  }

  // ------------------------------------------------------ tree predicates

  /** The leaves of a subtree, left to right. */
  function Leaves(node: Node): seq<Node>
  {
    match node
    case Leaf(_, _, _, _, _, _) => [node]
    case Branch(_, _, l, r, _, _, _) =>
      (match l case None => [] case Some(c) => Leaves(c)) +
      (match r case None => [] case Some(c) => Leaves(c))
  }

  /** The unique-row indices held by the leaves of a subtree, left to right. */
  function LeafIndices(node: Node): seq<nat>
  {
    match node
    case Leaf(i, _, _, _, _, _) => [i]
    case Branch(_, _, l, r, _, _, _) =>
      (match l case None => [] case Some(c) => LeafIndices(c)) +
      (match r case None => [] case Some(c) => LeafIndices(c))
  }

  /** The sum of the leaf counts `n` in a subtree. */
  function LeafTotal(node: Node): int
  {
    match node
    case Leaf(_, _, _, _, n, _) => n
    case Branch(_, _, l, r, _, _, _) =>
      (match l case None => 0 case Some(c) => LeafTotal(c)) +
      (match r case None => 0 case Some(c) => LeafTotal(c))
  }

  /** Every branch has both of its children. */
  ghost predicate Complete(node: Node)
  {
    match node
    case Leaf(_, _, _, _, _, _) => true
    case Branch(_, _, l, r, _, _, _) =>
      && l.Some? && r.Some?
      && Complete(l.value) && Complete(r.value)
  }

  /** The subtree sits at `address`: its parent pointer names the node one
      step up, every descendant's does likewise, and every leaf's depth is
      the number of branches above it. */
  ghost predicate Placed(node: Node, address: seq<Side>)
  {
    && node.u == ParentOf(address)
    && match node
       case Leaf(_, d, _, _, _, _) => d == |address|
       case Branch(_, _, l, r, _, _, _) =>
         && (l.Some? ==> Placed(l.value, address + [L]))
         && (r.Some? ==> Placed(r.value, address + [R]))
  }
}
