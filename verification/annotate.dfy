/** The two post-order passes `New` runs over the finished tree:
    `_count_all_top_down` (leaf counts) and `_get_bbox_top_down` with
    `_lr_branch_bbox` (bounding boxes). Each returns the updated tree. */
module Annotate {
  import opened Base
  import opened Nodes

  // ------------------------------------------------------------- leaf counts

  /** The count a nil child contributes: none, since the pass skips it. */
  function CountOf(child: Option<Node>): int
  {
    match child
    case None => 0
    case Some(c) => c.n
  }

  /** _count_all_top_down: recount both children first, then set the
      branch's n to the sum of its non-nil children's n. Leaves keep theirs. */
  function CountAll(node: Node): (counted: Node)
    ensures counted.n == LeafTotal(node)
    ensures Leaves(counted) == Leaves(node)
    ensures LeafIndices(counted) == LeafIndices(node)
    ensures LeafTotal(counted) == LeafTotal(node)
    ensures counted.Leaf? ==> counted == node
    ensures counted.Branch? ==> node.Branch? && counted.q == node.q && counted.p == node.p
                                && counted.u == node.u && counted.b == node.b
    ensures counted.Branch? ==> (counted.l.Some? <==> node.l.Some?) && (counted.r.Some? <==> node.r.Some?)
  {
    match node
    case Leaf(_, _, _, _, _, _) => node
    case Branch(q, p, l, r, u, _, b) =>
      var l' := match l case None => None case Some(c) => Some(CountAll(c));
      var r' := match r case None => None case Some(c) => Some(CountAll(c));
      Branch(q, p, l', r', u, CountOf(l') + CountOf(r'), b)
  }

  /** Every branch's n is the sum of its non-nil children's n. */
  ghost predicate CountsAddUp(node: Node)
  {
    match node
    case Leaf(_, _, _, _, _, _) => true
    case Branch(_, _, l, r, _, n, _) =>
      && n == CountOf(l) + CountOf(r)
      && (l.Some? ==> CountsAddUp(l.value))
      && (r.Some? ==> CountsAddUp(r.value))
  }

  /** After the pass every branch's count adds up, and counting again
      changes nothing. */
  lemma {:induction false} CountAllAddsUp(node: Node)
    ensures CountsAddUp(CountAll(node))
    ensures CountAll(CountAll(node)) == CountAll(node)
  {
    match node
    case Leaf(_, _, _, _, _, _) =>
    case Branch(_, _, l, r, _, _, _) =>
      if l.Some? { CountAllAddsUp(l.value); }
      if r.Some? { CountAllAddsUp(r.value); }
  }

  /** The pass keeps the tree's placement: parent pointers and depths. */
  lemma {:induction false} CountAllKeepsPlacement(node: Node, address: seq<Side>)
    requires Placed(node, address)
    ensures Placed(CountAll(node), address)
  {
    match node
    case Leaf(_, _, _, _, _, _) =>
    case Branch(_, _, l, r, _, _, _) =>
      if l.Some? { CountAllKeepsPlacement(l.value, address + [L]); }
      if r.Some? { CountAllKeepsPlacement(r.value, address + [R]); }
  }

  /** The pass keeps every branch's children. */
  lemma {:induction false} CountAllKeepsCompleteness(node: Node)
    ensures Complete(CountAll(node)) <==> Complete(node)
  {
    match node
    case Leaf(_, _, _, _, _, _) =>
    case Branch(_, _, l, r, _, _, _) =>
      if l.Some? { CountAllKeepsCompleteness(l.value); }
      if r.Some? { CountAllKeepsCompleteness(r.value); }
  }

  // ---------------------------------------------------------- bounding boxes

  type Merge = (BoundingBox, BoundingBox) -> BoundingBox

  /** The combination _lr_branch_bbox computes, as written: Ax and Dx take
      the smaller value and Ay and Dy the larger, but Dx starts from the left
      box's Dy instead of its Dx. */
  function SpanAsWritten(lbb: BoundingBox, rbb: BoundingBox): (bb: BoundingBox)
    ensures bb == Span(lbb.(dx := lbb.dy), rbb)
    ensures Encloses(bb, rbb)
  {
    var bb := BoundingBox(lbb.ax, lbb.ay, lbb.dy, lbb.dy);
    var bb := if rbb.ax < bb.ax then bb.(ax := rbb.ax) else bb;
    var bb := if rbb.ay > bb.ay then bb.(ay := rbb.ay) else bb;
    var bb := if rbb.dx < bb.dx then bb.(dx := rbb.dx) else bb;
    var bb := if rbb.dy > bb.dy then bb.(dy := rbb.dy) else bb;
    bb
  }

  /** `outer` reaches at least as far as `inner` in every field, in the
      direction _lr_branch_bbox widens that field: Ax and Dx downwards, Ay
      and Dy upwards. */
  ghost predicate Encloses(outer: BoundingBox, inner: BoundingBox)
  {
    outer.ax <= inner.ax && outer.ay >= inner.ay && outer.dx <= inner.dx && outer.dy >= inner.dy
  }

  /** The combination with Dx seeded from the left box's Dx: the smallest
      box enclosing both children. */
  function Span(lbb: BoundingBox, rbb: BoundingBox): (bb: BoundingBox)
    ensures Encloses(bb, lbb) && Encloses(bb, rbb)
    ensures forall e :: Encloses(e, lbb) && Encloses(e, rbb) ==> Encloses(e, bb)
  {
    var bb := BoundingBox(lbb.ax, lbb.ay, lbb.dx, lbb.dy);
    var bb := if rbb.ax < bb.ax then bb.(ax := rbb.ax) else bb;
    var bb := if rbb.ay > bb.ay then bb.(ay := rbb.ay) else bb;
    var bb := if rbb.dx < bb.dx then bb.(dx := rbb.dx) else bb;
    var bb := if rbb.dy > bb.dy then bb.(dy := rbb.dy) else bb;
    bb
  }

  /** The box written as is need not enclose the left child. */
  lemma SpanAsWrittenMissesLeft()
    ensures var lbb := BoundingBox(0.0, 0.0, 0.0, 1.0);
            var rbb := BoundingBox(0.0, 0.0, 2.0, 1.0);
            !Encloses(SpanAsWritten(lbb, rbb), lbb) && Encloses(Span(lbb, rbb), lbb)
  {
    var lbb := BoundingBox(0.0, 0.0, 0.0, 1.0);
    var rbb := BoundingBox(0.0, 0.0, 2.0, 1.0);
    assert SpanAsWritten(lbb, rbb).dx == 1.0;
  }

  /** _lr_branch_bbox: a nil right child panics, and so does reading the box
      of a nil left child; otherwise the children's boxes are merged. */
  function LrBranchBbox(node: Node, merge: Merge): (res: Result<BoundingBox>)
    requires node.Branch?
    ensures res.Ok? <==> node.l.Some? && node.r.Some?
    ensures res.Err? ==> res.error == NilChild
    ensures res.Ok? ==> res.value == merge(node.l.value.b, node.r.value.b)
  {
    if node.r.None? then Err(NilChild)
    else if node.l.None? then Err(NilChild)
    else Ok(merge(GetB(node.l.value), GetB(node.r.value)))
  }

  /** _get_bbox_top_down: the boxes of both children first, then the
      branch's own. Leaves keep their boxes. */
  function GetBboxTopDown(node: Node, merge: Merge): (res: Result<Node>)
    ensures res.Ok? <==> Complete(node)
    ensures res.Err? ==> res.error == NilChild
    ensures res.Ok? ==> Leaves(res.value) == Leaves(node) && LeafIndices(res.value) == LeafIndices(node)
    ensures res.Ok? && node.Leaf? ==> res.value == node
    ensures res.Ok? && node.Branch? ==> res.value.Branch? && res.value.q == node.q && res.value.p == node.p
                                        && res.value.u == node.u && res.value.n == node.n
  {
    match node
    case Leaf(_, _, _, _, _, _) => Ok(node)
    case Branch(q, p, l, r, u, n, b) =>
      var lres := match l case None => Ok(None) case Some(c) => WrapChild(GetBboxTopDown(c, merge));
      var rres := match r case None => Ok(None) case Some(c) => WrapChild(GetBboxTopDown(c, merge));
      if lres.Err? then Err(lres.error)
      else if rres.Err? then Err(rres.error)
      else
        var updated := Branch(q, p, lres.value, rres.value, u, n, b);
        match LrBranchBbox(updated, merge)
        case Err(e) => Err(e)
        case Ok(bb) => Ok(SetB(updated, bb))
  }

  function WrapChild(res: Result<Node>): Result<Option<Node>>
  {
    match res
    case Err(e) => Err(e)
    case Ok(c) => Ok(Some(c))
  }

  /** Every branch's box is the merge of its children's boxes. */
  ghost predicate BoxesMerged(node: Node, merge: Merge)
  {
    match node
    case Leaf(_, _, _, _, _, _) => true
    case Branch(_, _, l, r, _, _, b) =>
      && l.Some? && r.Some?
      && b == merge(l.value.b, r.value.b)
      && BoxesMerged(l.value, merge) && BoxesMerged(r.value, merge)
  }

  /** Every branch's box encloses its children's boxes. */
  ghost predicate BoxesEnclose(node: Node)
  {
    match node
    case Leaf(_, _, _, _, _, _) => true
    case Branch(_, _, l, r, _, _, b) =>
      && (l.Some? ==> Encloses(b, l.value.b) && BoxesEnclose(l.value))
      && (r.Some? ==> Encloses(b, r.value.b) && BoxesEnclose(r.value))
  }

  /** A successful pass leaves every box merged from its children's. */
  lemma {:induction false} GetBboxMerges(node: Node, merge: Merge)
    requires GetBboxTopDown(node, merge).Ok?
    ensures BoxesMerged(GetBboxTopDown(node, merge).value, merge)
  {
    match node
    case Leaf(_, _, _, _, _, _) =>
    case Branch(_, _, l, r, _, _, _) =>
      GetBboxMerges(l.value, merge);
      GetBboxMerges(r.value, merge);
  }

  /** The pass keeps leaf counts adding up and the tree's placement. */
  lemma {:induction false} GetBboxKeeps(node: Node, merge: Merge, address: seq<Side>)
    requires GetBboxTopDown(node, merge).Ok?
    ensures CountsAddUp(node) ==> CountsAddUp(GetBboxTopDown(node, merge).value)
    ensures Placed(node, address) ==> Placed(GetBboxTopDown(node, merge).value, address)
  {
    match node
    case Leaf(_, _, _, _, _, _) =>
    case Branch(_, _, l, r, _, _, _) =>
      GetBboxKeeps(l.value, merge, address + [L]);
      GetBboxKeeps(r.value, merge, address + [R]);
  }

  /** With the corrected merge, every branch's box encloses its children's. */
  lemma {:induction false} SpanBoxesEnclose(node: Node)
    requires BoxesMerged(node, Span)
    ensures BoxesEnclose(node)
  {
    match node
    case Leaf(_, _, _, _, _, _) =>
    case Branch(_, _, l, r, _, _, _) =>
      SpanBoxesEnclose(l.value);
      SpanBoxesEnclose(r.value);
  }
}
