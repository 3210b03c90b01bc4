/** `_mktree` and the build path of `New` in rrcf.go, as written.

    The tree is built by value: each call returns the branch it created, the
    leaves registry after its leaves were added, and the draws it left
    unused. The registry maps an index label to the leaf holding that row.
    A call whose cut fails, or which reads past the end of a slice, returns
    the error the Go code would panic with. */
module Build {
  import opened Base
  import opened Vectors
  import opened Matrices
  import opened Nodes
  import opened Annotate
  import opened Cuts

  /** What one `_mktree` call leaves behind. */
  datatype Built = Built(node: Node, leaves: map<int, Node>, rest: seq<real>)

  /** The label a leaf is registered under. Without duplicates it is the
      label of the leaf's row; with duplicates it is the label of the first
      input row whose unique index is the leaf's. None is the index panic. */
  function RegisterKey(I: Option<seq<int>>, labels: seq<int>, i: nat): (key: Option<int>)
    ensures key.Some? ==> key.value in labels
    ensures I.None? ==> (key.Some? <==> i < |labels|)
    ensures I.None? && key.Some? ==> key.value == labels[i]
    ensures I.Some? ==>
      (key.None? <==> forall j :: 0 <= j < |I.value| && I.value[j] == i ==> j >= |labels|)
    ensures I.Some? && key.Some? ==>
      exists j :: 0 <= j < |I.value| && j < |labels| && I.value[j] == i && key.value == labels[j]
                  && forall k :: 0 <= k < j ==> I.value[k] != i
  {
    match I
    case None => if i < |labels| then Some(labels[i]) else None
    case Some(inverse) =>
      var js := IndicesOfValue(inverse, i);
      if |js| == 0 || js[0] >= |labels| then None
      else
        assert forall j :: 0 <= j < |inverse| && inverse[j] == i ==> j >= js[0] by {
          forall j | 0 <= j < |inverse| && inverse[j] == i ensures j >= js[0] {
            var m :| 0 <= m < |js| && js[m] == j;
          }
        }
        Some(labels[js[0]])
  }

  /** Add a leaf to the registry under its label. */
  function Register(leaves: map<int, Node>, I: Option<seq<int>>, labels: seq<int>, leaf: Node): (res: Result<map<int, Node>>)
    requires leaf.Leaf?
    ensures res.Ok? <==> RegisterKey(I, labels, leaf.i).Some?
    ensures res.Err? ==> res.error == IndexOutOfRange
    ensures res.Ok? ==> res.value.Keys == leaves.Keys + {RegisterKey(I, labels, leaf.i).value}
    ensures res.Ok? ==> forall k :: k in res.value ==> (k in leaves && res.value[k] == leaves[k]) || res.value[k] == leaf
    ensures res.Ok? ==> res.value[RegisterKey(I, labels, leaf.i).value] == leaf
  {
    match RegisterKey(I, labels, leaf.i)
    case None => Err(IndexOutOfRange)
    case Some(key) => Ok(leaves[key := leaf])
  }

  /** The leaf for the first row a mask selects, at depth d under the branch
      at `at`. No selected row is the index panic of `IndicesWhere(...)[0]`. */
  function LeafOf(X: Matrix, mask: seq<bool>, N: seq<int>, at: seq<Side>, d: nat): (res: Result<Node>)
    requires |mask| == |X.data| && |N| >= |X.data|
    ensures res.Ok? <==> Sum(mask) > 0
    ensures res.Err? ==> res.error == IndexOutOfRange
    ensures res.Ok? ==>
      var leaf := res.value;
      && leaf.Leaf? && leaf.i < |X.data| && mask[leaf.i]
      && (forall k :: 0 <= k < leaf.i ==> !mask[k])
      && leaf.d == d && leaf.u == BranchAt(at) && leaf.b == ZeroBox
      && leaf.x == X.data[leaf.i] && leaf.n == N[leaf.i]
  {
    var idx := IndicesWhere(mask);
    if |idx| == 0 then Err(IndexOutOfRange)
    else
      var i := idx[0];
      IndicesWhereFirst(mask);
      Ok(Leaf(i, d, BranchAt(at), X.data[i], N[i], ZeroBox))
  }

  /** _mktree, as written: cut the selected rows; when S1 holds more than
      one row, recurse into S1 and give the branch no right child at all;
      otherwise hang S1's leaf on the left, then recurse into S2 when it
      holds more than one row, and else hang on the right a second leaf
      built, like the first, from S1. `at` is the address of the branch this
      call creates and `depth` the depth of its parent. */
  function MkTree(X: Matrix, S: seq<bool>, N: seq<int>, I: Option<seq<int>>, labels: seq<int>,
                  at: seq<Side>, depth: nat, draws: seq<real>, leaves: map<int, Node>): (res: Result<Built>)
    requires Rectangular(X.data, X.cols) && |S| == |X.data| && |N| >= |X.data|
    ensures res.Ok? ==> |res.value.rest| < |draws|
    decreases |draws|
  {
    var d := depth + 1;
    match Cut(X, S, draws, at)
    case Err(e) => Err(e)
    case Ok(c) =>
      var branch := c.branch;
      if Sum(c.s1) > 1 then
        match MkTree(X, c.s1, N, I, labels, at + [L], d, c.rest, leaves)
        case Err(e) => Err(e)
        case Ok(left) => Ok(Built(branch.(l := Some(left.node)), left.leaves, left.rest))
      else
        match LeafOf(X, c.s1, N, at, d)
        case Err(e) => Err(e)
        case Ok(leaf) =>
          match Register(leaves, I, labels, leaf)
          case Err(e) => Err(e)
          case Ok(withLeft) =>
            if Sum(c.s2) > 1 then
              match MkTree(X, c.s2, N, I, labels, at + [R], d, c.rest, withLeft)
              case Err(e) => Err(e)
              case Ok(right) =>
                Ok(Built(branch.(l := Some(leaf), r := Some(right.node)), right.leaves, right.rest))
            else
              match LeafOf(X, c.s1, N, at, d)
              case Err(e) => Err(e)
              case Ok(second) =>
                match Register(withLeft, I, labels, second)
                case Err(e) => Err(e)
                case Ok(withRight) =>
                  Ok(Built(branch.(l := Some(leaf), r := Some(second)), withRight, c.rest))
  }

  /** The three shapes an accepted `_mktree` call can return. */
  lemma MkTreeCases(X: Matrix, S: seq<bool>, N: seq<int>, I: Option<seq<int>>, labels: seq<int>,
                    at: seq<Side>, depth: nat, draws: seq<real>, leaves: map<int, Node>)
    requires Rectangular(X.data, X.cols) && |S| == |X.data| && |N| >= |X.data|
    requires MkTree(X, S, N, I, labels, at, depth, draws, leaves).Ok?
    ensures Cut(X, S, draws, at).Ok?
    ensures
      var b := MkTree(X, S, N, I, labels, at, depth, draws, leaves).value;
      var c := Cut(X, S, draws, at).value;
      var d := depth + 1;
      if Sum(c.s1) > 1 then
        && MkTree(X, c.s1, N, I, labels, at + [L], d, c.rest, leaves).Ok?
        && var left := MkTree(X, c.s1, N, I, labels, at + [L], d, c.rest, leaves).value;
           b == Built(c.branch.(l := Some(left.node)), left.leaves, left.rest)
      else
        && LeafOf(X, c.s1, N, at, d).Ok?
        && var leaf := LeafOf(X, c.s1, N, at, d).value;
           && Register(leaves, I, labels, leaf).Ok?
           && var withLeft := Register(leaves, I, labels, leaf).value;
              if Sum(c.s2) > 1 then
                && MkTree(X, c.s2, N, I, labels, at + [R], d, c.rest, withLeft).Ok?
                && var right := MkTree(X, c.s2, N, I, labels, at + [R], d, c.rest, withLeft).value;
                   b == Built(c.branch.(l := Some(leaf), r := Some(right.node)), right.leaves, right.rest)
              else
                && Register(withLeft, I, labels, leaf).Ok?
                && b == Built(c.branch.(l := Some(leaf), r := Some(leaf)),
                              Register(withLeft, I, labels, leaf).value, c.rest)
  {
  }

  // ------------------------------------------------------------ properties

  /** Every leaf of the subtree holds a row the mask selects, with that
      row's point and count. */
  ghost predicate LeavesFrom(node: Node, X: Matrix, S: seq<bool>, N: seq<int>)
  {
    AllFrom(Leaves(node), X, S, N)
  }

  ghost predicate AllFrom(leaves: seq<Node>, X: Matrix, S: seq<bool>, N: seq<int>)
  {
    forall j :: 0 <= j < |leaves| ==> LeafFrom(leaves[j], X, S, N)
  }

  /** A leaf holding a row the mask selects, with that row's point and count. */
  ghost predicate LeafFrom(leaf: Node, X: Matrix, S: seq<bool>, N: seq<int>)
  {
    && leaf.Leaf? && leaf.i < |X.data| && leaf.i < |S| && leaf.i < |N|
    && S[leaf.i] && leaf.x == X.data[leaf.i] && leaf.n == N[leaf.i]
  }

  lemma LeavesFromWider(leaves: seq<Node>, X: Matrix, s: seq<bool>, S: seq<bool>, N: seq<int>)
    requires AllFrom(leaves, X, s, N) && |s| == |S|
    requires forall k :: 0 <= k < |s| && s[k] ==> S[k]
    ensures AllFrom(leaves, X, S, N)
  {
    forall j | 0 <= j < |leaves| ensures LeafFrom(leaves[j], X, S, N) {
      assert LeafFrom(leaves[j], X, s, N);
    }
  }

  lemma AllFromConcat(a: seq<Node>, b: seq<Node>, X: Matrix, S: seq<bool>, N: seq<int>)
    requires AllFrom(a, X, S, N) && AllFrom(b, X, S, N)
    ensures AllFrom(a + b, X, S, N)
  {
    forall j | 0 <= j < |a + b| ensures LeafFrom((a + b)[j], X, S, N) {
      if j < |a| {
        assert (a + b)[j] == a[j];
      } else {
        assert (a + b)[j] == b[j - |a|];
      }
    }
  }

  /** A branch at `at` whose children sit one step below it is placed. */
  lemma PlacedJoin(branch: Node, at: seq<Side>, l: Option<Node>, r: Option<Node>)
    requires branch.Branch? && branch.u == ParentOf(at)
    requires l.Some? ==> Placed(l.value, at + [L])
    requires r.Some? ==> Placed(r.value, at + [R])
    ensures Placed(branch.(l := l, r := r), at)
  {
  }

  /** A leaf made for the children of the branch at `at` is placed on
      either side of it. */
  lemma PlacedLeaf(leaf: Node, at: seq<Side>)
    requires leaf.Leaf? && leaf.u == BranchAt(at) && leaf.d == |at| + 1
    ensures Placed(leaf, at + [L]) && Placed(leaf, at + [R])
  {
  }

  /** A built subtree is a branch sitting at `at`: every parent pointer
      names the branch one step up and every leaf's depth is its number of
      ancestors. */
  lemma {:induction false} MkTreePlaced(X: Matrix, S: seq<bool>, N: seq<int>, I: Option<seq<int>>, labels: seq<int>,
                                        at: seq<Side>, depth: nat, draws: seq<real>, leaves: map<int, Node>)
    requires Rectangular(X.data, X.cols) && |S| == |X.data| && |N| >= |X.data| && depth == |at|
    requires MkTree(X, S, N, I, labels, at, depth, draws, leaves).Ok?
    ensures MkTree(X, S, N, I, labels, at, depth, draws, leaves).value.node.Branch?
    ensures Placed(MkTree(X, S, N, I, labels, at, depth, draws, leaves).value.node, at)
    decreases |draws|
  {
    var c, leaf, withLeft, left, right := MkTreeStep(X, S, N, I, labels, at, depth, draws, leaves);
    var d := depth + 1;
    if Sum(c.s1) > 1 {
      MkTreePlaced(X, c.s1, N, I, labels, at + [L], d, c.rest, leaves);
      PlacedJoin(c.branch, at, Some(left.node), None);
    } else {
      PlacedLeaf(leaf, at);
      if Sum(c.s2) > 1 {
        MkTreePlaced(X, c.s2, N, I, labels, at + [R], d, c.rest, withLeft);
        PlacedJoin(c.branch, at, Some(leaf), Some(right.node));
      } else {
        PlacedJoin(c.branch, at, Some(leaf), Some(leaf));
      }
    }
  }

  /** A branch's leaves are its children's: children whose leaves come
      from rows `s1` and `s2`, both within `S`, make a branch whose leaves
      come from `S`. */
  lemma LeavesJoin(branch: Node, l: Option<Node>, r: Option<Node>,
                   X: Matrix, s1: seq<bool>, s2: seq<bool>, S: seq<bool>, N: seq<int>)
    requires branch.Branch? && |s1| == |S| && |s2| == |S|
    requires forall k :: 0 <= k < |S| ==> (s1[k] ==> S[k]) && (s2[k] ==> S[k])
    requires l.Some? ==> LeavesFrom(l.value, X, s1, N)
    requires r.Some? ==> LeavesFrom(r.value, X, s2, N)
    ensures LeavesFrom(branch.(l := l, r := r), X, S, N)
  {
    var ls := match l case None => [] case Some(c) => Leaves(c);
    var rs := match r case None => [] case Some(c) => Leaves(c);
    assert Leaves(branch.(l := l, r := r)) == ls + rs;
    LeavesFromWider(ls, X, s1, S, N);
    LeavesFromWider(rs, X, s2, S, N);
    AllFromConcat(ls, rs, X, S, N);
  }

  /** The leaf made for a selection comes from it. */
  lemma LeafOfFrom(X: Matrix, s: seq<bool>, N: seq<int>, at: seq<Side>, d: nat)
    requires |s| == |X.data| && |N| >= |X.data| && LeafOf(X, s, N, at, d).Ok?
    ensures LeavesFrom(LeafOf(X, s, N, at, d).value, X, s, N)
  {
    var leaf := LeafOf(X, s, N, at, d).value;
    assert Leaves(leaf) == [leaf];
  }

  /** Every leaf of a built subtree holds a selected row, with that row's
      point and count. */
  lemma {:induction false} MkTreeLeavesFrom(X: Matrix, S: seq<bool>, N: seq<int>, I: Option<seq<int>>, labels: seq<int>,
                                            at: seq<Side>, depth: nat, draws: seq<real>, leaves: map<int, Node>)
    requires Rectangular(X.data, X.cols) && |S| == |X.data| && |N| >= |X.data|
    requires MkTree(X, S, N, I, labels, at, depth, draws, leaves).Ok?
    ensures LeavesFrom(MkTree(X, S, N, I, labels, at, depth, draws, leaves).value.node, X, S, N)
    decreases |draws|
  {
    var c, leaf, withLeft, left, right := MkTreeStep(X, S, N, I, labels, at, depth, draws, leaves);
    var d := depth + 1;
    if Sum(c.s1) > 1 {
      MkTreeLeavesFrom(X, c.s1, N, I, labels, at + [L], d, c.rest, leaves);
      LeavesJoin(c.branch, Some(left.node), None, X, c.s1, c.s2, S, N);
    } else {
      LeafOfFrom(X, c.s1, N, at, d);
      if Sum(c.s2) > 1 {
        MkTreeLeavesFrom(X, c.s2, N, I, labels, at + [R], d, c.rest, withLeft);
        LeavesJoin(c.branch, Some(leaf), Some(right.node), X, c.s1, c.s2, S, N);
      } else {
        LeavesJoin(c.branch, Some(leaf), Some(leaf), X, c.s1, c.s1, S, N);
      }
    }
  }

  /** What a call does to the registry: every entry it adds or overwrites
      is a leaf of the subtree it built, under a label of the input; entries
      it does not touch keep their leaf. */
  ghost predicate Extends(before: map<int, Node>, after: map<int, Node>, node: Node, labels: seq<int>)
  {
    && before.Keys <= after.Keys
    && (forall k :: k in after && k !in before ==> k in labels)
    && forall k :: k in after ==> (k in before && after[k] == before[k]) || after[k] in Leaves(node)
  }

  /** Registering a leaf of `node` extends the registry by that leaf. */
  lemma ExtendsRegister(leaves: map<int, Node>, I: Option<seq<int>>, labels: seq<int>, leaf: Node, node: Node)
    requires leaf.Leaf? && Register(leaves, I, labels, leaf).Ok? && leaf in Leaves(node)
    ensures Extends(leaves, Register(leaves, I, labels, leaf).value, node, labels)
  {
  }

  /** Two extensions in a row, by leaves of `node`, are one. */
  lemma ExtendsChain(a: map<int, Node>, b: map<int, Node>, c: map<int, Node>,
                     n1: Node, n2: Node, node: Node, labels: seq<int>)
    requires Extends(a, b, n1, labels) && Extends(b, c, n2, labels)
    requires forall x :: x in Leaves(n1) ==> x in Leaves(node)
    requires forall x :: x in Leaves(n2) ==> x in Leaves(node)
    ensures Extends(a, c, node, labels)
  {
  }

  /** An extension by a subtree is one by the branch holding it on the
      left alone. */
  lemma ExtendsLeftOnly(a: map<int, Node>, b: map<int, Node>, left: Node, branch: Node, labels: seq<int>)
    requires branch.Branch? && branch.r.None? && Extends(a, b, left, labels)
    ensures Extends(a, b, branch.(l := Some(left)), labels)
  {
    assert Leaves(branch.(l := Some(left))) == Leaves(left);
  }

  /** A leaf then a subtree, as the branch holding both. */
  lemma ExtendsLeafThenSubtree(a: map<int, Node>, b: map<int, Node>, c: map<int, Node>,
                               leaf: Node, right: Node, branch: Node, labels: seq<int>)
    requires branch.Branch? && leaf.Leaf? && Extends(a, b, leaf, labels) && Extends(b, c, right, labels)
    ensures Extends(a, c, branch.(l := Some(leaf), r := Some(right)), labels)
  {
    var node := branch.(l := Some(leaf), r := Some(right));
    assert Leaves(node) == [leaf] + Leaves(right);
    ExtendsChain(a, b, c, leaf, right, node, labels);
  }

  /** A leaf registered twice, as the branch holding it on both sides. */
  lemma ExtendsLeafTwice(a: map<int, Node>, b: map<int, Node>, c: map<int, Node>,
                         leaf: Node, node: Node, labels: seq<int>)
    requires leaf.Leaf? && Extends(a, b, leaf, labels) && Extends(b, c, leaf, labels)
    requires Leaves(node) == [leaf, leaf]
    ensures Extends(a, c, node, labels)
  {
    ExtendsChain(a, b, c, leaf, leaf, node, labels);
  }

  /** A branch holding the same leaf on both sides has that leaf twice. */
  lemma TwinLeaves(branch: Node, leaf: Node)
    requires branch.Branch? && leaf.Leaf?
    ensures Leaves(branch.(l := Some(leaf), r := Some(leaf))) == [leaf, leaf]
  {
  }

  /** One `_mktree` call taken apart: the cut `c`, the left leaf `leaf`
      and the registry `withLeft` after it, and the subtrees `left` and
      `right`, with the call's result in terms of them for each shape. */
  lemma MkTreeStep(X: Matrix, S: seq<bool>, N: seq<int>, I: Option<seq<int>>, labels: seq<int>,
                   at: seq<Side>, depth: nat, draws: seq<real>, leaves: map<int, Node>)
    returns (c: CutResult, leaf: Node, withLeft: map<int, Node>, left: Built, right: Built)
    requires Rectangular(X.data, X.cols) && |S| == |X.data| && |N| >= |X.data|
    requires MkTree(X, S, N, I, labels, at, depth, draws, leaves).Ok?
    ensures c.branch == Branch(c.q, c.p, None, None, ParentOf(at), 0, ZeroBox)
    ensures |c.s1| == |S| && |c.s2| == |S| && |c.rest| < |draws|
    ensures forall k :: 0 <= k < |S| ==> (c.s1[k] ==> S[k]) && (c.s2[k] ==> S[k])
    ensures Sum(c.s1) > 1 ==>
      && MkTree(X, c.s1, N, I, labels, at + [L], depth + 1, c.rest, leaves) == Ok(left)
      && MkTree(X, S, N, I, labels, at, depth, draws, leaves)
         == Ok(Built(c.branch.(l := Some(left.node)), left.leaves, left.rest))
    ensures Sum(c.s1) <= 1 ==>
      && LeafOf(X, c.s1, N, at, depth + 1) == Ok(leaf) && leaf.Leaf?
      && Extends(leaves, withLeft, leaf, labels)
    ensures Sum(c.s1) <= 1 && Sum(c.s2) > 1 ==>
      && MkTree(X, c.s2, N, I, labels, at + [R], depth + 1, c.rest, withLeft) == Ok(right)
      && MkTree(X, S, N, I, labels, at, depth, draws, leaves)
         == Ok(Built(c.branch.(l := Some(leaf), r := Some(right.node)), right.leaves, right.rest))
    ensures Sum(c.s1) <= 1 && Sum(c.s2) <= 1 ==>
      && Extends(leaves, right.leaves, c.branch.(l := Some(leaf), r := Some(leaf)), labels)
      && MkTree(X, S, N, I, labels, at, depth, draws, leaves)
         == Ok(Built(c.branch.(l := Some(leaf), r := Some(leaf)), right.leaves, c.rest))
  {
    MkTreeCases(X, S, N, I, labels, at, depth, draws, leaves);
    c := Cut(X, S, draws, at).value;
    var d := depth + 1;
    leaf := Leaf(0, 0, NoParent, [], 0, ZeroBox);
    withLeft := leaves;
    left := Built(leaf, leaves, []);
    right := left;
    if Sum(c.s1) > 1 {
      left := MkTree(X, c.s1, N, I, labels, at + [L], d, c.rest, leaves).value;
    } else {
      leaf := LeafOf(X, c.s1, N, at, d).value;
      withLeft := Register(leaves, I, labels, leaf).value;
      assert Leaves(leaf) == [leaf];
      ExtendsRegister(leaves, I, labels, leaf, leaf);
      if Sum(c.s2) > 1 {
        right := MkTree(X, c.s2, N, I, labels, at + [R], d, c.rest, withLeft).value;
      } else {
        ExtendsRegister(withLeft, I, labels, leaf, leaf);
        right := Built(leaf, Register(withLeft, I, labels, leaf).value, c.rest);
        TwinLeaves(c.branch, leaf);
        ExtendsLeafTwice(leaves, withLeft, right.leaves, leaf, c.branch.(l := Some(leaf), r := Some(leaf)), labels);
      }
    }
  }

  /** Every registry entry a call adds or overwrites is a leaf of the
      subtree it built, under a label of the input; entries it does not
      touch keep their leaf. */
  lemma {:induction false} MkTreeRegistry(X: Matrix, S: seq<bool>, N: seq<int>, I: Option<seq<int>>, labels: seq<int>,
                                          at: seq<Side>, depth: nat, draws: seq<real>, leaves: map<int, Node>)
    requires Rectangular(X.data, X.cols) && |S| == |X.data| && |N| >= |X.data|
    requires MkTree(X, S, N, I, labels, at, depth, draws, leaves).Ok?
    ensures var b := MkTree(X, S, N, I, labels, at, depth, draws, leaves).value;
      Extends(leaves, b.leaves, b.node, labels)
    decreases |draws|
  {
    var c, leaf, withLeft, left, right := MkTreeStep(X, S, N, I, labels, at, depth, draws, leaves);
    var b := MkTree(X, S, N, I, labels, at, depth, draws, leaves).value;
    var d := depth + 1;
    if Sum(c.s1) > 1 {
      MkTreeRegistry(X, c.s1, N, I, labels, at + [L], d, c.rest, leaves);
      ExtendsLeftOnly(leaves, b.leaves, left.node, c.branch, labels);
    } else if Sum(c.s2) > 1 {
      MkTreeRegistry(X, c.s2, N, I, labels, at + [R], d, c.rest, withLeft);
      ExtendsLeafThenSubtree(leaves, withLeft, b.leaves, leaf, right.node, c.branch, labels);
    }
  }

  // ------------------------------------------------------------------ New

  /** An RCTree: its root, the leaves registry, the dimension of its points
      and the index labels of the input rows. */
  datatype Tree = Tree(root: Option<Node>, leaves: map<int, Node>, ndim: Option<nat>, labels: seq<int>)

  /** The tree's parent link cleared from the root and every node below it
      placed: the root, with its parent taken as the tree, sits at the empty
      address. */
  ghost predicate Rooted(root: Node)
  {
    root.u == NoParent && Placed(SetU(root, TreeOwner), [])
  }

  /** New, as written: no matrix gives an empty tree. Otherwise the rows are
      rounded, labelled 0..n-1 and checked for duplicates; when some unique
      row occurs more than once the tree is built on the unique rows with
      their counts, else on all rows with count 1. The root's parent is
      cleared, then counts and boxes are filled in. */
  function New(X: Option<Matrix>, draws: seq<real>): (res: Result<Tree>)
    ensures X.None? ==> res == Ok(Tree(None, map[], None, []))
    ensures X.Some? && res.Ok? ==> res.value.root.Some? && res.value.ndim == Some(X.value.cols)
    ensures X.Some? && res.Ok? ==> res.value.labels == Iota(|X.value.data|)
  {
    match X
    case None => Ok(Tree(None, map[], None, []))
    case Some(m) =>
      match Round(m)
      case Err(e) => Err(e)
      case Ok(x) =>
        var labels := Iota(|x.data|);
        match Unique(x)
        case Err(e) => Err(e)
        case Ok(u) =>
          var duplicates := MaxIntOrZero(u.counts) > 1;
          var data := if duplicates then u.unique else x;
          var N := if duplicates then u.counts else NpOnes(|x.data|);
          var I: Option<seq<int>> := if duplicates then Some(u.inverse) else None;
          Finish(MkTree(data, NpBools(|data.data|), N, I, labels, [], 0, draws, map[]), SpanAsWritten,
                 data.cols, labels)
  }

  /** The parts of an accepted New: the rounded rows `x`, all distinct, and
      the tree `b` built on them with count 1 each, which Finish completes. */
  lemma NewParts(m: Matrix, draws: seq<real>) returns (x: Matrix, b: Built)
    requires New(Some(m), draws).Ok?
    ensures Round(m) == Ok(x) && Rectangular(x.data, x.cols)
    ensures MkTree(x, NpBools(|x.data|), NpOnes(|x.data|), None, Iota(|x.data|), [], 0, draws, map[]) == Ok(b)
    ensures New(Some(m), draws) == Finish(Ok(b), SpanAsWritten, x.cols, Iota(|x.data|))
  {
    x := Round(m).value;
    assert Unique(x).Ok? && Unique(x).value.counts == [];
    b := MkTree(x, NpBools(|x.data|), NpOnes(|x.data|), None, Iota(|x.data|), [], 0, draws, map[]).value;
  }

  /** On distinct rows New builds on all of them, each with count 1, with
      no inverse. */
  lemma NewOnDistinct(m: Matrix, draws: seq<real>)
    requires Round(m).Ok? && Distinct(Round(m).value.data)
    ensures
      var x := Round(m).value;
      var n := |x.data|;
      New(Some(m), draws)
      == Finish(MkTree(x, NpBools(n), NpOnes(n), None, Iota(n), [], 0, draws, map[]), SpanAsWritten, x.cols, Iota(n))
  {
    var x := Round(m).value;
    assert Unique(x).Ok? && Unique(x).value.counts == [];
  }

  /** The end of New: clear the root's parent, count, then box. */
  function Finish(built: Result<Built>, merge: Merge, ndim: nat, labels: seq<int>): (res: Result<Tree>)
    ensures res.Ok? ==> built.Ok? && res.value.leaves == built.value.leaves && res.value.root.Some?
    ensures res.Ok? ==> res.value.ndim == Some(ndim) && res.value.labels == labels
  {
    match built
    case Err(e) => Err(e)
    case Ok(b) =>
      var root := CountAll(SetU(b.node, NoParent));
      match GetBboxTopDown(root, merge)
      case Err(e) => Err(e)
      case Ok(boxed) => Ok(Tree(Some(boxed), b.leaves, Some(ndim), labels))
  }

  /** Finish on a complete branch succeeds; the root it returns has its
      parent cleared, the branch's leaves and leaf total, and is, with the
      branch's parent restored, the branch counted and boxed. */
  lemma FinishKeeps(b: Built, merge: Merge, ndim: nat, labels: seq<int>)
    requires b.node.Branch? && Complete(b.node)
    ensures Finish(Ok(b), merge, ndim, labels).Ok?
    ensures GetBboxTopDown(CountAll(b.node), merge).Ok?
    ensures
      var t := Finish(Ok(b), merge, ndim, labels).value;
      var root := t.root.value;
      && t.leaves == b.leaves
      && root.Branch? && root.u == NoParent && root.n == LeafTotal(b.node)
      && Leaves(root) == Leaves(b.node) && LeafIndices(root) == LeafIndices(b.node)
      && SetU(root, b.node.u) == GetBboxTopDown(CountAll(b.node), merge).value
  {
    CountAllKeepsCompleteness(b.node);
    var counted := CountAll(b.node);
    PassesKeepParent(b.node, NoParent, merge);
    PassesKeepParent(counted, NoParent, merge);
    var boxed := GetBboxTopDown(counted, merge).value;
    var root := Finish(Ok(b), merge, ndim, labels).value.root.value;
    assert root == SetU(boxed, NoParent);
  }

  /** Finishing a complete branch sitting at the root's address gives a
      root with its parent cleared and everything below placed, both
      children everywhere, counts that add up and boxes merged by `merge`,
      over the branch's leaves. */
  lemma FinishShape(b: Built, merge: Merge, ndim: nat, labels: seq<int>)
    requires b.node.Branch? && Placed(b.node, []) && Finish(Ok(b), merge, ndim, labels).Ok?
    ensures
      var t := Finish(Ok(b), merge, ndim, labels).value;
      var root := t.root.value;
      && t.leaves == b.leaves
      && root.Branch? && Rooted(root) && Complete(root) && CountsAddUp(root) && BoxesMerged(root, merge)
      && Leaves(root) == Leaves(b.node) && Complete(b.node)
  {
    var counted := CountAll(b.node);
    CountAllKeepsCompleteness(b.node);
    CountAllKeepsPlacement(b.node, []);
    CountAllAddsUp(b.node);
    PassesKeepParent(b.node, NoParent, merge);
    PassesKeepParent(counted, NoParent, merge);
    var boxed := GetBboxTopDown(counted, merge).value;
    GetBboxKeeps(counted, merge, []);
    GetBboxMerges(counted, merge);
    MergedIsComplete(boxed, merge);
    var root := Finish(Ok(b), merge, ndim, labels).value.root.value;
    assert root == SetU(boxed, NoParent);
    assert SetU(root, TreeOwner) == boxed;
    ParentFree(boxed, NoParent, merge);
    assert Leaves(root) == Leaves(b.node);
  }

  /** Changing a branch's parent changes none of the tree predicates. */
  lemma ParentFree(node: Node, v: Parent, merge: Merge)
    requires node.Branch?
    ensures Complete(SetU(node, v)) == Complete(node)
    ensures CountsAddUp(SetU(node, v)) == CountsAddUp(node)
    ensures BoxesEnclose(SetU(node, v)) == BoxesEnclose(node)
    ensures BoxesMerged(SetU(node, v), merge) == BoxesMerged(node, merge)
  {
  }

  /** Clearing or setting the root's parent commutes with the two passes. */
  lemma PassesKeepParent(node: Node, v: Parent, merge: Merge)
    ensures CountAll(SetU(node, v)) == SetU(CountAll(node), v)
    ensures GetBboxTopDown(SetU(node, v), merge).Ok? <==> GetBboxTopDown(node, merge).Ok?
    ensures GetBboxTopDown(node, merge).Ok? ==>
              GetBboxTopDown(SetU(node, v), merge).value == SetU(GetBboxTopDown(node, merge).value, v)
  {
  }

  /** Merged boxes need both children everywhere. */
  lemma {:induction false} MergedIsComplete(node: Node, merge: Merge)
    requires BoxesMerged(node, merge)
    ensures Complete(node)
  {
    match node
    case Leaf(_, _, _, _, _, _) =>
    case Branch(_, _, l, r, _, _, _) =>
      MergedIsComplete(l.value, merge);
      MergedIsComplete(r.value, merge);
  }

  /** New rejects an input with two equal rows: Unique panics on its nil
      counts. So a tree is only ever built from distinct rows. */
  lemma NewRejectsDuplicates(m: Matrix, draws: seq<real>)
    ensures Round(m).Ok? && !Distinct(Round(m).value.data) ==> New(Some(m), draws) == Err(NilCounts)
    ensures New(Some(m), draws).Ok? ==> Round(m).Ok? && Distinct(Round(m).value.data)
  {
  }

  /** What New, as written, builds when it succeeds: a branch root with its
      parent cleared and everything below placed, no missing child, counts
      that add up, boxes merged by the as-written merge, every leaf holding
      one input row with count 1, and a registry whose keys are input labels
      and whose entries are leaves of the tree. */
  lemma NewBuilds(m: Matrix, draws: seq<real>)
    requires New(Some(m), draws).Ok?
    ensures
      var t := New(Some(m), draws).value;
      var root := t.root.value;
      var x := Round(m).value;
      && root.Branch? && Rooted(root) && Complete(root) && CountsAddUp(root)
      && BoxesMerged(root, SpanAsWritten)
      && LeavesFrom(root, x, NpBools(|x.data|), NpOnes(|x.data|))
      && forall k :: k in t.leaves ==> 0 <= k < |x.data| && t.leaves[k] in Leaves(root)
  {
    var x, b := NewParts(m, draws);
    FinishedBuild(x, b, draws);
  }

  /** NewBuilds on the rounded rows and their build. */
  lemma FinishedBuild(x: Matrix, b: Built, draws: seq<real>)
    requires Rectangular(x.data, x.cols)
    requires MkTree(x, NpBools(|x.data|), NpOnes(|x.data|), None, Iota(|x.data|), [], 0, draws, map[]) == Ok(b)
    requires Finish(Ok(b), SpanAsWritten, x.cols, Iota(|x.data|)).Ok?
    ensures
      var t := Finish(Ok(b), SpanAsWritten, x.cols, Iota(|x.data|)).value;
      var root := t.root.value;
      && root.Branch? && Rooted(root) && Complete(root) && CountsAddUp(root)
      && BoxesMerged(root, SpanAsWritten)
      && LeavesFrom(root, x, NpBools(|x.data|), NpOnes(|x.data|))
      && forall k :: k in t.leaves ==> 0 <= k < |x.data| && t.leaves[k] in Leaves(root)
  {
    FinishedShape(x, b, draws);
    FinishedLeaves(x, b, draws);
    FinishedRegistry(x, b, draws);
  }

  /** The finished root of a build from the whole input is a well-formed
      branch, and its leaves are the build's. */
  lemma FinishedShape(x: Matrix, b: Built, draws: seq<real>)
    requires Rectangular(x.data, x.cols)
    requires MkTree(x, NpBools(|x.data|), NpOnes(|x.data|), None, Iota(|x.data|), [], 0, draws, map[]) == Ok(b)
    requires Finish(Ok(b), SpanAsWritten, x.cols, Iota(|x.data|)).Ok?
    ensures
      var t := Finish(Ok(b), SpanAsWritten, x.cols, Iota(|x.data|)).value;
      var root := t.root.value;
      && t.leaves == b.leaves && Leaves(root) == Leaves(b.node)
      && root.Branch? && Rooted(root) && Complete(root) && CountsAddUp(root)
      && BoxesMerged(root, SpanAsWritten)
  {
    MkTreePlaced(x, NpBools(|x.data|), NpOnes(|x.data|), None, Iota(|x.data|), [], 0, draws, map[]);
    FinishShape(b, SpanAsWritten, x.cols, Iota(|x.data|));
  }

  lemma FinishedLeaves(x: Matrix, b: Built, draws: seq<real>)
    requires Rectangular(x.data, x.cols)
    requires MkTree(x, NpBools(|x.data|), NpOnes(|x.data|), None, Iota(|x.data|), [], 0, draws, map[]) == Ok(b)
    requires Finish(Ok(b), SpanAsWritten, x.cols, Iota(|x.data|)).Ok?
    ensures LeavesFrom(Finish(Ok(b), SpanAsWritten, x.cols, Iota(|x.data|)).value.root.value,
                       x, NpBools(|x.data|), NpOnes(|x.data|))
  {
    FinishedShape(x, b, draws);
    MkTreeLeavesFrom(x, NpBools(|x.data|), NpOnes(|x.data|), None, Iota(|x.data|), [], 0, draws, map[]);
  }

  lemma FinishedRegistry(x: Matrix, b: Built, draws: seq<real>)
    requires Rectangular(x.data, x.cols)
    requires MkTree(x, NpBools(|x.data|), NpOnes(|x.data|), None, Iota(|x.data|), [], 0, draws, map[]) == Ok(b)
    requires Finish(Ok(b), SpanAsWritten, x.cols, Iota(|x.data|)).Ok?
    ensures
      var t := Finish(Ok(b), SpanAsWritten, x.cols, Iota(|x.data|)).value;
      forall k :: k in t.leaves ==> 0 <= k < |x.data| && t.leaves[k] in Leaves(t.root.value)
  {
    FinishedShape(x, b, draws);
    BuiltRegistry(x, b, draws);
  }

  /** Every label a build from the whole input registers is an input row's,
      at a leaf of the build. */
  lemma BuiltRegistry(x: Matrix, b: Built, draws: seq<real>)
    requires Rectangular(x.data, x.cols)
    requires MkTree(x, NpBools(|x.data|), NpOnes(|x.data|), None, Iota(|x.data|), [], 0, draws, map[]) == Ok(b)
    ensures forall k :: k in b.leaves ==> 0 <= k < |x.data| && b.leaves[k] in Leaves(b.node)
  {
    MkTreeRegistry(x, NpBools(|x.data|), NpOnes(|x.data|), None, Iota(|x.data|), [], 0, draws, map[]);
    ExtendsFromEmpty(b.leaves, b.node, |x.data|);
  }

  /** A registry grown from nothing under labels 0..n-1. */
  lemma ExtendsFromEmpty(after: map<int, Node>, node: Node, n: nat)
    requires Extends(map[], after, node, Iota(n))
    ensures forall k :: k in after ==> 0 <= k < n && after[k] in Leaves(node)
  {
    forall k | k in after ensures 0 <= k < n {
      var j :| 0 <= j < n && Iota(n)[j] == k;
    }
  }

  /** The first cut of two points 0 and 1 under draws 0.5, 0.5: dimension
      0 at 0.5, point 0 on the left and point 1 on the right. */
  lemma TwoPointsCut()
    ensures Cut(Matrix([[0.0], [1.0]], 1), [true, true], [0.5, 0.5], [])
            == Ok(CutResult([true, false], [false, true], 0, 0.5,
                            Branch(0, 0.5, None, None, TreeOwner, 0, ZeroBox), []))
  {
    TwoPointsInclude();
    TwoPointsBounds();
    TwoPointsRanges();
    TwoPointsChoice();
    assert Uniform(0.5, 0.0, 1.0) == 0.5;
    TwoPointsSplit();
  }

  lemma TwoPointsRanges()
    ensures Rectangular([[0.0], [1.0]], 1) && [true, true][..2] == [true, true]
            && Sum([true, true]) == 2
            && Ranges(Matrix([[0.0], [1.0]], 1), [true, true]) == [1.0]
  {
    TwoPointsRectangular();
    TwoPointsInclude();
    TwoPointsBounds();
    OneColumnRanges(Matrix([[0.0], [1.0]], 1), [true, true], 0.0, 1.0);
  }

  lemma TwoPointsRectangular()
    ensures Rectangular([[0.0], [1.0]], 1)
    ensures [true, true][..2] == [true, true]
  { }

  lemma TwoPointsInclude()
    ensures Sum([true, true]) == 2
    ensures Include(Matrix([[0.0], [1.0]], 1), [true, true]) == Matrix([[0.0], [1.0]], 1)
  {
    var S := [true, true];
    assert S[..1] == [true];
    assert S[..2] == S;
    assert IndicesWhere(S) == [0, 1];
  }

  lemma TwoPointsBounds()
    ensures Max(Matrix([[0.0], [1.0]], 1)) == [1.0]
    ensures Min(Matrix([[0.0], [1.0]], 1)) == [0.0]
  {
    var m := Matrix([[0.0], [1.0]], 1);
    var hi := Max(m);
    var lo := Min(m);
    assert m.data[0][0] == 0.0 && m.data[1][0] == 1.0;
    assert |hi| == 1 && hi[0] == 1.0;
    assert |lo| == 1 && lo[0] == 0.0;
  }

  lemma TwoPointsChoice()
    ensures FloatSum([1.0]) == 1.0 && DivideBy([1.0], 1.0) == [1.0]
    ensures Choose([0.5, 0.5], [1.0]) == Ok((0, [0.5]))
  {
    assert [1.0][..0] == [];
    assert Products([0.5, 0.5], [1.0]) == [0.5];
    assert [0.5][..0] == [];
    assert Pick([0.5]) == (0, 0.5);
  }

  lemma TwoPointsSplit()
    ensures Split(Matrix([[0.0], [1.0]], 1), [true, true], 0, 0.5) == ([true, false], [false, true])
  {
    var parts := Split(Matrix([[0.0], [1.0]], 1), [true, true], 0, 0.5);
    assert |parts.0| == 2 && parts.0[0] && !parts.0[1];
    assert |parts.1| == 2 && !parts.1[0] && parts.1[1];
    assert parts.0 == [true, false] && parts.1 == [false, true];
  }

  lemma TwoPointsMasks()
    ensures Sum([true, false]) == 1 && Sum([false, true]) == 1
    ensures IndicesWhere([true, false]) == [0]
    ensures NpBools(2) == [true, true] && NpOnes(2) == [1, 1]
  {
    assert [true, false][..1] == [true];
    assert [false, true][..1] == [false];
  }

  /** _mktree on the two points: one branch whose two leaves both hold
      point 0, registered under label 0 only. */
  lemma TwoPointsMkTree()
    ensures
      var leaf := Leaf(0, 1, BranchAt([]), [0.0], 1, ZeroBox);
      MkTree(Matrix([[0.0], [1.0]], 1), [true, true], [1, 1], None, [0, 1], [], 0, [0.5, 0.5], map[])
      == Ok(Built(Branch(0, 0.5, Some(leaf), Some(leaf), TreeOwner, 0, ZeroBox), map[0 := leaf], []))
  {
    TwoPointsCut();
    TwoPointsMasks();
    TwoPointsLeaf();
  }

  lemma TwoPointsLeaf()
    ensures
      var leaf := Leaf(0, 1, BranchAt([]), [0.0], 1, ZeroBox);
      && LeafOf(Matrix([[0.0], [1.0]], 1), [true, false], [1, 1], [], 1) == Ok(leaf)
      && Register(map[], None, [0, 1], leaf) == Ok(map[0 := leaf])
      && Register(map[0 := leaf], None, [0, 1], leaf) == Ok(map[0 := leaf])
  {
    TwoPointsMasks();
    var leaf := Leaf(0, 1, BranchAt([]), [0.0], 1, ZeroBox);
    assert RegisterKey(None, [0, 1], 0) == Some(0);
    var registry := map[0 := leaf];
    assert registry[0 := leaf] == registry;
  }

  lemma TwoPointsRound()
    ensures Round(Matrix([[0.0], [1.0]], 1)) == Ok(Matrix([[0.0], [1.0]], 1))
    ensures Unique(Matrix([[0.0], [1.0]], 1)) == Ok(Uniques(Matrix([[0.0], [1.0]], 1), [0, 1], []))
    ensures Iota(2) == [0, 1] && MaxIntOrZero([]) == 0
  {
    var m := Matrix([[0.0], [1.0]], 1);
    var x := Round(m).value;
    assert x.data[0] == [0.0] && x.data[1] == [1.0] by {
      assert x.data[0][..1] == [0.0] && x.data[1][..1] == [1.0];
    }
    assert x == m;
    assert Distinct(m.data);
    assert Iota(2) == [0, 1];
  }

  /** The two passes over the two-point tree: both leaves still hold point 0. */
  lemma TwoPointsAnnotate()
    ensures
      var leaf := Leaf(0, 1, BranchAt([]), [0.0], 1, ZeroBox);
      var boxed := GetBboxTopDown(CountAll(SetU(Branch(0, 0.5, Some(leaf), Some(leaf), TreeOwner, 0, ZeroBox), NoParent)), SpanAsWritten);
      boxed.Ok? && LeafIndices(boxed.value) == [0, 0]
  {
    var leaf := Leaf(0, 1, BranchAt([]), [0.0], 1, ZeroBox);
    var node := SetU(Branch(0, 0.5, Some(leaf), Some(leaf), TreeOwner, 0, ZeroBox), NoParent);
    assert LeafIndices(node) == [0, 0];
    var counted := CountAll(node);
    assert LeafIndices(counted) == [0, 0];
    assert Complete(counted);
  }

  /** Two distinct points, one dimension, both draws 0.5: the cut at 0.5
      isolates each point, yet both leaves hold point 0, so point 1 is in
      neither the tree nor the registry. */
  lemma NewLosesSecondPoint()
    ensures var t := New(Some(Matrix([[0.0], [1.0]], 1)), [0.5, 0.5]);
      && t.Ok?
      && LeafIndices(t.value.root.value) == [0, 0]
      && t.value.leaves.Keys == {0}
  {
    TwoPointsNew();
    TwoPointsFinish();
    var leaf := Leaf(0, 1, BranchAt([]), [0.0], 1, ZeroBox);
    assert map[0 := leaf].Keys == {0};
  }

  /** New on the two points is Finish on their as-written build. */
  lemma TwoPointsNew()
    ensures
      var leaf := Leaf(0, 1, BranchAt([]), [0.0], 1, ZeroBox);
      var built := Built(Branch(0, 0.5, Some(leaf), Some(leaf), TreeOwner, 0, ZeroBox), map[0 := leaf], []);
      New(Some(Matrix([[0.0], [1.0]], 1)), [0.5, 0.5]) == Finish(Ok(built), SpanAsWritten, 1, [0, 1])
  {
    TwoPointsRound();
    TwoPointsMasks();
    TwoPointsMkTree();
    NewOnDistinct(Matrix([[0.0], [1.0]], 1), [0.5, 0.5]);
  }

  /** Finishing the two-point build keeps both leaves on point 0 and the
      registry with label 0 alone. */
  lemma TwoPointsFinish()
    ensures
      var leaf := Leaf(0, 1, BranchAt([]), [0.0], 1, ZeroBox);
      var built := Built(Branch(0, 0.5, Some(leaf), Some(leaf), TreeOwner, 0, ZeroBox), map[0 := leaf], []);
      var t := Finish(Ok(built), SpanAsWritten, 1, [0, 1]);
      t.Ok? && LeafIndices(t.value.root.value) == [0, 0] && t.value.leaves == map[0 := leaf]
  {
    TwoPointsAnnotate();
  }

  /** New as written succeeds only when its first cut leaves a single row
      in S1: with more, _mktree gives the root no right child, and the box
      pass fails on it. */
  lemma NewNeedsSingleLeft(m: Matrix, draws: seq<real>)
    ensures New(Some(m), draws).Ok? ==>
      var x := Round(m).value;
      && Cut(x, NpBools(|x.data|), draws, []).Ok?
      && Sum(Cut(x, NpBools(|x.data|), draws, []).value.s1) == 1
  {
    if New(Some(m), draws).Ok? {
      var x, b := NewParts(m, draws);
      var n := |x.data|;
      var S := NpBools(n);
      var N := NpOnes(n);
      MkTreePlaced(x, S, N, None, Iota(n), [], 0, draws, map[]);
      FinishShape(b, SpanAsWritten, x.cols, Iota(n));
      MkTreeCases(x, S, N, None, Iota(n), [], 0, draws, map[]);
      var c := Cut(x, S, draws, []).value;
      assert b.node.r.Some?;
      LeafOfSelects(x, c.s1, N, [], 1);
    }
  }

  /** A leaf can only be made for a mask that selects some row. */
  lemma LeafOfSelects(X: Matrix, mask: seq<bool>, N: seq<int>, at: seq<Side>, d: nat)
    requires |mask| == |X.data| && |N| >= |X.data|
    ensures LeafOf(X, mask, N, at, d).Ok? ==> Sum(mask) >= 1
  {
  }

  /** Three points 0, 1 and 2 in one dimension, with draws starting 0.5,
      0.75: the first cut is at 1.5 and leaves points 0 and 1 in S1, so New
      as written fails whatever the later draws are. */
  lemma NewDropsRightChild(rest: seq<real>)
    ensures !New(Some(Matrix([[0.0], [1.0], [2.0]], 1)), [0.5, 0.75] + rest).Ok?
  {
    var m := Matrix([[0.0], [1.0], [2.0]], 1);
    ThreePointsRound();
    ThreePointsCut(rest);
    NewNeedsSingleLeft(m, [0.5, 0.75] + rest);
  }

  lemma ThreePointsRound()
    ensures Round(Matrix([[0.0], [1.0], [2.0]], 1)) == Ok(Matrix([[0.0], [1.0], [2.0]], 1))
  {
    var m := Matrix([[0.0], [1.0], [2.0]], 1);
    var x := Round(m).value;
    assert x.data[0] == [0.0] && x.data[1] == [1.0] && x.data[2] == [2.0] by {
      assert x.data[0][..1] == [0.0] && x.data[1][..1] == [1.0] && x.data[2][..1] == [2.0];
    }
    assert x == m;
  }

  lemma ThreePointsCut(rest: seq<real>)
    ensures NpBools(3) == [true, true, true]
    ensures var c := Cut(Matrix([[0.0], [1.0], [2.0]], 1), [true, true, true], [0.5, 0.75] + rest, []);
      c.Ok? && c.value.s1 == [true, true, false] && Sum(c.value.s1) == 2
  {
    ThreePointsMasks();
    ThreePointsCutValue(rest);
  }

  lemma ThreePointsMasks()
    ensures NpBools(3) == [true, true, true]
    ensures Sum([true, true, false]) == 2
  {
    assert [true, true, false][..2] == [true, true];
    assert [true, true][..1] == [true];
  }

  lemma ThreePointsCutValue(rest: seq<real>)
    ensures Cut(Matrix([[0.0], [1.0], [2.0]], 1), [true, true, true], [0.5, 0.75] + rest, [])
            == Ok(CutResult([true, true, false], [false, false, true], 0, 1.5,
                            Branch(0, 1.5, None, None, TreeOwner, 0, ZeroBox), rest))
  {
    ThreePointsInclude();
    ThreePointsBounds();
    ThreePointsRanges();
    ThreePointsChoice(rest);
    assert ([0.75] + rest)[0] == 0.75 && ([0.75] + rest)[1..] == rest;
    assert Uniform(0.75, 0.0, 2.0) == 1.5;
    ThreePointsSplit();
  }

  lemma ThreePointsInclude()
    ensures Sum([true, true, true]) == 3
    ensures Include(Matrix([[0.0], [1.0], [2.0]], 1), [true, true, true]) == Matrix([[0.0], [1.0], [2.0]], 1)
  {
    var S := [true, true, true];
    assert S[..1] == [true];
    assert S[..2] == [true, true];
    assert S[..3] == S;
    assert IndicesWhere(S) == [0, 1, 2];
  }

  lemma ThreePointsBounds()
    ensures Max(Matrix([[0.0], [1.0], [2.0]], 1)) == [2.0]
    ensures Min(Matrix([[0.0], [1.0], [2.0]], 1)) == [0.0]
  {
    var m := Matrix([[0.0], [1.0], [2.0]], 1);
    var hi := Max(m);
    var lo := Min(m);
    assert m.data[0][0] == 0.0 && m.data[1][0] == 1.0 && m.data[2][0] == 2.0;
    assert |hi| == 1 && hi[0] == 2.0;
    assert |lo| == 1 && lo[0] == 0.0;
  }

  lemma ThreePointsRanges()
    ensures Rectangular([[0.0], [1.0], [2.0]], 1) && [true, true, true][..3] == [true, true, true]
            && Sum([true, true, true]) == 3
            && Ranges(Matrix([[0.0], [1.0], [2.0]], 1), [true, true, true]) == [2.0]
  {
    ThreePointsRectangular();
    ThreePointsInclude();
    ThreePointsBounds();
    OneColumnRanges(Matrix([[0.0], [1.0], [2.0]], 1), [true, true, true], 0.0, 2.0);
  }

  /** The range of a one-column selection whose bounds are known. */
  lemma OneColumnRanges(X: Matrix, S: seq<bool>, lo: real, hi: real)
    requires Rectangular(X.data, X.cols) && |S| >= |X.data| && Sum(S[..|X.data|]) > 0
    requires Max(Include(X, S)) == [hi] && Min(Include(X, S)) == [lo]
    ensures Ranges(X, S) == [hi - lo]
  {
    RangesAre(X, S);
    Singleton(Subtract([hi], [lo]), hi - lo);
  }

  /** The ranges of a selection, as Max minus Min of the selected rows. */
  lemma RangesAre(X: Matrix, S: seq<bool>)
    requires Rectangular(X.data, X.cols) && |S| >= |X.data| && Sum(S[..|X.data|]) > 0
    ensures Ranges(X, S) == Subtract(Max(Include(X, S)), Min(Include(X, S)))
  {
  }

  /** A one-element sequence is the display of its element. */
  lemma Singleton(r: seq<real>, v: real)
    requires |r| == 1 && r[0] == v
    ensures r == [v]
  {
  }

  lemma ThreePointsRectangular()
    ensures Rectangular([[0.0], [1.0], [2.0]], 1)
    ensures [true, true, true][..3] == [true, true, true]
  {
  }

  lemma ThreePointsChoice(rest: seq<real>)
    ensures FloatSum([2.0]) == 2.0 && DivideBy([2.0], 2.0) == [1.0]
    ensures Choose([0.5, 0.75] + rest, [1.0]) == Ok((0, [0.75] + rest))
  {
    var draws := [0.5, 0.75] + rest;
    assert [2.0][..0] == [];
    assert Products(draws, [1.0]) == [0.5];
    assert [0.5][..0] == [];
    assert Pick([0.5]) == (0, 0.5);
    assert draws[1..] == [0.75] + rest;
  }

  lemma ThreePointsSplit()
    ensures Split(Matrix([[0.0], [1.0], [2.0]], 1), [true, true, true], 0, 1.5)
            == ([true, true, false], [false, false, true])
  {
    var parts := Split(Matrix([[0.0], [1.0], [2.0]], 1), [true, true, true], 0, 1.5);
    assert |parts.0| == 3 && parts.0[0] && parts.0[1] && !parts.0[2];
    assert |parts.1| == 3 && !parts.1[0] && !parts.1[1] && parts.1[2];
    assert parts.0 == [true, true, false] && parts.1 == [false, false, true];
  }
}
