/** The tree build of rrcf.go as its comments and the Python library it
    ports evidently intend, beside the as-written build of module Build:
    Unique allocates its counts; `_mktree` builds the left and the right
    child alike, each a subtree when its side holds more than one row and a
    leaf for that side's row otherwise; a leaf is registered under the label
    of every input row folded into it; and the boxes are merged with Dx
    seeded from Dx. */
module Intended {
  import opened Base
  import opened Vectors
  import opened Matrices
  import opened Nodes
  import opened Annotate
  import opened Cuts
  import opened Build

  // ------------------------------------------------------------ the rows

  /** The unique row that input row `j` was folded into: `I[j]` with
      duplicates, `j` itself without; -1 when I has no entry `j`. */
  function Owner(I: Option<seq<int>>, j: nat): int
  {
    match I
    case None => j
    case Some(inverse) => if j < |inverse| then inverse[j] else -1
  }

  /** What the build is run on: the rows, their counts and the inverse
      (None when there are no duplicates). */
  datatype Prepared = Prepared(data: Matrix, counts: seq<int>, inverse: Option<seq<int>>)

  /** The rows folded for the build, as New does it but with Unique's counts
      allocated: when some row repeats, the unique rows with their counts and
      the inverse; otherwise the rows themselves, each with count 1. Either
      way every input row is represented by exactly its own point, and every
      prepared row weighs as many input rows as are equal to it. */
  function Prepare(x: Matrix): (p: Prepared)
    requires Rectangular(x.data, x.cols)
    ensures Represents(x, p)
  {
    var u := UniqueCounted(x);
    var p := Fold(x, u);
    assert Represents(x, p);
    p
  }

  /** The preparation from Unique's result: the unique rows when some row
      repeats, the rows themselves otherwise. */
  function Fold(x: Matrix, u: Uniques): (p: Prepared)
    requires Rectangular(x.data, x.cols) && u.unique.cols == x.cols
    requires Distinct(u.unique.data) && InverseMaps(x.data, u) && CountsMatch(u) && IntSum(u.counts) == |x.data|
    ensures Represents(x, p)
  {
    if MaxIntOrZero(u.counts) > 1 then
      FoldedRepresents(x, u);
      Prepared(u.unique, u.counts, Some(u.inverse))
    else
      UnfoldedRepresents(x, u);
      Prepared(x, NpOnes(|x.data|), None)
  }

  /** `p` stands for the rows of `x`: distinct rows of x's width, each
      weighing its multiplicity among x's rows, and each row of x found at
      its owner; with an inverse, the weights count its entries, and without
      one, `p` is x itself with weights 1. */
  ghost predicate Represents(x: Matrix, p: Prepared)
  {
    && p.data.cols == x.cols && Rectangular(p.data.data, p.data.cols)
    && Distinct(p.data.data)
    && |p.counts| == |p.data.data|
    && IntSum(p.counts) == |x.data|
    && (forall i :: 0 <= i < |p.counts| ==> p.counts[i] == multiset(x.data)[p.data.data[i]] >= 1)
    && (p.inverse.Some? ==> |p.inverse.value| == |x.data|)
    && (p.inverse.Some? ==>
          forall i :: 0 <= i < |p.counts| ==> p.counts[i] == multiset(p.inverse.value)[i] >= 1)
    && (p.inverse.None? ==> p.data == x && p.counts == NpOnes(|x.data|))
    && (Distinct(x.data) ==> p == Prepared(x, NpOnes(|x.data|), None))
    && forall k :: 0 <= k < |x.data| ==>
         0 <= Owner(p.inverse, k) < |p.data.data| && p.data.data[Owner(p.inverse, k)] == x.data[k]
  }

  /** With some row repeated, the unique rows with their counts stand for x. */
  lemma FoldedRepresents(x: Matrix, u: Uniques)
    requires Rectangular(x.data, x.cols) && u.unique.cols == x.cols && MaxIntOrZero(u.counts) > 1
    requires Distinct(u.unique.data) && InverseMaps(x.data, u) && CountsMatch(u) && IntSum(u.counts) == |x.data|
    ensures Represents(x, Prepared(u.unique, u.counts, Some(u.inverse)))
  {
    var p := Prepared(u.unique, u.counts, Some(u.inverse));
    UniqueRectangular(x, u);
    CountsAreMultiplicities(x, u);
    DistinctCountsSingle(x, u);
    assert !Distinct(x.data);
    assert forall i :: 0 <= i < |p.counts| ==> p.counts[i] == multiset(p.inverse.value)[i] >= 1;
    assert forall k :: 0 <= k < |x.data| ==> Owner(p.inverse, k) == u.inverse[k];
  }

  /** With no row repeated, the rows themselves stand for x, weighing 1 each. */
  lemma UnfoldedRepresents(x: Matrix, u: Uniques)
    requires Rectangular(x.data, x.cols) && MaxIntOrZero(u.counts) <= 1
    requires Distinct(u.unique.data) && InverseMaps(x.data, u) && CountsMatch(u)
    ensures Represents(x, Prepared(x, NpOnes(|x.data|), None))
  {
    var p := Prepared(x, NpOnes(|x.data|), None);
    SingleCountsDistinct(x, u);
    IntSumOnes(NpOnes(|x.data|));
    DistinctOnes(x.data);
    assert forall k :: 0 <= k < |x.data| ==> Owner(p.inverse, k) == k;
  }

  /** Each unique row's count is how often it occurs among the input rows. */
  lemma CountsAreMultiplicities(x: Matrix, u: Uniques)
    requires Distinct(u.unique.data) && InverseMaps(x.data, u) && CountsMatch(u)
    ensures forall i :: 0 <= i < |u.counts| ==> u.counts[i] == multiset(x.data)[u.unique.data[i]]
  {
    forall i | 0 <= i < |u.counts| ensures u.counts[i] == multiset(x.data)[u.unique.data[i]] {
      MultiplicityThroughInverse(x.data, u.unique.data, u.inverse, i);
    }
  }

  /** On distinct input rows every unique row is counted once. */
  lemma DistinctCountsSingle(x: Matrix, u: Uniques)
    requires Distinct(u.unique.data) && InverseMaps(x.data, u) && CountsMatch(u)
    ensures Distinct(x.data) ==> MaxIntOrZero(u.counts) <= 1
  {
    if Distinct(x.data) {
      CountsAreMultiplicities(x, u);
      forall i | 0 <= i < |u.counts| ensures u.counts[i] <= 1 {
        DistinctOccursOnce(x.data, u.unique.data[i]);
      }
    }
  }

  /** With distinct unique rows, unique row j occurs among the rows as often
      as j occurs in the inverse. */
  lemma {:induction false} MultiplicityThroughInverse(rows: seq<Row>, unique: seq<Row>, inverse: seq<nat>, j: nat)
    requires Distinct(unique) && j < |unique| && |inverse| == |rows|
    requires forall k :: 0 <= k < |rows| ==> inverse[k] < |unique| && unique[inverse[k]] == rows[k]
    ensures multiset(rows)[unique[j]] == multiset(inverse)[j]
  {
    if |rows| > 0 {
      var n := |rows| - 1;
      MultiplicityThroughInverse(rows[..n], unique, inverse[..n], j);
      assert rows == rows[..n] + [rows[n]];
      assert inverse == inverse[..n] + [inverse[n]];
    }
  }

  /** Each of distinct rows occurs exactly once. */
  lemma DistinctOnes(rows: seq<Row>)
    requires Distinct(rows)
    ensures forall i :: 0 <= i < |rows| ==> multiset(rows)[rows[i]] == 1
  {
    forall i | 0 <= i < |rows| ensures multiset(rows)[rows[i]] == 1 {
      DistinctOccursOnce(rows, rows[i]);
    }
  }

  /** A row occurs at most once among distinct rows. */
  lemma {:induction false} DistinctOccursOnce(rows: seq<Row>, r: Row)
    requires Distinct(rows)
    ensures multiset(rows)[r] <= 1
  {
    if |rows| > 0 {
      var n := |rows| - 1;
      DistinctOccursOnce(rows[..n], r);
      assert rows == rows[..n] + [rows[n]];
      if rows[n] == r {
        assert r !in rows[..n];
      }
    }
  }

  /** Preparing prepared rows again changes nothing: they are distinct, so
      they are kept as they are, each with count 1. */
  lemma PrepareIdempotent(x: Matrix)
    requires Rectangular(x.data, x.cols)
    ensures var p := Prepare(x);
            Prepare(p.data) == Prepared(p.data, NpOnes(|p.data.data|), None)
  {
    var p := Prepare(x);
    assert Represents(p.data, Prepare(p.data));
  }

  /** Every unique row is some input row, so it has the input's width. */
  lemma UniqueRectangular(x: Matrix, u: Uniques)
    requires Rectangular(x.data, x.cols) && InverseMaps(x.data, u) && CountsMatch(u)
    ensures Rectangular(u.unique.data, x.cols)
  {
    forall j | 0 <= j < |u.unique.data| ensures |u.unique.data[j]| == x.cols {
      assert u.counts[j] == multiset(u.inverse)[j] >= 1;
      assert j in u.inverse;
      var k :| 0 <= k < |u.inverse| && u.inverse[k] == j;
    }
  }

  /** When no unique row is counted twice, the input rows are distinct. */
  lemma SingleCountsDistinct(x: Matrix, u: Uniques)
    requires Distinct(u.unique.data) && InverseMaps(x.data, u) && CountsMatch(u)
    requires MaxIntOrZero(u.counts) <= 1
    ensures Distinct(x.data)
  {
    forall j, k | 0 <= j < k < |x.data| ensures x.data[j] != x.data[k] {
      TwoOccurrences(u.inverse, j, k);
      assert u.inverse[j] != u.inverse[k];
    }
  }

  /** Two positions holding the same value make it occur twice. */
  lemma TwoOccurrences(a: seq<nat>, j: nat, k: nat)
    ensures j < k < |a| && a[j] == a[k] ==> multiset(a)[a[j]] >= 2
  {
    if j < k < |a| && a[j] == a[k] {
      assert a == a[..k] + [a[k]] + a[k + 1..];
      assert a[..k][j] == a[j];
      assert a[j] in multiset(a[..k]);
    }
  }

  lemma {:induction false} IntSumOnes(a: seq<int>)
    requires forall k :: 0 <= k < |a| ==> a[k] == 1
    ensures IntSum(a) == |a|
  {
    if |a| > 0 {
      IntSumOnes(a[..|a| - 1]);
    }
  }

  // ----------------------------------------------------------- the leaves

  /** The labels of the input rows folded into unique row `i`. */
  ghost function LabelsOfRow(I: Option<seq<int>>, labels: seq<int>, i: nat): set<int>
  {
    set j | 0 <= j < |labels| && Owner(I, j) == i :: labels[j]
  }

  /** The labels of the input rows folded into a row the mask selects. */
  ghost function LabelsOf(I: Option<seq<int>>, labels: seq<int>, S: seq<bool>): set<int>
  {
    set j | 0 <= j < |labels| && Selects(S, Owner(I, j)) :: labels[j]
  }

  /** The mask selects row `i`. */
  predicate Selects(S: seq<bool>, i: int)
  {
    0 <= i < |S| && S[i]
  }

  /** The leaf is registered under the label of every input row folded into
      its row: the loop over all of indicesOfValue(I, i), where the code as
      written keeps only the first index. Without duplicates the one label
      is the leaf's own, and a missing label is the index panic. */
  function RegisterAll(leaves: map<int, Node>, I: Option<seq<int>>, labels: seq<int>, leaf: Node): (res: Result<map<int, Node>>)
    requires leaf.Leaf?
    ensures I.None? ==> (res.Ok? <==> leaf.i < |labels|)
    ensures I.Some? ==> (res.Ok? <==> forall j :: 0 <= j < |I.value| && I.value[j] == leaf.i ==> j < |labels|)
    ensures res.Err? ==> res.error == IndexOutOfRange
    ensures res.Ok? ==> forall k :: k in res.value <==> k in leaves || k in LabelsOfRow(I, labels, leaf.i)
    ensures res.Ok? ==> forall k :: k in res.value ==>
              res.value[k] == if k in LabelsOfRow(I, labels, leaf.i) then leaf else leaves[k]
  {
    match I
    case None =>
      if leaf.i < |labels| then
        assert LabelsOfRow(I, labels, leaf.i) == {labels[leaf.i]};
        Ok(leaves[labels[leaf.i] := leaf])
      else
        Err(IndexOutOfRange)
    case Some(inverse) =>
      var res := RegisterScan(leaves, inverse, labels, leaf, |inverse|);
      ScanClaimsRow(inverse, labels, leaf.i);
      res
  }

  /** The labels claimed by the first `count` entries of the inverse that
      name row `i`. */
  ghost function Claimed(inverse: seq<int>, labels: seq<int>, i: nat, count: nat): set<int>
    requires count <= |inverse|
  {
    set j | 0 <= j < count && j < |labels| && inverse[j] == i :: labels[j]
  }

  lemma ScanClaimsRow(inverse: seq<int>, labels: seq<int>, i: nat)
    ensures Claimed(inverse, labels, i, |inverse|) == LabelsOfRow(Some(inverse), labels, i)
  {
  }

  lemma ClaimedStep(inverse: seq<int>, labels: seq<int>, i: nat, count: nat)
    requires 0 < count <= |inverse|
    ensures Claimed(inverse, labels, i, count)
            == Claimed(inverse, labels, i, count - 1)
               + (if count - 1 < |labels| && inverse[count - 1] == i then {labels[count - 1]} else {})
  {
  }

  /** The registration loop after the first `count` entries of the inverse. */
  function RegisterScan(leaves: map<int, Node>, inverse: seq<int>, labels: seq<int>, leaf: Node, count: nat): (res: Result<map<int, Node>>)
    requires leaf.Leaf? && count <= |inverse|
    ensures res.Ok? <==> forall j :: 0 <= j < count && inverse[j] == leaf.i ==> j < |labels|
    ensures res.Err? ==> res.error == IndexOutOfRange
    ensures res.Ok? ==> forall k :: k in res.value <==> k in leaves || k in Claimed(inverse, labels, leaf.i, count)
    ensures res.Ok? ==> forall k :: k in res.value ==>
              res.value[k] == if k in Claimed(inverse, labels, leaf.i, count) then leaf else leaves[k]
  {
    if count == 0 then Ok(leaves)
    else
      ClaimedStep(inverse, labels, leaf.i, count);
      match RegisterScan(leaves, inverse, labels, leaf, count - 1)
      case Err(e) => Err(e)
      case Ok(m) =>
        var j := count - 1;
        if inverse[j] != leaf.i then Ok(m)
        else if j >= |labels| then Err(IndexOutOfRange)
        else Ok(m[labels[j] := leaf])
  }

  // --------------------------------------------------------------- _mktree

  /** _mktree as intended: cut the selected rows, then build the left child
      from S1 and the right child from S2, in that order. `at` is the
      address of the branch this call creates and `depth` its parent's. */
  function MkTreeIntended(X: Matrix, S: seq<bool>, N: seq<int>, I: Option<seq<int>>, labels: seq<int>,
                          at: seq<Side>, depth: nat, draws: seq<real>, leaves: map<int, Node>): (res: Result<Built>)
    requires Rectangular(X.data, X.cols) && |S| == |X.data| && |N| >= |X.data|
    ensures res.Ok? ==> |res.value.rest| < |draws|
    decreases |draws|, 0
  {
    var d := depth + 1;
    match Cut(X, S, draws, at)
    case Err(e) => Err(e)
    case Ok(c) =>
      match Subtree(X, c.s1, N, I, labels, at, L, d, c.rest, leaves)
      case Err(e) => Err(e)
      case Ok(left) =>
        match Subtree(X, c.s2, N, I, labels, at, R, d, left.rest, left.leaves)
        case Err(e) => Err(e)
        case Ok(right) =>
          Ok(Built(Branch(c.q, c.p, Some(left.node), Some(right.node), ParentOf(at), 0, ZeroBox),
                   right.leaves, right.rest))
  }

  /** The child on one side of the branch at `at`: a subtree when the side
      holds more than one row, else the leaf for its row, registered. */
  function Subtree(X: Matrix, s: seq<bool>, N: seq<int>, I: Option<seq<int>>, labels: seq<int>,
                   at: seq<Side>, side: Side, d: nat, draws: seq<real>, leaves: map<int, Node>): (res: Result<Built>)
    requires Rectangular(X.data, X.cols) && |s| == |X.data| && |N| >= |X.data|
    ensures res.Ok? ==> |res.value.rest| <= |draws|
    decreases |draws|, 1
  {
    if Sum(s) > 1 then
      MkTreeIntended(X, s, N, I, labels, at + [side], d, draws, leaves)
    else
      match LeafOf(X, s, N, at, d)
      case Err(e) => Err(e)
      case Ok(leaf) =>
        match RegisterAll(leaves, I, labels, leaf)
        case Err(e) => Err(e)
        case Ok(registered) => Ok(Built(leaf, registered, draws))
  }

  /** The parts of an accepted intended `_mktree` call: its cut, which
      partitions the selected rows, and its two children, built in turn. */
  lemma MkTreeIntendedParts(X: Matrix, S: seq<bool>, N: seq<int>, I: Option<seq<int>>, labels: seq<int>,
                            at: seq<Side>, depth: nat, draws: seq<real>, leaves: map<int, Node>)
    returns (c: CutResult, left: Built, right: Built)
    requires Rectangular(X.data, X.cols) && |S| == |X.data| && |N| >= |X.data|
    requires MkTreeIntended(X, S, N, I, labels, at, depth, draws, leaves).Ok?
    ensures Partition(S, c.s1, c.s2) && |c.rest| < |draws| && |left.rest| <= |c.rest|
    ensures Subtree(X, c.s1, N, I, labels, at, L, depth + 1, c.rest, leaves) == Ok(left)
    ensures Subtree(X, c.s2, N, I, labels, at, R, depth + 1, left.rest, left.leaves) == Ok(right)
    ensures MkTreeIntended(X, S, N, I, labels, at, depth, draws, leaves)
            == Ok(Built(Branch(c.q, c.p, Some(left.node), Some(right.node), ParentOf(at), 0, ZeroBox),
                        right.leaves, right.rest))
  {
    c := AcceptedCut(X, S, draws, at);
    left := Subtree(X, c.s1, N, I, labels, at, L, depth + 1, c.rest, leaves).value;
    right := Subtree(X, c.s2, N, I, labels, at, R, depth + 1, left.rest, left.leaves).value;
  }

  /** An accepted cut of every row of a mask as long as X partitions it. */
  lemma AcceptedCut(X: Matrix, S: seq<bool>, draws: seq<real>, at: seq<Side>) returns (c: CutResult)
    requires Rectangular(X.data, X.cols) && |S| == |X.data| && Cut(X, S, draws, at).Ok?
    ensures Cut(X, S, draws, at) == Ok(c) && Partition(S, c.s1, c.s2) && |c.rest| < |draws|
  {
    c := Cut(X, S, draws, at).value;
    CutPartitions(X, S, draws, at);
    assert S[..|X.data|] == S;
  }

  /** An accepted child on a side holding more than one row is the
      subtree built there. */
  lemma SubtreeBranch(X: Matrix, s: seq<bool>, N: seq<int>, I: Option<seq<int>>, labels: seq<int>,
                      at: seq<Side>, side: Side, d: nat, draws: seq<real>, leaves: map<int, Node>)
    requires Rectangular(X.data, X.cols) && |s| == |X.data| && |N| >= |X.data|
    requires Subtree(X, s, N, I, labels, at, side, d, draws, leaves).Ok? && Sum(s) > 1
    ensures MkTreeIntended(X, s, N, I, labels, at + [side], d, draws, leaves).Ok?
    ensures Subtree(X, s, N, I, labels, at, side, d, draws, leaves)
            == MkTreeIntended(X, s, N, I, labels, at + [side], d, draws, leaves)
  {
  }

  /** An accepted child on any other side is the leaf for the side's one
      row, registered. */
  lemma SubtreeLeaf(X: Matrix, s: seq<bool>, N: seq<int>, I: Option<seq<int>>, labels: seq<int>,
                    at: seq<Side>, side: Side, d: nat, draws: seq<real>, leaves: map<int, Node>)
    requires Rectangular(X.data, X.cols) && |s| == |X.data| && |N| >= |X.data|
    requires Subtree(X, s, N, I, labels, at, side, d, draws, leaves).Ok? && Sum(s) <= 1
    ensures Sum(s) == 1 && LeafOf(X, s, N, at, d).Ok?
    ensures Subtree(X, s, N, I, labels, at, side, d, draws, leaves).value.node == LeafOf(X, s, N, at, d).value
  {
  }

  lemma SubtreeLeafRegistered(X: Matrix, s: seq<bool>, N: seq<int>, I: Option<seq<int>>, labels: seq<int>,
                              at: seq<Side>, side: Side, d: nat, draws: seq<real>, leaves: map<int, Node>)
    requires Rectangular(X.data, X.cols) && |s| == |X.data| && |N| >= |X.data|
    requires Subtree(X, s, N, I, labels, at, side, d, draws, leaves).Ok? && Sum(s) <= 1
    ensures LeafOf(X, s, N, at, d).Ok? && RegisterAll(leaves, I, labels, LeafOf(X, s, N, at, d).value).Ok?
    ensures var b := Subtree(X, s, N, I, labels, at, side, d, draws, leaves).value;
      b.node == LeafOf(X, s, N, at, d).value
      && b.leaves == RegisterAll(leaves, I, labels, LeafOf(X, s, N, at, d).value).value
  {
  }

  // ------------------------------------------------------------ the masks

  /** A mask selecting one row selects nothing else, and IndicesWhere
      reports just that row. */
  lemma SingleSelected(s: seq<bool>, i: nat)
    requires Sum(s) == 1 && i < |s| && s[i]
    ensures IndicesWhere(s) == [i]
    ensures forall k :: 0 <= k < |s| ==> (s[k] <==> k == i)
  {
    var idx := IndicesWhere(s);
    IndicesWherePositions(s);
    assert i in idx;
    forall k | 0 <= k < |s| && s[k] ensures k == i {
      assert k in idx;
    }
  }

  /** The number of points the selected rows stand for: the sum of their
      counts. */
  function Weight(S: seq<bool>, N: seq<int>): int
    requires |N| >= |S|
  {
    if |S| == 0 then 0
    else Weight(S[..|S| - 1], N) + (if S[|S| - 1] then N[|S| - 1] else 0)
  }

  lemma {:induction false} WeightPartition(S: seq<bool>, s1: seq<bool>, s2: seq<bool>, N: seq<int>)
    requires Partition(S, s1, s2) && |N| >= |S|
    ensures Weight(s1, N) + Weight(s2, N) == Weight(S, N)
  {
    if |S| > 0 {
      var n := |S| - 1;
      PartitionPrefix(S, s1, s2, n);
      WeightPartition(S[..n], s1[..n], s2[..n], N);
    }
  }

  lemma {:induction false} WeightSingle(s: seq<bool>, N: seq<int>, i: nat)
    requires |N| >= |s| && i < |s|
    requires forall k :: 0 <= k < |s| ==> (s[k] <==> k == i)
    ensures Weight(s, N) == N[i]
  {
    var n := |s| - 1;
    if n == i {
      WeightNone(s[..n], N);
    } else {
      WeightSingle(s[..n], N, i);
    }
  }

  lemma {:induction false} WeightNone(s: seq<bool>, N: seq<int>)
    requires |N| >= |s|
    requires forall k :: 0 <= k < |s| ==> !s[k]
    ensures Weight(s, N) == 0
  {
    if |s| > 0 {
      WeightNone(s[..|s| - 1], N);
    }
  }

  lemma {:induction false} WeightAll(s: seq<bool>, N: seq<int>)
    requires |N| >= |s|
    requires forall k :: 0 <= k < |s| ==> s[k]
    ensures Weight(s, N) == IntSum(N[..|s|])
  {
    if |s| > 0 {
      var n := |s| - 1;
      WeightAll(s[..n], N);
      assert N[..|s|][..n] == N[..n];
    }
  }

  /** The true positions of an all-true mask are all its positions. */
  lemma {:induction false} AllTrueIndices(s: seq<bool>)
    requires forall k :: 0 <= k < |s| ==> s[k]
    ensures IndicesWhere(s) == Iota(|s|)
  {
    if |s| > 0 {
      var n := |s| - 1;
      var prefix := s[..n];
      assert forall k :: 0 <= k < |prefix| ==> prefix[k];
      AllTrueIndices(prefix);
      IndicesWhereSnoc(s);
      IotaSnoc(n);
    }
  }

  lemma IotaSnoc(n: nat)
    ensures Iota(n + 1) == Iota(n) + [n]
  {
  }

  /** The labels of a partitioned mask are those of its two parts. */
  lemma LabelsOfPartition(I: Option<seq<int>>, labels: seq<int>, S: seq<bool>, s1: seq<bool>, s2: seq<bool>)
    requires Partition(S, s1, s2)
    ensures LabelsOf(I, labels, S) == LabelsOf(I, labels, s1) + LabelsOf(I, labels, s2)
  {
  }

  /** For a mask selecting only row `i`, the labels are row i's. */
  lemma LabelsOfSingle(I: Option<seq<int>>, labels: seq<int>, s: seq<bool>, i: nat)
    requires i < |s| && forall k :: 0 <= k < |s| ==> (s[k] <==> k == i)
    ensures LabelsOf(I, labels, s) == LabelsOfRow(I, labels, i)
  {
  }

  // ------------------------------------------------------------ properties

  /** An intended build is a branch sitting at `at` with both children
      everywhere below it. */
  lemma {:induction false} MkTreeIntendedShape(X: Matrix, S: seq<bool>, N: seq<int>, I: Option<seq<int>>, labels: seq<int>,
                                               at: seq<Side>, draws: seq<real>, leaves: map<int, Node>)
    requires Rectangular(X.data, X.cols) && |S| == |X.data| && |N| >= |X.data|
    requires MkTreeIntended(X, S, N, I, labels, at, |at|, draws, leaves).Ok?
    ensures var node := MkTreeIntended(X, S, N, I, labels, at, |at|, draws, leaves).value.node;
      node.Branch? && Placed(node, at) && Complete(node)
    decreases |draws|, 0
  {
    var c, left, right := MkTreeIntendedParts(X, S, N, I, labels, at, |at|, draws, leaves);
    SubtreeShape(X, c.s1, N, I, labels, at, L, c.rest, leaves);
    SubtreeShape(X, c.s2, N, I, labels, at, R, left.rest, left.leaves);
  }

  lemma {:induction false} SubtreeShape(X: Matrix, s: seq<bool>, N: seq<int>, I: Option<seq<int>>, labels: seq<int>,
                                        at: seq<Side>, side: Side, draws: seq<real>, leaves: map<int, Node>)
    requires Rectangular(X.data, X.cols) && |s| == |X.data| && |N| >= |X.data|
    requires Subtree(X, s, N, I, labels, at, side, |at| + 1, draws, leaves).Ok?
    ensures var node := Subtree(X, s, N, I, labels, at, side, |at| + 1, draws, leaves).value.node;
      Placed(node, at + [side]) && Complete(node)
    decreases |draws|, 1
  {
    assert |at + [side]| == |at| + 1;
    if Sum(s) > 1 {
      SubtreeBranch(X, s, N, I, labels, at, side, |at| + 1, draws, leaves);
      MkTreeIntendedShape(X, s, N, I, labels, at + [side], draws, leaves);
    } else {
      SubtreeLeaf(X, s, N, I, labels, at, side, |at| + 1, draws, leaves);
      assert (at + [side])[..|at|] == at;
    }
  }

  /** Every leaf of an intended build holds a selected row, with that
      row's point and count. */
  lemma {:induction false} MkTreeIntendedLeavesFrom(X: Matrix, S: seq<bool>, N: seq<int>, I: Option<seq<int>>, labels: seq<int>,
                                                    at: seq<Side>, depth: nat, draws: seq<real>, leaves: map<int, Node>)
    requires Rectangular(X.data, X.cols) && |S| == |X.data| && |N| >= |X.data|
    requires MkTreeIntended(X, S, N, I, labels, at, depth, draws, leaves).Ok?
    ensures LeavesFrom(MkTreeIntended(X, S, N, I, labels, at, depth, draws, leaves).value.node, X, S, N)
    decreases |draws|, 0
  {
    var c, left, right := MkTreeIntendedParts(X, S, N, I, labels, at, depth, draws, leaves);
    var d := depth + 1;
    SubtreeLeavesFrom(X, c.s1, N, I, labels, at, L, d, c.rest, leaves);
    SubtreeLeavesFrom(X, c.s2, N, I, labels, at, R, d, left.rest, left.leaves);
    LeavesJoin(Branch(c.q, c.p, None, None, ParentOf(at), 0, ZeroBox), Some(left.node), Some(right.node),
               X, c.s1, c.s2, S, N);
  }

  lemma {:induction false} SubtreeLeavesFrom(X: Matrix, s: seq<bool>, N: seq<int>, I: Option<seq<int>>, labels: seq<int>,
                                             at: seq<Side>, side: Side, d: nat, draws: seq<real>, leaves: map<int, Node>)
    requires Rectangular(X.data, X.cols) && |s| == |X.data| && |N| >= |X.data|
    requires Subtree(X, s, N, I, labels, at, side, d, draws, leaves).Ok?
    ensures LeavesFrom(Subtree(X, s, N, I, labels, at, side, d, draws, leaves).value.node, X, s, N)
    decreases |draws|, 1
  {
    if Sum(s) > 1 {
      SubtreeBranch(X, s, N, I, labels, at, side, d, draws, leaves);
      MkTreeIntendedLeavesFrom(X, s, N, I, labels, at + [side], d, draws, leaves);
    } else {
      SubtreeLeaf(X, s, N, I, labels, at, side, d, draws, leaves);
      var leaf := LeafOf(X, s, N, at, d).value;
      assert Leaves(leaf) == [leaf] && LeafFrom(leaf, X, s, N);
    }
  }

  /** Every selected row ends up in exactly one leaf of an intended build:
      the leaves' row indices are the selected positions, as a multiset. */
  lemma {:induction false} MkTreeIntendedCovers(X: Matrix, S: seq<bool>, N: seq<int>, I: Option<seq<int>>, labels: seq<int>,
                                                at: seq<Side>, depth: nat, draws: seq<real>, leaves: map<int, Node>)
    requires Rectangular(X.data, X.cols) && |S| == |X.data| && |N| >= |X.data|
    requires MkTreeIntended(X, S, N, I, labels, at, depth, draws, leaves).Ok?
    ensures var node := MkTreeIntended(X, S, N, I, labels, at, depth, draws, leaves).value.node;
      multiset(LeafIndices(node)) == multiset(IndicesWhere(S))
    decreases |draws|, 0
  {
    var c, left, right := MkTreeIntendedParts(X, S, N, I, labels, at, depth, draws, leaves);
    var d := depth + 1;
    SubtreeCovers(X, c.s1, N, I, labels, at, L, d, c.rest, leaves);
    SubtreeCovers(X, c.s2, N, I, labels, at, R, d, left.rest, left.leaves);
    CoversJoin(left.node, right.node, c.q, c.p, ParentOf(at), S, c.s1, c.s2);
  }

  /** Children covering the two parts of a partition cover the whole. */
  lemma CoversJoin(l: Node, r: Node, q: nat, p: real, u: Parent, S: seq<bool>, s1: seq<bool>, s2: seq<bool>)
    requires Partition(S, s1, s2)
    requires multiset(LeafIndices(l)) == multiset(IndicesWhere(s1))
    requires multiset(LeafIndices(r)) == multiset(IndicesWhere(s2))
    ensures multiset(LeafIndices(Branch(q, p, Some(l), Some(r), u, 0, ZeroBox))) == multiset(IndicesWhere(S))
  {
    PartitionIndices(S, s1, s2);
    assert LeafIndices(Branch(q, p, Some(l), Some(r), u, 0, ZeroBox)) == LeafIndices(l) + LeafIndices(r);
  }

  lemma {:induction false} SubtreeCovers(X: Matrix, s: seq<bool>, N: seq<int>, I: Option<seq<int>>, labels: seq<int>,
                                         at: seq<Side>, side: Side, d: nat, draws: seq<real>, leaves: map<int, Node>)
    requires Rectangular(X.data, X.cols) && |s| == |X.data| && |N| >= |X.data|
    requires Subtree(X, s, N, I, labels, at, side, d, draws, leaves).Ok?
    ensures var node := Subtree(X, s, N, I, labels, at, side, d, draws, leaves).value.node;
      multiset(LeafIndices(node)) == multiset(IndicesWhere(s))
    decreases |draws|, 1
  {
    if Sum(s) > 1 {
      SubtreeBranch(X, s, N, I, labels, at, side, d, draws, leaves);
      MkTreeIntendedCovers(X, s, N, I, labels, at + [side], d, draws, leaves);
    } else {
      SubtreeLeaf(X, s, N, I, labels, at, side, d, draws, leaves);
      var leaf := LeafOf(X, s, N, at, d).value;
      SingleSelected(s, leaf.i);
    }
  }

  /** The leaf counts of an intended build add up to the selected rows'
      counts. */
  lemma {:induction false} MkTreeIntendedWeight(X: Matrix, S: seq<bool>, N: seq<int>, I: Option<seq<int>>, labels: seq<int>,
                                                at: seq<Side>, depth: nat, draws: seq<real>, leaves: map<int, Node>)
    requires Rectangular(X.data, X.cols) && |S| == |X.data| && |N| >= |X.data|
    requires MkTreeIntended(X, S, N, I, labels, at, depth, draws, leaves).Ok?
    ensures LeafTotal(MkTreeIntended(X, S, N, I, labels, at, depth, draws, leaves).value.node) == Weight(S, N)
    decreases |draws|, 0
  {
    var c, left, right := MkTreeIntendedParts(X, S, N, I, labels, at, depth, draws, leaves);
    var d := depth + 1;
    SubtreeWeight(X, c.s1, N, I, labels, at, L, d, c.rest, leaves);
    SubtreeWeight(X, c.s2, N, I, labels, at, R, d, left.rest, left.leaves);
    WeightJoin(left.node, right.node, c.q, c.p, ParentOf(at), S, c.s1, c.s2, N);
  }

  /** Children weighing the two parts of a partition make a branch
      weighing the whole. */
  lemma WeightJoin(l: Node, r: Node, q: nat, p: real, u: Parent, S: seq<bool>, s1: seq<bool>, s2: seq<bool>, N: seq<int>)
    requires Partition(S, s1, s2) && |N| >= |S|
    requires LeafTotal(l) == Weight(s1, N) && LeafTotal(r) == Weight(s2, N)
    ensures LeafTotal(Branch(q, p, Some(l), Some(r), u, 0, ZeroBox)) == Weight(S, N)
  {
    WeightPartition(S, s1, s2, N);
  }

  lemma {:induction false} SubtreeWeight(X: Matrix, s: seq<bool>, N: seq<int>, I: Option<seq<int>>, labels: seq<int>,
                                         at: seq<Side>, side: Side, d: nat, draws: seq<real>, leaves: map<int, Node>)
    requires Rectangular(X.data, X.cols) && |s| == |X.data| && |N| >= |X.data|
    requires Subtree(X, s, N, I, labels, at, side, d, draws, leaves).Ok?
    ensures LeafTotal(Subtree(X, s, N, I, labels, at, side, d, draws, leaves).value.node) == Weight(s, N)
    decreases |draws|, 1
  {
    if Sum(s) > 1 {
      SubtreeBranch(X, s, N, I, labels, at, side, d, draws, leaves);
      MkTreeIntendedWeight(X, s, N, I, labels, at + [side], d, draws, leaves);
    } else {
      SubtreeLeaf(X, s, N, I, labels, at, side, d, draws, leaves);
      var leaf := LeafOf(X, s, N, at, d).value;
      SingleSelected(s, leaf.i);
      WeightSingle(s, N, leaf.i);
    }
  }

  // -------------------------------------------------------------- registry

  /** No two input rows share a label. */
  ghost predicate Injective(labels: seq<int>)
  {
    forall a, b :: 0 <= a < b < |labels| ==> labels[a] != labels[b]
  }

  /** `after` is `before` with the labels of the rows `S` selects added,
      each pointing at a leaf of `node` that holds the row its label was
      folded into; every other entry is unchanged. */
  ghost predicate Registers(before: map<int, Node>, after: map<int, Node>, node: Node,
                            I: Option<seq<int>>, labels: seq<int>, S: seq<bool>)
  {
    && (forall k :: k in after <==> k in before || k in LabelsOf(I, labels, S))
    && (forall k :: k in after && k !in LabelsOf(I, labels, S) ==> k in before && after[k] == before[k])
    && forall j :: 0 <= j < |labels| && Selects(S, Owner(I, j)) ==>
         && labels[j] in after && after[labels[j]] in Leaves(node)
         && after[labels[j]].Leaf? && after[labels[j]].i == Owner(I, j)
  }

  lemma LeafRegisters(leaves: map<int, Node>, I: Option<seq<int>>, labels: seq<int>, leaf: Node, s: seq<bool>)
    requires leaf.Leaf? && leaf.i < |s| && forall k :: 0 <= k < |s| ==> (s[k] <==> k == leaf.i)
    requires RegisterAll(leaves, I, labels, leaf).Ok?
    ensures Registers(leaves, RegisterAll(leaves, I, labels, leaf).value, leaf, I, labels, s)
  {
    LabelsOfSingle(I, labels, s, leaf.i);
    var after := RegisterAll(leaves, I, labels, leaf).value;
    assert Leaves(leaf) == [leaf];
    forall j | 0 <= j < |labels| && Selects(s, Owner(I, j))
      ensures labels[j] in after && after[labels[j]] == leaf
    {
      assert labels[j] in LabelsOfRow(I, labels, leaf.i);
    }
  }

  lemma RegistersJoin(leaves: map<int, Node>, mid: map<int, Node>, after: map<int, Node>,
                      l: Node, r: Node, q: nat, p: real, u: Parent, I: Option<seq<int>>, labels: seq<int>,
                      S: seq<bool>, s1: seq<bool>, s2: seq<bool>)
    requires Injective(labels) && Partition(S, s1, s2)
    requires Registers(leaves, mid, l, I, labels, s1) && Registers(mid, after, r, I, labels, s2)
    ensures Registers(leaves, after, Branch(q, p, Some(l), Some(r), u, 0, ZeroBox), I, labels, S)
  {
    var node := Branch(q, p, Some(l), Some(r), u, 0, ZeroBox);
    assert Leaves(node) == Leaves(l) + Leaves(r);
    LabelsOfPartition(I, labels, S, s1, s2);
    LabelsDisjoint(I, labels, S, s1, s2);
    forall j | 0 <= j < |labels| && Selects(S, Owner(I, j))
      ensures labels[j] in after && after[labels[j]] in Leaves(node)
      ensures after[labels[j]].Leaf? && after[labels[j]].i == Owner(I, j)
    {
      if Selects(s1, Owner(I, j)) {
        assert labels[j] in LabelsOf(I, labels, s1);
      }
    }
  }

  /** The labels of the two parts of a partition are disjoint. */
  lemma LabelsDisjoint(I: Option<seq<int>>, labels: seq<int>, S: seq<bool>, s1: seq<bool>, s2: seq<bool>)
    requires Injective(labels) && Partition(S, s1, s2)
    ensures LabelsOf(I, labels, s1) !! LabelsOf(I, labels, s2)
  {
    forall j, j' | 0 <= j < |labels| && 0 <= j' < |labels| && Selects(s1, Owner(I, j)) && Selects(s2, Owner(I, j'))
      ensures labels[j] != labels[j']
    {
      if j < j' {
        assert labels[j] != labels[j'];
      } else if j' < j {
        assert labels[j'] != labels[j];
      }
    }
  }

  /** An intended build registers the label of every row it was given,
      each pointing at the leaf holding that row, and touches no other
      entry. */
  lemma {:induction false} MkTreeIntendedRegistry(X: Matrix, S: seq<bool>, N: seq<int>, I: Option<seq<int>>, labels: seq<int>,
                                                  at: seq<Side>, depth: nat, draws: seq<real>, leaves: map<int, Node>)
    requires Rectangular(X.data, X.cols) && |S| == |X.data| && |N| >= |X.data| && Injective(labels)
    requires MkTreeIntended(X, S, N, I, labels, at, depth, draws, leaves).Ok?
    ensures var b := MkTreeIntended(X, S, N, I, labels, at, depth, draws, leaves).value;
      Registers(leaves, b.leaves, b.node, I, labels, S)
    decreases |draws|, 0
  {
    var c, left, right := MkTreeIntendedParts(X, S, N, I, labels, at, depth, draws, leaves);
    var d := depth + 1;
    SubtreeRegistry(X, c.s1, N, I, labels, at, L, d, c.rest, leaves);
    SubtreeRegistry(X, c.s2, N, I, labels, at, R, d, left.rest, left.leaves);
    RegistersJoin(leaves, left.leaves, right.leaves, left.node, right.node, c.q, c.p, ParentOf(at),
                  I, labels, S, c.s1, c.s2);
  }

  lemma {:induction false} SubtreeRegistry(X: Matrix, s: seq<bool>, N: seq<int>, I: Option<seq<int>>, labels: seq<int>,
                                           at: seq<Side>, side: Side, d: nat, draws: seq<real>, leaves: map<int, Node>)
    requires Rectangular(X.data, X.cols) && |s| == |X.data| && |N| >= |X.data| && Injective(labels)
    requires Subtree(X, s, N, I, labels, at, side, d, draws, leaves).Ok?
    ensures var b := Subtree(X, s, N, I, labels, at, side, d, draws, leaves).value;
      Registers(leaves, b.leaves, b.node, I, labels, s)
    decreases |draws|, 1
  {
    if Sum(s) > 1 {
      SubtreeBranch(X, s, N, I, labels, at, side, d, draws, leaves);
      MkTreeIntendedRegistry(X, s, N, I, labels, at + [side], d, draws, leaves);
    } else {
      SubtreeLeafRegistered(X, s, N, I, labels, at, side, d, draws, leaves);
      var leaf := LeafOf(X, s, N, at, d).value;
      SingleSelected(s, leaf.i);
      LeafRegisters(leaves, I, labels, leaf, s);
    }
  }

  // ------------------------------------------------------------------ New

  /** New with the build as intended: the rows are rounded and labelled
      0..n-1, folded by Prepare, built by the intended `_mktree` and then
      counted and boxed, with Span as the box merge. */
  function NewIntended(X: Option<Matrix>, draws: seq<real>): (res: Result<Tree>)
    ensures X.None? ==> res == Ok(Tree(None, map[], None, []))
    ensures X.Some? && res.Ok? ==> res.value.root.Some? && res.value.ndim == Some(X.value.cols)
    ensures X.Some? && res.Ok? ==> res.value.labels == Iota(|X.value.data|)
  {
    match X
    case None => Ok(Tree(None, map[], None, []))
    case Some(m) =>
      match Round(m)
      case Err(e) => Err(e)
      case Ok(x) =>
        var labels := Iota(|x.data|);
        var p := Prepare(x);
        Finish(MkTreeIntended(p.data, NpBools(|p.data.data|), p.counts, p.inverse, labels, [], 0, draws, map[]),
               Span, p.data.cols, labels)
  }

  /** The intended build of New's rows, when it succeeds. */
  function Grown(m: Matrix, draws: seq<real>): Result<Built>
  {
    match Round(m)
    case Err(e) => Err(e)
    case Ok(x) =>
      var p := Prepare(x);
      MkTreeIntended(p.data, NpBools(|p.data.data|), p.counts, p.inverse, Iota(|x.data|), [], 0, draws, map[])
  }

  /** What the intended New builds when it succeeds: a branch root with its
      parent cleared and everything below placed, both children everywhere,
      counts adding up, every box enclosing its children's, and a root
      count equal to the number of input rows. */
  lemma NewIntendedShape(m: Matrix, draws: seq<real>)
    requires NewIntended(Some(m), draws).Ok?
    ensures
      var root := NewIntended(Some(m), draws).value.root.value;
      && root.Branch? && Rooted(root) && Complete(root) && CountsAddUp(root) && BoxesEnclose(root)
      && root.n == |Round(m).value.data|
  {
    var x, p, b := GrownParts(m, draws);
    GrownShape(p.data, p.counts, p.inverse, Iota(|x.data|), b, draws);
  }

  /** The pieces of a successful intended New: the rounded rows, their
      preparation and the build, which Finish then annotates. */
  lemma GrownParts(m: Matrix, draws: seq<real>) returns (x: Matrix, p: Prepared, b: Built)
    requires NewIntended(Some(m), draws).Ok?
    ensures Round(m) == Ok(x) && Rectangular(x.data, x.cols) && p == Prepare(x)
    ensures IntSum(p.counts) == |x.data| && |p.counts| == |p.data.data|
    ensures Rectangular(p.data.data, p.data.cols)
    ensures MkTreeIntended(p.data, NpBools(|p.data.data|), p.counts, p.inverse, Iota(|x.data|), [], 0, draws, map[]) == Ok(b)
    ensures NewIntended(Some(m), draws) == Finish(Ok(b), Span, p.data.cols, Iota(|x.data|))
  {
    x := Round(m).value;
    p := Prepare(x);
    b := Grown(m, draws).value;
  }

  /** Finishing an intended build from the whole of a prepared matrix gives
      a well-formed root whose count is the total of the counts. */
  lemma GrownShape(X: Matrix, N: seq<int>, I: Option<seq<int>>, labels: seq<int>, b: Built, draws: seq<real>)
    requires Rectangular(X.data, X.cols) && |N| == |X.data|
    requires MkTreeIntended(X, NpBools(|X.data|), N, I, labels, [], 0, draws, map[]) == Ok(b)
    ensures Finish(Ok(b), Span, X.cols, labels).Ok?
    ensures
      var root := Finish(Ok(b), Span, X.cols, labels).value.root.value;
      && root.Branch? && Rooted(root) && Complete(root) && CountsAddUp(root) && BoxesEnclose(root)
      && root.n == IntSum(N)
  {
    GrownBuild(X, N, I, labels, b, draws);
    FinishSpan(b, X.cols, labels);
  }

  /** An intended build from the whole of a prepared matrix is a complete
      branch at the root's address holding the total of the counts. */
  lemma GrownBuild(X: Matrix, N: seq<int>, I: Option<seq<int>>, labels: seq<int>, b: Built, draws: seq<real>)
    requires Rectangular(X.data, X.cols) && |N| == |X.data|
    requires MkTreeIntended(X, NpBools(|X.data|), N, I, labels, [], 0, draws, map[]) == Ok(b)
    ensures b.node.Branch? && Placed(b.node, []) && Complete(b.node) && LeafTotal(b.node) == IntSum(N)
  {
    var S := NpBools(|X.data|);
    MkTreeIntendedShape(X, S, N, I, labels, [], draws, map[]);
    MkTreeIntendedWeight(X, S, N, I, labels, [], 0, draws, map[]);
    WeightAll(S, N);
    assert N[..|X.data|] == N;
  }

  /** Finishing a complete branch at the root's address with the intended
      box merge gives a well-formed root counting the branch's leaves. */
  lemma FinishSpan(b: Built, ndim: nat, labels: seq<int>)
    requires b.node.Branch? && Placed(b.node, []) && Complete(b.node)
    ensures Finish(Ok(b), Span, ndim, labels).Ok?
    ensures
      var root := Finish(Ok(b), Span, ndim, labels).value.root.value;
      && root.Branch? && Rooted(root) && Complete(root) && CountsAddUp(root) && BoxesEnclose(root)
      && root.n == LeafTotal(b.node)
  {
    FinishKeeps(b, Span, ndim, labels);
    FinishShape(b, Span, ndim, labels);
    SpanBoxesEnclose(Finish(Ok(b), Span, ndim, labels).value.root.value);
  }

  /** The intended New holds every input row exactly once: the leaves'
      rows are the prepared rows, each once, every leaf carries its row's
      point and count, and that count is the number of input rows equal to
      the leaf's point. */
  lemma NewIntendedLeaves(m: Matrix, draws: seq<real>)
    requires NewIntended(Some(m), draws).Ok?
    ensures
      var root := NewIntended(Some(m), draws).value.root.value;
      var p := Prepare(Round(m).value);
      && multiset(LeafIndices(root)) == multiset(Iota(|p.data.data|))
      && LeavesFrom(root, p.data, NpBools(|p.data.data|), p.counts)
    ensures
      var root := NewIntended(Some(m), draws).value.root.value;
      forall j :: 0 <= j < |Leaves(root)| ==>
        Leaves(root)[j].n == multiset(Round(m).value.data)[Leaves(root)[j].x]
  {
    var x := Round(m).value;
    var p := Prepare(x);
    var n := |p.data.data|;
    var S := NpBools(n);
    var labels := Iota(|x.data|);
    var b := Grown(m, draws).value;
    MkTreeIntendedShape(p.data, S, p.counts, p.inverse, labels, [], draws, map[]);
    MkTreeIntendedCovers(p.data, S, p.counts, p.inverse, labels, [], 0, draws, map[]);
    MkTreeIntendedLeavesFrom(p.data, S, p.counts, p.inverse, labels, [], 0, draws, map[]);
    AllTrueIndices(S);
    FinishKeeps(b, Span, p.data.cols, labels);
    LeavesWeighRows(NewIntended(Some(m), draws).value.root.value, x, p);
  }

  /** Leaves taken from prepared rows weigh as many input rows as equal
      their point. */
  lemma LeavesWeighRows(node: Node, x: Matrix, p: Prepared)
    requires Represents(x, p) && LeavesFrom(node, p.data, NpBools(|p.data.data|), p.counts)
    ensures forall j :: 0 <= j < |Leaves(node)| ==> Leaves(node)[j].n == multiset(x.data)[Leaves(node)[j].x]
  {
    forall j | 0 <= j < |Leaves(node)| ensures Leaves(node)[j].n == multiset(x.data)[Leaves(node)[j].x] {
      assert LeafFrom(Leaves(node)[j], p.data, NpBools(|p.data.data|), p.counts);
    }
  }

  /** The intended New registers every input label, and only those, each
      pointing at a leaf of the tree that holds that input row's point. */
  lemma NewIntendedRegistry(m: Matrix, draws: seq<real>)
    requires NewIntended(Some(m), draws).Ok?
    ensures
      var x := Round(m).value;
      var t := NewIntended(Some(m), draws).value;
      && (forall k :: k in t.leaves <==> 0 <= k < |x.data|)
      && forall k :: 0 <= k < |x.data| ==>
           t.leaves[k] in Leaves(t.root.value) && t.leaves[k].Leaf? && t.leaves[k].x == x.data[k]
  {
    var x := Round(m).value;
    var p := Prepare(x);
    var labels := Iota(|x.data|);
    var b := Grown(m, draws).value;
    MkTreeIntendedShape(p.data, NpBools(|p.data.data|), p.counts, p.inverse, labels, [], draws, map[]);
    FinishKeeps(b, Span, p.data.cols, labels);
    GrownRegistry(m, draws);
  }

  /** The registry of the intended build of New's rows. */
  lemma GrownRegistry(m: Matrix, draws: seq<real>)
    requires Grown(m, draws).Ok?
    ensures
      var x := Round(m).value;
      var b := Grown(m, draws).value;
      && (forall k :: k in b.leaves <==> 0 <= k < |x.data|)
      && forall k :: 0 <= k < |x.data| ==>
           b.leaves[k] in Leaves(b.node) && b.leaves[k].Leaf? && b.leaves[k].x == x.data[k]
  {
    var x := Round(m).value;
    var p := Prepare(x);
    PreparedRegistry(x.data, p.data, p.counts, p.inverse, Grown(m, draws).value, draws);
  }

  /** The registry of an intended build from the whole of a prepared matrix
      whose owners represent `rows`. */
  lemma PreparedRegistry(rows: seq<Row>, X: Matrix, N: seq<int>, I: Option<seq<int>>, b: Built, draws: seq<real>)
    requires Rectangular(X.data, X.cols) && |N| == |X.data|
    requires forall k :: 0 <= k < |rows| ==> 0 <= Owner(I, k) < |X.data| && X.data[Owner(I, k)] == rows[k]
    requires MkTreeIntended(X, NpBools(|X.data|), N, I, Iota(|rows|), [], 0, draws, map[]) == Ok(b)
    ensures forall k :: k in b.leaves <==> 0 <= k < |rows|
    ensures forall k :: 0 <= k < |rows| ==>
              b.leaves[k] in Leaves(b.node) && b.leaves[k].Leaf? && b.leaves[k].x == rows[k]
  {
    var S := NpBools(|X.data|);
    MkTreeIntendedRegistry(X, S, N, I, Iota(|rows|), [], 0, draws, map[]);
    MkTreeIntendedLeavesFrom(X, S, N, I, Iota(|rows|), [], 0, draws, map[]);
    RegistryOfRows(rows, X, S, N, I, b);
  }

  /** A build registering labels 0..n-1 of rows that each sit at their
      owner has exactly those keys, each at a leaf holding its row. */
  lemma RegistryOfRows(rows: seq<Row>, X: Matrix, S: seq<bool>, N: seq<int>, I: Option<seq<int>>, b: Built)
    requires Registers(map[], b.leaves, b.node, I, Iota(|rows|), S) && LeavesFrom(b.node, X, S, N)
    requires forall k :: 0 <= k < |rows| ==> 0 <= Owner(I, k) < |X.data| && X.data[Owner(I, k)] == rows[k]
    requires |S| == |X.data| && forall k :: 0 <= k < |S| ==> S[k]
    ensures forall k :: k in b.leaves <==> 0 <= k < |rows|
    ensures forall k :: 0 <= k < |rows| ==>
              b.leaves[k] in Leaves(b.node) && b.leaves[k].Leaf? && b.leaves[k].x == rows[k]
  {
    var labels := Iota(|rows|);
    EveryLabelSelected(I, S, |rows|);
    forall k | 0 <= k < |rows| ensures b.leaves[k].x == rows[k] {
      assert labels[k] == k;
      LeafInLeaves(b.leaves[k], b.node, X, S, N);
    }
  }

  /** With every input row's owner selected, the labels 0..count-1 are
      exactly the labels of the selected rows. */
  lemma EveryLabelSelected(I: Option<seq<int>>, S: seq<bool>, count: nat)
    requires forall k :: 0 <= k < count ==> Selects(S, Owner(I, k))
    ensures forall k :: k in LabelsOf(I, Iota(count), S) <==> 0 <= k < count
  {
    var labels := Iota(count);
    forall k | 0 <= k < count ensures k in LabelsOf(I, labels, S) {
      assert labels[k] == k;
    }
  }

  /** A leaf among the leaves of a subtree whose leaves all come from the
      rows holds its row's point. */
  lemma LeafInLeaves(leaf: Node, node: Node, X: Matrix, S: seq<bool>, N: seq<int>)
    requires leaf in Leaves(node) && LeavesFrom(node, X, S, N)
    ensures LeafFrom(leaf, X, S, N)
  {
    var j :| 0 <= j < |Leaves(node)| && Leaves(node)[j] == leaf;
  }

  /** Two input rows 0 and 1 folded into one unique row 0: the registration
      as written files the leaf under the first label only, the corrected one
      under both. */
  lemma RegisterFirstOnly(leaf: Node)
    requires leaf.Leaf? && leaf.i == 0
    ensures Register(map[], Some([0, 0]), [0, 1], leaf) == Ok(map[0 := leaf])
    ensures RegisterAll(map[], Some([0, 0]), [0, 1], leaf).Ok?
    ensures RegisterAll(map[], Some([0, 0]), [0, 1], leaf).value.Keys == {0, 1}
  {
    var I: Option<seq<int>> := Some([0, 0]);
    var labels := [0, 1];
    assert IndicesOfValue([0, 0], 0)[0] == 0;
    assert RegisterKey(I, labels, 0) == Some(0);
    assert Owner(I, 0) == 0 && Owner(I, 1) == 0;
    assert LabelsOfRow(I, labels, 0) == {0, 1} by {
      assert labels[0] == 0 && labels[1] == 1;
    }
  }
}
