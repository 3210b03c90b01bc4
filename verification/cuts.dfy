/** One random cut: `choose`, `uniform` and `_cut` of rrcf.go.

    The random source is a sequence of draws, each in [0, 1) as
    `rand.Float64` promises, consumed from the front: `choose` takes one per
    dimension, then `uniform` takes one. */
module Cuts {
  import opened Base
  import opened Vectors
  import opened Matrices
  import opened Nodes

  /** Draws as the random source produces them. */
  ghost predicate ValidDraws(draws: seq<real>)
  {
    forall k :: 0 <= k < |draws| ==> 0.0 <= draws[k] < 1.0
  }

  /** The state (index, max) of choose's loop after the products in `v`:
      the running maximum starts at 0 and a product replaces it only when it
      is strictly larger. */
  function Pick(v: seq<real>): (state: (nat, real))
    ensures state.1 >= 0.0
    ensures forall k :: 0 <= k < |v| ==> v[k] <= state.1
    ensures state.1 > 0.0 ==> state.0 < |v| && v[state.0] == state.1
    ensures state.1 > 0.0 ==> forall k :: 0 <= k < state.0 ==> v[k] < state.1
    ensures state.1 == 0.0 ==> state.0 == 0
  {
    if |v| == 0 then (0, 0.0)
    else
      var (index, max) := Pick(v[..|v| - 1]);
      if v[|v| - 1] > max then (|v| - 1, v[|v| - 1]) else (index, max)
  }

  /** The products draw * probability that choose compares. */
  function Products(draws: seq<real>, probabilities: seq<real>): (v: seq<real>)
    requires |draws| >= |probabilities|
    ensures |v| == |probabilities|
    ensures forall k :: 0 <= k < |v| ==> v[k] == draws[k] * probabilities[k]
  {
    seq(|probabilities|, k requires 0 <= k < |probabilities| => draws[k] * probabilities[k])
  }

  /** choose: one draw per probability; the result is the first index whose
      product is the largest, provided that product is positive, and 0 when
      no product is positive. */
  function Choose(draws: seq<real>, probabilities: seq<real>): (res: Result<(nat, seq<real>)>)
    ensures res.Ok? <==> |draws| >= |probabilities|
    ensures res.Err? ==> res.error == OutOfDraws
    ensures res.Ok? ==> res.value.1 == draws[|probabilities|..]
    ensures res.Ok? && |probabilities| > 0 ==> res.value.0 < |probabilities|
    ensures res.Ok? ==>
      var v := Products(draws, probabilities);
      var index := res.value.0;
      && ((forall k :: 0 <= k < |v| ==> v[k] <= 0.0) ==> index == 0)
      && ((exists k :: 0 <= k < |v| && v[k] > 0.0) ==>
            && index < |v|
            && (forall k :: 0 <= k < |v| ==> v[k] <= v[index])
            && (forall k :: 0 <= k < index ==> v[k] < v[index]))
  {
    if |draws| < |probabilities| then Err(OutOfDraws)
    else Ok((Pick(Products(draws, probabilities)).0, draws[|probabilities|..]))
  }

  /** A positive winning product needs a positive probability. */
  lemma ChoosePositive(draws: seq<real>, probabilities: seq<real>)
    requires ValidDraws(draws) && Choose(draws, probabilities).Ok?
    requires exists k :: 0 <= k < |probabilities| && draws[k] * probabilities[k] > 0.0
    ensures probabilities[Choose(draws, probabilities).value.0] > 0.0
  {
    var index := Choose(draws, probabilities).value.0;
    var v := Products(draws, probabilities);
    assert v[index] > 0.0 && draws[index] >= 0.0;
    NonPositiveProduct(draws[index], probabilities[index]);
  }

  lemma NonPositiveProduct(a: real, b: real)
    ensures a >= 0.0 && b <= 0.0 ==> a * b <= 0.0
  {
  }

  /** uniform: a value in [from, to) for a draw in [0, 1). */
  function Uniform(draw: real, from: real, to: real): (v: real)
    ensures 0.0 <= draw < 1.0 && from < to ==> from <= v < to
    ensures from == to ==> v == from
  {
    Scale(draw, to - from) + from
  }

  /** A draw in [0, 1) scales a positive width into [0, width). */
  function Scale(draw: real, width: real): (scaled: real)
    ensures 0.0 <= draw < 1.0 && width > 0.0 ==> 0.0 <= scaled < width
    ensures width == 0.0 ==> scaled == 0.0
  {
    ProductSigns(draw, width);
    ProductSigns(1.0 - draw, width);
    assert (1.0 - draw) * width == width - draw * width;
    draw * width
  }

  lemma ProductSigns(a: real, b: real)
    ensures a > 0.0 && b > 0.0 ==> a * b > 0.0
    ensures a >= 0.0 && b >= 0.0 ==> a * b >= 0.0
    ensures b == 0.0 ==> a * b == 0.0
  {
  }

  /** What _cut returns, plus the draws it left unused. */
  datatype CutResult = CutResult(s1: seq<bool>, s2: seq<bool>, q: nat, p: real,
                                 branch: Node, rest: seq<real>)

  /** The rows selected by `mask` do not all agree in coordinate `c`. */
  ghost predicate Spread(X: Matrix, mask: seq<bool>, c: nat)
    requires |mask| >= |X.data| && Rectangular(X.data, X.cols) && c < X.cols
  {
    exists j, k :: 0 <= j < |X.data| && 0 <= k < |X.data| && mask[j] && mask[k]
                   && X.data[j][c] != X.data[k][c]
  }

  /** _cut: the ranges of the selected rows, normalised by their sum, weight
      the choice of dimension q; the cut value p is uniform in q's range;
      S1 is the selected rows with coordinate q at most p, and S2 the other
      selected rows. The new branch records q, p and its parent.
      No selected row: Max reads Data[0] of an empty matrix. All ranges zero:
      Go divides 0 by 0, so this is an error here. */
  function Cut(X: Matrix, S: seq<bool>, draws: seq<real>, at: seq<Side>): (res: Result<CutResult>)
    requires Rectangular(X.data, X.cols) && |S| >= |X.data|
    ensures Sum(S[..|X.data|]) == 0 ==> res == Err(EmptySubset)
    ensures res.Ok? ==>
      var c := res.value;
      && |c.s1| == |X.data| && |c.s2| == |X.data|
      && c.q < X.cols
      && (forall k :: 0 <= k < |X.data| ==> (c.s1[k] <==> S[k] && X.data[k][c.q] <= c.p))
      && (forall k :: 0 <= k < |X.data| ==> (c.s2[k] <==> S[k] && !c.s1[k]))
      && |draws| > X.cols && c.rest == draws[X.cols + 1..]
      && c.branch == Branch(c.q, c.p, None, None, ParentOf(at), 0, ZeroBox)
  {
    var sub := Include(X, S);
    if |sub.data| == 0 then Err(EmptySubset)
    else
      var ranges := Ranges(X, S);
      var total := FloatSum(ranges);
      if total == 0.0 then Err(DegenerateSubset)
      else
        var probabilities := DivideBy(ranges, total);
        match Choose(draws, probabilities)
        case Err(e) => Err(e)
        case Ok((q, rest)) =>
          if |rest| == 0 then Err(OutOfDraws)
          else
            var p := Uniform(rest[0], Min(sub)[q], Max(sub)[q]);
            var (s1, s2) := Split(X, S, q, p);
            Ok(CutResult(s1, s2, q, p, Branch(q, p, None, None, ParentOf(at), 0, ZeroBox), rest[1..]))
  }

  /** The per-dimension range xmax - xmin of the selected rows. */
  function Ranges(X: Matrix, S: seq<bool>): (ranges: seq<real>)
    requires Rectangular(X.data, X.cols) && |S| >= |X.data| && Sum(S[..|X.data|]) > 0
    ensures |ranges| == X.cols
    ensures forall k :: 0 <= k < X.cols ==> ranges[k] + Min(Include(X, S))[k] == Max(Include(X, S))[k]
    ensures forall k :: 0 <= k < X.cols ==> ranges[k] >= 0.0
  {
    var sub := Include(X, S);
    MinLeMax(sub);
    Subtract(Max(sub), Min(sub))
  }

  /** A range is positive exactly where the selected rows spread. */
  lemma RangesSpread(X: Matrix, S: seq<bool>)
    requires Rectangular(X.data, X.cols) && |S| >= |X.data| && Sum(S[..|X.data|]) > 0
    ensures forall k :: 0 <= k < X.cols ==> (Ranges(X, S)[k] > 0.0 <==> Spread(X, S, k))
  {
    forall k | 0 <= k < X.cols
      ensures Ranges(X, S)[k] > 0.0 <==> Spread(X, S, k)
    {
      SpreadIffRange(X, S, k);
    }
  }

  /** S1 is the selected rows whose coordinate q is at most p; S2 is the
      other selected rows. */
  function Split(X: Matrix, S: seq<bool>, q: nat, p: real): (parts: (seq<bool>, seq<bool>))
    requires Rectangular(X.data, X.cols) && |S| >= |X.data| && q < X.cols
    ensures |parts.0| == |X.data| && |parts.1| == |X.data|
    ensures forall k :: 0 <= k < |X.data| ==> (parts.0[k] <==> S[k] && X.data[k][q] <= p)
    ensures forall k :: 0 <= k < |X.data| ==> (parts.1[k] <==> S[k] && !parts.0[k])
  {
    var s1 := And(FloatWhere(Column(X, q), v => v <= p), S);
    (s1, And(Not(s1), S))
  }

  // ------------------------------------------------------------ properties

  lemma SumPositive(a: seq<bool>, k: nat)
    requires k < |a| && a[k]
    ensures Sum(a) >= 1
  {
  }

  /** A selected row of X is a row of the included matrix. */
  lemma SelectedRow(X: Matrix, S: seq<bool>, i: nat) returns (j: nat)
    requires |S| >= |X.data| && i < |X.data| && S[i]
    ensures j < |Include(X, S).data| && Include(X, S).data[j] == X.data[i]
  {
    var idx := IndicesWhere(S[..|X.data|]);
    IndicesWherePositions(S[..|X.data|]);
    assert S[..|X.data|][i];
    j :| 0 <= j < |idx| && idx[j] == i;
  }

  /** Max and Min of the selected rows bound every selected row of X. */
  lemma SelectedWithin(X: Matrix, S: seq<bool>, i: nat, c: nat)
    requires Rectangular(X.data, X.cols) && |S| >= |X.data| && Sum(S[..|X.data|]) > 0
    requires i < |X.data| && S[i] && c < X.cols
    ensures Min(Include(X, S))[c] <= X.data[i][c] <= Max(Include(X, S))[c]
  {
    var j := SelectedRow(X, S, i);
  }

  /** Each of Max and Min, in each dimension, is some selected row's value. */
  lemma SelectedExtremes(X: Matrix, S: seq<bool>, c: nat) returns (lo: nat, hi: nat)
    requires Rectangular(X.data, X.cols) && |S| >= |X.data| && Sum(S[..|X.data|]) > 0
    requires c < X.cols
    ensures lo < |X.data| && S[lo] && X.data[lo][c] == Min(Include(X, S))[c]
    ensures hi < |X.data| && S[hi] && X.data[hi][c] == Max(Include(X, S))[c]
  {
    var sub := Include(X, S);
    var idx := IndicesWhere(S[..|X.data|]);
    var k :| 0 <= k < |sub.data| && sub.data[k][c] == Min(sub)[c];
    var j :| 0 <= j < |sub.data| && sub.data[j][c] == Max(sub)[c];
    lo, hi := idx[k], idx[j];
    assert S[..|X.data|][lo] && S[..|X.data|][hi];
  }

  /** A dimension has spread over the selected rows exactly when their Max
      and Min differ in it. */
  lemma SpreadIffRange(X: Matrix, S: seq<bool>, c: nat)
    requires Rectangular(X.data, X.cols) && |S| >= |X.data| && Sum(S[..|X.data|]) > 0
    requires c < X.cols
    ensures Spread(X, S, c) <==> Min(Include(X, S))[c] < Max(Include(X, S))[c]
  {
    var lo, hi := SelectedExtremes(X, S, c);
    if Spread(X, S, c) {
      var j, k :| 0 <= j < |X.data| && 0 <= k < |X.data| && S[j] && S[k]
                  && X.data[j][c] != X.data[k][c];
      SelectedWithin(X, S, j, c);
      SelectedWithin(X, S, k, c);
    }
    if Min(Include(X, S))[c] < Max(Include(X, S))[c] {
      assert X.data[lo][c] != X.data[hi][c];
    }
  }

  /** Under valid draws the cut value lies in the chosen dimension's range:
      at its minimum when the range is empty, and strictly below its maximum
      otherwise. */
  lemma CutValueInRange(X: Matrix, S: seq<bool>, draws: seq<real>, at: seq<Side>)
    requires Rectangular(X.data, X.cols) && |S| >= |X.data|
    requires ValidDraws(draws) && Cut(X, S, draws, at).Ok?
    ensures Sum(S[..|X.data|]) > 0
    ensures
      var c := Cut(X, S, draws, at).value;
      var xmax := Max(Include(X, S));
      var xmin := Min(Include(X, S));
      && xmin[c.q] <= c.p
      && (xmin[c.q] < xmax[c.q] ==> c.p < xmax[c.q])
      && (xmin[c.q] == xmax[c.q] ==> c.p == xmin[c.q])
  {
    var ranges := Ranges(X, S);
    var probabilities := DivideBy(ranges, FloatSum(ranges));
    var rest := Choose(draws, probabilities).value.1;
    assert rest[0] == draws[X.cols];
  }

  /** The cut partitions the selected rows between S1 and S2. */
  lemma CutPartitions(X: Matrix, S: seq<bool>, draws: seq<real>, at: seq<Side>)
    requires Rectangular(X.data, X.cols) && |S| >= |X.data|
    requires Cut(X, S, draws, at).Ok?
    ensures
      var c := Cut(X, S, draws, at).value;
      && Partition(S[..|X.data|], c.s1, c.s2)
      && Sum(c.s1) + Sum(c.s2) == Sum(S[..|X.data|])
  {
    var c := Cut(X, S, draws, at).value;
    PartitionSum(S[..|X.data|], c.s1, c.s2);
  }

  /** Under valid draws S1 is never empty: the selected row at the minimum
      of dimension q lies at or below the cut. */
  lemma CutLeftNonEmpty(X: Matrix, S: seq<bool>, draws: seq<real>, at: seq<Side>)
    requires Rectangular(X.data, X.cols) && |S| >= |X.data|
    requires ValidDraws(draws) && Cut(X, S, draws, at).Ok?
    ensures Sum(Cut(X, S, draws, at).value.s1) >= 1
  {
    var c := Cut(X, S, draws, at).value;
    CutValueInRange(X, S, draws, at);
    var lo, hi := SelectedExtremes(X, S, c.q);
    SumPositive(c.s1, lo);
  }

  /** Under valid draws S2 is non-empty when the selected rows spread in the
      chosen dimension: the row at its maximum lies above the cut. */
  lemma CutRightNonEmpty(X: Matrix, S: seq<bool>, draws: seq<real>, at: seq<Side>)
    requires Rectangular(X.data, X.cols) && |S| >= |X.data|
    requires ValidDraws(draws) && Cut(X, S, draws, at).Ok?
    requires Spread(X, S, Cut(X, S, draws, at).value.q)
    ensures Sum(Cut(X, S, draws, at).value.s2) >= 1
  {
    var c := Cut(X, S, draws, at).value;
    CutValueInRange(X, S, draws, at);
    SpreadIffRange(X, S, c.q);
    var lo, hi := SelectedExtremes(X, S, c.q);
    var xmax := Max(Include(X, S));
    assert c.p < xmax[c.q];
    assert !c.s1[hi];
    SumPositive(c.s2, hi);
  }

  lemma QuotientSigns(a: real, b: real)
    ensures a * b > 0.0 && b > 0.0 ==> a > 0.0
    ensures a * b == 0.0 && b != 0.0 ==> a == 0.0
  {
  }

  /** What an accepted cut chose from: the selected rows' ranges have a
      positive total, and choose ran on the normalised ranges. */
  lemma CutChoice(X: Matrix, S: seq<bool>, draws: seq<real>, at: seq<Side>)
    requires Rectangular(X.data, X.cols) && |S| >= |X.data|
    requires Cut(X, S, draws, at).Ok?
    ensures Sum(S[..|X.data|]) > 0
    ensures FloatSum(Ranges(X, S)) > 0.0
    ensures Choose(draws, DivideBy(Ranges(X, S), FloatSum(Ranges(X, S))))
            == Ok((Cut(X, S, draws, at).value.q, draws[X.cols..]))
  {
    FloatSumZero(Ranges(X, S));
  }

  /** When the chosen dimension has no spread, the cut separates nothing: S1
      is every selected row and S2 is empty. */
  lemma CutStalls(X: Matrix, S: seq<bool>, draws: seq<real>, at: seq<Side>)
    requires Rectangular(X.data, X.cols) && |S| >= |X.data|
    requires ValidDraws(draws) && Cut(X, S, draws, at).Ok?
    requires !Spread(X, S, Cut(X, S, draws, at).value.q)
    ensures Cut(X, S, draws, at).value.s1 == S[..|X.data|]
    ensures Sum(Cut(X, S, draws, at).value.s2) == 0
  {
    var c := Cut(X, S, draws, at).value;
    CutValueInRange(X, S, draws, at);
    SpreadIffRange(X, S, c.q);
    AllWithin(X, S, c.q, c.p);
    StallSplit(X, S, c.s1, c.s2, c.q, c.p);
  }

  /** A split at a value no selected row exceeds keeps every selected row
      on the left. */
  lemma StallSplit(X: Matrix, S: seq<bool>, s1: seq<bool>, s2: seq<bool>, q: nat, p: real)
    requires Rectangular(X.data, X.cols) && |S| >= |X.data| && q < X.cols
    requires |s1| == |X.data| && |s2| == |X.data|
    requires forall k :: 0 <= k < |X.data| ==> (s1[k] <==> S[k] && X.data[k][q] <= p)
    requires forall k :: 0 <= k < |X.data| ==> (s2[k] <==> S[k] && !s1[k])
    requires forall i :: 0 <= i < |X.data| && S[i] ==> X.data[i][q] <= p
    ensures s1 == S[..|X.data|] && Sum(s2) == 0
  {
  }

  /** Every selected row lies at or below a value at or above their Max. */
  lemma AllWithin(X: Matrix, S: seq<bool>, c: nat, p: real)
    requires Rectangular(X.data, X.cols) && |S| >= |X.data| && Sum(S[..|X.data|]) > 0
    requires c < X.cols && Max(Include(X, S))[c] <= p
    ensures forall i :: 0 <= i < |X.data| && S[i] ==> X.data[i][c] <= p
  {
    forall i | 0 <= i < |X.data| && S[i] ensures X.data[i][c] <= p {
      SelectedWithin(X, S, i, c);
    }
  }

  /** Under valid draws the chosen dimension lacks spread only when every
      dimension with spread drew exactly 0. */
  lemma CutStallsOnZeroDraws(X: Matrix, S: seq<bool>, draws: seq<real>, at: seq<Side>)
    requires Rectangular(X.data, X.cols) && |S| >= |X.data|
    requires ValidDraws(draws) && Cut(X, S, draws, at).Ok?
    requires !Spread(X, S, Cut(X, S, draws, at).value.q)
    ensures forall k :: 0 <= k < X.cols && Spread(X, S, k) ==> draws[k] == 0.0
  {
    CutChoice(X, S, draws, at);
    StallDraws(X, S, draws, Cut(X, S, draws, at).value.q);
  }

  /** The draws behind a choice of a dimension without spread. */
  lemma StallDraws(X: Matrix, S: seq<bool>, draws: seq<real>, q: nat)
    requires Rectangular(X.data, X.cols) && |S| >= |X.data| && Sum(S[..|X.data|]) > 0
    requires ValidDraws(draws) && FloatSum(Ranges(X, S)) > 0.0
    requires Choose(draws, DivideBy(Ranges(X, S), FloatSum(Ranges(X, S)))).Ok?
    requires Choose(draws, DivideBy(Ranges(X, S), FloatSum(Ranges(X, S)))).value.0 == q
    requires q < X.cols && !Spread(X, S, q)
    ensures forall k :: 0 <= k < X.cols && Spread(X, S, k) ==> draws[k] == 0.0
  {
    var ranges := Ranges(X, S);
    var probabilities := DivideBy(ranges, FloatSum(ranges));
    RangesSpread(X, S);
    DivideSigns(ranges, FloatSum(ranges));
    assert probabilities[q] == 0.0;
    ChoiceOfZero(draws, probabilities, q);
    forall k | 0 <= k < X.cols && Spread(X, S, k) ensures draws[k] == 0.0 {
      assert probabilities[k] > 0.0;
    }
  }

  /** Dividing by a positive total keeps each entry's sign. */
  lemma DivideSigns(v: seq<real>, total: real)
    requires total > 0.0
    ensures forall k :: 0 <= k < |v| ==> (DivideBy(v, total)[k] > 0.0 <==> v[k] > 0.0)
    ensures forall k :: 0 <= k < |v| ==> (DivideBy(v, total)[k] == 0.0 <==> v[k] == 0.0)
  {
    forall k | 0 <= k < |v|
      ensures DivideBy(v, total)[k] > 0.0 <==> v[k] > 0.0
      ensures DivideBy(v, total)[k] == 0.0 <==> v[k] == 0.0
    {
      QuotientSigns(DivideBy(v, total)[k], total);
      ProductSigns(DivideBy(v, total)[k], total);
    }
  }

  /** choose lands on a zero probability only when every positive
      probability met a zero draw. */
  lemma ChoiceOfZero(draws: seq<real>, probabilities: seq<real>, index: nat)
    requires ValidDraws(draws) && Choose(draws, probabilities).Ok?
    requires Choose(draws, probabilities).value.0 == index
    requires index < |probabilities| && probabilities[index] == 0.0
    ensures forall k :: 0 <= k < |probabilities| && probabilities[k] > 0.0 ==> draws[k] == 0.0
  {
    var v := Products(draws, probabilities);
    ProductSigns(draws[index], 0.0);
    assert v[index] == 0.0;
    forall k | 0 <= k < |probabilities| && probabilities[k] > 0.0
      ensures draws[k] == 0.0
    {
      ProductSigns(draws[k], probabilities[k]);
    }
  }

  /** _cut finds no dimension to cut exactly when some row is selected and
      no dimension has spread over the selected rows (all of them are equal,
      or there are no dimensions). */
  lemma CutDegenerate(X: Matrix, S: seq<bool>, draws: seq<real>, at: seq<Side>)
    requires Rectangular(X.data, X.cols) && |S| >= |X.data|
    ensures Cut(X, S, draws, at) == Err(DegenerateSubset) <==>
              Sum(S[..|X.data|]) > 0 && forall c :: 0 <= c < X.cols ==> !Spread(X, S, c)
  {
    if Sum(S[..|X.data|]) > 0 {
      CutDegenerateTotal(X, S, draws, at);
      FloatSumZero(Ranges(X, S));
      RangesSpread(X, S);
    }
  }

  lemma CutDegenerateTotal(X: Matrix, S: seq<bool>, draws: seq<real>, at: seq<Side>)
    requires Rectangular(X.data, X.cols) && |S| >= |X.data| && Sum(S[..|X.data|]) > 0
    ensures Cut(X, S, draws, at) == Err(DegenerateSubset) <==> FloatSum(Ranges(X, S)) == 0.0
  {
  }
}
