/** `Matrix` of rrcf.go: the point set as a list of rows plus a declared
    column count, and the operations the tree build uses on it. */
module Matrices {
  import opened Base
  import opened Vectors

  type Row = seq<real>

  /** Data holds the rows; cols is the width the matrix was created with. */
  datatype Matrix = Matrix(data: seq<Row>, cols: nat)

  /** Every row has exactly `width` coordinates. */
  ghost predicate Rectangular(rows: seq<Row>, width: nat)
  {
    forall k :: 0 <= k < |rows| ==> |rows[k]| == width
  }

  /** No two rows are equal. */
  ghost predicate Distinct(rows: seq<Row>)
  {
    forall j, k :: 0 <= j < k < |rows| ==> rows[j] != rows[k]
  }

  /** Matrix.Column: coordinate `q` of every row. */
  function Column(m: Matrix, q: nat): (col: seq<real>)
    requires forall k :: 0 <= k < |m.data| ==> q < |m.data[k]|
    ensures |col| == |m.data|
    ensures forall k :: 0 <= k < |col| ==> col[k] == m.data[k][q]
  {
    seq(|m.data|, k requires 0 <= k < |m.data| => m.data[k][q])
  }

  /** A row copied into a fresh slice of `width` zeros. */
  function Pad(row: Row, width: nat): (padded: Row)
    requires |row| <= width
    ensures |padded| == width && padded[..|row|] == row
    ensures forall j :: |row| <= j < width ==> padded[j] == 0.0
  {
    seq(width, j requires 0 <= j < width => if j < |row| then row[j] else 0.0)
  }

  /** Matrix.Round with the decimal rounding taken as the identity: every
      output row is a fresh slice of `cols` zeros into which the input row is
      copied, so a shorter row is zero-padded and a longer one writes past
      the end. */
  function Round(m: Matrix): (res: Result<Matrix>)
    ensures res.Ok? <==> forall k :: 0 <= k < |m.data| ==> |m.data[k]| <= m.cols
    ensures res.Err? ==> res.error == RowTooLong
    ensures res.Ok? ==> res.value.cols == m.cols && |res.value.data| == |m.data|
    ensures res.Ok? ==> Rectangular(res.value.data, m.cols)
    ensures res.Ok? ==> forall k :: 0 <= k < |m.data| ==> res.value.data[k][..|m.data[k]|] == m.data[k]
  {
    if exists k :: 0 <= k < |m.data| && |m.data[k]| > m.cols then Err(RowTooLong)
    else Ok(Matrix(seq(|m.data|, k requires 0 <= k < |m.data| => Pad(m.data[k], m.cols)), m.cols))
  }

  /** Matrix.RowEqual, with the tolerance test replaced by exact equality. */
  function RowEqual(m: Matrix, i: nat, other: Row): (equal: bool)
    requires i < |m.data|
    ensures equal <==> m.data[i] == other
    ensures |m.data[i]| != |other| ==> !equal
  {
    var r := m.data[i];
    |r| == |other| && forall k :: 0 <= k < |r| ==> r[k] == other[k]
  }

  /** The scan of Matrix.IndexOf from row `start` on. */
  function IndexFrom(m: Matrix, row: Row, start: nat): (index: int)
    requires start <= |m.data|
    decreases |m.data| - start
    ensures index == -1 || start <= index < |m.data|
    ensures index == -1 <==> forall k :: start <= k < |m.data| ==> m.data[k] != row
    ensures index >= 0 ==> m.data[index] == row
    ensures index >= 0 ==> forall k :: start <= k < index ==> m.data[k] != row
  {
    if start == |m.data| then -1
    else if RowEqual(m, start, row) then start
    else IndexFrom(m, row, start + 1)
  }

  /** Matrix.IndexOf: the first row equal to `row`, or -1 when there is none. */
  function IndexOf(m: Matrix, row: Row): (index: int)
    ensures -1 <= index < |m.data|
    ensures index == -1 <==> row !in m.data
    ensures index >= 0 ==> m.data[index] == row && row !in m.data[..index]
  {
    IndexFrom(m, row, 0)
  }

  /** What Matrix.Unique returns. */
  datatype Uniques = Uniques(unique: Matrix, inverse: seq<nat>, counts: seq<int>)

  /** Matrix.Unique as written. `counts` is never allocated, so the first
      repeated row reaches `counts[index]++` on a nil slice and fails; without
      a repeat every row is new, the unique matrix is the input itself, the
      inverse is the identity and counts stays nil. */
  function Unique(m: Matrix): (res: Result<Uniques>)
    ensures res.Ok? <==> Distinct(m.data)
    ensures res.Err? ==> res.error == NilCounts
    ensures res.Ok? ==> res.value == Uniques(m, Iota(|m.data|), [])
  {
    UniqueScan(m.data, m.cols)
  }

  /** The loop of Matrix.Unique after the rows in `rows`. */
  function UniqueScan(rows: seq<Row>, cols: nat): (res: Result<Uniques>)
    ensures res.Ok? <==> Distinct(rows)
    ensures res.Err? ==> res.error == NilCounts
    ensures res.Ok? ==> res.value == Uniques(Matrix(rows, cols), Iota(|rows|), [])
  {
    if |rows| == 0 then Ok(Uniques(Matrix([], cols), [], []))
    else
      var n := |rows| - 1;
      match UniqueScan(rows[..n], cols)
      case Err(e) => Err(e)
      case Ok(acc) =>
        var index := IndexOf(acc.unique, rows[n]);
        if index == -1 then
          assert rows == rows[..n] + [rows[n]];
          Ok(Uniques(Matrix(acc.unique.data + [rows[n]], cols),
                     acc.inverse + [|acc.unique.data|], acc.counts))
        else
          Err(NilCounts)
  }

  /** Matrix.Unique with `counts` allocated as evidently intended: a new row
      starts its count at 1 and a repeated row increments its count. */
  function UniqueCounted(m: Matrix): (u: Uniques)
    ensures u.unique.cols == m.cols
    ensures Distinct(u.unique.data)
    ensures InverseMaps(m.data, u)
    ensures CountsMatch(u)
    ensures IntSum(u.counts) == |m.data|
    ensures FirstSeenOrder(u.inverse)
  {
    var u := UniqueCountedScan(m.data, m.cols);
    UniqueCountedScanInvariant(m.data, m.cols);
    InverseDistinct(m.data, u);
    u
  }

  /** Each input row has an inverse entry naming a unique row equal to it. */
  ghost predicate InverseMaps(rows: seq<Row>, u: Uniques)
  {
    && |u.inverse| == |rows|
    && forall k :: 0 <= k < |rows| ==>
         u.inverse[k] < |u.unique.data| && u.unique.data[u.inverse[k]] == rows[k]
  }

  /** Each unique row's count is the number of input rows mapped to it. */
  ghost predicate CountsMatch(u: Uniques)
  {
    && |u.counts| == |u.unique.data|
    && forall j :: 0 <= j < |u.counts| ==> u.counts[j] == multiset(u.inverse)[j] >= 1
  }

  /** Unique rows are numbered in the order of their first occurrence: when
      a row is mapped to unique row j, every unique row before j has already
      been used by an earlier row. */
  ghost predicate FirstSeenOrder(inverse: seq<nat>)
  {
    forall k, j :: 0 <= k < |inverse| && 0 <= j < inverse[k] ==> j in inverse[..k]
  }

  /** What the corrected loop guarantees after the rows in `rows`. */
  ghost predicate CountedUniques(rows: seq<Row>, cols: nat, u: Uniques)
  {
    && u.unique.cols == cols
    && (forall j :: 0 <= j < |u.unique.data| ==> u.unique.data[j] !in u.unique.data[..j])
    && InverseMaps(rows, u)
    && CountsMatch(u)
    && IntSum(u.counts) == |rows|
    && FirstSeenOrder(u.inverse)
  }

  /** The corrected loop after the rows in `rows`. */
  function UniqueCountedScan(rows: seq<Row>, cols: nat): (u: Uniques)
    ensures |u.counts| == |u.unique.data|
  {
    if |rows| == 0 then Uniques(Matrix([], cols), [], [])
    else
      var n := |rows| - 1;
      var acc := UniqueCountedScan(rows[..n], cols);
      var index := IndexOf(acc.unique, rows[n]);
      if index == -1 then
        Uniques(Matrix(acc.unique.data + [rows[n]], cols),
                acc.inverse + [|acc.unique.data|], acc.counts + [1])
      else
        Uniques(acc.unique, acc.inverse + [index], acc.counts[index := acc.counts[index] + 1])
  }

  lemma {:induction false} UniqueCountedScanInvariant(rows: seq<Row>, cols: nat)
    ensures CountedUniques(rows, cols, UniqueCountedScan(rows, cols))
  {
    if |rows| > 0 {
      var n := |rows| - 1;
      UniqueCountedScanInvariant(rows[..n], cols);
      var acc := UniqueCountedScan(rows[..n], cols);
      var index := IndexOf(acc.unique, rows[n]);
      if index == -1 {
        NewRowStep(rows, cols, acc, UniqueCountedScan(rows, cols));
      } else {
        RepeatedRowStep(rows, cols, acc, index, UniqueCountedScan(rows, cols));
      }
    }
  }

  lemma InverseDistinct(rows: seq<Row>, u: Uniques)
    requires forall j :: 0 <= j < |u.unique.data| ==> u.unique.data[j] !in u.unique.data[..j]
    ensures Distinct(u.unique.data)
  {
    forall j, k | 0 <= j < k < |u.unique.data|
      ensures u.unique.data[j] != u.unique.data[k]
    {
      assert u.unique.data[..k][j] == u.unique.data[j];
    }
  }

  lemma InverseSnoc(rows: seq<Row>, acc: Uniques, index: nat, u: Uniques)
    requires |rows| > 0 && InverseMaps(rows[..|rows| - 1], acc)
    requires u.inverse == acc.inverse + [index]
    requires |acc.unique.data| <= |u.unique.data|
    requires forall j :: 0 <= j < |acc.unique.data| ==> u.unique.data[j] == acc.unique.data[j]
    requires index < |u.unique.data| && u.unique.data[index] == rows[|rows| - 1]
    ensures InverseMaps(rows, u)
  {
    var n := |rows| - 1;
    forall k | 0 <= k < |rows|
      ensures u.inverse[k] < |u.unique.data| && u.unique.data[u.inverse[k]] == rows[k]
    {
      if k < n {
        assert u.inverse[k] == acc.inverse[k] && rows[k] == rows[..n][k];
      }
    }
  }

  /** Appending an index all of whose predecessors are in use keeps the
      first-seen order. */
  lemma OrderSnoc(acc: Uniques, index: nat, u: Uniques)
    requires FirstSeenOrder(acc.inverse) && CountsMatch(acc)
    requires index <= |acc.unique.data|
    requires u.inverse == acc.inverse + [index]
    ensures FirstSeenOrder(u.inverse)
  {
    forall k, j | 0 <= k < |u.inverse| && 0 <= j < u.inverse[k]
      ensures j in u.inverse[..k]
    {
      if k < |acc.inverse| {
        assert u.inverse[..k] == acc.inverse[..k];
      } else {
        assert acc.counts[j] >= 1;
        assert j in multiset(acc.inverse);
        assert u.inverse[..k] == acc.inverse;
      }
    }
  }

  lemma CountsIncrement(acc: Uniques, index: nat, u: Uniques)
    requires CountsMatch(acc) && index < |acc.counts|
    requires u == Uniques(acc.unique, acc.inverse + [index], acc.counts[index := acc.counts[index] + 1])
    ensures CountsMatch(u)
  {
    forall j | 0 <= j < |u.counts|
      ensures u.counts[j] == multiset(u.inverse)[j] >= 1
    {
      assert multiset(u.inverse) == multiset(acc.inverse) + multiset{index as nat};
    }
  }

  lemma CountsNew(acc: Uniques, u: Uniques)
    requires CountsMatch(acc)
    requires forall k :: 0 <= k < |acc.inverse| ==> acc.inverse[k] < |acc.unique.data|
    requires |u.unique.data| == |acc.unique.data| + 1
    requires u.inverse == acc.inverse + [|acc.unique.data|] && u.counts == acc.counts + [1]
    ensures CountsMatch(u)
  {
    var m := |acc.unique.data|;
    forall j | 0 <= j < |u.counts|
      ensures u.counts[j] == multiset(u.inverse)[j] >= 1
    {
      assert multiset(u.inverse) == multiset(acc.inverse) + multiset{m as nat};
      if j == m {
        assert m !in multiset(acc.inverse);
      }
    }
  }

  lemma NewRowStep(rows: seq<Row>, cols: nat, acc: Uniques, u: Uniques)
    requires |rows| > 0 && CountedUniques(rows[..|rows| - 1], cols, acc)
    requires rows[|rows| - 1] !in acc.unique.data
    requires u == Uniques(Matrix(acc.unique.data + [rows[|rows| - 1]], cols),
                          acc.inverse + [|acc.unique.data|], acc.counts + [1])
    ensures CountedUniques(rows, cols, u)
  {
    var prior := acc.unique.data;
    assert forall j :: 0 <= j < |u.unique.data| ==> u.unique.data[j] !in u.unique.data[..j] by {
      assert u.unique.data[..|prior|] == prior;
      forall j | 0 <= j < |prior| ensures u.unique.data[..j] == prior[..j] {
      }
    }
    assert InverseMaps(rows, u) by {
      InverseSnoc(rows, acc, |prior|, u);
    }
    assert CountsMatch(u) by {
      CountsNew(acc, u);
    }
    assert IntSum(u.counts) == |rows| by {
      assert u.counts[..|acc.counts|] == acc.counts;
    }
    assert FirstSeenOrder(u.inverse) by {
      OrderSnoc(acc, |prior|, u);
    }
  }

  lemma RepeatedRowStep(rows: seq<Row>, cols: nat, acc: Uniques, index: nat, u: Uniques)
    requires |rows| > 0 && CountedUniques(rows[..|rows| - 1], cols, acc)
    requires index < |acc.unique.data| && acc.unique.data[index] == rows[|rows| - 1]
    requires u == Uniques(acc.unique, acc.inverse + [index], acc.counts[index := acc.counts[index] + 1])
    ensures CountedUniques(rows, cols, u)
  {
    assert IntSum(u.counts) == |rows| by {
      IntSumIncrement(acc.counts, index);
    }
    assert InverseMaps(rows, u) by {
      InverseSnoc(rows, acc, index, u);
    }
    assert CountsMatch(u) by {
      CountsIncrement(acc, index, u);
    }
    assert FirstSeenOrder(u.inverse) by {
      OrderSnoc(acc, index, u);
    }
  }

  /** Matrix.Include on a mask exactly as long as the rows. */
  function IncludeRows(rows: seq<Row>, mask: seq<bool>): (kept: seq<Row>)
    requires |mask| == |rows|
    ensures |kept| == Sum(mask)
    ensures forall j :: 0 <= j < |kept| ==> kept[j] == rows[IndicesWhere(mask)[j]]
  {
    if |rows| == 0 then []
    else
      var n := |rows| - 1;
      IndicesWhereSnoc(mask);
      IncludeRows(rows[..n], mask[..n]) + (if mask[n] then [rows[n]] else [])
  }

  /** Matrix.Include: the rows whose mask entry is true, in their original
      order. The mask must cover every row; entries past the last row are
      ignored. */
  function Include(m: Matrix, includeRows: seq<bool>): (out: Matrix)
    requires |includeRows| >= |m.data|
    ensures out.cols == m.cols
    ensures |out.data| == Sum(includeRows[..|m.data|])
    ensures forall j :: 0 <= j < |out.data| ==>
              out.data[j] == m.data[IndicesWhere(includeRows[..|m.data|])[j]]
    ensures Rectangular(m.data, m.cols) ==> Rectangular(out.data, out.cols)
  {
    Matrix(IncludeRows(m.data, includeRows[..|m.data|]), m.cols)
  }

  /** Positionwise maximum, as the loop body of Matrix.Max updates it. */
  function RaiseTo(hi: Row, r: Row): (out: Row)
    requires |r| == |hi|
    ensures |out| == |hi|
    ensures forall c :: 0 <= c < |hi| ==> out[c] >= hi[c] && out[c] >= r[c]
    ensures forall c :: 0 <= c < |hi| ==> out[c] == hi[c] || out[c] == r[c]
  {
    seq(|hi|, c requires 0 <= c < |hi| => if r[c] > hi[c] then r[c] else hi[c])
  }

  /** Positionwise minimum, as the loop body of Matrix.Min updates it. */
  function LowerTo(lo: Row, r: Row): (out: Row)
    requires |r| == |lo|
    ensures |out| == |lo|
    ensures forall c :: 0 <= c < |lo| ==> out[c] <= lo[c] && out[c] <= r[c]
    ensures forall c :: 0 <= c < |lo| ==> out[c] == lo[c] || out[c] == r[c]
  {
    seq(|lo|, c requires 0 <= c < |lo| => if r[c] < lo[c] then r[c] else lo[c])
  }

  /** Matrix.Max: per column, the largest value, attained by some row. */
  function Max(m: Matrix): (hi: Row)
    requires |m.data| > 0 && Rectangular(m.data, m.cols)
    decreases |m.data|
    ensures |hi| == m.cols
    ensures forall k, c :: 0 <= k < |m.data| && 0 <= c < m.cols ==> m.data[k][c] <= hi[c]
    ensures forall c :: 0 <= c < m.cols ==> exists k :: 0 <= k < |m.data| && m.data[k][c] == hi[c]
  {
    if |m.data| == 1 then m.data[0]
    else
      var n := |m.data| - 1;
      var prefix := Max(Matrix(m.data[..n], m.cols));
      var hi := RaiseTo(prefix, m.data[n]);
      assert forall c :: 0 <= c < m.cols ==> exists k :: 0 <= k < |m.data| && m.data[k][c] == hi[c] by {
        forall c | 0 <= c < m.cols
          ensures exists k :: 0 <= k < |m.data| && m.data[k][c] == hi[c]
        {
          if hi[c] == m.data[n][c] {
          } else {
            var k :| 0 <= k < n && m.data[..n][k][c] == prefix[c];
            assert m.data[k][c] == hi[c];
          }
        }
      }
      hi
  }

  /** Matrix.Min: per column, the smallest value, attained by some row. */
  function Min(m: Matrix): (lo: Row)
    requires |m.data| > 0 && Rectangular(m.data, m.cols)
    decreases |m.data|
    ensures |lo| == m.cols
    ensures forall k, c :: 0 <= k < |m.data| && 0 <= c < m.cols ==> lo[c] <= m.data[k][c]
    ensures forall c :: 0 <= c < m.cols ==> exists k :: 0 <= k < |m.data| && m.data[k][c] == lo[c]
  {
    if |m.data| == 1 then m.data[0]
    else
      var n := |m.data| - 1;
      var prefix := Min(Matrix(m.data[..n], m.cols));
      var lo := LowerTo(prefix, m.data[n]);
      assert forall c :: 0 <= c < m.cols ==> exists k :: 0 <= k < |m.data| && m.data[k][c] == lo[c] by {
        forall c | 0 <= c < m.cols
          ensures exists k :: 0 <= k < |m.data| && m.data[k][c] == lo[c]
        {
          if lo[c] == m.data[n][c] {
          } else {
            var k :| 0 <= k < n && m.data[..n][k][c] == prefix[c];
            assert m.data[k][c] == lo[c];
          }
        }
      }
      lo
  }

  /** On a non-empty matrix the column bounds are ordered. */
  lemma MinLeMax(m: Matrix)
    requires |m.data| > 0 && Rectangular(m.data, m.cols)
    ensures forall c :: 0 <= c < m.cols ==> Min(m)[c] <= Max(m)[c]
  {
  }
}
