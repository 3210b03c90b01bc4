/** `BoolVector` and `FloatVector` of rrcf.go, and the small slice helpers
    `maxIntOrZero`, `npOnes`, `npBools` and `indicesOfValue`.

    A Go slice is a Dafny sequence. Every loop of the source walks its slice
    from the front and only appends or updates the current position, so the
    recursive definitions below peel off the LAST element: the value for a
    prefix is exactly the loop's state after that prefix. */
module Vectors {

  // ---------------------------------------------------------------- BoolVector

  /** BoolVector.Sum: the number of true entries. */
  function Sum(a: seq<bool>): (count: nat)
    ensures count <= |a|
    ensures count == 0 <==> forall k :: 0 <= k < |a| ==> !a[k]
  {
    if |a| == 0 then 0
    else Sum(a[..|a| - 1]) + (if a[|a| - 1] then 1 else 0)
  }

  /** `idx` lists the positions of the true entries of `a`, each once, in
      increasing order. */
  ghost predicate Positions(idx: seq<nat>, a: seq<bool>)
  {
    && (forall j :: 0 <= j < |idx| ==> idx[j] < |a| && a[idx[j]])
    && (forall j, k :: 0 <= j < k < |idx| ==> idx[j] < idx[k])
    && (forall k :: 0 <= k < |a| && a[k] ==> k in idx)
  }

  /** BoolVector.IndicesWhere(IsTrue), NumPy's flatnonzero: the positions of
      the true entries, in increasing order. */
  function IndicesWhere(a: seq<bool>): (idx: seq<nat>)
    ensures |idx| == Sum(a)
    ensures forall j :: 0 <= j < |idx| ==> idx[j] < |a| && a[idx[j]]
  {
    if |a| == 0 then []
    else IndicesWhere(a[..|a| - 1]) + (if a[|a| - 1] then [|a| - 1] else [])
  }

  /** IndicesWhere reports every true position, each once, in increasing
      order. Kept apart from the function's contract so that the pairwise
      ordering fact is only in scope where a proof asks for it. */
  lemma {:induction false} IndicesWherePositions(a: seq<bool>)
    ensures Positions(IndicesWhere(a), a)
  {
    if |a| > 0 {
      IndicesWherePositions(a[..|a| - 1]);
      PositionsSnoc(IndicesWhere(a[..|a| - 1]), a);
    }
  }

  /** Appending an entry to `a` appends its position when it is true. */
  lemma PositionsSnoc(prior: seq<nat>, a: seq<bool>)
    requires |a| > 0 && Positions(prior, a[..|a| - 1])
    ensures Positions(prior + (if a[|a| - 1] then [|a| - 1] else []), a)
  {
    var n := |a| - 1;
    var idx := prior + (if a[n] then [n] else []);
    forall j | 0 <= j < |prior| ensures prior[j] < n && a[prior[j]] {
      assert a[..n][prior[j]];
    }
    forall k | 0 <= k < |a| && a[k] ensures k in idx {
      if k < n {
        assert a[..n][k];
        assert k in prior;
      }
    }
  }

  /** The first position IndicesWhere reports is the first true entry. */
  lemma IndicesWhereFirst(a: seq<bool>)
    ensures |IndicesWhere(a)| > 0 ==> forall k :: 0 <= k < IndicesWhere(a)[0] ==> !a[k]
  {
    var idx := IndicesWhere(a);
    IndicesWherePositions(a);
    if |idx| > 0 {
      forall k | 0 <= k < |a| && a[k] ensures idx[0] <= k {
        var j :| 0 <= j < |idx| && idx[j] == k;
        assert idx[0] <= idx[j];
      }
    }
  }

  /** The IsTrue filter of the Go package. */
  predicate IsTrue(b: bool) { b }

  /** BoolVector.Where: the entries that satisfy `f`, in order. Each accepted
      entry is kept and only those, which for booleans fixes the result. */
  function Where(a: seq<bool>, f: bool -> bool): (kept: seq<bool>)
    ensures |kept| <= |a|
    ensures forall j :: 0 <= j < |kept| ==> f(kept[j])
    ensures |kept| == |Accepted(a, f)|
    ensures (forall k :: 0 <= k < |a| ==> f(a[k])) ==> kept == a
  {
    if |a| == 0 then []
    else
      AcceptedStep(a, f);
      Where(a[..|a| - 1], f) + (if f(a[|a| - 1]) then [a[|a| - 1]] else [])
  }

  /** The positions of the entries that satisfy `f`. */
  ghost function Accepted(a: seq<bool>, f: bool -> bool): set<nat>
  {
    set k: nat | k < |a| && f(a[k])
  }

  lemma AcceptedStep(a: seq<bool>, f: bool -> bool)
    requires |a| > 0
    ensures |Accepted(a, f)| == |Accepted(a[..|a| - 1], f)| + if f(a[|a| - 1]) then 1 else 0
  {
    var n := |a| - 1;
    assert Accepted(a, f) == Accepted(a[..n], f) + (if f(a[n]) then {n} else {});
  }

  /** Keeping the true entries of a mask leaves Sum(a) entries, all true:
      Where agrees with the count of the mask. */
  lemma {:induction false} WhereTrueIsSum(a: seq<bool>)
    ensures Where(a, IsTrue) == NpBools(Sum(a))
  {
    if |a| > 0 {
      var n := |a| - 1;
      WhereTrueIsSum(a[..n]);
      assert Where(a, IsTrue) == Where(a[..n], IsTrue) + (if a[n] then [true] else []);
      if a[n] {
        NpBoolsSnoc(Sum(a[..n]));
      }
    }
  }

  lemma NpBoolsSnoc(count: nat)
    ensures NpBools(count) + [true] == NpBools(count + 1)
  {
    var l, r := NpBools(count) + [true], NpBools(count + 1);
    assert |l| == |r|;
    assert forall k :: 0 <= k < |l| ==> l[k] == r[k];
  }

  /** BoolVector.And: positionwise conjunction; the other mask must be at
      least as long as the receiver, which fixes the result's length. */
  function And(a: seq<bool>, other: seq<bool>): (r: seq<bool>)
    requires |other| >= |a|
    ensures |r| == |a|
    ensures forall k :: 0 <= k < |a| ==> (r[k] <==> a[k] && other[k])
  {
    seq(|a|, k requires 0 <= k < |a| => a[k] && other[k])
  }

  /** BoolVector.Not: positionwise negation. */
  function Not(a: seq<bool>): (r: seq<bool>)
    ensures |r| == |a|
    ensures forall k :: 0 <= k < |a| ==> r[k] == !a[k]
  {
    seq(|a|, k requires 0 <= k < |a| => !a[k])
  }

  /** A mask and its negation split the positions between them. */
  lemma {:induction false} SumNot(a: seq<bool>)
    ensures Sum(a) + Sum(Not(a)) == |a|
  {
    if |a| > 0 {
      assert Not(a)[..|a| - 1] == Not(a[..|a| - 1]);
      SumNot(a[..|a| - 1]);
    }
  }

  /** `s1` and `s2` split the true positions of `s` between them. */
  ghost predicate Partition(s: seq<bool>, s1: seq<bool>, s2: seq<bool>)
  {
    && |s1| == |s| && |s2| == |s|
    && forall k :: 0 <= k < |s| ==> (s1[k] || s2[k] <==> s[k]) && !(s1[k] && s2[k])
  }

  lemma PartitionPrefix(s: seq<bool>, s1: seq<bool>, s2: seq<bool>, n: nat)
    requires Partition(s, s1, s2) && n <= |s|
    ensures Partition(s[..n], s1[..n], s2[..n])
  {
  }

  /** The true positions of a partitioned mask are those of its two parts. */
  lemma {:induction false} PartitionSum(s: seq<bool>, s1: seq<bool>, s2: seq<bool>)
    requires Partition(s, s1, s2)
    ensures Sum(s1) + Sum(s2) == Sum(s)
  {
    if |s| > 0 {
      var n := |s| - 1;
      PartitionPrefix(s, s1, s2, n);
      PartitionSum(s[..n], s1[..n], s2[..n]);
    }
  }

  lemma Interchange<T>(a: multiset<T>, b: multiset<T>, c: multiset<T>, d: multiset<T>)
    ensures (a + b) + (c + d) == (a + c) + (b + d)
  {
    assert forall x :: ((a + b) + (c + d))[x] == ((a + c) + (b + d))[x];
  }

  lemma IndicesWhereSnoc(a: seq<bool>)
    requires |a| > 0
    ensures IndicesWhere(a) == IndicesWhere(a[..|a| - 1]) + (if a[|a| - 1] then [|a| - 1] else [])
  {
  }

  /** The same, as a multiset of positions: each true position of `s` is a
      true position of exactly one part. */
  lemma {:induction false} PartitionIndices(s: seq<bool>, s1: seq<bool>, s2: seq<bool>)
    requires Partition(s, s1, s2)
    ensures multiset(IndicesWhere(s1)) + multiset(IndicesWhere(s2)) == multiset(IndicesWhere(s))
  {
    assert |s1| == |s| && |s2| == |s|;
    if |s| > 0 {
      var n := |s| - 1;
      PartitionPrefix(s, s1, s2, n);
      PartitionIndices(s[..n], s1[..n], s2[..n]);
      var tail: seq<nat> := if s[n] then [n] else [];
      var tail1: seq<nat> := if s1[n] then [n] else [];
      var tail2: seq<nat> := if s2[n] then [n] else [];
      assert multiset(tail1) + multiset(tail2) == multiset(tail);
      var a, a1, a2 := IndicesWhere(s[..n]), IndicesWhere(s1[..n]), IndicesWhere(s2[..n]);
      IndicesWhereSnoc(s);
      IndicesWhereSnoc(s1);
      IndicesWhereSnoc(s2);
      calc {
        multiset(IndicesWhere(s1)) + multiset(IndicesWhere(s2));
        multiset(a1 + tail1) + multiset(a2 + tail2);
        (multiset(a1) + multiset(tail1)) + (multiset(a2) + multiset(tail2));
        { Interchange(multiset(a1), multiset(tail1), multiset(a2), multiset(tail2)); }
        (multiset(a1) + multiset(a2)) + (multiset(tail1) + multiset(tail2));
        multiset(a) + multiset(tail);
        multiset(a + tail);
      }
    }
  }

  // --------------------------------------------------------------- FloatVector

  /** FloatVector.Where: the mask of entries satisfying `f`. */
  function FloatWhere(v: seq<real>, f: real -> bool): (r: seq<bool>)
    ensures |r| == |v|
    ensures forall k :: 0 <= k < |v| ==> r[k] == f(v[k])
  {
    seq(|v|, k requires 0 <= k < |v| => f(v[k]))
  }

  /** FloatVector.Subtract: positionwise difference; the other vector must be
      at least as long as the receiver. */
  function Subtract(v: seq<real>, other: seq<real>): (r: seq<real>)
    requires |other| >= |v|
    ensures |r| == |v|
    ensures forall k :: 0 <= k < |v| ==> r[k] + other[k] == v[k]
  {
    seq(|v|, k requires 0 <= k < |v| => v[k] - other[k])
  }

  /** FloatVector.DivideBy. Go's float division by zero yields NaN or an
      infinity; here the divisor must be non-zero and callers check first. */
  function DivideBy(v: seq<real>, scalar: real): (r: seq<real>)
    requires scalar != 0.0
    ensures |r| == |v|
    ensures forall k :: 0 <= k < |v| ==> r[k] * scalar == v[k]
  {
    seq(|v|, k requires 0 <= k < |v| => v[k] / scalar)
  }

  /** FloatVector.Sum. */
  function FloatSum(v: seq<real>): real
  {
    if |v| == 0 then 0.0 else FloatSum(v[..|v| - 1]) + v[|v| - 1]
  }

  /** A sum of non-negative entries is zero exactly when every entry is. */
  lemma {:induction false} FloatSumZero(v: seq<real>)
    requires forall k :: 0 <= k < |v| ==> v[k] >= 0.0
    ensures FloatSum(v) >= 0.0
    ensures FloatSum(v) == 0.0 <==> forall k :: 0 <= k < |v| ==> v[k] == 0.0
  {
    if |v| > 0 {
      FloatSumZero(v[..|v| - 1]);
      assert forall k :: 0 <= k < |v| - 1 ==> v[..|v| - 1][k] == v[k];
    }
  }

  // ------------------------------------------------------------------ helpers

  /** maxIntOrZero: the largest element, or 0 for an empty slice. */
  function MaxIntOrZero(a: seq<int>): (m: int)
    ensures |a| == 0 ==> m == 0
    ensures |a| > 0 ==> m in a && forall k :: 0 <= k < |a| ==> a[k] <= m
  {
    if |a| == 0 then 0
    else if |a| == 1 then a[0]
    else
      var prefix := MaxIntOrZero(a[..|a| - 1]);
      if a[|a| - 1] > prefix then a[|a| - 1] else prefix
  }

  /** npOnes: `count` ones. */
  function NpOnes(count: nat): (r: seq<int>)
    ensures |r| == count
    ensures forall k :: 0 <= k < count ==> r[k] == 1
  {
    seq(count, k => 1)
  }

  /** npBools: an all-true mask of length `count`. */
  function NpBools(count: nat): (r: seq<bool>)
    ensures |r| == count
    ensures forall k :: 0 <= k < count ==> r[k]
    ensures Sum(r) == count
  {
    var r := seq(count, k => true);
    AllTrueSum(r);
    r
  }

  lemma {:induction false} AllTrueSum(a: seq<bool>)
    requires forall k :: 0 <= k < |a| ==> a[k]
    ensures Sum(a) == |a|
  {
    if |a| > 0 {
      AllTrueSum(a[..|a| - 1]);
    }
  }

  /** The mask of positions of `a` holding `value`. */
  function EqualsMask(a: seq<int>, value: int): (m: seq<bool>)
    ensures |m| == |a|
    ensures forall k :: 0 <= k < |a| ==> (m[k] <==> a[k] == value)
  {
    seq(|a|, k requires 0 <= k < |a| => a[k] == value)
  }

  /** indicesOfValue: the positions holding `value`, in increasing order. */
  function IndicesOfValue(a: seq<int>, value: int): (idx: seq<nat>)
    ensures forall j :: 0 <= j < |idx| ==> idx[j] < |a| && a[idx[j]] == value
    ensures forall j, k :: 0 <= j < k < |idx| ==> idx[j] < idx[k]
    ensures forall k :: 0 <= k < |a| && a[k] == value ==> k in idx
    ensures |idx| == multiset(a)[value]
    ensures |idx| > 0 ==> forall k :: 0 <= k < idx[0] ==> a[k] != value
  {
    var m := EqualsMask(a, value);
    OccurrencesAreMaskSum(a, value);
    IndicesWherePositions(m);
    IndicesWhereFirst(m);
    IndicesWhere(m)
  }

  lemma {:induction false} OccurrencesAreMaskSum(a: seq<int>, value: int)
    ensures Sum(EqualsMask(a, value)) == multiset(a)[value]
  {
    if |a| > 0 {
      var n := |a| - 1;
      assert EqualsMask(a, value)[..n] == EqualsMask(a[..n], value);
      OccurrencesAreMaskSum(a[..n], value);
      assert a == a[..n] + [a[n]];
    }
  }

  /** 0, 1, ..., n - 1: the identity labelling `index_labels[i] = i`. */
  function Iota(n: nat): (r: seq<nat>)
    ensures |r| == n
    ensures forall k :: 0 <= k < n ==> r[k] == k
  {
    seq(n, k requires 0 <= k < n => k)
  }

  /** The sum of an integer slice. */
  function IntSum(a: seq<int>): int
  {
    if |a| == 0 then 0 else IntSum(a[..|a| - 1]) + a[|a| - 1]
  }

  /** Incrementing one element raises the sum by one. */
  lemma {:induction false} IntSumIncrement(a: seq<int>, j: nat)
    requires j < |a|
    ensures IntSum(a[j := a[j] + 1]) == IntSum(a) + 1
  {
    var n := |a| - 1;
    if j == n {
      assert a[j := a[j] + 1][..n] == a[..n];
    } else {
      assert a[j := a[j] + 1][..n] == a[..n][j := a[j] + 1];
      IntSumIncrement(a[..n], j);
    }
  }
}
