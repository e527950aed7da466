/**
 * The in-place form of the pairwise matrix merge: Java's `boolean[][]` is an
 * array of nullable rows, and the merge ORs the source into the target where
 * it stands, allocating a fresh row where the target has none.
 */
module MatrixInPlace {
  import opened Wrappers
  import opened CoverageMatrix

  /** The rows `a` holds. */
  ghost function RowsOf(a: array<array?<bool>>): set<object>
    reads a
  {
    set i | 0 <= i < a.Length && a[i] != null :: a[i] as object
  }

  function RowValue(r: array?<bool>): Row
    reads r
  {
    if r == null then None else Some(r[..])
  }

  /** The matrix value an array of rows stands for. */
  ghost function Value(a: array<array?<bool>>): (m: Matrix)
    reads a, RowsOf(a)
    ensures |m| == a.Length
    ensures forall i :: 0 <= i < a.Length ==> m[i] == RowValue(a[i])
  {
    seq(a.Length, i reads a, RowsOf(a) requires 0 <= i < a.Length => RowValue(a[i]))
  }

  /** No two present rows of `a` are one array. */
  predicate DistinctRows(a: array<array?<bool>>)
    reads a
  {
    forall i, k :: 0 <= i < k < a.Length && a[i] != null ==> a[i] != a[k]
  }

  /** `lhs` shares no array with `rhs`. */
  predicate Disjoint(lhs: array<array?<bool>>, rhs: array<array?<bool>>)
    reads lhs, rhs
  {
    lhs != rhs &&
    forall i, k :: 0 <= i < lhs.Length && 0 <= k < rhs.Length && lhs[i] != null ==> lhs[i] != rhs[k]
  }

  /** ORs every cell of `source` into the cell of `target` at the same
    * index, over the length of `target`. */
  method OrInto(target: array<bool>, source: array<bool>)
    requires target != source && source.Length >= target.Length
    modifies target
    ensures forall t :: 0 <= t < target.Length ==> target[t] == (old(target[t]) || source[t])
  {
    for j := 0 to target.Length
      invariant forall t :: 0 <= t < j ==> target[t] == (old(target[t]) || source[t])
      invariant forall t :: j <= t < target.Length ==> target[t] == old(target[t])
    {
      target[j] := target[j] || source[j];
    }
  }

  /** ORs `rhs` into `lhs` in place: afterwards `lhs` holds the pairwise merge
    * of the two old values, present rows of `lhs` are edited where they
    * stand, an absent row that receives data is a fresh array, and `rhs` is
    * unchanged. */
  method MergeInto(lhs: array<array?<bool>>, rhs: array<array?<bool>>)
    requires rhs.Length >= lhs.Length
    requires forall i :: 0 <= i < lhs.Length && lhs[i] != null && rhs[i] != null ==> rhs[i].Length >= lhs[i].Length
    requires DistinctRows(lhs) && Disjoint(lhs, rhs)
    modifies lhs, RowsOf(lhs)
    ensures Compatible(old(Value(lhs)), old(Value(rhs)))
    ensures Value(lhs) == MergeMatrix(old(Value(lhs)), old(Value(rhs)))
    ensures Value(rhs) == old(Value(rhs))
    ensures forall i :: 0 <= i < lhs.Length && old(lhs[i]) != null ==> lhs[i] == old(lhs[i])
    ensures forall i :: 0 <= i < lhs.Length && old(lhs[i]) == null && lhs[i] != null ==> fresh(lhs[i])
  {
    ghost var L, R := Value(lhs), Value(rhs);
    assert Compatible(L, R);
    for i := 0 to lhs.Length
      invariant forall k :: 0 <= k < rhs.Length ==> rhs[k] == old(rhs[k]) && RowValue(rhs[k]) == R[k]
      invariant forall k :: 0 <= k < lhs.Length ==> RowValue(lhs[k]) == if k < i then MergeRow(L[k], R[k]) else L[k]
      invariant forall k :: 0 <= k < lhs.Length && old(lhs[k]) != null ==> lhs[k] == old(lhs[k])
      invariant forall k :: 0 <= k < lhs.Length && old(lhs[k]) == null && lhs[k] != null ==> fresh(lhs[k])
      invariant forall k :: i <= k < lhs.Length ==> lhs[k] == old(lhs[k])
      invariant DistinctRows(lhs)
    {
      MergeRowInto(lhs, rhs, i);
    }
    assert Value(lhs) == MergeMatrix(L, R);
  }

  /** One row of the merge: a missing source row leaves the target row as it
    * is; otherwise it is ORed into the target row, allocated first when the
    * target has none. */
  method MergeRowInto(lhs: array<array?<bool>>, rhs: array<array?<bool>>, i: nat)
    requires i < lhs.Length && i < rhs.Length && lhs != rhs
    requires lhs[i] != null && rhs[i] != null ==> rhs[i].Length >= lhs[i].Length
    requires lhs[i] != null ==> forall k :: 0 <= k < rhs.Length ==> lhs[i] != rhs[k]
    modifies lhs, lhs[i]
    ensures RowValue(lhs[i]) == MergeRow(old(RowValue(lhs[i])), RowValue(rhs[i]))
    ensures forall k :: 0 <= k < lhs.Length && k != i ==> lhs[k] == old(lhs[k])
    ensures old(lhs[i]) != null ==> lhs[i] == old(lhs[i])
    ensures old(lhs[i]) == null && lhs[i] != null ==> fresh(lhs[i])
  {
    var innerLhs := lhs[i];
    var innerRhs := rhs[i];
    if innerRhs == null {
      return;
    }
    if innerLhs == null {
      innerLhs := new bool[innerRhs.Length](_ => false);
      lhs[i] := innerLhs;
    }
    OrInto(innerLhs, innerRhs);
    assert lhs[i][..] == MergeRow(old(RowValue(lhs[i])), RowValue(rhs[i])).value;
  }
}
