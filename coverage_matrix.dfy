/**
 * The coverage matrix of one class version: a jagged grid of probe flags.
 * Row `i` is `None` when the structural unit `i` carries no information
 * (Java's `null` row), and `Some(cells)` otherwise, `cells[j]` telling
 * whether probe `j` of that unit fired.
 */
module CoverageMatrix {
  import opened Wrappers

  type Row = Option<seq<bool>>
  type Matrix = seq<Row>

  /** Probe `j` of unit `i` is recorded as fired in `m`. */
  predicate Hit(m: Matrix, i: int, j: int)
  {
    0 <= i < |m| && m[i].Some? && 0 <= j < |m[i].value| && m[i].value[j]
  }

  /** What the in-place OR of `rhs` into `lhs` needs in order not to index
    * out of bounds: `rhs` has at least the rows of `lhs`, and where both rows
    * are present the `rhs` row is at least as long. */
  predicate Compatible(lhs: Matrix, rhs: Matrix)
  {
    |rhs| >= |lhs| &&
    forall i :: 0 <= i < |lhs| && lhs[i].Some? && rhs[i].Some? ==> |rhs[i].value| >= |lhs[i].value|
  }

  /** Equal row counts, and equal lengths wherever both rows are present:
    * the shape two snapshots taken against one stamp have. */
  predicate SameShape(a: Matrix, b: Matrix)
  {
    |a| == |b| &&
    forall i :: 0 <= i < |a| && a[i].Some? && b[i].Some? ==> |a[i].value| == |b[i].value|
  }

  /** One row of the pairwise merge: an absent source row leaves the target
    * alone, an absent target row becomes a copy of the source row, and two
    * present rows are ORed cell by cell over the target's length. */
  function MergeRow(l: Row, r: Row): (m: Row)
    requires l.Some? && r.Some? ==> |r.value| >= |l.value|
    ensures r.None? ==> m == l
    ensures l.None? ==> m == r
    ensures m.Some? <==> l.Some? || r.Some?
    ensures l.Some? ==> |m.value| == |l.value|
    ensures l.Some? && r.Some? ==> forall j :: 0 <= j < |l.value| ==> m.value[j] == (l.value[j] || r.value[j])
  {
    match (l, r)
    case (_, None) => l
    case (None, Some(_)) => r
    case (Some(a), Some(b)) => Some(seq(|a|, j requires 0 <= j < |a| => a[j] || b[j]))
  }

  /** The pairwise merge of `rhs` into `lhs`: a probe recorded in the result
    * is one recorded in either side, rows never disappear, the row count and
    * the length of every present target row are kept. */
  function MergeMatrix(lhs: Matrix, rhs: Matrix): (m: Matrix)
    requires Compatible(lhs, rhs)
    ensures |m| == |lhs|
    ensures forall i :: 0 <= i < |lhs| ==> (m[i].Some? <==> lhs[i].Some? || rhs[i].Some?)
    ensures forall i :: 0 <= i < |lhs| && lhs[i].Some? ==> |m[i].value| == |lhs[i].value|
    ensures forall i :: 0 <= i < |lhs| && lhs[i].None? ==> m[i] == rhs[i]
    ensures forall i, j :: 0 <= i < |m| && m[i].Some? && 0 <= j < |m[i].value| ==>
              (Hit(m, i, j) <==> Hit(lhs, i, j) || Hit(rhs, i, j))
  {
    seq(|lhs|, i requires 0 <= i < |lhs| => MergeRow(lhs[i], rhs[i]))
  }

  /** Merging keeps the shape shared by snapshots of one stamp. */
  lemma MergeKeepsShape(a: Matrix, b: Matrix, c: Matrix)
    requires SameShape(a, b) && SameShape(a, c) && SameShape(b, c)
    ensures SameShape(MergeMatrix(a, b), c)
  {
  }

  /** Merging two snapshots of one shape does not depend on which is the
    * target. */
  lemma MergeCommutes(a: Matrix, b: Matrix)
    requires SameShape(a, b)
    ensures MergeMatrix(a, b) == MergeMatrix(b, a)
  {
    var ab, ba := MergeMatrix(a, b), MergeMatrix(b, a);
    forall i | 0 <= i < |a|
      ensures ab[i] == ba[i]
    {
      if a[i].Some? && b[i].Some? {
        assert ab[i].value == ba[i].value;
      }
    }
  }

  /** Merging `a`, then `b`, then `c` gives the grouping-independent result. */
  lemma MergeAssociates(a: Matrix, b: Matrix, c: Matrix)
    requires SameShape(a, b) && SameShape(a, c) && SameShape(b, c)
    ensures SameShape(MergeMatrix(a, b), c) && SameShape(a, MergeMatrix(b, c))
    ensures MergeMatrix(MergeMatrix(a, b), c) == MergeMatrix(a, MergeMatrix(b, c))
  {
    var left, right := MergeMatrix(MergeMatrix(a, b), c), MergeMatrix(a, MergeMatrix(b, c));
    forall i | 0 <= i < |a|
      ensures left[i] == right[i]
    {
      if left[i].Some? {
        assert left[i].value == right[i].value;
      }
    }
  }

  /** Merging a snapshot into itself changes nothing. */
  lemma MergeIdempotent(a: Matrix)
    ensures Compatible(a, a) && MergeMatrix(a, a) == a
  {
    var m := MergeMatrix(a, a);
    forall i | 0 <= i < |a|
      ensures m[i] == a[i]
    {
      if a[i].Some? {
        assert m[i].value == a[i].value;
      }
    }
  }
}
