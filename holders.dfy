/**
 * Snapshots (Java's `DataHolder`: a matrix and the stamp of the class version
 * it was captured against) and the consolidation of a pending list of them
 * into one, as `CoverageData.merge(List)` does.
 */
module Holders {
  import opened Wrappers
  import opened CoverageMatrix

  /** Java's `long`. */
  newtype int64 = x: int | -0x8000_0000_0000_0000 <= x < 0x8000_0000_0000_0000

  datatype Holder = Holder(coverage: Matrix, stamp: int64)

  /** Merges the matrices of `hs`, in list order, into `acc`; `None` where
    * some step would index past a row or a matrix (Java's
    * ArrayIndexOutOfBoundsException). */
  function Fold(acc: Matrix, hs: seq<Holder>): (r: Option<Matrix>)
    decreases |hs|
    ensures r.Some? ==> |r.value| == |acc|
  {
    if hs == [] then Some(acc)
    else
      match Fold(acc, hs[..|hs| - 1])
      case None => None
      case Some(m) =>
        if Compatible(m, hs[|hs| - 1].coverage) then Some(MergeMatrix(m, hs[|hs| - 1].coverage)) else None
  }

  /** A pending list that can be consolidated without an index error. */
  predicate Mergeable(hs: seq<Holder>)
  {
    |hs| > 0 && Fold(hs[0].coverage, hs[1..]).Some?
  }

  /** The single snapshot a pending list collapses to: the first snapshot's
    * stamp, and its matrix with every later matrix ORed into it. */
  function Consolidate(hs: seq<Holder>): (h: Holder)
    requires Mergeable(hs)
    ensures h.stamp == hs[0].stamp
    ensures |h.coverage| == |hs[0].coverage|
    ensures |hs| == 1 ==> h == hs[0]
  {
    if |hs| == 1 then hs[0] else Holder(Fold(hs[0].coverage, hs[1..]).value, hs[0].stamp)
  }

  /** `merge(List)`: the first snapshot is the accumulator and every later
    * one is merged into it in turn. */
  method MergeList(coverages: seq<Holder>) returns (merged: Holder)
    requires Mergeable(coverages)
    ensures merged == Consolidate(coverages)
  {
    if |coverages| == 1 {
      return coverages[0];
    }
    var acc := coverages[0].coverage;
    for i := 1 to |coverages|
      invariant Fold(coverages[0].coverage, coverages[1..i]) == Some(acc)
    {
      assert coverages[1..][..i] == coverages[1..i + 1];
      FoldPrefix(coverages[0].coverage, coverages[1..], i);
      assert coverages[1..i + 1][..i - 1] == coverages[1..i];
      acc := MergeMatrix(acc, coverages[i].coverage);
    }
    assert coverages[1..|coverages|] == coverages[1..];
    merged := Holder(acc, coverages[0].stamp);
  }

  /** A fold that succeeds succeeds on every prefix of its list. */
  lemma {:induction false} FoldPrefix(acc: Matrix, hs: seq<Holder>, k: nat)
    requires Fold(acc, hs).Some? && k <= |hs|
    ensures Fold(acc, hs[..k]).Some?
    decreases |hs|
  {
    if k < |hs| {
      assert hs[..|hs| - 1][..k] == hs[..k];
      FoldPrefix(acc, hs[..|hs| - 1], k);
    } else {
      assert hs[..k] == hs;
    }
  }

  /** What a fold records: a row is present iff it is present in the
    * accumulator or in some merged snapshot, a present accumulator row keeps
    * its length, and within a present row a probe is recorded iff it is
    * recorded in the accumulator or in some merged snapshot. Nothing recorded
    * is ever lost, and the order of the snapshots does not matter to it. */
  lemma FoldHits(acc: Matrix, hs: seq<Holder>)
    requires Fold(acc, hs).Some?
    ensures var m := Fold(acc, hs).value;
      && (forall i :: 0 <= i < |acc| ==>
            (m[i].Some? <==> acc[i].Some? || exists t :: 0 <= t < |hs| && i < |hs[t].coverage| && hs[t].coverage[i].Some?))
      && (forall i :: 0 <= i < |acc| && acc[i].Some? ==> |m[i].value| == |acc[i].value|)
      && (forall i :: 0 <= i < |acc| && acc[i].None? && m[i].Some? ==>
            exists t :: 0 <= t < |hs| && i < |hs[t].coverage| && hs[t].coverage[i].Some? && |m[i].value| == |hs[t].coverage[i].value|)
      && (forall i, j :: 0 <= i < |m| && m[i].Some? && 0 <= j < |m[i].value| ==>
            (Hit(m, i, j) <==> Hit(acc, i, j) || exists t :: 0 <= t < |hs| && Hit(hs[t].coverage, i, j)))
  {
    FoldRows(acc, hs);
    FoldCells(acc, hs);
  }

  /** The rows of a fold: present iff present in the accumulator or in some
    * merged snapshot, and as long as the row they came from. */
  lemma {:induction false} FoldRows(acc: Matrix, hs: seq<Holder>)
    requires Fold(acc, hs).Some?
    ensures var m := Fold(acc, hs).value;
      && (forall i :: 0 <= i < |acc| ==>
            (m[i].Some? <==> acc[i].Some? || exists t :: 0 <= t < |hs| && i < |hs[t].coverage| && hs[t].coverage[i].Some?))
      && (forall i :: 0 <= i < |acc| && acc[i].Some? ==> |m[i].value| == |acc[i].value|)
      && (forall i :: 0 <= i < |acc| && acc[i].None? && m[i].Some? ==>
            exists t :: 0 <= t < |hs| && i < |hs[t].coverage| && hs[t].coverage[i].Some? && |m[i].value| == |hs[t].coverage[i].value|)
  {
    if hs != [] {
      var n := |hs| - 1;
      var front := hs[..n];
      FoldRows(acc, front);
      var p := Fold(acc, front).value;
      var last := hs[n].coverage;
      var m := Fold(acc, hs).value;
      assert m == MergeMatrix(p, last);
      forall i | 0 <= i < |acc|
        ensures m[i].Some? <==> acc[i].Some? || exists t :: 0 <= t < |hs| && i < |hs[t].coverage| && hs[t].coverage[i].Some?
      {
        if m[i].Some? && !acc[i].Some? && !(exists t :: 0 <= t < n && i < |front[t].coverage| && front[t].coverage[i].Some?) {
          assert last[i].Some?;
        }
        if exists t :: 0 <= t < |hs| && i < |hs[t].coverage| && hs[t].coverage[i].Some? {
          var t :| 0 <= t < |hs| && i < |hs[t].coverage| && hs[t].coverage[i].Some?;
          if t < n {
            assert front[t] == hs[t];
          }
        }
      }
      forall i | 0 <= i < |acc| && acc[i].None? && m[i].Some?
        ensures exists t :: 0 <= t < |hs| && i < |hs[t].coverage| && hs[t].coverage[i].Some? && |m[i].value| == |hs[t].coverage[i].value|
      {
        if p[i].None? {
          assert m[i] == last[i];
          assert i < |hs[n].coverage| && hs[n].coverage[i].Some? && |m[i].value| == |hs[n].coverage[i].value|;
        } else {
          var t :| 0 <= t < n && i < |front[t].coverage| && front[t].coverage[i].Some? && |p[i].value| == |front[t].coverage[i].value|;
          assert hs[t] == front[t];
        }
      }
    }
  }

  /** The probes of a fold: within a present row, recorded iff recorded in
    * the accumulator or in some merged snapshot. */
  lemma {:induction false} FoldCells(acc: Matrix, hs: seq<Holder>)
    requires Fold(acc, hs).Some?
    ensures var m := Fold(acc, hs).value;
      forall i, j :: 0 <= i < |m| && m[i].Some? && 0 <= j < |m[i].value| ==>
        (Hit(m, i, j) <==> Hit(acc, i, j) || exists t :: 0 <= t < |hs| && Hit(hs[t].coverage, i, j))
  {
    if hs != [] {
      var n := |hs| - 1;
      var front := hs[..n];
      FoldCells(acc, front);
      FoldRows(acc, front);
      var p := Fold(acc, front).value;
      var last := hs[n].coverage;
      var m := Fold(acc, hs).value;
      assert m == MergeMatrix(p, last);
      forall i, j | 0 <= i < |m| && m[i].Some? && 0 <= j < |m[i].value|
        ensures Hit(m, i, j) <==> Hit(acc, i, j) || exists t :: 0 <= t < |hs| && Hit(hs[t].coverage, i, j)
      {
        if Hit(m, i, j) && !Hit(acc, i, j) && !Hit(last, i, j) {
          assert Hit(p, i, j);
          var t :| 0 <= t < n && Hit(front[t].coverage, i, j);
          assert Hit(hs[t].coverage, i, j);
        }
        if exists t :: 0 <= t < |hs| && Hit(hs[t].coverage, i, j) {
          var t :| 0 <= t < |hs| && Hit(hs[t].coverage, i, j);
          if t < n {
            assert front[t] == hs[t];
            assert i < |front[t].coverage| && front[t].coverage[i].Some?;
            assert p[i].Some?;
            assert Hit(p, i, j);
          }
        }
      }
    }
  }

  /** A list of snapshots taken against one instrumentation layout. */
  predicate SameShapes(hs: seq<Holder>)
  {
    forall g, h :: g in hs && h in hs ==> SameShape(g.coverage, h.coverage)
  }

  /** Folding snapshots of one layout never fails, and the result keeps that
    * layout: it has the shape of every matrix `c` of that layout. */
  lemma {:induction false} UniformFold(acc: Matrix, hs: seq<Holder>, c: Matrix)
    requires SameShape(acc, c) && SameShapes(hs)
    requires forall h :: h in hs ==> SameShape(acc, h.coverage) && SameShape(h.coverage, c)
    ensures Fold(acc, hs).Some? && SameShape(Fold(acc, hs).value, c)
    decreases |hs|
  {
    if hs != [] {
      var n := |hs| - 1;
      var front, last := hs[..n], hs[n].coverage;
      assert forall h :: h in front ==> h in hs;
      assert hs[n] in hs;
      UniformFold(acc, front, last);
      UniformFold(acc, front, c);
      var p := Fold(acc, front).value;
      MergeKeepsShape(p, last, c);
    }
  }

  /** A pending list of one layout can always be consolidated, and the result
    * has that layout. */
  lemma UniformMergeable(hs: seq<Holder>)
    requires |hs| > 0 && SameShapes(hs)
    ensures Mergeable(hs)
    ensures forall h :: h in hs ==> SameShape(Consolidate(hs).coverage, h.coverage)
  {
    assert hs[0] in hs;
    assert forall h :: h in hs[1..] ==> h in hs;
    UniformFold(hs[0].coverage, hs[1..], hs[0].coverage);
    forall h | h in hs
      ensures SameShape(Consolidate(hs).coverage, h.coverage)
    {
      UniformFold(hs[0].coverage, hs[1..], h.coverage);
    }
  }

  /** What consolidation records, in terms of the snapshots alone: a row is
    * present iff some snapshot has it, a present row is as long as one of the
    * snapshots' rows, and a probe is recorded iff some snapshot records it. */
  lemma ConsolidateHits(hs: seq<Holder>)
    requires Mergeable(hs)
    ensures var m := Consolidate(hs).coverage;
      && (forall i :: 0 <= i < |m| ==> (m[i].Some? <==> exists h :: h in hs && i < |h.coverage| && h.coverage[i].Some?))
      && (forall i :: 0 <= i < |m| && m[i].Some? ==>
            exists h :: h in hs && i < |h.coverage| && h.coverage[i].Some? && |m[i].value| == |h.coverage[i].value|)
      && (forall i, j :: 0 <= i < |m| && m[i].Some? && 0 <= j < |m[i].value| ==>
            (Hit(m, i, j) <==> exists h :: h in hs && Hit(h.coverage, i, j)))
  {
    var acc, rest := hs[0].coverage, hs[1..];
    FoldHits(acc, rest);
    assert hs[0] in hs;
    assert forall t :: 0 <= t < |rest| ==> rest[t] in hs;
    assert forall h :: h in hs ==> h == hs[0] || exists t :: 0 <= t < |rest| && rest[t] == h by {
      forall h | h in hs
        ensures h == hs[0] || exists t :: 0 <= t < |rest| && rest[t] == h
      {
        var k :| 0 <= k < |hs| && hs[k] == h;
        if k > 0 {
          assert rest[k - 1] == h;
        }
      }
    }
  }

  /** Two matrices with the same rows present, the same row lengths and the
    * same recorded probes are equal. */
  lemma EqualByHits(a: Matrix, b: Matrix)
    requires |a| == |b|
    requires forall i :: 0 <= i < |a| ==> (a[i].Some? <==> b[i].Some?)
    requires forall i :: 0 <= i < |a| && a[i].Some? && b[i].Some? ==> |a[i].value| == |b[i].value|
    requires forall i, j :: 0 <= i < |a| && a[i].Some? && 0 <= j < |a[i].value| ==> (Hit(a, i, j) <==> Hit(b, i, j))
    ensures a == b
  {
    forall i | 0 <= i < |a|
      ensures a[i] == b[i]
    {
      if a[i].Some? {
        assert a[i].value == b[i].value by {
          forall j | 0 <= j < |a[i].value|
            ensures a[i].value[j] == b[i].value[j]
          {
            assert Hit(a, i, j) <==> Hit(b, i, j);
          }
        }
      }
    }
  }

  /** Consolidation depends only on WHICH snapshots of one layout are
    * pending, not on their order nor on repetitions: OR is associative,
    * commutative and idempotent. */
  lemma ConsolidateOrderFree(hs: seq<Holder>, gs: seq<Holder>)
    requires |hs| > 0 && SameShapes(hs)
    requires forall h :: h in hs <==> h in gs
    ensures Mergeable(hs) && Mergeable(gs)
    ensures Consolidate(hs).coverage == Consolidate(gs).coverage
  {
    assert hs[0] in hs && hs[0] in gs;
    assert gs[0] in hs;
    assert SameShapes(gs);
    UniformMergeable(hs);
    UniformMergeable(gs);
    var a, b := Consolidate(hs).coverage, Consolidate(gs).coverage;
    assert |a| == |b| by {
      assert SameShape(hs[0].coverage, gs[0].coverage);
    }
    assert forall i :: 0 <= i < |a| ==> (a[i].Some? <==> b[i].Some?) by {
      ConsolidateHits(hs);
      ConsolidateHits(gs);
    }
    assert forall i :: 0 <= i < |a| && a[i].Some? && b[i].Some? ==> |a[i].value| == |b[i].value| by {
      ConsolidateHits(hs);
      ConsolidateHits(gs);
      forall i | 0 <= i < |a| && a[i].Some? && b[i].Some?
        ensures |a[i].value| == |b[i].value|
      {
        var g :| g in hs && i < |g.coverage| && g.coverage[i].Some? && |a[i].value| == |g.coverage[i].value|;
        var h :| h in gs && i < |h.coverage| && h.coverage[i].Some? && |b[i].value| == |h.coverage[i].value|;
        assert SameShape(g.coverage, h.coverage);
      }
    }
    assert forall i, j :: 0 <= i < |a| && a[i].Some? && 0 <= j < |a[i].value| ==> (Hit(a, i, j) <==> Hit(b, i, j)) by {
      ConsolidateHits(hs);
      ConsolidateHits(gs);
    }
    EqualByHits(a, b);
  }
}
