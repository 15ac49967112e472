/**
 * The alignment checker `aligned(iter, iters...)`: several distributed
 * iterators may be traversed together without inter-rank communication
 * when their segment views agree pairwise, rank for rank and length for
 * length. An iterator is seen here through its segment view, reduced to
 * the `(rank, size)` of each segment, which is all the checker looks at.
 */
module Alignment {
  import opened Layout
  import opened Segments

  /** What the checker reads of one segment: `rank(segment)` and `segment.size()`. */
  datatype SegView = SegView(rank: nat, size: int)

  /** The `(rank, size)` view of a list of segments of a storage with segment size `seg` on `n` ranks. */
  function View(segs: seq<Segment>, seg: nat, n: nat): (v: seq<SegView>)
    requires seg > 0 && n > 0
    ensures |v| == |segs|
  {
    seq(|segs|, k requires 0 <= k < |segs| =>
      SegView(Rank(segs[k].first, seg, n), segs[k].last - segs[k].first))
  }

  function MinLen(a: seq<SegView>, b: seq<SegView>): nat {
    if |a| < |b| then |a| else |b|
  }

  /**
   * One step of the checker: the zip of the two views is non-empty and
   * every zipped pair agrees in rank and in size.
   */
  predicate PairAgrees(a: seq<SegView>, b: seq<SegView>) {
    MinLen(a, b) > 0 && forall k :: 0 <= k < MinLen(a, b) ==> a[k] == b[k]
  }

  /**
   * Both overloads of `aligned`: a single view is aligned when it is
   * non-empty; otherwise the first two must agree and the rest (from the
   * second on) must be aligned.
   */
  function Aligned(views: seq<seq<SegView>>): (b: bool)
    requires |views| > 0
    ensures b ==> forall j :: 0 <= j < |views| ==> |views[j]| > 0
    decreases |views|
  {
    if |views| == 1 then |views[0]| > 0
    else
      var tail := views[1..];
      assert forall j :: 0 <= j < |tail| ==> tail[j] == views[j + 1];
      PairAgrees(views[0], views[1]) && Aligned(tail)
  }

  /**
   * The checker as the source runs it: reject an empty zip, walk the zipped
   * pairs returning false at the first disagreement, then recurse on the
   * tail of the argument list.
   */
  method CheckAligned(views: seq<seq<SegView>>) returns (ok: bool)
    requires |views| > 0
    ensures ok == Aligned(views)
    decreases |views|
  {
    if |views| == 1 {
      return |views[0]| > 0;
    }
    var first, second := views[0], views[1];
    var m := if |first| < |second| then |first| else |second|;
    if m == 0 {
      return false;
    }
    var k := 0;
    while k < m
      invariant 0 <= k <= m
      invariant forall j :: 0 <= j < k ==> first[j] == second[j]
    {
      if first[k].rank != second[k].rank || first[k].size != second[k].size {
        return false;
      }
      k := k + 1;
    }
    ok := CheckAligned(views[1..]);
  }

  /**
   * Closed form: the argument list is aligned exactly when every adjacent
   * pair agrees and the last view is non-empty.
   */
  lemma {:induction false} AlignedChain(views: seq<seq<SegView>>)
    requires |views| > 0
    ensures Aligned(views) <==>
      (forall j :: 0 <= j < |views| - 1 ==> PairAgrees(views[j], views[j + 1]))
      && |views[|views| - 1]| > 0
    decreases |views|
  {
    if |views| > 1 {
      AlignedChain(views[1..]);
      assert forall j :: 0 <= j < |views| - 2 ==> views[1..][j] == views[j + 1];
    }
  }

  /** Identical views (the same container shape, the same position) are aligned iff non-empty. */
  lemma {:induction false} AlignedIdentical(views: seq<seq<SegView>>, v: seq<SegView>)
    requires |views| > 0
    requires forall j :: 0 <= j < |views| ==> views[j] == v
    ensures Aligned(views) <==> |v| > 0
  {
    AlignedChain(views);
  }

  /**
   * Co-location of the elements a lockstep walk pairs, the guarantee the
   * check exists for: if the segment views of two iterators (at `indexA`
   * of a storage with segment size `segA` on `nA` ranks, and at `indexB` of
   * one with `segB` on `nB` ranks) agree, then for every step `j` that
   * stays inside both containers, element `indexA + j` lives on the same
   * rank as element `indexB + j`.
   */
  lemma {:induction false} AgreeingSegmentsColocated(
    sizeA: nat, segA: nat, nA: nat, indexA: nat,
    sizeB: nat, segB: nat, nB: nat, indexB: nat,
    j: nat)
    requires segA > 0 && nA > 0 && segB > 0 && nB > 0
    requires PairAgrees(View(SegmentsFrom(sizeA, segA, indexA), segA, nA),
                        View(SegmentsFrom(sizeB, segB, indexB), segB, nB))
    requires indexA + j < sizeA && indexB + j < sizeB
    ensures Rank(indexA + j, segA, nA) == Rank(indexB + j, segB, nB)
    decreases sizeA - indexA
  {
    var sa := SegmentsFrom(sizeA, segA, indexA);
    var sb := SegmentsFrom(sizeB, segB, indexB);
    SegmentsFromTail(sizeA, segA, indexA);
    SegmentsFromTail(sizeB, segB, indexB);
    var len := FirstSegmentsAgree(sizeA, segA, nA, indexA, sizeB, segB, nB, indexB);
    if j < len {
      FirstSegmentWithinOneSegment(sizeA, segA, indexA);
      FirstSegmentWithinOneSegment(sizeB, segB, indexB);
    } else {
      var ea, eb := sa[0].last, sb[0].last;
      TailsAgree(sizeA, segA, nA, indexA, sizeB, segB, nB, indexB);
      AgreeingSegmentsColocated(sizeA, segA, nA, ea, sizeB, segB, nB, eb, j - len);
      assert ea + (j - len) == indexA + j && eb + (j - len) == indexB + j;
    }
  }

  /** Agreeing views start with segments of the same length on the same rank. */
  lemma {:induction false} FirstSegmentsAgree(
    sizeA: nat, segA: nat, nA: nat, indexA: nat,
    sizeB: nat, segB: nat, nB: nat, indexB: nat) returns (len: nat)
    requires segA > 0 && nA > 0 && segB > 0 && nB > 0
    requires PairAgrees(View(SegmentsFrom(sizeA, segA, indexA), segA, nA),
                        View(SegmentsFrom(sizeB, segB, indexB), segB, nB))
    requires indexA < sizeA && indexB < sizeB
    ensures len == SegmentsFrom(sizeA, segA, indexA)[0].last - indexA
    ensures len == SegmentsFrom(sizeB, segB, indexB)[0].last - indexB
    ensures Rank(indexA, segA, nA) == Rank(indexB, segB, nB)
  {
    var sa := SegmentsFrom(sizeA, segA, indexA);
    var sb := SegmentsFrom(sizeB, segB, indexB);
    SegmentsFromTail(sizeA, segA, indexA);
    SegmentsFromTail(sizeB, segB, indexB);
    var va := View(sa, segA, nA);
    var vb := View(sb, segB, nB);
    assert va[0] == vb[0];
    len := sa[0].last - indexA;
  }

  /**
   * Agreeing views that both go on past their first segments still agree
   * after it: the views from the ends of the first segments agree.
   */
  lemma {:induction false} TailsAgree(
    sizeA: nat, segA: nat, nA: nat, indexA: nat,
    sizeB: nat, segB: nat, nB: nat, indexB: nat)
    requires segA > 0 && nA > 0 && segB > 0 && nB > 0
    requires PairAgrees(View(SegmentsFrom(sizeA, segA, indexA), segA, nA),
                        View(SegmentsFrom(sizeB, segB, indexB), segB, nB))
    requires indexA < sizeA && indexB < sizeB
    requires SegmentsFrom(sizeA, segA, indexA)[0].last < sizeA
    requires SegmentsFrom(sizeB, segB, indexB)[0].last < sizeB
    ensures PairAgrees(View(SegmentsFrom(sizeA, segA, SegmentsFrom(sizeA, segA, indexA)[0].last), segA, nA),
                       View(SegmentsFrom(sizeB, segB, SegmentsFrom(sizeB, segB, indexB)[0].last), segB, nB))
  {
    var sa := SegmentsFrom(sizeA, segA, indexA);
    var sb := SegmentsFrom(sizeB, segB, indexB);
    SegmentsFromTail(sizeA, segA, indexA);
    SegmentsFromTail(sizeB, segB, indexB);
    var va := View(sa, segA, nA);
    var vb := View(sb, segB, nB);
    var ta := SegmentsFrom(sizeA, segA, sa[0].last);
    var tb := SegmentsFrom(sizeB, segB, sb[0].last);
    assert View(ta, segA, nA) == va[1..];
    assert View(tb, segB, nB) == vb[1..];
    forall k | 0 <= k < MinLen(va[1..], vb[1..])
      ensures va[1..][k] == vb[1..][k]
    {
      assert va[1..][k] == va[k + 1] && vb[1..][k] == vb[k + 1];
    }
  }

  /**
   * Two containers whose segment sizes differ are never aligned from their
   * beginnings, as long as each holds at least one full segment: their
   * first segments already differ in length.
   */
  lemma {:induction false} DifferentSegmentSizesNotAligned(
    sizeA: nat, segA: nat, nA: nat, sizeB: nat, segB: nat, nB: nat)
    requires segA > 0 && nA > 0 && segB > 0 && nB > 0
    requires segA != segB && sizeA >= segA && sizeB >= segB
    ensures !PairAgrees(View(SegmentsFrom(sizeA, segA, 0), segA, nA),
                        View(SegmentsFrom(sizeB, segB, 0), segB, nB))
  {
    SegmentsFromBeginning(sizeA, segA);
    SegmentsFromBeginning(sizeB, segB);
    ChunkAt(sizeA, segA, 0);
    ChunkAt(sizeB, segB, 0);
    var va := View(SegmentsFrom(sizeA, segA, 0), segA, nA);
    var vb := View(SegmentsFrom(sizeB, segB, 0), segB, nB);
    assert va[0].size == segA;
    assert vb[0].size == segB;
  }

  /**
   * Positions in the same segment but at different offsets are not aligned:
   * with ten elements in segments of five on two ranks, the views from
   * positions 0 and 1 start with segments of five and four elements, so
   * the checker rejects the pair that a lockstep walk would mis-pair
   * (element 4 on rank 0 with element 5 on rank 1).
   */
  lemma {:induction false} OffsetWithinSegmentNotAligned()
    ensures Rank(0 + 4, 5, 2) != Rank(1 + 4, 5, 2)
    ensures !Aligned([View(SegmentsFrom(10, 5, 0), 5, 2), View(SegmentsFrom(10, 5, 1), 5, 2)])
  {
    SegmentsFromTail(10, 5, 0);
    SegmentsFromTail(10, 5, 1);
    var va := View(SegmentsFrom(10, 5, 0), 5, 2);
    var vb := View(SegmentsFrom(10, 5, 1), 5, 2);
    assert SegmentsFrom(10, 5, 0)[0].last == 5;
    assert va[0].size == 5 && vb[0].size == 4;
    assert !PairAgrees(va, vb);
  }
}
