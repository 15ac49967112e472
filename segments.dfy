/**
 * The segment view of a distributed iterator: the global index range
 * `[0, size)` cut into consecutive chunks of `segment_size` elements (the
 * last one possibly shorter), from which the first `index` elements are
 * then dropped: the chunks lying wholly before the iterator's position go,
 * and the chunk holding the position is trimmed to start there.
 */
module Segments {
  import opened Sizing
  import opened Layout

  /** A sub-range `[first, last)` of global indices. */
  datatype Segment = Segment(first: nat, last: nat)

  function Min(a: nat, b: nat): nat {
    if a < b then a else b
  }

  /** The number of elements of a segment. */
  function Length(s: Segment): nat {
    if s.first <= s.last then s.last - s.first else 0
  }

  /** The number of elements of a segmented range. */
  function Total(cs: seq<Segment>): nat {
    if cs == [] then 0 else Length(cs[0]) + Total(cs[1..])
  }

  /**
   * Chunking of the range `[first, size)` into pieces of `seg` elements:
   * the pieces start at `first` and end at `size`.
   */
  function Chunk(first: nat, size: nat, seg: nat): (cs: seq<Segment>)
    requires seg > 0
    decreases size - first
  {
    if first >= size then []
    else [Segment(first, Min(first + seg, size))] + Chunk(first + seg, size, seg)
  }

  /** The chunks of `[first, size)` together hold exactly the elements of the range. */
  lemma {:induction false} ChunkTotal(first: nat, size: nat, seg: nat)
    requires seg > 0
    ensures Total(Chunk(first, size, seg)) == if first <= size then size - first else 0
    decreases size - first
  {
    if first < size {
      ChunkTotal(first + seg, size, seg);
      var cs := Chunk(first, size, seg);
      assert cs[1..] == Chunk(first + seg, size, seg);
    }
  }

  /** `rng::views::chunk(make_range(), segment_size_)`: the chunking of `[0, size)`. */
  function Chunks(size: nat, seg: nat): (cs: seq<Segment>)
    requires seg > 0
  {
    Chunk(0, size, seg)
  }

  /**
   * `lib::internal::drop_segments(segments, n)`: drop the first `n`
   * elements of a segmented range. Segments that the count covers entirely
   * are removed; the first remaining one is trimmed by what is left of the
   * count. Exactly `n` elements go (or all of them, when there are fewer).
   */
  function DropSegments(cs: seq<Segment>, n: nat): (r: seq<Segment>)
    ensures Total(r) == if n <= Total(cs) then Total(cs) - n else 0
    ensures |r| <= |cs|
    decreases |cs|
  {
    if cs == [] then []
    else if n >= Length(cs[0]) then DropSegments(cs[1..], n - Length(cs[0]))
    else
      var r := [Segment(cs[0].first + n, cs[0].last)] + cs[1..];
      assert r[1..] == cs[1..];
      r
  }

  /**
   * `distributed_vector_iterator::segments()`: the chunking of the whole
   * container with the first `index` elements dropped. It holds exactly the
   * elements from the position to the end, is non-empty exactly when the
   * position is inside the container, and then starts at the position. A
   * zero segment size only arises for an empty container, whose chunking is
   * empty.
   */
  function SegmentsFrom(size: nat, seg: nat, index: nat): (s: seq<Segment>)
    ensures seg > 0 ==> Total(s) == if index <= size then size - index else 0
    ensures seg > 0 ==> (|s| > 0 <==> index < size)
    ensures |s| > 0 ==> s[0].first == index
  {
    if seg == 0 then []
    else
      ChunkTotal(0, size, seg);
      DropChunk(0, size, seg, index);
      DropSegments(Chunks(size, seg), index)
  }

  /** `j * seg < size` forces the rounded-up share above `j`. */
  lemma {:induction false} CeilDivAbove(size: nat, seg: nat, j: nat)
    requires seg > 0 && j * seg < size
    ensures CeilDiv(size, seg) > j
  {
    if CeilDiv(size, seg) <= j {
      MulMonotone(CeilDiv(size, seg), j, seg);
    }
  }

  /** `j * seg < size <= (j + 1) * seg` pins the rounded-up share to `j + 1`. */
  lemma {:induction false} CeilDivExact(size: nat, seg: nat, j: nat)
    requires seg > 0 && j * seg < size <= j * seg + seg
    ensures CeilDiv(size, seg) == j + 1
  {
    CeilDivAbove(size, seg, j);
    var q := CeilDiv(size, seg);
    if q > j + 1 {
      assert (j + 1) * seg == j * seg + seg;
      MulMonotone(j + 1, q - 1, seg);
    }
  }

  /** The chunking from the start of segment `j` has `ceil(size / seg) - j` chunks. */
  lemma {:induction false} ChunkCount(j: nat, size: nat, seg: nat)
    requires seg > 0
    ensures |Chunk(j * seg, size, seg)| == if j * seg >= size then 0 else CeilDiv(size, seg) - j
    decreases size - j * seg
  {
    if j * seg < size {
      assert (j + 1) * seg == j * seg + seg;
      ChunkCount(j + 1, size, seg);
      if (j + 1) * seg >= size {
        CeilDivExact(size, seg, j);
      } else {
        CeilDivAbove(size, seg, j + 1);
      }
    }
  }

  /** Chunk `k` of the chunking from the start of segment `j` is the range of segment `j + k`. */
  lemma {:induction false} ChunkElement(j: nat, size: nat, seg: nat, k: nat)
    requires seg > 0 && k < |Chunk(j * seg, size, seg)|
    ensures Chunk(j * seg, size, seg)[k] == Segment((j + k) * seg, Min((j + k) * seg + seg, size))
    decreases k
  {
    if k > 0 {
      assert (j + 1) * seg == j * seg + seg;
      assert Chunk(j * seg, size, seg)[k] == Chunk((j + 1) * seg, size, seg)[k - 1];
      ChunkElement(j + 1, size, seg, k - 1);
      assert j + 1 + (k - 1) == j + k;
    }
  }

  /** The `k`-th chunk of `[0, size)` starts at `k * seg`, inside the container. */
  lemma {:induction false} ChunkAt(size: nat, seg: nat, k: nat)
    requires seg > 0 && k < |Chunks(size, seg)|
    ensures Chunks(size, seg)[k] == Segment(k * seg, Min(k * seg + seg, size))
    ensures k * seg < size
  {
    assert 0 * seg == 0;
    ChunksCount(size, seg);
    ChunkElement(0, size, seg, k);
    var q := CeilDiv(size, seg);
    MulMonotone(k, q - 1, seg);
  }

  /** There are `ceil(size / seg)` chunks. */
  lemma {:induction false} ChunksCount(size: nat, seg: nat)
    requires seg > 0
    ensures |Chunks(size, seg)| == CeilDiv(size, seg)
  {
    assert 0 * seg == 0;
    ChunkCount(0, size, seg);
    if size == 0 && CeilDiv(size, seg) > 0 {
      MulMonotone(0, CeilDiv(size, seg) - 1, seg);
    }
  }

  /**
   * The chunking of `[0, size)` is a partition: `ceil(size / seg)` non-empty
   * chunks, chunk `k` starting at `k * seg`, every chunk but the last
   * exactly `seg` long, consecutive chunks adjacent, and the last ending at
   * `size`.
   */
  lemma {:induction false} ChunksPartition(size: nat, seg: nat)
    requires seg > 0
    ensures |Chunks(size, seg)| == CeilDiv(size, seg)
    ensures forall k :: 0 <= k < |Chunks(size, seg)| ==>
      && Chunks(size, seg)[k].first == k * seg
      && Chunks(size, seg)[k].first < Chunks(size, seg)[k].last
      && Chunks(size, seg)[k].last == Min(k * seg + seg, size)
    ensures forall k :: 0 <= k < |Chunks(size, seg)| - 1 ==>
      Chunks(size, seg)[k].last == Chunks(size, seg)[k + 1].first
      && Chunks(size, seg)[k].last - Chunks(size, seg)[k].first == seg
    ensures size > 0 ==> Chunks(size, seg)[|Chunks(size, seg)| - 1].last == size
  {
    ChunksCount(size, seg);
    var cs := Chunks(size, seg);
    forall k | 0 <= k < |cs|
      ensures cs[k].first == k * seg && cs[k].first < cs[k].last && cs[k].last == Min(k * seg + seg, size)
    {
      ChunkAt(size, seg, k);
    }
    forall k | 0 <= k < |cs| - 1
      ensures cs[k].last == cs[k + 1].first && cs[k].last - cs[k].first == seg
    {
      ChunkAt(size, seg, k);
      ChunkAt(size, seg, k + 1);
      assert (k + 1) * seg == k * seg + seg;
    }
    if size > 0 {
      var m := |cs| - 1;
      ChunkAt(size, seg, m);
      assert (m + 1) * seg == m * seg + seg;
    }
  }

  /**
   * A chunk never straddles two segments: every index of chunk `k` has
   * segment index `k`, hence the rank of the chunk's first element, which
   * is what `rank(segment)` reports.
   */
  lemma {:induction false} ChunkOwnedByOneRank(size: nat, seg: nat, n: nat, k: nat, i: nat)
    requires seg > 0 && n > 0
    requires k < |Chunks(size, seg)|
    requires Chunks(size, seg)[k].first <= i < Chunks(size, seg)[k].last
    ensures SegmentIndex(i, seg) == k
    ensures Rank(i, seg, n) == Rank(Chunks(size, seg)[k].first, seg, n)
  {
    ChunksPartition(size, seg);
    DecomposeExact(k, i - k * seg, seg);
    DecomposeExact(k, 0, seg);
  }

  /**
   * When the container fits in the capacity `n * seg` (always the case for
   * the storage's own segment size), there is at most one chunk per rank
   * and chunk `k` is owned by rank `k`.
   */
  lemma {:induction false} ChunksOnePerRank(size: nat, seg: nat, n: nat)
    requires seg > 0 && n > 0 && size <= n * seg
    ensures |Chunks(size, seg)| <= n
    ensures forall k :: 0 <= k < |Chunks(size, seg)| ==> Rank(Chunks(size, seg)[k].first, seg, n) == k
  {
    ChunksPartition(size, seg);
    SegmentSizeIsLeast(size, seg, 0, 0, n);
    var cs := Chunks(size, seg);
    forall k | 0 <= k < |cs|
      ensures Rank(cs[k].first, seg, n) == k
    {
      DecomposeExact(k, 0, seg);
      ModBelow(k, n);
    }
  }

  /**
   * Dropping from the chunking that starts at segment `j`: the chunks before
   * the position's segment go, the position's chunk is trimmed to start at
   * the position, and nothing is left from the end of the container on.
   */
  /** Dropping `n` elements from the chunks that start at `first`: either the whole first chunk goes, or it is trimmed. */
  lemma DropFirstChunk(first: nat, size: nat, seg: nat, n: nat)
    requires seg > 0 && first < size
    ensures var len := Min(first + seg, size) - first;
      && (n >= len ==>
            DropSegments(Chunk(first, size, seg), n) == DropSegments(Chunk(first + seg, size, seg), n - len))
      && (n < len ==>
            DropSegments(Chunk(first, size, seg), n)
            == [Segment(first + n, Min(first + seg, size))] + Chunk(first + seg, size, seg))
  {
    var cs := Chunk(first, size, seg);
    var c := Segment(first, Min(first + seg, size));
    var rest := Chunk(first + seg, size, seg);
    assert cs == [c] + rest;
    assert cs[1..] == rest;
  }

  /** Dropping up to the position `index` inside the chunk that starts at `j * seg` trims that chunk. */
  lemma DropWithinChunk(j: nat, size: nat, seg: nat, index: nat)
    requires seg > 0 && j * seg <= index < j * seg + seg && index < size
    ensures DropSegments(Chunk(j * seg, size, seg), index - j * seg)
      == [Segment(index, Min(SegmentIndex(index, seg) * seg + seg, size))]
         + Chunk(SegmentIndex(index, seg) * seg + seg, size, seg)
  {
    var f := j * seg;
    var n := index - f;
    DropFirstChunk(f, size, seg, n);
    DecomposeExact(j, n, seg);
    assert SegmentIndex(index, seg) * seg == f;
  }

  /** Dropping at least the whole chunk that starts at `first` removes that chunk. */
  lemma DropPastChunk(first: nat, size: nat, seg: nat, n: nat)
    requires seg > 0 && first < size && n >= Min(first + seg, size) - first
    ensures first + seg <= size ==>
      DropSegments(Chunk(first, size, seg), n) == DropSegments(Chunk(first + seg, size, seg), n - seg)
    ensures first + seg > size ==> DropSegments(Chunk(first, size, seg), n) == []
  {
    DropFirstChunk(first, size, seg, n);
    if first + seg > size {
      assert Chunk(first + seg, size, seg) == [];
    }
  }

  lemma {:induction false} DropChunk(j: nat, size: nat, seg: nat, index: nat)
    requires seg > 0 && j * seg <= index
    ensures index >= size ==> DropSegments(Chunk(j * seg, size, seg), index - j * seg) == []
    ensures index < size ==>
      DropSegments(Chunk(j * seg, size, seg), index - j * seg)
      == [Segment(index, Min(SegmentIndex(index, seg) * seg + seg, size))]
         + Chunk(SegmentIndex(index, seg) * seg + seg, size, seg)
    decreases size - j * seg
  {
    var f := j * seg;
    var n := index - f;
    if f < size {
      if index < f + seg && index < size {
        DropWithinChunk(j, size, seg, index);
      } else {
        DropPastChunk(f, size, seg, n);
        if f + seg <= size {
          assert (j + 1) * seg == f + seg;
          DropChunk(j + 1, size, seg, index);
        }
      }
    }
  }

  /** Dropping from the chunking of the whole container, by `DropChunk` from segment 0. */
  lemma {:induction false} SegmentsFromChunk(size: nat, seg: nat, index: nat)
    requires seg > 0
    ensures index >= size ==> SegmentsFrom(size, seg, index) == []
    ensures index < size ==>
      SegmentsFrom(size, seg, index)
      == [Segment(index, Min(SegmentIndex(index, seg) * seg + seg, size))]
         + Chunk(SegmentIndex(index, seg) * seg + seg, size, seg)
  {
    assert 0 * seg == 0;
    DropChunk(0, size, seg, index);
  }

  /** The chunking from the start of segment `j` is the suffix of the whole chunking from chunk `j`. */
  lemma {:induction false} ChunkSuffix(j: nat, size: nat, seg: nat)
    requires seg > 0 && j <= |Chunks(size, seg)|
    ensures Chunk(j * seg, size, seg) == Chunks(size, seg)[j..]
  {
    ChunksCount(size, seg);
    ChunkCount(j, size, seg);
    var q := CeilDiv(size, seg);
    if j * seg >= size && j < q {
      MulMonotone(j, q - 1, seg);
    }
    var cs := Chunk(j * seg, size, seg);
    forall k | 0 <= k < |cs|
      ensures cs[k] == Chunks(size, seg)[j + k]
    {
      ChunkElement(j, size, seg, k);
      ChunkAt(size, seg, j + k);
    }
  }

  /**
   * Closed form of the segment view: from a position inside the container
   * it is the position's own chunk, trimmed to start at the position,
   * followed by all later chunks; from the end (or beyond) it is empty.
   */
  /** The chunk holding position `index`, and the chunks after it. */
  lemma {:induction false} ChunkOfIndex(size: nat, seg: nat, index: nat)
    requires seg > 0 && index < size
    ensures var d := SegmentIndex(index, seg);
      && d < |Chunks(size, seg)|
      && Chunks(size, seg)[d].last == Min(d * seg + seg, size)
      && Chunk(d * seg + seg, size, seg) == Chunks(size, seg)[d + 1..]
  {
    var d := SegmentIndex(index, seg);
    var e := d * seg + seg;
    assert d * seg + LocalIndex(index, seg) == index;
    ChunksCount(size, seg);
    CeilDivAbove(size, seg, d);
    ChunkAt(size, seg, d);
    assert (d + 1) * seg == e;
    ChunkSuffix(d + 1, size, seg);
  }

  lemma {:induction false} SegmentsFromShape(size: nat, seg: nat, index: nat)
    requires seg > 0
    ensures index < size ==>
      && SegmentIndex(index, seg) < |Chunks(size, seg)|
      && SegmentsFrom(size, seg, index)
         == [Segment(index, Chunks(size, seg)[SegmentIndex(index, seg)].last)]
            + Chunks(size, seg)[SegmentIndex(index, seg) + 1..]
    ensures index >= size ==> SegmentsFrom(size, seg, index) == []
  {
    SegmentsFromChunk(size, seg, index);
    if index < size {
      ChunkOfIndex(size, seg, index);
    }
  }

  /** From the beginning, the segment view is the whole chunking. */
  lemma {:induction false} SegmentsFromBeginning(size: nat, seg: nat)
    requires seg > 0
    ensures SegmentsFrom(size, seg, 0) == Chunks(size, seg)
  {
    if size > 0 {
      SegmentsFromShape(size, seg, 0);
      ChunkAt(size, seg, 0);
      var cs := Chunks(size, seg);
      assert cs == [cs[0]] + cs[1..];
    }
  }

  /**
   * One step along the segment view: its first segment starts at the
   * position, and the rest of the view is the segment view from the end of
   * that first segment.
   */
  lemma {:induction false} SegmentsFromTail(size: nat, seg: nat, index: nat)
    requires seg > 0 && index < size
    ensures var s := SegmentsFrom(size, seg, index);
      && |s| > 0 && s[0].first == index && index < s[0].last <= size
      && s[0].last == Min(SegmentIndex(index, seg) * seg + seg, size)
      && s[1..] == SegmentsFrom(size, seg, s[0].last)
  {
    var d := SegmentIndex(index, seg);
    var e := d * seg + seg;
    var head := Segment(index, Min(e, size));
    var rest := Chunk(e, size, seg);
    assert index < e by {
      assert d * seg + LocalIndex(index, seg) == index;
    }
    SegmentsFromChunk(size, seg, index);
    assert SegmentsFrom(size, seg, index) == [head] + rest;
    assert ([head] + rest)[1..] == rest;
    assert SegmentsFrom(size, seg, Min(e, size)) == rest by {
      if e < size {
        SegmentsFromNext(size, seg, d);
      } else {
        SegmentsFromChunk(size, seg, size);
      }
    }
  }

  /** The first segment of the view lies within the storage segment that holds the position. */
  lemma {:induction false} FirstSegmentWithinOneSegment(size: nat, seg: nat, index: nat)
    requires seg > 0 && index < size
    ensures |SegmentsFrom(size, seg, index)| > 0
    ensures forall i :: index <= i < SegmentsFrom(size, seg, index)[0].last ==>
      SegmentIndex(i, seg) == SegmentIndex(index, seg)
  {
    var d := SegmentIndex(index, seg);
    SegmentsFromTail(size, seg, index);
    assert d * seg + LocalIndex(index, seg) == index;
    SegmentRange(d, seg);
  }

  /** Every index of the range of segment `d` has segment index `d`. */
  lemma {:induction false} SegmentRange(d: nat, seg: nat)
    requires seg > 0
    ensures forall i :: d * seg <= i < d * seg + seg ==> SegmentIndex(i, seg) == d
  {
    forall i | d * seg <= i < d * seg + seg
      ensures SegmentIndex(i, seg) == d
    {
      DecomposeExact(d, i - d * seg, seg);
    }
  }

  /** From the start of a segment inside the container, the segment view is the chunking from there. */
  lemma {:induction false} SegmentsFromNext(size: nat, seg: nat, d: nat)
    requires seg > 0 && d * seg + seg < size
    ensures SegmentsFrom(size, seg, d * seg + seg) == Chunk(d * seg + seg, size, seg)
  {
    var e := d * seg + seg;
    SegmentEndAliasesNextStart(d, seg);
    SegmentsFromChunk(size, seg, e);
    assert (d + 1) * seg + seg == e + seg;
  }
}
