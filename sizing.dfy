/**
 * Segment sizing policy of the distributed storage: how long each rank's
 * owned segment is, given the container size, the number of ranks and the
 * halo (ghost region) extents.
 */
module Sizing {

  /** Ghost-element counts requested before and after each rank's segment. */
  datatype HaloBounds = HaloBounds(prev: nat, next: nat)

  function Max(a: nat, b: nat): nat {
    if a < b then b else a
  }

  /**
   * `(size + n - 1) / n`: the per-rank share rounded up, which is the least
   * count whose `n`-fold covers `size`.
   */
  function CeilDiv(size: nat, n: nat): (q: nat)
    requires n > 0
    ensures q * n >= size
    ensures q == 0 || (q - 1) * n < size
  {
    var r := (size + n - 1) / n;
    assert r * n + (size + n - 1) % n == size + n - 1;
    r
  }

  /**
   * `storage::segment_size`: the larger of the rounded-up share and the two
   * halo extents, so that a halo never reaches past the neighbouring rank.
   */
  function SegmentSize(size: nat, n: nat, prev: nat, next: nat): (s: nat)
    requires n > 0
    ensures s >= CeilDiv(size, n) && s >= prev && s >= next
    ensures s == CeilDiv(size, n) || s == prev || s == next
  {
    Max(CeilDiv(size, n), Max(prev, next))
  }

  /** Multiplying by the same count keeps the order of two naturals. */
  lemma {:induction false} MulMonotone(a: nat, b: nat, n: nat)
    requires a <= b
    ensures a * n <= b * n
  {
    if n > 0 {
      MulMonotone(a, b, n - 1);
      assert a * n == a * (n - 1) + a;
      assert b * n == b * (n - 1) + b;
    }
  }

  /** Capacity (`n * segment_size`) is never smaller than the container size. */
  lemma {:induction false} CapacityCoversSize(size: nat, n: nat, prev: nat, next: nat)
    requires n > 0
    ensures n * SegmentSize(size, n, prev, next) >= size
  {
    MulMonotone(CeilDiv(size, n), SegmentSize(size, n, prev, next), n);
  }

  /**
   * The segment size is the LEAST length that covers the container across
   * the ranks and is at least each halo extent.
   */
  lemma {:induction false} SegmentSizeIsLeast(size: nat, n: nat, prev: nat, next: nat, s: nat)
    requires n > 0
    requires s * n >= size && s >= prev && s >= next
    ensures s >= SegmentSize(size, n, prev, next)
  {
    var c := CeilDiv(size, n);
    if s < c {
      MulMonotone(s, c - 1, n);
    }
  }

  /** A non-empty container always gets a non-empty segment on every rank. */
  lemma {:induction false} SegmentSizePositive(size: nat, n: nat, prev: nat, next: nat)
    requires n > 0 && size > 0
    ensures SegmentSize(size, n, prev, next) > 0
  {
  }

  /** Ten elements on two ranks without halo: segments of five. */
  lemma ScenarioTwoRanks()
    ensures SegmentSize(10, 2, 0, 0) == 5
    ensures 2 * SegmentSize(10, 2, 0, 0) == 10
  {
  }

  /**
   * Ten elements on four ranks with a one-element halo on each side:
   * segments of three, capacity twelve, two padding slots.
   */
  lemma ScenarioFourRanksWithHalo()
    ensures SegmentSize(10, 4, 1, 1) == 3
    ensures 4 * SegmentSize(10, 4, 1, 1) == 12
  {
  }

  /** A halo wider than the per-rank share enlarges the segment to the halo width. */
  lemma ScenarioWideHalo()
    ensures SegmentSize(4, 4, 3, 0) == 3
    ensures SegmentSize(0, 3, 0, 2) == 2
  {
  }
}
