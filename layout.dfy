/**
 * How a global index of the distributed storage is decomposed into the
 * segment that holds it, its position inside that segment, the rank that
 * owns it, and its offset in that rank's buffer (halo prefix included).
 * The window of all ranks is addressed by the pair (segment, offset).
 */
module Layout {
  import opened Sizing

  datatype Option<T> = None | Some(value: T)

  /** `storage::segment_index`: `index / segment_size_`. */
  function SegmentIndex(i: nat, seg: nat): nat
    requires seg > 0
  {
    i / seg
  }

  /**
   * `storage::local_index`: `index % segment_size_`; together with the
   * segment index it reconstructs the global index exactly.
   */
  function LocalIndex(i: nat, seg: nat): (l: nat)
    requires seg > 0
    ensures l < seg
    ensures SegmentIndex(i, seg) * seg + l == i
  {
    i % seg
  }

  /** `storage::rank`: `segment_index(index) % comm_.size()`; always a valid rank. */
  function Rank(i: nat, seg: nat, n: nat): (r: nat)
    requires seg > 0 && n > 0
    ensures r < n
  {
    SegmentIndex(i, seg) % n
  }

  /**
   * The buffer offset used by `get`, `put` and `local`:
   * `local_index(index) + halo_bounds_.prev`. It always lies in the owned
   * middle part of the buffer, never in either halo.
   */
  function Offset(i: nat, seg: nat, prev: nat): (o: nat)
    requires seg > 0
    ensures prev <= o < prev + seg
  {
    LocalIndex(i, seg) + prev
  }

  /** Quotient and remainder are unique: `q * seg + t` with `t < seg` decomposes as `(q, t)`. */
  lemma {:induction false} DecomposeExact(q: nat, t: nat, seg: nat)
    requires t < seg
    ensures SegmentIndex(q * seg + t, seg) == q
    ensures LocalIndex(q * seg + t, seg) == t
  {
    var i := q * seg + t;
    var q' := SegmentIndex(i, seg);
    var t' := LocalIndex(i, seg);
    if q' > q {
      assert (q + 1) * seg == q * seg + seg;
      MulMonotone(q + 1, q', seg);
    } else if q' < q {
      assert (q' + 1) * seg == q' * seg + seg;
      MulMonotone(q' + 1, q, seg);
    }
  }

  /**
   * Every index below the capacity `n * seg` lies in a segment `< n`, so its
   * owner `rank(i)` is that very segment, the one `get` and `put` address.
   */
  lemma {:induction false} OwnerWithinCapacity(i: nat, seg: nat, n: nat)
    requires seg > 0 && n > 0
    requires i < n * seg
    ensures SegmentIndex(i, seg) < n
    ensures Rank(i, seg, n) == SegmentIndex(i, seg)
  {
    var q := SegmentIndex(i, seg);
    if q >= n {
      MulMonotone(n, q, seg);
    }
    ModBelow(q, n);
  }

  /** A value below the modulus is its own remainder. */
  lemma {:induction false} ModBelow(q: nat, n: nat)
    requires q < n
    ensures q % n == q
  {
  }

  /** Distinct global indices never share a window slot. */
  lemma {:induction false} AddressInjective(i: nat, j: nat, seg: nat, prev: nat)
    requires seg > 0
    requires SegmentIndex(i, seg) == SegmentIndex(j, seg)
    requires Offset(i, seg, prev) == Offset(j, seg, prev)
    ensures i == j
  {
    assert LocalIndex(i, seg) == LocalIndex(j, seg);
  }

  /**
   * Every owned slot of every rank's buffer is addressed by exactly the
   * global index `r * seg + (o - prev)`, which lies below the capacity.
   */
  lemma {:induction false} AddressSurjective(r: nat, o: nat, seg: nat, prev: nat, n: nat)
    requires r < n
    requires prev <= o < prev + seg
    ensures r * seg + (o - prev) < n * seg
    ensures SegmentIndex(r * seg + (o - prev), seg) == r
    ensures Offset(r * seg + (o - prev), seg, prev) == o
  {
    DecomposeExact(r, o - prev, seg);
    MulMonotone(r + 1, n, seg);
    assert (r + 1) * seg == r * seg + seg;
  }

  /**
   * Because the segment is at least as long as each halo extent, the
   * `prev` global indices just before segment `r` all lie in segment
   * `r - 1`, and the `next` ones just after it all lie in segment `r + 1`:
   * a halo is only ever filled from the nearest neighbour.
   */
  lemma {:induction false} HaloNearestNeighbour(r: nat, k: nat, seg: nat, prev: nat, next: nat)
    requires seg > 0 && seg >= prev && seg >= next
    ensures 0 < r && 1 <= k <= prev ==> SegmentIndex(r * seg - k, seg) == r - 1
    ensures k < next ==> SegmentIndex((r + 1) * seg + k, seg) == r + 1
  {
    if 0 < r && 1 <= k <= prev {
      assert r * seg - k == (r - 1) * seg + (seg - k);
      DecomposeExact(r - 1, seg - k, seg);
    }
    if k < next {
      DecomposeExact(r + 1, k, seg);
    }
  }

  /**
   * The one-past-the-end position of segment `k` decomposes as the first
   * position of segment `k + 1`: an end iterator of a segment cannot be
   * told apart from the beginning of the next one by this decomposition.
   */
  lemma {:induction false} SegmentEndAliasesNextStart(k: nat, seg: nat)
    requires seg > 0
    ensures SegmentIndex(k * seg + seg, seg) == k + 1
    ensures LocalIndex(k * seg + seg, seg) == 0
  {
    assert k * seg + seg == (k + 1) * seg + 0;
    DecomposeExact(k + 1, 0, seg);
  }
}
