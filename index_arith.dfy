/**
 * The integer types the iterator works in. The iterator's position is a
 * `std::size_t` and its distances are `std::ptrdiff_t`; on the 64-bit targets
 * the library is built for, both are 64 bits wide and C++20 defines their
 * conversions and unsigned arithmetic modulo 2^64. This module writes that
 * wrap-around out explicitly.
 */
module IndexArith {

  /** 2^64, the number of distinct `std::size_t` values. */
  const WORD: int := 0x1_0000_0000_0000_0000

  /** 2^63, the magnitude bound of `std::ptrdiff_t`. */
  const HALF: int := 0x8000_0000_0000_0000

  /** A `std::size_t` value. */
  type SizeT = i: int | 0 <= i < WORD

  /** A `std::ptrdiff_t` value. */
  type PtrDiff = d: int | -HALF <= d < HALF

  /** Unsigned arithmetic: reduce an exact result modulo 2^64. */
  function Wrap(x: int): SizeT {
    x % WORD
  }

  /** Two's-complement reading of a `std::size_t` as `std::ptrdiff_t`. */
  function ToSigned(x: SizeT): PtrDiff {
    if x < HALF then x else x - WORD
  }

  /**
   * `index_ += n`: the signed step is converted to `std::size_t` and added.
   * The result is the exact sum, moved by one period when it leaves the
   * `std::size_t` range.
   */
  function Advance(i: SizeT, n: PtrDiff): (r: SizeT)
    ensures 0 <= i + n < WORD ==> r == i + n
    ensures i + n < 0 ==> r == i + n + WORD
    ensures WORD <= i + n ==> r == i + n - WORD
  {
    WrapNear(i + n);
    Wrap(i + n)
  }

  /** `index_ -= n`: the exact difference, moved by one period when it leaves the range. */
  function Retreat(i: SizeT, n: PtrDiff): (r: SizeT)
    ensures 0 <= i - n < WORD ==> r == i - n
    ensures i - n < 0 ==> r == i - n + WORD
    ensures WORD <= i - n ==> r == i - n - WORD
  {
    WrapNear(i - n);
    Wrap(i - n)
  }

  /**
   * `index_ - other.index_`, computed in `std::size_t` and returned as
   * `std::ptrdiff_t`: the exact difference when it is representable, and
   * otherwise the exact difference moved by one period.
   */
  function Distance(a: SizeT, b: SizeT): (d: PtrDiff)
    ensures -HALF <= a - b < HALF ==> d == a - b
    ensures a - b < -HALF ==> d == a - b + WORD
    ensures HALF <= a - b ==> d == a - b - WORD
  {
    WrapNear(a - b);
    ToSigned(Wrap(a - b))
  }

  /** Reduction of a value at most one period away from the `std::size_t` range. */
  lemma WrapNear(x: int)
    requires -WORD <= x < 2 * WORD
    ensures Wrap(x) == if x < 0 then x + WORD else if x < WORD then x else x - WORD
  {
  }

  /** `(it + n) - it == n` for every position and every representable step. */
  lemma {:induction false} DistanceOfAdvance(i: SizeT, n: PtrDiff)
    ensures Distance(Advance(i, n), i) == n
  {
    WrapNear(i + n);
    var a := Advance(i, n);
    WrapNear(a - i);
    WrapNear(n);
  }

  /** `it -= n` undoes `it += n`; with `n == 1`, `--` undoes `++`. */
  lemma {:induction false} RetreatUndoesAdvance(i: SizeT, n: PtrDiff)
    ensures Retreat(Advance(i, n), n) == i
  {
    WrapNear(i + n);
    WrapNear(Advance(i, n) - n);
  }

  /** `it += n` undoes `it -= n`. */
  lemma {:induction false} AdvanceUndoesRetreat(i: SizeT, n: PtrDiff)
    ensures Advance(Retreat(i, n), n) == i
  {
    WrapNear(i - n);
    WrapNear(Retreat(i, n) + n);
  }

  /** When no wrap-around happens, the difference of two positions is their exact difference. */
  lemma {:induction false} DistanceExact(a: SizeT, b: SizeT)
    requires -HALF <= a - b < HALF
    ensures Distance(a, b) == a - b
  {
    WrapNear(a - b);
  }

  /**
   * `begin()[pos]`: the unsigned position is converted to the signed step of
   * `operator[]` and added to index 0, which lands exactly on `pos` for every
   * `std::size_t` value, even those whose signed reading is negative.
   */
  lemma {:induction false} AdvanceFromZero(pos: SizeT)
    ensures Advance(0, ToSigned(pos)) == pos
  {
    WrapNear(ToSigned(pos));
  }
}
