/**
 * The distributed vector of the `mhp` namespace: block-partitioned storage
 * behind a one-sided communication window, a random-access iterator over
 * global indices, the reference proxy that turns reads into `get` and
 * assignments into `put`, and the container that ties them together.
 *
 * The ranks run the same program; this model sees them sequentially. The
 * window is one buffer per rank, row `r` of `Storage.window` being rank
 * `r`'s buffer of `dataSize` elements: `halo.prev` ghost slots, the
 * `segmentSize` owned slots, then `halo.next` ghost slots. A `Storage`
 * object is the view of the calling rank `myRank`. Fences only complete
 * pending one-sided operations, so in this sequential model a `get` sees
 * every earlier `put` at once.
 */
module Mhp {
  import opened IndexArith
  import opened Sizing
  import opened Layout
  import opened Segments
  import opened Alignment

  /** The result of `operator<=>` on iterators (`std::strong_ordering`). */
  datatype Ordering = Less | Equivalent | Greater

  /** `mhp::storage`: 1D, homogeneous, distributed storage. */
  class Storage<T(0)> {
    const containerSize: nat
    const containerCapacity: nat
    /** `comm_.size()`, the number of ranks. */
    const rankCount: nat
    /** `comm_.rank()`, the calling rank. */
    const myRank: nat
    const halo: HaloBounds
    const segmentSize: nat
    const dataSize: nat
    /** The one-sided window: row `r` is rank `r`'s local buffer `data_`. */
    const window: array2<T>

    ghost predicate Valid() {
      && 0 < rankCount && myRank < rankCount
      && containerSize < WORD
      && segmentSize == SegmentSize(containerSize, rankCount, halo.prev, halo.next)
      && dataSize == segmentSize + halo.prev + halo.next
      && containerCapacity == rankCount * segmentSize
      && window.Length0 == rankCount && window.Length1 == dataSize
    }

    /**
     * Sizes the segment, the buffer and the capacity from the container
     * size, the halo bounds and the communicator, and allocates the window.
     */
    constructor (size: SizeT, hb: HaloBounds, rankCount: nat, myRank: nat)
      requires 0 < rankCount && myRank < rankCount
      ensures Valid() && fresh(window)
      ensures containerSize == size && halo == hb
      ensures this.rankCount == rankCount && this.myRank == myRank
      ensures segmentSize == SegmentSize(size, rankCount, hb.prev, hb.next)
      ensures dataSize == segmentSize + hb.prev + hb.next
      ensures containerCapacity == rankCount * segmentSize
    {
      var seg := SegmentSize(size, rankCount, hb.prev, hb.next);
      segmentSize := seg;
      dataSize := seg + hb.prev + hb.next;
      halo := hb;
      containerSize := size;
      containerCapacity := rankCount * seg;
      this.rankCount := rankCount;
      this.myRank := myRank;
      window := new T[rankCount, seg + hb.prev + hb.next];
    }

    /** The container never holds more elements than the storage allocates. */
    lemma CapacityAtLeastSize()
      requires Valid()
      ensures containerSize <= containerCapacity
      ensures containerSize > 0 ==> segmentSize > 0
    {
      CapacityCoversSize(containerSize, rankCount, halo.prev, halo.next);
      if containerSize > 0 {
        SegmentSizePositive(containerSize, rankCount, halo.prev, halo.next);
      }
    }

    /** An index below the capacity is owned by its own segment, a valid rank. */
    lemma OwnedSlot(i: nat)
      requires Valid() && i < containerCapacity
      ensures segmentSize > 0
      ensures SegmentIndex(i) < rankCount && Rank(i) == SegmentIndex(i)
    {
      OwnerWithinCapacity(i, segmentSize, rankCount);
    }

    /** `segment_index`: below the capacity, the segment of `i` is its owning rank. */
    function SegmentIndex(i: nat): (q: nat)
      requires Valid() && segmentSize > 0
      ensures i < containerCapacity ==> q < rankCount && q == Rank(i)
    {
      if i < containerCapacity then
        OwnerWithinCapacity(i, segmentSize, rankCount);
        Layout.SegmentIndex(i, segmentSize)
      else
        Layout.SegmentIndex(i, segmentSize)
    }

    /** `local_index`: the position of `i` inside its segment. */
    function LocalIndex(i: nat): (l: nat)
      requires Valid() && segmentSize > 0
      ensures l < segmentSize && SegmentIndex(i) * segmentSize + l == i
    {
      Layout.LocalIndex(i, segmentSize)
    }

    /** `rank`: the rank that owns global index `i`. */
    function Rank(i: nat): (r: nat)
      requires Valid() && segmentSize > 0
      ensures r < rankCount
    {
      Layout.Rank(i, segmentSize, rankCount)
    }

    /**
     * `local`: the offset into the calling rank's own buffer, present
     * exactly when the calling rank owns `i`; it always falls between the
     * two halo regions.
     */
    function Local(i: nat): (p: Option<nat>)
      requires Valid() && segmentSize > 0
      ensures p.Some? <==> Rank(i) == myRank
      ensures p.Some? ==> halo.prev <= p.value && p.value + halo.next < dataSize
    {
      if Rank(i) == myRank then Some(LocalIndex(i) + halo.prev) else None
    }

    /** The value `get(i)` reads: slot `(segment_index(i), local_index(i) + prev)` of the window. */
    ghost function Slot(i: nat): T
      requires Valid() && i < containerCapacity
      reads window
    {
      OwnedSlot(i);
      window[SegmentIndex(i), LocalIndex(i) + halo.prev]
    }

    /** The whole global index space `[0, capacity)` as one sequence. */
    ghost function Contents(): (s: seq<T>)
      requires Valid()
      reads window
      ensures |s| == containerCapacity
    {
      seq(containerCapacity, i requires 0 <= i < containerCapacity && Valid() reads window => Slot(i))
    }

    /** Every slot of the window except `(r0, o0)` is as it was. */
    twostate predicate OnlySlotChanged(r0: nat, o0: nat)
      reads window
    {
      forall r, o :: 0 <= r < window.Length0 && 0 <= o < window.Length1 && (r != r0 || o != o0) ==>
        window[r, o] == old(window[r, o])
    }

    /** No ghost slot of any rank's buffer changed. */
    twostate predicate HalosUnchanged()
      requires Valid()
      reads window
    {
      forall r, o ::
        && 0 <= r < window.Length0 && 0 <= o < window.Length1
        && (o < halo.prev || halo.prev + segmentSize <= o)
        ==> window[r, o] == old(window[r, o])
    }

    /**
     * `local(i)` points at the very slot that `get(i)` and `put(i, _)`
     * address, so the owner reads its own writes directly.
     */
    lemma LocalAliasesWindowSlot(i: nat)
      requires Valid() && i < containerCapacity
      requires segmentSize > 0 && Local(i).Some?
      ensures window[myRank, Local(i).value] == Contents()[i]
    {
      OwnedSlot(i);
    }

    /** `get`: read element `i` from the owning rank's buffer. */
    method Get(i: nat) returns (v: T)
      requires Valid() && i < containerCapacity
      ensures v == Contents()[i]
      ensures v == window[Rank(i), LocalIndex(i) + halo.prev]
    {
      OwnedSlot(i);
      var segment := SegmentIndex(i);
      var local := LocalIndex(i) + halo.prev;
      v := window[segment, local];
    }

    /**
     * `put`: write element `i` into the owning rank's buffer. Exactly one
     * slot changes; no halo slot is written.
     */
    method Put(i: nat, v: T)
      requires Valid() && i < containerCapacity
      modifies window
      ensures segmentSize > 0
      ensures Contents() == old(Contents())[i := v]
      ensures window[Rank(i), LocalIndex(i) + halo.prev] == v
      ensures OnlySlotChanged(Rank(i), LocalIndex(i) + halo.prev)
      ensures HalosUnchanged()
    {
      OwnedSlot(i);
      var segment := SegmentIndex(i);
      var local := LocalIndex(i) + halo.prev;
      window[segment, local] := v;
      forall j | 0 <= j < containerCapacity
        ensures Contents()[j] == old(Contents())[i := v][j]
      {
        OwnedSlot(j);
      }
    }
  }

  /** `distributed_vector_iterator`: a storage and a global position. */
  class DistributedIterator<T(0)> {
    var storage: Storage?<T>
    var index: SizeT

    /** The default-constructed iterator: no storage, position 0. */
    constructor Default()
      ensures storage == null && index == 0
    {
      storage := null;
      index := 0;
    }

    constructor (storage: Storage?<T>, index: SizeT)
      ensures this.storage == storage && this.index == index
    {
      this.storage := storage;
      this.index := index;
    }

    /** `operator==`: equivalent positions in the same storage. */
    function Equals(other: DistributedIterator<T>): (b: bool)
      reads this, other
      ensures b <==> Compare(other) == Equivalent && storage == other.storage
    {
      index == other.index && storage == other.storage
    }

    /** `operator<=>`: the order of the positions, whatever the storages. */
    function Compare(other: DistributedIterator<T>): (o: Ordering)
      reads this, other
      ensures o == Less <==> index < other.index
      ensures o == Equivalent <==> index == other.index
      ensures o == Greater <==> other.index < index
    {
      if index < other.index then Less else if index == other.index then Equivalent else Greater
    }

    /** `operator-(const iterator &)`: signed distance of the positions, exact when representable. */
    function Difference(other: DistributedIterator<T>): (d: PtrDiff)
      reads this, other
      ensures -HALF <= index - other.index < HALF ==> d == index - other.index
    {
      Distance(index, other.index)
    }

    /** `operator+=`. */
    method AddAssign(n: PtrDiff)
      modifies this
      ensures storage == old(storage) && index == Advance(old(index), n)
    {
      index := Advance(index, n);
    }

    /** `operator-=`. */
    method SubAssign(n: PtrDiff)
      modifies this
      ensures storage == old(storage) && index == Retreat(old(index), n)
    {
      index := Retreat(index, n);
    }

    /** Prefix `operator++`. */
    method Increment()
      modifies this
      ensures storage == old(storage) && index == Advance(old(index), 1)
    {
      AddAssign(1);
    }

    /** Prefix `operator--`. */
    method Decrement()
      modifies this
      ensures storage == old(storage) && index == Retreat(old(index), 1)
    {
      SubAssign(1);
    }

    /** A copy of this iterator. */
    method Copy() returns (c: DistributedIterator<T>)
      ensures fresh(c) && c.storage == storage && c.index == index
    {
      c := new DistributedIterator(storage, index);
    }

    /** Postfix `operator++`: returns the old iterator and advances by one. */
    method PostIncrement() returns (prev: DistributedIterator<T>)
      modifies this
      ensures fresh(prev) && prev.storage == old(storage) && prev.index == old(index)
      ensures storage == old(storage) && index == Advance(old(index), 1)
    {
      prev := Copy();
      AddAssign(1);
    }

    /** Postfix `operator--`: returns the old iterator and steps back by one. */
    method PostDecrement() returns (prev: DistributedIterator<T>)
      modifies this
      ensures fresh(prev) && prev.storage == old(storage) && prev.index == old(index)
      ensures storage == old(storage) && index == Retreat(old(index), 1)
    {
      prev := Copy();
      SubAssign(1);
    }

    /** `operator+(difference_type)`: a copy moved by `n`; this iterator is untouched. */
    method Plus(n: PtrDiff) returns (p: DistributedIterator<T>)
      ensures fresh(p) && p.storage == storage && p.index == Advance(index, n)
    {
      p := Copy();
      p.AddAssign(n);
    }

    /** `operator-(difference_type)`. */
    method Minus(n: PtrDiff) returns (p: DistributedIterator<T>)
      ensures fresh(p) && p.storage == storage && p.index == Retreat(index, n)
    {
      p := Copy();
      p.SubAssign(n);
    }

    /** The friend `operator+(difference_type, const iterator &)`: `other + n`. */
    static method PlusLeft(n: PtrDiff, other: DistributedIterator<T>) returns (p: DistributedIterator<T>)
      ensures fresh(p) && p.storage == other.storage && p.index == Advance(other.index, n)
    {
      p := other.Plus(n);
    }

    /** `operator*`: a proxy for the current element. */
    method Deref() returns (r: Reference<T>)
      ensures fresh(r) && r.storage == storage && r.index == index
    {
      r := new Reference(this);
    }

    /** `operator[](n)`: a proxy for the element `n` positions further on. */
    method Subscript(n: PtrDiff) returns (r: Reference<T>)
      ensures fresh(r) && r.storage == storage && r.index == Advance(index, n)
    {
      var moved := Plus(n);
      r := new Reference(moved);
    }

    /** `get()`: `storage_->get(index_)`. */
    method Get() returns (v: T)
      requires storage != null && storage.Valid() && index < storage.containerCapacity
      ensures v == storage.Contents()[index]
    {
      v := storage.Get(index);
    }

    /** `put(value)`: `storage_->put(index_, value)`. */
    method Put(v: T)
      requires storage != null && storage.Valid() && index < storage.containerCapacity
      modifies storage.window
      ensures storage.Contents() == old(storage.Contents())[index := v]
      ensures storage.HalosUnchanged()
    {
      storage.Put(index, v);
    }

    /** `rank()`. */
    function Rank(): (r: nat)
      requires storage != null && storage.Valid() && storage.segmentSize > 0
      reads this
      ensures r < storage.rankCount
    {
      storage.Rank(index)
    }

    /** `local()`: an offset into the caller's buffer exactly when the caller owns the position. */
    function Local(): (p: Option<nat>)
      requires storage != null && storage.Valid() && storage.segmentSize > 0
      reads this
      ensures p.Some? <==> Rank() == storage.myRank
    {
      storage.Local(index)
    }

    /** `segment_index()`: inside the capacity, the rank that owns the position. */
    function SegmentIndex(): (q: nat)
      requires storage != null && storage.Valid() && storage.segmentSize > 0
      reads this
      ensures index < storage.containerCapacity ==> q == Rank()
    {
      storage.SegmentIndex(index)
    }

    /** `local_index()`: the position inside its segment. */
    function LocalIndex(): (l: nat)
      requires storage != null && storage.Valid() && storage.segmentSize > 0
      reads this
      ensures l < storage.segmentSize && SegmentIndex() * storage.segmentSize + l == index
    {
      storage.LocalIndex(index)
    }

    /**
     * `segments()`: the chunking of the whole container with the elements
     * before this position dropped. It holds exactly the elements from the
     * position to the end, and is non-empty, starting at the position,
     * exactly when the position is inside the container.
     */
    function Segments(): (s: seq<Segment>)
      requires storage != null && storage.Valid()
      reads this
      ensures |s| > 0 <==> index < storage.containerSize
      ensures |s| > 0 ==> s[0].first == index
      ensures Total(s) == if index <= storage.containerSize then storage.containerSize - index else 0
    {
      storage.CapacityAtLeastSize();
      SegmentsFrom(storage.containerSize, storage.segmentSize, index)
    }

    /** What the alignment checker reads of `segments()`: rank and length of each segment. */
    function SegmentViews(): (v: seq<SegView>)
      requires storage != null && storage.Valid()
      reads this
      ensures |v| == |Segments()|
    {
      if storage.segmentSize == 0 then [] else View(Segments(), storage.segmentSize, storage.rankCount)
    }

    /** `make_range()`: iterators at 0 and at the container size, on the same storage. */
    method MakeRange() returns (first: DistributedIterator<T>, last: DistributedIterator<T>)
      requires storage != null && storage.Valid()
      ensures fresh(first) && fresh(last)
      ensures first.storage == storage && first.index == 0
      ensures last.storage == storage && last.index == storage.containerSize
    {
      first := new DistributedIterator(storage, 0);
      last := new DistributedIterator(storage, storage.containerSize);
    }
  }

  /**
   * `distributed_vector_reference`: the proxy returned by dereferencing an
   * iterator. It holds a copy of that iterator, which it never changes.
   */
  class Reference<T(0)> {
    const storage: Storage?<T>
    const index: SizeT

    constructor (it: DistributedIterator<T>)
      ensures storage == it.storage && index == it.index
    {
      storage := it.storage;
      index := it.index;
    }

    /** `operator T()`: a `get` of the referenced element. */
    method Read() returns (v: T)
      requires storage != null && storage.Valid() && index < storage.containerCapacity
      ensures v == storage.Contents()[index]
    {
      v := storage.Get(index);
    }

    /** `operator=(const T &)`: a `put` of the referenced element. */
    method Assign(v: T)
      requires storage != null && storage.Valid() && index < storage.containerCapacity
      modifies storage.window
      ensures storage.Contents() == old(storage.Contents())[index := v]
      ensures storage.HalosUnchanged()
    {
      storage.Put(index, v);
    }

    /**
     * `operator=(const reference &)`: read the source element, then write it
     * to the target, even when both proxies refer to the same storage.
     */
    method AssignFrom(other: Reference<T>)
      requires storage != null && storage.Valid() && index < storage.containerCapacity
      requires other.storage != null && other.storage.Valid() && other.index < other.storage.containerCapacity
      modifies storage.window
      ensures storage.Contents() == old(storage.Contents())[index := old(other.storage.Contents())[other.index]]
      ensures storage.HalosUnchanged()
    {
      var v := other.Read();
      Assign(v);
    }

    /** `operator&`: the iterator the proxy was made from. */
    method AddressOf() returns (it: DistributedIterator<T>)
      ensures fresh(it) && it.storage == storage && it.index == index
    {
      it := new DistributedIterator(storage, index);
    }
  }

  /** `mhp::distributed_vector`. */
  class DistributedVector<T(0)> {
    const storage: Storage<T>

    ghost predicate Valid() {
      storage.Valid()
    }

    constructor (count: SizeT, hb: HaloBounds, rankCount: nat, myRank: nat)
      requires 0 < rankCount && myRank < rankCount
      ensures Valid() && fresh(storage) && fresh(storage.window)
      ensures storage.containerSize == count && storage.halo == hb
      ensures storage.rankCount == rankCount && storage.myRank == myRank
    {
      storage := new Storage(count, hb, rankCount, myRank);
    }

    /** `size()`: the logical element count, never more than the allocated capacity. */
    function Size(): (n: SizeT)
      requires Valid()
      ensures n <= storage.containerCapacity
    {
      storage.CapacityAtLeastSize();
      storage.containerSize
    }

    /** `begin()`. */
    method Begin() returns (it: DistributedIterator<T>)
      requires Valid()
      ensures fresh(it) && it.storage == storage && it.index == 0
    {
      it := new DistributedIterator(storage, 0);
    }

    /** `end()`. */
    method End() returns (it: DistributedIterator<T>)
      requires Valid()
      ensures fresh(it) && it.storage == storage && it.index == Size()
    {
      it := new DistributedIterator(storage, storage.containerSize);
    }

    /** `operator[](pos)`: `begin()[pos]`, a proxy for element `pos`. */
    method Subscript(pos: SizeT) returns (r: Reference<T>)
      requires Valid()
      ensures fresh(r) && r.storage == storage && r.index == pos
    {
      var b := Begin();
      r := b.Subscript(ToSigned(pos));
      AdvanceFromZero(pos);
    }

    /** `segments()`: `begin().segments()`, the whole chunking of the container. */
    function Segments(): (s: seq<Segment>)
      requires Valid()
      ensures storage.segmentSize > 0 ==> s == Chunks(storage.containerSize, storage.segmentSize)
      ensures storage.segmentSize == 0 ==> s == []
    {
      var s := SegmentsFrom(storage.containerSize, storage.segmentSize, 0);
      if storage.segmentSize > 0 then
        SegmentsFromBeginning(storage.containerSize, storage.segmentSize);
        s
      else s
    }

    /**
     * The container's segments are the whole chunking of `[0, size)`: one
     * segment per rank at most, segment `k` owned by rank `k`, starting at
     * `k * segment_size`, and every index in it owned by rank `k`.
     */
    lemma SegmentsOnePerRank()
      requires Valid() && storage.segmentSize > 0
      ensures |Segments()| <= storage.rankCount
      ensures forall k :: 0 <= k < |Segments()| ==>
        Segments()[k].first == k * storage.segmentSize &&
        Segments()[k].first < Segments()[k].last &&
        storage.Rank(Segments()[k].first) == k
      ensures forall k, i :: 0 <= k < |Segments()| && Segments()[k].first <= i < Segments()[k].last ==>
        storage.Rank(i) == k
    {
      var size, seg, n := storage.containerSize, storage.segmentSize, storage.rankCount;
      storage.CapacityAtLeastSize();
      ChunksPartition(size, seg);
      ChunksOnePerRank(size, seg, n);
      forall k, i | 0 <= k < |Segments()| && Segments()[k].first <= i < Segments()[k].last
        ensures storage.Rank(i) == k
      {
        ChunkOwnedByOneRank(size, seg, n, k, i);
      }
    }
  }

  /** The segment views of a list of iterators, in argument order. */
  function ViewsOf<T(0)>(its: seq<DistributedIterator<T>>): (vs: seq<seq<SegView>>)
    requires forall j :: 0 <= j < |its| ==> its[j].storage != null && its[j].storage.Valid()
    reads set j | 0 <= j < |its| :: its[j]
    ensures |vs| == |its|
    ensures forall j :: 0 <= j < |its| ==> vs[j] == its[j].SegmentViews()
  {
    if its == [] then []
    else
      var tail := its[1..];
      assert forall j :: 0 <= j < |tail| ==> tail[j] == its[j + 1];
      [its[0].SegmentViews()] + ViewsOf(tail)
  }

  /**
   * `aligned(iter)` and `aligned(iter1, iter2, iters...)` on iterators of
   * distributed vectors; aligned iterators all point inside their containers.
   */
  function AlignedIterators<T(0)>(its: seq<DistributedIterator<T>>): (b: bool)
    requires |its| > 0
    requires forall j :: 0 <= j < |its| ==> its[j].storage != null && its[j].storage.Valid()
    reads set j | 0 <= j < |its| :: its[j]
    ensures b ==> forall j :: 0 <= j < |its| ==> its[j].index < its[j].storage.containerSize
  {
    Aligned(ViewsOf(its))
  }

  /** A single iterator is aligned exactly when it points inside its container. */
  lemma AlignedSingleIff<T(0)>(it: DistributedIterator<T>)
    requires it.storage != null && it.storage.Valid()
    ensures AlignedIterators([it]) <==> it.index < it.storage.containerSize
  {
    assert ViewsOf([it])[0] == it.SegmentViews();
  }

  /**
   * Iterators at the same position of containers with the same size,
   * segment size and rank count (for instance, two vectors built alike)
   * are aligned exactly when that position is inside the containers.
   */
  lemma AlignedSameShape<T(0)>(a: DistributedIterator<T>, b: DistributedIterator<T>)
    requires a.storage != null && a.storage.Valid() && b.storage != null && b.storage.Valid()
    requires a.storage.containerSize == b.storage.containerSize
    requires a.storage.segmentSize == b.storage.segmentSize
    requires a.storage.rankCount == b.storage.rankCount
    requires a.index == b.index
    ensures AlignedIterators([a, b]) <==> a.index < a.storage.containerSize
  {
    var views := ViewsOf([a, b]);
    assert views[0] == a.SegmentViews() && views[1] == b.SegmentViews();
    assert a.SegmentViews() == b.SegmentViews();
    AlignedIdentical(views, a.SegmentViews());
  }

  /**
   * What alignment buys a lockstep walk over several iterators: for every
   * step `j` that stays inside all of their containers, the `j`-th element
   * from each iterator lives on the same rank as the `j`-th element from
   * the first one, so the walk needs no communication.
   */
  lemma {:induction false} AlignedIteratorsColocated<T(0)>(its: seq<DistributedIterator<T>>, j: nat, k: nat)
    requires |its| > 0
    requires forall m :: 0 <= m < |its| ==> its[m].storage != null && its[m].storage.Valid()
    requires AlignedIterators(its)
    requires forall m :: 0 <= m < |its| ==> its[m].index + j < its[m].storage.containerSize
    requires k < |its|
    ensures its[k].storage.segmentSize > 0 && its[0].storage.segmentSize > 0
    ensures its[k].storage.Rank(its[k].index + j) == its[0].storage.Rank(its[0].index + j)
  {
    forall m | 0 < m < |its|
      ensures PairAgrees(its[m - 1].SegmentViews(), its[m].SegmentViews())
    {
      AlignedAdjacent(its, m);
    }
    ChainColocated(its, j, k);
  }

  /** Co-location along a chain of iterators whose neighbours have agreeing segment views. */
  lemma {:induction false} ChainColocated<T(0)>(its: seq<DistributedIterator<T>>, j: nat, k: nat)
    requires forall m :: 0 <= m < |its| ==> its[m].storage != null && its[m].storage.Valid()
    requires forall m :: 0 < m < |its| ==> PairAgrees(its[m - 1].SegmentViews(), its[m].SegmentViews())
    requires forall m :: 0 <= m < |its| ==> its[m].index + j < its[m].storage.containerSize
    requires k < |its|
    ensures its[k].storage.segmentSize > 0 && its[0].storage.segmentSize > 0
    ensures its[k].storage.Rank(its[k].index + j) == its[0].storage.Rank(its[0].index + j)
    decreases k
  {
    its[k].storage.CapacityAtLeastSize();
    its[0].storage.CapacityAtLeastSize();
    if k > 0 {
      ChainColocated(its, j, k - 1);
      PairColocated(its[k - 1], its[k], j);
    }
  }

  /** Neighbours in an aligned argument list have agreeing segment views. */
  lemma {:induction false} AlignedAdjacent<T(0)>(its: seq<DistributedIterator<T>>, k: nat)
    requires |its| > 0
    requires forall m :: 0 <= m < |its| ==> its[m].storage != null && its[m].storage.Valid()
    requires AlignedIterators(its)
    requires 0 < k < |its|
    ensures PairAgrees(its[k - 1].SegmentViews(), its[k].SegmentViews())
  {
    var views := ViewsOf(its);
    AlignedChain(views);
    assert PairAgrees(views[k - 1], views[k]);
  }

  /** Two iterators whose segment views agree pair their `j`-th elements on the same rank. */
  lemma {:induction false} PairColocated<T(0)>(a: DistributedIterator<T>, b: DistributedIterator<T>, j: nat)
    requires a.storage != null && a.storage.Valid() && b.storage != null && b.storage.Valid()
    requires PairAgrees(a.SegmentViews(), b.SegmentViews())
    requires a.index + j < a.storage.containerSize && b.index + j < b.storage.containerSize
    ensures a.storage.segmentSize > 0 && b.storage.segmentSize > 0
    ensures a.storage.Rank(a.index + j) == b.storage.Rank(b.index + j)
  {
    var sa, sb := a.storage, b.storage;
    sa.CapacityAtLeastSize();
    sb.CapacityAtLeastSize();
    AgreeingSegmentsColocated(
      sa.containerSize, sa.segmentSize, sa.rankCount, a.index,
      sb.containerSize, sb.segmentSize, sb.rankCount, b.index, j);
  }

  /** Comparison laws: equality is position AND storage, ordering is position alone. */
  lemma ComparisonLaws<T(0)>(a: DistributedIterator<T>, b: DistributedIterator<T>)
    ensures a.Equals(b) <==> a.Compare(b) == Equivalent && a.storage == b.storage
    ensures a.Compare(b) == Less <==> b.Compare(a) == Greater
    ensures a.Compare(b) == Equivalent <==> a.index == b.index
  {
  }

  /**
   * `(it + n) - it == n` and `n + it == it + n`, computed through the
   * iterator's own operators; the original iterator is left as it was.
   */
  method PlusThenDifference<T(0)>(it: DistributedIterator<T>, n: PtrDiff) returns (d: PtrDiff, commutes: bool)
    ensures d == n && commutes
  {
    var p := it.Plus(n);
    d := p.Difference(it);
    var q := DistributedIterator.PlusLeft(n, it);
    commutes := q.Equals(p);
    DistanceOfAdvance(it.index, n);
  }

  /** `++it` followed by `--it` restores the iterator, storage and position. */
  method IncrementThenDecrement<T(0)>(it: DistributedIterator<T>)
    modifies it
    ensures it.storage == old(it.storage) && it.index == old(it.index)
  {
    ghost var start := it.index;
    it.Increment();
    it.Decrement();
    RetreatUndoesAdvance(start, 1);
  }

  /** `&*it` yields an iterator equal to `it`. */
  method AddressOfDeref<T(0)>(it: DistributedIterator<T>) returns (same: bool)
    ensures same
  {
    var r := it.Deref();
    var back := r.AddressOf();
    same := back.Equals(it);
  }

  /** Assigning `v` through a proxy and then converting the proxy to `T` yields `v`. */
  method AssignThenRead<T(0)>(r: Reference<T>, v: T) returns (x: T)
    requires r.storage != null && r.storage.Valid() && r.index < r.storage.containerCapacity
    modifies r.storage.window
    ensures x == v
  {
    r.Assign(v);
    x := r.Read();
  }

  /** End-to-end: write 42 at index 57 of a 100-element vector on 4 ranks and read it back. */
  method ScenarioPutThenGet() {
    var v := new DistributedVector<int>(100, HaloBounds(0, 0), 4, 1);
    assert v.storage.segmentSize == 25 && v.storage.containerCapacity == 100;
    var r := v.Subscript(57);
    r.Assign(42);
    var x := r.Read();
    assert x == 42;
    assert v.storage.Rank(57) == 2 && v.storage.Local(57).None?;
  }
}
