# Distributed vector (mhp) — a verified Dafny model

This project models the distributed vector of the `mhp` namespace. It is a
logically contiguous sequence of `size` elements. The elements are split
into equal-sized contiguous segments, one per rank, and stored behind a
one-sided communication window. The model covers five parts:

- **Segment sizing** (`Sizing`). The segment length is the larger of the
  rounded-up per-rank share and the two halo extents. From it follow the
  buffer length `segment + prev + next` and the capacity `ranks * segment`.
- **Index decomposition and ownership** (`Layout`). A global index splits
  into a segment index, a local index, an owning rank, and a buffer offset
  past the leading halo.
- **Storage** (`Mhp.Storage`). Each rank has one buffer, modelled as one
  row of a two-dimensional array. The class provides `get`, `put`, `local`
  and `rank`.
- **Iterator and proxy** (`Mhp.DistributedIterator`, `Mhp.Reference`). The
  iterator is a random-access iterator whose position is a `std::size_t`,
  so its arithmetic wraps modulo 2^64 (`IndexArith`). The proxy reference
  turns a conversion into `get` and an assignment into `put`.
- **Segment view and alignment** (`Segments`, `Alignment`, and
  `Mhp.AlignedIterators`). The segment view chunks the container and then
  drops the elements that lie before the position. The alignment checker
  decides whether several iterators can be traversed rank-locally.
  `Mhp.DistributedVector` ties these parts together.

All ranks are seen sequentially. Row `r` of `Storage.window` is rank `r`'s
buffer `data_`. A `Storage` object is the view of the calling rank
`myRank`. The communicator's size and rank are constructor parameters.
A fence only completes pending one-sided operations, so it is not modelled:
a `get` sees every earlier `put` immediately.

Two facts about the code that the model proves:

- `segments()` chunks the whole range `[0, size)` and then drops the first
  `index` elements. `Segments.SegmentsFromShape` proves that the result is
  the position's own chunk, trimmed to start at the position, followed by
  every later chunk.
- The segment size is computed as a maximum. `Sizing.SegmentSizeIsLeast`
  proves that it is the least length that covers `size` over the ranks and
  is at least both halo extents.

## Model

| member | source | states |
|---|---|---|
| `Sizing.CeilDiv` | include/dr/mhp/containers/distributed_vector.hpp:64 | `(size + n - 1) / n` is the least `q` with `q * n >= size` |
| `Sizing.SegmentSize` | include/dr/mhp/containers/distributed_vector.hpp:61-65 | the segment size is at least the rounded-up share, at least `prev` and at least `next`, and equals one of the three |
| `Sizing.SegmentSizeIsLeast` | include/dr/mhp/containers/distributed_vector.hpp:61-65 | every length that covers `size` over `n` ranks and is at least both halo extents is at least the segment size, so the segment size is the minimal one |
| `Sizing.CapacityCoversSize` | include/dr/mhp/containers/distributed_vector.hpp:47 | capacity `n * segment_size` is at least the container size |
| `Sizing.SegmentSizePositive` | include/dr/mhp/containers/distributed_vector.hpp:61-65 | a non-empty container gets a non-empty segment |
| `Sizing.ScenarioTwoRanks` | include/dr/mhp/containers/distributed_vector.hpp:61-65 | ten elements on two ranks without halo give segments of five and capacity ten |
| `Sizing.ScenarioFourRanksWithHalo` | include/dr/mhp/containers/distributed_vector.hpp:61-65 | ten elements on four ranks with halo (1, 1) give segments of three and capacity twelve |
| `Sizing.ScenarioWideHalo` | include/dr/mhp/containers/distributed_vector.hpp:62-64 | a halo wider than the share sets the segment size to the halo width, even for an empty container |
| `Layout.SegmentIndex` | include/dr/mhp/containers/distributed_vector.hpp:84 | `segment_index(i)` is `i / segment_size`, the number of the segment holding `i` |
| `Layout.LocalIndex` | include/dr/mhp/containers/distributed_vector.hpp:84-85 | the local index is below the segment size, and `segment_index * seg + local_index` reconstructs the index |
| `Layout.DecomposeExact` | include/dr/mhp/containers/distributed_vector.hpp:84-85 | `q * seg + t` with `t < seg` decomposes as segment `q`, local index `t` (uniqueness of the decomposition) |
| `Layout.Rank` | include/dr/mhp/containers/distributed_vector.hpp:96-98 | the owner of any index is a valid rank `< n` |
| `Layout.OwnerWithinCapacity` | include/dr/mhp/containers/distributed_vector.hpp:96-98 | for an index below the capacity, the segment index is `< n` and the owning rank equals the segment index |
| `Layout.Offset` | include/dr/mhp/containers/distributed_vector.hpp:67-80 | the buffer offset `local_index + prev` lies in `[prev, prev + seg)`, never in a halo |
| `Layout.AddressInjective` | include/dr/mhp/containers/distributed_vector.hpp:67-80 | two indices addressing the same (segment, offset) slot are equal |
| `Layout.AddressSurjective` | include/dr/mhp/containers/distributed_vector.hpp:67-80 | every owned slot `(r, o)` of every rank is addressed by the index `r * seg + (o - prev)` below the capacity |
| `Layout.HaloNearestNeighbour` | include/dr/mhp/containers/distributed_vector.hpp:62-64 | since `seg >= prev` and `seg >= next`, the `prev` indices before segment `r` lie in segment `r - 1` and the `next` indices after it lie in segment `r + 1` |
| `Layout.SegmentEndAliasesNextStart` | include/dr/mhp/containers/distributed_vector.hpp:82-85 | the one-past-the-end index of segment `k` decomposes as segment `k + 1`, local index 0 |
| `Segments.Chunks` | include/dr/mhp/containers/distributed_vector.hpp:209 | `views::chunk(make_range(), segment_size_)` as the list of index ranges `[k*seg, min(k*seg+seg, size))` |
| `Segments.ChunkTotal` | include/dr/mhp/containers/distributed_vector.hpp:209 | the chunks of `[first, size)` together hold exactly `size - first` elements |
| `Segments.ChunkCount` | include/dr/mhp/containers/distributed_vector.hpp:209 | chunking from the start of segment `j` yields `ceil(size/seg) - j` chunks |
| `Segments.ChunkElement` | include/dr/mhp/containers/distributed_vector.hpp:209 | the `k`-th chunk from the start of segment `j` is `[(j+k)*seg, min((j+k+1)*seg, size))` |
| `Segments.ChunkAt` | include/dr/mhp/containers/distributed_vector.hpp:207-210 | chunk `k` of `[0, size)` is `[k*seg, min(k*seg+seg, size))` and starts inside the container |
| `Segments.ChunksCount` | include/dr/mhp/containers/distributed_vector.hpp:207-210 | there are `ceil(size / seg)` chunks |
| `Segments.ChunksPartition` | include/dr/mhp/containers/distributed_vector.hpp:207-210 | the chunks are non-empty and adjacent, all but the last hold exactly `seg` elements, and the last ends at `size` |
| `Segments.ChunkOwnedByOneRank` | include/dr/mhp/containers/distributed_vector.hpp:204-210 | every index of chunk `k` has segment index `k` and the same owning rank as the chunk's first element |
| `Segments.ChunksOnePerRank` | include/dr/mhp/containers/distributed_vector.hpp:207-210 | when `size <= n * seg`, there are at most `n` chunks and chunk `k` is owned by rank `k` |
| `Segments.DropSegments` | include/dr/mhp/containers/distributed_vector.hpp:208 | dropping `n` elements leaves `total - n` elements (none when `n` exceeds the total) in no more segments than before |
| `Segments.DropChunk` | include/dr/mhp/containers/distributed_vector.hpp:208 | dropping up to position `index` from the chunks starting at segment `j` leaves nothing past the end; inside the container it leaves the chunk holding `index`, trimmed to start at `index`, then every later chunk |
| `Segments.SegmentsFrom` | include/dr/mhp/containers/distributed_vector.hpp:207-210 | the segment view from position `index` holds exactly the `size - index` elements from the position to the end, is non-empty iff `index < size`, and then starts at `index` |
| `Segments.SegmentsFromShape` | include/dr/mhp/containers/distributed_vector.hpp:207-210 | from a position inside the container, the segment view is the position's chunk trimmed to start at the position, followed by all later chunks; from the end or beyond, it is empty |
| `Segments.SegmentsFromBeginning` | include/dr/mhp/containers/distributed_vector.hpp:278 | from position 0 the segment view is the whole chunking, as `distributed_vector::segments()` uses it |
| `Segments.SegmentsFromTail` | include/dr/mhp/containers/distributed_vector.hpp:207-210 | the first segment of the view runs from the position to the end of its segment (or to `size`), and the rest of the view is the view from that end |
| `Segments.FirstSegmentWithinOneSegment` | include/dr/mhp/containers/distributed_vector.hpp:207-210 | every index of the view's first segment has the position's segment index |
| `Segments.ChunkSuffix` | include/dr/mhp/containers/distributed_vector.hpp:207-210 | the chunking from the start of segment `j` is the suffix of the whole chunking from chunk `j` |
| `Alignment.View` | include/dr/mhp/containers/distributed_vector.hpp:21-22 | the (rank, size) view has one entry per segment |
| `Alignment.Aligned` | include/dr/mhp/containers/distributed_vector.hpp:8-28 | `aligned` on the segment views: one view is aligned iff non-empty; several are aligned iff the first two zip non-empty and agree in rank and size pairwise, and the tail is aligned; aligned views are all non-empty |
| `Alignment.CheckAligned` | include/dr/mhp/containers/distributed_vector.hpp:8-28 | the loop with early `return false` followed by the recursive call computes exactly `Aligned`: a single view is aligned iff non-empty; otherwise the first two zip non-empty and agree pairwise, and the tail is aligned |
| `Alignment.AlignedChain` | include/dr/mhp/containers/distributed_vector.hpp:13-28 | an argument list is aligned iff every adjacent pair zips non-empty and agrees, and the last view is non-empty |
| `Alignment.AlignedIdentical` | include/dr/mhp/containers/distributed_vector.hpp:8-28 | a list of identical views is aligned iff the view is non-empty |
| `Alignment.AgreeingSegmentsColocated` | include/dr/mhp/containers/distributed_vector.hpp:13-28 | if the segment views from positions `indexA` and `indexB` agree, then for every step `j` inside both containers, elements `indexA + j` and `indexB + j` live on the same rank, so a lockstep walk needs no communication |
| `Alignment.DifferentSegmentSizesNotAligned` | include/dr/mhp/containers/distributed_vector.hpp:20-24 | containers with different segment sizes, each holding at least one full segment, are not aligned from their beginnings |
| `Alignment.OffsetWithinSegmentNotAligned` | include/dr/mhp/containers/distributed_vector.hpp:13-28 | two iterators at positions 0 and 1 of ten-element containers on two ranks (segment 5) would pair elements 4 and 5 on ranks 0 and 1, and `aligned` rejects them because their first segments differ in size |
| `Mhp.Storage.constructor` | include/dr/mhp/containers/distributed_vector.hpp:37-51 | sets segment size, `data_size = seg + prev + next` and `capacity = n * seg`, and allocates `n` buffers of `data_size` |
| `Mhp.Storage.CapacityAtLeastSize` | include/dr/mhp/containers/distributed_vector.hpp:39-47 | a constructed storage has capacity at least its size, and a positive segment size when non-empty |
| `Mhp.Storage.OwnedSlot` | include/dr/mhp/containers/distributed_vector.hpp:96-98 | an index below the capacity lies in a segment `< n`, which is its owning rank |
| `Mhp.Storage.SegmentIndex` | include/dr/mhp/containers/distributed_vector.hpp:84 | below the capacity, `segment_index(i)` is a valid rank and equals `rank(i)` |
| `Mhp.Storage.LocalIndex` | include/dr/mhp/containers/distributed_vector.hpp:85 | `local_index(i)` is below the segment size and `segment_index(i) * seg + local_index(i) == i` |
| `Mhp.Storage.Rank` | include/dr/mhp/containers/distributed_vector.hpp:96-98 | `rank(i)` is a valid rank |
| `Mhp.Storage.Local` | include/dr/mhp/containers/distributed_vector.hpp:87-94 | `local(i)` is present iff the calling rank owns `i`, and then lies strictly between the two halo regions of the buffer |
| `Mhp.Storage.LocalAliasesWindowSlot` | include/dr/mhp/containers/distributed_vector.hpp:87-94 | the slot `local(i)` points at in the caller's buffer holds element `i`, the same slot `get` and `put` address |
| `Mhp.Storage.Get` | include/dr/mhp/containers/distributed_vector.hpp:67-73 | `get(i)` returns element `i` of the global contents, read from the owning rank's buffer at `local_index(i) + prev` |
| `Mhp.Storage.Put` | include/dr/mhp/containers/distributed_vector.hpp:75-80 | `put(i, v)` makes the global contents `old[i := v]`; exactly the slot `(rank(i), local_index(i) + prev)` changes; no halo slot is written |
| `Mhp.DistributedIterator.Default` | include/dr/mhp/containers/distributed_vector.hpp:134 | the default iterator has no storage and position 0 |
| `Mhp.DistributedIterator.constructor` | include/dr/mhp/containers/distributed_vector.hpp:135-136 | stores the given storage and position |
| `Mhp.DistributedIterator.Equals` | include/dr/mhp/containers/distributed_vector.hpp:139-141 | `==` holds iff `<=>` says equivalent and the storages are the same |
| `Mhp.DistributedIterator.Compare` | include/dr/mhp/containers/distributed_vector.hpp:142-144 | `<=>` is less, equivalent or greater exactly as the positions compare |
| `Mhp.DistributedIterator.Difference` | include/dr/mhp/containers/distributed_vector.hpp:155-157 | `it1 - it2` is the exact difference of the positions whenever it fits a `ptrdiff_t` |
| `Mhp.DistributedIterator.SubAssign` | include/dr/mhp/containers/distributed_vector.hpp:147-150 | `-=` moves the position back by `n` modulo 2^64 and keeps the storage |
| `Mhp.DistributedIterator.AddAssign` | include/dr/mhp/containers/distributed_vector.hpp:151-154 | `+=` moves the position by `n` modulo 2^64 and keeps the storage |
| `Mhp.DistributedIterator.Increment` | include/dr/mhp/containers/distributed_vector.hpp:160-163 | prefix `++` advances by one |
| `Mhp.DistributedIterator.Decrement` | include/dr/mhp/containers/distributed_vector.hpp:164-167 | prefix `--` steps back by one |
| `Mhp.DistributedIterator.PostIncrement` | include/dr/mhp/containers/distributed_vector.hpp:170-174 | postfix `++` returns a copy of the old iterator and advances by one |
| `Mhp.DistributedIterator.PostDecrement` | include/dr/mhp/containers/distributed_vector.hpp:175-179 | postfix `--` returns a copy of the old iterator and steps back by one |
| `Mhp.DistributedIterator.Copy` | include/dr/mhp/containers/distributed_vector.hpp:171 | the copy has the same storage and position |
| `Mhp.DistributedIterator.Plus` | include/dr/mhp/containers/distributed_vector.hpp:181-185 | `it + n` is a new iterator on the same storage at the advanced position |
| `Mhp.DistributedIterator.Minus` | include/dr/mhp/containers/distributed_vector.hpp:186-190 | `it - n` is a new iterator on the same storage at the retreated position |
| `Mhp.DistributedIterator.PlusLeft` | include/dr/mhp/containers/distributed_vector.hpp:193-195 | `n + it` is `it + n` |
| `Mhp.DistributedIterator.Deref` | include/dr/mhp/containers/distributed_vector.hpp:198 | `*it` is a proxy for the same storage and position |
| `Mhp.DistributedIterator.Subscript` | include/dr/mhp/containers/distributed_vector.hpp:199 | `it[n]` is a proxy for position `it + n` |
| `Mhp.DistributedIterator.Get` | include/dr/mhp/containers/distributed_vector.hpp:201 | returns the element at the iterator's position |
| `Mhp.DistributedIterator.Put` | include/dr/mhp/containers/distributed_vector.hpp:202 | writes the element at the iterator's position only, leaving every halo slot unchanged |
| `Mhp.DistributedIterator.Rank` | include/dr/mhp/containers/distributed_vector.hpp:204 | the rank of the position is a valid rank |
| `Mhp.DistributedIterator.Local` | include/dr/mhp/containers/distributed_vector.hpp:205 | `local()` is present iff the calling rank owns the position |
| `Mhp.DistributedIterator.Segments` | include/dr/mhp/containers/distributed_vector.hpp:207-210 | `segments()` holds exactly the elements from the position to the end, and is non-empty, starting at the position, iff the position is inside the container |
| `Mhp.DistributedIterator.SegmentIndex` | include/dr/mhp/containers/distributed_vector.hpp:211 | inside the capacity, `segment_index()` is the rank of the position |
| `Mhp.DistributedIterator.LocalIndex` | include/dr/mhp/containers/distributed_vector.hpp:212 | `local_index()` is below the segment size and, with `segment_index()`, reconstructs the position |
| `Mhp.DistributedIterator.MakeRange` | include/dr/mhp/containers/distributed_vector.hpp:220-224 | the range runs from position 0 to the container size on the same storage |
| `Mhp.Reference.constructor` | include/dr/mhp/containers/distributed_vector.hpp:235 | the proxy keeps the iterator's storage and position |
| `Mhp.Reference.Read` | include/dr/mhp/containers/distributed_vector.hpp:237 | conversion to `T` yields the referenced element |
| `Mhp.Reference.Assign` | include/dr/mhp/containers/distributed_vector.hpp:238-241 | assignment of a value writes exactly the referenced element |
| `Mhp.Reference.AssignFrom` | include/dr/mhp/containers/distributed_vector.hpp:242-245 | proxy-to-proxy assignment gives the target the source's value from before the write |
| `Mhp.Reference.AddressOf` | include/dr/mhp/containers/distributed_vector.hpp:246 | `&proxy` is an iterator with the proxy's storage and position |
| `Mhp.DistributedVector.constructor` | include/dr/mhp/containers/distributed_vector.hpp:265-269 | builds one storage of `count` elements with the given halo bounds |
| `Mhp.DistributedVector.Size` | include/dr/mhp/containers/distributed_vector.hpp:276 | `size()` is the logical size, never above the capacity |
| `Mhp.DistributedVector.Begin` | include/dr/mhp/containers/distributed_vector.hpp:280 | `begin()` is at position 0 |
| `Mhp.DistributedVector.End` | include/dr/mhp/containers/distributed_vector.hpp:281 | `end()` is at position `size()` |
| `Mhp.DistributedVector.Subscript` | include/dr/mhp/containers/distributed_vector.hpp:274 | `v[pos]` is a proxy for position `pos`, for every `std::size_t` `pos` |
| `Mhp.DistributedVector.Segments` | include/dr/mhp/containers/distributed_vector.hpp:278 | `segments()` of the vector is the whole chunking of `[0, size)` (empty for a zero segment size) |
| `Mhp.DistributedVector.SegmentsOnePerRank` | include/dr/mhp/containers/distributed_vector.hpp:278 | the container's segments are non-empty, at most one per rank; segment `k` starts at `k * seg`, and all of its indices are owned by rank `k` |
| `Mhp.ViewsOf` | include/dr/mhp/containers/distributed_vector.hpp:16-17 | one segment view per iterator, in argument order |
| `Mhp.AlignedIterators` | include/dr/mhp/containers/distributed_vector.hpp:8-28 | `aligned` on iterators is `aligned` on their segment views; aligned iterators all point inside their containers |
| `Mhp.AlignedSingleIff` | include/dr/mhp/containers/distributed_vector.hpp:8-10 | `aligned(it)` holds iff `it` is positioned inside its container |
| `Mhp.AlignedSameShape` | include/dr/mhp/containers/distributed_vector.hpp:13-28 | iterators at the same position of containers with equal size, segment size and rank count are aligned iff that position is inside the containers |
| `Mhp.AlignedIteratorsColocated` | include/dr/mhp/containers/distributed_vector.hpp:13-28 | for aligned iterators and every step `j` inside all their containers, the `j`-th element from each iterator lives on the same rank as the `j`-th element from the first |
| `Mhp.ComparisonLaws` | include/dr/mhp/containers/distributed_vector.hpp:139-144 | `==` holds iff the positions compare equal and the storages are the same; `<=>` is antisymmetric and looks at positions only |
| `IndexArith.Advance` | include/dr/mhp/containers/distributed_vector.hpp:151-154 | `index_ += n` is the exact sum when it lies in `[0, 2^64)`, and otherwise the sum shifted by `2^64` back into range |
| `IndexArith.Retreat` | include/dr/mhp/containers/distributed_vector.hpp:147-150 | `index_ -= n` is the exact difference when it lies in `[0, 2^64)`, and otherwise the difference shifted by `2^64` back into range |
| `IndexArith.Distance` | include/dr/mhp/containers/distributed_vector.hpp:155-157 | the `size_t` difference converted to `ptrdiff_t` is exact in `[-2^63, 2^63)` and otherwise shifted by `2^64` into that range |
| `IndexArith.DistanceOfAdvance` | include/dr/mhp/containers/distributed_vector.hpp:151-157 | `(i + n) - i == n` for every position and every `ptrdiff_t` step, across wrap-around |
| `IndexArith.RetreatUndoesAdvance` | include/dr/mhp/containers/distributed_vector.hpp:147-154 | `-= n` undoes `+= n` |
| `IndexArith.AdvanceUndoesRetreat` | include/dr/mhp/containers/distributed_vector.hpp:147-154 | `+= n` undoes `-= n` |
| `IndexArith.DistanceExact` | include/dr/mhp/containers/distributed_vector.hpp:155-157 | without wrap-around, the iterator difference is the exact difference of the positions |
| `IndexArith.AdvanceFromZero` | include/dr/mhp/containers/distributed_vector.hpp:274 | `begin()[pos]` lands on `pos` for every `size_t` `pos`, through the signed conversion |
| `Mhp.PlusThenDifference` | include/dr/mhp/containers/distributed_vector.hpp:181-195 | through the iterator's own operators, `(it + n) - it == n` and `n + it == it + n` |
| `Mhp.IncrementThenDecrement` | include/dr/mhp/containers/distributed_vector.hpp:160-167 | `++` followed by `--` restores the storage and the position |
| `Mhp.AddressOfDeref` | include/dr/mhp/containers/distributed_vector.hpp:246 | `&*it == it` |
| `Mhp.AssignThenRead` | include/dr/mhp/containers/distributed_vector.hpp:237-241 | assigning `v` through a proxy and then reading the proxy yields `v` |

## Left out

- The one-sided window lifecycle is not modelled: create, free, and the fence in the constructor and destructor. The same holds for `fence`, `barrier`, `my_rank`, and the communicator's `rank`/`size`. These are foreign communication primitives. The rank count and the calling rank are constructor parameters instead.
- Epochs and visibility of one-sided operations across ranks are not modelled. Ranks are seen sequentially, so every `put` is visible at once.
- Halo exchange is not modelled: `storage::halo_exchange`, `distributed_vector::halo_exchange`, `halo()`, and the halo object itself. details/halo.hpp is not part of this model. The model states only that `put` never writes a halo slot.
- `lib::internal::drop_segments` is not part of this model. It is modelled as dropping the first `index` elements of the chunking: the chunks that the count covers are removed, and the first remaining chunk is trimmed to start at the position.
- A chunking with segment size 0 is modelled as empty. This case only arises for an empty container without halo.
- The storage destructor, the allocator (and the constructor's default allocator argument), `lib::drlog` logging and the `fmt::formatter` specialisation are not modelled. They are resource management and output. The default argument `hb = lib::halo_bounds()` is not modelled either: callers of `Mhp.DistributedVector.constructor` pass the halo bounds explicitly.
- Deleted copy operations and the lifetime rules of iterators and proxies are not modelled. Dafny objects are references, and a dangling storage cannot arise.
- The default `distributed_vector()` constructor is not modelled. Its storage member has no default constructor.
- The initial contents of the buffers are not modelled. The source's allocator leaves them uninitialised, while the model starts from default values.
- include/dr/details/distributed_vector.hpp and include/dr/mhp.hpp are not part of this model.
- Sizing.SegmentSize: computed on unbounded integers. The source's `size + comm.size() - 1` would wrap for a size within `comm.size() - 1` of 2^64.
- Mhp.Storage.constructor: the capacity `n * segment_size` and `data_size` are computed without `std::size_t` wrap-around. Only the iterator position wraps.
- Mhp.DistributedIterator.Segments returns plain index ranges, not sub-ranges of iterators. The alignment checker reads each segment only through its rank (the rank of its first index) and its length.
