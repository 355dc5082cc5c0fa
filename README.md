# RuAnnoy query engine in Dafny

This project models the read-only query engine of RuAnnoy, an index reader
compatible with Annoy (approximate nearest neighbours), and proves properties
of the model. It has five parts.

- **Byte region and typed reads** (`bytes.dfy`, module `Bytes`).
  - The memory-mapped index file is an immutable `seq<byte>`.
  - `read_i32` assembles four little-endian bytes into a two's-complement integer.
  - `read_f32` keeps the same four bytes as an `F32` bit pattern.
  - `read_slice` reads `len` consecutive values.
  - The unchecked pointer reinterpretation of the source becomes an explicit bounds precondition.
- **Index data model** (`index_types.dfy`, module `IndexTypes`).
  - `IndexType` with its `repr(u8)` discriminants and its lower-case `Display` name.
  - One coherent `AnnoyIndex` record: dimension, index type, offset before children, header size, `min_leaf_size`, `node_size`, `degree`, root offsets and bytes.
  - The per-hit search result and the count-plus-lists result record.
- **Node layout** (`nodes.dfy`, module `Nodes`).
  - The three `repr(C)` header structs are derived from their field lists: Angular (12 bytes), Minkowski (16) and Dot (16).
  - `NodeHeader::new` chooses the layout by index type.
  - Nodes are addressed by id (`offset = id * node_size`) or by offset (`id = offset / node_size`).
- **Kernels** (`kernels.dfy`, module `Kernels`).
  - The scalar dot product, Minkowski margin, squared Euclidean and Manhattan distances are left folds over `real`.
  - The cosine distance loop is an imperative method proved equal to its fold-based definition.
  - `get_nth_descendant_id`.
- **Priority queue** (`priority_queue.dfy`, module `PriorityQueues`; tests in `priority_queue_tests.dfy`).
  - A class with the two parallel vectors `keys` and `priorities`.
  - Priorities are `Num(real)` or `NaN`, so that `partial_cmp` can be undefined.
  - `push` sifts up and drops the last slot when a comparison is undefined.
  - `pop` swap-removes the root and runs the single bottom-up rebuild pass.
  - The in-file tests are methods whose postconditions are the expected outputs.
- **Loader** (`loader.dfy`, module `Loader`).
  - The header geometry for the metric, and `min_leaf_size` and `node_size`.
  - The backward scan for roots over the byte region, and the removal of the duplicated last root.
- **Search** (`serving.dfy`, module `Serving`).
  - `get_item_vector`.
  - The best-first walk over a local priority queue seeded with every root at `f32::MAX`.
  - The three-way handling of a popped node: leaf, bucket or split.
  - The candidate budget.
  - Keeping only single-item nodes, sorting by raw distance and truncating to `n_results`.
  - `get_nearest_to_item`.

The search is specified by the ghost predicate `Serving.NearestOf`. The result length is `min(n_results, kept candidates)`. Every result id is a kept candidate and ids are pairwise distinct. Raw distances are non-decreasing, and no kept candidate left out is closer than any returned one. Each distance is the normalised distance, or exactly `0.0` when not requested.

The walk's termination needs the index to be well formed. `Serving.WellFormed` asks for a set `S` of node offsets and a `rank` on them such that:
- every root is in `S`;
- every node of `S` fits in the region;
- a bucket's ids name items that fit;
- a split node's two children are nodes of `S` of smaller rank.

The queued weight `Σ 3^rank` then decreases on every pop.

The set of items that can be collected is `Serving.ReachableItems`: the items of every node reachable from a root through the children of split nodes.
- The walk never collects anything else.
- When it stops below its budget, it has collected exactly that set.
- So a query whose budget exceeds the number of reachable items returns the exact nearest neighbours among them.

## Model

| member | source | states |
|---|---|---|
| Bytes.Word | src/lib_impl.rs:10-13 | the four bytes at `idx` assembled little-endian into an unsigned 32-bit word: the byte at `idx` is its low byte and the byte at `idx + 3` its high byte |
| Bytes.ReadI32 | src/lib_impl.rs:10-13 | needs `idx + 4 <= len`; the result is a signed 32-bit value |
| Bytes.ToSigned | src/lib_impl.rs:12 | two's-complement reading: non-negative iff the word is below 2^31, and adding 2^32 to a negative result gives back the word |
| Bytes.ToUsize | src/types/utils.rs:155 | `as usize` keeps non-negative values and maps a negative one to exactly `x + 2^64`, hence to at least 2^64 - 2^31 |
| Bytes.ReadI32Local | src/lib_impl.rs:11 | the read depends on the bytes `idx..idx+3` and on nothing else, for both `read_i32` and `read_f32` |
| Bytes.ReadF32 | src/lib_impl.rs:15-18 | `read_f32` keeps the bit pattern of the same four bytes that `read_i32` reads: the two's-complement reading of the pattern is `read_i32` at `idx` |
| Bytes.DecodeEncodeI32 | src/lib_impl.rs:10-13 | decoding the little-endian encoding of any i32 gives it back |
| Bytes.EncodeDecodeI32 | src/lib_impl.rs:10-13 | re-encoding the integer read at `idx` reproduces the four bytes there |
| Bytes.ReadI32Slice | src/internals/mmap_ext.rs:121-124 | `len` elements, element `j` being the i32 at `idx + 4*j`; needs `idx + 4*len <= len(buf)` |
| Bytes.ReadF32Slice | src/internals/mmap_ext.rs:121-124 | the same for f32 elements |
| IndexTypes.Discriminant | src/types/mod.rs:19-27 | discriminants are below 5 |
| IndexTypes.DiscriminantValues | src/types/mod.rs:19-27 | Angular is 0, Euclidean 1, Manhattan 2, Hamming 3 and Dot 4 |
| IndexTypes.DiscriminantBijective | src/types/mod.rs:19-27 | distinct variants have distinct discriminants, and every value 0..4 is taken |
| IndexTypes.NameValues | src/types/mod.rs:29-34 | `Display` gives "angular", "euclidean", "manhattan", "hamming", "dot" |
| IndexTypes.NameInjective | src/types/mod.rs:29-34 | two variants display alike iff they are equal |
| IndexTypes.ToSearchResult | src/types/mod.rs:12-17 | a record built from any list of hits keeps the invariant its consumers rely on (`count <= len(id_list)`, and `count <= len(distance_list)` when distances are included), with the ids and distances in order. The search returns the list of hits; building the record belongs to the bindings |
| Nodes.HeaderLayout | src/internals/mmap_ext.rs:50-59 | Angular gets the Angular layout, Euclidean and Manhattan share the Minkowski layout, Dot gets the Dot layout, and there is none exactly for Hamming |
| Nodes.ReadHeader | src/internals/mmap_ext.rs:126-136 | reading a header struct at an offset: every field is the i32 or f32 at the offset plus that field's byte offset in the struct, and the header has the requested layout |
| Nodes.HeaderSizes | src/types/node.rs:63-84 | Angular headers take 12 bytes, Minkowski and Dot 16 |
| Nodes.FieldOffsets | src/types/node.rs:63-84 | `n_descendants` at byte 0; children at 4, or 8 for Minkowski; `bias` at 4; `dot_factor` at 12 |
| Nodes.FieldInside | src/types/node.rs:63-84 | every field lies inside its header |
| Nodes.NewHeader | src/internals/mmap_ext.rs:50-59 | fails (`None`) exactly for Hamming; otherwise reads the header of the layout chosen by index type alone |
| Nodes.HeaderAccessors | src/internals/mmap_ext.rs:61-75 | for every supported type, `get_n_descendant` is the i32 at the node offset and the children are the two i32 after it at the layout's children offset |
| Nodes.NewWithId | src/types/node.rs:12-23 | a node with the given id at offset `id * node_size`, failing only for Hamming |
| Nodes.NewWithOffset | src/internals/mmap_ext.rs:26-39 | keeps the offset, and its id is the one whose node interval holds the offset |
| Nodes.IdOffsetRoundTrip | src/internals/mmap_ext.rs:15-39 | addressing by id and then by the resulting offset gives the same node |
| Nodes.OffsetIdRoundTrip | src/internals/mmap_ext.rs:26-39 | addressing by offset and back returns to the offset iff it is a multiple of `node_size` |
| Kernels.Dot | src/types/utils.rs:47-49 | definition: the sum of `u[i] * v[i]` over the zipped pairs (the shorter length) |
| Kernels.MinkowskiMargin | src/types/utils.rs:19-21 | definition: `bias + dot(u, v)` |
| Kernels.Euclidean | src/types/utils.rs:127-129 | the sum of `(u[i] - v[i])^2` over the zipped pairs, without the square root, is never negative |
| Kernels.Manhattan | src/types/utils.rs:144-146 | the sum of `abs(u[i] - v[i])` over the zipped pairs is never negative |
| Kernels.DotSymmetric | src/types/utils.rs:47-49 | the dot product is symmetric |
| Kernels.DotZipped | src/types/utils.rs:47-49 | only the zipped prefix (the shorter length) takes part |
| Kernels.DotZero | src/types/utils.rs:47-49 | a dot product with a zero vector vanishes |
| Kernels.DotSelfNonNegative | src/types/utils.rs:47-49 | `u·u >= 0` |
| Kernels.MinkowskiMarginProperties | src/types/utils.rs:19-21 | the margin is symmetric in its vectors and equals the bias for a zero hyperplane |
| Kernels.EuclideanNonNegativeSymmetric | src/types/utils.rs:127-129 | the squared distance is non-negative and symmetric |
| Kernels.EuclideanZeroIff | src/types/utils.rs:127-129 | it is zero iff the zipped prefixes are equal |
| Kernels.ManhattanNonNegativeSymmetric | src/types/utils.rs:144-146 | non-negative and symmetric |
| Kernels.ManhattanZeroIff | src/types/utils.rs:144-146 | zero iff the zipped prefixes are equal |
| Kernels.ManhattanTriangle | src/types/utils.rs:144-146 | triangle inequality on vectors of one length |
| Kernels.Cosine | src/types/utils.rs:73-91 | definition: the closing formula applied to the fold-defined pp, qq and pq over the zipped prefix |
| Kernels.Angular | src/types/utils.rs:84-90 | definition: `2 - 2*pq/sqrt(pp*qq)` when `pp*qq > 0`, else `2` |
| Kernels.CosineDistance | src/types/utils.rs:73-91 | the accumulating loop computes `2 - 2*pq/sqrt(pp*qq)` when `pp*qq > 0`, else `2`, with pp, qq and pq the fold-defined sums |
| Kernels.CosineZeroVector | src/types/utils.rs:85-90 | against a zero vector the distance is exactly 2 |
| Kernels.CosineSymmetric | src/types/utils.rs:73-91 | the angular distance is symmetric in its vectors, so a zero vector on either side gives 2 |
| Kernels.CosineSelf | src/types/utils.rs:73-91 | with an exact square root, a non-zero vector is at distance 0 from itself |
| Kernels.NthDescendantId | src/types/utils.rs:148-156 | definition: the i32 at `node_offset + offset_before_children + 4*n`, cast with `as usize` |
| Kernels.NthDescendantInSlice | src/types/utils.rs:148-156 | the n-th descendant id is read at `node_offset + offset_before_children + 4*n`, the n-th element of the id slice, cast to usize |
| PriorityQueues.PartialCmp | src/internals/priority_queue.rs:49 | undefined iff a NaN is involved; Less, Equal or Greater exactly by the numeric order |
| PriorityQueues.PriorityQueue.WithCapacity | src/internals/priority_queue.rs:23-28 | an empty queue whatever the capacity |
| PriorityQueues.PriorityQueue.Len | src/internals/priority_queue.rs:104-106 | the number of queued pairs |
| PriorityQueues.PriorityQueue.Push | src/internals/priority_queue.rs:30-40 | both vectors grow by one or not at all. When they grow, the bag of pairs gains exactly the new pair; it never gains anything else. The first push stores exactly the pair. A NaN pushed onto a non-empty queue leaves it unchanged. A numeric push onto an all-numeric queue always grows it, and onto a root-maximal queue it keeps the maximum at the root. When an up-adjust fails after some swaps, the slot that is dropped may hold an older pair, and the contract allows that |
| PriorityQueues.PriorityQueue.Append | src/internals/priority_queue.rs:31-32 | both vectors grow by the pair at the same index |
| PriorityQueues.PriorityQueue.DropLast | src/internals/priority_queue.rs:36-37 | both vectors lose their last slot |
| PriorityQueues.PriorityQueue.MaxHeapUpAdjust | src/internals/priority_queue.rs:43-60 | a permutation of the pairs. A NaN at a non-root `position` is refused (`false`, nothing moved). On all-numeric priorities it succeeds. A queue that tops its root except at `position` gets its maximum at the root |
| PriorityQueues.PriorityQueue.SwapEntries | src/internals/priority_queue.rs:52-53 | both vectors swapped at the same two indices; the bag of pairs is unchanged |
| PriorityQueues.PriorityQueue.MaxHeapBuild | src/internals/priority_queue.rs:62-89 | a permutation of the pairs that, on numeric priorities, leaves a maximum at the root, whatever the previous arrangement |
| PriorityQueues.FrontierStep | src/internals/priority_queue.rs:68-87 | one step of the reverse pass extends "every processed subtree root tops its subtree" by one position |
| PriorityQueues.PriorityQueue.Pop | src/internals/priority_queue.rs:91-102 | `None` and no change iff the queue is empty. Otherwise it returns the old root, which on a root-maximal queue is at least every queued priority; the length drops by one, and exactly that pair leaves the bag. Root-maximality is preserved |
| PriorityQueueTests.PushAll | src/internals/priority_queue.rs:129-134 | after pushing every value with itself as priority the queue holds `s.len()` entries, exactly the values paired with themselves |
| PriorityQueueTests.SortDescending | src/internals/priority_queue.rs:129-145 | pushing every value with itself as priority and popping until empty yields a non-increasing permutation of the input |
| PriorityQueueTests.SortedUnique | src/internals/priority_queue.rs:143-144 | a bag has one non-increasing arrangement, so the popped sequence equals the input sorted descending |
| PriorityQueueTests.TestPq1 | src/internals/priority_queue.rs:114-117 | [5,7,9,2,4,1] comes out as [9,7,5,4,2,1] |
| PriorityQueueTests.TestPq2 | src/internals/priority_queue.rs:119-122 | 1..9 comes out as 9..1 |
| PriorityQueueTests.TestPq3 | src/internals/priority_queue.rs:124-127 | 9..1 comes out as 9..1 |
| Loader.HeaderGeometry | src/types/annoy_index_impl.rs:11-15 | Angular gives (4, 12), Euclidean (8, 16), any other type is refused |
| Loader.GeometryMatchesLayout | src/types/annoy_index_impl.rs:11-15 | these numbers are the children offset and the size of the metric's header struct |
| Loader.ScanRoots | src/types/annoy_index_impl.rs:27-40 | the loop computes the scan: offsets `file_size - (j+1)*node_size`, each accepted when `m == -1` or its count equals the previous one, up to the first refusal or the start of the region |
| Loader.ScanShape | src/types/annoy_index_impl.rs:29-40 | scanned roots are strictly decreasing whole nodes inside the region, and there are none iff the region is shorter than a node |
| Loader.ScanUnique | src/types/annoy_index_impl.rs:29-40 | the scan is determined by the bytes |
| Loader.DropDuplicateRoot | src/types/annoy_index_impl.rs:42-49 | exactly the last root is removed iff there is more than one root and the first root's left child equals the last root's right child; a non-empty list stays non-empty |
| Loader.Load | src/types/annoy_index_impl.rs:10-63 | refuses types other than Angular and Euclidean. Otherwise: the geometry, `min_leaf_size = dimension + 2`, `node_size = header + 4*dimension`, a layout the serving reads accept, and roots that are the scan less the duplicate, decreasing and in bounds, empty iff the region is shorter than a node |
| Loader.HeaderAgrees | src/types/annoy_index_impl.rs:11-15 | with the loaded geometry, `NodeHeader::new` at a node reads the same descendant count and children ids as the serving code does through `read_i32` at the node offset and at the offset before the children |
| Serving.NodeVector | src/types/serving/mod.rs:24-27 | `dimension` f32 values read after the header |
| Serving.ItemVector | src/types/serving/mod.rs:24-28 | `get_item_vector`: the vector of the node at `id * node_size` |
| Serving.ItemVectorOfNode | src/types/node.rs:12-23 | the item vector is the one after the header of `Node::new_with_id` |
| Serving.ChildrenIds | src/types/serving/mod.rs:66 | the two children ids from the header |
| Serving.DescendantIds | src/types/serving/mod.rs:58-59 | `n_descendants` bucket ids, the n-th read as `get_nth_descendant_id` |
| Serving.RoleOf | src/types/serving/mod.rs:55-71 | exactly one role: a leaf iff `n_descendants == 1` and the id is below `degree`; else a bucket iff `n_descendants <= min_leaf_size`; else a split node |
| Serving.NodeItemsCard | src/types/serving/mod.rs:55-62 | one visit adds at most `max(1, min_leaf_size)` ids: one for a leaf, `n_descendants <= min_leaf_size` for a bucket, none for a split node |
| Serving.SeqSetCard | src/types/serving/mod.rs:58-62 | inserting the ids of a slice adds at most as many distinct ids as the slice has |
| Serving.ItemsFit | src/types/serving/mod.rs:55-62 | every id contributed by a node that meets the walk's requirements names an item whose node lies inside the region |
| Serving.ResultCapacity | src/types/serving/mod.rs:37 | `max(min(n_results, degree), 1)`: at least 1, and the minimum when both are positive |
| Serving.SearchBudget | src/types/serving/mod.rs:38-42 | `search_k` when positive, else capacity times the number of roots, which lies between the number of roots and `n_results` times it; zero iff `search_k <= 0` and there are no roots |
| Serving.SeedRoots | src/types/serving/mod.rs:44-48 | a root-maximal queue holding exactly one `(root, f32::MAX)` pair per root |
| Serving.PushChildren | src/types/serving/mod.rs:63-71 | pushes `children[1]` with `min(bound, margin)` and `children[0]` with `min(bound, -margin)`, each at offset `id * node_size`; the bag of queued pairs gains exactly these two, which on a split node are `ChildPushes` |
| Serving.InsertAll | src/types/serving/mod.rs:60-62 | the candidates gain exactly the bucket's ids |
| Serving.ChildPushes | src/types/serving/mod.rs:63-71 | what a visit queues: nothing unless the node is a split node, then the right and then the left child, each with a bound no larger than the popped one |
| Serving.Visit | src/types/serving/mod.rs:53-71 | the candidates gain exactly the node's items (its own id, its bucket, or nothing), and the queue gains exactly `ChildPushes`: nothing for a leaf or a bucket, and for a split node `children[1]` with `min(bound, margin)` then `children[0]` with `min(bound, -margin)` |
| Serving.PushedBounded | src/types/serving/mod.rs:63-71 | what a visit pushes keeps every queued bound at most the popped one, and weighs less than the popped node |
| Serving.ChildBelow | src/types/serving/mod.rs:63-71 | a child of a split node reachable from a root is reachable from that root |
| Serving.WalkStart | src/types/serving/mod.rs:44-48 | the seeded queue starts a walk: every reachable node lies below a queued root |
| Serving.WalkStep | src/types/serving/mod.rs:52-72 | popping and visiting one node keeps the walk invariant: the candidates are reachable items, visited nodes have contributed their items, queued nodes are reachable, and every reachable node is visited or below a queued node |
| Serving.WalkDone | src/types/serving/mod.rs:50 | when the queue is empty the candidates are exactly the reachable items |
| Serving.Step | src/types/serving/mod.rs:52-72 | the walk is best-first: the popped node is the head of the queue, its bound is at least every bound queued before the pop and at most the previous popped bound, and it bounds everything queued after the visit. The new state is given exactly: the candidates gain the popped node's items, and the queue loses the popped pair and gains `ChildPushes` of the popped node. The popped node joins the visited ones, the walk invariant is kept and the weight drops |
| Serving.Traverse | src/types/serving/mod.rs:44-74 | the candidates are reachable items; the loop leaves with at least the budget collected or with every reachable item collected. The budget limits the walk: nothing is collected under a zero budget, and fewer than `budget + ItemsPerNode` ids are collected, since only the last visit starts below the budget and one node adds at most `max(1, min_leaf_size)` ids |
| Serving.KeepLeaves | src/types/serving/mod.rs:76-85 | each candidate whose node holds one item is paired once with its raw distance; the others are skipped |
| Serving.InsertByDistance | src/types/serving/mod.rs:87 | inserting into a sorted list keeps it sorted and adds the element to the bag |
| Serving.SortByDistance | src/types/serving/mod.rs:87 | a non-decreasing permutation by raw distance |
| Serving.Rearranged | src/types/serving/mod.rs:87 | sorting distinct pairs keeps their ids, their distinctness and their pairing |
| Serving.IdsCard | src/types/serving/mod.rs:76-85 | distinct ids: as many ids as pairs |
| Serving.ResultOf | src/types/serving/mod.rs:93-97 | the id, and the normalised distance when requested, else 0.0 |
| Serving.TakeFirst | src/types/serving/mod.rs:88-98 | one row for each of the first `count` sorted pairs, in order |
| Serving.NearestPrefix | src/types/serving/mod.rs:87-99 | the first rows of the sorted kept candidates satisfy `NearestOf`: the count, distinct kept ids in distance order, nothing nearer left out, the distance field |
| Serving.GetNearest | src/types/serving/mod.rs:30-101 | the results are `NearestOf` the reachable items the walk collected. The walk collected at least the budget (`search_k`, or capacity times the number of roots) or every reachable item, nothing under a zero budget, and fewer than the budget plus `max(1, min_leaf_size)`. When the budget exceeds the number of reachable items, the results are `NearestOf` all reachable items, which makes the search exact |
| Serving.GetNearestToItem | src/types/serving/mod.rs:103-117 | the same, with the item's own vector as the query: at least the budget or every reachable item collected, below the budget plus one node's items, and exactness under a large enough budget |

## Left out

- File opening, metadata and memory mapping (`AnnoyIndex::load` lines 18-25): the byte sequence is given, and its length stands for the file size.
- `Loader.Load` returns `Err(NotSupported)` where the source panics with "Not supported".
- `Loader.Load` takes the item count (`degree`) as a parameter, because the loader shown does not compute it. It also takes the left- and right-child offset readers as function parameters, because `get_l_child_offset` and `get_r_child_offset` are not part of this model.
- `get_margin`, `get_distance_no_norm` and `normalized_distance` are not part of this model. They are the three function fields of `Serving.Metric`, and nothing is assumed about them.
- `get_node_slice_with_offset`, `get_children_id_slice` and `get_descendant_id_slice` are not part of this model either. They are defined from the visible layout: the header, then `dimension` f32 values; the children at `offset_before_children`; bucket ids from the same offset.
- f32 arithmetic is modelled over `real`, without rounding, overflow or NaN. `sqrt` is a function parameter, assumed positive on positive arguments (and exact only in `Kernels.CosineSelf`). Stored f32 values stay uninterpreted 32-bit patterns.
- SIMD kernels and feature flags are not modelled; only the scalar `_no_simd` kernels are.
- `Serving.GetNearest` requires `Serving.WellFormed`. The source does not check it, and a malformed file (cyclic child ids, out-of-range offsets) may loop forever or read out of bounds there.
- Item indices and dimensions are naturals. Negative `i64` item indices and `i32` dimensions are not modelled, and neither is `usize` overflow in `id * node_size`.
- Bucket ids are read as `i32` and then cast to `usize`, as in `get_nth_descendant_id`. A negative id would wrap to a huge id; the well-formedness condition excludes it by asking that every bucket id names an item that fits.
- `Serving.GetNearest` does not fix the iteration order of the candidate `HashSet`: `Serving.KeepLeaves` takes the ids in an arbitrary order. So the order among equally distant results is not determined, and `Serving.GetNearestToItem` is stated through the same specification rather than as equal to one particular run.
- `Serving.SortByDistance` proves sortedness and permutation, not stability.
- `PriorityQueues.PriorityQueue.WithCapacity` ignores the capacity, which only preallocates in the source.
- The Hamming margin and layout are not modelled: the source leaves them unimplemented (`unimplemented!`), so `Nodes.NewHeader` returns `None` for Hamming.
- Language bindings (C FFI, JNI, wasm, .NET), the fixture-based integration tests, benchmarks and generators are not modelled.
