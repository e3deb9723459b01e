# XLA core data structures: a verified model

This project models parts of XLA, the compiler for linear algebra, and proves what they promise:

* the online topological sort that orders a module's computations while edges come in
  (`OnlineTopsort.dfy` and the files it imports, `ListedEdges.dfy`, `HloModule.dfy` for its client);
* index arithmetic of tiled and permuted layouts (`RowMajor.dfy`, `NestedTiling.dfy`,
  `TilingMeaning.dfy`, `TilingWeights.dfy`, `NestedRoundTrips.dfy`, `UntiledLayout.dfy`,
  `UntiledExact.dfy`, `TiledIndex.dfy`, `OneLevelTiling.dfy`, `IndexUtil.dfy`, `Odometer.dfy`);
* copies that follow such indices: array transposition and slices (`MultiArray.dfy`,
  `Transposition.dfy`, `WindowCopies.dfy`), the strided slice copy (`StridedCopy.dfy`) and broadcasting
  (`Broadcast.dfy`);
* the byte format of literals (`LiteralFormat.dfy`, `LiteralPlaces.dfy`, `LiteralSerializer.dfy`);
* the near comparison of literals (`ErrorMeasure.dfy`, `ComparisonTally.dfy`, `NearComparator.dfy`,
  `NearComparison.dfy`);
* deleting a dimension of a layout (`LayoutFields.dfy`, `LayoutDimensions.dfy`) and overflow-checked
  integer arithmetic (`OverflowUtil.dfy`).

`dafny verify dfyconfig.toml` checks the whole project.

## How the model relates to the code

**Topological sort.** The class has the source's fields. Ghost fields mirror the linked list (its nodes,
their keys, and the list position behind each boundary pointer) and record the members. The checks that
stop the process on a cycle are taken as enabled; instead of stopping, `AddEdge` reports the cycle. Indices
are unbounded integers. Nodes of the caller's graph that are in no order are passed as the set `outside`.
The caller's lists may already hold edges into `w` that are not registered yet, as they do at
xla/hlo/ir/hlo_module.cc:202-212; only edges that do not lead to `w` must be respected when `AddEdge(v, w)`
is called. The client tests whether a caller or callee is in the order, where the source tests whether it
belongs to the same module. One source function is often several methods here, one per loop or
step. `AddNode` counts the node after linking it instead of before; the two parts touch different fields.
The comment at xla/online_topsort.h:648-649 says that a vertex appears in `f` before its successors; the
code appends it after its raised successors, which is what step 4 needs and what is proved.

**Indices.** Coordinates and dimension sizes are natural numbers without a bound. The logical-to-physical
order is `Physical`: entry `k` belongs to dimension `minor_to_major[n - 1 - k]`.
The comment at xla/layout_util.h:257-259 calls `DelinearizeIndexForNestedTiling` the inverse of
`LinearIndexForNestedTiling`. The code strips padding once, at the end, so it is not for every layout.
`RoundTripExact` says for which layouts it is: those where every expanded coordinate in use has the weight
that the code takes it for (`Aligned`), a comparison of two tables made from the dimensions and the tiles.
It holds whenever only the first tile pads, and, if the tiles up to the last padding one split the most
minor dimension, only then (`LaterPaddingExact`). The layout at xla/layout_util_test.cc:449-466, which the
validator accepts, is one that fails (`TwiceTiledFails`); `LaterPaddingFails` says what comes back in a
family of vectors.

**Slices.** `Slice` and `UpdateSlice` write and read consecutive cells. For windows that leave the array
this is right exactly when the part within the array is empty or contiguous in the other shape;
`SliceExact` and `UpdateExact` prove both directions.

**Serialization.** Elements are bit patterns: numbers below 2^1, 2^2, 2^4 or 256^n. The shape's bytes come
from a decoding function that is a parameter. Or-ing and shifting disjoint bits is written as sum and
product, masking and shifting as remainder and quotient.

**Near comparison.** Floating-point values are NaN, an infinity, or an exact real with a bit pattern;
subtraction and division do not round. Whole comparisons are proved for every error bound. One result
contradicts what a reader would expect of the checks at xla/literal_comparison.cc:382-417: the float
distance stays at -1 unless both values are finite, and -1 is within every allowed distance of 0 or more
(xla/literal_comparison.cc:434-443), so with a low-precision bound a NaN or an infinity is never flagged:
such a comparison succeeds exactly if the finite parts are near (`Run`), and accepts a NaN for 1 under
bounds of 0 (`NanAccepted`).

**Others.** `ShapeUtil::ForEachIndex` is an enumeration of the box in row-major order, `StridedCopy` a loop.
Failed `TF_RET_CHECK`s are boolean results. Sequences that the code updates in place are sequence fields or
arrays.

## Model

| member | source | states |
|---|---|---|
| OnlineTopsort.TopologicalSort.constructor | xla/online_topsort.h:224-228 | a new order is valid and has no nodes |
| OnlineTopsort.TopologicalSort.AddEdge | xla/online_topsort.h:474-568 | a cycle is reported exactly if w already reaches v; otherwise the order stays valid over the same nodes, v comes before w, and every edge not into w, and every edge into w that was respected, is respected afterwards, in all three outcomes of the searches |
| OnlineTopsort.TopologicalSort.AddNode | xla/online_topsort.h:406-438 | a node joins the order before all others, which keep their keys; list, boundary pointers, counts and budget stay consistent |
| OnlineTopsort.TopologicalSort.RemoveNode | xla/online_topsort.h:449-463 | a node leaves the order, the others keep their keys, and the representation stays valid |
| OnlineTopsort.TopologicalSort.SearchBackwards | xla/online_topsort.h:580-627 | terminates; meeting w means w reaches v; ending normally gives exactly v's same-level ancestors, each once and after its predecessors, with fewer same-level edges into them than the budget; stopping early means that as many same-level entries of ancestors' predecessor lists as the budget were seen |
| ListedEdges.EntriesAreEdges | xla/online_topsort.h:607-622 | if no predecessor is listed twice, the entries seen are as many different same-level edges |
| OnlineTopsort.TopologicalSort.SearchForwards | xla/online_topsort.h:639-691 | terminates; a cycle is reported only for a node that w reaches and that is v or was visited backwards; otherwise f holds each raised node once, after its raised successors, and no edge leads from a raised node to one left low |
| OnlineTopsort.TopologicalSort.RemoveFromOrder | xla/online_topsort.h:702-719 | taking a node out keeps the links both ways, the sorting and all boundary pointers |
| OnlineTopsort.TopologicalSort.UpdateIndex | xla/online_topsort.h:730-763 | the node gets the next smaller index and becomes first on its level, with levels grown as needed and all boundary pointers right |
| OnlineTopsort.TopologicalSort.UpdateDelta | xla/online_topsort.h:774-781 | the budget reaches min(sqrt(m), n^(2/3)) and, if it grew, by no more than needed |
| OnlineTopsort.TopologicalSort.UpdateMaxIndexInParent | xla/online_topsort.h:336-342 | the mark vectors cover the index and keep their marks |
| OnlineTopsort.TopologicalSort.Order | xla/online_topsort.h:250-255 | walking from begin to end yields every node once, strictly by level and index |
| TopsortOrder.EdgeKept | xla/online_topsort.h:539-550 | the fresh indices of step 4 keep every edge respected that was |
| TopsortOrder.NewEdgeKept | xla/online_topsort.h:539-550 | the fresh indices of step 4 put v before w |
| TopsortOrder.NotRaised | xla/online_topsort.h:639-691 | when neither search reports a cycle, w does not reach v |
| TopsortSearch.BackwardsDone | xla/online_topsort.h:580-627 | an exhausted backward agenda has emitted exactly v's same-level ancestors, predecessors first |
| TopsortSearch.ForwardsDone | xla/online_topsort.h:639-691 | an exhausted forward agenda has emitted exactly the raised nodes, raised successors first |
| DeltaBound.BoundMeaning | xla/online_topsort.h:774-781 | what every operation keeps of the budget says it is at least ceil(min(m^(1/2), n^(2/3))), and no greater if no node was removed |
| DeltaBound.BoundExact | xla/online_topsort.h:774-781 | a budget is large enough exactly from that bound on |
| HloModule.AddComputation | xla/hlo/ir/hlo_module.cc:201-212 | registering a computation with all its edges reports a cycle exactly if one goes through it, and otherwise leaves all edges of the module respected |
| NestedRoundTrips.RoundTripExact | xla/layout_util.cc:620-803 | for every permutation layout and positive tiles, delinearizing gives every in-bounds index back from its nested offset exactly if every expanded coordinate in use has the weight the code takes it for, or there is no index |
| NestedRoundTrips.NestedRoundTrip | xla/layout_util.cc:620-803 | an in-bounds index of such a layout comes back |
| NestedRoundTrips.FirstPaddingAligned | xla/layout_util.cc:726-731 | that holds for every layout where only the first tile pads |
| NestedRoundTrips.LaterPaddingExact | xla/layout_util.cc:771-800 | if the most minor dimension has at least two elements and the tiles up to the last padding one split it, all indices come back exactly if only the first tile pads |
| NestedRoundTrips.TwiceTiledFails | xla/layout_util_test.cc:449-466 | a layout that the validator accepts, 8 x 8 in tiles of 2 x 2 and then of rank 5, loses indices |
| NestedRoundTrips.CollapsedCoordinate | xla/layout_util.cc:771-800 | a coordinate delinearized is the sum of the expanded coordinates with weights that put the padding behind |
| TilingWeights.WeightedExpand | xla/layout_util.cc:656-688 | expanding keeps every weighted sum of coordinates, with a weight per expanded coordinate |
| TilingWeights.UnitReached | xla/layout_util.cc:656-688 | every expanded coordinate that takes more than one value is 1, and all others 0, for some index |
| TilingMeaning.NestedOffsetMeaning | xla/layout_util.cc:645-698 | told coordinate by coordinate: tile after tile extends shape and index in front and splits each tiled dimension into the least number of covering tiles and a tile, and its coordinate into whole tiles and rest; what is left behind the tiles is linearized |
| NestedTiling.OffsetsDistinct | xla/layout_util.cc:620-699 | nested offsets lie below the product of the expanded shape and distinct in-bounds indices have distinct offsets, for any tiles |
| NestedTiling.LaterPaddingFails | xla/layout_util.cc:771-800 | a vector tiled by t and then padded comes back divided by t |
| NestedTiling.UntileTile | xla/layout_util.cc:771-786 | combining outer and inner coordinates undoes one tiling step |
| TiledIndex.LinearIndexForNestedTiling | xla/layout_util.cc:620-699 | the loops compute the row-major offset of the expanded index in the expanded shape |
| TiledIndex.DelinearizeIndexForNestedTiling | xla/layout_util.cc:703-803 | the loops compute what delinearizing gives for any layout, which is every in-bounds index with that nested offset if the layout is aligned |
| TiledIndex.IsUntiledLayout | xla/layout_util.cc:871-904 | for a shape with elements it says untiled exactly if every tile fits the shape it meets, divides it and, with the tiles before it, keeps all in-bounds offsets; the check fails exactly if the first tile that does not is one that does not fit; an untiled layout keeps every in-bounds offset |
| UntiledExact.JudgeExact | xla/layout_util.cc:875-903 | the same of the tests themselves |
| UntiledExact.KeepingKeepsOrder | xla/layout_util.cc:888-898 | a tile that divides and keeps all offsets has a single tile behind every dimension it splits |
| UntiledLayout.UntiledKeepsOffsets | xla/layout_util.cc:871-904 | the tests on each tile are enough to keep every in-bounds offset through a whole tile list |
| UntiledLayout.OffsetsKeptExact | xla/layout_util.cc:645-698 | a tile list keeps all in-bounds offsets exactly if every expanded coordinate in use has the stride it counts for |
| UntiledLayout.PaddedTileKeepsOffsets | xla/layout_util.cc:871-904 | the tests are not needed for it: three elements in a tile of four keep their offsets but count as tiled |
| OneLevelTiling.LinearIndex | xla/layout_util.cc:570-616 | at any rank but 1 the single pass gives the nested offset if there is at most one tile, whatever its rank, and otherwise that over the first tile alone; at rank 1 the index itself |
| OneLevelTiling.VectorAgrees | xla/layout_util.cc:580-582 | at rank 1 it agrees with the nested computation on all indices exactly if the leading tile dimensions are 1 or one tile row holds the vector, in particular for tile rank at most 1 |
| IndexUtil.MultidimensionalIndexToLinearIndex | xla/index_util.h:59-114 | the scaled sum is the row-major offset in physical order |
| IndexUtil.LinearIndexToMultidimensionalIndex | xla/index_util.cc:29-51 | inverse of the linear index, both ways |
| IndexUtil.LinearDistinct | xla/index_util.h:59-114 | linear indices lie below the number of elements and differ for different indices |
| IndexUtil.GetDimensionStride | xla/index_util.cc:53-63 | the product of all dimensions more minor than the given one |
| IndexUtil.LinearIsStrideSum | xla/index_util.cc:53-63 | the linear index is the sum of index times stride over the logical dimensions |
| Odometer.BumpIndices | xla/index_util.h:163-176 | increases the last coordinate that has room and zeroes those behind it, or changes nothing |
| Odometer.BumpSteps | xla/index_util.h:163-176 | a bump moves an in-bounds index one step in row-major order; there is none exactly at the last index |
| Odometer.VisitAll | xla/index_util.h:163-176 | bumping from zero visits every in-bounds index exactly once, in row-major order |
| Odometer.NextIndex | xla/array.h:737-749 | like a bump, with the last index followed by zero |
| MultiArray.Array.TransposeDimensions | xla/array.h:567-584 | for every rank and permutation, each source cell ends at the permuted index of the permuted shape |
| MultiArray.Transpose3DOrMore | xla/array.h:774-829 | the incremental traversal places every cell |
| MultiArray.BumpStack | xla/array.h:809-827 | the stack keeps the target offset of every prefix of the source index |
| MultiArray.Transpose2D | xla/array.h:753-772 | the rank 2 form places every cell |
| Transposition.InverseRestores | xla/array.h:567-584 | transposing by the inverse permutation restores shape and cells |
| Transposition.TransposedUnique | xla/array.h:567-584 | the permuted places cover every result cell |
| Transposition.TargetIsDot | xla/array.h:783-797 | the offset in the permuted shape is the sum of source coordinates times aligned strides |
| MultiArray.Array.CalculateIndex | xla/array.h:725-733 | the row-major offset, below the number of elements for an in-bounds index |
| MultiArray.Array.Slice | xla/array.h:478-514 | the result holds the window's cells in order, and the given value behind them; with limits within the array, cell j is source cell j + start |
| MultiArray.Array.UpdateSlice | xla/array.h:517-535 | exactly the window's cells are replaced, by consecutive cells of the other array; a window within the array holds cell j of the other array at j + start, and all else stays |
| WindowCopies.BeforeInside | xla/array.h:504-512 | within the window, the number of window cells visited before is the cell's offset in the window |
| WindowCopies.SliceWithin | xla/array.h:478-514 | with limits within the array, result(i) is source(i + start) |
| WindowCopies.SliceExact | xla/array.h:486-512 | with a value for cells outside, the slice is right for all contents exactly if the window's part within the array is empty or contiguous in the result |
| WindowCopies.UpdateExact | xla/array.h:517-535 | an update is right for all contents exactly if the window's part within the array is empty or contiguous in the source |
| WindowCopies.SliceOfUpdate | xla/array.h:478-535 | slicing back the window just written returns what was written |
| StridedCopy.CopySliceFrom | xla/literal.cc:435-490 | between any two permutation layouts, destination base + i becomes source base + i for every i within the size and every other destination cell stays; scalars copy one cell; zero-element shapes and sizes copy none; fails exactly on a scalar with a slice of rank above 0 and on ranks that differ |
| StridedCopy.MakeStrideConfig | xla/literal.cc:179-199 | both strides along the chosen dimension are those of their layouts, whichever most minor dimension is chosen |
| StridedCopy.RunCell | xla/literal.cc:468-483 | cell k of a run is k strides from its start on both sides |
| Broadcast.BroadcastHelper | xla/literal.cc:1099-1175 | fails exactly on mismatched dimensions; otherwise every result cell holds the source cell its broadcast dimensions select, on the fast path too, and the dynamic sizes of the source are those of the result |
| Broadcast.BumpClear | xla/literal.cc:1152-1170 | bumping over the cut shape ignores source coordinates beyond their limit of 1 |
| LiteralFormat.RoundTrip | xla/literal.h:1767-1833 | deserializing a serialized literal returns it and consumes everything |
| LiteralFormat.CutOrExtendedRejected | xla/literal.h:1767-1833 | every strict prefix and every strict extension of a serialized literal is rejected |
| LiteralFormat.PrefixFree | xla/literal.h:1794-1833 | no accepted input, whatever wrote it, is a strict prefix of another |
| LiteralFormat.AcceptedIsLiteral | xla/literal.h:1794-1833 | what any accepted input is read as is a literal of its shape, and writing that again gives an input of the same length that reads the same |
| LiteralFormat.UnpackPack | xla/literal.h:624-659 | unpacking sub-byte elements undoes packing them, with a partly filled last byte |
| LiteralFormat.PackedAt | xla/literal.h:632-654 | element q * per + r of sub-byte elements is digit r of byte q, from the least significant bits |
| LiteralFormat.LittleEndianAt | xla/literal.h:609-618 | byte k of an element counts the powers 256^k |
| LiteralFormat.ReadElements | xla/literal.h:735-783 | elements of every width survive the trip through their bytes |
| LiteralFormat.ReadPiece | xla/literal.h:1190-1201 | a tuple tree survives the trip through its bytes, depth first, dynamic sizes before elements |
| LiteralFormat.WalkExact | xla/literal.h:1800-1826 | reading succeeds exactly if all pieces are supported and there are enough bytes |
| LiteralSerializer.SerializeState.SerializePiece | xla/literal.h:1772-1788 | the traversal appends exactly the bytes of the piece, or fails exactly if some part of it is neither array nor tuple |
| LiteralSerializer.SerializeState.WriteElements | xla/literal.h:624-659 | the loops append exactly the bytes of the elements |
| LiteralSerializer.DeserializeState.ReadElements | xla/literal.h:735-783 | fails exactly if too few bytes are left, and otherwise reads what the next bytes stand for |
| LiteralSerializer.DeserializeState.DeserializePiece | xla/literal.h:1802-1826 | reads a piece and all below it, or reports the first problem in traversal order |
| LiteralSerializer.Serialize | xla/literal.h:1767-1792 | writes header, shape and data of the format, each where it belongs: the length of the shape in 8 bytes, the shape, then the parts of the piece as `LiteralPlaces` says; or fails exactly on shapes that cannot be serialized |
| LiteralPlaces.PieceWritten | xla/literal.h:1724-1729 | the bytes of a piece put 4 bytes for each dynamic size in front, the elements behind the last size, and each part of a tuple behind the parts before it |
| LiteralSerializer.Deserialize | xla/literal.h:1794-1833 | decides every input as the format does, with the same first problem |
| NearComparator.Comparator.Record | xla/literal_comparison.cc:455-488 | counters, error and magnitude buckets, kept mismatches and flags stay what the comparisons so far come to |
| NearComparator.Comparator.CompareValues | xla/literal_comparison.cc:493-505 | a complex pair adds one mismatch if either or both parts are out of bounds, and flags its position |
| NearComparator.Comparator.CompareLiterals | xla/literal_comparison.cc:508-524 | every pair is compared once, the number of mismatches is the number of flagged positions, and all counts are those of the pairs |
| NearComparator.Comparator.CompareLiteralsSlow | xla/literal_comparison.cc:529-548 | the recursion compares the indices of a prefix in row-major order within static or dynamic sizes |
| NearComparator.KeepTop | xla/literal_comparison.cc:473-486 | above every bound, as many mismatches are kept as were met, up to five: the kept are the largest; every record kept was met, values, errors and position, at least as often as it is kept |
| ComparisonTally.RecordFields | xla/literal_comparison.cc:466-480 | a record names the expected and the actual value, the errors and the position of its pair, which is filed by the size of the actual value |
| ComparisonTally.NanKind | xla/literal_comparison.cc:388-390 | a pair counts as NaN mismatch exactly if one side is a NaN, and with relaxed NaNs the actual one |
| ComparisonTally.FiniteKinds | xla/literal_comparison.cc:418-464 | two different finite values count against each bound on its own, the relative error of those over the absolute bound and the absolute error of those over the relative bound in its buckets |
| NearComparator.UpdateErrorBucket | xla/literal_comparison.cc:341-348 | exactly the buckets whose bound the error reaches count it |
| NearComparator.FlagMeaning | xla/literal_comparison.cc:488 | a position is flagged exactly if a pair compared there is out of bounds |
| NearComparison.Run | xla/literal_comparison.cc:295-317 | succeeds exactly if the elements of the two literals are near at every index within the expected literal's static or dynamic sizes, and of their positions flags exactly those where they are not; with a float distance accepted: exactly if all finite parts are within the bounds or that distance |
| NearComparison.NanAccepted | xla/literal_comparison.cc:434-453 | with bounds of 0 and a float distance of 0, a NaN is accepted for 1 |
| NearComparison.BucketsSum | xla/literal_comparison.cc:321-337 | the magnitude buckets sum to the values compared and their failures to the part mismatches |
| NearComparison.TraversalsAgree | xla/literal_comparison.cc:508-548 | on static shapes of one layout the slow traversal leaves the counters, buckets, flags and kept relative errors of the fast one |
| ErrorMeasure.FiniteFlagged | xla/literal_comparison.cc:418-453 | two different finite values are flagged exactly if they differ by more than both bounds and are not within the float distance |
| ErrorMeasure.NanFlagged | xla/literal_comparison.cc:382-453 | a one-sided NaN counts as an infinite error exactly if NaNs are not relaxed or it is the actual value; otherwise, and on both sides, as no error; never flagged if a float distance is accepted |
| ErrorMeasure.InfinityFlagged | xla/literal_comparison.cc:399-453 | an infinity against another value counts as an infinite error, an actual one as the largest finite value if fewer infinities are allowed; never flagged if a float distance is accepted |
| ErrorMeasure.OnlyFiniteFlagged | xla/literal_comparison.cc:434-453 | with a float distance accepted exactly the different finite values out of bounds and distance are flagged |
| LayoutFields.DeletionValid | xla/layout.cc:457-493 | deleting a dimension of a layout valid for a shape leaves one valid for the shape without it |
| LayoutFields.OrderKept | xla/layout.cc:470-479 | the other dimensions, renumbered, keep their physical order |
| LayoutFields.MaxSplitKept | xla/layout_util.cc:824-849 | deleting a dimension leaves the largest split of every other dimension unchanged |
| LayoutFields.MaxPieceMeaning | xla/layout_util.cc:837-847 | the largest split is one of the pieces and no piece is larger |
| LayoutDimensions.Layout.DeleteDimension | xla/layout.cc:457-493 | the in-place loops compute the deletion and keep validity for every shape |
| LayoutDimensions.Layout.ValidateLayoutForShape | xla/layout_util.cc:223-338 | accepts exactly the valid layouts |
| LayoutDimensions.Layout.MaxSplitSize | xla/layout_util.cc:824-849 | without a configuration of the dimension its whole size, with one the largest of the pieces it is cut into |
| OverflowUtil.MultiplyExact | xla/overflow_util.h:40-64 | the flag is set exactly if a factor is negative or the product exceeds 2^63 - 1, and the result is the two's complement product |
| OverflowUtil.AddExact | xla/overflow_util.h:81-94 | empty exactly if the true sum is out of range, otherwise the true sum |

## Left out

- OnlineTopsort: the iterator classes, `clear()`, logging and the running-time bound; `next_index_` does not wrap around.
- OnlineTopsort.TopologicalSort.SearchBackwards: counts entries of predecessor lists; they are different edges only if no list repeats a node, which `ListedEdges.EntriesAreEdges` takes as given because the code does not check it.
- NestedTiling: `kCombineDimension` and non-positive tile dimensions are excluded; offsets do not overflow 64 bits.
- NestedRoundTrips.LaterPaddingExact: leaves out layouts where a tile up to the last padding one has a most minor dimension of 1, for which only the general condition of `RoundTripExact` decides.
- MultiArray: element storage is never released or aliased.
- MultiArray.Array.Slice: limits below the starts, which would give the result a negative size, are excluded.
- MultiArray.Array.UpdateSlice: negative starts are excluded.
- StridedCopy: parallel and dynamic copies of literals, and the order in which `ForEachIndex` visits the blocks.
- Broadcast: the byte-wise copy of elements; the dimensions are distinct, as many as the source has.
- LiteralFormat: shape protobufs are an opaque byte string with a decoding function; element values are bit patterns, signs and floating-point meaning are not interpreted; allocation failure.
- NearComparator: rounding of errors, unsigned floating-point types, error messages and the miscompare callback; tuples are compared element by element by code that is not part of this model.
- LayoutDimensions.Layout.MaxSplitSize: requires a valid layout and split points below 2^31, because the code reads them into 32-bit integers.
- OverflowUtil: the compiler builtins that replace the portable code where they exist.
- Literal pools, lazy values, comparison direction tables, debug option flags, autotune wrappers and metric reports.
