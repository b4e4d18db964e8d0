# Verified model of XLA's array-layout engine

This project models the data structures at the bottom of XLA (the machine-learning compiler) and
proves what they are for. A dense array literal is a list of dimension sizes, a layout (the
permutation `minor_to_major`) and one flat buffer; the element at a logical index is found by
mixed-radix arithmetic. Nearly every bulk operation is a fast form of a simple cell-by-cell meaning:
a strided block copy, a transposition that moves no data, slices written with one running counter,
chunked parallel initialisation, conversions to and from bounded dynamic shapes. Each is proved
against that meaning, for all shapes, layouts and contents. Around this core stand the models of
smaller pieces whose correctness is subtle: the shape tree with its breadth-first index table, the
reference-counting hash map, compiler fuel, the flag parser, the contiguous buffer allocator, the
comparator of floating-point literals, and the test for lossless element-type conversions.

`dafny verify dfyconfig.toml` checks everything.

## Modules

| file | component |
|---|---|
| MixedRadix.dfy | digits, values and their inverse laws |
| Permutations.dfy | xla/permutation_util.cc |
| Layouts.dfy | offsets as a bijection; row-major rank and lexicographic order |
| IndexUtil.dfy | xla/index_util.h, xla/index_util.cc |
| LayoutUtil.dfy | layout validation and tiled offsets |
| ForEachIndex.dfy | the index scan of xla/shape_util.h |
| Literals.dfy | the literal class: shape, buffer, dynamic sizes, `Get` and `Set` |
| Arithmetic.dfy | facts shared by unrelated components |
| CopySlice.dfy | strided runs, and block copies run by run |
| SliceCopies.dfy | slice copies between literals and within one; overlapping windows |
| Arrays.dfy | xla/array.h: slice, update, reshape, transpose |
| ArrayWindows.dfy | slices and updates whose window reaches outside the array |
| Relayout.dfy | copy, relayout, reshape and transpose of literals |
| Populate.dfy | sequential and parallel initialisation |
| BoundedDynamic.dfy | static and bounded dynamic literals |
| ShapeTree.dfy | index table and shape tree |
| RefcountingHashMap.dfy | weak-pointer cache as interleaved steps |
| CompilerFuel.dfy | fuel pools under arbitrary interleavings |
| FlagParser.dfy | parser of flags in an environment string, with a printer |
| BufferAllocator.dfy | contiguous buffer allocation |
| MismatchStatistics.dfy | meaning of the comparator's counters and buckets |
| NearComparator.dfy | the comparator, its fast path and its slow path |
| Casts.dfy | value-preserving conversions |
| FloatCodes.dfy | the float types bit by bit |

Integers are mathematical, on the assumption that element counts fit in 64 bits; wrap-around is
written out where it matters (`align_to`, the 32-bit dynamic sizes, the fuel counter). Elements are
opaque values. Threads are modelled as interleaved atomic steps. A failed `CHECK` becomes a
precondition, a returned error a result value.

## Model

| member | source | states |
|---|---|---|
| MixedRadix.DigitsOfValue | xla/index_util.cc:28-50 | Taking digits undoes evaluation, for every in-range numeral. |
| MixedRadix.ValueOfDigits | xla/index_util.cc:28-50 | Every number below the product of the radices has in-range digits, and evaluating them returns it. |
| MixedRadix.DigitAt | xla/index_util.cc:40-49 | Digit k in closed form: divide by the product of the lower radices, take the remainder. |
| MixedRadix.ValueUpdate | xla/index_util.cc:67-77 | Changing one digit moves the value by the difference times the product of the lower radices. |
| MixedRadix.ValueOrder | xla/index_util.cc:94-107 | Numerals are ordered by their most significant difference. |
| Permutations.IsPermutation | xla/permutation_util.cc:24-33 | Accepts exactly the duplicate-free lists of all numbers below the length. |
| Permutations.InversePermutation | xla/permutation_util.cc:35-43 | The result undoes the permutation on both sides. |
| Permutations.ComposePermutations | xla/permutation_util.cc:45-54 | Selects the entries of the first list in the order of the second; a permutation if both are. |
| Permutations.GatherComposes | xla/permutation_util.cc:45-54 | Gathering twice is gathering by the composition. |
| Permutations.Onto | xla/permutation_util.cc:24-33 | A duplicate-free in-range list reaches every number, by the pigeonhole principle. |
| Layouts.ProductGather | xla/shape_util.h:112-121 | A layout does not change the element count. |
| Layouts.OffsetBound | xla/index_util.h:53-108 | The offset of an in-bounds index lies inside the buffer, under every layout. |
| Layouts.OffsetInjective | xla/index_util.h:53-108 | Different in-bounds indices never share a buffer cell. |
| Layouts.OffsetOfIndexAt | xla/index_util.cc:28-50 | Every buffer position below the element count holds an in-bounds index. |
| Layouts.IndexAtOfOffset | xla/index_util.cc:28-50 | ... and it is the index whose offset that position is. |
| Layouts.OffsetUpdate | xla/index_util.cc:67-77 | Moving along one dimension moves the offset by its stride. |
| Layouts.RowRankOrder | xla/index_util.cc:52-65 | One index has a smaller row-major rank than another exactly if it precedes it lexicographically. |
| Layouts.DescendingIsRowMajor | xla/layout_util.cc:477-480 | The only sorted layout is the default one. |
| IndexUtil.MultidimensionalIndexToLinearIndex | xla/index_util.h:53-108 | The scale loop computes the offset that the layout defines; in bounds for in-bounds indices. |
| IndexUtil.LinearIndexToMultidimensionalIndex | xla/index_util.cc:28-50 | The divisor loop returns the in-bounds index stored at that position. |
| IndexUtil.GetDimensionStride | xla/index_util.cc:67-77 | The product of the more minor dimensions. |
| IndexUtil.Successor | xla/index_util.cc:52-65 | Clearing maxed minor digits and bumping the next one is the successor under any layout. |
| IndexUtil.Carry | xla/index_util.cc:52-65 | Clearing k maxed digits trades their value for the weight of the next digit, less one. |
| IndexUtil.BumpIndices | xla/index_util.cc:52-65 | Steps to the next index in row-major order; at the last one returns false. An empty dimension is scanned like one of extent 1. |
| IndexUtil.CompareIndices | xla/index_util.cc:94-107 | The sign tells the lexicographic order, which is the row-major order; zero only for equal indices. |
| LayoutUtil.ValidateLayoutForShape | xla/layout_util.cc:247-272 | Accepts exactly the permutations of the dimensions. |
| LayoutUtil.MoveDimToMajor | xla/layout_util.cc:624-636 | The dimension becomes most major, the others keep their order, the result is a layout. |
| LayoutUtil.TiledOffsetInjective | xla/layout_util.cc:638-684 | Tiled offsets of different in-bounds indices differ. |
| LayoutUtil.TiledOffsetBound | xla/layout_util.cc:638-684 | They stay below tile volume times the rounded-up tile counts times the untiled dimensions. |
| LayoutUtil.UntiledOffset | xla/layout_util.cc:638-684 | Without a tile the tiled offset is the plain one. |
| LayoutUtil.LinearIndex | xla/layout_util.cc:638-684 | The two running multipliers compute the tiled offset: the row-major rank inside the tile, plus the tile volume times the row-major rank of the tile, where the tile's last size belongs to the most minor dimension; at rank at most 1 or without a tile the plain offset. |
| LayoutUtil.TiledMatrix | xla/layout_util.cc:638-684 | For a row-major matrix and a tile [a, b]: `((i/a)*ceil(d1/b) + j/b)*a*b + (i%a)*b + j%b`. |
| ForEachIndex.StepTest | xla/shape_util.h:1000-1011 | The wrap test of a dimension fails exactly at its last grid point, whether or not the step divides the count. |
| ForEachIndex.StepsExactly | xla/shape_util.cc:2143-2160 | Along each dimension exactly the multiples of the increment below the count are visited, and the base always. |
| ForEachIndex.ForEachState.IncrementDim | xla/shape_util.h:1000-1011 | One step visits the next grid point in layout order; the rank is returned exactly after the last. |
| ForEachIndex.ForEachState.CalculateNumSteps | xla/shape_util.cc:2143-2160 | The number of grid points, zero for empty arrays. |
| Literals.Literal.Get | xla/literal.h:1291-1306 | Reads the element at a logical index. |
| Literals.Literal.Set | xla/literal.h:1291-1306 | That index reads back the value; no other index changes. |
| CopySlice.StridedCopy | xla/util.h:187-195 | Performs the run element by element, also when both sides are one buffer that changes as it is read. |
| CopySlice.StridedApart | xla/util.h:187-195 | Between two buffers the run is copied and every other cell is left alone. |
| CopySlice.MakeStrideConfig | xla/literal.cc:153-194 | Strides and loop size belong to one dimension, whichever side it is chosen from. |
| CopySlice.Job.RunAdvances | xla/literal.cc:405-424 | Copying one run completes exactly the cells of that grid point, even if strides interleave runs. |
| CopySlice.Job.CellInRun | xla/literal.cc:405-424 | Every cell of the window belongs to the run of its own grid point. |
| CopySlice.Job.CopyComplete | xla/literal.cc:372-427 | After all runs each destination cell holds the source element of its index, or its old value outside the window. |
| CopySlice.Job.ReplayIsDone | xla/literal.cc:389-425 | Between two buffers, after t runs exactly the cells of the first t grid points are copied. |
| SliceCopies.CopyRuns | xla/literal.cc:389-425 | The scan over the grid performs all runs, in grid order. |
| SliceCopies.SafeReplay | xla/literal.cc:389-425 | Within one buffer, if no cell is overwritten before it is read, the runs copy from the buffer as it was. |
| SliceCopies.OverlapExactly | xla/literal.cc:389-425 | A copy within one buffer, even between two shapes over it, is right for all contents if and only if no cell is overwritten before it is read. |
| SliceCopies.SafeExactly | xla/literal.cc:389-425 | Within one literal of any rank that is so exactly if the windows are apart in some dimension or the destination base has no greater offset than the source base. |
| SliceCopies.CopyWithinExactly | xla/literal.cc:389-425 | Hence the copy is right for all contents if and only if the request meets that condition. |
| SliceCopies.ShiftUpRepeats | xla/literal.cc:389-425 | A request that fails: two elements of a vector of three, one place up, leave the first element everywhere. |
| SliceCopies.OrderByBases | xla/literal.cc:389-425 | For any two window indices that share a cell, the one written comes earlier in the scan exactly if the destination base has the greater offset. |
| SliceCopies.VectorOverlap | xla/literal.cc:389-425 | For vectors the condition is that the copy goes down, stays, or the windows are apart. |
| SliceCopies.ApartIsSafe | xla/literal.cc:389-425 | Windows that are apart in some dimension are safe, whatever the layout. |
| SliceCopies.CopySliceFrom | xla/literal.cc:372-427 | For any two layouts, bases and sizes: `dest[dest_base+i] == src[src_base+i]` inside the window, unchanged outside; so nothing is copied exactly if the window or one side is empty. If both share one buffer, exactly the replayed runs, which is that as well if no cell is overwritten before it is read, for equal shapes exactly if the request is safe. Scalars and rank mismatch included. |
| Arrays.SliceReads | xla/array.h:434-456 | A slice reads `a(starts + idx)` at every window index. |
| Arrays.UpdateReads | xla/array.h:459-477 | An updated window reads the new contents; every other cell keeps its value. |
| Arrays.SliceOfUpdate | xla/array.h:434-477 | Slicing back an updated window returns what was written. |
| Arrays.UpdateWithOwnSlice | xla/array.h:434-477 | Updating with one's own slice changes nothing. |
| Arrays.WindowOrder | xla/array.h:445-454 | Window cells come in the same order in the window and in the whole array. |
| Arrays.CounterIsRank | xla/array.h:445-454 | One running counter equals the window rank of each window cell when the scan reaches it. |
| Arrays.CountEnd | xla/array.h:445-454 | At the end of the scan the counter has covered the whole window. |
| Arrays.HornerStep | xla/array.h:661-669 | Row-major rank by Horner's rule. |
| Arrays.Array.CalculateIndex | xla/array.h:661-669 | Computes the row-major rank. |
| Arrays.Array.NextIndex | xla/array.h:673-683 | Advances by one in row-major order; wraps to the origin and reports it. |
| Arrays.Array.Slice | xla/array.h:434-456 | The counter loop produces exactly the slice; if the window reaches outside the array, the cells found close up at the front of the result. |
| Arrays.Array.UpdateSlice | xla/array.h:459-477 | The counter loop produces exactly the updated array, in place; if the window reaches outside, the cells found get the first elements of the block. An array written over itself gets the result that SelfOverlaidUnique determines, and is unchanged if it fits. |
| Arrays.SelfOverlaidUnique | xla/array.h:459-477 | For an array written over itself from any start, the relation of each cell to the one it was read from determines the whole result. |
| ArrayWindows.RanksKeptExactly | xla/array.h:447-454 | The counter gives each cell found its rank in the whole window if and only if none is found, or the window starts in the array and is cut only where every more major dimension keeps one cell. |
| ArrayWindows.SliceInPlaceExactly | xla/array.h:434-456 | Under exactly that condition a slice puts the cells found in their own places, for all contents. |
| ArrayWindows.UpdateInPlaceExactly | xla/array.h:459-477 | Under exactly that condition an update from another array reads them from their own places. |
| ArrayWindows.UpdateOutOfPlace | xla/array.h:459-477 | A request that fails: in a two by two array, updated from its second column on, the lower cell gets the block's second element instead of its third. |
| Arrays.Array.Reshape | xla/array.h:481-491 | Elements keep their row-major rank. |
| Arrays.Array.TransposeDimensions | xla/array.h:505-520 | Cell by cell, index j of the result is the source at the index permuted back. |
| Relayouts.CopyElementsBetween | xla/literal.cc:554-568 | Element-wise copy between any two layouts keeps every logical element. |
| Relayouts.CopyFrom | xla/literal.cc:605-661 | Raw copy and element copy both keep every element; dynamic sizes follow if both sides are dynamic. |
| Relayouts.Relayout | xla/literal.cc:892-909 | Same elements under the requested layout. |
| Relayouts.RelayoutRoundTrip | xla/literal.cc:892-909 | Changing the layout and back restores the buffer bit for bit. |
| Relayouts.ElementsDetermineBuffer | xla/literal.h:1291-1306 | Literals of one shape with the same elements have the same buffer. |
| Relayouts.IsMonotonicWithDim0Major | xla/layout_util.cc:477-480 | True exactly for the default layout. |
| Relayouts.Reshape | xla/literal.cc:1069-1099 | From any layout the element of row-major rank r keeps rank r; dynamic shapes and changed sizes give errors. |
| Relayouts.TransposeKeepsOffsets | xla/literal.cc:1101-1145 | The rewritten layout puts the permuted index exactly where the index was. |
| Relayouts.TransposeAgreesWithArray | xla/literal.cc:1101-1145 | Transposing without moving data yields at every index what the cell-by-cell transposition yields. |
| Relayouts.TransposeInverse | xla/literal.cc:1101-1145 | Transposing back with the inverse permutation restores the shape, layout included. |
| Relayouts.PermuteDynamicSizes | xla/literal.cc:1132-1140 | Each dynamic size moves with its dimension. |
| Relayouts.Transpose | xla/literal.cc:1101-1145 | For every permutation the buffer stays, each element is found at its permuted index, and each dimension keeps its size, its dynamic flag, its dynamic size and its place in the layout. |
| Populate.VisitOffset | xla/literal.cc:806-869 | Visit t of the scan starts at cell t times the run length. |
| Populate.VisitsCover | xla/literal.cc:806-869 | The runs tile the buffer even when the chunk does not divide the length. |
| Populate.InitFunction | xla/literal.cc:831-850 | One visit calls the generator once for each cell of its run, with that cell's own index and address. |
| Populate.PopulateInplace | xla/literal.cc:806-869 | The calls are exactly one per cell, in order, and each cell holds the generated value. |
| Populate.ChunkSize | xla/literal.cc:818-829 | The run length is positive and either the minor dimension or, at rank 1, any chunk. |
| Populate.RunTasks | xla/shape_util.cc:1865-1895 | Running the scheduled visits in any order calls each cell exactly once. |
| Populate.CallsInRun | xla/literal.cc:806-869 | Different runs call different cells. |
| Populate.PopulateInplaceParallel | xla/literal.cc:806-869 | For every thread count and schedule: one call per cell, each cell holds its generated value. |
| BoundedDynamic.Int32Exact | xla/literal.cc:571-578 | The 32-bit size is congruent to the extent modulo 2^32, exact below 2^31 and nowhere else. |
| BoundedDynamic.Int32Needed | xla/literal.cc:1804-1816 | Between a static array and its bounded dynamic form every element is copied if and only if the array is empty or all extents are below 2^31. |
| BoundedDynamic.HugeVectorLost | xla/literal.cc:929-946 | A vector of 2^31 elements gets a negative dynamic size and none of it is copied. |
| BoundedDynamic.WrappedVectorLost | xla/literal.cc:929-946 | A vector of 2^32 + 1 elements gets the dynamic size 1 and one element is copied. |
| BoundedDynamic.CopyElementsWithDynamicBound | xla/literal.cc:1787-1822 | Copies exactly the indices inside both dynamic extents and leaves the rest, rank-1 path and empty arrays on either side included. |
| BoundedDynamic.ToBoundedDynamic | xla/literal.cc:929-946 | The dynamic sizes are the extents cut down to 32 bits and exactly the indices inside them are copied; below 2^31 that is the whole array. |
| BoundedDynamic.ToStatic | xla/literal.cc:948-967 | Static dimensions are the dynamic extent and exactly the indices inside the 32-bit sizes are copied; that is all of them below 2^31 or if the literal is static already. |
| BoundedDynamic.RoundTripExactly | xla/literal.cc:929-967 | The stored 32-bit sizes are the extents and every element is copied if and only if the dynamic extents are below 2^31 and, unless the array is empty, the static ones are too. |
| BoundedDynamic.RoundTrip | xla/literal.cc:929-967 | Under that condition, going to bounded dynamic and back restores dimensions and elements, across any layouts. |
| ShapeTrees.SubtreeContiguous | xla/shape_tree.h:302-339 | Every subtree is one contiguous range of the pre-order, labelled prefix plus inner label. |
| ShapeTrees.PositionOfLabel | xla/shape_tree.h:205-210 | Every pre-order position has one index path, and it leads back there. |
| ShapeTrees.LabelsInOrder | xla/shape_tree.h:205-210 | Nodes are stored in lexicographic order of their index paths. |
| ShapeTrees.PositionCompose | xla/shape_tree.h:302-339 | Positions add up along a path. |
| ShapeTrees.IndexTable.CreateEntry | xla/shape_tree.cc:34-49 | Appends the descendants' entries, siblings consecutive, node ids in pre-order, other entries untouched. |
| ShapeTrees.IndexTable.Lookup | xla/shape_tree.cc:51-58 | The breadth-first lookup returns the pre-order position; a leaf mark exactly at non-tuples. |
| ShapeTrees.CompatibleLabels | xla/shape_util.cc:819-821 | Compatible shapes have the same tree of labels. |
| ShapeTrees.EqualSizeRanges | xla/shape_tree.h:302-325 | Subtree ranges of equal size are the same or disjoint, so copying within one tree is safe. |
| ShapeTrees.CopiedInside | xla/shape_tree.h:302-325 | After the copy, node dst+suffix holds the value of src+suffix under its own label, for every suffix. |
| ShapeTrees.CopiedOutside | xla/shape_tree.h:302-325 | Every node outside the destination subtree is unchanged. |
| ShapeTrees.ShapeTree.Find | xla/shape_tree.h:205-210 | The node found carries the index asked for. |
| ShapeTrees.ShapeTree.IsLeaf | xla/shape_tree.h:147-149 | Exactly the non-tuple nodes are leaves. |
| ShapeTrees.ShapeTree.NextLeaf | xla/shape_tree.h:400-409 | Moves to the next leaf in pre-order, skipping only tuples. |
| ShapeTrees.ShapeTree.CopySubtreeFrom | xla/shape_tree.h:302-325 | The range transform copies the subtree and keeps every label, also when both trees are the same object. |
| ShapeTrees.ShapeTree.SubShapeTree | xla/shape_tree.h:327-339 | The subtree as a tree: element(suffix) is the original's element(index+suffix); none for an invalid index. |
| ShapeTrees.Visit | xla/shape_util.h:921-934 | The push-and-pop visitor lists the nodes in pre-order with their paths. |
| RefcountingHashMaps.RunKeepsInv | xla/refcounting_hash_map.h:59-96 | The invariant of entries and live values survives every interleaving. |
| RefcountingHashMaps.HandlesAgree | xla/refcounting_hash_map.h:59-81 | All handles held at one time for a key are one value, and asking again returns it. |
| RefcountingHashMaps.NoLiveEntryErased | xla/refcounting_hash_map.h:83-96 | No step of any run erases an entry whose value is alive. |
| RefcountingHashMaps.NoResurrection | xla/refcounting_hash_map.h:63-71 | A value that lost its last handle is never handed out again. |
| RefcountingHashMaps.AliveWhileOwned | xla/refcounting_hash_map.h:63-81 | In every run the count of a value is the number of handles given out and copied less those dropped, and the value is alive exactly while that is positive. |
| RefcountingHashMaps.QuiescentIsEmpty | xla/refcounting_hash_map.h:83-96 | Without handles and with all deleters finished the map is empty. |
| RefcountingHashMaps.DrainsToEmpty | xla/refcounting_hash_map.h:83-96 | From every reachable state without handles the pending deleters can finish and empty the map. |
| RefcountingHashMaps.RefcountingHashMap.GetOrCreateIfAbsent | xla/refcounting_hash_map.h:59-81 | Returns the live value or, if there is none, a new one put in the key's entry, in whose node its deleter finds the key; that value gains one owner and no other changes; the step of the machine. |
| RefcountingHashMaps.RefcountingHashMap.EraseIfExpired | xla/refcounting_hash_map.h:87-96 | Erases the entry and frees its node only if it is still expired, and leaves all other entries alone; the step of the machine, for a deleter whose key is not freed. |
| RefcountingHashMaps.KeysAliveExactly | xla/refcounting_hash_map.h:83-96 | In a run no deleter reads a freed key if and only if no deleter erases an entry while another deleter for that key has yet to take the lock. |
| RefcountingHashMaps.SecondDeleterFirst | xla/refcounting_hash_map.h:83-96 | A concrete run in which the second value's deleter frees the node that the first one's key reference points into. |
| RefcountingHashMaps.LiveNode | xla/refcounting_hash_map.h:83-85 | While a value has handles the node of its key is there. |
| RefcountingHashMaps.DoomedExactly | xla/refcounting_hash_map.h:83-96 | From a state, dropping handles and running deleters can lead to the read of a freed key if and only if two values of one key are unfinished or an unfinished one has lost its key. |
| RefcountingHashMaps.PatientCallersAreSafe | xla/refcounting_hash_map.h:83-96 | If a key is made anew only after its earlier deleters have finished, no run reads a freed key. |
| CompilerFuel.FuelIsExact | xla/debug_options_flags.cc:1373-1401 | In every interleaving, of n calls on fuel F exactly min(n, F) fire and the run-out is reported once if n > F, else never. |
| CompilerFuel.ThreadDrawsLocally | xla/debug_options_flags.cc:1384-1391 | The calls that draw on a refilled thread's pool are exactly that thread's calls. |
| CompilerFuel.OthersShareGlobally | xla/debug_options_flags.cc:1384-1391 | Without refills, those that draw on the global pool are exactly the calls of threads that have not refilled. |
| CompilerFuel.FuelPerThread | xla/debug_options_flags.cc:1362-1401 | After a refill, n calls of the thread fire min(n, F) times, where F is the fuel the flag gave. |
| CompilerFuel.EverConsumedIsExact | xla/debug_options_flags.cc:1392-1394 | A pass is marked consumed exactly if some call drew on a pool for it. |
| CompilerFuel.PoolUntouched | xla/debug_options_flags.cc:1384-1391 | A run that neither draws from a pool nor refills it leaves it as it was: thread pools affect neither the global pool nor each other. |
| CompilerFuel.UnnamedForever | xla/debug_options_flags.cc:1385-1391 | A pass the flag does not name always fires, in every run and on every thread, and changes nothing. |
| CompilerFuel.NoCallFails | xla/debug_options_flags.cc:1362-1401 | In every run each pool key keeps an ever-consumed entry, so the lookup never fails. |
| CompilerFuel.CallsFailExactly | xla/debug_options_flags.cc:372-399 | After setting the flag no call fails, on any thread and for any pass, if and only if the text names every pass that a thread already holds fuel for. |
| CompilerFuel.JoinOfSplit | xla/debug_options_flags.cc:377-378 | Splitting gives separator-free parts that joined again are the text. |
| CompilerFuel.PoolsExactly | xla/debug_options_flags.cc:377-399 | A pass has the fuel of the first token "pass=number" that names it, provided all tokens before that one are well-formed. |
| CompilerFuel.DescribedExactly | xla/debug_options_flags.cc:377-399 | The text is accepted if and only if all its tokens are well-formed. |
| CompilerFuel.NoCallFailsLater | xla/debug_options_flags.cc:372-399 | ... and then none fails in any run that follows. |
| CompilerFuel.Fuel.SetFuel | xla/debug_options_flags.cc:372-399 | Pools and marks become those of the text, up to its first malformed token; says exactly when a later call fails. |
| CompilerFuel.ResettingFlagUnderThreads | xla/debug_options_flags.cc:372-399 | Setting the flag to "dce=5", refilling a thread and setting it to the empty text makes the thread's next call fail. |
| CompilerFuel.Fuel.ResetThreadLocalFuel | xla/debug_options_flags.cc:1362-1371 | The thread gets a copy of the initial pool; nothing else changes. |
| CompilerFuel.Fuel.ConsumeFuel | xla/debug_options_flags.cc:1373-1401 | One step of the machine; with the plugin switch it always fires. |
| FlagParser.ParsePrint | xla/parse_flags_from_env.cc:104-141 | Parsing any printed line (flags double-quoted with any escapes, single-quoted or bare, any white space) returns exactly the arguments, and the first text that is not a flag ends it. |
| FlagParser.CharacterClasses | xla/parse_flags_from_env.cc:40-113 | The parser's name characters, quotes and white space, listed; NUL counts among the first two. |
| FlagParser.UnquotePieces | xla/parse_flags_from_env.cc:121-135 | Between double quotes a backslash makes any next character literal; the value ends at the closing quote or with the text, where a last backslash stands for itself. |
| FlagParser.ArgumentsAreFlags | xla/parse_flags_from_env.cc:104-141 | On every text each argument is non-empty, starts with a dash and has no NUL; there are at most as many as characters. |
| FlagParser.EnvArgv.ParseFlag | xla/parse_flags_from_env.cc:107-139 | Appends one argument and advances, on every input. |
| FlagParser.EnvArgv.ParseArgvFromString | xla/parse_flags_from_env.cc:104-141 | The position-juggling loop computes the recursive specification and ends on every string. |
| BufferAllocator.AlignToExact | xla/cpu_function_runtime.cc:52-54 | With 64-bit wrap-around, rounding up is exact whenever the rounded size fits, size 0 included. |
| BufferAllocator.AlignedBufferBytes | xla/cpu_function_runtime.cc:58-71 | The exact total of the rounded sizes. |
| BufferAllocator.OffsetsArePlaced | xla/cpu_function_runtime.cc:73-100 | Running offsets give pairwise disjoint, aligned ranges inside the block. |
| BufferAllocator.OffsetsAreTight | xla/cpu_function_runtime.cc:73-100 | Beyond rounding up to 64 bytes no space is left before, between or behind them. |
| BufferAllocator.MallocContiguousBuffers | xla/cpu_function_runtime.cc:73-100 | Temporaries, and parameters of the entry computation if asked for, get disjoint ranges inside the block, aligned if it is, using up the computed total; the slots of all others are null, and so are these exactly if the total is 0. |
| BufferAllocator.NullSlots | xla/cpu_function_runtime.cc:73-100 | After a successful allocation the slot of a buffer to allocate is null if and only if no buffer to allocate has any bytes. |
| BufferAllocator.NullSlotsOnFailure | xla/cpu_function_runtime.cc:73-100 | After a failed one, exactly if only empty buffers come before it. |
| BufferAllocator.EmptyTempBuffer | xla/cpu_function_runtime.cc:58-100 | One temporary buffer of size 0 is to be allocated and gets a null slot. |
| MismatchStatistics.FiniteMismatch | xla/literal_comparison.cc:388-400 | For finite numbers the test is: difference above the absolute limit and above the relative limit times the expected magnitude. |
| MismatchStatistics.MismatchTable | xla/literal_comparison.cc:346-387 | Case by case which pairs with NaN or infinities mismatch under which options, and that a NaN mismatch is counted exactly if one side only is NaN and the pair mismatches. |
| MismatchStatistics.DifferenceTable | xla/literal_comparison.cc:370-403 | The remaining pairs, an infinity compared as the largest finite value included: distance above the absolute limit and above the relative limit times the expected magnitude. |
| MismatchStatistics.ByDifferenceTable | xla/literal_comparison.cc:331-411 | What each limit count and each error bucket counts of such a pair; a bucket counts only where the other limit is exceeded. |
| MismatchStatistics.OtherwiseTable | xla/literal_comparison.cc:331-411 | Of all other pairs they count exactly the mismatches. |
| MismatchStatistics.BucketTable | xla/literal_comparison.cc:312-329 | The magnitude bucket of a number below one has it between its bounds; everything else is in the last. |
| MismatchStatistics.AddTopKeeps | xla/literal_comparison.cc:421-430 | The bounded set stays the five largest relative errors, with multiplicity. |
| MismatchStatistics.LeftOutIsSmaller | xla/literal_comparison.cc:421-430 | A relative error that is left out is not above any that is kept. |
| MismatchStatistics.TopUnique | xla/literal_comparison.cc:421-430 | The five largest are determined by the mismatches alone. |
| MismatchStatistics.TotalGather | xla/literal_comparison.cc:344-433 | No statistic depends on the order of comparison. |
| MismatchStatistics.BucketsAddUp | xla/literal_comparison.cc:312-329 | For real types the magnitude buckets sum to the elements compared and to the mismatches. |
| MismatchStatistics.ComplexBucketsAddUp | xla/literal_comparison.cc:312-462 | For complex types they sum to two parts per element and to the parts that mismatch, which are one or two per mismatching element. |
| MismatchStatistics.DescribedBuckets | xla/literal_comparison.cc:312-329 | ... and so do the buckets of any state the comparator reaches. |
| MismatchStatistics.RecordStep | xla/literal_comparison.cc:344-462 | One more comparison, real or complex, keeps every counter, bucket and kept error equal to what it stands for. |
| NearComparators.AlwaysExplained | xla/literal_comparison.cc:344-462 | After any series of comparisons of different positions all statistics and marks are exact. |
| NearComparators.KeptAreGenuine | xla/literal_comparison.cc:421-430 | Every kept mismatch reports the values, errors and position of a mismatching element that was compared. |
| NearComparators.OutcomeMeaning | xla/literal_comparison.cc:286-308 | The mismatch count is the number of true cells; a cell tells whether its element fails; zero exactly if all are near. |
| NearComparators.PathsCompareTheSame | xla/literal_comparison.cc:465-505 | With equal layouts the slow path makes the fast path's comparisons in another order. |
| NearComparators.FastAgreesWithSlow | xla/literal_comparison.cc:465-505 | Comparing in buffer order and comparing index by index end with the same counters, buckets, kept errors and mismatch literal. |
| NearComparators.PathExplained | xla/literal_comparison.cc:465-505 | Whichever path is taken, the state is that of comparing every index of the extent. |
| NearComparators.NearComparator.UpdateAbsValueBucket | xla/literal_comparison.cc:312-329 | Exactly the one bucket of that magnitude grows. |
| NearComparators.NearComparator.UpdateErrorBucket | xla/literal_comparison.cc:332-339 | Every bucket whose lower bound is reached grows by one, no other. |
| NearComparators.NearComparator.CompareNumbers | xla/literal_comparison.cc:344-433 | One comparison changes the whole state as the specification says. |
| NearComparators.NearComparator.CompareValues | xla/literal_comparison.cc:436-462 | A complex element is counted once even if both parts mismatch. |
| NearComparators.NearComparator.CompareLiteralsSlow | xla/literal_comparison.cc:486-505 | The recursion over dimensions visits the extent in row-major order, up to the dynamic sizes of the expected literal. |
| NearComparators.NearComparator.CompareLiterals | xla/literal_comparison.cc:465-481 | Takes the fast path exactly for equal static layouts. |
| NearComparators.NearComparator.Run | xla/literal_comparison.cc:286-308 | Passes exactly if at every index in the dynamic extent of `expected` the elements, or both parts of complex ones, do not mismatch; the mismatch literal is true exactly where they do; the reported state explains itself by the inputs. |
| Casts.CastExact | xla/primitive_util.h:417-493 | The test says yes if and only if every value of the source type, negative zero and infinities included, is a value of the target type, for all pairs of array types. |
| FloatCodes.FormatsFillCodes | xla/xla_data.proto:48-100 | Sign, exponent and fraction bits fill each float type's width, and the limits that the test reads follow from them. |
| FloatCodes.NumbersAreCodes | xla/xla_data.proto:48-100 | The numbers of a float type are exactly those that its codes stand for: hidden bit, subnormals, infinities, and the codes given to NaN. |
| FloatCodes.CastMeansCodes | xla/primitive_util.h:417-493 | The test says yes if and only if every value of the source type, read from its codes or its integer range, is a value of the target type. |
| Casts.RealCastExact | xla/primitive_util.h:417-493 | The same for the types that are not complex. |
| Casts.FloatTestExact | xla/primitive_util.h:444-460 | On the float types at hand the exponent-width clause follows from the others, and a passing test never loses negative zero. |
| Casts.RealCastLoses | xla/primitive_util.h:417-493 | Whenever the test says no, a number is named that is lost. |
| Casts.FloatInFloat | xla/primitive_util.h:444-460 | For any two float formats, the target's largest codes being numbers: significand, exponent range and infinity preserved means every number is held. |
| Casts.FormatsExact | xla/primitive_util.h:444-460 | For any two float formats, the target's largest codes being numbers: every number of one is a number of the other if and only if significand, range, infinity and negative zero are preserved. |
| Casts.FloatLost | xla/primitive_util.h:444-460 | Violating one of these loses a number that is named. |
| Casts.IntInFloat | xla/primitive_util.h:465-483 | Integers of any width fit a significand of as many bits, the least signed value included. |

## Left out

- Array states other than known dense arrays (unknown, undetermined), tuple literals, sparse layouts and the byte-level storage of `Piece`: elements are abstract values in one flat buffer.
- BoundedDynamic.RoundTrip: what comes back when the stored sizes are not the extents (RoundTripExactly); ToBoundedDynamic and ToStatic state it for each half of the trip.
- Arrays.Array.Slice: limits below the starts, for which the result would have a negative size.
- Tiles after the first, `kCombineDimension` and tiles on rank-1 shapes: `LinearIndex` reads only the first tile and returns the index itself at rank 1.
- 64-bit overflow of products of dimensions, strides and multipliers.
- Populate.PopulateInplaceParallel: each scheduled visit runs as one atomic step, in any order; data races inside the generator are not modelled.
- CompilerFuel.FuelIsExact: stops where the 64-bit counter would wrap around, after more than 2^63 failed calls.
- Floating-point rounding, in the comparator as in casts: numbers are exact reals, error limits are finite, and NaN payloads are not among the values that a cast must keep.
- The native classes of the 8-bit float types are not part of this model: their limits are those that the type declarations' bit counts and biases imply.
- Texts of error messages, the miscompare callback and the comparison of tuples.
- The header comment of `CompareIndices` (xla/index_util.h:145-148) gives the opposite sign; the model follows the code.
- `IndexInBounds`, `EachCell`, random fills, printing, protobuf conversion, `ReferenceUtil`, bitcast analysis, environment and file reading, the flag table and the remaining plumbing.
