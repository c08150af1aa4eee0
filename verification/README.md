# Verified model of the Hecios parallel file system simulator

Hecios simulates the clients, servers and storage of a parallel file system.  This project models the
algorithms under its message plumbing and proves what they do, over every input, every run and every order
of deliveries.  `dafny verify dfyconfig.toml` checks all of it.

## What is modelled

| files | part of Hecios |
|---|---|
| `data_flows.dfy`, `flow_world.dfy` | the windowed transfer between a client flow and a server flow: the two flow classes, and the two of them joined by a network and a storage device that deliver in any order |
| `flow_listing.dfy` | which regions of its layout such a flow asks of storage |
| `job_manager.dfy` | which flows exist and which flow a tagged message reaches |
| `striping.dfy`, `data_type_processor.dfy`, `data_type_layout.dfy` | round-robin striping, the distribution of requests over servers and the slicing of layouts into buffers |
| `file_region_set.dfy`, `dirty_region_set.dfy` | the merging set of file regions, and the one that keeps clean and dirty bytes apart |
| `subarray_data_type.dfy`, `subarray_regions.dfy`, `indexed_data_type.dfy` | the MPI subarray and indexed types (sections 4.1.2 and 4.1.3 of MPI-3.1) |
| `file_page_utils.dfy` | pages touched, covered and partly covered, and page views |
| `lru_cache.dfy`, `buffer_cache.dfy`, `buffer_world.dfy` | the LRU cache, the write-back block cache on it, and that cache between clients and a device |
| `broadcast.dfy`, `broadcast_world.dfy` | the broadcast state machine of one rank, and a broadcast over all ranks |
| `arithmetic.dfy`, `sequences.dfy`, `options.dfy` | shared facts and helpers |

Classes whose methods update fields are classes here, and each method is proved equal to a function of its
inputs and the old fields.  The protocols are state machines over those functions: a world holds the state of
every participant and what is in flight, and any enabled delivery may come next.  Sets, lists and multimaps of
the C++ library are the sequences they iterate over.

## Where the code does not do what it promises

Each of these is kept as the code has it, with the exact condition under which it is right.

- `DirtyFileRegionSet::insert` loses or invents bytes when the new region ends inside a region of the opposite
  state that starts before it (`DirtyRegions.DirtyFileRegionSet.Insert`, `TrimLosesBytes`, `SkipInventsBytes`).
- `DataTypeLayout::getSubRegions` does not shorten its first region when it starts in the middle of one
  (`DataTypeLayouts.SliceExact`, `SliceExactApart`); a flow then moves other bytes than its layout's
  (`FlowListings.AlwaysListsExactly`, `FlowCanMissItsLayout`).
- `DataTypeProcessor::distributeContiguousRegion` can take bytes past the end of the request, fewer than a strip
  (`DataTypeProcessing.OverrunBound`).
- `SubarrayDataType::getRegionsByBytes` ignores offsets inside the subarray, and shortens the first run of every
  copy when the data offset happens to be a memory position in it (`SubarrayRegions.FaithfulExactly`).
- `IndexedDataType::getRegionsByBytes` repeats the block that ends where the request starts, and mistakes offsets
  past the extent of overlapping blocks (`IndexedTypes.FaithfulExactly`).
- The buffer cache's comment that a block not cached was not written since its read was sent is wrong: the write
  may have been evicted, and the read then brings an old version into the cache
  (`BufferWorlds.CurrentExactly`, `StaleExactly`).
- `BasicModelDisk` adds a request's own delay twice, so a short request can complete before an earlier long one.
  When the last write of a block completes before an earlier one, the older version stays on the disk
  (`BufferWorlds.SettledExactly`, `LatestIsDurable`).
- `LRUCache` does not count down when a dirty entry is overwritten clean, and `setDirtyBit` does not count at all;
  the asserted bound on the counter can fail (`LRUCaches.CounterExactly`, `InsertionsCountExactly`).  In the buffer
  cache it fails only after a request that asks to be written through (`BufferCaches.UnflaggedWritesNeverFail`,
  `WritesCanFailExactly`).
- The broadcast reaches only the root unless the number of ranks is a power of two
  (`BroadcastWorlds.ReachesAllExactly`).
- A page that touching regions cover between them is reported partial: only a page inside one region is full
  (`FilePages.FullPagesExactly`).

## Assumptions

- Both flows of a transfer are created with the same size, buffer size and number of buffers, and have a tag of
  their own.  A write starts the server's flow first and the client's on the server's response; a read starts the
  client's flow first.  Storage completes each operation with the bytes asked for.
- Offsets, sizes and ranks are unbounded integers.  Only the dirty region set models 64-bit arithmetic, where a
  wrapped length matters; its regions lie within the nonnegative range of FSOffset.
- A subarray or indexed type gets its element type's listing as a function; what is said about data streams is
  said of the runs it is asked for.  The flattened regions of a request are given to the page and layout
  operations as they come from the file view.
- The contents of a cached block are stood for by the number of the write that made them; the code stores a
  placeholder.  In the runs of the block cache any write may be written through, which covers every threshold.
- A broadcast numbers ranks within the communicator, and a state machine without a transition enters its state
  again.  The number of tree levels is the exact logarithm, rounded up.

## Model

| member | source | states |
|---|---|---|
| `DataFlows.MemoryDataFlow.constructor` | src/io/bmi_memory_data_flow.cc:18-29 | a new client flow has pushed and counted nothing |
| `DataFlows.MemoryDataFlow.PushDataToNetwork` | src/io/bmi_memory_data_flow.cc:104-121 | sends one chunk and counts it as pushed; storage and network progress stay |
| `DataFlows.MemoryDataFlow.StartTransfer` | src/io/bmi_memory_data_flow.cc:35-50 | a write sends the next chunk, at most a buffer and never past the flow's size; a read sends nothing |
| `DataFlows.MemoryDataFlow.Initialize` | src/io/data_flow.cc:60-71 | spends one credit per buffer, in order |
| `DataFlows.MemoryDataFlow.ProcessDataFlowMessage` | src/io/bmi_memory_data_flow.cc:52-97 | new fields, messages sent and whether the flow finishes, for a push, an acknowledgement and every other message |
| `DataFlows.ListIODataFlow.constructor` | src/io/bmi_list_io_data_flow.cc:20-41 | a new server flow stands at the beginning of its layout, with the recorded stream size |
| `DataFlows.ListIODataFlow.PullDataFromStorage` | src/io/bmi_list_io_data_flow.cc:158-195 | asks storage for the next slice of the layout, region by region, and moves the pull offset past it; past the end it asks for nothing |
| `DataFlows.ListIODataFlow.PushDataToStorage` | src/io/bmi_list_io_data_flow.cc:197-223 | writes the next slice of the layout, region by region, moves the push offset past it and records how far the stream goes: the least size that is no smaller than the old one and reaches the end of every region written |
| `DataFlows.ListIODataFlow.UpdateBstreamSize` | src/io/bmi_list_io_data_flow.cc:248-253 | the recorded size is the greater of the old one and the end written |
| `DataFlows.ListIODataFlow.StartTransfer` | src/io/bmi_list_io_data_flow.cc:49-60 | a read pulls the next buffer from storage; a write waits for data |
| `DataFlows.ListIODataFlow.Initialize` | src/io/data_flow.cc:60-71 | spends one credit per buffer, in order; the storage requests are consecutive slices of the layout |
| `DataFlows.ListIODataFlow.ProcessDataFlowMessage` | src/io/bmi_list_io_data_flow.cc:62-129 | new fields, messages sent, storage requests with their regions and whether the flow finishes, for storage completions, pushes and acknowledgements, provided the slice asked for lies in the layout; a push extends the recorded stream size just to the ends of the regions written, nothing else changes it |
| `FlowWorld.ClientSpendsCredits` | src/io/bmi_memory_data_flow.cc:35-50 | initialising a write client sends chunks no larger than a buffer, as many as there are buffers unless all data is sent |
| `FlowWorld.ServerSpendsCredits` | src/io/bmi_list_io_data_flow.cc:49-60 | initialising a read server asks storage for chunks in the same way |
| `FlowWorld.FirstFlowWaits` | src/io/data_flow.cc:60-71 | the flow of a request that is created first sends nothing on creation |
| `FlowWorld.InvPreserved` | src/io/bmi_list_io_data_flow.cc:62-129 | every delivery, completion, start and finish keeps the byte balance, the window and the life cycle of both flows; no assertion fails and no missing flow is used |
| `FlowWorld.WriteConservation` | src/io/bmi_memory_data_flow.cc:52-121 | every reachable state of a write: bytes pushed = client progress + bytes in flight as pushes + as acknowledgements; server progress = layout offset = stored bytes + bytes outstanding at storage; chunks in flight never exceed the buffers and equal them while data is unsent |
| `FlowWorld.ReadConservation` | src/io/bmi_list_io_data_flow.cc:62-156 | the mirrored balance and window for every reachable state of a read |
| `FlowWorld.FinishIsSafe` | src/io/bmi_list_io_data_flow.cc:115-129 | each flow finishes at most once, exactly when both its totals reach the size; then nothing in flight is addressed to it, and whatever is in flight has a live receiver and, for data, a live sender |
| `FlowWorld.SomeStepEnabled` | src/io/bmi_memory_data_flow.cc:83-93 | deadlock freedom: until both finish messages are handled some message or storage operation can be delivered |
| `FlowWorld.MeasureDecreases` | src/io/bmi_list_io_data_flow.cc:62-129 | every step decreases a natural measure |
| `FlowWorld.NobodyLeftMeansComplete` | src/io/job_manager.cc:129-149 | when both flows are deleted both totals equal the size, each finish was sent once and nothing is in flight |
| `FlowWorld.StuckIffFinished` | src/io/data_flow.cc:73-77 | a reachable state has no enabled step exactly when both flows are finished |
| `FlowWorld.EveryRunCompletes` | src/io/data_flow.cc:60-77 | every run from the start has at most 10 * size + 1 steps and can stop only with both totals equal to the size on both sides and each finish sent once |
| `FlowListings.IssuedInOrder` | src/io/bmi_list_io_data_flow.cc:158-223 | along any run each storage request is for the layout bytes right after those of the requests before it |
| `FlowListings.EveryFlowIssuesCuts` | src/io/bmi_list_io_data_flow.cc:158-223 | whatever the order of deliveries, the sizes a finished flow has asked of storage are, as a bag, those its data is cut into, which depend on its size and buffer size alone; for reads, for whole buffers and for writes delivered in order also in that order |
| `FlowListings.RequestsAreSlices` | src/io/bmi_list_io_data_flow.cc:62-223 | what the handler calls of a run return, one call after the other, are the consecutive slices of the layout of the sizes issued |
| `FlowListings.EveryFlowListsIssued` | src/io/bmi_list_io_data_flow.cc:158-223 | for every finished flow, with writes in any order: the regions asked of storage are as long as the layout and hold its bytes in order if and only if every slice issued can be cut exactly |
| `FlowListings.EveryFlowListsLayout` | src/io/bmi_list_io_data_flow.cc:158-223 | for reads, writes of whole buffers and writes delivered in order: every finished run lists the layout's bytes in order if and only if its cuts, known before the flow starts, each pass the test on regions for an exact slice; without overlaps each byte then comes once |
| `FlowListings.EveryRunHasAnOrder` | src/io/bmi_list_io_data_flow.cc:197-223 | whatever the order of deliveries, the sizes are issued in the order of the cuts, except that fewer whole buffers of a write than the window fall behind a shorter last one |
| `FlowListings.EveryOrderHasARun` | src/io/bmi_memory_data_flow.cc:35-50 | each of these orders is that of some finished run |
| `FlowListings.AlwaysListsExactly` | src/io/bmi_list_io_data_flow.cc:158-223 | for every flow: all its finished runs list the layout's bytes in order if and only if every order its sizes can be issued in, known before it starts, cuts the layout exactly |
| `FlowListings.FlowCanMissItsLayout` | src/io/bmi_list_io_data_flow.cc:168-176 | a read of two regions of four bytes through three-byte buffers finishes and has listed other bytes |
| `FlowListings.WriteRecordsSize` | src/io/bmi_list_io_data_flow.cc:212-218 | after a finished write the recorded stream size is past every byte stored, and past the whole layout when the write lists it; it has grown only to the end of a region stored |
| `FlowWorld.CanFinishIffBuffered` | src/io/data_flow.cc:60-71 | some run finishes if and only if the buffer size and the number of buffers are positive |
| `JobManagers.JobManager.constructor` | src/io/data_flow_registry.cc:25-27 | no flows and no subscriptions |
| `JobManagers.JobManager.CreateDataFlow` | src/io/job_manager.cc:49-68 | a server flow over its layout, a memory flow for clients and caches, and nothing for any other type |
| `JobManagers.JobManager.HandleFlowStart` | src/io/job_manager.cc:169-188 | a flow of a known type is created, registered and initialised, becomes live and takes over its tag; all other routes stay; an unknown type changes nothing |
| `JobManagers.JobManager.HandleFlowFinish` | src/io/job_manager.cc:129-149 | a live flow is deregistered, all others keep their objects, and every subscription stays; an unknown id is reported |
| `JobManagers.JobManager.HandleNetworkMessage` | src/io/job_manager.cc:151-167 | a message goes to the last flow started with its tag, live or not |
| `JobManagers.LiveExactly` | src/io/data_flow_registry.cc:29-52 | over any history a flow is registered if and only if it was started and its finish was not handled since |
| `JobManagers.ReachedExactly` | src/io/job_manager.cc:151-161 | a flow is reached by its tag if and only if no later flow uses the tag; the flow reached exists if and only if its finish was not handled |
| `Striping.PhysicalIsRank` | src/layout/simple_stripe_distribution.cc:33-56 | the physical offset of a logical one is the number of lower bytes this server owns |
| `Striping.RankMonotone` | src/layout/simple_stripe_distribution.cc:33-56 | physical offsets grow with logical ones, by at most as much, and not at all over bytes of other servers |
| `Striping.RanksPartition` | src/layout/simple_stripe_distribution.cc:33-56 | the physical offsets over all servers sum to the logical offset |
| `Striping.RankOfSelect` | src/layout/simple_stripe_distribution.cc:79-87 | logical to physical undoes physical to logical, and physical to logical ends on an owned byte |
| `Striping.RankSelectGalois` | src/layout/simple_stripe_distribution.cc:33-87 | logical to physical of l is at most p if and only if l is at most physical to logical of p |
| `Striping.NextMappedIsLeast` | src/layout/simple_stripe_distribution.cc:58-77 | the next mapped offset is the least owned offset not before the given one |
| `Striping.SelectOfRank` | src/layout/simple_stripe_distribution.cc:58-87 | physical to logical after logical to physical is the next mapped offset |
| `Striping.ContiguousLengthIsMaximal` | src/layout/simple_stripe_distribution.cc:89-93 | over the contiguous length both offsets advance together, to the end of the strip; the next physical byte lies the other servers' strips further on |
| `DataTypeProcessing.DistributeContiguousRegion` | src/layout/data_type_processor.cc:195-236 | a range adds exactly the server's physical interval for it, cut at strip ends, plus the overrun, and for reads only up to the end of the stream; the loop terminates |
| `DataTypeProcessing.ProcessServerRequest` | src/layout/data_type_processor.cc:166-193 | the layout gains the pieces of every range in order: what the first ranges add is a prefix for every number of them, and the bytes the server serves stand in the order in which the request names them; the length is returned |
| `DataTypeProcessing.PiecesBytes` | src/layout/data_type_processor.cc:219-230 | the pieces of a physical interval hold exactly its bytes |
| `DataTypeProcessing.PiecesOnce` | src/layout/data_type_processor.cc:219-230 | and none of them twice |
| `DataTypeProcessing.RangeByteAt` | src/layout/data_type_processor.cc:205-230 | byte n of what a range adds is at the physical offset of the range plus n |
| `DataTypeProcessing.PiecesAreStrips` | src/layout/data_type_processor.cc:205-230 | each piece lies in one strip, each but the first begins one and each but the last ends one |
| `DataTypeProcessing.RequestPrefix` | src/layout/data_type_processor.cc:180-189 | what the first ranges of a request add comes first in the layout |
| `DataTypeProcessing.RequestInOrder` | src/layout/data_type_processor.cc:180-189 | there are ascending places in the layout for the served bytes of a request, in the order in which the request names them, that hold their physical offsets |
| `DataTypeProcessing.RangeEmittedByOwner` | src/layout/data_type_processor.cc:195-236 | a server's layout for a range holds a byte of the range if and only if the server owns it and, for a read, its stream reaches it |
| `DataTypeProcessing.WrittenByOneServer` | src/layout/data_type_processor.cc:195-236 | each byte of a written range is emitted by one server only, the one its strip is dealt to |
| `DataTypeProcessing.RequestEmittedByOwner` | src/layout/data_type_processor.cc:166-193 | the same for a request of any number of ranges |
| `DataTypeProcessing.RangeReachesItsOwner` | src/layout/data_type_processor.cc:205-230 | a byte a server owns is in a range if and only if its physical offset is between those of the range's ends, and it maps back to the byte |
| `DataTypeProcessing.OverrunBound` | src/layout/data_type_processor.cc:215-216 | the overrun is at least 0 and below the strip size; it is 0 if and only if the range lies in one strip or ends at the end of a strip |
| `DataTypeProcessing.OverrunExactly` | src/layout/data_type_processor.cc:215-216 | the owner of a range's last byte writes up to its physical offset when the range stays in one strip; otherwise the last region has the length of a strip, or of the range when that is shorter |
| `DataTypeProcessing.OverrunStaysInStrip` | src/layout/data_type_processor.cc:215-216 | bytes taken past the range lie after it in the strip it ends in |
| `DataTypeProcessing.PiecesLength` | src/layout/data_type_processor.cc:219-230 | the pieces of an interval have its length |
| `DataTypeProcessing.WritesConserve` | src/layout/data_type_processor.cc:195-236 | all servers' pieces for a range sum to its length plus the overrun of its last strip |
| `DataTypeProcessing.RequestConserves` | src/layout/data_type_processor.cc:166-193 | all servers' layouts for a request of any number of ranges sum to its length plus the overruns |
| `DataTypeProcessing.ReadIsCutWrite` | src/layout/data_type_processor.cc:223-230 | what a read takes is what a write would, each region cut to the bytes that exist |
| `DataTypeProcessing.RequestReadIsCutWrite` | src/layout/data_type_processor.cc:166-193 | the same for a request of any number of ranges |
| `DataTypeLayouts.DataTypeLayout.AddRegion` | src/layout/data_type_layout.cc:28-32 | the region is appended |
| `DataTypeLayouts.DataTypeLayout.GetLength` | src/layout/data_type_layout.cc:57-65 | the sum of the extents |
| `DataTypeLayouts.DataTypeLayout.GetSubRegions` | src/layout/data_type_layout.cc:67-117 | never indexes out of range; the slice has exactly the requested length, each of its bytes is determined, and after the first its regions are those of the layout, the last one cut short |
| `DataTypeLayouts.SliceFaithful` | src/layout/data_type_layout.cc:91-114 | a slice that starts a region or stays inside one is the true slice |
| `DataTypeLayouts.SliceExact` | src/layout/data_type_layout.cc:91-114 | for any layout, overlapping or not: the slice is the true one if and only if a test on its regions passes: it starts a region, or each region its first run goes on to adjoins and the layout then repeats itself, compared where regions begin |
| `DataTypeLayouts.SliceExactApart` | src/layout/data_type_layout.cc:91-114 | for regions that do not overlap, in any order: if and only if it starts a region, or is no longer than the region it starts in and each region it goes on to begins where the one before it ends |
| `DataTypeLayouts.SlicesListExactly` | src/layout/data_type_layout.cc:67-117 | consecutive slices concatenate to the layout if and only if each of them passes that test |
| `DataTypeLayouts.SlicesListApart` | src/layout/data_type_layout.cc:67-117 | for regions that do not overlap, if and only if each slice passes the shorter test |
| `DataTypeLayouts.ListedOnce` | src/layout/data_type_layout.cc:67-117 | regions that list a layout without overlaps hold each of its bytes once |
| `DataTypeLayouts.SliceCanFail` | src/layout/data_type_layout.cc:94-96 | a slice in the middle of a region before a gap lists bytes of the gap |
| `FileRegions.FileRegionSet.Insert` | src/common/file_region_set.cc:99-137 | set union, in sorted form with no two regions touching, and no empty region unless one was given |
| `FileRegions.FileRegionSet.NumBytes` | src/common/file_region_set.cc:53-64 | the number of different bytes in the set |
| `FileRegions.FileRegionSet.RegionSpan` | src/common/file_region_set.cc:71-84 | the length of the shortest interval that holds the set |
| `FileRegions.LengthCounts` | src/common/file_region_set.cc:53-64 | the extents of regions that do not overlap, in any order, sum to the number of their bytes |
| `FileRegions.CanonicalUnique` | src/common/file_region_set.cc:99-137 | two such sets of nonempty regions with the same bytes are equal |
| `FileRegions.HistoryBytes` | src/common/file_region_set.cc:99-137 | after any history of insertions the set holds exactly the bytes inserted |
| `FileRegions.OrderDoesNotMatter` | src/common/file_region_set.cc:99-137 | inserting the same nonempty regions in any order gives the same set |
| `DirtyRegions.DirtyFileRegionSet.Insert` | src/common/dirty_file_region_set.cc:160-274 | every byte ends in the greater of its old state and the inserted one (absent < clean < dirty) if and only if the region just before the new one is not of the opposite state and ending after it; in that case the regions stay sorted and disjoint; when every region that overlaps or touches the new one has its state, and none ends where another begins at its offset, one region of the set covers it and all of them |
| `DirtyRegions.DirtyFileRegionSet.MergeLower` | src/common/dirty_file_region_set.cc:166-208 | the first half: either the rest of the set and the remaining region still make up the join, or the insertion is already lost |
| `DirtyRegions.DirtyFileRegionSet.AbsorbFollowing` | src/common/dirty_file_region_set.cc:211-273 | the second half: completes the join over any number of following regions |
| `DirtyRegions.TrimLosesBytes` | src/common/dirty_file_region_set.cc:192-199 | a dirty region ending inside a clean one loses the clean bytes after it |
| `DirtyRegions.SkipInventsBytes` | src/common/dirty_file_region_set.cc:200-205 | a clean region ending inside a dirty one gets a wrapped length and claims bytes no region has |
| `DirtyRegions.HistoryJoins` | src/common/dirty_file_region_set.cc:160-274 | over any history without that case, the dirty bytes are those of the dirty inputs and the clean ones those of the clean inputs that are not dirty, whatever the order |
| `DirtyRegions.InsertCanFail` | src/common/dirty_file_region_set.cc:192-205 | both kinds of the failing case exist |
| `SubarrayTypes.ElementsAreTheBox` | src/common/subarray_data_type.cc:175-224 | the positions computed for the runs' elements are exactly the row-major positions of the elements of the subarray, for any number of dimensions |
| `SubarrayTypes.HornerAll` | src/common/subarray_data_type.cc:192-195 | the nested evaluation of the indices is the row-major position, each index weighed by the product of the faster dimensions |
| `SubarrayTypes.ElementsIncrease` | src/common/subarray_data_type.cc:175-224 | later elements of the subarray lie further on in the array |
| `SubarrayTypes.RunsIncrease` | src/common/subarray_data_type.cc:175-224 | each run ends before the next starts and inside the array's extent, so locations strictly increase and runs are disjoint |
| `SubarrayTypes.RunsAreTheBox` | src/common/subarray_data_type.cc:73-127 | the runs together are exactly the bytes of the subarray's elements at their row-major addresses |
| `SubarrayTypes.ExtentIsWholeArray` | src/common/subarray_data_type.cc:13-23 | the extent is the size of the whole array, whose elements fill the bytes from 0 up to it in order |
| `SubarrayTypes.RunBytes` | src/common/subarray_data_type.cc:96-127 | the data bytes of a run are consecutive from its location |
| `SubarrayTypes.FortranIsReversedC` | src/common/subarray_data_type.cc:197-213 | elements of a FORTRAN order array lie where they do in C order on reversed vectors |
| `SubarrayTypes.FortranRunsAsReversedC` | src/common/subarray_data_type.cc:149-241 | so do its runs: their number, length and locations, the data size and the extent |
| `SubarrayRegions.FortranListsAsReversedC` | src/common/subarray_data_type.cc:73-139 | and it lists every request in the same way |
| `SubarrayRegions.CalculateExtent` | src/common/subarray_data_type.cc:13-23 | the product of the sizes and the element extent, in either order |
| `SubarrayRegions.GetSubSizeExtent` | src/common/subarray_data_type.cc:260-268 | the number of data bytes of the subarray, in either order |
| `SubarrayRegions.GetNumArrayRegions` | src/common/subarray_data_type.cc:149-173 | the number of runs; runs times run length is the number of elements |
| `SubarrayRegions.DimensionIndices` | src/common/subarray_data_type.cc:180-190 | the loop computes the mixed-radix digits of the run's first element, in either order |
| `SubarrayRegions.GetArrayMemoryLocation` | src/common/subarray_data_type.cc:175-224 | the byte address of the run's first element |
| `SubarrayRegions.GetRegionsByBytes` | src/common/subarray_data_type.cc:73-138 | terminates with what the element type lists for its runs, which hold exactly the requested number of bytes; run k is the next run of the array at its address in the next copy and has the length of a run, only that the first of a copy has what is left of it when the offset, taken as a position in memory, lies inside, and the last may be shorter |
| `SubarrayRegions.FaithfulExactly` | src/common/subarray_data_type.cc:82-128 | the listing is the requested bytes if and only if the request starts a copy of the array and, when its offset lies inside the first run as a position in memory, is no longer than the rest of the run |
| `SubarrayRegions.FaithfulFromStart` | src/common/subarray_data_type.cc:73-139 | from offset 0 the listing is exact for any number of bytes |
| `SubarrayRegions.ListingCanFail` | src/common/subarray_data_type.cc:104-109 | two requests that are listed wrongly |
| `IndexedTypes.GetDataSize` | src/common/indexed_data_type.cc:142-151 | the sum of the block lengths in bytes |
| `IndexedTypes.ExtentIsLastEnd` | src/common/indexed_data_type.cc:13-22 | the extent is where the last block ends |
| `IndexedTypes.CopyByte` | src/common/indexed_data_type.cc:64-140 | byte n of copy k lies k times the end of the last block after byte n of the blocks |
| `IndexedTypes.GetRegionsByBytes` | src/common/indexed_data_type.cc:64-140 | terminates with what the element type lists for its runs, which hold exactly the requested number of bytes: those of the blocks, overlapping or not, repeated where the last one ends, from where the listing starts; each run is a block of a copy, only the first begun and only the last ended inside one; a request for one copy gets its blocks |
| `IndexedTypes.ListingStartMoves` | src/common/indexed_data_type.cc:74-129 | the listing starts at the requested byte if and only if that lies in the extent of a copy and no nonempty block ends there; otherwise before it |
| `IndexedTypes.ListingStartExactly` | src/common/indexed_data_type.cc:74-129 | otherwise it starts in the same copy at the offset modulo the extent, or at the beginning of the block that ends there |
| `IndexedTypes.SeparateFits` | src/common/indexed_data_type.cc:13-22 | blocks that do not overlap are sorted and fit into the extent |
| `IndexedTypes.FaithfulExactly` | src/common/indexed_data_type.cc:74-129 | for any blocks, overlapping or not, and any request: it is listed as the data stream if and only if it starts within the extent of a copy where no nonempty block ends, or is shorter than one copy's data, starts past the extent, and the place listed instead holds the same bytes, compared where blocks begin |
| `IndexedTypes.SeparateFaithfulExactly` | src/common/indexed_data_type.cc:111-129 | for blocks that do not overlap, a request of any length is, if and only if no nonempty block ends where it starts |
| `IndexedTypes.ListingCanFail` | src/common/indexed_data_type.cc:111-129 | a request at a block boundary is given the block before it again |
| `FilePages.RegionsToPageIds` | src/common/file_page_utils.cc:191-210 | the pages the regions touch; a region without bytes at offset 0 touches every page, as its last byte wraps around |
| `FilePages.DeterminePartialPages` | src/common/file_page_utils.cc:105-125 | the pages a region begins or ends strictly inside of |
| `FilePages.DetermineFullPages` | src/common/file_page_utils.cc:77-92 | the pages touched but not begun or ended inside of |
| `FilePages.TouchedHoldsByte` | src/common/file_page_utils.cc:191-210 | a page is touched if and only if it holds a byte of the regions |
| `FilePages.PartialPagesAreTouched` | src/common/file_page_utils.cc:94-126 | partial pages are among the touched ones |
| `FilePages.FullPageIsCovered` | src/common/file_page_utils.cc:77-92 | every full page is wholly covered by one region |
| `FilePages.FullPagesExactly` | src/common/file_page_utils.cc:77-92 | for nonempty regions that do not overlap, touching or not and in any order, a page is full if and only if one region covers it |
| `FilePages.FullPagesOfCanonical` | src/common/file_page_utils.cc:77-92 | for sorted regions that do not touch, if and only if it is wholly covered |
| `FilePages.TouchingRegionsCanHideAFullPage` | src/common/file_page_utils.cc:94-126 | two touching regions cover a page between them and leave it partial |
| `FilePages.DeterminePartialPageRegions` | src/common/file_page_utils.cc:128-189 | the result holds exactly the bytes of the request that lie on the page |
| `FilePages.PageCountsSum` | src/common/file_page_utils.cc:128-189 | the numbers of bytes on the pages of a request sum to its size, for regions that do not overlap, in any order |
| `FilePages.CountPageBytes` | src/common/file_page_utils.cc:128-189 | the byte counts of the region sets determined for some pages; over all pages of such a request they sum to its size |
| `FilePages.CreatePageViewDescriptor` | src/common/file_page_utils.cc:227-247 | the view's blocks are the pages, in order, with one page of data each |
| `FilePages.FlattenPageView` | src/common/file_page_utils.cc:227-247 | flattening the view of a set of pages lists the pages |
| `FilePages.PageViewRoundTrip` | src/common/file_page_utils.cc:191-247 | mapping the flattened view back gives the same pages, all full |
| `LRUCaches.LRUCache.constructor` | src/common/lru_cache.h:173-179 | an empty cache |
| `LRUCaches.LRUCache.Insert` | src/common/lru_cache.h:198-250 | list and map as specified, the key at the front whether it was there or not; the dirty counter stays exact unless a dirty entry is overwritten clean |
| `LRUCaches.LRUCache.InsertAndRecall` | src/common/lru_cache.h:253-328 | the same state as an insertion; hands out the evicted entry if and only if one is evicted |
| `LRUCaches.LRUCache.Remove` | src/common/lru_cache.h:331-358 | removes the key from list and map, or reports that it is missing |
| `LRUCaches.LRUCache.SetDirtyBit` | src/common/lru_cache.h:361-373 | changes only the bit; the counter drifts by the change |
| `LRUCaches.LRUCache.Lookup` | src/common/lru_cache.h:390-410 | the value, moved to the front of the list, or nothing |
| `LRUCaches.LRUCache.GetDirtyBit` | src/common/lru_cache.h:413-425 | the bit of the key, or nothing |
| `LRUCaches.LRUCache.GetLRU` | src/common/lru_cache.h:467-485 | the entry that the next insertion of a new key into the full cache removes; nothing if and only if the cache is empty |
| `LRUCaches.LRUCache.Size` | src/common/lru_cache.h:494-499 | the number of keys, at most the capacity |
| `LRUCaches.LRUCache.PercentDirty` | src/common/lru_cache.h:502-511 | the counter's share of the capacity, which is that of the dirty entries while the counter is exact, and whether the assertions on it hold: if and only if it is no further above the number of dirty entries than there are clean ones and no further below than there are dirty ones |
| `LRUCaches.CounterFollows` | src/common/lru_cache.h:198-373 | after any sequence of insertions, removals, lookups and set bits, the counter differs from the number of dirty entries by the slips: dirty entries overwritten clean or marked clean, less those marked dirty |
| `LRUCaches.CounterExactly` | src/common/lru_cache.h:198-373 | from the empty cache, after any such sequence: the counter is exact if and only if the slips cancel out, and the assertions hold if and only if the slips are within what is clean and what is dirty |
| `LRUCaches.InsertionsCountExactly` | src/common/lru_cache.h:198-358 | when no bit is set from outside: the counter is exact if and only if no dirty entry was overwritten clean, and the assertions hold if and only if that happened no more often than there are clean entries |
| `LRUCaches.CounterCanOverrun` | src/common/lru_cache.h:502-511 | three insertions after which an assertion on the counter fails |
| `LRUCaches.InsertKeeps` | src/common/lru_cache.h:198-250 | list and map keep the same keys, each once, within the capacity |
| `LRUCaches.InsertLosesOnlyVictim` | src/common/lru_cache.h:222-249 | an insertion sets its key and loses nothing but the victim of a full cache |
| `LRUCaches.ListIsRecentPrefix` | src/common/lru_cache.h:198-250 | after any trace the list is the capacity-long prefix of the keys by recency |
| `LRUCaches.LargerHoldsMore` | src/common/lru_cache.h:198-250 | a larger cache always contains a smaller one |
| `LRUCaches.LargerHitsMore` | src/common/lru_cache.h:390-410 | a larger cache never has fewer hits |
| `LRUCaches.RecencyIsLastUse` | src/common/lru_cache.h:198-250 | the order by recency is that of the last uses: a key comes before another if it was used since |
| `LRUCaches.ReplayIsRecency` | src/common/lru_cache.h:198-410 | after any sequence of insertions, new or overwriting, lookups and set bits, the list is the capacity-long prefix of the keys by recency of use |
| `LRUCaches.LargerReplaysMore` | src/common/lru_cache.h:198-410 | over any such sequence whose lookups hit, a larger cache holds what a smaller one does in the same order, and finds keys at least as often |
| `LRUCaches.RemoveKeepsOrder` | src/common/lru_cache.h:331-358 | a removal takes out the key and leaves the order of the others |
| `BufferCaches.LRUBufferCache.constructor` | src/os/buffer_cache.cc:129-135 | an empty cache without pending requests |
| `BufferCaches.LRUBufferCache.IsCached` | src/os/buffer_cache.cc:277-289 | whether the block is cached; finding it refreshes its place |
| `BufferCaches.LRUBufferCache.GetNextEviction` | src/os/buffer_cache.cc:296-305 | the victim with its contents and dirty bit |
| `BufferCaches.LRUBufferCache.EvictCacheEntry` | src/os/buffer_cache.cc:263-275 | writes back the entry the next insertion evicts, if and only if there is one and it is dirty |
| `BufferCaches.LRUBufferCache.HandleReadRequest` | src/os/buffer_cache.cc:145-174 | a hit is answered; a miss waits, and is sent to the device if it is the first for its block |
| `BufferCaches.LRUBufferCache.HandleWriteRequest` | src/os/buffer_cache.cc:175-210 | a write enters the cache dirty and is answered, or, when it asks for it or the dirty share exceeds the threshold, enters it clean and goes to the device; it fails if the assertions on the counter do |
| `BufferCaches.LRUBufferCache.HandleReadResponse` | src/os/buffer_cache.cc:217-239 | a block not cached is inserted clean; all requests waiting for it are answered |
| `BufferCaches.LRUBufferCache.SatisfyPending` | src/os/buffer_cache.cc:323-341 | answers and removes exactly the requests waiting for the block, in order |
| `BufferCaches.PendingInOrder` | src/os/buffer_cache.cc:323-341 | taking the requests for a block, or the others, out of two sequences is doing so in each, so both keep their order |
| `BufferCaches.HoldsBlocksUsedLast` | src/os/buffer_cache.cc:145-239 | after any requests and arrivals the cache holds the blocks used last, in the order of their use: a read that hits, a write that does not fail and a block that arrives use their block |
| `BufferCaches.LRUBufferCache.HandleWriteResponse` | src/os/buffer_cache.cc:240-259 | a write-through is answered, a write-back is not |
| `BufferCaches.UnflaggedWritesNeverFail` | src/os/buffer_cache.cc:175-210 | although the counter drifts: for any capacity and threshold and any sequence of requests and blocks read, no write fails as long as no request asks to be written through |
| `BufferCaches.WritesCanFailExactly` | src/os/buffer_cache.cc:178-183 | some sequence of requests makes the next write fail if and only if the threshold is at least one part of the capacity |
| `BufferWorlds.InsertKeepsOthers` | src/os/buffer_cache.cc:263-275 | the entry written back is the one the insertion removes, so no other block's latest version is lost |
| `BufferWorlds.StepKeepsInv` | src/os/buffer_cache.cc:143-261 | every request and completion keeps: the latest version of each block is dirty in the cache or the last one sent; one device read is outstanding for a block that reads wait for and none otherwise; every request is answered, waiting or at the device, once |
| `BufferWorlds.RunKeepsInv` | src/os/buffer_cache.cc:143-261 | every run keeps this, whatever the order of completions |
| `BufferWorlds.NoVersionIsLost` | src/os/buffer_cache.cc:143-261 | in every state reachable from the empty cache, the latest version of each block is dirty in the cache or is the last one sent |
| `BufferWorlds.OneReadPerBlock` | src/os/buffer_cache.cc:145-174 | in every reachable state a block has one device read outstanding if reads wait for it and none otherwise |
| `BufferWorlds.EveryRequestIsAccountedFor` | src/os/buffer_cache.cc:143-261 | in every reachable state each request has been answered as often as it was made, less those that wait |
| `BufferWorlds.EveryRunDrains` | src/os/buffer_cache.cc:217-261 | without new requests the device's work ends, and then every read and write has been answered as often as it was made |
| `BufferWorlds.ReachableDrains` | src/os/buffer_cache.cc:217-261 | the same from every reachable state |
| `BufferWorlds.StepKeepsCurrentExactly` | src/os/buffer_cache.cc:225-234 | whatever the order of completions, a cache whose entries are all current stays so in a step if and only if the step does not complete a read of a block not cached while the disk lacks the last version sent |
| `BufferWorlds.RunStaysCurrentExactly` | src/os/buffer_cache.cc:143-261 | a run keeps every cached block at its latest version all along if and only if no step completes such a read |
| `BufferWorlds.CurrentExactly` | src/os/buffer_cache.cc:143-261 | the same for every run from the empty cache |
| `BufferWorlds.HitsAreCurrent` | src/os/buffer_cache.cc:143-261 | at the end of such a run each cached block is at its latest version |
| `BufferWorlds.StepSettlesExactly` | src/os/buffer_cache.cc:175-210 | a step keeps the device on its way to the last version sent of every block if and only if it does not complete the last write of a block before an earlier one |
| `BufferWorlds.SettledExactly` | src/os/buffer_cache.cc:143-261 | a run from the empty cache keeps it so all along if and only if no step does that |
| `BufferWorlds.InOrderNeverBuries` | src/os/buffer_cache.cc:263-275 | a device that works in the order sent never does |
| `BufferWorlds.StaleExactly` | src/os/buffer_cache.cc:225-234 | after such a run, the read of a block not cached is stale if and only if a write of the block is at the device, before or behind it |
| `BufferWorlds.LatestIsDurable` | src/os/buffer_cache.cc:263-275 | after such a run, the latest version of a block that is not dirty in the cache is on its way to the disk, and on it if and only if no write of the block is at the device |
| `BufferWorlds.StaleReadHappens` | src/os/buffer_cache.cc:225-234 | a run of three requests after which a read completed in the order sent brings in an old version |
| `BufferWorlds.OvertakingReadHappens` | src/physical/hard_disk.cc:200-209 | another in which the read overtakes the write-back of its block |
| `BufferWorlds.OvertakenWriteIsLost` | src/physical/hard_disk.cc:200-209 | two write-throughs of a block that complete in the opposite order leave the older version on the disk with nothing left to do |
| `Broadcasts.BcastStateMachine.constructor` | src/client/mpi_middleware_bcast_sm.cc:20-27 | the initial state |
| `Broadcasts.BcastStateMachine.HandleRequest` | src/client/mpi_middleware_bcast_sm.cc:29-121 | a request in the initial state is sent to the children and waits for them, or is answered at once |
| `Broadcasts.BcastStateMachine.HandleResponse` | src/client/mpi_middleware_bcast_sm.cc:86-114 | a reply is counted; with the last one the rank replies itself and starts over |
| `Broadcasts.BcastStateMachine.EnterBcast` | src/client/mpi_middleware_bcast_sm.cc:123-181 | the ranks sent to, the number of replies expected and the parent to reply to |
| `Broadcasts.BcastStateMachine.EnterRsp` | src/client/mpi_middleware_bcast_sm.cc:188-208 | the root replies to the application, any other rank to its parent |
| `Broadcasts.ChildrenInTree` | src/client/mpi_middleware_bcast_sm.cc:130-165 | on a power of two of ranks the bit arithmetic gives the children of the binomial tree, from any root |
| `Broadcasts.KidsAreTheChildren` | src/client/mpi_middleware_bcast_sm.cc:136-165 | a rank sends to exactly the ranks whose relative rank without its top set bit is its own |
| `Broadcasts.CodeComputesKids` | src/client/mpi_middleware_bcast_sm.cc:136-165 | the same from the rank's own number and the parent named in the request |
| `Broadcasts.StepsIsLeast` | src/client/mpi_middleware_bcast_sm.cc:131-132 | the number of tree levels is the least whose power of two reaches the number of ranks |
| `Broadcasts.RootSendsNothing` | src/client/mpi_middleware_bcast_sm.cc:138-143 | on any other number of ranks the root computes that it has no children |
| `BroadcastWorlds.StepKeepsInv` | src/client/mpi_middleware_bcast_sm.cc:29-121 | every delivery keeps the state of each rank, its children and its mail in step, and is one of the deliveries a broadcast needs |
| `BroadcastWorlds.EveryBroadcast` | src/client/mpi_middleware_bcast_sm.cc:29-208 | over 2^m ranks from any root, in every interleaving: no rank handles the request twice, the root replies to the application at most once, some message can be delivered until it has, and when it has every rank has handled the request and nothing is in flight, after exactly 2^m requests, all but the root's sent by ranks, and 2^m - 1 replies; the root's machine is finished from then on, and all are |
| `BroadcastWorlds.ReachesAllExactly` | src/client/mpi_middleware_bcast_sm.cc:132-143 | the root's reply means that all ranks handled the request if and only if their number is a power of two |

## Left out

- Gates, message ownership, timing, statistics, module lookup and sockets: replaced by what is in flight and any order of delivery.
- `HardDisk`, `DiskScheduler`, BMI delays and floating point: the device completes requests in any order.
- The Ethernet and relay classes, configurators, trace parsers, application drivers and the client request state machines.
- `VectorDataType`, `StructDataType`, `ContiguousDataType`, `resize` and the print methods; indexed types of a resized element type or extent.
- `getRegionsByCount`, which the subarray type does not implement and the others define through `getRegionsByBytes`.
- `determineRequestPages` with a distribution, and `regionsToPages`: they only map results of modelled operations.
- FlowWorld.FinishIsSafe: the job manager's books are one live flag for each flow of the pair; many flows at once are in `job_manager.dfy`.
- JobManagers.JobManager.HandleFlowStart: asks for an identifier not used before, as `getUniqueNumber` gives, and takes a server flow's layout as given.
- FileRegions.FileRegionSet.Insert: offsets and extents do not wrap around.
- DirtyRegions.DirtyFileRegionSet.Insert: in the failing case it does not say what the set holds, only that it is not the join; empty clean regions may remain in it, and regions of one state may stay apart where another begins, so the form of the set is not unique.
- SubarrayRegions.GetRegionsByBytes: asks for at least one dimension; for none the code's loop does not end.
- FilePages.RegionsToPageIds: for pages of one byte asks for no region without bytes at offset 0, for which the code's loop does not end.
- FilePages.CreatePageViewDescriptor: the set of page ids is given as the increasing sequence it iterates over.
- FilePages.DeterminePartialPageRegions: may hold an empty region at the beginning of the page, as the code does.
- BufferCaches.LRUBufferCache.HandleReadRequest: statistics are not counted.
- BufferCaches.LRUBufferCache.HandleWriteRequest: the threshold is compared exactly, not in floating point.
- LRUCaches.LRUCache.Insert: iterators into the list are positions of keys; memory management is not modelled.
- BroadcastWorlds.EveryBroadcast: one broadcast at a time; the payload is only whether it was handed to the application.
