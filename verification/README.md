# A verified model of the AtomOS kernel's algorithms

The project models the parts of the AtomOS kernel whose behaviour is an algorithm over state rather
than traffic with a device, and proves what those parts promise, over every input and over every run.

| component | files | what is proved |
|---|---|---|
| Physical memory manager | `Regions`, `PmmSpec`, `PmmRuns`, `PmmReturns`, `BootMap`, `Pmm` | boot reservation, first-fit allocation, release with merging; safety, conservation and completeness over every run; a run that returned everything leaves the boot map |
| Kernel heap | `HeapChain`, `HeapRuns`, `HeapRecords`, `HeapMemory`, `HeapRegions`, `HeapAligned`, `Heap` | a header chain in memory refines a list of blocks, and the records that link the regions live in that memory; live payloads are disjoint and the records in place over every run; growth from the physical memory manager |
| Virtual file system | `Paths`, `Normalize`, `NormalizeBuffer`, `Mounts`, `Tree`, `TreeReach`, `Vfs`, `VfsRuns`, `VfsReach`, `FileSystem`, `Lru` | path normalisation, mount selection, a path cache that never changes an answer over every run, and no node lost or freed twice |
| Memory type ranges | `Tiling`, `TileCount`, `Bits`, `MtrrSpec`, `MtrrRuns`, `Mtrr` | the greedy dyadic tiling, its exact chunk bound, the base/mask encoding and the slot bitmap |
| Text terminal | `Ring`, `Grid`, `TerminalSpec`, `TerminalText`, `Scrollback`, `Terminal` | the block ring is the newest lines pushed; written text is neither lost nor reordered; the cursor stays in the grid |
| Byte streams and memory files | `Bytes`, `DiskStream`, `RamFile` | both refine a flat byte sequence, with partial failure and zero gaps |
| Integer algorithms | `Raster`, `DigitsSpec`, `Convert`, `Printf`, `Dma` | line, circle, digit conversion by four routes, descriptor tables |
| Linked list | `Lists` | the linked list refines a sequence |
| Shared | `Options`, `Words`, `Arithmetic` | |

Each component has the same shape. A value-level specification says what the operations do to an
abstract state; lemmas prove what that state keeps, over one step and over every run; a class with the
source's own fields and loops is proved, method by method, to compute that specification.

Machine words are natural numbers below `Words.WORD`, and wrap-around is written out where it matters.
Results of the form "if and only if" mark the places where a promise of the code has a limit; the ones
that show an unexpected behaviour are these:

- `PmmSpec.NullMeansNoRun`: a successful allocation at address 0 looks like a failure; that is the only
  way a null result and an available run can coexist. `PmmSpec.PageZeroLost` is such a call.
- `BootMap.KernelPassExact`: the kernel pass retypes the tail of the region that straddles the kernel end
  to USABLE whatever it was. The comment above the loop says regions that are not usable are left alone;
  the code retypes every region that starts below the kernel end, and the model follows the code.
  `BootMap.KernelTailFreed` is a map on which it happens.
- `BootMap.EmptyFramebuffer`: a framebuffer of zero bytes inside a region leaves an empty region in the list,
  as on the map of `BootMap.EmptyFramebufferSplits`.
- `PmmRuns.ReleaseConserves`: freeing the base of a reserved region that was never handed out adds memory;
  `PmmRuns.FirmwareReleased` frees a firmware table.
- `HeapRuns.ExpansionExact`: a request above `SIZE_MAX - 8192` wraps the size of the new region.
- `HeapRecords.FreeExact`: every region after the first keeps its own record in its first block, and a
  release keeps the heap intact exactly when the address lies in none of these blocks. `HeapRecords.RecordReused`
  shows the record's own bytes handed out after such a release.
- `HeapAligned.AlignedExact`: the aligned bytes lie inside the block underneath exactly when the padded size
  did not wrap. `HeapAligned.AlignedWraps` is a request that gets thirty bytes for the largest size.
- `Normalize.ParentExact`: `..` removes nothing on its first use after a name, because the saved offset is
  taken after appending; it has the usual meaning exactly when no name precedes it.
- `TileCount.TableSuffices`: the table of 64 chunks is enough up to 45 physical address bits and no further.
- `MtrrSpec.CarriedExact`: a range whose last page sum reaches the word limit is carried out as an empty
  range or as one page, and reported as done; `MtrrSpec.LongestVanishes` is the longest range from zero.
- `Ring.RingExact`: all runs from an empty scrollback keep the newest lines if and only if its maximum is a
  multiple of 128.
- `RamFile.GuardExact`: the overflow guard of a write compares the wrapped sum and never refuses, so the
  copy leaves the buffer exactly when the sum wraps; `RamFile.GuardMisses` is such a range.
- `NormalizeBuffer.NormalizePath`: with a buffer of one byte every absolute path, and nothing else, is
  written past the end.
- `Dma.BuildPrdt`: four descriptors hold the transfer exactly when the buffer touches at most four 64 KiB segments.

## Model

| member | source | states |
|---|---|---|
| `Lists.List.Add` | kernel/list.c:24-38 | appends one item; head, tail, count and the chain stay consistent |
| `Lists.List.RemoveAt` | kernel/list.c:40-63 | removes the item at an index, and refuses an index past the end without change |
| `Lists.List.Unlink` | kernel/list.c:40-63 | taking a cell out of the chain removes exactly its item, also at the head and the tail |
| `Lists.List.Remove` | kernel/list.c:69-90 | removes the first occurrence of an item and says whether there was one |
| `Lists.List.IndexOf` | kernel/list.c:92-99 | the first position of an item, or -1 exactly when it is absent |
| `Lists.List.GetAt` | kernel/list.c:101-107 | the item at an index, or nothing past the end |
| `Lists.List.InsertAt` | kernel/list.c:109-137 | inserts before an index, at either end too, and refuses an index past the length |
| `Lists.List.Push` | kernel/list.c:109-137 | inserting at the head of a non-empty list puts the item first |
| `Lists.List.LinkAfter` | kernel/list.c:109-137 | linking after a cell inserts at the next position and moves the tail when needed |
| `Lists.List.Clear` | kernel/list.c:139-152 | leaves the empty list |
| `Regions.CoalesceValid` | kernel/memory/pmm.c:354-398 | merging keeps the list sorted, disjoint and below the word limit, and the usable bytes |
| `Regions.CoalesceKindAt` | kernel/memory/pmm.c:354-398 | merging changes the type of no address |
| `Regions.CoalesceCoalesced` | kernel/memory/pmm.c:354-398 | after merging no two neighbouring USABLE regions touch |
| `Regions.CoalesceKeepsOthers` | kernel/memory/pmm.c:354-398 | regions that are not USABLE are the same before and after merging |
| `Regions.CoalesceFixpoint` | kernel/memory/pmm.c:354-398 | a merged list is not changed by merging again |
| `Regions.RunInOneRegion` | kernel/memory/pmm.c:425-442 | in a merged list every all-USABLE run lies inside one region |
| `PmmSpec.AllocSizeRounds` | kernel/memory/pmm.c:408-423 | the requested size is rounded up to whole pages, and the sizes that can be represented are exactly those whose sum does not wrap |
| `PmmSpec.AlignedBaseSound` | kernel/memory/pmm.c:435-438 | the candidate base is page aligned and less than a page above the region's base |
| `PmmSpec.CarveSound` | kernel/memory/pmm.c:445-528 | carving a block out of a region keeps the parts inside it, makes the block exactly one RESERVED region and takes exactly its bytes |
| `PmmSpec.CarveKindAt` | kernel/memory/pmm.c:445-528 | after carving an address is RESERVED exactly inside the block |
| `PmmSpec.FirstFitComplete` | kernel/memory/pmm.c:425-442 | the scan finds a region exactly when a page-aligned all-USABLE run of the size exists |
| `PmmSpec.AllocEffect` | kernel/memory/pmm.c:400-532 | an allocation returns an aligned run that was USABLE, makes it one RESERVED region, and changes the type of no other address; a failure changes no type and no usable byte |
| `PmmSpec.AllocKeepsOthers` | kernel/memory/pmm.c:400-532 | an allocation keeps every region that is not USABLE |
| `PmmSpec.NullMeansNoRun` | kernel/memory/pmm.c:425-532 | a null result for a representable size coexists with an available run exactly when address 0 starts one |
| `PmmSpec.PageZeroLost` | kernel/memory/pmm.c:425-532 | a map with page 0 as its only USABLE page: the page is taken and NULL returned |
| `PmmSpec.MergeAroundSound` | kernel/memory/pmm.c:578-636 | merging around the freed region keeps validity, usable bytes and every address's type |
| `PmmSpec.MergeAroundCoalesced` | kernel/memory/pmm.c:578-636 | merging around one region completes a list that was merged everywhere else |
| `PmmSpec.RetypedSound` | kernel/memory/pmm.c:575-576 | retyping a region makes exactly its addresses USABLE and adds exactly its bytes |
| `PmmSpec.FreeEffect` | kernel/memory/pmm.c:534-637 | a release makes the region at the page USABLE, adds its bytes and changes no other address; any other argument changes nothing |
| `PmmSpec.FreeCoalesced` | kernel/memory/pmm.c:575-636 | a release keeps the list maximally merged |
| `PmmSpec.FreeKeepsOthers` | kernel/memory/pmm.c:534-637 | a release keeps every other region that is not USABLE |
| `PmmRuns.AllocThenFree` | kernel/memory/pmm.c:400-637 | from a merged list, allocating and freeing the result restores the same sequence of regions |
| `PmmRuns.MergePieces` | kernel/memory/pmm.c:575-636 | a USABLE region cut in up to three is restored by merging around the middle piece |
| `PmmRuns.BlocksApart` | kernel/memory/pmm.c:400-637 | outstanding blocks never share an address |
| `PmmRuns.AllocateKeeps` | kernel/memory/pmm.c:400-532 | an allocation keeps the run invariant: sorted and disjoint list, covered addresses unchanged, aligned outstanding blocks that are one RESERVED region each, USABLE plus outstanding bytes conserved |
| `PmmRuns.ReleaseKeeps` | kernel/memory/pmm.c:534-637 | releasing an outstanding block, or an address that is no region's base, keeps the run invariant |
| `PmmRuns.RunKeeps` | kernel/memory/pmm.c:400-637 | the invariant holds after every run of allocations and releases |
| `PmmRuns.BootInv` | kernel/memory/pmm.c:101-189 | a boot list whose address 0 is not USABLE starts in the invariant |
| `PmmRuns.RunComplete` | kernel/memory/pmm.c:400-532 | in every reachable state a null result means that no page-aligned run of the size exists |
| `PmmRuns.ReleaseConserves` | kernel/memory/pmm.c:549-576 | a release conserves USABLE plus outstanding bytes exactly when it names an outstanding block or no reserved region |
| `PmmRuns.FirmwareReleased` | kernel/memory/pmm.c:549-576 | releasing the base of a firmware table turns its page into USABLE memory |
| `PmmReturns.AllocCoalesced` | kernel/memory/pmm.c:400-532 | every request that passes the guards leaves the list merged, whatever it was before |
| `PmmReturns.RunCoalesced` | kernel/memory/pmm.c:400-637 | over every run a merged list stays merged |
| `PmmReturns.MergedUnique` | kernel/memory/pmm.c:354-398 | two merged lists that give every address the same type and keep the same other regions are equal |
| `PmmReturns.AllocOthers` | kernel/memory/pmm.c:445-528 | a request adds exactly the block it hands out to the regions that are not USABLE |
| `PmmReturns.FreeOthers` | kernel/memory/pmm.c:575-636 | a release takes exactly the freed region from them |
| `PmmReturns.AllReturned` | kernel/memory/pmm.c:400-637 | a run that has returned every block leaves the boot map, merged, region by region |
| `BootMap.KernelKindAt` | kernel/memory/pmm.c:116-136 | the type of every address after the kernel pass, and that the list stays valid although it is edited while it is walked |
| `BootMap.KernelPassExact` | kernel/memory/pmm.c:116-136 | above the kernel end the USABLE addresses are unchanged exactly when the straddling region was USABLE |
| `BootMap.KernelTailFreed` | kernel/memory/pmm.c:116-136 | the tail of a firmware table that straddles the kernel end becomes USABLE |
| `BootMap.FramebufferKindAt` | kernel/memory/pmm.c:138-187 | no address inside a non-empty framebuffer stays USABLE, and no other address changes |
| `BootMap.BootReservation` | kernel/memory/pmm.c:116-187 | after both passes, with any framebuffer or none, no USABLE address lies below the kernel end or inside the framebuffer, and elsewhere USABLE addresses are unchanged provided the straddling region was USABLE |
| `BootMap.BootThenRun` | kernel/memory/pmm.c:101-637 | no block handed out by any later run touches the kernel or the framebuffer, if there is one |
| `BootMap.EmptyFramebuffer` | kernel/memory/pmm.c:149-186 | an empty framebuffer keeps the list valid exactly when no region straddles its address |
| `BootMap.EmptyFramebufferSplits` | kernel/memory/pmm.c:149-186 | a framebuffer of no bytes in the middle of a region leaves an empty region between two halves |
| `BootMap.ReserveSound` | kernel/memory/pmm.c:116-187 | both passes keep the list valid exactly when no framebuffer of no bytes splits a region |
| `Pmm.PhysicalMemory.ReserveBelow` | kernel/memory/pmm.c:116-136 | the loop that inserts while it walks computes the kernel pass |
| `Pmm.PhysicalMemory.SplitAtKernel` | kernel/memory/pmm.c:120-135 | the body of that loop for one region |
| `Pmm.PhysicalMemory.ReserveScreen` | kernel/memory/pmm.c:138-187 | the framebuffer is rounded up to pages and passed over, and a missing one changes nothing |
| `Pmm.PhysicalMemory.ReservePages` | kernel/memory/pmm.c:152-186 | the loop that inserts while it walks computes the framebuffer pass |
| `Pmm.PhysicalMemory.SplitAtScreen` | kernel/memory/pmm.c:153-185 | the four overlap cases for one region |
| `Pmm.PhysicalMemory.Maintain` | kernel/memory/pmm.c:354-398 | the in-place merge loop computes the merged list |
| `Pmm.PhysicalMemory.MergeNext` | kernel/memory/pmm.c:359-396 | one step of that loop keeps what the loop will produce |
| `Pmm.PhysicalMemory.Alloc` | kernel/memory/pmm.c:400-532 | size guards, merge, scan and cut compute the specified pointer and list |
| `Pmm.PhysicalMemory.CutAt` | kernel/memory/pmm.c:445-528 | the in-place edits leave the carved region at its place and return the block |
| `Pmm.PhysicalMemory.CutFront` | kernel/memory/pmm.c:444-485 | the two cases where the block starts with the region |
| `Pmm.PhysicalMemory.CutInside` | kernel/memory/pmm.c:487-527 | the case with a prefix, with or without a suffix |
| `Pmm.PhysicalMemory.Free` | kernel/memory/pmm.c:534-637 | search, retype and the merge loop compute the specified list, and the loop terminates by the list's length |
| `Pmm.PhysicalMemory.MergeOne` | kernel/memory/pmm.c:585-634 | one scan merges one neighbour or proves there is none; the two adjacency branches after the first are unreachable |
| `HeapChain.AllocateUsed` | kernel/memory/heap.c:53-87 | allocation in a region takes one new payload, large enough and short of what could be split off, and leaves all others and the region's length |
| `HeapChain.AllocateMerged` | kernel/memory/heap.c:53-87 | allocation never leaves two free neighbours |
| `HeapChain.UsedApart` | kernel/memory/heap.c:53-87 | payloads in use are disjoint, with a header between them |
| `HeapChain.UsedOwner` | kernel/memory/heap.c:98-101 | the address test of a release finds exactly the block whose payload holds the address |
| `HeapChain.ReleaseUsed` | kernel/memory/heap.c:89-126 | a release removes exactly that payload and keeps the region's length |
| `HeapChain.ReleaseMerged` | kernel/memory/heap.c:103-117 | two-sided merging never leaves two free neighbours |
| `HeapChain.AllFree` | kernel/memory/heap.c:31-51 | a region with every block freed is again one free block |
| `HeapRuns.LiveApart` | kernel/memory/heap.c:140-206 | live allocations of all regions never overlap |
| `HeapRuns.FreedArea` | kernel/memory/heap.c:89-126 | a region without a live payload is one free block of its full length |
| `HeapRuns.MallocFits` | kernel/memory/heap.c:147-153 | an allocation that fits keeps the heap invariant and returns a new pointer |
| `HeapRuns.MallocGrows` | kernel/memory/heap.c:155-205 | an allocation that grows the heap keeps the invariant, with or without memory from below |
| `HeapRuns.RegionSizeBounds` | kernel/memory/heap.c:160-163 | the size asked for is whole pages and leaves room for the headers, unless the sum wraps |
| `HeapRuns.ExpansionExact` | kernel/memory/heap.c:155-200 | once memory is supplied the allocation succeeds exactly for sizes up to `SIZE_MAX - 8192` |
| `HeapRuns.FreeKeeps` | kernel/memory/heap.c:208-222 | a release of any address at all keeps every region tiled and merged, the handed-out blocks apart and the released block out of use |
| `HeapRuns.FreeTakesBack` | kernel/memory/heap.c:89-126 | releasing any address inside a live payload ends exactly that allocation |
| `HeapRecords.MallocRecords` | kernel/memory/heap.c:140-206 | an allocation leaves the record of every region in a block in use |
| `HeapRecords.FreeExact` | kernel/memory/heap.c:208-222 | a release keeps every region's record in a block in use exactly when the address lies in none of these blocks |
| `HeapRecords.RecordReused` | kernel/memory/heap.c:171-222 | after any growth, releasing the new region's record and asking for eight bytes hands out the bytes of the record |
| `HeapRecords.RunKeeps` | kernel/memory/heap.c:140-222 | tiling, merging, disjoint blocks and the records in place hold after every run of allocations and of releases outside the records' blocks |
| `HeapMemory.ChainSplice` | kernel/memory/heap.c:53-126 | memory that agrees outside some blocks and links others in their place holds the spliced region |
| `HeapMemory.TakeSplit` | kernel/memory/heap.c:61-74 | the stores of a split leave a well-linked chain with the two new blocks |
| `HeapMemory.TakeWhole` | kernel/memory/heap.c:75-80 | the store that takes a whole block leaves the same chain with it in use |
| `HeapMemory.MergeChain` | kernel/memory/heap.c:103-117 | the stores of a merge leave the chain with one block in place of several |
| `HeapMemory.PayloadWrite` | kernel/memory/heap.c:53-126 | writing inside a payload cannot damage the chain |
| `HeapRegions.TakeListed` | kernel/memory/heap.c:53-87 | the headers written by an allocation leave the list of regions as it was |
| `HeapRegions.GiveListed` | kernel/memory/heap.c:89-126 | so do those written by a release, even of a record's block |
| `HeapRegions.OwnerWrite` | kernel/memory/heap.c:171-189 | whatever the owner of a block writes into it, the headers survive, and the records unless the block holds one |
| `HeapRegions.ListedAppend` | kernel/memory/heap.c:177-189 | a record written and linked from the last one extends the list by its region |
| `Heap.KernelHeap.AllocRegion` | kernel/memory/heap.c:53-87 | the walk over headers in memory takes the first block that fits, or finds none, and touches no record outside that block |
| `Heap.KernelHeap.Take` | kernel/memory/heap.c:59-81 | the in-place stores represent the region after the allocation |
| `Heap.KernelHeap.FreeRegion` | kernel/memory/heap.c:89-126 | the walk finds the block that holds the address and releases it, or reports that there is none; records beside the headers stay |
| `Heap.KernelHeap.Give` | kernel/memory/heap.c:103-117 | the in-place stores represent the region after the release and both merges |
| `Heap.KernelHeap.constructor` | kernel/memory/heap.c:128-138 | the heap starts as one region with one free block |
| `Heap.KernelHeap.TryRegions` | kernel/memory/heap.c:147-153 | the regions are tried in the order of the list that their records form in memory |
| `Heap.KernelHeap.Alloc` | kernel/memory/heap.c:140-206 | the pointer, the heap and the physical memory after an allocation, including growth and every failure |
| `Heap.KernelHeap.FromPages` | kernel/memory/heap.c:155-200 | growth asks the physical memory manager for whole pages and uses them disjointly from every region |
| `Heap.KernelHeap.Expand` | kernel/memory/heap.c:171-199 | the region is initialised, its record written into its own first block and linked last, and then the request is served from it |
| `Heap.KernelHeap.AddRegion` | kernel/memory/heap.c:171-181 | an initialised region hands out its first block for its own record, and touches no other region |
| `Heap.KernelHeap.InitRegion` | kernel/memory/heap.c:31-51 | an initialised region is one free block up to its end header; no other region and no record changes |
| `Heap.KernelHeap.Link` | kernel/memory/heap.c:183-189 | the walk ends at the last record, whose link is set, and the list is the regions in order |
| `Heap.KernelHeap.SetNext` | kernel/memory/heap.c:189 | one record's link changes and no other record or header |
| `Heap.KernelHeap.Free` | kernel/memory/heap.c:208-222 | the first region that owns the address releases it, otherwise nothing changes; headers and list stay in place, and the heap stays intact exactly when the address is in no record's block |
| `Heap.KernelHeap.AlignedAlloc` | kernel/memory/heap.c:264-282 | for every alignment and size: the block underneath is what the wrapped size gets, the result is aligned, its bytes lie inside that block exactly when the size did not wrap, and then the header written before it damages nothing |
| `HeapAligned.AlignedExact` | kernel/memory/heap.c:270-274 | for the block that the allocation returns, the aligned bytes lie inside it exactly when the padded size did not wrap |
| `HeapAligned.AlignedWraps` | kernel/memory/heap.c:270-274 | 16-byte alignment and the largest size get a block of thirty bytes |
| `HeapAligned.MallocPayload` | kernel/memory/heap.c:59-81 | an allocation's block has at least the requested bytes and fewer than 32 more |
| `Heap.GrantFromPages` | kernel/memory/heap.c:161-174 | what the physical memory manager returns for the rounded size is disjoint from every heap region |
| `Heap.OwnedAfter` | kernel/memory/heap.c:155-200 | after growth no heap region holds a USABLE address |
| `Heap.StartOwned` | kernel/memory/heap.c:128-138 | a heap that starts below the kernel end owns no USABLE address after boot |
| `Paths.RenderCanonical` | kernel/filesystem/VFS.c:887-974 | joining clean segments gives a canonical path with exactly those segments |
| `Paths.CanonicalRender` | kernel/filesystem/VFS.c:887-974 | a canonical path is the join of its segments |
| `Normalize.NormalCanonical` | kernel/filesystem/VFS.c:887-974 | every successful result is canonical and fits the buffer with its terminator |
| `Normalize.NormalFixed` | kernel/filesystem/VFS.c:887-974 | a canonical path that fits is its own normal form |
| `Normalize.NormalIdempotent` | kernel/filesystem/VFS.c:887-974 | normalising twice is normalising once |
| `Normalize.NormalWithoutParents` | kernel/filesystem/VFS.c:887-974 | without `..` the result joins the segments that are neither empty nor `.` |
| `Normalize.DepthGuard` | kernel/filesystem/VFS.c:887-974 | the depth is at most half the length, so the depth guard never binds for buffers up to 1024 |
| `Normalize.ParentExact` | kernel/filesystem/VFS.c:935-963 | the result equals lexical parent resolution exactly when no named segment precedes a `..` |
| `Normalize.ParentStays` | kernel/filesystem/VFS.c:935-963 | for every name, `/name/..` comes out as `/name` |
| `NormalizeBuffer.NormalizePath` | kernel/filesystem/VFS.c:887-974 | the loops over the output buffer and the saved offsets write the specified path, terminated, or return the specified error; the buffer is overrun exactly for an absolute path and one byte of room |
| `NormalizeBuffer.Segment` | kernel/filesystem/VFS.c:927-963 | one segment: `.` skipped, `..` cut back, a name checked and appended |
| `NormalizeBuffer.Ascend` | kernel/filesystem/VFS.c:935-945 | `..` cuts the buffer back to the last saved offset |
| `NormalizeBuffer.Descend` | kernel/filesystem/VFS.c:947-963 | a name is refused when it or the path would be too long, and otherwise appended |
| `Mounts.MatchesComponents` | kernel/filesystem/VFS.c:108-125 | on canonical paths the string-prefix tests are prefix tests of the component lists |
| `Mounts.RelativeComponents` | kernel/filesystem/VFS.c:546-569 | the relative remainder is exactly the remaining components |
| `Mounts.SelectClosest` | kernel/filesystem/VFS.c:976-1000 | the scan returns a mount whose components are the longest prefix, or none exactly when there is none |
| `Mounts.ClosestUnique` | kernel/filesystem/VFS.c:976-1000 | there is only one such mount, so the scan returns it |
| `Tree.WalkUnique` | kernel/filesystem/VFS.c:1002-1058 | from the roots, a node is reached by one path of one tree only |
| `Tree.WithChildWalk` | kernel/filesystem/ramfs.c:328-351 | adding a child changes the walk of exactly its own path |
| `Tree.UnlinkedWalk` | kernel/filesystem/ramfs.c:353-374 | removing a child ends exactly the walks at and below it |
| `Tree.WithoutWalk` | kernel/filesystem/ramfs.c:58-82 | freeing a detached subtree changes no walk from another root |
| `TreeReach.FreeExact` | kernel/filesystem/ramfs.c:58-82 | the recursion over children frees exactly the nodes from which parent pointers lead to the node, each once, and leaves the tree without it |
| `TreeReach.FreeOnce` | kernel/filesystem/ramfs.c:58-82 | no node is freed twice |
| `TreeReach.BelowBound` | kernel/filesystem/ramfs.c:58-82 | as many parent steps as there are nodes find every ancestor |
| `Vfs.ResolveCorrect` | kernel/filesystem/VFS.c:527-575 | with a coherent cache a resolve answers what mount selection and walk answer, and keeps the cache coherent |
| `VfsRuns.MountKeeps` | kernel/filesystem/VFS.c:345-420 | mounting keeps every cached entry correct |
| `VfsRuns.UnmountKeeps` | kernel/filesystem/VFS.c:466-502 | unmounting keeps every remaining cached entry correct |
| `VfsRuns.CreateLookup` | kernel/filesystem/VFS.c:1060-1103 | creating changes the lookup of exactly the new path, and not even that when a mount covers it |
| `VfsRuns.CreateKeeps` | kernel/filesystem/VFS.c:1060-1103 | creating keeps every cached entry correct |
| `VfsRuns.RemoveLookup` | kernel/filesystem/VFS.c:1105-1148 | removing ends exactly the lookups at and below the path in the same mount |
| `VfsRuns.RemoveKeeps` | kernel/filesystem/VFS.c:1105-1148 | removing keeps every remaining cached entry correct |
| `VfsRuns.RunCoherent` | kernel/filesystem/VFS.c:345-1148 | after every run of mounts, unmounts, creates, removes, resolves, flushes and capacity changes a resolve answers the same with and without the cache |
| `VfsReach.UnmountReached` | kernel/filesystem/VFS.c:466-502 | after an unmount every node left is found from some mount |
| `VfsReach.RemoveReached` | kernel/filesystem/VFS.c:1105-1148 | after a removal every node left is found from some mount |
| `VfsReach.RunReached` | kernel/filesystem/VFS.c:345-1148 | after every run each live node is found from some mount |
| `VfsReach.UnmountFrees` | kernel/filesystem/VFS.c:466-502 | an unmount frees exactly the nodes of the mount, each once |
| `VfsReach.RemoveFrees` | kernel/filesystem/ramfs.c:353-374 | a removal frees exactly the node and what lies below it, each once |
| `VfsRuns.StartInv` | kernel/filesystem/VFS.c:229-263 | the empty file system is coherent |
| `FileSystem.VirtualFileSystem.CacheLookup` | kernel/filesystem/VFS.c:164-188 | a hit moves the entry to the front and counts, a miss counts, a disabled cache does neither |
| `FileSystem.VirtualFileSystem.CacheInsert` | kernel/filesystem/VFS.c:190-227 | the path's old entry goes, then the oldest entry of a full cache, and the new one is first |
| `FileSystem.VirtualFileSystem.CacheRemovePrefix` | kernel/filesystem/VFS.c:127-145 | removes exactly the entries at and below a path, while walking the list |
| `FileSystem.VirtualFileSystem.CacheRemoveExact` | kernel/filesystem/VFS.c:147-162 | removes the entry of one path |
| `FileSystem.VirtualFileSystem.CacheSetCapacity` | kernel/filesystem/VFS.c:276-288 | the cache is cut to the newest entries of the new capacity |
| `FileSystem.VirtualFileSystem.CacheFlush` | kernel/filesystem/VFS.c:270-274 | the cache becomes empty and nothing else changes |
| `FileSystem.VirtualFileSystem.FindMount` | kernel/filesystem/VFS.c:976-1000 | the scan over the mount list selects the specified mount |
| `FileSystem.VirtualFileSystem.LookupChild` | kernel/filesystem/ramfs.c:307-326 | the scan over the children finds the child of that name |
| `FileSystem.VirtualFileSystem.WalkPath` | kernel/filesystem/VFS.c:1002-1058 | the loop over the relative path follows its segments: `.` stays, `..` goes to the parent if there is one, a name of more than 255 characters ends it, and any other is looked up |
| `Vfs.WalkNamesClean` | kernel/filesystem/VFS.c:1002-1058 | on the segments of a normalised path the walk goes down only and no name is too long |
| `FileSystem.VirtualFileSystem.WalkFromMount` | kernel/filesystem/VFS.c:546-569 | selection, remainder and walk together are the uncached lookup |
| `FileSystem.VirtualFileSystem.Resolve` | kernel/filesystem/VFS.c:527-575 | the reply is the uncached one, and the new cache and counters are as specified |
| `FileSystem.VirtualFileSystem.Mount` | kernel/filesystem/VFS.c:345-420 | the whole new state and reply, duplicates and bad paths refused, the cached subtree dropped |
| `FileSystem.VirtualFileSystem.Unmount` | kernel/filesystem/VFS.c:466-502 | the whole new state and reply, the root never unmounted |
| `FileSystem.VirtualFileSystem.Create` | kernel/filesystem/VFS.c:1060-1103 | the whole new state and reply with every error case |
| `FileSystem.VirtualFileSystem.CreateIn` | kernel/filesystem/ramfs.c:328-351 | a child is added to a directory unless the name exists |
| `FileSystem.VirtualFileSystem.Remove` | kernel/filesystem/VFS.c:1105-1148 | the whole new state and reply with every error case |
| `FileSystem.VirtualFileSystem.RemoveIn` | kernel/filesystem/ramfs.c:353-374 | the named child and its subtree are removed |
| `Lru.CacheIsRecent` | kernel/filesystem/VFS.c:164-227 | on an unchanged tree the cache is the most recently used paths, distinct and in order, up to the capacity |
| `Lru.Inclusion` | kernel/filesystem/VFS.c:164-227 | for one sequence of resolves a smaller cache is a prefix of a larger one, and hits never decrease with capacity |
| `Lru.RunTracks` | kernel/filesystem/VFS.c:527-575 | every capacity's cache and hit count follow one recency list |
| `Tiling.ChoiceMaximal` | kernel/amd64/paging.c:219-230 | the chunk size is the largest power of two that divides the base and does not exceed the length |
| `Tiling.TileExact` | kernel/amd64/paging.c:260-275 | the chunks lie end to end over exactly the range, each a power of two aligned to its own size |
| `Tiling.TilesCover` | kernel/amd64/paging.c:260-275 | an address belongs to a chunk exactly when it belongs to the range |
| `Tiling.TilesApart` | kernel/amd64/paging.c:260-275 | the chunks are disjoint |
| `Tiling.TileShortest` | kernel/amd64/paging.c:260-275 | no tiling by aligned powers of two has fewer chunks |
| `TileCount.AtMostTwice` | kernel/amd64/paging.c:260-275 | no chunk size occurs more than twice |
| `TileCount.TileBound` | kernel/amd64/paging.c:255-275 | a page-aligned range of a `b`-bit space has at most `2(b - 13)` chunks |
| `TileCount.WorstRange` | kernel/amd64/paging.c:255-275 | for every width some range needs that many |
| `TileCount.TableSuffices` | kernel/amd64/paging.c:255-269 | 64 entries suffice for every range exactly up to 45 address bits |
| `Bits.BitCount` | kernel/amd64/paging.c:130-138 | clearing the lowest set bit until none is left counts the set bits |
| `MtrrSpec.PhysMask` | kernel/amd64/paging.c:140-147 | the address bits of a register are those from the page size up to the processor's width below 52 bits, and up to bit 63 from 52 bits on |
| `MtrrSpec.EncodingExact` | kernel/amd64/paging.c:210-217 | a programmed base/mask pair is enabled and matches an address exactly when it lies in the chunk |
| `MtrrSpec.Rounded` | kernel/amd64/paging.c:241-244 | the page-rounded range holds the request and exceeds it by less than a page at each end |
| `MtrrSpec.CarriedRange` | kernel/amd64/paging.c:241-245 | the bounds and the length that the code computes on words are the range of the request carried out |
| `MtrrSpec.CarriedExact` | kernel/amd64/paging.c:241-245 | that is the request made exactly when the offset in the page, the length and 4095 sum below the word limit; otherwise it is empty or one page |
| `MtrrSpec.LongestVanishes` | kernel/amd64/paging.c:241-245 | the longest request from address zero is carried out as no request |
| `MtrrSpec.SlotsDistinct` | kernel/amd64/paging.c:149-159 | slots taken were free and differ from one another |
| `MtrrSpec.SlotsSuffice` | kernel/amd64/paging.c:277-290 | after the count was compared every acquisition finds a slot below the slot count |
| `MtrrSpec.SlotCoversChunk` | kernel/amd64/paging.c:283-304 | after a request each slot taken matches exactly the addresses of its chunk |
| `MtrrRuns.RequestCovers` | kernel/amd64/paging.c:232-314 | the slots of an accepted request match exactly the page-rounded range |
| `MtrrRuns.RequestMatchesOnce` | kernel/amd64/paging.c:232-314 | no address is matched by two of them |
| `MtrrRuns.RunKeeps` | kernel/amd64/paging.c:232-314 | over every run a slot in use stays in use and keeps its registers |
| `MtrrRuns.RunCovers` | kernel/amd64/paging.c:232-314 | whatever is requested later, the slots of an accepted request keep matching exactly its range |
| `MtrrRuns.RequestsApart` | kernel/amd64/paging.c:232-314 | a slot of an accepted request is none of the slots that any later request of the run takes |
| `MtrrRuns.RunInv` | kernel/amd64/paging.c:232-314 | over every run the mask stays within the slot count |
| `MtrrRuns.TableNeverBinds` | kernel/amd64/paging.c:255-269 | with at most 45 address bits the chunk table turns no request down |
| `Mtrr.LargestAligned` | kernel/amd64/paging.c:219-230 | the halving loop returns the greedy choice |
| `Mtrr.CutRange` | kernel/amd64/paging.c:255-275 | the loop fills the table with the tiling and fails exactly when it has more than 64 chunks; neither clamp binds |
| `Mtrr.RangeRegisters.Init` | kernel/amd64/paging.c:177-208 | the processor is read once, the width is at least 36, and the slots in use are not changed |
| `Mtrr.RangeRegisters.constructor` | kernel/amd64/paging.c:149-208 | before the first call no slot is taken and the registers are the firmware's |
| `Mtrr.RangeRegisters.AcquireSlot` | kernel/amd64/paging.c:149-159 | takes the lowest free slot, and fails exactly when none is below the count |
| `Mtrr.RangeRegisters.ReleaseSlot` | kernel/amd64/paging.c:161-166 | clears exactly one bit |
| `Mtrr.RangeRegisters.AcquireAll` | kernel/amd64/paging.c:283-290 | one slot for each chunk; the rollback branch is unreachable |
| `Mtrr.RangeRegisters.ProgramSlot` | kernel/amd64/paging.c:210-217 | writes the encoded pair into the slot's two registers |
| `Mtrr.RangeRegisters.WithinWidth` | kernel/amd64/paging.c:246-253 | the two comparisons accept exactly the ranges that end within the address width |
| `Mtrr.RangeRegisters.SetRange` | kernel/amd64/paging.c:232-314 | for every start and length on words: succeeds exactly when the request carried out does; a refused request leaves the registers and the mask unchanged |
| `Ring.StoreHistory` | kernel/gfxterm/gfxterm.c:155-207 | the stored lines after a push, in every case, including the stale line that appears when the ring has spare slots |
| `Ring.StoreExact` | kernel/gfxterm/gfxterm.c:168-179 | the new line becomes the newest for every line exactly when the ring has no slot beyond the maximum |
| `Ring.WholeBlocks` | kernel/gfxterm/gfxterm.c:22-34 | that is so exactly for a maximum that is a multiple of 128 |
| `Ring.GrowKeeps` | kernel/gfxterm/gfxterm.c:94-115 | a new block, whatever it holds, changes no stored line |
| `Ring.RunRefines` | kernel/gfxterm/gfxterm.c:155-207 | for a maximum of whole blocks, over every run of pushes the ring stands for the history its pushes make |
| `Ring.PushAllIsNewest` | kernel/gfxterm/gfxterm.c:155-207 | that history is the newest lines pushed, oldest first |
| `Ring.RingExact` | kernel/gfxterm/gfxterm.c:155-207 | for every maximum: all runs from the empty ring leave the newest lines if and only if the maximum is a multiple of 128 |
| `Ring.StaleRun` | kernel/gfxterm/gfxterm.c:155-207 | otherwise one line more than the maximum shows the content of a fresh block as the newest line |
| `Grid.RowsScroll` | kernel/gfxterm/gfxterm.c:591-611 | moving the flat buffer up moves the rows up and blanks the last ones |
| `TerminalSpec.ScrollKeepsText` | kernel/gfxterm/gfxterm.c:573-611 | scrolling by `k` turns history and screen into history, screen and `k` blank rows, and only the oldest lines beyond the maximum go |
| `TerminalSpec.PutCharInside` | kernel/gfxterm/gfxterm.c:492-571 | after any character the cursor is inside the grid, whatever 32-bit position it started from, with 32-bit sums wrapping |
| `TerminalSpec.WriteInside` | kernel/gfxterm/gfxterm.c:673-691 | so it is after every non-empty text, and the history stays within its maximum |
| `TerminalSpec.ViewRoundTrip` | kernel/gfxterm/gfxterm.c:642-671 | looking back and forward by the same number of lines returns to the view exactly when the history is that long |
| `TerminalText.ScrollTranscript` | kernel/gfxterm/gfxterm.c:573-611 | on the flat text a scroll appends one blank line and drops at most the oldest one |
| `TerminalText.PlainStep` | kernel/gfxterm/gfxterm.c:492-571 | a printable character is added to the end of the text, wrapping and scrolling included |
| `TerminalText.PlainText` | kernel/gfxterm/gfxterm.c:492-691 | for every printable text, history and screen are that text in order followed by blanks, less whole lines at its start |
| `TerminalText.BlankShows` | kernel/gfxterm/gfxterm.c:381-403 | a new terminal holds the empty text |
| `Grid.CopyInto` | kernel/gfxterm/gfxterm.c:173-176 | copying a stretch overwrites exactly its cells |
| `Scrollback.SlotsStore` | kernel/gfxterm/gfxterm.c:127-139 | writing a row of one block stores a line at one ring position and touches no other |
| `Scrollback.LineStore.AllocBlock` | kernel/gfxterm/gfxterm.c:94-115 | adds a block of 128 unspecified lines, separate from all others |
| `Scrollback.LineStore.StoreLine` | kernel/gfxterm/gfxterm.c:127-139 | block and row arithmetic stores a line at a ring position |
| `Scrollback.LineStore.ReplaceOldest` | kernel/gfxterm/gfxterm.c:168-179 | at the maximum the oldest line is overwritten and the start advances around the ring |
| `Scrollback.LineStore.Append` | kernel/gfxterm/gfxterm.c:200-206 | below the maximum the line goes after the newest |
| `Scrollback.LineStore.PushLine` | kernel/gfxterm/gfxterm.c:155-207 | for every maximum a push is the push of the ring; for a multiple of 128 it drops the oldest line at the maximum and adds the new one last |
| `Scrollback.LineStore.LineAt` | kernel/gfxterm/gfxterm.c:1164-1169 | the ring position of a logical line holds that line |
| `Terminal.TextTerminal.PushTopRows` | kernel/gfxterm/gfxterm.c:210-225 | the top rows are pushed in order |
| `Terminal.TextTerminal.ScrollContent` | kernel/gfxterm/gfxterm.c:573-611 | the whole new state after scrolling by any amount, clamped to the height |
| `Terminal.TextTerminal.SetChar` | kernel/gfxterm/gfxterm.c:450-470 | writes one cell, nothing outside the grid, and blanks for characters that cannot be shown |
| `Terminal.TextTerminal.Tab` | kernel/gfxterm/gfxterm.c:521-529 | blanks up to the next tab stop |
| `Terminal.TextTerminal.Type` | kernel/gfxterm/gfxterm.c:512-544 | the drawn screen and the stepped cursor for every character |
| `Terminal.TextTerminal.PutChar` | kernel/gfxterm/gfxterm.c:492-571 | the whole new state, with the cursor inside the grid |
| `Terminal.TextTerminal.Place` | kernel/gfxterm/gfxterm.c:546-565 | wrap at the edge and scroll at the bottom |
| `Terminal.TextTerminal.Write` | kernel/gfxterm/gfxterm.c:673-691 | a text is its characters one after the other |
| `Terminal.TextTerminal.ScrollView` | kernel/gfxterm/gfxterm.c:642-671 | the view moves and is clamped to the history |
| `Terminal.TextTerminal.Redraw` | kernel/gfxterm/gfxterm.c:1146-1176 | the lines shown are a contiguous window of history and screen |
| `Bytes.OverwriteReads` | kernel/stream/DiskStream.c:147-378 | what was written reads back, and every other byte is untouched |
| `Bytes.JoinUpdate` | kernel/stream/DiskStream.c:337-360 | rewriting one block overwrites exactly its stretch of the flat device |
| `DiskStream.LastBlock` | kernel/stream/DiskStream.c:175-192 | comparing block numbers is comparing the end with the device size in bytes |
| `DiskStream.Stream.CheckRange` | kernel/stream/DiskStream.c:167-192 | the guards accept exactly the non-empty ranges whose end is a 64-bit position within the reported size |
| `DiskStream.Stream.Read` | kernel/stream/DiskStream.c:147-241 | returns exactly the requested slice, and nothing exactly when the stream is closed, the range is refused or the device failed |
| `DiskStream.Stream.WriteChunk` | kernel/stream/DiskStream.c:329-364 | one block at most is overwritten, whole or read, changed and written back |
| `DiskStream.Stream.Write` | kernel/stream/DiskStream.c:277-378 | the device becomes its old content with a prefix of the data written at the offset, all of it exactly when no operation failed |
| `RamFile.RunIsLastBytes` | kernel/filesystem/ramfs.c:215-280 | after every run each position holds the byte last written there since the file was last cut below it, and zero otherwise |
| `RamFile.GuardExact` | kernel/filesystem/ramfs.c:241-242 | the guard on the wrapped sum never refuses, and every buffer long enough for that sum holds the range exactly when it did not wrap |
| `RamFile.GuardMisses` | kernel/filesystem/ramfs.c:241-242 | two bytes at the last offset pass the guard with one byte of room |
| `RamFile.GrownCapacity` | kernel/filesystem/ramfs.c:137-146 | the doubling loop terminates with enough room and less than twice what was required |
| `RamFile.File.Grow` | kernel/filesystem/ramfs.c:132-163 | the buffer grows, its new bytes are zero, and the content is unchanged; it can only fail when it has to grow |
| `RamFile.File.Read` | kernel/filesystem/ramfs.c:215-230 | the bytes from the offset up to the count or the end |
| `RamFile.File.Write` | kernel/filesystem/ramfs.c:232-257 | for every offset and length: the content with the bytes written and any gap before them zero, unchanged without memory, and a copy outside the buffer exactly when there is memory and the sum wraps |
| `RamFile.File.Truncate` | kernel/filesystem/ramfs.c:259-280 | the content cut, or extended with zeros |
| `Raster.FollowStep` | kernel/graphics/gfx.c:169-179 | one step moves along the longer axis and stays within half a pixel of the line |
| `Raster.FollowEnd` | kernel/graphics/gfx.c:167-168 | the end point is reached exactly when the longer axis is used up |
| `Raster.DrawLine` | kernel/graphics/gfx.c:153-181 | the points run from the first to the last end point in exactly `max(dx, dy)` steps, each within half a pixel on the shorter axis |
| `Raster.DrawingBounds` | kernel/graphics/gfx.c:158-179 | every coordinate, error and intermediate sum of the loop is a 32-bit number |
| `Raster.TrackStep` | kernel/graphics/gfx.c:224-234 | the decision variable keeps its closed form and the point stays within half a pixel of the circle |
| `Raster.TrackBounds` | kernel/graphics/gfx.c:224-243 | every decision value and coordinate of the loop is a 32-bit number |
| `Raster.NearestRow` | kernel/graphics/gfx.c:224-243 | before the diagonal the plotted row is the only one that near |
| `Raster.PlotNear` | kernel/graphics/gfx.c:219-243 | every plotted pixel is within half a pixel of the circle along one of the axes |
| `Raster.DrawCircle` | kernel/graphics/gfx.c:208-245 | the cardinal points and the eight reflections of an octant with one point for each column, each satisfying `abs(x*x + y*y - r*r) <= y` |
| `DigitsSpec.DigitsDecode` | kernel/util/convert.c:29-54 | decoding the digits gives the value back, without leading zeros |
| `DigitsSpec.CanonicalUnique` | kernel/util/convert.c:29-54 | a value has only one list of digits without leading zeros |
| `DigitsSpec.DigitsShort` | kernel/util/convert.c:29-54 | a 64-bit value has at most 64 digits in any base |
| `Convert.DivMod` | kernel/util/convert.c:15-27 | long division bit by bit gives the quotient and the remainder |
| `Convert.ReverseText` | kernel/util/convert.c:46-51 | turns a stretch of the buffer around in place |
| `Convert.Utoa` | kernel/util/convert.c:29-54 | the buffer holds the digits and the end mark within 65 characters |
| `Convert.TextDetermines` | kernel/util/convert.c:29-54 | the text determines the value |
| `Convert.SignWrap` | kernel/util/convert.c:70-84 | a minus sign exactly for negative values, the least one included, and nothing in a base outside 2 to 36 |
| `Printf.ByDivision` | kernel/util/VPrintf.c:241-247 | the 32-bit route writes the same digits, least significant first |
| `Printf.ByNibbles` | kernel/util/VPrintf.c:250-256 | the nibble route writes the same digits, least significant first |
| `Printf.ByPowers` | kernel/util/VPrintf.c:257-285 | the powers-of-ten route writes the same digits in order |
| `Printf.HighestPower` | kernel/util/VPrintf.c:268-270 | the first power used is the highest not above the value |
| `Printf.FormatDigits` | kernel/util/VPrintf.c:228-305 | all routes write the text of the conversion routines; above 32 bits every base but 10 comes out in hexadecimal |
| `Dma.BuildStep` | kernel/driver/ata/ata.c:122-135 | one entry stays inside one segment and continues the cover |
| `Dma.NextEntry` | kernel/driver/ata/ata.c:123-131 | the masks compute the piece and its 16-bit count |
| `Dma.BuildPrdt` | kernel/driver/ata/ata.c:114-139 | the entries cover the built part in order, none crosses a segment, only the last ends the table, and everything is built exactly when the range touches at most four segments |

## Left out

- Port and memory-mapped I/O, model-specific register access beyond a map update, cache and TLB flushes, and the control-register sequence around register programming: hardware effects.
- AHCI, APIC, HPET, PIT, PIC, PS/2, EFI, ACPI and PCI drivers, and the rest of the ATA driver: polling loops over device registers.
- The i386 paging code, which repeats the amd64 range-register code.
- FAT: its nodes are built anew for each disk lookup, and its cluster helpers are not part of this model.
- `heap_realloc`, `heap_calloc` and `heap_register_region`.
- Allocation failure and re-entrancy of the allocator inside the physical memory manager, the path cache and the scrollback. `RamFile.File.Grow` does model a failed allocation.
- The nodes of the region list, the cache list and the mount list: these lists are sequences edited in place, and that the linked list computes the same edits is proved once in `Lists`.
- `VFS_ResolveAt`, a file system that is not initialised, and file systems other than the in-memory one.
- Contents of mount parameters and file handles, and the open, seek and directory-reading calls.
- Terminal resizing, changing the scrollback maximum, pixels, fonts, colours drawn, cursor blinking and the empty grid.
- Padding, sign and prefix of the formatted printer, floating-point output, and the textbook integer helpers.
- NormalizeBuffer.NormalizePath: where one byte of room is overrun, says so and not what the write destroys.
- RamFile.File.Write: where the copy would leave the buffer, says so and not what the copy destroys.
- Heap.KernelHeap.AlignedAlloc: after a size that wraps, does not say which headers the header written before the result destroys.
- Heap.KernelHeap.Free: after the release of a region's record describes the heap, and promises nothing of later calls.
- Mtrr.RangeRegisters.SetRange: assumes at most 64 variable ranges, as shifts by more are undefined.
- DiskStream.Stream.Write: a failed block write is taken to leave that block as it was, and the flush at the end has no effect.
- Terminal.TextTerminal.constructor: the terminal around the scrollback is modelled for a maximum that is a multiple of 128, as its default of 4096 is.
- Terminal.TextTerminal.PutChar: takes a signed sum that overflows to wrap around, which the language leaves undefined.
- Terminal.TextTerminal.Redraw: records the lines shown instead of drawing them.
- Raster.DrawLine: assumes 32-bit coordinates at most 715827882 apart on each axis, for which no sum overflows.
- Raster.DrawCircle: assumes that the pixels of the circle have 32-bit coordinates and its radius is below 2^30 - 1.
- Convert.SignWrap: takes the negation of the least number to wrap around, which the language leaves undefined.
- Printf.FormatDigits: covers bases up to 16, the size of its digit table.
- Dma.BuildPrdt: assumes a buffer below 4 GiB, as the descriptors hold 32-bit addresses.
