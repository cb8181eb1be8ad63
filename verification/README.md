# MemNixFS in Dafny

MemNixFS turns a Linux memory dump into a read-only filesystem. This project
models the parts of it whose correctness is not visible in any one function and
proves what they are for:

- **Physical memory.** LiME, AVML and kdump dumps are three algorithms over one
  sparse memory (`PhysicalLayer`, `Extents`, `LimeFormat`, `KdumpFormat`,
  `AvmlFormat`, `AvmlFrames`, `AvmlLoad`). On top of it stand the x86_64 page walk (`Paging`)
  and the page cache, sequentially (`PageCache`) and with whole reads of many
  threads interleaved (`CacheRuns`); `Recency` holds what the two LRU caches share.
  `SmallDumps` holds the concrete dumps used as examples.
- **Windowed files.** The ELF core built eagerly (`ElfCore`) and served as a
  stream (`ElfCoreStreaming`), and the file as a debugger reads it (`ElfReader`);
  kernel virtual addresses (`KernelVa`) and the sparse file over them (`KernVaStream`).
- **Recovered tables.** kallsyms: `KallsymsTokens`, `KallsymsMarkers`,
  `KallsymsNames`, `KallsymsAnchor`. BTF: the format in `BtfFormat`, the parser in
  `Btf`, the conversion in `FieldNames`, `BtfLayout` and `BtfSymbols`, and both
  together, from written types to looked-up offsets, in `BtfLookup`. Chunked
  signature scans: `ChunkedScan`. Mounts: paths in `MountTree`, what they spell in
  `MountNames`, the listing in `MountWalk`.
- **The filesystem.** Unique names and paged listing (`DirNode`), the `/fs` tree
  (`FsPath`, `FsTree`, `FsBuilder`, and in `FsOrder` what the iteration order of a
  hash map does to it), the warmer (`ForensicWarmer`) and every run of
  its worker pool (`WarmerRuns`).
- **SHA-256**, streaming against the standard (`Sha256Standard`, `Sha256`), and where
  the standard's constants come from (`Sha256Constants`).

Words of fixed width are integers with the wrap-around written out (`% TWO_64`);
SHA-256 uses bit-vectors. A dump file is a byte sequence, a physical memory a
function from addresses to `Some(byte)` or `None`. Snappy, `recover_file_stats`
and `validate_recovered_fs_path` are parameters. Exceptions are result values.
Loops and objects the program updates in place are methods and classes; the
functions they are proved against carry the theorems. `dafny verify dfyconfig.toml`
checks the whole project.

## Where the code does less than its comments say

Each of these has a concrete input, an exact condition, or both, among the members
below.

- A LiME header that ends at 2^64 - 1 wraps the loader's order check, so segments
  out of order are accepted (`WrappedOrderAccepted`, `LoadedOrdered`).
- A kdump range nested in another hides the outer range's tail from reads that
  start there, and not from reads that start earlier (`NestedRangeHides`,
  `FoundIffBacked`, `WindowIndependentIff`).
- The last AVML frame of a chunk may run into the next chunk; a read then counts
  the shared bytes twice (`OvershootOverlaps`, `CountIsBacked`).
- A cached read counts mapped bytes, not bytes the dump holds (`CachedCountTooHigh`,
  `CachedCountExact`). Cache keys collide across page tables
  (`KeysCollideAcrossTables`, `KeysCollideIff`), and a hit then gives one table the
  other's page (`CrossTableHitIsWrong`, `SharingSafeIff`). The one place that owns
  such a cache (src/os/linux/elf_core_stream.h:66) uses a single page table. A
  budget below one page evicts the page just inserted (`InsertKeeps`).
- `e_phnum` is 16 bits wide (`SegmentCountReadsBack`).
- Two candidates for one path, which only an empty component (`//`) allows, make
  what `/fs` shows there depend on hash-map order (`DoubledSlashCollides`).
  The order of a listing depends on it as soon as one directory gets two new files
  (`TwoFilesReorder`); `MapOrderMattersIff` is the exact condition for both.
- A chunk with holes is searched only up to the number of bytes it holds, so
  matches near its end are missed (`HoleHidesMatch`; `ReportedIff` and
  `SeesIffFewHoles` say which). `scan_swapper` never reports a match that ends with
  the last byte; the other two scanners repeat matches in the overlap
  (`ScanSwapper`, `ScanBanners`, `ScanTokenIndex`).
- A BTF tail can carry the 32-bit offset past 2^32 and back
  (`StepGoesBack`, `StepAdvancesIff`).
- A collision suffix can overwrite a real field (`SuffixOverwrites`,
  `NothingLostIff`), or a real type (`NoTypeLostIff`). A field offset of 2^31 or
  more changes on loading (`LoadedOffsetIff`).
- The init_mm page table is cached for the process, not the engine
  (`SecondDumpIsMisled`, `SecondEngine`). A page only partly in the dump makes
  `/mem/kern_va.raw` depend on the window read (`WindowChangesByte`,
  `WindowsAgreeIff`).

## Model

| member | source | states |
|---|---|---|
| `PhysicalLayer.CountFull` | src/formats/physical_layer.h:24-28 | a read reports as many bytes as asked for exactly when no address of the window is a hole |
| `PhysicalLayer.FillFromSource` | src/formats/lime_format.cpp:60-62 | one file read in the middle of a buffer extends the finished part and counts exactly the bytes the file still had |
| `LimeFormat.LoadSegments` | src/formats/lime_format.cpp:69-107 | succeeds exactly on the files that some non-empty ascending chain of header-and-data chunks encodes to, and returns that chain's segment table |
| `LimeFormat.WrittenHeader` | src/formats/lime_format.cpp:11-21 | a header as written: EMiL and version 1 as 32-bit words, then start, end and reserved as 64-bit words at bytes 8, 16 and 24 |
| `LimeFormat.HeaderWords` | src/formats/lime_format.cpp:73-80 | the header read at any offset is the words at those places |
| `LimeFormat.ReadingUnique` | src/formats/lime_format.cpp:73-100 | a file has at most one reading as such a chain |
| `LimeFormat.TableAt` | src/formats/lime_format.cpp:96-99 | each table entry carries its header's range and its file slice is that chunk's data: headers and data tile the file |
| `LimeFormat.LoadedOrdered` | src/formats/lime_format.cpp:83-98 | an accepted table is sorted and disjoint if and only if no chunk but the last ends at 2^64 - 1 (unless it starts at 0 and is empty by wrap-around) |
| `LimeFormat.WrappedOrderAccepted` | src/formats/lime_format.cpp:83-98 | a two-segment file the loader accepts although its segments are out of order |
| `LimeFormat.LoadedBytes` | src/formats/lime_format.cpp:96-99 | in a sorted table every data byte of the file is found at its physical address |
| `LimeFormat.Read` | src/formats/lime_format.cpp:48-66 | the linear scan fills any window with the memory the segments describe, zero in holes, and counts the backed addresses |
| `KdumpFormat.SortRanges` | src/formats/kdump_format.cpp:105-108 | a permutation of the ranges, ascending by start |
| `KdumpFormat.SortedDisjoint` | src/formats/kdump_format.cpp:105-108 | sorting ranges that share no address gives the ordered table lookups need |
| `KdumpFormat.UpperBound` | src/formats/kdump_format.cpp:136-137 | the boundary between starts at most the address and starts above it |
| `KdumpFormat.ViewOfOrdered` | src/formats/kdump_format.cpp:136-163 | over disjoint ranges the start search finds exactly the memory a first-cover scan finds, so kdump and LiME lookups agree |
| `KdumpFormat.FoundIffBacked` | src/formats/kdump_format.cpp:136-156 | every backed address is found if and only if no range sticks out behind a later one into unclaimed space |
| `KdumpFormat.NestedRangeHides` | src/formats/kdump_format.cpp:136-156 | a one-byte range inside a longer one: the address after it is backed and not found on its own, but supplied to a read that started earlier |
| `KdumpFormat.Read` | src/formats/kdump_format.cpp:128-166 | over any sorted ranges hole hopping fills the window with what the supplying ranges hold, each run on to its end once entered, zero elsewhere, counts the bytes there, and terminates |
| `KdumpFormat.QuietRead` | src/formats/kdump_format.cpp:128-166 | a window in which no range starts while an earlier one runs reads as its bytes one by one; a one-byte window is always such |
| `KdumpFormat.WindowIndependentIff` | src/formats/kdump_format.cpp:128-166 | every byte comes from the range the search finds for it, wherever a read starts, if and only if no range the search can find overlaps the next |
| `AvmlFormat.FrameCache.constructor` | src/formats/avml_format.cpp:51 | an empty cache that satisfies the invariant |
| `AvmlFormat.FrameCache.Get` | src/formats/avml_format.cpp:56-99 | returns what the frame decodes to; a hit only promotes, a failure changes nothing, a miss puts the frame first and evicts; the entry returned is still cached exactly when it fits the budget |
| `AvmlFormat.FrameCache.EvictIfNeeded` | src/formats/avml_format.cpp:102-112 | afterwards the order lists the map's keys once each, the byte count is their total and within budget, and survivors are untouched |
| `AvmlFormat.EvictedIsLongest` | src/formats/avml_format.cpp:102-112 | eviction keeps the longest recency prefix that fits: one entry more would not |
| `AvmlFormat.NewestSurvives` | src/formats/avml_format.cpp:93-98 | the newest entry survives eviction if and only if it fits on its own |
| `AvmlFormat.UpperBound` | src/formats/avml_format.cpp:154-157 | the first frame whose end lies above the address |
| `AvmlFormat.Read` | src/formats/avml_format.cpp:147-178 | throws exactly when a touched frame does not decode; otherwise the buffer is the frames' memory with zeros in holes and the count is the bytes copied |
| `AvmlFormat.CountIsBacked` | src/formats/avml_format.cpp:168-177 | the count is never below the number of backed addresses, and equal to it if and only if no address of the window lies in two frames |
| `AvmlFrames.ParseSnappyFrames` | src/formats/avml_format.cpp:210-275 | succeeds if and only if some valid chunks make up a walk that reached the expected length or left no room for a header, and returns the length and the frames of those chunks; fails if and only if the walk has to go on and no valid chunk follows |
| `AvmlFrames.Inspect` | src/formats/avml_format.cpp:225-270 | accepts exactly the valid chunks and gives the length a chunk announces |
| `AvmlFrames.ChunkUnique` | src/formats/avml_format.cpp:216-223 | the bytes at an offset are the encoding of at most one chunk |
| `AvmlFrames.WalkUnique` | src/formats/avml_format.cpp:215-274 | what a walk has taken is a prefix of every finished walk, a finished walk is the only one, and none gets stuck beside it |
| `AvmlFrames.FramesTile` | src/formats/avml_format.cpp:260-267 | each frame of a stream starts where the one before it ended, stays below 64 MiB decoded, and lies inside the stream |
| `AvmlFrames.DataComesBack` | src/formats/avml_format.cpp:56-99 | each data chunk of a stream in the file has a frame at its place in memory that decodes to what the framing format stores behind the four checksum bytes: the bytes themselves in type 1, what Snappy gives for them in type 0 |
| `AvmlFrames.TilesCoverOnce` | src/formats/avml_format.cpp:260-267 | such frames cover their range exactly once and nothing else |
| `AvmlFrames.ParsedRangeCovered` | src/formats/avml_format.cpp:215-274 | a stream that reached its expected length covers every address of the declared range exactly once |
| `AvmlLoad.LoadChunks` | src/formats/avml_format.cpp:181-205 | returns a table if and only if it is the non-empty frames of a chain of groups that reads the file to its end; fails if and only if a group cannot be read or there is no frame |
| `AvmlLoad.ChainUnique` | src/formats/avml_format.cpp:181-205 | a file has one chain: whatever was followed is a prefix of the complete one, and reading does not get stuck beside it |
| `AvmlLoad.WrittenFileLoads` | src/formats/avml_format.cpp:181-274 | a file written chunk by chunk, each covering its range, loads to exactly the frames written |
| `AvmlLoad.WrittenHeader` | src/formats/avml_format.cpp:35-39 | a chunk header as written: AVML and version 2 as 32-bit words, then start, end and padding as 64-bit words at bytes 8, 16 and 24 |
| `AvmlLoad.HeaderWords` | src/formats/avml_format.cpp:181-195 | the header read at any offset is the words at those places |
| `AvmlLoad.NoOvershootNoOverlap` | src/formats/avml_format.cpp:250-255 | if no chunk's frames reach past the next chunk's start, the table is sorted and no address lies in two frames |
| `AvmlLoad.LoadedFramesFit` | src/formats/avml_format.cpp:129-270 | no frame of a loaded table decodes to more than 64 MiB, so each fits the 128 MiB cache alone |
| `AvmlLoad.LoadedTableReadable` | src/formats/avml_format.cpp:147-205 | the table of a file whose chunks do not overshoot meets all a read through the cache asks for, and reads count exactly |
| `AvmlLoad.OpenAndRead` | src/formats/avml_format.cpp:120-205 | load a file whose chunks do not overshoot and read any window through a fresh cache: no result if and only if loading fails or a touched frame does not decode; else the buffer is the file's memory and the count its backed bytes |
| `AvmlLoad.OvershootOverlaps` | src/formats/avml_format.cpp:147-274 | a 100-byte file that loads to two frames, and a window of one address that a read counts twice |
| `Paging.TranslateIsWalk` | src/arch/x86_64/paging.cpp:18-43 | the unrolled, masked translation equals the level-by-level walk of the architecture, which reads bit 0 of an entry as present, bit 7 as leaf and bits 12 to 51 as the next table, with leaves of 4 KiB, 2 MiB and 1 GiB |
| `SmallDumps.LeavesOfEachSize` | src/arch/x86_64/paging.cpp:18-43 | six entries of a concrete dump that map one address through a leaf of each size |
| `Paging.TranslateLow48` | src/arch/x86_64/paging.cpp:15-43 | bits 48 to 63 of an address never matter |
| `Paging.TranslateInPage` | src/arch/x86_64/paging.cpp:18-43 | an address translates as its 4 KiB page does, plus the offset, whatever the leaf size |
| `Paging.Read` | src/arch/x86_64/paging.cpp:45-61 | the page-chunked read equals translating and fetching each byte alone, zero where unmapped or absent, and counts mapped bytes the dump holds |
| `PageCache.SpreadInjective` | src/arch/x86_64/page_cache.h:50-54 | the multiplier is invertible modulo 2^64: distinct page numbers stay distinct |
| `PageCache.KeyIdentifiesPage` | src/arch/x86_64/page_cache.h:50-54 | through one page table two addresses share a key if and only if their pages share the low 48 address bits |
| `PageCache.KeyDeterminesContent` | src/arch/x86_64/page_cache.cpp:10-18 | equal keys mean equal pages, so a hit is safe |
| `PageCache.PageIsMemory` | src/arch/x86_64/page_cache.cpp:21-28 | a decoded page is the 4096 bytes of virtual memory at its address, zeros if unmapped, and marked mapped if and only if its address translates |
| `PageCache.KeysCollideIff` | src/arch/x86_64/page_cache.h:50-54 | for all tables and addresses: the keys are equal if and only if the difference of the tables is that of the spread pages |
| `PageCache.SharingSafeIff` | src/arch/x86_64/page_cache.h:50-54 | one cache can serve two page tables if and only if all pages whose spreads differ as the tables do are the same |
| `PageCache.KeysCollideAcrossTables` | src/arch/x86_64/page_cache.h:50-54 | two page tables that share a key for different pages |
| `SmallDumps.CannotShare` | src/arch/x86_64/page_cache.cpp:10-18 | so two concrete tables cannot share a cache |
| `SmallDumps.CrossTableHitIsWrong` | src/arch/x86_64/page_cache.cpp:10-18 | a fetch for one table, then a lookup for another that maps nothing there: the lookup returns the first one's page |
| `PageCache.EvictKeeps` | src/arch/x86_64/page_cache.cpp:46-56 | eviction leaves the longest prefix within budget, consistent, its pages untouched |
| `PageCache.InsertKeeps` | src/arch/x86_64/page_cache.cpp:30-44 | the second critical section keeps the cache consistent, within budget and coherent; the page about to be returned is there if and only if it was before or the budget holds one page |
| `PageCache.UserPageCache.constructor` | src/arch/x86_64/page_cache.h:33-34 | an empty cache of the given budget |
| `PageCache.UserPageCache.Lookup` | src/arch/x86_64/page_cache.cpp:11-19 | a hit returns the cached page and only promotes it; a miss changes nothing |
| `PageCache.UserPageCache.Insert` | src/arch/x86_64/page_cache.cpp:30-44 | inserts unless someone else has, evicts, and returns the page the page table gives |
| `PageCache.UserPageCache.EvictLocked` | src/arch/x86_64/page_cache.cpp:46-56 | the loop reaches the specified evicted state |
| `PageCache.UserPageCache.Fetch` | src/arch/x86_64/page_cache.cpp:8-44 | a fetch gives the page the page table gives and keeps the invariant |
| `PageCache.UserPageCache.Read` | src/arch/x86_64/page_cache.cpp:58-75 | fills the buffer with exactly the bytes the page table read gives; the count is of mapped bytes |
| `PageCache.CachedCountExact` | src/arch/x86_64/page_cache.cpp:68-71 | that count equals the page table's own if and only if every mapped byte of the window is in the dump |
| `SmallDumps.CachedCountTooHigh` | src/arch/x86_64/page_cache.cpp:68-71 | a mapped byte outside the dump that the cached read counts and the page table's does not |
| `CacheRuns.StepKeepsInv` | src/arch/x86_64/page_cache.cpp:8-75 | every step of any thread, the gap between the two locks included, keeps the cache consistent, in budget and coherent, and the finished part of every read in progress right |
| `CacheRuns.InsertEnabled` | src/arch/x86_64/page_cache.cpp:30-44 | a thread that decoded its page can always complete: the page it must return is in the map |
| `CacheRuns.RunsAreCorrect` | src/arch/x86_64/page_cache.cpp:8-75 | in every reachable state of every interleaving of whole reads, map and recency list hold the same keys, the byte count is right, and each buffer's finished part is what the page table gives |
| `CacheRuns.FinishedReadsAreRight` | src/arch/x86_64/page_cache.cpp:58-75 | a read that has returned has exactly the bytes and the count of an undisturbed one, whatever ran beside it |
| `CacheRuns.ReadsEnd` | src/arch/x86_64/page_cache.cpp:58-75 | each step of a read brings it closer to its end and leaves every other read where it is |
| `ElfCore.MakePlan` | src/os/linux/elf_core.cpp:54-67 | stopping at the cap picks the same segments as going on over all VMAs |
| `ElfCore.PlanUncapped` | src/os/linux/elf_core.cpp:59-67 | a cap that covers all readable VMAs cuts nothing |
| `ElfCore.EstimateElfCoreSize` | src/os/linux/elf_core.cpp:117-134 | the estimate is the eager file's length for every cap |
| `ElfCore.BuildElfCore` | src/os/linux/elf_core.cpp:46-115 | the file is header, program headers, padding and each segment's process memory in order |
| `ElfCore.OffsetsAligned` | src/os/linux/elf_core.cpp:90-111 | page-aligned VMAs get page-aligned p_offset, congruent to p_vaddr |
| `ElfCore.ProgramHeaderReadsBack` | src/os/linux/elf_core.cpp:95-106 | decoding program header k of the file gives the segment it was written for and its offset |
| `ElfCore.SegmentCountReadsBack` | src/os/linux/elf_core.cpp:87 | e_phnum is the number of segments if and only if that is below 65536 |
| `ElfReader.FileHeader` | src/os/linux/elf_core.cpp:76-88 | every file starts as Elf64_Ehdr of a little-endian x86-64 core, each field a given number at a given byte |
| `ElfReader.DataStarts` | src/os/linux/elf_core.cpp:69-72 | the data begins at the first page boundary behind the program headers |
| `ElfReader.SegmentReads` | src/os/linux/elf_core.cpp:90-112 | program header k, field by field at bytes 64 + 56k on: PT_LOAD, permissions from the VMA flags, offset, address, sizes; and the p_filesz bytes at p_offset are the process memory from p_vaddr on |
| `ElfReader.PlannedSegments` | src/os/linux/elf_core.cpp:54-67 | every planned segment is a readable VMA of the list with at least one and at most all of its bytes |
| `ElfReader.CoreReads` | src/os/linux/elf_core.cpp:46-115 | so it is for the file of any VMAs and any cap |
| `ElfCoreStreaming.PlanStream` | src/os/linux/elf_core_stream.cpp:43-104 | header blob, segment table and size are those of the uncapped eager file |
| `ElfCoreStreaming.ElfCoreStream.constructor` | src/os/linux/elf_core_stream.cpp:34-41 | a stream over the uncapped plan with an empty page cache |
| `ElfCoreStreaming.ElfCoreStream.Read` | src/os/linux/elf_core_stream.cpp:106-142 | any window equals that slice of the whole file, zero past its end, so adjacent windows concatenate |
| `ElfCoreStreaming.StreamServesTheEagerFile` | src/os/linux/elf_core_stream.cpp:43-104 | the capped eager file equals the streamed one if and only if the cap covers all data |
| `KernelVa.PgdCache.constructor` | src/os/linux/kva_reader.cpp:27-30 | the static starts unset |
| `KernelVa.PgdCache.Resolve` | src/os/linux/kva_reader.cpp:27-67 | the first answer is kept for every later caller; it is this caller's init_mm table if and only if nothing or the same table was stored; a first caller gets the address that solves the image or direct-map equation for the pointer in init_mm's pgd field, 0 if there is none |
| `KernelVa.SecondEngine` | src/os/linux/kva_reader.cpp:27-67 | a second engine in the process gets its own table if and only if it equals the first one's (or the first one's is all ones, which reads as unset) |
| `SmallDumps.SecondDumpIsMisled` | src/os/linux/kva_reader.cpp:27-67 | two dumps opened in one process: the second is walked with the page table of the first |
| `KernelVa.KvaRead` | src/os/linux/kva_reader.cpp:71-115 | with the stored page table or, while none is, init_mm's own: succeeds if and only if some strategy has all bytes, returns those of the first such, and on failure leaves the last strategy's bytes in the buffer; a strategy's bytes are those at the address less the direct-map base, at the place where address and KASLR shift meet the start of the image modulo 2^64, or through a page table |
| `KernelVa.KvaTranslate` | src/os/linux/kva_reader.cpp:126-187 | reports the address and name of the first strategy under which the byte can be read: that address plus the direct-map base is the given one, or plus the start of the image equals it plus the KASLR shift modulo 2^64, or it is the page walk of it |
| `KernelVa.StrategiesByRange` | src/os/linux/kva_reader.cpp:74-112 | what is tried for an address, and in which order, range by range |
| `KernelVa.ImagePlaceUnique` | src/os/linux/kva_reader.cpp:20-22 | the equation for an image address has one solution |
| `SmallDumps.ShiftedImageIsRead` | src/os/linux/kva_reader.cpp:96-100 | a kernel loaded 8 MiB above its linked place: the byte of the image at 16 MiB is read at 24 MiB, not at 8 MiB |
| `KernelVa.TranslateIffReadable` | src/os/linux/kva_reader.cpp:126-187 | translation succeeds if and only if a one-byte read does, and the byte read is the one at the reported address |
| `KernVaStream.ViewInPage` | src/os/linux/kern_va_stream.cpp:30-41 | inside one page every strategy shows one contiguous window |
| `KernVaStream.WholePagesSuffice` | src/os/linux/kern_va_stream.cpp:30-41 | on a dump of whole pages with page-aligned maps that holds of every page |
| `KernVaStream.WindowsAgreeIff` | src/os/linux/kern_va_stream.cpp:30-41 | every window of a page is read through the strategy each of its bytes alone is read through if and only if the first strategy to show any of the page shows all of it |
| `KernVaStream.ChunkIsIdeal` | src/os/linux/kern_va_stream.cpp:32-41 | where it holds, any part of a page read at once gives each byte as if read alone |
| `KernVaStream.Read` | src/os/linux/kern_va_stream.cpp:10-44 | a window over such pages is a window of one fixed file, zero past the span; the length returned stops at the span |
| `KernVaStream.WholeDump` | src/os/linux/kern_va_stream.cpp:10-44 | on a dump of whole pages every window is such |
| `KernVaStream.PartialPageDependsOnWindow` | src/os/linux/kern_va_stream.cpp:37-40 | on a page partly in the dump a byte reads as itself alone and as zero in a longer read |
| `SmallDumps.WindowChangesByte` | src/os/linux/kern_va_stream.cpp:37-40 | a dump of one byte on which the byte reads as 7 alone and as 0 with its neighbour |
| `Sha256.Expand` | src/symbols/symbol_cache_http.cpp:27-35 | the array holds the standard's message schedule of the block |
| `Sha256.OneRound` | src/symbols/symbol_cache_http.cpp:47-56 | one iteration is one round of the standard |
| `Sha256Constants.RoundConstants` | src/symbols/symbol_cache_http.cpp:36-45 | each round constant is the first 32 bits of the fraction of the cube root of its prime |
| `Sha256Constants.InitialValue` | src/symbols/symbol_cache_http.cpp:22-23 | the initial words are those of the square roots of the first eight primes |
| `Sha256Constants.RotationExamples` | src/symbols/symbol_cache_http.cpp:25 | bits rotated out on the right come back on the left |
| `Sha256Constants.LengthExample` | src/symbols/symbol_cache_http.cpp:73-76 | the length 0x0102030405060708 is written as the bytes 1 to 8 |
| `Sha256.Sha256.constructor` | src/symbols/symbol_cache_http.cpp:22-24 | the initial state has absorbed the empty message |
| `Sha256.Sha256.Block` | src/symbols/symbol_cache_http.cpp:26-58 | compresses the buffer into the chaining value as section 6.2.2 of FIPS 180-4 does |
| `Sha256.Sha256.Update` | src/symbols/symbol_cache_http.cpp:59-68 | the state after it has absorbed exactly the old message and the new bytes |
| `Sha256.Sha256.HexFinal` | src/symbols/symbol_cache_http.cpp:69-81 | below 2^61 bytes the result is the FIPS 180-4 digest in hexadecimal, and the padding loop ends |
| `Sha256.Sha256.WriteLength` | src/symbols/symbol_cache_http.cpp:73-76 | appends the 64-bit length, most significant byte first |
| `Sha256.Sha256.Output` | src/symbols/symbol_cache_http.cpp:77-80 | stream formatting with width 8 and zero fill prints each word's eight digits |
| `Sha256.HashPieces` | src/symbols/symbol_cache_http.cpp:59-81 | a message hashed in any pieces has the digest of the whole |
| `Sha256.BannerCacheKey` | src/symbols/symbol_cache_http.cpp:87-90 | the cache key is the banner's SHA-256 |
| `KallsymsTokens.PlausibleTokenIndex` | src/symbols/kallsyms.cpp:62-77 | accepts exactly the 256 non-falling starts from zero, steps at most 40, last below 4096, at least 200 steps above one |
| `KallsymsTokens.IndicesAre` | src/symbols/kallsyms.cpp:62-77 | the starts are the little-endian 16-bit words of the window, one after another |
| `KallsymsTokens.FragmentChars` | src/symbols/kallsyms.cpp:169-172 | the characters counted are letters, digits, underscore, dot, dollar and space |
| `KallsymsTokens.ValidateTokenTable` | src/symbols/kallsyms.cpp:129-193 | returns the table of least accepted size before the index, with its tokens; none if and only if no size is accepted |
| `KallsymsTokens.JoinedLength` | src/symbols/kallsyms.cpp:183-191 | laid out with terminators the tokens take the table's bytes and one more for each token that shares its start with the next |
| `KallsymsTokens.TokensRoundTripIff` | src/symbols/kallsyms.cpp:183-191 | laying the tokens out with their terminators gives back the table if and only if no two tokens share a start |
| `KallsymsMarkers.WalkBack` | src/symbols/kallsyms.cpp:235-268 | the backward scan finds the only run of markers that ends the window, if there is one |
| `KallsymsMarkers.WindowIs` | src/symbols/kallsyms.cpp:219-230 | the window is the whole slots up to the last that begins below the table, at most the topmost 16 MiB |
| `KallsymsMarkers.FindMarkersWidth` | src/symbols/kallsyms.cpp:217-282 | returns markers if and only if a marker run exists at the place required, and then the only one |
| `KallsymsMarkers.FindMarkers` | src/symbols/kallsyms.cpp:285-300 | four-byte markers first; eight-byte ones only when there is no four-byte run; none if and only if neither exists |
| `KallsymsMarkers.MarkersReadBack` | src/symbols/kallsyms.cpp:270-281 | markers start at zero, strictly increase, read back word for word at the reported address, and end within one slot and alignment of the token table |
| `KallsymsNames.WalkBlock` | src/symbols/kallsyms.cpp:350-374 | counts the well-formed entries of a block up to the maximum and fails exactly on a malformed one |
| `KallsymsNames.WalkContinues` | src/symbols/kallsyms.cpp:350-374 | reading a and then b entries is reading a + b |
| `KallsymsNames.WalkInside` | src/symbols/kallsyms.cpp:350-374 | a walk that succeeds on part of a buffer succeeds in place with the same entries |
| `KallsymsNames.WalkInvertsEncoding` | src/symbols/kallsyms.cpp:626-640 | reading entries written with one- or two-byte lengths gives them back and uses exactly their bytes |
| `KallsymsNames.DecodeNames` | src/symbols/kallsyms.cpp:613-676 | one symbol for each entry walked: kind and name spell the entry's tokens, first byte first; a non-negative offset counts up from the base modulo 2^64, and a negative one, plus the address plus one, gives the base back |
| `KallsymsNames.DecodeInvertsEncoding` | src/symbols/kallsyms.cpp:613-676 | over an encoded list decoding yields every symbol and no other |
| `KallsymsNames.WrittenSymbolsRead` | src/symbols/kallsyms.cpp:613-676 | the round trip with the kernel's writer: a relative symbol, written as the base less one less its address, has its own address again, an absolute one the base added |
| `KallsymsNames.WalkBatches` | src/symbols/kallsyms.cpp:331-347 | batches of 256 that meet their markers compose: 256*i entries end exactly at marker i |
| `KallsymsNames.WalkWhole` | src/symbols/kallsyms.cpp:331-347 | with the last batch they make exactly 256*(M-1) + cnt entries and use every byte |
| `KallsymsAnchor.LocateCount` | src/symbols/kallsyms.cpp:419-430 | the nearest of the four places below the names that holds the count, address 0 excepted |
| `KallsymsAnchor.CheckFirstBatch` | src/symbols/kallsyms.cpp:402-417 | holds if and only if the first 256 entries use exactly the second marker's bytes, where that is checked |
| `KallsymsAnchor.TryAnchor` | src/symbols/kallsyms.cpp:388-442 | accepts a padding and batch size if and only if the anchor conditions hold, and returns the only anchor for them |
| `KallsymsAnchor.FindNamesAndCount` | src/symbols/kallsyms.cpp:318-446 | returns the anchor of the least accepted padding and size; none only if every pair is rejected |
| `KallsymsAnchor.AnchorSound` | src/symbols/kallsyms.cpp:396-436 | the count is positive, at most two million, needs exactly M markers, is the word stored at the reported place, and the names end where the markers less padding begin |
| `KallsymsAnchor.AnchoredNamesDecode` | src/symbols/kallsyms.cpp:613-676 | if the intermediate batches meet their markers, decoding an anchored list gives exactly the announced number of symbols from exactly the announced bytes |
| `KallsymsAnchor.KernelLayoutAnchors` | src/symbols/kallsyms.cpp:331-442 | the layout the kernel writes is never rejected at its own padding and size |
| `KallsymsAnchor.KernelLayoutBatches` | src/symbols/kallsyms.cpp:331-347 | and its batches meet its markers |
| `KallsymsAnchor.OwnCountFound` | src/symbols/kallsyms.cpp:388-442 | on that layout, if no other place looked at holds a possible count, any pair the search accepts has the kernel's count word and names that start within 12 bytes of its own |
| `ChunkedScan.Scan` | src/os/linux/kernel_resolver.cpp:35-52 | the chunk loop reports exactly what the chunks up to the end of memory report, and ends |
| `ChunkedScan.ScanExact` | src/os/linux/kernel_resolver.cpp:42-51 | for every memory, holes or not: a match is reported once for each chunk, its own and the one before, whose byte count reaches it, and nothing else is |
| `ChunkedScan.ReportedIff` | src/os/linux/kernel_resolver.cpp:42-51 | a match is reported at all if and only if its own chunk or the one before sees it |
| `ChunkedScan.SeesIffFewHoles` | src/os/linux/kernel_resolver.cpp:42-51 | a chunk sees a match if and only if no more bytes are missing from its window than follow the match |
| `ChunkedScan.WholeScan` | src/os/linux/kernel_resolver.cpp:42-51 | where no chunk's window misses a byte each match in reach is reported once, twice in the overlap with the chunk before |
| `ChunkedScan.WholeTries` | src/os/linux/kernel_resolver.cpp:42-51 | for that count at one match only its own chunk and the one before need be whole |
| `ChunkedScan.HoleFreeChunks` | src/os/linux/kernel_resolver.cpp:38-42 | a memory without holes is such for every scanner |
| `ChunkedScan.ScanSwapper` | src/os/linux/kernel_resolver.cpp:35-55 | in any memory the number of reports is as ScanExact says; over whole chunks every match that ends before the last byte exactly once |
| `ChunkedScan.ScanBanners` | src/os/linux/banner_scan.cpp:79-103 | in any memory as ScanExact says; over whole chunks exactly the banner matches, repeated only in the 19 offsets after a chunk boundary |
| `ChunkedScan.ScanTokenIndex` | src/symbols/kallsyms.cpp:84-115 | in any memory as ScanExact says; over whole chunks exactly the plausible even offsets, repeated only at chunk boundaries |
| `ChunkedScan.SignaturesAre` | src/os/linux/kernel_resolver.cpp:15-33 | the swapper signature is the text swapper/0 or swapper in 16 bytes with zeros behind, the banner is the text it starts with |
| `ChunkedScan.HoleHidesMatch` | src/os/linux/banner_scan.cpp:90-93 | a memory with one hole whose only banner is missed |
| `Btf.ReadMembers` | src/symbols/btf_to_isf.cpp:158-177 | reads the members if and only if all of them fit |
| `Btf.ReadEnums` | src/symbols/btf_to_isf.cpp:178-196 | reads the enumerators, 32 or 64 bits wide, if and only if all of them fit |
| `Btf.ReadExtra` | src/symbols/btf_to_isf.cpp:135-212 | the switch keeps each kind's fields and fails exactly when a tail that is looked at does not fit |
| `Btf.InfoFields` | src/symbols/btf_to_isf.cpp:74-76 | kind, vlen and kind flag read back from any info word, whatever its unused bits hold |
| `Btf.TailLength` | src/symbols/btf_to_isf.cpp:135-212 | the tail of every kind, written entry by entry, has the length the parser steps over |
| `Btf.StepAdvancesIff` | src/symbols/btf_to_isf.cpp:113-214 | the loop moves forward if and only if the 32-bit offset does not pass 2^32 |
| `Btf.StepGoesBack` | src/symbols/btf_to_isf.cpp:197-199 | a prototype at the end of the largest section sends the loop back to offset 7 |
| `Btf.ShortSectionsAdvance` | src/symbols/btf_to_isf.cpp:113-214 | in a section short enough for the largest tail no step wraps |
| `Btf.ParseTypes` | src/symbols/btf_to_isf.cpp:101-214 | void at id 0 and then the types of the section in order, up to the first that does not fit; while no step wraps it ends and reads nothing past the section; types written as the format says come back whole, and nothing else if they are all there is |
| `Btf.MembersReadBack` | src/symbols/btf_to_isf.cpp:158-177 | members packed with or without the kind flag read back |
| `Btf.EnumsReadBack` | src/symbols/btf_to_isf.cpp:178-196 | enumerators of both widths, signed, read back |
| `Btf.ParseInvertsEncoding` | src/symbols/btf_to_isf.cpp:101-214 | wherever the bytes of a list of types of all 19 kinds stand, parsing gives exactly that list and goes on behind it; what each kind writes comes from the format, not from the parser |
| `Btf.TypeIds` | src/symbols/btf_to_isf.cpp:99-106 | type i of the section has id i |
| `FieldNames.SuffixUnique` | src/symbols/btf_to_isf.cpp:373-380 | a suffixed name determines its number, whatever precedes it |
| `FieldNames.DecimalReads` | src/symbols/btf_to_isf.cpp:373-380 | the digits of a suffix read as its number |
| `BtfLayout.StripQualsIff` | src/symbols/btf_to_isf.cpp:238-247 | the result is the type under at most 32 qualifiers; every other chain, cycles included, gives void |
| `BtfLayout.TypeRef` | src/symbols/btf_to_isf.cpp:253-291 | a reference nests at most 34 levels, whatever the type graph |
| `BtfLayout.TypeRefComposes` | src/symbols/btf_to_isf.cpp:253-291 | for every chain that ends within 32 levels a pointer refers to what its target does, an array has that as its element, and a typedef changes nothing |
| `BtfLayout.TypeRefThroughQuals` | src/symbols/btf_to_isf.cpp:253-260 | qualifiers never change what a reference says |
| `BtfLayout.LeavesIff` | src/symbols/btf_to_isf.cpp:337-359 | the flattened members are exactly those reached through at most eight anonymous levels, at the sum of the bit offsets on the path |
| `BtfLayout.BitOffsetKeptIff` | src/symbols/btf_to_isf.cpp:361-372 | byte offset and bit position determine the bit offset if and only if the member is a bitfield or byte aligned |
| `BtfLayout.ReplacesIff` | src/symbols/btf_to_isf.cpp:373-381 | while nothing is lost yet, a member replaces an earlier field if and only if its name is in use and the suffixed name is an earlier member's own |
| `BtfLayout.NothingLostIff` | src/symbols/btf_to_isf.cpp:337-383 | there are as many fields as members if and only if no member does that |
| `BtfLayout.LastWriterWins` | src/symbols/btf_to_isf.cpp:373-381 | a field holds the layout of the last member stored under its name, whatever is lost elsewhere |
| `BtfLayout.KeptName` | src/symbols/btf_to_isf.cpp:373-381 | a member stored under its own name and not replaced is found there with its layout |
| `BtfLayout.PlainNameKept` | src/symbols/btf_to_isf.cpp:373-381 | the first member of a name that does not end in an underscore and digits is never replaced |
| `BtfLayout.UnclobberedNameKept` | src/symbols/btf_to_isf.cpp:373-381 | nor is any member that got its own name in a struct that loses nothing |
| `BtfLayout.SuffixOverwrites` | src/symbols/btf_to_isf.cpp:376-381 | x_2, x and x leave two fields: the suffix replaced a real member |
| `BtfSymbols.Fields.constructor` | src/symbols/btf_to_isf.cpp:410 | no fields yet |
| `BtfSymbols.Fields.Flatten` | src/symbols/btf_to_isf.cpp:337-383 | the recursion writes all leaves below the members, in order, into the one object |
| `BtfSymbols.BuildUserTypes` | src/symbols/btf_to_isf.cpp:387-418 | the named structs and unions with their flattened fields, repeats suffixed |
| `BtfSymbols.NoTypeLostIff` | src/symbols/btf_to_isf.cpp:402-414 | as many types are written as are named structs and unions if and only if no repeated name is suffixed to an earlier type's own name |
| `BtfSymbols.KeptTypeFound` | src/symbols/btf_to_isf.cpp:402-414 | a type written under its own name and not replaced is found there with all its fields |
| `BtfSymbols.PlainTypeKept` | src/symbols/btf_to_isf.cpp:402-414 | the first struct of a name that does not end in an underscore and digits is never replaced |
| `BtfSymbols.LoadedOffsetIff` | src/symbols/isf_symbols.cpp:73-79 | an offset survives loading if and only if it is below 2^31; any other keeps its low 32 bits and is sign-extended |
| `BtfSymbols.AddMissingKeeps` | src/symbols/isf_symbols.cpp:87-117 | the second flattening pass never changes a field that is there |
| `BtfSymbols.LayoutPreserved` | src/symbols/isf_symbols.cpp:147-153 | looking up a member that keeps its name in a struct that keeps its own gives the sum of the bit offsets on the member's path, in bytes, as loading keeps it |
| `BtfLookup.ResolvedIs` | src/symbols/btf_to_isf.cpp:79-119 | type id is the type written in that place: kind, name, size or type, kind flag, array element and count, and every member's name, type, bit offset and bit size |
| `BtfLookup.UnderIff` | src/symbols/btf_to_isf.cpp:238-247 | stripping qualifiers gives the type written under at most 32 types of kind volatile, const, restrict or type tag |
| `BtfLookup.LeafIff` | src/symbols/btf_to_isf.cpp:337-382 | the flattened members of a written struct are exactly the members at the ends of paths through unnamed members of unnamed structs, at the sum of the bit offsets written along the path |
| `BtfLookup.ConvertSection` | src/symbols/btf_to_isf.cpp:505-513 | parsing a section, resolving its names and flattening it: for a section written as the format says, each struct and member with plain names of their own is in the result, with the written kind and size, and the member at the byte and bit its path adds up to |
| `BtfLookup.PlacedIsFound` | src/symbols/isf_symbols.cpp:147-153 | looking such a member up in the loaded table gives the sum of the bit offsets written along its path, divided by 8 |
| `BtfLookup.WrittenLayoutFound` | src/symbols/btf_to_isf.cpp:101-418 | from bytes to look-up for any member that keeps its name in a struct that keeps its own: the look-up gives the sum of the bit offsets written along the path to it, divided by 8 |
| `BtfLookup.WrittenRef` | src/symbols/btf_to_isf.cpp:253-291 | what a reference to a written type says, kind by kind, one level at any depth |
| `MountTree.DentryToPath` | src/os/linux/dentry_path.cpp:86-134 | the path of the names met going up, hopping across mounts, under the guard of 256 |
| `MountTree.UpTheChain` | src/os/linux/dentry_path.cpp:96-124 | a walk inside one filesystem collects exactly the chain's names and goes on at the mountpoint |
| `MountTree.MountPathComposes` | src/os/linux/mountinfo.cpp:118-129 | a mount's global path is its parent's with the mountpoint's path inside the parent appended (alone below the root), while the walk stays under the guard |
| `MountNames.RootPathSpells` | src/os/linux/dentry_path.cpp:86-134 | under the root mount, splitting a path at its slashes gives the names of the dentries from the root's child down, if these are ordinary names |
| `MountNames.MountPathSpells` | src/os/linux/mountinfo.cpp:118-129 | splitting a mount's path gives its parent's components and then the names along the mountpoint's dentries |
| `MountWalk.WalkMountTree` | src/os/linux/mountinfo.cpp:79-146 | whatever ends the child lists (their head, null, an unreadable link or one to itself), the walk lists what they read as in preorder, and ends |
| `MountWalk.SpelledReads` | src/os/linux/mountinfo.cpp:132-145 | circular child lists under the depth limit are read whole |
| `MountWalk.SpellsUnique` | src/os/linux/mountinfo.cpp:132-145 | memory spells one tree below a mount |
| `MountWalk.PlaceUnique` | src/os/linux/mountinfo.cpp:132-145 | two places of the tree that hold one mount are one place |
| `MountWalk.EachMountOnce` | src/os/linux/mountinfo.cpp:79-146 | in well-formed lists, no head of which is another mount's link, the listing names every mount of the tree exactly once |
| `MountWalk.ListedPathsCompose` | src/os/linux/mountinfo.cpp:79-146 | in a forest under the guards the first entry is the root at "/" and every other entry's path is its listed parent's with its own place inside it appended |
| `MountWalk.EnumerateMounts` | src/os/linux/mountinfo.cpp:79-241 | the listing of a well-formed namespace: preorder, each mount once, every path composed |
| `DirNode.Node.constructor` | src/vfs/vfs.h:127 | an empty directory satisfies the invariant |
| `DirNode.Node.Add` | src/vfs/vfs.h:128-132 | keep-first: a repeated name or no child changes nothing, any other child is appended, names stay unique |
| `DirNode.Node.Find` | src/vfs/vfs.cpp:28-31 | the child of that name, none if and only if the name set lacks it |
| `DirNode.Node.EnsureDirChild` | src/vfs/vfs.cpp:33-48 | the directory of that name: found, or in place of the file of that name, or appended; names stay unique |
| `DirNode.Node.List` | src/vfs/vfs.cpp:22-27 | the children in order, no name twice |
| `DirNode.ReadDirectory` | src/mount/winfsp_mount.cpp:245-272 | a page is the longest run after the first entry matching the marker that fits; the end is reported exactly when nothing is left |
| `DirNode.EnumerateAll` | src/mount/winfsp_mount.cpp:245-272 | resuming each page from the last name emits every entry once, in order, and ends |
| `DirNode.EnumerateDirectory` | src/vfs/vfs.h:117-145 | a directory that keeps its invariant is listed completely whatever the page size |
| `DirNode.ResumeExactIff` | src/vfs/vfs.h:119-124 | resuming continues right after the marker for every entry if and only if no name occurs twice |
| `DirNode.PagingEndsIffDistinct` | src/vfs/vfs.h:119-124 | one-entry pages reach the end if and only if names are unique; a duplicate loops forever |
| `FsPath.CanonicalUnique` | src/app/engine.cpp:247-262 | two paths without empty components that split alike are equal |
| `FsPath.CanonicalFrom` | src/app/engine.cpp:247-262 | an absolute path is its components joined if and only if no slash is doubled or last |
| `FsPath.ComponentsOfJoin` | src/app/engine.cpp:247-262 | splitting undoes joining |
| `FsTree.EnsureAtStatus` | src/vfs/vfs.cpp:33-48 | what making a directory child changes at every path of the tree, and what it leaves |
| `FsTree.AddAtStatus` | src/vfs/vfs.h:128-132 | what adding a file changes at every path, and what it leaves |
| `FsTree.MakeDirsStatus` | src/app/engine.cpp:240-264 | walking or creating a chain makes each ancestor a directory, drops files in the way, and leaves all else |
| `FsBuilder.AcceptedPath` | src/app/engine.cpp:427-443 | an accepted inode sits at its path's components, every one accepted on its own, so no directory is refused later |
| `FsBuilder.NeverShown` | src/app/engine.cpp:265-284 | inodes of pseudo filesystems, without an absolute path, with one over 4096 long, or at /root, /systemd and below are never accepted |
| `FsBuilder.PlainPathStays` | src/app/engine.cpp:280-285 | outside /root and /systemd a path stays as it is |
| `FsBuilder.PlainAccepted` | src/app/engine.cpp:419-443 | an inode of any other filesystem at a safe path that is not rewritten is accepted under that path |
| `FsBuilder.RootPathMoves` | src/app/engine.cpp:285-314 | below /root runtime directories are hidden, system directories lose the prefix, the rest stays |
| `FsBuilder.KindsByMode` | src/app/engine.cpp:397-400 | regular files, directories and symlinks by the type bits of the mode |
| `FsBuilder.BestIsFirstMaximal` | src/app/engine.cpp:379-390 | the candidate kept for a key is the first of its regular inodes that no other beats |
| `FsBuilder.BetterIsWeakOrder` | src/app/engine.cpp:383-389 | the comparison is a strict weak order |
| `FsBuilder.BetterOutdoes` | src/app/engine.cpp:379-390 | one inode beats another if and only if, at the first of these at which they differ, it has more: copied pages, nonzero bytes, copied bytes, fewer dropped pages, a sane size, a real path, cached pages |
| `FsBuilder.GetOrMakeDir` | src/app/engine.cpp:240-264 | the loop over a path makes exactly its chain of directories, or refuses at an unsafe component |
| `FsBuilder.PassOne` | src/app/engine.cpp:395-483 | after the first loop every path shows a directory, the first symlink or nothing as accepted entries demand, and the map holds each key's best candidate |
| `FsBuilder.PassTwo` | src/app/engine.cpp:484-517 | for whatever order the hash map gives, the candidates are added in that order |
| `FsBuilder.TreeIsExpected` | src/app/engine.cpp:484-517 | without empty components every order gives the same status at every path |
| `FsBuilder.BuildFs` | src/app/engine.cpp:395-517 | without empty components: a directory where an accepted directory or an ancestor of an accepted path is, else the first symlink, else the first best regular inode, else nothing; in general one of the best candidates; without empty components a regular inode shown at a path is outdone by no accepted regular inode there in recovery statistics and fields, and outdoes those before it |
| `FsOrder.OrderIndependentIff` | src/app/engine.cpp:484-517 | all iteration orders show the same at every path if and only if no two keys with different inodes share a path left free by the first pass |
| `FsOrder.InodeOnce` | src/app/engine.cpp:427-483 | the candidate map holds an inode under one key only |
| `FsOrder.DoubledSlashCollides` | src/app/engine.cpp:395-517 | inodes "/d//f" and "/d/f": whatever the first pass leaves, what /fs shows at the path depends on the order |
| `FsOrder.ListingIndependentIff` | src/app/engine.cpp:484-517 | all iteration orders give the same tree, listings included, if and only if no directory gets two new files other than one inode under two spellings |
| `FsOrder.MapOrderMattersIff` | src/app/engine.cpp:395-517 | in every state the first loop can leave: paths show the same for all orders if and only if no two candidates have one free path, listings too if and only if no two are new files of one directory |
| `FsOrder.TwoFilesReorder` | src/app/engine.cpp:395-517 | inodes "/a" and "/b": every path shows the same for all orders, the listing does not |
| `FsTree.AddsCommute` | src/vfs/vfs.h:128-132 | files added to two different directories, nested or not, give one tree in either order |
| `ForensicWarmer.Warmer.constructor` | src/vfs/forensic_warmer.cpp:107-125 | no targets yet |
| `ForensicWarmer.Warmer.Collect` | src/vfs/forensic_warmer.cpp:18-65 | appends exactly the files the policy selects, in listing order, heaviness inherited from any ancestor |
| `ForensicWarmer.Warmer.Launch` | src/vfs/forensic_warmer.cpp:127-157 | targets become the stable cost order, small memory before large and cheap before expensive; at least one and at most as many workers as targets |
| `ForensicWarmer.StableSortedIs` | src/vfs/forensic_warmer.cpp:136-144 | that order is an ascending permutation in which files of one rank keep their order |
| `ForensicWarmer.StableSortedOrder` | src/vfs/forensic_warmer.cpp:133-144 | spelled out by cost: no file comes after one of larger memory, nor, for equal memory, after an expensive one it is cheaper than, and each of the four classes keeps its order |
| `ForensicWarmer.StableSortUnique` | src/vfs/forensic_warmer.cpp:143-144 | and it is the only one: any stable sort by rank gives it |
| `WarmerRuns.InitInv` | src/vfs/forensic_warmer.cpp:153-156 | the launched pool satisfies the invariant |
| `WarmerRuns.WorkerKeepsInv` | src/vfs/forensic_warmer.cpp:67-105 | every operation of every worker keeps it |
| `WarmerRuns.JoinKeepsInv` | src/vfs/forensic_warmer.cpp:159-166 | and so does every operation of join |
| `WarmerRuns.RunsKeepInv` | src/vfs/forensic_warmer.cpp:67-105 | so it holds in every reachable state, for any number of workers |
| `WarmerRuns.ClaimsAreExclusive` | src/vfs/forensic_warmer.cpp:69-70 | no two workers ever hold one target |
| `WarmerRuns.LastWorkerSeesAll` | src/vfs/forensic_warmer.cpp:90-91 | the worker that takes the count from one to zero finds all targets warmed and counted, and no other worker active |
| `WarmerRuns.LoggedAtMostOnce` | src/vfs/forensic_warmer.cpp:94-105 | the completion line is logged at most once, and with the full count, even against join |
| `WarmerRuns.WorkerStepsEnd` | src/vfs/forensic_warmer.cpp:67-92 | every worker operation lowers a measure, so the pool ends |
| `WarmerRuns.FinishedMeansAll` | src/vfs/forensic_warmer.cpp:88-105 | when all workers are done every target is warmed and exactly one line is logged |

## Left out

- LimeFormat.Read: assumes a sorted table and no address at 2^64, which the loader guarantees but for the wrapped header described above.
- KdumpFormat.Read: ranges and windows that reach 2^64, where the cursor wraps, are excluded.
- AvmlFormat.Read: assumes a table in address order, frames that fit the cache (`AvmlLoad.LoadedTableReadable` derives both for files whose chunks do not overshoot) and frames and windows below 2^64; on other tables the search is undefined.
- AvmlLoad.OpenAndRead: files whose chunks overshoot are excluded; nothing in the parser checks the order of chunks.
- AvmlLoad.LoadChunks: the failure cases are not told apart by message, and file offsets are unbounded integers.
- ElfCoreStreaming.ElfCoreStream.Read: the window may not pass 2^64.
- Btf.ParseTypes: assumes that no step wraps the 32-bit offset (`Btf.StepAdvancesIff` is the exact condition); where one does, the loop need not end.
- BtfSymbols.LayoutPreserved: the second flattening pass of the loader is any list of additions; what it adds for symbol files of other producers is not modelled.
- BtfLayout.TypeRef: its own contract states only the depth; what it says of each kind is in `BtfLookup.WrittenRef`, one level at a time, and in `BtfLayout.TypeRefComposes` for chains within 32 levels; past them a reference is cut off at void.
- FsBuilder.BuildFs: the tree is a value rather than linked nodes, so sharing of subdirectories between pointers is not captured; `/files/by-ino`, counters and file contents are left out, and a symlink is its inode.
- MountWalk.WalkMountTree: child lists that never end, on which the loop runs forever, are excluded; of a mount only its address, parent and path are kept.
- MountTree.MountPathComposes: past the guard of 256 steps the outermost components are dropped; every mount is taken to be rooted at its filesystem's root.
- DirNode.EnumerateDirectory: the conversion to UTF-16 is taken to be injective and every entry to fit a page; names over 512 wide characters are not modelled.
- KallsymsAnchor.FindNamesAndCount: takes at most the number of markers, and values below 64 MiB, that `FindMarkers` returns, so its 32-bit sums do not wrap.
- ForensicWarmer.Warmer.Collect: a missing node and nodes that are neither file nor directory are not modelled, and `warmable` is an attribute of the file.
- WarmerRuns.RunsKeepInv: operations are sequentially consistent; warming one node is atomic; the byte and oversize counters are left out.
- KernVaStream.Read: of a page whose first strategy shows only part of it no contents are promised for a window; they are what `KernelVa.KvaRead` gives for each page of it.
- KernelVa.KvaRead: the strategies' log lines and the lock-free publication of the cached page table are left out; two threads that race to resolve it store the same value.
- CacheRuns.RunsAreCorrect: one page table, a budget of at least one page; lifetimes of shared pages are left out.
- The lock of AVML's frame cache: its calls are taken one at a time.
- Load-once file nodes: the unlocked `LazyFileNode::warm` is not claimed to run its producer at most once.
- `find_offsets`, ranking of candidates and kernel-version heuristics: searches without a sharp specification.
- Names in BTF are resolved through a given function from string offsets; enumerations and base types of the symbol file are left out.
- Parsing of kdump ELF headers and notes, memory mapping, HTTP, xz and Snappy.
- Report writers, process and file plugins, mounting other than paged listing, and logging.
