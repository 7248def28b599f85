# willowOS kernel cores in Dafny

A model of the parts of the willowOS kernel that carry its hardest promises, with proofs that the
code keeps them, or of exactly when it does.

- **Substring search.** `strstr` picks one of five algorithms by needle length. All of them return
  the leftmost occurrence: `Periods`, `MaximalSuffix` and `TwoWay` prove the critical
  factorization theorem and that no shift of the Two-Way search skips an occurrence; `StrStr` adds
  the rolling hashes, the hashed Quick-Search table and the lazily discovered haystack length.
  `WordScan` shows that the word-at-a-time functions equal their definitions by bytes, and
  `Tokenizer` that `strtok_r` cuts a string into its maximal tokens.
- **Frames and paging.** `Frames` accounts for every physical frame over every run. `PageTables`
  gives each table frame one place, from which `Paging`, `AddressSpaces` and `MapRanges` derive that
  the tables of all spaces refine a flat map from pages to frames, and that spaces are isolated.
  The walk is that of section 4.5 of the Intel SDM, volume 3A, with its large pages and the
  reserved bits of its entries, and permissions are followed at all four levels. A frame has one
  content, table entries or bytes; a store of the other kind wipes it, so that data and tables keep
  apart is proved. `Mmu` holds the code that walks and writes the tables in place; `Ledger` the
  record of mappings kept per thread. `Tracking` follows both over every run and `Exit` ties them at
  thread exit.
- **Threads.** `Scheduler` ties the doubly linked ring of heap objects to a state machine of push,
  reschedule and exit with an explicit thread on the CPU.
- **Program start.** `Elf` says what every byte of a space holds after `load_elf`, through page
  tables and fresh frames; `InitialStack` that a program reads back its arguments.
- **Smaller cores.** `Heap` is first-fit `kmalloc`; `Ustar` the archive walk.

`Options`, `Bytes` and `CStrings` hold what the others share. Arithmetic is unbounded; wrap-around
is modelled where the code depends on it (bit tricks and rolling hashes on bit vectors, `SIZE_MAX`
as -1, `int` range in `Ustar`). Verify the whole project with `dafny verify dfyconfig.toml`.

## Where the code does not keep a promise

Each comes with an input, or a whole family of them, and with the exact condition.

- `free_frame` loops for ever on a frame that starts where an earlier region ends, although its
  comment expects it to work: `Frames.FreeSpins`, `Frames.FreeReturnsIff`.
- An upper-half page whose PML4 entry is made after a second space exists is seen by one space
  only: `Paging.UpperMapNotShared`, `Paging.UpperMapSharedIff`.
- `change_page_map` given bit 7 sets a reserved bit in the PML4 entry, so that the 512 GiB around the
  page fault: `PageTables.AddFlagsKeepsIff`.
- `unmap_page` at address 0 may take an unused ledger slot and miscount, and the exit loop may
  leave a mapping of 0 recorded: `Ledger.ForgetZeroMiscounts`, `Ledger.ForgetKeepsIff`,
  `Ledger.DrainLeavesZero`, `Ledger.DrainedIff`.
- `kmalloc` returns an address below its block once its probe has skipped a free node:
  `Heap.AddressWrongAfterSkip`, `Heap.IndexRightIff`.
- `load_elf` maps a page that two segments share a second time, so the earlier bytes are lost:
  `Elf.SharedPageLoses`, `Elf.KeepsByteIff`.
- `tar_lookup` finds neither a name that fills its 100-byte field nor a path name that is split into
  prefix and name: `Ustar.LongNameNotFound`, `Ustar.PrefixedNotFound`, `Ustar.FoundByNameIff`.

## Model

| member | source | states |
|---|---|---|
| `Periods.Period` | limine-c-template-x86-64/kernel/src/str-two-way.h:72-74 | the global period: the smallest distance, possibly the whole length, at which the rest repeats the word; nothing shorter is a period |
| `Periods.LocalPeriod` | limine-c-template-x86-64/kernel/src/str-two-way.h:76-80 | the local period at a cut: the shortest word that shares a suffix with the left and a prefix with the right half; always between 1 and the length |
| `Periods.RepetitionIsMultiple` | limine-c-template-x86-64/kernel/src/str-two-way.h:82-84 | at a critical cut left of the period, every repetition that fits on the right is a multiple of the global period, which is why shifts by periods are safe |
| `Periods.PeriodicNeedle` | limine-c-template-x86-64/kernel/src/str-two-way.h:212-218 | if the left half recurs one right-period later, that period is the global period, so the branch with memory may use it |
| `Periods.DistinctHalves` | limine-c-template-x86-64/kernel/src/str-two-way.h:249-253 | otherwise the global period exceeds both halves, so the shift to the longer half plus one is safe |
| `MaximalSuffix.ScanMaximalSuffix` | limine-c-template-x86-64/kernel/src/str-two-way.h:111-178 | each of the two scans ends in bounds at the lexicographically largest suffix, for the byte order or its reverse, with the least period of that suffix |
| `MaximalSuffix.StretchSettled` | limine-c-template-x86-64/kernel/src/str-two-way.h:102-109 | the invariant of the scan: every suffix inside the scanned stretch has lost already or only ties with the start of the stretch |
| `MaximalSuffix.RestartBeatsAll` | limine-c-template-x86-64/kernel/src/str-two-way.h:137-142 | when a larger byte turns up, all suffixes seen so far lose to the one starting there, so restarting drops no candidate |
| `MaximalSuffix.LongerBlockDominates` | limine-c-template-x86-64/kernel/src/str-two-way.h:119-125 | when a smaller byte turns up, the whole stretch becomes the new period and still dominates its own suffixes |
| `MaximalSuffix.RepetitionOverhangsLeft` | limine-c-template-x86-64/kernel/src/str-two-way.h:86-90 | a local repetition at a maximal suffix is longer than the left half |
| `MaximalSuffix.LaterMaximalSuffixIsCritical` | limine-c-template-x86-64/kernel/src/str-two-way.h:82-90 | the critical factorization theorem: of the maximal suffixes for an order and its reverse, the later cut is critical and lies left of the global period |
| `MaximalSuffix.CriticalFactorization` | limine-c-template-x86-64/kernel/src/str-two-way.h:91-186 | for every non-empty needle: the cut is critical, less than the global period, and the period returned is the smallest period of the right half |
| `TwoWay.MismatchShift` | limine-c-template-x86-64/kernel/src/str-two-way.h:242-246 | after a mismatch at i in the right half no occurrence starts in the i - suffix places skipped |
| `TwoWay.PeriodShift` | limine-c-template-x86-64/kernel/src/str-two-way.h:237-240 | after a mismatch in the left half no occurrence starts before one global period further on |
| `TwoWay.RememberedPrefix` | limine-c-template-x86-64/kernel/src/str-two-way.h:237-240 | after a period shift the needle_len - period bytes that memory stands for do match |
| `TwoWay.MemoryShift` | limine-c-template-x86-64/kernel/src/str-two-way.h:331-342 | with memory set and a bad last byte, the jump by needle_len - period skips no occurrence |
| `TwoWay.BadByteShift` | limine-c-template-x86-64/kernel/src/str-two-way.h:328-343 | the shift of the bad-byte table skips no occurrence |
| `TwoWay.ShiftTable` | limine-c-template-x86-64/kernel/src/str-two-way.h:307-314 | every entry is the distance of the last place of its byte from the end of the needle, or the length if the byte does not occur |
| `TwoWay.Available` | limine-c-template-x86-64/kernel/src/string.c:2004-2005 | true exactly if the haystack really has the bytes, although its length is only known in part; the known length never passes the NUL |
| `TwoWay.ScanRight` | limine-c-template-x86-64/kernel/src/str-two-way.h:223-227 | finds the first mismatch of the right half, or that all of it matches, given what memory vouches for |
| `TwoWay.ScanLeft` | limine-c-template-x86-64/kernel/src/str-two-way.h:230-236 | decides whether the needle occurs here |
| `TwoWay.TwoWayShortNeedle` | limine-c-template-x86-64/kernel/src/str-two-way.h:198-278 | returns the leftmost occurrence, and NULL exactly if there is none |
| `TwoWay.TwoWayLongNeedle` | limine-c-template-x86-64/kernel/src/str-two-way.h:292-410 | returns the leftmost occurrence, and NULL exactly if there is none |
| `StrStr.RollHash2` | limine-c-template-x86-64/kernel/src/string.c:2012-2021 | the two-byte hash identifies its bytes and rolls by one shift |
| `StrStr.RollHash3` | limine-c-template-x86-64/kernel/src/string.c:2023-2032 | the three-byte hash identifies its bytes and rolls by one shift |
| `StrStr.RollHash4` | limine-c-template-x86-64/kernel/src/string.c:2034-2043 | the four-byte hash identifies its bytes and rolls by one shift |
| `StrStr.StrStr2` | limine-c-template-x86-64/kernel/src/string.c:2012-2021 | leftmost occurrence for two-byte needles, NULL exactly if there is none |
| `StrStr.StrStr3` | limine-c-template-x86-64/kernel/src/string.c:2023-2032 | leftmost occurrence for three-byte needles, NULL exactly if there is none |
| `StrStr.StrStr4` | limine-c-template-x86-64/kernel/src/string.c:2034-2043 | leftmost occurrence for four-byte needles, NULL exactly if there is none |
| `StrStr.SlotTable` | limine-c-template-x86-64/kernel/src/string.c:2087-2090 | no byte of the needle hashed to a slot is missed by its shift, and every shift fits in a byte |
| `StrStr.SkipBySlot` | limine-c-template-x86-64/kernel/src/string.c:2096-2103 | the shift by the hashed byte after the window skips no occurrence, although different bytes share a slot |
| `StrStr.QuickSearch` | limine-c-template-x86-64/kernel/src/string.c:2081-2111 | leftmost occurrence for needles up to 254 bytes; no byte past the NUL is read and extending the end by 2048 bytes never gives up early |
| `StrStr.StrStr` | limine-c-template-x86-64/kernel/src/string.c:2055-2115 | for every haystack and needle, in all length classes, the leftmost occurrence (section 7.24.5.7 of C11), NULL exactly if there is none |
| `CStrings.StrNLen` | limine-c-template-x86-64/kernel/src/string.c:1748-1758 | the distance to the NUL, at most n, without reading further |
| `CStrings.MemCmp` | limine-c-template-x86-64/kernel/src/main.c:157-168 | zero exactly for equal bytes, otherwise the sign of the first difference |
| `WordScan.ZeroByteTest` | limine-c-template-x86-64/kernel/src/string.c:7-11 | the zero-byte test is non-zero exactly if one of the eight bytes is zero |
| `WordScan.MatchByteTest` | limine-c-template-x86-64/kernel/src/string.c:18-24 | xored with a repeated byte the test is non-zero exactly if the word holds that byte |
| `WordScan.SameWordSameBytes` | limine-c-template-x86-64/kernel/src/string.c:1560-1582 | equal words hold equal bytes in order |
| `WordScan.StrLen` | limine-c-template-x86-64/kernel/src/string.c:1341-1372 | the distance to the NUL, for every alignment |
| `WordScan.MemChr` | limine-c-template-x86-64/kernel/src/string.c:13-29 | the first place of the byte among the n, None exactly if there is none; bytes after its word need not be readable |
| `WordScan.StrChrNul` | limine-c-template-x86-64/kernel/src/string.c:328-344 | the first place of the byte in the string, or its NUL, although the word loop starts at a multiple of 7 |
| `WordScan.StrChr` | limine-c-template-x86-64/kernel/src/string.c:346-350 | the first place of the byte including the NUL, None exactly if there is none |
| `WordScan.CompareWords` | limine-c-template-x86-64/kernel/src/string.c:1560-1582 | the word loop stops with equal NUL-free bytes behind it, or knows that the strings compare equal |
| `WordScan.StrNCmp` | limine-c-template-x86-64/kernel/src/string.c:1535-1595 | the difference at the first place, before n and up to a NUL, where the bytes differ, else 0 |
| `WordScan.CopyWords` | limine-c-template-x86-64/kernel/src/string.c:1657-1714 | the word loop copies NUL-free bytes and changes nothing else |
| `WordScan.StrNCpy` | limine-c-template-x86-64/kernel/src/string.c:1657-1714 | the source up to its NUL, then NULs up to count, and no other byte of memory changes; only the bytes copied must lie apart from the destination |
| `Tokenizer.StartsAreTokens` | limine-c-template-x86-64/kernel/src/string.c:2220-2260 | the starts listed are exactly those of the maximal non-empty delimiter-free substrings |
| `Tokenizer.StartsInOrder` | limine-c-template-x86-64/kernel/src/string.c:2220-2260 | the starts come in increasing order, none twice |
| `Tokenizer.NextStart` | limine-c-template-x86-64/kernel/src/string.c:2232-2258 | skipping delimiters from where a call left off reaches the next token and nothing is lost after its end |
| `Tokenizer.StrTokR` | limine-c-template-x86-64/kernel/src/string.c:2220-2260 | one call: the next token of the original string, where the next call goes on, and at most the delimiter ending the token overwritten |
| `Tokenizer.TokenizeAll` | limine-c-template-x86-64/kernel/src/string.c:2220-2260 | calls until NULL yield all tokens in order (section 7.24.5.8 of C11) and only delimiters that end tokens have become NUL |
| `Tokenizer.TokenReadsBack` | limine-c-template-x86-64/kernel/src/string.c:2243-2256 | in the cut buffer the C string at the start of a token is that token |
| `Frames.FirstFreeIsFree` | limine-c-template-x86-64/kernel/src/paging.c:18-30 | the nested search finds the first unmarked usable frame in its order, or there is none from there on |
| `Frames.AllocTakesFree` | limine-c-template-x86-64/kernel/src/paging.c:15-33 | takes a frame that was free and marks nothing else; fails, changing nothing, exactly if no usable frame is free |
| `Frames.FreeWalkEnds` | limine-c-template-x86-64/kernel/src/paging.c:138-160 | on a frame of region t the walk ends, and at t, exactly if no earlier region ends at that address |
| `Frames.FreeReturnsIff` | limine-c-template-x86-64/kernel/src/paging.c:138-160 | on a marked frame free_frame returns exactly if no earlier region ends where the frame starts |
| `Frames.FreeSpins` | limine-c-template-x86-64/kernel/src/paging.c:150-152 | two adjacent regions: freeing the first frame of the second never returns |
| `Frames.ReleaseFrees` | limine-c-template-x86-64/kernel/src/paging.c:126-162 | where the walk ends, exactly that frame becomes free |
| `Frames.StepAccounted` | limine-c-template-x86-64/kernel/src/paging.c:15-162 | alloc_frame never returns a frame in use; each step keeps the marks equal to the frames handed out |
| `Frames.RunAccounted` | limine-c-template-x86-64/kernel/src/paging.c:15-162 | over every run of alloc_frame and free_frame the marked frames are exactly allocated minus freed; a run asks only that frames given back are out and do not start where an earlier region ends |
| `Frames.RunReturns` | limine-c-template-x86-64/kernel/src/paging.c:138-160 | every free_frame of such a run returns |
| `Frames.FrameAllocator.AllocFrame` | limine-c-template-x86-64/kernel/src/paging.c:15-33 | the loop takes the first free frame and leaves all other marks |
| `Frames.FrameAllocator.FreeFrame` | limine-c-template-x86-64/kernel/src/paging.c:126-162 | the walk clears the mark of that frame only |
| `PageTables.SamePage` | limine-c-template-x86-64/kernel/src/paging.c:221-224 | two addresses share all four table indices exactly if they agree on bits 12-47 |
| `PageTables.VirtToPhysTranslates` | limine-c-template-x86-64/kernel/src/paging.c:442-465 | on a 4 KiB page virt_to_phys is the frame the walk finds plus the page offset |
| `PageTables.LookupElsewhere` | limine-c-template-x86-64/kernel/src/paging.c:218-257 | no table frame is reached twice: a write off the walk of an address leaves its walk alone |
| `PageTables.LookupLinkFresh` | limine-c-template-x86-64/kernel/src/paging.c:232-236 | linking a new empty table maps and unmaps nothing, in any space |
| `PageTables.LeafWrite` | limine-c-template-x86-64/kernel/src/paging.c:254-256 | writing a leaf entry changes exactly the walks of that page, in its space or, above, in all, and keeps the placing of tables |
| `PageTables.UpperTranslatesAlike` | limine-c-template-x86-64/kernel/src/scheduler.c:189-191 | spaces that share the top entries translate every upper-half address alike |
| `PageTables.UpperCopyPlaced` | limine-c-template-x86-64/kernel/src/scheduler.c:182-197 | a new top table has the upper entries of the copied one, flags included, and zeros below; all tables stay placed once and the upper half shared |
| `PageTables.AddFlagsKeeps` | limine-c-template-x86-64/kernel/src/paging.c:407-440 | on a 4 KiB page, without the page-size bit, keeps every translation of every space while the four entries of the page, and no other entry, get the bits, although upper entries are shared |
| `PageTables.AddFlagsExactly` | limine-c-template-x86-64/kernel/src/paging.c:421-437 | the four entries on the walk of the page get the bits or-ed in and keep their base; every other entry of every frame and every data frame is as before |
| `PageTables.AddFlagsKeepsIff` | limine-c-template-x86-64/kernel/src/paging.c:407-440 | on a 4 KiB page every translation of every space is kept exactly if the permissions lack bit 7; with it every walk through the level-4 entry of the page, 512 GiB, faults at a reserved bit |
| `PageTables.LookupOutside` | limine-c-template-x86-64/kernel/src/paging.c:218-257 | whatever is put into a frame that is no table changes no walk |
| `Paging.EnsureTableKeeps` | limine-c-template-x86-64/kernel/src/paging.c:231-252 | a level of the walk that is missing is made from a free frame, by an entry with exactly the permissions given, and is empty; a level that is there keeps its entry; no other entry, no translation, no frame in use that is no table, and no root changes |
| `Paging.EnsureTableShares` | limine-c-template-x86-64/kernel/src/paging.c:231-236 | a table made below the top, in the lower half or in the only space leaves the upper half shared |
| `Paging.MapPageMaps` | limine-c-template-x86-64/kernel/src/paging.c:218-257 | after map_page the page translates to the frame and every other address of every space as before, even when three tables are made; data frames keep what they hold, and the entries are as MapPageWalk says |
| `Paging.MapPageWalk` | limine-c-template-x86-64/kernel/src/paging.c:231-256 | the leaf entry is the frame with the permissions; at each level above, an entry that the walk found is as before and one that was missing has exactly the permissions; no table slot off the walk changes and new tables are otherwise empty, also where the map cannot be shared |
| `Paging.NewWalkHas` | limine-c-template-x86-64/kernel/src/paging.c:231-256 | where even the table below the top is new, all four entries of the walk have exactly the permissions |
| `Paging.SetLeafSets` | limine-c-template-x86-64/kernel/src/paging.c:332-355 | rewriting a leaf entry maps or unmaps exactly that page and changes no other entry and no other frame |
| `Paging.UpperMapSharedIff` | limine-c-template-x86-64/kernel/src/paging.c:218-257 | an upper-half page is seen by every space exactly if its top entry was there or there is no other space |
| `Paging.UpperMapNotShared` | limine-c-template-x86-64/kernel/src/paging.c:218-257 | two spaces and the first page of the heap: one sees it, the other does not |
| `Paging.NewSpaceAdds` | limine-c-template-x86-64/kernel/src/scheduler.c:182-197 | a new space maps nothing below, has the upper entries of the kernel, flags included, and disturbs no space and no other frame |
| `Paging.DropSpaceDrops` | limine-c-template-x86-64/kernel/src/scheduler.c:498-498 | giving back a top table drops that space and no other, changes no translation of another space, and frees exactly one frame |
| `AddressSpaces.FlatOf` | limine-c-template-x86-64/kernel/src/paging.c:218-257 | every valid system, large pages included, has a flat map that it represents |
| `AddressSpaces.ClearedRepresents` | limine-c-template-x86-64/kernel/src/paging.c:20-26 | runs have a start: a frame cleared as alloc_frame does, used as the only top table, is valid and translates nothing |
| `AddressSpaces.StepValid` | limine-c-template-x86-64/kernel/src/paging.c:218-440 | map, unmap, change, new space and drop keep every table in one place and the upper half shared |
| `AddressSpaces.StepRefines` | limine-c-template-x86-64/kernel/src/paging.c:218-440 | each of them does to the page tables what it does to a flat map from pages to frames |
| `AddressSpaces.RunRefines` | limine-c-template-x86-64/kernel/src/paging.c:218-440 | after every run the system is valid and all spaces translate exactly as the flat map |
| `AddressSpaces.RunIsolates` | limine-c-template-x86-64/kernel/src/scheduler.c:182-197 | from any valid system, a run that leaves the lower half of a space alone, but may drop other spaces and build new ones in their frames, changes none of its lower translations, all spaces agree on the upper half, and a run of lower-half operations in other spaces changes no translation of it at all |
| `AddressSpaces.KernelMapsThenShares` | limine-c-template-x86-64/kernel/src/vmm.c:33-60 | from a single cleared top table the upper half can be filled, and a space built then sees it |
| `MapRanges.PageCountCovers` | limine-c-template-x86-64/kernel/src/paging.c:300-325 | a page is visited exactly if it holds a byte of the range, for any misalignment |
| `MapRanges.DistinctPages` | limine-c-template-x86-64/kernel/src/paging.c:310-325 | no page is visited twice |
| `MapRanges.MapPagesMaps` | limine-c-template-x86-64/kernel/src/paging.c:293-330 | after n turns the first n pages, and no other, are mapped to pairwise distinct, previously free, zeroed frames that are no tables; all other translations and data frames are kept; table entries that were missing are made with exactly the permissions, those present stay, and no slot off the walks of these pages changes |
| `MapRanges.EnoughFrames` | limine-c-template-x86-64/kernel/src/paging.c:293-330 | four free frames per page are always enough for every turn to succeed, where no large page is in the way and upper top entries are shared |
| `MapRanges.AddFlagsRange` | limine-c-template-x86-64/kernel/src/paging.c:377-405 | keeps every translation of every space while the entries on the walks of the pages of the range, and no others, get the bits or-ed in |
| `MapRanges.RangeCovers` | limine-c-template-x86-64/kernel/src/paging.c:293-330 | every address of the range lies on one of the pages |
| `Mmu.EntrySplits` | limine-c-template-x86-64/kernel/src/paging.c:232-256 | an entry made from an aligned frame and low permission bits gives both back |
| `Mmu.Mmu.NextTable` | limine-c-template-x86-64/kernel/src/paging.c:231-236 | reads or makes the table below an entry: a present entry stays, a missing one gets exactly the permissions and leads to an empty table in a free frame |
| `Mmu.Mmu.MapPage` | limine-c-template-x86-64/kernel/src/paging.c:218-257 | the four-level walk makes missing entries with exactly the permissions, keeps the others and every slot off the walk, and, where the map can be shared, maps exactly that page |
| `Mmu.Mmu.UnmapPage` | limine-c-template-x86-64/kernel/src/paging.c:332-355 | unmaps exactly that page, leaves every other entry, every other translation and every data frame |
| `Mmu.Mmu.ChangePageMap` | limine-c-template-x86-64/kernel/src/paging.c:407-440 | the four writes back keep every translation and put the bits on the four entries of the walk and nowhere else |
| `Mmu.Mmu.ChangePageMapRange` | limine-c-template-x86-64/kernel/src/paging.c:377-405 | 22 (EINVAL) without change for size 0; otherwise the entries on the walks of the pages meeting the range, and no others, get the bits, and no translation changes |
| `Mmu.Mmu.CountPages` | limine-c-template-x86-64/kernel/src/paging.c:300-325 | the count is the number of pages that hold a byte of the range |
| `Mmu.Mmu.MapRange` | limine-c-template-x86-64/kernel/src/paging.c:293-330 | 22 (EINVAL) without change for size 0; otherwise backs exactly the pages of the range, one fresh zeroed frame that is no table for each, with the permissions at every level that is made |
| `Mmu.Mmu.VirtToPhys` | limine-c-template-x86-64/kernel/src/paging.c:442-465 | the walk that ignores present and page-size bits reads the translation plus the offset on 4 KiB pages |
| `Mmu.Mmu.NewUserspace` | limine-c-template-x86-64/kernel/src/scheduler.c:182-197 | the two loops copy the upper entries whole over an empty lower half, into a free frame, and keep every other frame and the walks of all other spaces |
| `Mmu.Mmu.DropSpace` | limine-c-template-x86-64/kernel/src/scheduler.c:498-498 | the frame of the top table is given back and no other space changes |
| `Ledger.RecordKeeps` | limine-c-template-x86-64/kernel/src/paging.c:259-286 | the address is added, also address 0, the count stays right, and a free zeroed slot is there for the next call |
| `Ledger.ForgetKeeps` | limine-c-template-x86-64/kernel/src/paging.c:357-372 | where the first slot that holds the address is used, one occurrence of the address is removed, if there is one, and the count stays right |
| `Ledger.ForgetKeepsIff` | limine-c-template-x86-64/kernel/src/paging.c:357-372 | unmap_page keeps the ledger right exactly if the address is not 0 or the first slot that holds 0 is a used one |
| `Ledger.ForgetZeroMiscounts` | limine-c-template-x86-64/kernel/src/paging.c:357-372 | a new thread that unmaps address 0 ends with a count of -1 |
| `Ledger.RunKeeps` | limine-c-template-x86-64/kernel/src/paging.c:259-372 | over every run in which unmaps find no unused slot the used slots hold the multiset mapped minus unmapped, num_mappings is its size and a free slot exists |
| `Ledger.NonZeroForgets` | limine-c-template-x86-64/kernel/src/paging.c:357-372 | every run that unmaps non-zero addresses is such a run |
| `Ledger.Mappings.Record` | limine-c-template-x86-64/kernel/src/paging.c:259-286 | the first unused slot takes the address and no other slot changes, eight empty slots are added when all are used; returns the slot of the new address |
| `Ledger.Mappings.Forget` | limine-c-template-x86-64/kernel/src/paging.c:357-372 | the first slot that holds the address is zeroed, used or not, and the ledger stays right exactly where that slot was used |
| `Ledger.DrainedIff` | limine-c-template-x86-64/kernel/src/scheduler.c:482-488 | the exit loop empties the ledger exactly if no slot but the first holds a mapping of address 0 |
| `Ledger.DrainLeavesZero` | limine-c-template-x86-64/kernel/src/scheduler.c:482-488 | a thread that has mapped 0x1000 and then 0 leaves 0 recorded after the loop |
| `Ledger.DrainTurn` | limine-c-template-x86-64/kernel/src/scheduler.c:486-487 | one turn forgets the address of its slot and no later slot |
| `Tracking.MapLinksStay` | limine-c-template-x86-64/kernel/src/paging.c:218-257 | map_page leaves every entry that links to a table linking to it |
| `Tracking.StepLinksStay` | limine-c-template-x86-64/kernel/src/paging.c:218-440 | so do unmap, change, new space and drop |
| `Tracking.ActTracks` | limine-c-template-x86-64/kernel/src/paging.c:218-372 | each operation of the thread with its ledger, or of another thread in any space, keeps the ledger right and every recorded address with its leaf table |
| `Tracking.RunTracks` | limine-c-template-x86-64/kernel/src/paging.c:218-372 | over every such run the ledger holds exactly what the thread mapped minus what it unmapped, and the exit loop finds a leaf table for each of these addresses |
| `Tracking.NewThreadTracked` | limine-c-template-x86-64/kernel/src/scheduler.c:549-558 | runs have a start: a new thread is tracked in any space |
| `Exit.UnmapPage` | limine-c-template-x86-64/kernel/src/paging.c:332-375 | unmaps exactly that page and clears its slot of the ledger |
| `Exit.DrainMappings` | limine-c-template-x86-64/kernel/src/scheduler.c:482-488 | the exit loop unmaps each recorded address once and nothing else, changes no entry above the leaf tables, and the count ends at 0 |
| `Exit.DrainedTranslations` | limine-c-template-x86-64/kernel/src/scheduler.c:482-488 | afterwards no recorded address translates in the space, and an address on no recorded page translates as before in every space |
| `Ledger.Mappings.constructor` | limine-c-template-x86-64/kernel/src/scheduler.c:549-558 | a new thread starts with eight zeroed slots and an empty ledger |
| `Scheduler.StepSound` | limine-c-template-x86-64/kernel/src/scheduler.c:279-510 | each push, reschedule and exit keeps pids unique and the thread on the CPU the running one |
| `Scheduler.RunSound` | limine-c-template-x86-64/kernel/src/scheduler.c:279-510 | the same over every run of pushes of new pids, reschedules of a non-empty ring and exits of a running thread |
| `Scheduler.StepSaves` | limine-c-template-x86-64/kernel/src/scheduler.c:302-370 | a reschedule saves the stack pointer it is called with in the thread that leaves the CPU for another and in no thread if none does, as at the first dispatch; push and exit touch no other thread, and the idle thread starts with its own |
| `Scheduler.WaitingThreadKept` | limine-c-template-x86-64/kernel/src/scheduler.c:279-510 | over every run a thread that stays off the CPU stays in the ring and keeps the stack pointer it will resume from |
| `Scheduler.PushedRunsNext` | limine-c-template-x86-64/kernel/src/scheduler.c:597-608 | a thread pushed while another runs is on the CPU after the next reschedule |
| `Scheduler.Rotated` | limine-c-template-x86-64/kernel/src/scheduler.c:322-370 | k reschedules rotate the ring by k and save each outgoing stack pointer in the thread that was running |
| `Scheduler.RoundRobin` | limine-c-template-x86-64/kernel/src/scheduler.c:322-370 | n reschedules without push or exit run each of the n threads exactly once and return to the start |
| `Scheduler.Scheduler.InsertThread` | limine-c-template-x86-64/kernel/src/scheduler.c:156-171 | links the new thread between two neighbours |
| `Scheduler.Scheduler.HotPush` | limine-c-template-x86-64/kernel/src/scheduler.c:199-211 | the ring stays one cycle with the new thread linked between the running one and its old successor, num_threads is its size, and no stack pointer changes |
| `Scheduler.Scheduler.PushNext` | limine-c-template-x86-64/kernel/src/scheduler.c:597-608 | a push next to the running thread keeps one doubly linked cycle |
| `Scheduler.Scheduler.Reschedule` | limine-c-template-x86-64/kernel/src/scheduler.c:279-372 | the first call dispatches the running thread from its saved pointer and saves nothing; later ones save into the thread that ran, leave all others alone and resume the next from its saved pointer, or change nothing if there is only one; the cycle, its count and who is on the CPU stay consistent |
| `Scheduler.Scheduler.SwitchThread` | limine-c-template-x86-64/kernel/src/scheduler.c:366-370 | the outgoing stack pointer lands in the thread that was running, found through prev_thread |
| `Scheduler.Scheduler.DiscardThread` | limine-c-template-x86-64/kernel/src/scheduler.c:173-180 | the neighbours close the cycle without the thread |
| `Scheduler.Scheduler.KillAndSwitchToIdle` | limine-c-template-x86-64/kernel/src/scheduler.c:408-468 | after the last exit the idle thread, pid 0xDEADBEEFCAFEBABE, is alone in a new cycle and on the CPU |
| `Scheduler.Scheduler.SchedulerReturn` | limine-c-template-x86-64/kernel/src/scheduler.c:374-510 | the running thread leaves the ring for good, its next pointer is cleared, and the next thread, or idle, gets the CPU from the pointer it has saved |
| `Scheduler.Scheduler.ExitToNext` | limine-c-template-x86-64/kernel/src/scheduler.c:471-509 | the neighbours close the cycle, the count drops and the next thread runs |
| `Scheduler.Scheduler.GetThreadByPid` | limine-c-template-x86-64/kernel/src/scheduler.c:702-717 | a thread of the ring with that pid, NULL exactly if there is none |
| `Elf.StoreByte` | limine-c-template-x86-64/kernel/src/loader.c:146-156 | a store through the page tables into a frame that is no table changes that one byte, no walk of any space and no other frame |
| `Elf.LoadSegment` | limine-c-template-x86-64/kernel/src/loader.c:96-158 | the pages of a segment are backed by fresh frames that are no tables and read as zeros, the file bytes, zeros; nothing else is mapped differently, and data frames keep their bytes |
| `Elf.LoadedMore` | limine-c-template-x86-64/kernel/src/loader.c:95-161 | a further segment disturbs no byte outside its own pages |
| `Elf.LoadElf` | limine-c-template-x86-64/kernel/src/loader.c:90-164 | each address covered by segments reads as the last segment covering it says, from a frame that is no table, through a leaf entry with permissions 7; every other address of every space keeps its mapping, every data frame in use its bytes; table entries that are made have permissions 7; the entry point is returned |
| `Elf.LoadedForUser` | limine-c-template-x86-64/kernel/src/loader.c:101-112 | on the walk of a covered address every entry that was missing has permissions 7, so that in a space that was empty there user code reaches it through all four levels |
| `Elf.LastCoverIs` | limine-c-template-x86-64/kernel/src/loader.c:95-161 | the segment that decides a byte is the covering one that no later one covers |
| `Elf.OwnPagesReadBack` | limine-c-template-x86-64/kernel/src/loader.c:90-164 | segments on pages of their own read back as their file bytes followed by zeros (System V gABI chapter 5, Program Header) |
| `Elf.KeepsByteIff` | limine-c-template-x86-64/kernel/src/loader.c:101-148 | a segment keeps its byte whatever the file holds exactly if the last segment on that page takes it from the same place of the file |
| `Elf.SharedPageLoses` | limine-c-template-x86-64/kernel/src/loader.c:101-148 | two segments on one page: the byte of the first is lost |
| `InitialStack.StoreWord` | limine-c-template-x86-64/kernel/src/loader.c:286-286 | a 64-bit store reads back as the same word and changes eight bytes |
| `InitialStack.StoreTexts` | limine-c-template-x86-64/kernel/src/loader.c:296-307 | the strings lie one below the other with their terminators |
| `InitialStack.StorePointers` | limine-c-template-x86-64/kernel/src/loader.c:329-341 | the offsets counted a second time point at the strings copied before |
| `InitialStack.WordsTopAligns` | limine-c-template-x86-64/kernel/src/loader.c:309-312 | for every argc and envc the alignment step makes the final pointer a multiple of 16 |
| `InitialStack.PushMarks` | limine-c-template-x86-64/kernel/src/loader.c:346-353 | a hundred marker words, 300 words below the pointer, and nothing else |
| `InitialStack.PrepareStack` | limine-c-template-x86-64/kernel/src/loader.c:281-359 | the pointer returned is 16-byte aligned, the layout is above it, and below it only the marks have changed |
| `InitialStack.ReadsBack` | limine-c-template-x86-64/kernel/src/loader.c:281-359 | a reader following section 3.4.1 of the System V AMD64 psABI recovers argc, argv, envp and the auxiliary vector |
| `InitialStack.ReadsVector` | limine-c-template-x86-64/kernel/src/loader.c:331-341 | following the pointers up to the null pointer gives the strings in order |
| `InitialStack.ReadsAuxv` | limine-c-template-x86-64/kernel/src/loader.c:314-327 | the auxiliary vector up to its null entry has the tags 5, 4, 3 and 9 (AT_PHNUM, AT_PHENT, AT_PHDR, AT_ENTRY) with their values |
| `Heap.IndexRightIff` | limine-c-template-x86-64/kernel/src/vmm.c:95-135 | the index from which the address is computed is the position in the list exactly if no free node before it was skipped |
| `Heap.IndexCounts` | limine-c-template-x86-64/kernel/src/vmm.c:95-135 | the index is behind the position by exactly the number of nodes skipped |
| `Heap.AddressWrongAfterSkip` | limine-c-template-x86-64/kernel/src/vmm.c:117-120 | a list on which the index is behind the position |
| `Heap.FailsIffNoRun` | limine-c-template-x86-64/kernel/src/vmm.c:84-145 | returns 0 exactly for size 0 or if no run of n free nodes exists, so no early exit loses a candidate |
| `Heap.PrefixAllocates` | limine-c-template-x86-64/kernel/src/vmm.c:84-145 | before the first kfree a block lies right after all earlier ones, at the address returned, 64 bytes for each node |
| `Heap.BlocksDisjoint` | limine-c-template-x86-64/kernel/src/vmm.c:84-145 | over every run of kmalloc on a fresh heap the blocks, 64 bytes for each node asked for, lie inside it and never overlap |
| `Heap.BytesDisjoint` | limine-c-template-x86-64/kernel/src/vmm.c:231-256 | over every run of kmalloc_byte on a fresh heap the bytes asked for lie inside it and no byte belongs to two blocks |
| `Heap.UnitsLeast` | limine-c-template-x86-64/kernel/src/vmm.c:231-256 | the rounding is the least number of 64-byte nodes that holds the bytes |
| `Heap.Heap.Kmalloc` | limine-c-template-x86-64/kernel/src/vmm.c:84-145 | takes the leftmost run of n free nodes, marks exactly it and notes its length at its first node, or returns 0 with the list unchanged |
| `Heap.Heap.KmallocByte` | limine-c-template-x86-64/kernel/src/vmm.c:231-256 | the same for the least number of 64-byte nodes that holds the bytes |
| `Ustar.OctalRoundTrip` | limine-c-template-x86-64/kernel/src/kutils.c:244-253 | oct2bin inverts octal printing |
| `Ustar.Oct2Bin` | limine-c-template-x86-64/kernel/src/kutils.c:244-253 | the loop computes the value of the digits, most significant first |
| `Ustar.NoOverflow` | limine-c-template-x86-64/kernel/src/kutils.c:244-265 | no intermediate value of size or advance leaves the range of an int |
| `Ustar.AdvanceIsExtent` | limine-c-template-x86-64/kernel/src/kutils.c:265-265 | the step covers the header and the padded data exactly |
| `Ustar.PrintedSize` | limine-c-template-x86-64/kernel/src/kutils.c:260-260 | a size below 8 GiB printed into the size field is what the field holds |
| `Ustar.HeaderIffLeft` | limine-c-template-x86-64/kernel/src/kutils.c:259-265 | the magic test succeeds exactly if entries are left, and the step lands on the next header |
| `Ustar.SameName` | limine-c-template-x86-64/kernel/src/kutils.c:261-261 | the comparison including the NUL succeeds exactly for equal names |
| `Ustar.TarLookup` | limine-c-template-x86-64/kernel/src/kutils.c:256-268 | terminates with size and data of the first entry whose header starts with that C string, else 0, for every archive in the ustar Interchange Format |
| `Ustar.PlainIff` | limine-c-template-x86-64/kernel/src/kutils.c:261-261 | what the comparison sees of a header is the path name of the file exactly if the prefix field is empty and the name leaves room for its NUL |
| `Ustar.FoundByNameIff` | limine-c-template-x86-64/kernel/src/kutils.c:256-268 | what is found is the file of that path name exactly if the first file that has it as its path name or as the C string of its header has no prefix and a name shorter than 100 bytes, or there is no such file |
| `Ustar.LongNameNotFound` | limine-c-template-x86-64/kernel/src/kutils.c:261-261 | a file whose name has 100 bytes is not found under it |
| `Ustar.PrefixedNotFound` | limine-c-template-x86-64/kernel/src/kutils.c:261-261 | a file d/x stored with the prefix d is found as x and not as d/x |

## Left out

- Mmu.Mmu.MapPage: the ledger half of map_page is `Ledger.Mappings.Record`; the two halves touch disjoint state.
- Mmu.Mmu.UnmapPage: requires the tables of the walk to exist, as the code does by following entries without testing them.
- Mmu.Mmu.MapRange: the loop counter is unbounded, so ranges beyond the reach of an `int` are not told apart; the flag written to the ledger is not modelled.
- Paging.MapPageMaps: entries are a frame base and twelve flag bits, so permissions are below 0x1000 with bit 0 set and addresses aligned; the walk of the page must not end at a large page, whose entry map_page would take for a table, or at a reserved bit; permissions for a table that is made must lack bit 7; enough free frames are assumed, since alloc_frame's 0 would be used unchecked.
- PageTables.VirtToPhysTranslates: says nothing about large pages, whose entry virt_to_phys takes for a table.
- Frames.RunAccounted: the region list is a sequence, no region starts at address 0, and the unaligned input that free_frame rejects by assertion is excluded.
- Ledger.RunKeeps: krealloc_byte is an array copy, as its own behaviour is left out.
- Exit.DrainMappings: unload_elf, which runs before the loop, is left out.
- Scheduler.RunSound: no thread blocks or sleeps, pids are unique, and pushes go through the hot functions, which maintain num_threads.
- Elf.LoadElf: program headers come decoded, segments lie in the file and the lower half, p_filesz is at most p_memsz, and a segment without memory starts a page, because load_elf would otherwise write to a page it has not mapped; four free frames per page are assumed, and that the segments meet no large page.
- InitialStack.PrepareStack: the stack is assumed to have room for the layout and the marks; bytes are numbers here instead of bit vectors, because words are sums of them.
- Heap.Heap.Kmalloc: the linked list of nodes is a sequence in list order.
- Ustar.TarLookup: file extents fit in an `int`, and the size field is the length of the data stored, which excludes links, symbolic links and directories (types 1, 2 and 5) with a size other than 0, as they store no data.
- Ustar.FoundByNameIff: the numeric fields after a name of 100 bytes hold no slash.
- PageTables.Lookup: the reserved bits are those of the page-size bit; bits above the physical address width and bit 63 are not in the model.
- Paging.DropSpaceDrops: the lower-half tables of the space stay marked, as the code gives back the top table alone; no walk of another space reaches them.
- WordScan.StrLen: up to seven bytes after the NUL may be read with its word and are assumed readable.
- init_paging, which copies the boot loader's top table: runs start from any valid tables instead.
- kfree and krealloc_byte, whose index walk stops one node early.
- Mutexes and futexes, blocking and sleeping threads.
- unload_elf and sys_vm_map.
- tmpfs, vfs and the hash table of descriptors.
- strcat, strncat, strspn, strpbrk, strerror and the number printers, which would add easy members.
- Interrupt masking, cr3 loads, invlpg, MSRs, APIC, HPET, the context-switch assembly, descriptor tables and console output.
