# Verified models of the algorithmic core

The firmware in this repository is mostly register programming. This project models the parts of it that are
algorithms, in Dafny, and proves what they are for: the bootrom patch fuse decoder, the heap, the SMMU page tables, the
block cipher modes of the security engine and the encrypted eMMC reader above them, the calendar arithmetic of the RTC
driver, the boot image and its loader, the shared SD/MMC clock PLL, the firmware writer of the modchip, the controller
packet CRC and the overlapping copy.

Code that changes things in place is modelled by methods on arrays or by classes whose fields are the driver's, and each
method is tied to a function of the old state. The theorems are about those functions, for all inputs, all chains, all
runs of calls.

| files | what they model |
|---|---|
| `Bits`, `Numbers`, `Wrappers` | machine words as numbers: exclusive or, shifts and masks, bit by bit; byte strings as numbers; results that may be missing |
| `SecdedCode`, `PatchHash` | the two error correcting codes as tables, and the two decoders of the driver proved equal to them |
| `FuseChain`, `FuseWalkers`, `FuseProperties` | the chain of fuse records, its three walkers, and what bit errors can and cannot do to them |
| `HeapBlocks`, `Heap`, `HeapRuns` | the heap as a row of blocks, the linked list in memory that represents it, and runs of calls |
| `SmmuTables`, `SmmuHuge`, `Smmu` | two-level page tables as a translation, what happens to it over a live 4 MB entry, and the driver that builds the tables from a bump heap |
| `Blocks`, `Words` | 16-byte blocks, multiplication by x in GF(2^128), and the word-wise form of both |
| `Xts`, `XtsSector` | both XTS routines and the tweak arithmetic |
| `BisTweaks`, `BisReader` | the tweak that is saved from one call to the next, and the eMMC reader and writer |
| `Cmac`, `CmacEmpty` | CMAC on an engine with two initialisation vectors and a hash register, and the empty message |
| `BootImage` | cipher block chaining, the image builder script, the loader, and the way through the boot ROM |
| `RtcCalendar` | both calendar formulas against the Gregorian calendar counted day by day |
| `PllSharing` | four controllers that share PLLC4 |
| `ModchipFw` | firmware image, update command and configuration record on the boot partition |
| `JoyconCrc`, `CrcDivision` | CRC-8, and the division of polynomials that it stands for |
| `Reloc` | the copy to the load address |

AES under a fixed key is any function on blocks, and where decryption matters any permutation of them. An engine
operation, a disk access or a file access may fail; then its data are unknown, and contracts speak of the successful
case. Clocks, sleeps, caches and registers without state of their own do not appear.

## What the proofs found out

* **Fuse chain.** With at most two wrong bits in each record nothing wrong is ever delivered: the patches are a prefix
  of those of the intact chain. With at most one wrong bit the walk never reports an error, and misses exactly what
  lies behind the first link field that reads zero by mistake, since `bdk/soc/fuse.c:349` looks at the uncorrected field.
  `FuseProperties.OneErrorLosesPatch` is a chain on which one inverted bit really loses a patch.
* `bdk/soc/fuse.c:267-268` says that the decoder keeps the upper twelve bits of the first word; it keeps the lower twenty.
* **SMMU.** `smmu_map` on a page of a live 4 MB entry takes the region number for the frame of a table, as
  `_smmu_get_pte` does not look at the `next` bit. `SmmuHuge.MapPageOverHuge` says what that store does to every page of
  every domain, `SmmuHuge.MapPageWorks` when the page itself is mapped, and `SmmuHuge.MapPageRefines` when it is mapped
  and nothing else changes. In `SmmuHuge.OtherPageMapped` the page is right and another one changes, and in
  `SmmuHuge.OtherRegionMapped` the store turns a directory entry into a new 4 MB mapping.
* **calloc.** The product of its arguments is a 32-bit value, and rounding it up to 32 may wrap around too;
  `HeapRuns.CallocEnough` gives the exact limit and `HeapRuns.CallocFallsShort` a request that gets no byte at all.
* **CMAC.** An empty message is not padded. The result is nevertheless that of the standard for exactly one value of the
  encrypted zero block, c0 00 .. 00 7d (`CmacEmpty.EmptyMessage`); `CmacEmpty.EmptyMessageDiffers` is a permutation with
  another one.
* **eMMC reader.** The saved tweak survives `nx_emmc_bis_init` and failed calls. `BisTweaks.NextTweakRight` says for any
  saved state exactly when the next read uses the right tweak, and `BisReader.Reader.ReadBlock` that it then returns the
  plain text and the reader is in step again: at the latest with the next new cluster. After a change to a partition with
  other keys, a read that goes forward in the cluster of the same number uses the old partition's tweak
  (`BisTweaks.OtherPartition`, and for two given keys `BisTweaks.OtherPartitionGoesWrong`). A failed raw read leaves
  everything as it was. A failed decryption leaves a tweak that has been multiplied already, so repeating the same read
  goes wrong (`BisTweaks.RetryAfterFailure`, and for a given key `BisTweaks.RetryGoesWrong`), and it leaves the new
  cluster with the old sector (`BisTweaks.MovedCluster`).
* **Loader.** The comment at `loader/main.c:82` says that the block before the payload is zero after decryption. It is
  the image block in front of the payload that is zero, which is what chaining needs; after decryption it holds the
  decryption of the zero block (`BootImage.GapDecrypted`). `se_aes_decrypt_cbc` in that file encrypts.
* **Clocks.** A rate that is still cached from before a disable is not set again, so `clock_sdmmc_config_clock_source`
  alone does not make the controller a user of PLLC4 again (`PllSharing.ReconfiguredUser`). After the three calls of
  `PllSharing.StaleSetting` the controller, not enabled yet, is sourced from the stopped PLL.
* **Firmware writer.** `sdloader/modchip.c:169` divides only its last summand, so that an image written in pieces gets
  its size in bytes as the number of sectors (`ModchipFw.CountInPieces`), as one of exactly the buffer's size does
  (`ModchipFw.FullBufferMiscounted`). The image itself is the same either way.
* **RTC.** The weekday that the driver stores is always zero.

## Model

| member | source | states |
|---|---|---|
| `PatchHash.Parity32Even` | bdk/soc/fuse.c:192-206 | folding a record of any length gives the exclusive or of all its bits |
| `PatchHash.Fold32` | bdk/soc/fuse.c:198-205 | the four folds of one word keep its parity |
| `PatchHash.LoopSyndrome` | bdk/soc/fuse.c:252-266 | the position sum of the loop together with the low fifteen bits is the table syndrome, for every word count |
| `PatchHash.SyndromeLoop` | bdk/soc/fuse.c:248-269 | the double loop computes the syndrome and leaves the record with the twelve link bits cleared |
| `PatchHash.LocateByArithmetic` | bdk/soc/fuse.c:282-297 | the range test on the syndrome finds the bit that the table finds |
| `PatchHash.OneBit` | bdk/soc/fuse.c:283-294 | a syndrome with exactly one bit set is the name of that check bit |
| `PatchHash.PatchHashMulti` | bdk/soc/fuse.c:245-299 | return code and corrected array are those of the table decoder, for 1 to 512 words; the code by parity and syndrome, 2 exactly for odd parity and a syndrome that is no power of two below 2^15 and no position |
| `PatchHash.PatchHashOne` | bdk/soc/fuse.c:208-243 | return code and corrected link word are those of the table decoder; the code by parity and syndrome, 2 exactly for odd parity and a syndrome of 12 or more |
| `SecdedCode.SumFlip` | bdk/soc/fuse.c:254-266 | one inverted bit changes the syndrome by its own column |
| `SecdedCode.NamesDiffer` | bdk/soc/fuse.c:262-266 | no two bit positions share a syndrome, for any word count |
| `SecdedCode.NoError` | bdk/soc/fuse.c:271-274 | a valid record is reported clean and keeps its payload |
| `SecdedCode.SingleError` | bdk/soc/fuse.c:271-298 | any one wrong bit gives code 1 and the original record; one in bits 20 to 31 of word 0 leaves the payload intact |
| `SecdedCode.DoubleError` | bdk/soc/fuse.c:279-280 | any two wrong bits give code 3, except two that the syndrome cannot see, which leave the payload intact |
| `SecdedCode.CodeMeans` | bdk/soc/fuse.c:271-298 | the return code for every record, whatever its errors: 2 if and only if parity is odd, the syndrome is not zero, and no position but 15 has that name |
| `SecdedCode.UncorrectableIs` | bdk/soc/fuse.c:282-292 | the same in numbers: no power of two below 2^15, and not 0x4000 and a position from 16 on |
| `SecdedCode.AcceptedIsClean` | bdk/soc/fuse.c:271-298 | an accepted record has syndrome zero after correction, unless its syndrome named one of bits 20 to 31 |
| `SecdedCode.SingleLinkError` | bdk/soc/fuse.c:208-243 | one wrong bit in the link code is undone exactly |
| `SecdedCode.DoubleLinkError` | bdk/soc/fuse.c:208-243 | two wrong bits in the link code are reported |
| `SecdedCode.LinkColumnsAre` | bdk/soc/fuse.c:61-61 | the columns of the link bits: four powers of two, zero, and the other numbers below 12 in rising order |
| `SecdedCode.LinkCodeMeans` | bdk/soc/fuse.c:208-243 | the return code for every link word: 2 if and only if parity is odd and the syndrome is 12 or more |
| `SecdedCode.AcceptedLinkIsClean` | bdk/soc/fuse.c:208-243 | an accepted link is a codeword after correction |
| `FuseWalkers.AddrInjective` | bdk/soc/fuse.c:319-329 | a walk reads pairwise different fuse addresses, across the jump of the T210B01 too |
| `FuseChain.AddrNext` | bdk/soc/fuse.c:319-329 | the first word is fuse 191, each further one is the next lower fuse, but on the T210B01 fuse 255 follows on 176 |
| `FuseWalkers.CheckRecord` | bdk/soc/fuse.c:319-333 | a record is read and corrected in the buffer in place |
| `FuseWalkers.ReadIpatch` | bdk/soc/fuse.c:301-359 | the calls made are the patches of the chain walk, in order, and the code is the one the walk ends with; call i has twice the upper half of patch word i as its offset and the lower half as its value |
| `FuseWalkers.ReadEvpThunk` | bdk/soc/fuse.c:361-446 | the thunk memory is the template with the addresses of the chip, then all instruction words, the rest is what the first clear left, and the length fits |
| `FuseWalkers.TemplateEnds` | bdk/soc/fuse.c:30-58 | the last three words of the template are the addresses of the chip at hand, the fifteen before them are the same on both |
| `FuseChain.PayloadSurvives` | bdk/soc/fuse.c:331-333 | with at most two wrong bits a record is rejected or its payload is right; with one it is accepted |
| `FuseChain.CallsMean` | bdk/soc/fuse.c:339-344 | one call for each patch word of the visits, in order: twice its upper half is the offset and its lower half the value |
| `FuseChain.WalkStops` | bdk/soc/fuse.c:313-333 | a walk that goes on delivers nothing if and only if its words would number 80 or more or the record is rejected, and ends quietly only in the first case |
| `FuseChain.RejectedRecord` | bdk/soc/fuse.c:331-333 | nothing is delivered and the code is 1 if and only if the record has a syndrome and even parity, or one that names no position |
| `FuseChain.RejectedLink` | bdk/soc/fuse.c:348-355 | a zero link field ends the walk with code 0, and it ends with code 3 behind a record if and only if the link word cannot be corrected |
| `FuseChain.LinkSurvives` | bdk/soc/fuse.c:348-355 | with at most two wrong bits in the record, the link is zero, rejected or right |
| `FuseChain.NoWrongPatch` | bdk/soc/fuse.c:301-359 | with at most two wrong bits in each record, patches and instructions delivered are prefixes of those of the intact chain |
| `FuseChain.OneErrorWalk` | bdk/soc/fuse.c:313-358 | with at most one wrong bit in each record the walk ends without error, and its visits followed by the lost ones are the intact visits |
| `FuseChain.OneErrorDelivery` | bdk/soc/fuse.c:349-350 | the calls made and the calls lost make up the calls of the intact chain; all are made if and only if no lost visit carries a patch, and always when no link field reads zero by mistake |
| `FuseChain.OneErrorInsns` | bdk/soc/fuse.c:431-432 | the same for the instruction words of the thunk |
| `FuseChain.NothingLost` | bdk/soc/fuse.c:349-350 | nothing is lost if no link field reads zero by mistake |
| `FuseProperties.OneErrorLosesPatch` | bdk/soc/fuse.c:349-350 | a concrete chain of which one inverted bit loses the only patch |
| `FuseProperties.CheckPatchedRcm` | bdk/soc/fuse.c:448-476 | the third walker answers whether bit 7 is set, the chip is a T210B01, or some patch word of the raw chain has 0x3b4d as its upper half |
| `FuseProperties.RawWalkAgrees` | bdk/soc/fuse.c:455-473 | on a clean chain that ends the uncorrected walk and the checked walk see the same patch words |
| `FuseProperties.PatchedRcmAgrees` | bdk/soc/fuse.c:448-476 | on a clean chain of fewer than 80 words there is such a patch word if and only if the checked walk makes a call for offset 0x769a |
| `FuseProperties.EachWordOnce` | bdk/soc/fuse.c:335-346 | the two walkers together deliver every word of the chain but the headers exactly once and in order |
| `HeapBlocks.LiveApart` | bdk/mem/heap.c:32-112 | live areas are disjoint, with at least a header between them |
| `HeapBlocks.FirstFit` | bdk/mem/heap.c:58-98 | the block found is unused and large enough, and no earlier one is |
| `HeapBlocks.AllocEffect` | bdk/mem/heap.c:60-111 | an allocation adds one area apart from all live ones, and the heap grows only if no unused block fits |
| `HeapBlocks.SplitExactly` | bdk/mem/heap.c:65-85 | the block that fits is split if and only if 128 bytes are left over, and else given away whole |
| `HeapBlocks.NoSmallRest` | bdk/mem/heap.c:71-83 | an allocation never creates an unused block of fewer than 96 bytes |
| `HeapBlocks.AllocTidy` | bdk/mem/heap.c:37-91 | an allocation keeps all sizes multiples of 32 and no two neighbours unused |
| `HeapBlocks.FreeEffect` | bdk/mem/heap.c:114-138 | a release takes away exactly one area, keeps the extent, and leaves no two neighbours unused |
| `HeapBlocks.LiveIsLive` | bdk/mem/heap.c:169-173 | every live area is one that can be released |
| `Heap.Allocator.constructor` | bdk/mem/heap.c:24-29 | the empty heap satisfies the invariant |
| `Heap.Allocator.FindNode` | bdk/mem/heap.c:58-98 | the walk over the list stops at the first fitting block, or at the last node |
| `Heap.Allocator.TakeNode` | bdk/mem/heap.c:65-88 | the stores that split or take a node keep a doubly linked list of the new blocks and touch no live area; the node is used and has the size asked for, or all of its own if fewer than 128 bytes are left over |
| `Heap.Allocator.GrowHeap` | bdk/mem/heap.c:101-111 | the stores that append a node do likewise |
| `Heap.Allocator.Alloc` | bdk/mem/heap.c:32-112 | the list represents the blocks after first-fit allocation, with one block more unless an unused one is taken whole; the address is that block's, live data are untouched |
| `Heap.Allocator.MergeNode` | bdk/mem/heap.c:122-136 | one step of the pass merges an unused node into its unused predecessor or does nothing |
| `Heap.Allocator.MergeUnused` | bdk/mem/heap.c:118-136 | the whole pass merges every run of unused blocks in one go and keeps live data |
| `Heap.Allocator.Release` | bdk/mem/heap.c:114-138 | freeing a live area gives the blocks with that one unused and merged |
| `Heap.Allocator.Free` | bdk/mem/heap.c:169-173 | addresses below the heap are ignored, others are released |
| `Heap.Allocator.Malloc` | bdk/mem/heap.c:150-153 | the new area is large enough and apart from all live ones |
| `Heap.Allocator.Zalloc` | bdk/mem/heap.c:162-167 | the aligned size is zero and all other live data are untouched |
| `Heap.Allocator.Calloc` | bdk/mem/heap.c:155-160 | likewise for the 32-bit product |
| `Heap.Allocator.Monitor` | bdk/mem/heap.c:175-204 | the totals are the extent of the heap, the bytes in used blocks, and the numbers of blocks |
| `HeapBlocks.AllocCounts` | bdk/mem/heap.c:183-187 | an allocation adds its block and 32 bytes to the used ones |
| `HeapBlocks.FreeCounts` | bdk/mem/heap.c:183-187 | a release takes just that away |
| `HeapRuns.RunSafe` | bdk/mem/heap.c:32-138 | after any run of allocations and releases the blocks are tidy, live areas are apart, and the extent never shrank |
| `HeapRuns.LiveStays` | bdk/mem/heap.c:32-138 | an area stays where it is, with its size, until its own release |
| `HeapRuns.AllocThenFree` | bdk/mem/heap.c:60-138 | allocating from an unused block and releasing it at once restores the blocks exactly |
| `HeapRuns.AlignEnough` | bdk/mem/heap.c:36-37 | rounding up serves the request if and only if it is at most 0xffffffe0, and then with the next multiple of 32 |
| `HeapRuns.CallocEnough` | bdk/mem/heap.c:155-160 | the request of calloc is served if and only if the true product is at most 0xffffffe0 |
| `HeapRuns.CallocFallsShort` | bdk/mem/heap.c:155-160 | 65536 elements of 65536 bytes: nothing is allocated |
| `SmmuTables.EnsureValid` | bdk/mem/smmu.c:185-206 | a table made on demand aliases no live table, directory or page of a client |
| `SmmuTables.EnsureTranslate` | bdk/mem/smmu.c:189-203 | making a table changes no translation |
| `SmmuTables.TableMade` | bdk/mem/smmu.c:189-203 | its directory entry allows everything, and each of its entries holds its own page number without permissions |
| `SmmuTables.MapPageTranslate` | bdk/mem/smmu.c:180-219 | mapping one page changes that page of that domain and nothing else |
| `SmmuTables.MapRegionTranslate` | bdk/mem/smmu.c:235-238 | a 4 MB entry maps its 1024 pages and nothing else |
| `SmmuTables.NewDomain` | bdk/mem/smmu.c:80-89 | a new directory maps nothing and leaves all tables apart |
| `SmmuHuge.MapPageOverHuge` | bdk/mem/smmu.c:185-219 | over a live 4 MB entry: the translation of every page of every domain after the store, which may hit a directory, a table in use, or neither |
| `SmmuHuge.MapPageWorks` | bdk/mem/smmu.c:185-187 | the page is mapped if and only if its region is no live 4 MB entry or the page had that mapping already, with one more case where the entry names its own directory |
| `SmmuHuge.MapPageRefines` | bdk/mem/smmu.c:185-187 | the page is mapped and no other page of any domain changes if and only if its region is no live 4 MB entry, or the page had that mapping already and the store changes nothing that is reachable |
| `SmmuHuge.OtherPageMapped` | bdk/mem/smmu.c:185-219 | a state made by the driver's own calls in which mapping a page as it is mapped also maps a page of another region |
| `SmmuHuge.OtherRegionMapped` | bdk/mem/smmu.c:185-219 | another, in which it maps 1024 pages that were not mapped |
| `Smmu.MapRunWorks` | bdk/mem/smmu.c:211-223 | a range of pages refines the flat page map in every domain and keeps live frames apart |
| `Smmu.MapHugeRunWorks` | bdk/mem/smmu.c:228-242 | a range of 4 MB regions refines the flat page map likewise |
| `Smmu.MapHit` | bdk/mem/smmu.c:218-222 | page k of the range gets frame k and the attributes, across the ends of both address spaces |
| `Smmu.MapMiss` | bdk/mem/smmu.c:214-223 | pages outside the range keep their translation |
| `Smmu.MapHugeHit` | bdk/mem/smmu.c:233-242 | every page of region k of the range gets its frame in physical region k and the attributes, across the ends of both address spaces |
| `Smmu.MapHugeMiss` | bdk/mem/smmu.c:233-242 | pages outside the range keep their translation |
| `Smmu.Driver.PageZalloc` | bdk/mem/smmu.c:70-78 | cleared pages that nobody uses; no translation changes |
| `Smmu.Driver.InitDomain` | bdk/mem/smmu.c:140-153 | a new domain without mappings, whose entries hold their own region numbers; other domains are unaffected |
| `Smmu.Driver.GetPte` | bdk/mem/smmu.c:180-209 | table and index of the entry, with the table made on demand |
| `Smmu.Driver.Map` | bdk/mem/smmu.c:211-226 | smmu_map in place stores what the page loop stores, and without a live 4 MB entry in the range it is that refinement for every page of every domain |
| `Smmu.Driver.MapHuge` | bdk/mem/smmu.c:228-245 | smmu_map_huge in place likewise |
| `Blocks.TimesXCoeff` | bdk/sec/se.c:55-69 | the shift with feedback is multiplication by x modulo x^128 + x^7 + x^2 + x + 1, coefficient by coefficient |
| `Blocks.MulX` | bdk/sec/se.c:39-53 | the byte loop doubles a block whose first byte is the most significant |
| `Words.MulXLe` | bdk/sec/se.c:55-69 | the loop over four words multiplies a block by x |
| `Words.XorBlock` | bdk/sec/se.c:453-454 | the word-wise exclusive or is the byte-wise one, in place too |
| `Xts.XtsInverse` | bdk/sec/se.c:426-476 | decryption undoes encryption, and the other way round, for any permutation |
| `Xts.XtsCut` | bdk/sec/se.c:443-460 | a data unit may be cut anywhere if the tweak is multiplied along |
| `Xts.TailCalls` | bdk/sec/se.c:431-445 | a tail call with the number of skipped sectors, and one with the tweak left by the head call, both continue the unit |
| `Xts.PutSector` | bdk/sec/se.c:434-438 | the buffer, read as a number most significant byte first, is the sector number |
| `Xts.SectorNumber` | bdk/sec/se.c:434-438 | the block that is encrypted to the tweak is the sector number in 128 bits, most significant byte first |
| `Xts.OnlySectorBlock` | bdk/sec/se.c:434-438 | and no other block is, so that no two sectors share one |
| `Xts.PrepareTweak` | bdk/sec/se.c:432-445 | new or saved tweak, multiplied 32 times for every skipped sector |
| `Xts.WhitenAll` | bdk/sec/se.c:451-460 | one pass whitens every block with its own power of x and leaves the tweak for the next call |
| `Xts.XtsCryptSecNx` | bdk/sec/se.c:426-476 | the three passes together are XTS of sections 5.2 to 5.4 of IEEE Std 1619-2007 on every block, but for the order of the sector number's bytes, in place or not, and the tweak is ready for the next block |
| `XtsSector.BigIsReversed` | bdk/sec/se.c:39-69 | the two doublings of the driver are one, read from opposite ends of the block |
| `XtsSector.ReversedXts` | bdk/sec/se.c:406-417 | the older routine is standard XTS of the reversed cipher on reversed blocks |
| `XtsSector.XtsCryptSec` | bdk/sec/se.c:389-424 | the loop over blocks whitens, encrypts and whitens each with its own doubled tweak, in place or not |
| `BisTweaks.NextTweakFrom` | bdk/storage/nx_emmc_bis.c:166-179 | a new tweak or the saved one moved forward: either way the tweak of the first sector read |
| `BisTweaks.NextTweakRight` | bdk/storage/nx_emmc_bis.c:165-180 | for any saved state: the next read uses the right tweak if and only if it makes a new one, or the saved one lies the skipped sectors in front of it |
| `BisTweaks.SavedAgain` | bdk/storage/nx_emmc_bis.c:180-183 | after a read the saved tweak is that of the block behind it if and only if the read began with the right one |
| `BisTweaks.MovedCluster` | bdk/storage/nx_emmc_bis.c:165-181 | after a failure that has moved the cluster but not the sector: when the next read makes a new tweak, and what the saved one must be otherwise |
| `BisTweaks.RetryAfterFailure` | bdk/storage/nx_emmc_bis.c:180-181 | repeating a read whose decryption failed is right if and only if the multiplications in between change nothing |
| `BisTweaks.RetryGoesWrong` | bdk/storage/nx_emmc_bis.c:180-181 | a key with which repeating the read uses a wrong tweak |
| `BisTweaks.OtherPartition` | bdk/storage/nx_emmc_bis.c:295-319 | after a change of partition the next tweak is right if and only if it is made anew or both keys agree on the cluster |
| `BisTweaks.OtherPartitionGoesWrong` | bdk/storage/nx_emmc_bis.c:295-319 | two keys with which a forward read after the change uses a wrong tweak |
| `BisReader.ReadIsPlain` | bdk/storage/nx_emmc_bis.c:181-183 | what is decrypted is the slice of the whole cluster's plain text |
| `BisReader.PlainUnique` | bdk/storage/nx_emmc_bis.c:247-293 | the partition has one plain text only for given keys and sectors |
| `BisReader.Reader.Init` | bdk/storage/nx_emmc_bis.c:295-319 | keys by partition name, not ready for any other name; the saved tweak stays |
| `BisReader.Reader.ReadBlock` | bdk/storage/nx_emmc_bis.c:145-186 | a read that starts with the right tweak returns the plain text, and exactly then the reader is in step afterwards; what each kind of failure leaves behind |
| `BisReader.Reader.Read` | bdk/storage/nx_emmc_bis.c:247-269 | a read of any size, cut at cluster boundaries: plain text from the start if it starts in step, and from the second cluster on in any case |
| `BisReader.Reader.WriteBlock` | bdk/storage/nx_emmc_bis.c:60-105 | without the cache, what is written is the plain text of those sectors from then on, and no other sector changes |
| `BisReader.Reader.Write` | bdk/storage/nx_emmc_bis.c:271-293 | likewise for a write of any size |
| `BisReader.Reader.WriteThenRead` | bdk/storage/nx_emmc_bis.c:247-293 | a write followed by a read of the same sectors that starts in step returns what was written |
| `Cmac.DoublingIsStandard` | bdk/sec/se.c:39-53 | as a 128-bit number the doubling is the sub key step of section 2.3 of RFC 4493, with the constant 0x87 |
| `Cmac.PadNumber` | bdk/sec/se.c:690-694 | the padding of section 2.4 of RFC 4493: the message, a one bit, and zeros up to 128 bits |
| `Cmac.PadInjective` | bdk/sec/se.c:690-694 | messages of different content or length are padded differently |
| `Cmac.OneBlockMac` | bdk/sec/se.c:663-704 | messages of at most one block: which sub key masks them, and that only a partial block is padded |
| `Cmac.ChainByBlocks` | bdk/sec/se.c:681-688 | all blocks but the last in one operation, then the last: that is the chaining of section 2.4 of RFC 4493 |
| `Cmac.Engine.Run` | bdk/sec/se.c:681-687 | an engine operation absorbs its blocks from the selected vector into the updated vector and the hash register |
| `Cmac.SubKey` | bdk/sec/se.c:663-672 | the double of the encrypted zero block for whole blocks, its double again for a partial last block |
| `Cmac.LastBlock` | bdk/sec/se.c:690-698 | the last block, and for a partial one its number: the message bytes, a one bit, and zeros |
| `Cmac.Cmac128` | bdk/sec/se.c:657-714 | the result is CMAC for every nonempty message, and the encrypted first sub key for the empty one |
| `CmacEmpty.SubKeysDecide` | bdk/sec/se.c:681-703 | the empty message gets the standard's result if and only if the two sub keys differ in the first bit and no other |
| `CmacEmpty.EmptyMessage` | bdk/sec/se.c:657-703 | which holds if and only if the zero block is encrypted to c0, fourteen zero bytes and 7d |
| `CmacEmpty.EmptyMessageDiffers` | bdk/sec/se.c:681-703 | a permutation for which the result is another one |
| `BootImage.DecOfEnc` | check.py:36-40 | chaining decryption undoes encryption |
| `BootImage.EncOfDec` | loader/main.c:72-79 | encryption undoes decryption, even of data that were never encrypted |
| `BootImage.EncAt` | loader/main.c:72-79 | block i of the result is the encryption of block i mixed with block i - 1 of the result, or with the vector |
| `BootImage.PkgToBytes` | check.py:70-83 | the bytes of the image, or the cipher library's refusal |
| `BootImage.ImageLayout` | check.py:70-83 | the image exists if and only if the part to encrypt consists of whole blocks or is encrypted already; its length, and which bytes are the loader or payload, the zero block and the payload behind it |
| `BootImage.WholeDecrypted` | check.py:72-77 | decrypting the whole image decrypts loader and payload each on its own |
| `BootImage.GapDecrypted` | loader/main.c:81-84 | the block in front of the payload becomes the decryption of the zero block |
| `BootImage.CbcInPlace` | loader/main.c:72-79 | the in-place operation is chaining encryption of the region with a zero vector, and nothing else changes |
| `BootImage.BootRestoresPayload` | loader/main.c:81-91 | through the boot ROM and the loader, for any permutation and any tail of the region, loader and payload come back |
| `BootImage.BareImage` | check.py:78-81 | an image without a loader is decrypted to its payload |
| `BootImage.ReencryptPayload` | loader/main.c:85-91 | the loader's call leaves the payload in memory where it is started, and the loader as it is |
| `RtcCalendar.NextDayCounts` | bdk/rtc/max77620-rtc.c:137-151 | the next day of the Gregorian calendar counts one more, in every year |
| `RtcCalendar.CountUndone` | bdk/rtc/max77620-rtc.c:103-126 | the formula for the date undoes the formula for the count |
| `RtcCalendar.DateOfDay` | bdk/rtc/max77620-rtc.c:103-126 | the date of day n is reached by counting n days from 1 January 1970 |
| `RtcCalendar.EpochToDateValid` | bdk/rtc/max77620-rtc.c:90-130 | every 32-bit epoch gives a valid Gregorian date and time of day |
| `RtcCalendar.DateToEpochExact` | bdk/rtc/max77620-rtc.c:132-157 | from 1970 on, the 32-bit arithmetic gives the true count modulo 2^32 |
| `RtcCalendar.EpochRoundTrip` | bdk/rtc/max77620-rtc.c:90-157 | every 32-bit epoch survives the way to a date and back |
| `RtcCalendar.DateRoundTrip` | bdk/rtc/max77620-rtc.c:90-157 | a valid time survives the way to an epoch and back if and only if it lies between 1970 and the last countable second |
| `RtcCalendar.EpochOrder` | bdk/rtc/max77620-rtc.c:90-130 | the order of epochs is the order of times |
| `RtcCalendar.CountOrder` | bdk/rtc/max77620-rtc.c:132-151 | the order of dates is the order of day counts |
| `RtcCalendar.GregorianCycle` | bdk/rtc/max77620-rtc.c:137-151 | four hundred years later is 146097 days later, for every date |
| `RtcCalendar.Landmarks` | bdk/rtc/max77620-rtc.c:90-130 | epoch 0 is the start of 1 January 1970, and the last epoch is 06:28:15 on 7 February 2106 |
| `RtcCalendar.EndsOfCenturies` | bdk/rtc/max77620-rtc.c:137-151 | 2000 and 2024 have a 29th of February, 2023 and 2100 have none |
| `RtcCalendar.RtcTime.SetFromEpoch` | bdk/rtc/max77620-rtc.c:90-130 | all fields of the structure; the weekday is always zero |
| `PllSharing.ReportedClock` | bdk/soc/clock.c:722-823 | in every state that the driver reaches, the clock reported is what source and divisor registers make of it, rounded up; it is never more than was asked for, and the next smaller divisor would make it more |
| `PllSharing.SelectedSource` | bdk/soc/clock.c:758-783 | the source register selects PLLC4 for 100 and 200 MHz only, and its low jitter branch for 200 MHz on the second and fourth controller only |
| `PllSharing.ConfiguredUsers` | bdk/soc/clock.c:797-799 | those two rates start PLLC4 and make a user, and no other rate touches it |
| `PllSharing.NeverStopped` | bdk/soc/clock.c:502-550 | an enabled controller sourced from PLLC4 is a user of it and finds it running |
| `PllSharing.ReconfiguredUser` | bdk/soc/clock.c:825-841 | setting a PLLC4 rate makes a user if and only if the rate is not cached or the controller is a user already |
| `PllSharing.StaleSetting` | bdk/soc/clock.c:825-841 | enable, disable and configure from boot: the source is PLLC4, which is stopped |
| `PllSharing.RunKeeps` | bdk/soc/clock.c:722-941 | the invariant holds after any sequence of enable, configure and disable calls |
| `PllSharing.AllReleased` | bdk/soc/clock.c:535-550 | after any run in which each controller was disabled last, PLLC4 is off |
| `PllSharing.UsersAfter` | bdk/soc/clock.c:502-550 | after any run from a stopped PLL a controller is a user if and only if, since its last disable, it was enabled with one of those rates or set to one that was not cached; PLLC4 then runs |
| `PllSharing.Driver.EnablePll` | bdk/soc/clock.c:507-533 | the user is added and the PLL runs |
| `PllSharing.Driver.DisablePll` | bdk/soc/clock.c:535-550 | the PLL stops with its last user |
| `PllSharing.Driver.ConfigHost` | bdk/soc/clock.c:722-823 | rate, source and divisor registers and users for every rate, the source and the users by rate and controller; an unknown controller is refused |
| `PllSharing.Driver.ConfigSource` | bdk/soc/clock.c:825-841 | the source register is written only while the controller is disabled, and the clock is right if cached too |
| `PllSharing.Driver.Enable` | bdk/soc/clock.c:921-935 | the controller is configured and then enabled, with the invariant kept at every register write; no waiting time for an unknown rate |
| `PllSharing.Driver.Disable` | bdk/soc/clock.c:937-943 | the controller is disabled before PLLC4 may stop |
| `ModchipFw.WriteImage` | sdloader/modchip.c:137-163 | at once or in pieces, the sectors hold the file padded with zeros, and nothing else changes |
| `ModchipFw.DoneNext` | sdloader/modchip.c:149-156 | the pieces fit together without gap or overlap and each fits into the buffer |
| `ModchipFw.WriteCommand` | sdloader/modchip.c:99-110 | only the first sixteen bytes of the command sector change, and they read as code, start, count and zero |
| `ModchipFw.CommandMeans` | sdloader/modchip.c:217-224 | the command as little-endian words: the update code, the first sector, the number of sectors |
| `ModchipFw.UpdatedMeans` | sdloader/modchip.c:129-175 | the disk after an update byte by byte: the file from sector 0x1f00 on, zeros up to a whole sector, the command, and all else as before |
| `ModchipFw.UpdateFromFile` | sdloader/modchip.c:129-175 | a successful update leaves image and command on the disk and everything else as it was |
| `ModchipFw.CountInPieces` | sdloader/modchip.c:168-169 | the command counts the sectors if and only if the image was written at once, and bytes otherwise |
| `ModchipFw.FullBufferMiscounted` | sdloader/modchip.c:168-169 | an image of exactly the buffer's size is written in pieces and its count is 512 times too large |
| `ModchipFw.SetConfig` | sdloader/modchip.c:75-82 | only the configuration record changes |
| `ModchipFw.GetConfig` | sdloader/modchip.c:58-67 | the record as it is on the disk |
| `ModchipFw.ConfigSurvives` | sdloader/modchip.c:112-117 | an image of at most 255 sectors leaves the sector of the configuration record alone |
| `JoyconCrc.ComputeCrc` | bdk/input/joycon.c:336-351 | the nested loops compute the CRC of the division |
| `CrcDivision.CrcIsRemainder` | bdk/input/joycon.c:336-351 | the CRC is the one remainder of the message, eight places up, by x^8 + x^7 + x^3 + x^2 + 1 |
| `JoyconCrc.CrcXor` | bdk/input/joycon.c:336-351 | the CRC is linear in start value and data together |
| `JoyconCrc.CrcAppend` | bdk/input/joycon.c:336-351 | continuing through the start value gives the CRC of the concatenation |
| `JoyconCrc.OwnCrc` | bdk/input/joycon.c:753-756 | a message followed by a byte has CRC 0 if and only if the byte is its own CRC |
| `JoyconCrc.BurstBits` | bdk/input/joycon.c:753-756 | the error pattern flips exactly the given bits of an eight bit window anywhere in a packet |
| `JoyconCrc.BurstDetected` | bdk/input/joycon.c:753-756 | every burst of at most eight bits in a good packet of any length is noticed |
| `Reloc.Relocate` | sdloader/loader.c:6-18 | for any overlap and size the destination holds the old source and nothing else changes |
| `Reloc.CopyDown` | sdloader/loader.c:14-16 | the downward loop ends by wrap-around of its counter, for size 0 at once |

## Left out

- FuseWalkers.ReadEvpThunk: needs every visited record to have room for its patch words, as the driver's unsigned word count would wrap around otherwise, thunk memory for a template and 80 words, and a length in whole words.
- FuseProperties.CheckPatchedRcm: needs the raw chain to stay inside the fuse array, as the driver would read on without bound otherwise.
- FuseChain.NoWrongPatch: takes the register with the size of the first record as undisturbed, as it is not part of the chain.
- Heap.Allocator.Alloc: needs the memory above the heap to suffice, which the driver does not check.
- Heap.Allocator.Zalloc: memory is in lines of 32 bytes, so that clearing is by lines and not by bytes.
- Heap.Allocator.Monitor: needs a heap with at least one node, as the driver reads the first node without a check.
- Smmu.Driver.Map: needs room for the tables, which the driver does not check; what a page in a live 4 MB entry means for all others is stated for one page in SmmuHuge.MapPageRefines.
- Xts.XtsCryptSecNx: needs a sector size above zero, a multiple of 16, and destination and source equal or apart; after a failed engine call the destination is unknown.
- Cmac.Cmac128: needs a message of at most 0xfffffff0 bytes, as the block count wraps around beyond; such a message does not fit the address space.
- BisReader.Reader.ReadBlock: the destination is a new buffer that the caller joins to the ones before, not a place inside the caller's buffer.
- PllSharing.Driver.Enable: the wait at the end divides by the clock, which is zero for an unknown rate; the model then has no waiting time. The rate that is compiled in only with DDR200 support is not included.
- ModchipFw.UpdateFromFile: speaks of success only; the reset command that is issued after a failure is not part of the model.
- The field `last` of the heap is set as in the driver but stands in no invariant, as it goes stale on a split and on a merge and is not read in the default build.
- The heap variant without defragmentation, `heap_set`, and the printing of node statistics.
- `smmu_reset_heap`, domain removal, bypass, and the flushing of translation caches.
- The eMMC cluster cache, and the choice between raw and file based partitions.
- Looping XTS over several sectors, counter mode, key slots, SHA-256 and RSA.
- `max77620_rtc_get_time_adjusted` and the registers of the clock chip.
- The codecs for signed boot entries and payload headers in `check.py`.
- Bootloader images, reset and rollback commands and the descriptor of the modchip.
- SD/MMC resets, timeouts and the legacy timeout clock.
- Interrupt registration in `irq.c`, where registering one request twice is possible after a release.
- Everything that is only register programming or user interface: memory, display, USB, I2C, pins, menus, drawing.
