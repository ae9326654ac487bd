# A verified model of SSDFS volume creation and detection

SSDFS is a flash file system. Its tools address a volume in physical erase blocks (PEBs) that are grouped in
segments; logical erase blocks (LEBs) are mapped to PEBs by a mapping table. This project models, in Dafny, the
part of `mkfs.ssdfs` that lays out, maps and writes a volume and the part of `fsck.ssdfs` that reads those
structures back, and proves what they promise each other.

`dafny verify dfyconfig.toml` checks the whole project.

## How the model is organised

| files | component |
|---|---|
| `Types`, `Rounding`, `Bytes` | machine integers, error codes, multiples and pages, little-endian fields, `memmove` |
| `LogImage`, `VolumeWriter`, `LayoutCheck`, `VolumeImage` | the checked layout and the writer that streams it through a one-page buffer |
| `LogLayout` | placement of the extents of a log, number of log pages |
| `MapTableGeometry`, `MapTablePolicy`, `MapTable`, `MapTableRun`, `PreErase`, `MapTableExtents`, `LogPages` | the PEB mapping table |
| `CacheFragment`, `MapTableCache`, `CacheLookup` | the cache of LEB/PEB pairs, from the bytes that mkfs inserts to the answer of fsck |
| `SuperblockChain`, `PebTypes`, `CreationPoints`, `VolumeSearch` | detection of superblocks and of volume creation points |
| `PackedBitmap`, `BlockBitmap`, `SegmentBitmap`, `SegmentSearch` | bitmaps with 2 and 4 bits per item |

Code that changes things in place is modelled by methods over arrays and classes, each proved against a
specification function; the laws are lemmas about those functions. A `BUG_ON()` is either proved not to fire or
is the outcome `Bug`. Integers are unbounded, and the program's 16-, 32- and 64-bit arithmetic is written out
where it can wrap. The host is little-endian. The device is a sequence of bytes together with the list of write
requests; for `fsck` it is a function from a PEB to what is read there. Memory allocation succeeds.

## What was found

Where a law does not hold of the code for all inputs, the exact condition is proved:

* `write_peb` gets to its end if and only if the log starts in the first page, or in the second and fills whole
  pages; it leaves the log at its own place if and only if it starts in the first page, or is 0xFF throughout on a
  PEB whose first page is erased (`VolumeWriter.Writer.WritePeb`).
* The extents of a log pass the pre-write check if and only if the log fits, a mapping-table cache behind the header
  does not collide and the two backup copies do not collide (`LogLayout.PlacedWellPlaced`); the logs of superblock
  segments pass it whenever they fit (`LogLayout.SuperblockLog`).
* The PEB pages of the mapping table describe every PEB if and only if the last portion has no remainder below half
  the number of stripes (`MapTableGeometry.PebTilingIff`), and its LEB pages describe no LEB twice if and only if
  they fill their portion, or there is one page or one portion (`MapTableGeometry.LebTilingIff`).
* The number of portions per PEB fits the erase block if and only if the requested size does not overflow 32 bits
  (`MapTablePolicy.PortionsPerFragment`).
* The LEBs of a segment are spread evenly over the stripes if and only if there are more of them than stripes, or only
  one (`MapTable.SpreadIff`).
* Pre-erase marking runs into a `BUG_ON()` unless the condition `PreErase.Markable` holds; and always, when segments
  have more PEBs than there are stripes, of which there are several, and the metadata does not end with a portion
  (`PreErase.SpreadNotMarked`).
* `maptbl_set_log_pages` ends in a fault unless the page size divides the PEB and its first size can be aligned
  (`LogPages.SetLogPages`), and every request cuts the PEB into whole logs if and only if the number of pages is a
  multiple of 256, or meets a condition on its divisors up to 256 pages (`LogPages.WholeLogsIff`).
* A full cache fragment does not survive an insertion: its page holds no items afterwards
  (`CacheFragment.AddPair`, `MapTableCache.Cache.CacheLeb2Peb`); ascending LEBs never meet one.
* `fsck` reads the first and last LEB of the cache with 16 bits: it finds every cached LEB if and only if the last
  one is below 65536 (`CacheLookup.AnswersIff`), and it loads the cache if and only if one fragment holds all pairs
  (`CacheLookup.LoadsIff`). The area written is complete under a condition of its own (`CacheLookup.CompleteIff`).
* The bound on the superblock walk fires if and only if the chain is cyclic or ends after it has passed every PEB of
  the volume (`SuperblockChain.BoundFiresIff`); with the snapshot in PEB 0 only the first can be
  (`SuperblockChain.BoundFiresIffCyclic`).
* A LEB that is mapped twice is counted twice, so that the table is valid after a mapping if and only if the LEB was
  not mapped before (`MapTable.MapTbl.MapLeb2Peb`).
* Creation points lose the leading items with timestamp U64_MAX if and only if the placeholder has not been
  assigned and a real timestamp follows (`CreationPoints.KeptIff`).
* A thread of the whole-volume search reads PEBs behind the volume if and only if the last thread starts behind its end,
  as the fourth of four does in a volume of five PEBs (`VolumeSearch.OutsideIff`).
* `SEG_BMAP_FRAGMENTS` is exact for every bitmap of p pages if and only if 32 * (p + 1) bytes fit a page
  (`SegmentBitmap.ExactIff`); the search in a fragment equals a naive scan if and only if start and end are aligned
  to sixteen items (`SegmentSearch.SearchExactIff`); `ssdfs_blkbmap_set_area` is complete if and only if the area's
  span in bytes fits 32 bits (`BlockBitmap.AreaComplete`).

## Model

| member | source | states |
|---|---|---|
| `LayoutCheck.CheckExtentBeforeWrite` | sbin/mkfs.ssdfs/mkfs.c:917-978 | succeeds if and only if the extent is non-empty and inside its erase block and the volume; overflow guards of the offset arithmetic included |
| `LayoutCheck.CheckExtents` | sbin/mkfs.ssdfs/mkfs.c:999-1040 | succeeds if and only if the extents are in order, do not overlap and leave gaps below one page; the start and payload size then span the log |
| `LayoutCheck.ClaimBlks` | sbin/mkfs.ssdfs/mkfs.c:1055-1071 | succeeds if and only if none of the pages was claimed, and then claims exactly those |
| `LayoutCheck.CheckPebBeforeWrite` | sbin/mkfs.ssdfs/mkfs.c:980-1074 | succeeds if and only if the log is acceptable and shares no page with the bitmap |
| `LayoutCheck.ClaimStep` | sbin/mkfs.ssdfs/mkfs.c:1055-1071 | testing one more log against the page bitmap is the same as testing it pairwise against all logs before it |
| `LayoutCheck.CheckSegment` | sbin/mkfs.ssdfs/mkfs.c:1094-1120 | one segment is accepted if and only if its logs are acceptable after those before it and its pages fit the segment |
| `LayoutCheck.SegmentFitsIff` | sbin/mkfs.ssdfs/mkfs.c:1083-1119 | a segment passes the page count if and only if its pages are no more bytes than it has |
| `LayoutCheck.LogsInBlks` | sbin/mkfs.ssdfs/mkfs.c:1083-1119 | the pages counted for the logs of a segment hold all bytes of the logs |
| `LayoutCheck.CheckLayoutBeforeWrite` | sbin/mkfs.ssdfs/mkfs.c:1076-1125 | success if and only if every log is acceptable, no two logs share a page and every segment's pages fit it |
| `LogImage.ImageAtExtent` | sbin/mkfs.ssdfs/mkfs.c:1555-1626 | in the image of a chain of extents every byte of every extent stands at its own offset |
| `LogImage.ImageAtGap` | sbin/mkfs.ssdfs/mkfs.c:1446-1447 | every byte of the image outside the extents is 0xFF |
| `VolumeWriter.Writer.DeviceWrite` | lib/zns_readwrite.c:29-75 | a write replaces exactly its bytes; on a zoned device it is refused if it crosses the zone, and the first write to a zone counts it as open |
| `VolumeWriter.Writer.FlushWriteBuffer` | sbin/mkfs.ssdfs/mkfs.c:1396-1450 | success if and only if the size fits the buffer, the offset is aligned and a zoned device is not made to cross a zone; then the buffered bytes reach the device and the buffer is erased |
| `VolumeWriter.Writer.PrepareWriteBuffer` | sbin/mkfs.ssdfs/mkfs.c:1452-1509 | copies what fits behind the offset, refuses offsets behind the write position, and reports a full page as ENOSPC |
| `VolumeWriter.Writer.StreamExtent` | sbin/mkfs.ssdfs/mkfs.c:1581-1625 | streaming one extent appends exactly its gap of 0xFF and its bytes to what is on the device and in the buffer, and terminates |
| `VolumeWriter.Writer.StreamLog` | sbin/mkfs.ssdfs/mkfs.c:1555-1626 | after all extents the device and the buffer together hold the image of the log |
| `VolumeWriter.Writer.WritePeb` | sbin/mkfs.ssdfs/mkfs.c:1511-1687 | success if and only if the log starts in the first page, or one page late with whole pages; one sequential run of page writes, each page once, opening its zone once; the log is at its own place if and only if it starts in the first page, or is 0xFF throughout behind an erased page |
| `VolumeWriter.PlacedIff` | sbin/mkfs.ssdfs/mkfs.c:1632-1647 | the bytes that write_peb puts at the start of the PEB leave the log at its own place exactly under that condition |
| `VolumeWriter.LateTail` | sbin/mkfs.ssdfs/mkfs.c:1632-1647 | what is left to flush of a log behind the first page is one page only if the log is exactly one page late and fills whole pages |
| `VolumeImage.PatchSurvives` | sbin/mkfs.ssdfs/mkfs.c:1689-1713 | writing disjoint patches in sequence leaves every one of them in place |
| `VolumeImage.ExtentOnVolume` | sbin/mkfs.ssdfs/mkfs.c:1689-1713 | byte k of every extent of an accepted layout is at peb_id * erase_size + offset + k |
| `VolumeImage.GapOnVolume` | sbin/mkfs.ssdfs/mkfs.c:1689-1713 | in the pages of a log every byte outside its extents is 0xFF |
| `VolumeImage.OtherPagesUnchanged` | sbin/mkfs.ssdfs/mkfs.c:1689-1713 | every byte on a page that no log claimed keeps its old value |
| `VolumeImage.WriteSegments` | sbin/mkfs.ssdfs/mkfs.c:1689-1713 | success if and only if every log gets to its end; then the device is the old one patched with what was written for all logs, the requests are one sequential run per PEB, and the zones left open are the PEBs written outside the initial snapshot |
| `VolumeImage.WriteDevice` | sbin/mkfs.ssdfs/mkfs.c:1715-1771 | success if and only if all reserved segments are there, the layout is acceptable, every log gets to its end and the open zones are as many as calculated; which of the conditions gives EINVAL, ERANGE and E2BIG; a layout that is refused leaves the device alone |
| `LogLayout.SetExtentStartOffset` | sbin/mkfs.ssdfs/common.c:71-197 | stores the offset given by a closed form of all sizes, changes nothing else, and refuses unknown indexes |
| `LogLayout.BodyOffset` | sbin/mkfs.ssdfs/common.c:131-188 | the accumulated, repeatedly rounded offset of a body extent equals the closed form |
| `LogLayout.BackupArithmetic` | sbin/mkfs.ssdfs/common.c:174-188 | the offset table backup starts behind the block bitmap backup exactly under a condition on the two remainders |
| `LogLayout.PlacedWellPlaced` | sbin/mkfs.ssdfs/common.c:71-197 | the offsets of all nine extents, with a cache behind the header put there, pass the pre-write check if and only if the log fits, the cache is apart and the backups are apart |
| `LogLayout.CacheChained` | sbin/mkfs.ssdfs/superblock_segment.c:1699-1709 | a cache that is put behind the header is in order, and ends less than a page in front of the next extent, exactly under the stated condition |
| `LogLayout.DefineSuperblockLog` | sbin/mkfs.ssdfs/superblock_segment.c:1642-1726 | the calls and the override leave header, cache and footer at the offsets of the closed form |
| `LogLayout.SuperblockLog` | sbin/mkfs.ssdfs/superblock_segment.c:1699-1726 | the log of a superblock segment passes the check if and only if it fits, and its page count is its rounded-up end, whatever the size of the cache |
| `LogLayout.CalculateLogPages` | sbin/mkfs.ssdfs/common.c:199-281 | the pages counted hold exactly the rounded parts of the log, an inline cache sharing the pages of the head; a log larger than the PEB is refused |
| `LogLayout.LogPagesIsEnd` | sbin/mkfs.ssdfs/common.c:199-281 | without backups the page count is the rounded-up end of the footer if and only if neither the offset of the header nor a cache behind it moves the end of the head into another page |
| `MapTablePolicy.PortionsPerFragment` | sbin/mkfs.ssdfs/mapping_table.c:189-222 | the portions fit the erase block if and only if the requested size does not overflow 32 bits; then they are the requested number, or the largest that fits; with an overflow they are cut only by what the wrapped size has too much, in whole portions |
| `MapTablePolicy.PebsPerStripe` | sbin/mkfs.ssdfs/mapping_table.c:134-142 | the largest multiple, up to 476, of the least number of LEBs with which the stripes take a segment, or 476 for segments with no more PEBs than stripes; none if and only if a segment has more PEBs than the stripes can describe |
| `MapTablePolicy.CorrectStripes` | sbin/mkfs.ssdfs/mapping_table.c:28-54 | with more stripes than dies the largest multiple of the dies up to the request; otherwise what the dies are short of a multiple of the stripes |
| `MapTablePolicy.BalanceStripes` | sbin/mkfs.ssdfs/mapping_table.c:92-108 | two stripes if the PEB pages of a portion describe less than one page of LEBs, otherwise as many as they fill such pages |
| `MapTablePolicy.StripesUnique` | sbin/mkfs.ssdfs/mapping_table.c:89-127 | the rule for corrected and balanced stripes, or for the fewest that suffice on a zoned device, leaves one number |
| `MapTablePolicy.DefaultStripes` | sbin/mkfs.ssdfs/mapping_table.c:89-145 | one stripe on one die of a block device ends as two stripes and 952 PEBs per portion, up to two PEBs per segment |
| `MapTablePolicy.PebNumbers` | sbin/mkfs.ssdfs/mapping_table.c:85-87 | the PEBs counted are the whole erase blocks of the volume, and those of a segment unless their number overflows 32 bits |
| `MapTablePolicy.QuotaIs` | sbin/mkfs.ssdfs/mapping_table.c:235-240 | the limit on the segments of the table is the number of whole tenths of the volume, counted in segments |
| `MapTablePolicy.ChooseStripes` | sbin/mkfs.ssdfs/mapping_table.c:90-142 | E2BIG if and only if a zoned device needs too many stripes, a division by zero if and only if the stripes cannot describe the PEBs of a segment; otherwise the stripes follow, without choice, from the rule on the corrected request |
| `MapTablePolicy.FewestSegments` | sbin/mkfs.ssdfs/mapping_table.c:224-228 | with one segment less some PEB of the volume would have no descriptor |
| `MapTablePolicy.EnoughPortions` | sbin/mkfs.ssdfs/mapping_table.c:224-228 | the PEBs of the table hold a descriptor for every PEB of the volume |
| `MapTablePolicy.ChooseGeometry` | sbin/mkfs.ssdfs/mapping_table.c:56-277 | a geometry is chosen if and only if the options are acceptable; its stripes and descriptors per stripe obey their rules; it is valid if and only if the number of portions fits 32 bits, fits its erase blocks (unless the requested size overflows), covers the volume with the fewest segments and takes at most a tenth of it |
| `MapTablePolicy.ChosenUsable` | sbin/mkfs.ssdfs/mapping_table.c:543-578 | a chosen geometry whose number of portions fits 32 bits meets all that preparing and filling the table asks for |
| `MapTableGeometry.LocateAgrees` | sbin/mkfs.ssdfs/mapping_table.c:735-783 | the mixed-radix lookup gives in-range indexes for every LEB, and the fragment found describes the LEB at slot leb_id - start_leb |
| `MapTableGeometry.CoveredInPortion` | sbin/mkfs.ssdfs/mapping_table.c:411-495 | whatever a stripe describes is inside its own portion and inside the volume |
| `MapTableGeometry.PebFragmentsDisjoint` | sbin/mkfs.ssdfs/mapping_table.c:411-495 | no PEB is described by two stripes, whatever the number of stripes |
| `MapTableGeometry.StripeFitsPage` | sbin/mkfs.ssdfs/mapping_table.c:411-495 | the descriptors of a stripe fit one page |
| `MapTableGeometry.PebTilingIff` | sbin/mkfs.ssdfs/mapping_table.c:411-495 | the stripes describe every PEB of the volume if and only if the last portion divides evenly enough; always with one or two stripes |
| `MapTableGeometry.LebTilingIff` | sbin/mkfs.ssdfs/mapping_table.c:336-409 | the LEB pages describe no LEB twice if and only if they fill their portion, or there is one page or one portion; always with one or two stripes |
| `MapTable.FreshValid` | sbin/mkfs.ssdfs/mapping_table.c:497-578 | the prepared table is consistent, uses no PEB and maps no LEB |
| `MapTable.FindUnusedPeb` | sbin/mkfs.ssdfs/mapping_table.c:810-839 | the first free PEB of the page, or U16_MAX if and only if there is none |
| `MapTable.StripeIndex` | sbin/mkfs.ssdfs/mapping_table.c:967-1002 | a segment with more LEBs than there are stripes is spread over them: with n the least number of LEBs for which the stripes take them all, stripe s gets those with index s * n to s * n + n - 1; every other LEB gets stripe 0 |
| `MapTable.StripeUnique` | sbin/mkfs.ssdfs/mapping_table.c:967-1002 | the stripe of a LEB is the only one that meets that rule |
| `MapTable.StripeShare` | sbin/mkfs.ssdfs/mapping_table.c:989-996 | no stripe takes more LEBs of a segment than that least number |
| `MapTable.SpreadIff` | sbin/mkfs.ssdfs/mapping_table.c:985-999 | with several stripes the LEBs of segments are spread evenly if and only if a segment has more LEBs than there are stripes, or one |
| `MapTable.DescStep` | sbin/mkfs.ssdfs/mapping_table.c:871-880 | the PEB handed out is described as in use with the type passed, and no other descriptor changes |
| `MapTable.ClearBitUnused` | sbin/mkfs.ssdfs/mapping_table.c:841-881 | a clear bit means that no page anywhere has that PEB in use |
| `MapTable.AssignStep` | sbin/mkfs.ssdfs/mapping_table.c:1047-1068 | giving a free PEB to a LEB: it is in the stripe that the rule gives the LEB, inside the volume and was unused, exactly it becomes used and its descriptor says so with the type passed, exactly that LEB's lookup changes, one more LEB is counted, the mapping stays injective |
| `MapTable.NoBugOn` | sbin/mkfs.ssdfs/mapping_table.c:841-965 | none of the BUG_ON conditions of the two marking functions fires: the descriptor has neither state nor type, the page counts fewer LEBs than it has, the physical index fits |
| `MapTable.MapTbl.constructor` | sbin/mkfs.ssdfs/mapping_table.c:543-578 | a prepared table is consistent |
| `MapTable.NearEnough` | sbin/mkfs.ssdfs/mapping_table.c:918-931 | the index fits for every LEB whose stripe has a number below 137 |
| `MapTable.LocateCovers` | sbin/mkfs.ssdfs/mapping_table.c:735-783 | the page that is found, with 32-bit indexes, describes the LEB if and only if the LEB is inside the volume |
| `MapTable.RemapBreaks` | sbin/mkfs.ssdfs/mapping_table.c:933-965 | mapping a LEB that is mapped leaves a page that counts more LEBs than it maps |
| `MapTable.MapTbl.MapLeb2Peb` | sbin/mkfs.ssdfs/mapping_table.c:1004-1069 | a BUG if and only if the LEB is outside the volume or the index of the PEB it would get does not fit 16 bits; otherwise the first free PEB of the stripe that the rule gives the LEB is mapped and described as in use with its type, or U64_MAX is returned and nothing changes when all of its PEBs are used; the table stays valid if and only if the LEB was not mapped |
| `MapTableRun.RunExtend` | sbin/mkfs.ssdfs/mapping_table.c:1071-1159 | a run of mappings followed by one more is a run |
| `MapTableRun.MapAllocatedLebs` | sbin/mkfs.ssdfs/mapping_table.c:1071-1159 | over any run on distinct LEBs the PEBs are pairwise distinct, inside the volume, in the stripes of the rule and were unused, the used PEBs grow by exactly them, each is described as in use with the type of its LEB and no other descriptor changes, the sum of mapped_lebs grows by their number; the run stops only at a LEB outside the volume, with a full stripe, or with an index that does not fit 16 bits |
| `PreErase.MarkStripe` | sbin/mkfs.ssdfs/mapping_table.c:883-916 | marks the descriptors from an index on as pre-erased, without a type, if and only if all of them were unused |
| `PreErase.MarkStep` | sbin/mkfs.ssdfs/mapping_table.c:1252-1257 | marking the rest of one stripe extends the pre-erased range and leaves the used PEBs and their descriptors alone |
| `PreErase.DescriptorStates` | sbin/mkfs.ssdfs/mapping_table.c:841-916 | in every table a PEB is used exactly if its descriptor says in use with one of the eight types, pre-erased exactly if it says so without a type, and neither exactly if it has neither state nor type |
| `PreErase.DescKept` | sbin/mkfs.ssdfs/mapping_table.c:883-916 | marking keeps the descriptor of every used PEB |
| `PreErase.MarkPortion` | sbin/mkfs.ssdfs/mapping_table.c:1227-1261 | gets through a portion if and only if it enters in the first stripe and the stripes follow each other, and then all PEBs of the portion are marked and the descriptors of the used ones kept |
| `PreErase.TwoStripesFollow` | sbin/mkfs.ssdfs/mapping_table.c:1227-1261 | one or two stripes always follow each other |
| `PreErase.MarkableTwoStripes` | sbin/mkfs.ssdfs/mapping_table.c:1161-1269 | with at most two stripes marking succeeds if and only if the first stripe of the portion has a PEB left |
| `PreErase.SpreadNotMarked` | sbin/mkfs.ssdfs/mapping_table.c:1187-1245 | with more PEBs in a segment than stripes the first stripe that the marking visits is a BUG_ON, whatever has been mapped, unless the metadata ends with a portion |
| `PreErase.MarkUnallocated` | sbin/mkfs.ssdfs/mapping_table.c:1161-1269 | nothing is done for a volume that is going to be erased; otherwise success if and only if `Markable`, and then every PEB of the volume is exactly one of used, with its descriptor as before, and pre-erased, with a descriptor that says so and no type; pre_erased_pebs is their number |
| `PreErase.InOrderRun` | sbin/mkfs.ssdfs/mapping_table.c:1071-1159 | mapping LEBs 0 to n-1 in order into an unused table gives them the PEBs 0 to n-1 |
| `PreErase.MapAndMark` | sbin/mkfs.ssdfs/mapping_table.c:1541-1553 | mapping in order and marking the rest fails with ERANGE if and only if some LEB does not find its PEB in its stripe, and otherwise in a BUG_ON if and only if the rest is not markable; at the end every PEB is described as in use with the type of its LEB, or as pre-erased, and the LEBs are counted |
| `MapTableExtents.DefineExtents` | sbin/mkfs.ssdfs/mapping_table.c:1312-1358 | the extents expand to exactly the list of segments, unused extents are empty, and the BUG_ON fires if and only if there are more than three runs |
| `MapTableExtents.VisitExtents` | sbin/fsck.ssdfs/detect_file_system.c:1961-1987 | visiting start_id + i for i below len, extent after extent, gives the segments that the extents expand to, so that fsck visits exactly the list that mkfs encoded |
| `MapTableExtents.ExtentsAtLeastRuns` | sbin/mkfs.ssdfs/mapping_table.c:1312-1358 | no list of extents that names the segments in order is shorter than their number of runs, so that a refused list has no encoding |
| `LogPages.AlignLogPages` | sbin/mkfs.ssdfs/mapping_table.c:1639-1640 | the loop ends at the least divisor of the pages per PEB, or divides by zero exactly when it starts above them or the page size does not divide the PEB |
| `LogPages.AlignedExists` | sbin/mkfs.ssdfs/mapping_table.c:1633-1655 | from five pages per PEB on every start inside the PEB can be aligned |
| `LogPages.SetLogPages` | sbin/mkfs.ssdfs/mapping_table.c:1584-1677 | ends well if and only if no BUG_ON fires, the page size divides the PEB and the first size can be aligned; the result is at least min(blks, 256) and at least min(requested, 256) if a size is requested, at most 256, and divides the pages per PEB, if these are `WholeLogs` |
| `LogPages.WholeLogsIff` | sbin/mkfs.ssdfs/mapping_table.c:1662-1664 | every request gives a size that divides the pages per PEB if and only if these are a multiple of 256, or, up to 256, the default number of logs divides them or they have no divisor from 4 on below the default size |
| `LogPages.PowersWhole` | sbin/mkfs.ssdfs/mapping_table.c:1662-1664 | powers of two meet that condition |
| `Bytes.Value64` | include/kerncompat.h:368-372 | reading back a stored little-endian value gives that value |
| `Bytes.MovedApart` | sbin/mkfs.ssdfs/mapping_table_cache.c:419-423 | moving the second of two adjacent byte strings leaves both readable, overlap or not |
| `CacheFragment.PrepareFragment` | sbin/mkfs.ssdfs/mapping_table_cache.c:109-151 | a reader finds signature, key, version 1.20 and sequence number, no flags and no items, and zeroes behind the header |
| `CacheFragment.StateAreaIs` | sbin/mkfs.ssdfs/mapping_table_cache.c:223-334 | for a page that holds n items the area of states is found behind the pairs, with its exact size |
| `CacheFragment.FindPlace` | sbin/mkfs.ssdfs/mapping_table_cache.c:427-437 | reading the pairs from the end finds the place behind the last LEB that is not greater |
| `CacheFragment.InsertBody` | sbin/mkfs.ssdfs/mapping_table_cache.c:439-457 | two moves and two copies insert the pair and the state at the same place, and touch nothing else |
| `CacheFragment.AddToFull` | sbin/mkfs.ssdfs/mapping_table_cache.c:394-476 | a full fragment hands out its last item and is left with the others and the new one, but no header that fits any items; a LEB above all others can be written behind the page |
| `CacheFragment.OutsideIff` | sbin/mkfs.ssdfs/mapping_table_cache.c:439-457 | a new last pair of a full fragment is written behind the page if and only if less than four bytes are left there, or less than eight in a page for one pair |
| `CacheFragment.AddPair` | sbin/mkfs.ssdfs/mapping_table_cache.c:353-482 | inserting into a fragment with room refines insertion into a sorted list: header, pairs, magic, matching states, first and last LEB, item and byte counts; the page holds items afterwards if and only if it had room |
| `CacheFragment.InsertedSorted` | sbin/mkfs.ssdfs/mapping_table_cache.c:427-457 | that insertion keeps the order and adds exactly the new item |
| `MapTableCache.Cache.constructor` | sbin/mkfs.ssdfs/mapping_table_cache.c:28-90 | as many empty fragments as the allocated LEBs need |
| `MapTableCache.Cache.FindFragment` | sbin/mkfs.ssdfs/mapping_table_cache.c:184-221 | for any LEB, the first fragment that is empty, has the LEB in its range, or ends below it and has room |
| `MapTableCache.Cache.CacheLeb2Peb` | sbin/mkfs.ssdfs/mapping_table_cache.c:484-543 | for any LEB: a BUG if no fragment takes it, sorted insertion into a fragment with room, and a page that holds no items where the fragment is full |
| `MapTableCache.AscendingSlot` | sbin/mkfs.ssdfs/mapping_table_cache.c:184-221 | a LEB above all others goes to the fragment of the next item, which has room |
| `MapTableCache.CacheShape` | sbin/mkfs.ssdfs/mapping_table_cache.c:464-543 | after an ascending run the fragments one after the other are the pairs in order, every fragment before one in use is full, and bytes_count is the sum of the byte counts in the headers |
| `MapTableCache.CacheNumbered` | sbin/mkfs.ssdfs/mapping_table_cache.c:131-139 | whatever has been cached, the header of each fragment has its signature, key, version and number in the sequence |
| `MapTableCache.CachedStates` | sbin/mkfs.ssdfs/mapping_table_cache.c:502-508 | a reader of the state of any cached pair finds consistent, in use, no flags and no shared PEB |
| `MapTableCache.BuildCache` | sbin/mkfs.ssdfs/mapping_table_cache.c:28-90 | for ascending LEBs the fragments counted beforehand are never exceeded and hold exactly the pairs |
| `CacheLookup.ConvertLeb2Peb` | sbin/fsck.ssdfs/detect_file_system.c:1062-1151 | for any header and data: the first pair with the LEB, among those that the item count and the 16-bit count of processed bytes let it reach, if the LEB is between the low 16 bits of the first and last LEB; U64_MAX otherwise |
| `CacheLookup.AnswerIs` | sbin/fsck.ssdfs/detect_file_system.c:1115-1150 | for a loaded cache this is the cached PEB, all pairs being reached |
| `CacheLookup.AnswersIff` | sbin/fsck.ssdfs/detect_file_system.c:1097-1107 | every cached LEB gets its PEB if and only if the last LEB is below 65536 |
| `CacheLookup.AnswerOther` | sbin/fsck.ssdfs/detect_file_system.c:1115-1150 | every LEB that is not cached gets U64_MAX |
| `CacheLookup.WriteArea` | sbin/mkfs.ssdfs/superblock_segment.c:1678-1699 | the area is the first bytes_count bytes of the whole pages one after the other |
| `CacheLookup.CompleteIff` | sbin/mkfs.ssdfs/superblock_segment.c:1678-1699 | every fragment in use is in the area with all its bytes if and only if one fragment holds all pairs, or a full fragment fills its page |
| `CacheLookup.LoadsIff` | sbin/fsck.ssdfs/detect_file_system.c:831-914 | the area that mkfs writes is accepted if and only if one fragment holds all pairs, and the loaded copy has exactly these pairs |
| `CacheLookup.RoundTrip` | sbin/fsck.ssdfs/detect_file_system.c:1062-1151 | build, write, load and ask: found if and only if one fragment holds all pairs; every LEB that is not cached gets U64_MAX, every cached one its PEB if the last LEB is below 65536 |
| `CacheLookup.MapThenLookup` | sbin/mkfs.ssdfs/mapping_table.c:1071-1118 | after the allocated LEBs have been mapped and cached, what fsck answers for a cached LEB is what the mapping table says about it, if the last LEB is below 65536 |
| `SuperblockChain.FollowChain` | sbin/fsck.ssdfs/detect_file_system.c:682-717 | stops on every device; fails if and only if as many hops succeed as the volume has PEBs, less one; otherwise records the last link of the chain |
| `SuperblockChain.FindSuperblock` | sbin/fsck.ssdfs/detect_file_system.c:561-735 | starts at the first of current, next and reserved PEB that holds a superblock segment; on success the recorded PEB is the last of a chain of superblock segments, each in the PEB that the one before it names as next, and its own next pointer leads to none |
| `SuperblockChain.WalkIsChain` | sbin/fsck.ssdfs/detect_file_system.c:682-717 | k hops lead to a link if and only if a chain of k further superblock segments on the device, each named as next by the one before it, ends with it |
| `SuperblockChain.CyclicNeverEnds` | sbin/fsck.ssdfs/detect_file_system.c:682-717 | a chain that comes back to a link never ends |
| `SuperblockChain.BoundFiresIff` | sbin/fsck.ssdfs/detect_file_system.c:710-716 | with superblock segments only inside the volume the bound fires if and only if the chain is cyclic or ends after it has passed every PEB |
| `SuperblockChain.BoundFiresIffCyclic` | sbin/fsck.ssdfs/detect_file_system.c:710-716 | with the snapshot in PEB 0 it fires if and only if the chain is cyclic |
| `CreationPoints.MapIndexInverse` | sbin/fsck.ssdfs/detect_file_system.c:2622-2655 | an item goes to map k if and only if k is 1 to 7 and its type is that of the PEBs of segment type k: the choice is the inverse of SEG2PEB_TYPE |
| `PebTypes.Seg2PebTypeInjective` | include/ssdfs_constants.h:120-152 | segments of different known types have PEBs of different types |
| `CreationPoints.MetaMap.Resized` | sbin/fsck.ssdfs/detect_file_system.c:2215-2257 | a map that is full grows to eight items, or to twice its size, and keeps its items |
| `CreationPoints.InsertPoint` | sbin/fsck.ssdfs/detect_file_system.c:2559-2575 | inserting a point keeps the order of times, the items of every map and a point for every item |
| `CreationPoints.StoreItem` | sbin/fsck.ssdfs/detect_file_system.c:2657-2671 | storing an item keeps map k of every point equal to the items of segment type k in order, and marks the point as prepared exactly if it has an item |
| `CreationPoints.Detection.FindPoint` | sbin/fsck.ssdfs/detect_file_system.c:2450-2481 | finds the point of a time if and only if there is one |
| `CreationPoints.Detection.AddPoint` | sbin/fsck.ssdfs/detect_file_system.c:2483-2582 | the new point is in its place; an unassigned placeholder is taken over and what it held is lost |
| `CreationPoints.Detection.ProcessItem` | sbin/fsck.ssdfs/detect_file_system.c:2584-2677 | the item is added to the map of its time and segment type; a type that no metadata segment has gives EINVAL and leaves only a point |
| `CreationPoints.ProcessItems` | sbin/fsck.ssdfs/detect_file_system.c:2679-2712 | the points are strictly ascending, map k is the in-order subsequence of the items kept that belong to segments of type k, every item kept has a point and no other time but the initial one has |
| `CreationPoints.KeptIff` | sbin/fsck.ssdfs/detect_file_system.c:2511-2518 | nothing is lost, except when leading items with timestamp U64_MAX meet an unassigned placeholder and a real timestamp follows |
| `CreationPoints.FilterAfterMax` | sbin/fsck.ssdfs/detect_file_system.c:2511-2518 | what is lost has no real time: the items of every real time are all kept |
| `VolumeSearch.ScannedKind` | sbin/fsck.ssdfs/detect_file_system.c:2288-2321 | the type put into an item is that of the PEBs of its segment, for the seven types of metadata segments only |
| `VolumeSearch.ScanRange` | sbin/fsck.ssdfs/detect_file_system.c:2334-2448 | the items of a thread are those of the PEBs in its range that have a metadata header, in order |
| `VolumeSearch.RangeIs` | sbin/fsck.ssdfs/fsck.h:274-284 | the range of a thread, with its unsigned subtraction: inside the volume, or a full range behind its end |
| `VolumeSearch.OutsideIff` | sbin/fsck.ssdfs/detect_file_system.c:2726-2743 | some thread reads a PEB behind the volume if and only if the last thread starts behind its end |
| `VolumeSearch.GatheredIs` | sbin/fsck.ssdfs/detect_file_system.c:2715-2769 | whatever the number of threads, what they find one after the other is what a single scan finds, in its order, unless there are headers behind the volume |
| `VolumeSearch.FilterScanned` | sbin/fsck.ssdfs/detect_file_system.c:2259-2332 | scanning and sorting by segment type gives exactly the PEBs whose headers name that type and time |
| `VolumeSearch.SearchVolume` | sbin/fsck.ssdfs/detect_file_system.c:2714-2794 | for every device and number of threads the search succeeds; without headers behind the volume every real time found has its point, in ascending order, and map k of a point names in order exactly the PEBs of segments of type k of the volume created then |
| `PackedBitmap.SetThenGet` | include/common_bitmap.h:138-154 | setting an item of a byte changes that item and no other |
| `PackedBitmap.StateNumber` | include/common_bitmap.h:76-79 | item i of a byte is digit i of its number to the base 2^bits, the lowest first |
| `PackedBitmap.SetNumber` | include/common_bitmap.h:138-154 | setting an item subtracts its old state times 2^(i * bits) from the byte and adds the new one |
| `PackedBitmap.StateAtNumber` | include/common_bitmap.h:76-79 | item i of a bitmap is digit i % n of byte i / n, with n items in a byte |
| `PackedBitmap.FirstStateInByte` | include/common_bitmap.h:63-83 | the first item of a byte at or after the start that has the state |
| `BlockBitmap.SetArea` | lib/blkbmap.c:115-166 | sets exactly the items of the area, keeps all others, and refuses illegal states |
| `BlockBitmap.AreaComplete` | lib/blkbmap.c:134-144 | the whole area is set if and only if its span in bytes does not overflow 32 bits |
| `SegmentBitmap.NeverTooMany` | lib/segbmap.c:25-50 | for every size the fragment count does not exceed the least sufficient one |
| `SegmentBitmap.ExactIff` | lib/segbmap.c:37-50 | the count is the least sufficient one for every bitmap of p pages if and only if 32 * (p + 1) bytes fit a page |
| `SegmentBitmap.TooFewWhenManyPages` | lib/segbmap.c:37-50 | otherwise a bitmap size for which the count is too small |
| `SegmentBitmap.FragmentsHoldItems` | lib/segbmap.c:25-50 | for a bitmap of few pages a count is computed, and a number of fragments holds the items, two to a byte, if and only if it is at least that count |
| `SegmentSearch.TableIsExact` | lib/segbmap.c:88-163 | the table tells whether a byte has a clean item |
| `SegmentSearch.FindCleanInByte` | include/common_bitmap.h:105-129 | the first clean item of a byte at or after the start, ENODATA if there is none |
| `SegmentSearch.SetFirstCleanItemInFragment` | lib/segbmap.c:185-282 | for all header fields and ranges: the error, or the first clean item of the visited range set and no other changed |
| `SegmentSearch.WindowIff` | lib/segbmap.c:223-240 | the visited items are the requested ones if and only if start and end are aligned |
| `SegmentSearch.SearchExactIff` | lib/segbmap.c:185-282 | the search equals a naive scan on every bitmap if and only if start and end are aligned |
| `SegmentSearch.RunDistinct` | lib/segbmap.c:185-282 | repeated allocations, each in a range of its own, never hand out an item twice; in one range they ascend |
| `SegmentSearch.AllocateSegments` | lib/segbmap.c:185-282 | any number of calls on one fragment, for any ranges and states that are not clean: no segment is handed out twice, each was clean, no other segment in use is touched |

## Left out

- Device access, ioctls (`check_peb` and zone closing included), creation and failure of threads, memory allocation failure, option parsing and all printing.
- Compression and checksums: only the uncompressed forms are modelled.
- Erasing of the device and the part of `write_device` that calls it.
- LayoutCheck.CheckLayoutBeforeWrite: page sizes that divide the erase size; mkfs checks this for the options, but not again after the zone size of a zoned device has replaced the erase size.
- VolumeImage.WriteDevice: the device is not erased first and `fsync` does not fail; the same restriction to page sizes that divide the erase size.
- VolumeWriter.Writer.DeviceWrite: block and MTD devices are the same model without the zone rules; short writes are not modelled.
- LogLayout.SetExtentStartOffset: sums are not reduced to 32 bits; a log whose sizes overflow them does not fit an erase block.
- MapTablePolicy.ChooseGeometry: a portion larger than an erase block is reported as such, because the retry subtracts the wrong way round for unsigned values.
- MapTablePolicy.ChooseStripes: a number of descriptors per stripe of zero, which the code divides by later, is reported as a fault at once.
- Bad PEBs (`check_portion_pebs_validity`), which only MTD devices have.
- PreErase.MarkUnallocated: starts from used PEBs 0 to n-1 and one stripe per segment, the state that `InOrderRun` establishes; for more PEBs per segment than stripes `SpreadNotMarked` says that the marking stops at once, except behind metadata that ends with a portion.
- PreErase.MapAndMark: the same restriction.
- MapTable.MapTbl.MapLeb2Peb: the type of a PEB is given; which kind of metadata a segment belongs to is not part of this model, nor are the LEB ids.
- CacheFragment.AddToFull: what is written behind the page is not modelled beyond the fact that it is.
- MapTableCache.Cache.CacheLeb2Peb: says of a full fragment that its page holds no items, not what the pairs moved on do to the fragments behind it.
- CacheLookup.ConvertLeb2Peb: data that is shorter than the pairs it is asked to compare is not modelled.
- LogPages.SetLogPages: page sizes up to 32 KiB that divide 2^32, not larger than the erase size.
- SuperblockChain.FindSuperblock: ends in front of `ssdfs_fsck_find_last_full_log`, which is not part of this model, and starts from a snapshot header that has been found.
- VolumeSearch.SearchVolume: the threads are taken one after the other, since each has a range and a map of its own; a header that another thread rewrites meanwhile is not modelled.
- CreationPoints.Detection: the arrays are values that the methods reassign, so that sharing of memory after `realloc` is not modelled; capacities are not bounded by 31 bits.
- Backup copies of the mapping table, of the block bitmap and of the offset table, beyond where their extents are placed.
- Block-descriptor and offset-table writers, superblock content, inode and b-tree tools, `dump.ssdfs` and `recoverfs.ssdfs`.
