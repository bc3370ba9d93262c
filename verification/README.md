# A verified model of the display driver's data handling

NootedBlue is a kernel extension that drives Intel graphics. Before it can use a panel it reads the
video BIOS table (VBT), indexes its blocks, repairs and checks the panel pointer table, and records the
display devices; it merges property dictionaries into I/O services, searches bitmaps, encodes platforms
in bit masks and edits register fields. A companion script copies a driver and everything it includes
out of a kernel tree. This project models that logic in Dafny and proves what it is for.

`dafny verify dfyconfig.toml` checks everything.

| module | what it models |
|---|---|
| `DictionaryMerge` | the recursive copy-on-write merge of property dictionaries |
| `BdbScan`, `BdbFormat` | the walk over the BIOS data blocks (BDB), and its inverse, writing them |
| `LfpPointers` | block 41, the pointers into the panel data of block 42: generating, rebasing, validating |
| `BdbIndex`, `ChildDevices` | the block index on a linked list, and the devices found through it |
| `IntrusiveList` | the circular doubly linked list |
| `Bitmap` | word-at-a-time searches for set and clear bits |
| `PlatformMask`, `Registers`, `Scale`, `Stepping` | platform bits, register fields, brightness scaling, steppings |
| `IncludeWorklist` | the include-closure worklist |
| `Words`, `Options` | bit operators on natural numbers, little-endian fields, optional values |

How the code's machine-level features appear:

- Bit operators are defined bit by bit on natural numbers (`Words`), and every wrap-around (16-bit
  pointer offsets, 32-bit block ends, 64-bit products, unsigned bounds checks) is written out.
- Memory read by the block walk is a byte sequence that starts at the BDB header and extends at least
  five bytes past the BDB, because the code reads that far unchecked; when a block is copied, it extends
  to the end of what the search takes for a MIPI block, for the same reason (`Copyable`). What lies behind
  a copied block in memory is a parameter.
- The minimum sizes of index entries are a parameter, except those of blocks 41 and 42, which the code
  relies on.
- Dictionaries, lists, pointer tables, mask words and registers are heap objects that methods update in
  place. Dictionaries may share nested dictionaries but are finite and acyclic; allocation succeeds.
- Scratch memory is zero. The code calls `IOMalloc`, which does not promise that, where a comment at
  NootedBlue/kern_nblue.cpp:1282 still names the zeroing allocator and `num_entries++` relies on it.

What the proofs turned up about the code:

- `find_next_zero_bit` is right from inside a word only in the case `ZeroSearchCorrectIff` describes.
  `for_each_clear_bit`, which also calls it from inside words, visits exactly the clear positions if and
  only if that case holds behind every clear bit below the size (`ClearBitLoopCorrectIff`); where it fails,
  some turn does not move forward or lands on a set bit (`ForwardLandsOnSetBit`, `ClearBitLoopVisitsSetBit`).
- A version 3 MIPI block can declare a size whose end overflows 32 bits and then looks in range: a false
  end. Present ids are still found. A search for an absent id that comes to a false end behind the blocks
  goes on where that end seems to lie, or, for the MIPI block itself, returns a block that runs past the
  BDB (`AbsentIdTurn`, `MipiSearchCorrectIff`). Such a search can run for ever (`SearchNeverEnds`);
  `HaltsIffSoon` bounds the turns that decide it. Without a MIPI block among the
  blocks, all searches are right exactly when no false end lies behind them (`AllAnswersIff`).
- The walk takes the 32-bit size of a version 3 MIPI block to count the version and the size field, the copy
  takes it not to: the entry made for such a block has five bytes of what follows it (`IndexAgreesWithScan`).
- A failed merge is described in a comment (NootedBlue/DisplayMergeNub.cpp:295) as bailing out without
  doing anything, but the keys that come before the failing one stay merged. {a: 1, b: {}} over {b: {}} is
  an example (`FailedMergeKeepsKeys`); `UnchangedInEveryOrderIff` says exactly when nothing changes.
- The include worklist closes over include names, not files. `RunCloses` holds always; `RunIsExactClosure`
  when no names clash in some closed set around the roots; where clashing files have no aliases that
  condition is exact (`ExactClosureIff`). `NameClashHappens` is a tree in which an included header is missed.
- The driver copies 44 bytes per child device, although records may declare as few as 33. A shorter record
  is copied with the beginning of the next one (`ShortRecordTakesNext`), and the last one may be copied with
  bytes from behind the block; `ParsedFromEntryIff` says exactly when none are.
- The register bounds check keeps accesses inside the mapping exactly when the mapping has four bytes
  (`InRangeSafeIff`), and then leaves out its last whole register, which always reads 0 and is never
  written (`InRangeIff`).

## Model

| member | source | states |
|---|---|---|
| `DictionaryMerge.Dictionary.WithDictionary` | NootedBlue/DisplayMergeNub.cpp:265 | a shallow copy has the same contents and shares every nested dictionary |
| `DictionaryMerge.Dictionary.SetObject` | NootedBlue/DisplayMergeNub.cpp:304 | setting one key changes that key's subtree and keeps the structure acyclic |
| `DictionaryMerge.MergeEntry` | NootedBlue/DisplayMergeNub.cpp:229-311 | one key: succeeds exactly if its dictionary pair, if any, merges; only `target` is written, and not at all on failure |
| `DictionaryMerge.MergeEntries` | NootedBlue/DisplayMergeNub.cpp:217-316 | for every key order, on success and on failure: the target is the old one with exactly the keys before the first failing one merged; success exactly when `Succeeds`, which `SucceedsIff` spells out |
| `DictionaryMerge.MergeDictionaryIntoDictionary` | NootedBlue/DisplayMergeNub.cpp:217-316 | null arguments fail; on success the contents are the deep merge, on failure the old contents with the keys before the failing one merged; every other reachable dictionary is unchanged |
| `DictionaryMerge.MergeDictionaryIntoProvider` | NootedBlue/DisplayMergeNub.cpp:96-202 | the same for the loop over a service's property table |
| `DictionaryMerge.SuccessMergesAll` | NootedBlue/DisplayMergeNub.cpp:217-316 | a merge that succeeds gives the deep merge, whatever the key order |
| `DictionaryMerge.SucceedsIff` | NootedBlue/DisplayMergeNub.cpp:217-316 | a merge succeeds if and only if at no path the source has an empty dictionary and the target a dictionary |
| `DictionaryMerge.MergedBeforeFailureIs` | NootedBlue/DisplayMergeNub.cpp:229-311 | the keys merged before a failure are those up to the first one in the order that does not merge |
| `DictionaryMerge.UnchangedInEveryOrderIff` | NootedBlue/DisplayMergeNub.cpp:285-316 | a merge leaves the target unchanged in every key order if and only if the target already holds the merged value of every key that merges successfully |
| `DictionaryMerge.FailedMergeKeepsKeys` | NootedBlue/DisplayMergeNub.cpp:285-316 | {a: 1, b: {}} over {b: {}} fails, and leaves a merged if a comes first |
| `DictionaryMerge.MergeTwice` | NootedBlue/DisplayMergeNub.cpp:217-316 | without empty source dictionaries a second merge, now with shared sub-dictionaries, succeeds and changes no contents |
| `DictionaryMerge.SucceedsEverywhereIffNoEmpty` | NootedBlue/DisplayMergeNub.cpp:221-316 | a source merges into every target if and only if it holds no empty dictionary at any depth |
| `DictionaryMerge.DeepMergeIdempotent` | NootedBlue/DisplayMergeNub.cpp:217-316 | merging the same source again changes nothing |
| `DictionaryMerge.MergedScalars` | NootedBlue/DisplayMergeNub.cpp:217-316 | a path holds a scalar after the merge exactly if the source holds it there, or the target did and the source overrides nothing on the way |
| `DictionaryMerge.MergedDictionaries` | NootedBlue/DisplayMergeNub.cpp:217-316 | a path holds a dictionary after the merge exactly if the source holds one there, or the target did and the source overrides nothing on the way |
| `BdbScan.BlocksPlaced` | NootedBlue/kern_nblue.cpp:443-471 | every block that lies back to back with the header lies inside the BDB behind a header that declares it |
| `BdbScan.StepAsMeantIff` | NootedBlue/kern_nblue.cpp:455-468 | a turn in 32-bit arithmetic is the turn in exact arithmetic if and only if the block has no false end (one that overflows and then looks in range); only version 3 MIPI blocks can have one |
| `BdbScan.WalkOverBlocks` | NootedBlue/kern_nblue.cpp:443-471 | the code's own turns find the first block of a present id, and for an absent id arrive where the blocks end |
| `BdbScan.AbsentIdTurn` | NootedBlue/kern_nblue.cpp:443-471 | what the search for an absent id does there: stops without a false end; with one returns it, for the MIPI id, although it runs past the BDB, and otherwise goes on where it seems to end |
| `BdbScan.SearchableAnswers` | NootedBlue/kern_nblue.cpp:443-471 | with the id present or no false end behind the blocks, the search reports what it should at the latest one turn after the last block |
| `BdbScan.MipiSearchCorrectIff` | NootedBlue/kern_nblue.cpp:443-471 | the search for the MIPI id always ends; it is right if and only if the id is present or no false end lies behind the blocks, and otherwise returns a block that runs past the BDB |
| `BdbScan.AllAnswersIff` | NootedBlue/kern_nblue.cpp:443-471 | in a BDB without a MIPI block, the searches for all ids are right if and only if no false end lies behind the blocks |
| `BdbScan.HaltsIffSoon` | NootedBlue/kern_nblue.cpp:449-468 | any search ends, and reports what it should, if and only if it does so within as many turns as the BDB has bytes, plus two |
| `BdbScan.SearchNeverEnds` | NootedBlue/kern_nblue.cpp:455-468 | a false end that points back to its own block is met again after any number of turns |
| `BdbScan.NeverEndingSearchExists` | NootedBlue/kern_nblue.cpp:455-468 | such a BDB exists |
| `BdbScan.FoundAtBlock` | NootedBlue/kern_nblue.cpp:455-468 | whatever a search returns lies behind a header with that id, and inside the BDB unless it is a MIPI block with a false end |
| `BdbScan.AnswerFindsSection` | NootedBlue/kern_nblue.cpp:443-471 | for a present id, and for every search that is right, what the search finds is the first block with the id |
| `BdbScan.FoundSectionPlaced` | NootedBlue/kern_nblue.cpp:455-468 | what a search returns lies inside the BDB, unless it is for the MIPI id and wrong |
| `BdbScan.FindRawSection` | NootedBlue/kern_nblue.cpp:443-471 | a search that ends returns what the code's turns lead to, a block behind a header with the id; inside the BDB, unless it is for the MIPI id and wrong; where the search is right, the first block with the id, and null exactly if there is none |
| `BdbFormat.RoundTrip` | NootedBlue/kern_nblue.cpp:434-471 | reading back a written BDB, 16-bit blocks and version 3 MIPI sequences mixed, gives the written blocks if and only if the last one is not an empty block; otherwise just that one is missed |
| `BdbFormat.FindInSerialized` | NootedBlue/kern_nblue.cpp:434-471 | searching a written BDB finds the first visible block written with that id, or nothing |
| `LfpPointers.PtrsRoundTrip` | NootedBlue/intel_vbt_defs.h:1285-1301 | the packed 148-byte layout of the pointer table loses nothing |
| `LfpPointers.PtrsLayout` | NootedBlue/intel_vbt_defs.h:1285-1301 | where each field of each row lies in the 148 bytes |
| `LfpPointers.RaisedGenerated` | NootedBlue/kern_nblue.cpp:1326-1335 | inside a BDB the 16-bit offsets never wrap |
| `LfpPointers.Generate` | NootedBlue/kern_nblue.cpp:1251-1339 | a table is generated exactly for version 155 on and a block 42 of at least 1056 bytes, with exact BDB-relative offsets |
| `LfpPointers.GeneratedFields` | NootedBlue/kern_nblue.cpp:1251-1339 | every offset and size of a generated table; the panel names are included exactly if all 16 fit |
| `LfpPointers.GeneratedRebases` | NootedBlue/kern_nblue.cpp:1251-1469 | rebasing a generated table gives the exact block-relative layout, valid if and only if all 16 terminators are 0xffff |
| `LfpPointers.PtrTable.CheckLayout` | NootedBlue/kern_nblue.cpp:1366-1419 | the size and stride checks accept exactly 16 back-to-back panels from offset 0, with fp_timing as declared or six bytes longer, and return its actual size |
| `LfpPointers.PtrTable.Validate` | NootedBlue/kern_nblue.cpp:1350-1441 | accepts exactly the tables that describe block 42, which `DescribesIff` spells out |
| `LfpPointers.BuiltDescribesIff` | NootedBlue/kern_nblue.cpp:1350-1441 | a table written out for a declared and an actual fp_timing size is accepted if and only if the declared size is at least 32, the actual one the same or six more, panels and names fit, and each fp_timing ends in two 0xff bytes |
| `LfpPointers.DescribesIff` | NootedBlue/kern_nblue.cpp:1350-1441 | a table is accepted if and only if it is one of those |
| `LfpPointers.TablesTile` | NootedBlue/kern_nblue.cpp:1386-1441 | in an accepted table every byte of the panel entries belongs to exactly one of the 48 sub-tables |
| `LfpPointers.TablesInside` | NootedBlue/kern_nblue.cpp:2573-2640 | the first offset is 0 and every panel lookup, names included, stays inside block 42 and the BDB |
| `LfpPointers.PtrTable.Fixup` | NootedBlue/kern_nblue.cpp:1442-1469 | succeeds exactly if all offsets can be lowered and the lowered table describes block 42; the table then is that one |
| `LfpPointers.RebasedIff` | NootedBlue/kern_nblue.cpp:1442-1469 | rebasing is possible and gives v if and only if the table is v with all offsets in use raised |
| `BdbIndex.MakeEntry` | NootedBlue/kern_nblue.cpp:1482-1518 | the entry copied for an id, filled up to the minimum size: the raw header and payload, with five bytes more for a version 3 MIPI block, or a usable block 41, raw or generated |
| `BdbIndex.LoadableWithoutFalseEnd` | NootedBlue/kern_nblue.cpp:1472-1541 | without a false end behind the blocks every section can be loaded: its searches end, and what is copied is mapped |
| `BdbIndex.Display.InitBdbBlock` | NootedBlue/kern_nblue.cpp:1472-1521 | appends that entry, if there is one, and nothing else |
| `BdbIndex.Display.IndexedMinSize` | NootedBlue/kern_nblue.cpp:487-502 | the minimum size for block 42, computed from the indexed block 41, is that of the usable pointer table |
| `BdbIndex.LfpDataMinSizeIsLeast` | NootedBlue/kern_nblue.cpp:487-502 | that size is the least with room for 1184 bytes and, with panel names, for 310 bytes from their offset on |
| `BdbIndex.Display.InitBdbBlocks` | NootedBlue/kern_nblue.cpp:1527-1541 | the list holds the entries of the table's ids, in table order, each with room for its minimum size |
| `BdbIndex.Display.BdbFindSection` | NootedBlue/kern_nblue.cpp:474-485 | walking the list finds the first entry with the id |
| `BdbIndex.LookupIsFirst` | NootedBlue/kern_nblue.cpp:474-485 | what it finds is the entry at the least index with the id |
| `BdbIndex.LookupEntries` | NootedBlue/kern_nblue.cpp:474-485 | an id's lookup gives exactly the entry made for it, and nothing for ids outside the table |
| `BdbIndex.IndexAgreesWithScan` | NootedBlue/kern_nblue.cpp:1472-1541 | for every id but 41 the index has an entry exactly if the scan finds a block; it holds that block's header and payload, for a version 3 MIPI block the five bytes behind it too, then zeros up to the minimum size, and nothing else; for a present id that is the first block with it |
| `BdbIndex.IndexedPtrsDescribe` | NootedBlue/kern_nblue.cpp:1485-1518 | section 41 is indexed exactly if a usable table exists, and then decodes to a table that describes block 42 |
| `BdbIndex.IndexedPtrsBytes` | NootedBlue/kern_nblue.cpp:1485-1518 | around its pointer table the entry is block 41 as it lies in memory, or the header of a generated block |
| `BdbIndex.RawPtrsIndexedIff` | NootedBlue/kern_nblue.cpp:1442-1521 | a block 41 is indexed if and only if its table is one written out for a shape that block 42 has, with the offsets raised to where block 42 lies; the table as written out is what is indexed |
| `BdbIndex.IndexedTablesInside` | NootedBlue/kern_nblue.cpp:2573-2640 | with section 41 indexed, section 42 is indexed too, and every table of every panel and the tail behind the panel names lie inside its entry |
| `BdbIndex.GeneratedPtrsIndexedIff` | NootedBlue/kern_nblue.cpp:1251-1521 | without a block 41, section 41 is indexed exactly if version, block 42's size and all 16 terminators allow it |
| `BdbIndex.IndexInTableOrder` | NootedBlue/intel_vbt_defs.h:1742-1779 | at most one entry per id, in table order, only ids of the table |
| `ChildDevices.ConsideredIffInside` | NootedBlue/kern_nblue.cpp:1977-2012 | a record is considered if and only if the block has a header, records have at least 33 bytes, and all its declared bytes lie in the block |
| `ChildDevices.RecordsDisjoint` | NootedBlue/kern_nblue.cpp:1977-1981 | declared extents of different records do not overlap |
| `ChildDevices.DevicesExact` | NootedBlue/kern_nblue.cpp:2011-2028 | exactly the records with a device type are kept, once each, in index order |
| `ChildDevices.DefinitionsRoundTrip` | NootedBlue/kern_nblue.cpp:1984-2033 | parsing a written block 2 gives exactly the written records whose bytes 2 and 3 are not both 0, in order, with as much of each as 44 bytes hold, and its pin if that is a valid one |
| `ChildDevices.ShortRecordTakesNext` | NootedBlue/kern_nblue.cpp:2028-2029 | a record of fewer than 44 bytes is copied with the first bytes of the next record as its last |
| `ChildDevices.ParsedFromEntryIff` | NootedBlue/kern_nblue.cpp:2014-2031 | the devices do not depend on what lies behind the block's entry in memory if and only if every kept record starts at least 44 bytes before its end |
| `ChildDevices.ParseGeneralDefinitions` | NootedBlue/kern_nblue.cpp:1984-2033 | appends exactly those devices, 44 bytes each, to the list, nothing without a block 2; takes over the block's DDC pin exactly if it is a valid one |
| `ChildDevices.LoadVbt` | NootedBlue/kern_nblue.cpp:2929-2945 | from every BDB in which the searches for the table's sections end: the index, the device list and the DDC pin the lemmas above are about |
| `IntrusiveList.NextPrevInverse` | NootedBlue/intel_dsi_vbt_defs.h:652-661 | in a well-formed ring next and prev undo each other |
| `IntrusiveList.List.constructor` | NootedBlue/intel_dsi_vbt_defs.h:646-650 | an initialised head is a well-formed empty list |
| `IntrusiveList.List.AddTail` | NootedBlue/intel_dsi_vbt_defs.h:652-666 | adding a link that is on no list keeps the ring well-formed and appends its record |
| `IntrusiveList.List.ForEachEntry` | NootedBlue/intel_dsi_vbt_defs.h:147-150 | the iteration ends and visits exactly the inserted records in insertion order |
| `Bitmap.CountTrailingZeros` | NootedBlue/intel_vbt_defs.h:7146-7157 | the position of the lowest set bit; 63 for zero |
| `Bitmap.FindNextBit` | NootedBlue/intel_vbt_defs.h:7159-7190 | cut off at size, the answer of the bit-by-bit search, for every bitmap, size and offset |
| `Bitmap.SearchResult` | NootedBlue/intel_vbt_defs.h:7159-7190 | that search gives the first matching position from the offset on, or the size |
| `Bitmap.ForEachSetBit` | NootedBlue/intel_vbt_defs.h:7192-7198 | ends, and visits exactly the set positions below size, once each, increasing |
| `Bitmap.FindNextZeroBit` | NootedBlue/intel_vbt_defs.h:9367-9407 | the bit-by-bit search from a word boundary; otherwise the first clear bit of the word less offset % 64 |
| `Bitmap.ZeroSearchIs` | NootedBlue/intel_vbt_defs.h:9379-9389 | from inside a word the answer is the first clear position of the rest of the word, or its end, less offset % 64, cut off at size |
| `Bitmap.ZeroSearchCorrectIff` | NootedBlue/intel_vbt_defs.h:9367-9407 | it is the bit-by-bit search if and only if the offset is a multiple of 64 or the next size - base bits are all set in that word |
| `Bitmap.ZeroSearchGoesBack` | NootedBlue/intel_vbt_defs.h:9379-9389 | on an empty bitmap it answers 0 from offset 1 |
| `Bitmap.ForwardLandsOnSetBit` | NootedBlue/intel_vbt_defs.h:9379-9389 | from inside a word, an answer that is not before the offset and below size is a set bit |
| `Bitmap.ClearBitLoopCorrectIff` | NootedBlue/intel_vbt_defs.h:9409-9412 | the clear-bit loop ends and visits exactly the clear positions below size, once each, increasing, if and only if the condition of `ZeroSearchCorrectIff` holds behind every clear bit below size |
| `Bitmap.ClearBitLoopVisitsSetBit` | NootedBlue/intel_vbt_defs.h:9409-9412 | with bits 0, 1 and 3 set the loop goes from clear bit 2 to set bit 1 |
| `Bitmap.ClearBitLoopAdvancesIff` | NootedBlue/intel_vbt_defs.h:9409-9412 | a single turn of the loop moves forward if and only if the next position is a word boundary or enough set bits follow in the same word |
| `PlatformMask.MaskPosition` | NootedBlue/intel_vbt_defs.h:9189-9215 | platforms take the 28 bits above the four subplatform bits of one word after another |
| `PlatformMask.PlatformBitDistinct` | NootedBlue/intel_vbt_defs.h:9189-9222 | a platform bit with any subplatform bits answers only for its own bit number |
| `PlatformMask.RuntimeInfo.constructor` | NootedBlue/intel_vbt_defs.h:9212-9222 | a zero mask answers for no platform |
| `PlatformMask.FindDevid` | NootedBlue/kern_nblue.cpp:2717-2725 | membership in an id list |
| `PlatformMask.RuntimeInfo.SubplatformInit` | NootedBlue/kern_nblue.cpp:2727-2753 | the exact mask word written; afterwards the platform query holds for the device's platform and otherwise only for what the other word held; the subplatform bits are exactly those selected |
| `Registers.GenmaskBit` | NootedBlue/intel_dsi_vbt_defs.h:78-93 | a field's mask has exactly its bits |
| `Registers.FieldPrepBit` | NootedBlue/intel_dsi_vbt_defs.h:78-93 | preparing a value shifts its bits into the field and drops the rest |
| `Registers.GetUndoesPrep` | NootedBlue/intel_dsi_vbt_defs.h:78-93 | reading a prepared field gives the value's low bits, so the value itself if it fits |
| `Registers.ModifySetsField` | NootedBlue/kern_nblue.cpp:3033-3040 | clear-and-set with a field's mask makes that field the value |
| `Registers.ModifyKeepsOtherFields` | NootedBlue/kern_nblue.cpp:3033-3040 | and keeps every disjoint field |
| `Registers.InRangeSafeIff` | NootedBlue/kern_nblue.cpp:3004-3027 | the unsigned bounds check is safe if and only if the mapping has at least four bytes |
| `Registers.InRangeIff` | NootedBlue/kern_nblue.cpp:3004-3027 | on such a mapping the check passes exactly the registers that end before the last byte, so never the last whole one |
| `Registers.Mmio.ReadReg32` | NootedBlue/kern_nblue.cpp:2992-3013 | in range, the value whose little-endian bytes are the register's four bytes; 0 otherwise |
| `Registers.Mmio.WriteReg32` | NootedBlue/kern_nblue.cpp:3015-3031 | the word reads back; no byte outside it changes; nothing changes out of range |
| `Registers.Mmio.Rmw` | NootedBlue/kern_nblue.cpp:3033-3040 | returns the old value, stores the modified one, keeps every non-overlapping register |
| `Registers.Mmio.SetField` | NootedBlue/kern_nblue.cpp:3033-3040 | a field update changes that field only, in that register only |
| `Scale.Scale` | NootedBlue/kern_nblue.cpp:730-749 | between ordered ranges no 64-bit step overflows and the result is the rounded ratio |
| `Scale.ScaledRange` | NootedBlue/kern_nblue.cpp:730-749 | the result stays in the target range and both ends map exactly |
| `Scale.ScaledMonotone` | NootedBlue/kern_nblue.cpp:730-749 | scaling is monotone |
| `Scale.ScaledNearest` | NootedBlue/kern_nblue.cpp:730-749 | inside the source range the result is the integer nearest to the exact ratio, the upper one of two |
| `Stepping.GetPreGmdidStep` | NootedBlue/kern_nblue.cpp:1586-1618 | the search in a non-empty sub-platform map, else in a non-empty main map, else NONE |
| `Stepping.StepFromLeast` | NootedBlue/kern_nblue.cpp:1603-1615 | that search gives the entry at the least named index from the revision on, else FUTURE |
| `Stepping.StepFromMonotone` | NootedBlue/kern_nblue.cpp:1586-1618 | on non-decreasing maps the stepping is monotone in the revision |
| `IncludeWorklist.ResolveInclude` | others/li4.py:175-202 | the staged lookup finds the first existing candidate, and rejects it outside the tree |
| `IncludeWorklist.ResolvePrecedence` | others/li4.py:175-202 | the file beside the including one comes first, then the first prefix that has the file, then the first module root that has it; a file found outside the tree is none |
| `IncludeWorklist.StepDecreases` | others/li4.py:217-232 | each turn resolves a new name or leaves a shorter queue |
| `IncludeWorklist.CopyModuleTree` | others/li4.py:166-235 | terminates for every file map, cyclic ones included, in the state the worklist semantics gives: all roots scanned, the destination exactly what it held and the scanned files, copies counted, every include settled |
| `IncludeWorklist.StepKeeps` | others/li4.py:170-232 | what every turn keeps: roots known, resolved names witnessed, copies accounted for, scanned files settled |
| `IncludeWorklist.RunCloses` | others/li4.py:166-235 | at the end all roots are scanned, copies are counted exactly, and each include of a scanned file fails to resolve there or was resolved to a scanned file |
| `IncludeWorklist.DrainWithin` | others/li4.py:166-232 | only files that includes lead to from the roots are scanned |
| `IncludeWorklist.ClosureExists` | others/li4.py:166-232 | every tree has a least closed set around its roots |
| `IncludeWorklist.RunIsExactClosure` | others/li4.py:166-232 | without name clashes inside some closed set around the roots, the scanned files are the least closed set around them |
| `IncludeWorklist.OneFilePerName` | others/li4.py:172-194 | of two files that are no roots and have only one and the same name, a run scans at most one |
| `IncludeWorklist.ExactClosureIff` | others/li4.py:166-232 | where clashing files are no roots and have no other name, the scanned files are the closure if and only if no names clash in it |
| `IncludeWorklist.NameClashMissesFile` | others/li4.py:172-173 | two roots that mean different files by one name: the second file is neither scanned nor copied |
| `IncludeWorklist.NameClashHappens` | others/li4.py:172-173 | a/x and b/y each include "h" beside them: b/h is not copied |

## Left out

- BdbScan.FindRawSection: requires that the search ends, because the code does not always; HaltsIffSoon and SearchNeverEnds describe the rest.
- ChildDevices.ParseGeneralDefinitions: for platform controllers older than Ice Point the driver leaves its table of valid DDC pins uninitialised; only the Ice Point table is modelled.
- IncludeWorklist.ExactClosureIff: the converse is stated where clashing files have no aliases; a clashing file with another name is scanned or not depending on the order of the roots.
- Bitmap.FindNextBit: positions are unbounded, so bitmaps within 64 bits of 2^64 long are not distinguished.
- `DisplayMergeNub::probe`: it relies on the library's own dictionary merge.
- Mapping the opregion and the register window, kext patching and everything else that is I/O or IOKit.
- The fixed lookup tables (ports, auxiliary channels, PCI ids, expected child device sizes): finite data.
- Pairing of allocation and free.
- The rest of others/li4.py: fetching, building and rewriting of sources; reading a file that disappears.
- Panel timing, backlight and power sequencing fields: bit-field copies without interaction.
