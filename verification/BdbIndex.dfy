/**
 The index of BIOS data blocks that the driver builds once and consults from then on
 (NootedBlue/kern_nblue.cpp, table from NootedBlue/intel_vbt_defs.h).
 */
module BdbIndex {
  import opened Options
  import opened Words
  import opened BdbScan
  import opened LfpPointers
  import opened IntrusiveList

  /** The section ids of the bdb_blocks table. */
  const BDB_BLOCKS: seq<u8> := [1, 2, 9, 12, 22, 23, 27, 40, 41, 42, 43, 44, 52, 53, 56, 58]

  const GMBUS_PIN_VGADDC: u8 := 2
  const LFP_DATA_SIZE: nat := 16 * (46 + 18 + 10)
  const LFP_TAIL_SIZE: nat := 16 * 13 + 2 + 16 + 16 + 16 * 4 + 2 + 2

  /** struct bdb_block_entry: a copied block, its three header bytes included. */
  datatype BlockEntry = BlockEntry(sectionId: u8, data: seq<u8>)

  // ---------------------------------------------------------------------------------------------
  // What the index should hold
  // ---------------------------------------------------------------------------------------------

  /** The memory that may be copied: what the search takes for a MIPI block, which may run past the BDB, is mapped too. */
  ghost predicate Copyable(m: seq<u8>) {
    && Mapped(m)
    && var mipi := FoundSection(m, MIPI_SEQUENCE);
       mipi.Some? ==> mipi.value.payload + mipi.value.size + 5 <= |m|
  }

  /** It is, if the search is right. */
  lemma CopyableIfAnswered(m: seq<u8>)
    requires Answers(m, MIPI_SEQUENCE)
    ensures Copyable(m)
  {
    if FoundSection(m, MIPI_SEQUENCE).Some? { FoundSectionPlaced(m, MIPI_SEQUENCE); }
  }

  lemma FoundSectionCopyable(m: seq<u8>, id: u8)
    requires Copyable(m) && FoundSection(m, id).Some?
    ensures var b := FoundSection(m, id).value; Headed(m, b) && b.id == id && b.payload + b.size + 5 <= |m|
  {
    FoundSectionHeaded(m, id);
    if id != MIPI_SEQUENCE { FoundSectionPlaced(m, id); }
  }

  /** Bytes copied after a block's header: a version 3 MIPI block has five more than its size says. */
  function CopySize(m: seq<u8>, payload: nat, id: u8): nat
    requires 3 <= payload < |m| && HeaderReadable(m, payload - 3)
  {
    if id == MIPI_SEQUENCE && m[payload] >= 3 then BlockSize(m, payload - 3) + 5 else BlockSize(m, payload - 3)
  }

  /** The block's header and payload, as they lie in the BDB. */
  ghost function RawBytes(m: seq<u8>, id: u8): (b: seq<u8>)
    requires Copyable(m) && FoundSection(m, id).Some?
    ensures |b| >= 3
  {
    FoundSectionCopyable(m, id);
    var at := FoundSection(m, id).value.payload;
    m[at - 3..at + CopySize(m, at, id)]
  }

  function PadTo(b: seq<u8>, n: nat): (r: seq<u8>)
    ensures b <= r && |r| == if |b| < n then n else |b|
  {
    if |b| < n then b + seq(n - |b|, _ => 0) else b
  }

  /** The pointer table the driver may use: rebased, and describing block 42. */
  ghost function UsablePtrs(m: seq<u8>, version: u16): (r: Option<Ptrs>)
    requires Copyable(m)
    ensures r.Some? ==> |r.value.rows| == 16 && Describes(r.value, m)
  {
    if FoundSection(m, LFP_DATA_PTRS).Some? then
      var v := RawPtrs(m);
      if CanRebase(v, DataOffset(m)) && Describes(Rebased(v, DataOffset(m)), m)
      then Some(Rebased(v, DataOffset(m))) else None
    else if version >= 155 && FoundSection(m, LFP_DATA).Some? && FoundSection(m, LFP_DATA).value.size >= 16 * 66 &&
            Describes(RelativePtrs(FoundSection(m, LFP_DATA).value.size), m)
    then Some(RelativePtrs(FoundSection(m, LFP_DATA).value.size)) else None
  }

  /** The bytes the pointer table overlays: block 41 itself, or the header of a generated one. */
  ghost function PtrsBytes(m: seq<u8>): (b: seq<u8>)
    requires Copyable(m)
    ensures |b| >= 3
  {
    if FoundSection(m, LFP_DATA_PTRS).Some? then RawBytes(m, LFP_DATA_PTRS) else [LFP_DATA_PTRS] + Le16(PTRS_SIZE)
  }

  /** What the index holds for one section id, in an entry with room for at least `minSize` bytes behind the header. */
  ghost function EntryFor(m: seq<u8>, version: u16, id: u8, minSize: nat): (e: Option<BlockEntry>)
    requires Copyable(m) && (id == LFP_DATA_PTRS ==> minSize == PTRS_SIZE)
    ensures e.Some? ==> e.value.sectionId == id && |e.value.data| >= 3 + minSize
  {
    if id == LFP_DATA_PTRS then
      var usable := UsablePtrs(m, version);
      if usable.None? then None
      else
        var b := PadTo(PtrsBytes(m), 3 + PTRS_SIZE);
        Some(BlockEntry(id, b[..3] + EncodePtrs(usable.value) + b[3 + PTRS_SIZE..]))
    else if FoundSection(m, id).Some? then Some(BlockEntry(id, PadTo(RawBytes(m, id), 3 + minSize)))
    else None
  }

  /** The min_size column of the table, for any sizes of the structures other than the pointer table's. */
  function TableMinSize(sizes: u8 -> nat, id: u8): nat {
    if id == LFP_DATA_PTRS then PTRS_SIZE else sizes(id)
  }

  /** lfp_data_min_size: room for 16 panel entries of 74 bytes and, behind the panel names' offset, the 310 bytes of the tail. */
  function LfpDataMinSize(ptrs: Option<Ptrs>): nat {
    match ptrs
    case None => 0
    case Some(v) =>
      if v.name.size != 0 && v.name.offset as int + LFP_TAIL_SIZE > LFP_DATA_SIZE
      then v.name.offset as int + LFP_TAIL_SIZE else LFP_DATA_SIZE
  }

  /** It is the least size with room for both. */
  lemma LfpDataMinSizeIsLeast(v: Ptrs, n: nat)
    ensures n >= LfpDataMinSize(Some(v)) <==> n >= 1184 && (v.name.size != 0 ==> n >= v.name.offset as int + 310)
  {
  }

  /** The size an entry is made for: block 42's depends on the pointer table in the index. */
  ghost function MinSize(m: seq<u8>, version: u16, sizes: u8 -> nat, id: u8): nat
    requires Copyable(m)
  {
    if id == LFP_DATA then LfpDataMinSize(UsablePtrs(m, version)) else TableMinSize(sizes, id)
  }

  ghost function OneOrNone(e: Option<BlockEntry>): seq<BlockEntry> {
    if e.Some? then [e.value] else []
  }

  /** The entries among a row of table lookups, in table order. */
  ghost function Present(row: seq<Option<BlockEntry>>): seq<BlockEntry> {
    if row == [] then []
    else Present(row[..|row| - 1]) + OneOrNone(row[|row| - 1])
  }

  ghost function Lookups(m: seq<u8>, version: u16, sizes: u8 -> nat, ids: seq<u8>): seq<Option<BlockEntry>>
    requires Copyable(m)
  {
    seq(|ids|, i requires 0 <= i < |ids| => EntryFor(m, version, ids[i], MinSize(m, version, sizes, ids[i])))
  }

  /** What the index holds for a table of section ids. */
  ghost function EntriesFor(m: seq<u8>, version: u16, sizes: u8 -> nat, ids: seq<u8>): seq<BlockEntry>
    requires Copyable(m)
  {
    Present(Lookups(m, version, sizes, ids))
  }

  lemma EntriesNext(m: seq<u8>, version: u16, sizes: u8 -> nat, ids: seq<u8>, i: nat)
    requires Copyable(m) && i < |ids|
    ensures EntriesFor(m, version, sizes, ids[..i + 1]) ==
            EntriesFor(m, version, sizes, ids[..i]) +
            OneOrNone(EntryFor(m, version, ids[i], MinSize(m, version, sizes, ids[i])))
  {
    var before, row := Lookups(m, version, sizes, ids[..i]), Lookups(m, version, sizes, ids[..i + 1]);
    assert row == before + [EntryFor(m, version, ids[i], MinSize(m, version, sizes, ids[i]))];
    assert row[..|row| - 1] == before;
  }

  /** The first entry with the given id. */
  ghost function Lookup(entries: seq<BlockEntry>, id: u8): Option<BlockEntry> {
    if entries == [] then None
    else if entries[0].sectionId == id then Some(entries[0])
    else Lookup(entries[1..], id)
  }

  // ---------------------------------------------------------------------------------------------
  // Properties of the index
  // ---------------------------------------------------------------------------------------------

  /** A lookup gives the entry at the least index that has the id. */
  lemma {:induction false} LookupIsFirst(entries: seq<BlockEntry>, id: u8, i: nat)
    requires i <= |entries| && forall j :: 0 <= j < i ==> entries[j].sectionId != id
    requires i < |entries| ==> entries[i].sectionId == id
    ensures Lookup(entries, id) == if i < |entries| then Some(entries[i]) else None
    decreases |entries|
  {
    if i == 0 {
    } else {
      LookupIsFirst(entries[1..], id, i - 1);
    }
  }

  lemma {:induction false} LookupConcat(a: seq<BlockEntry>, b: seq<BlockEntry>, id: u8)
    ensures Lookup(a + b, id) == if Lookup(a, id).Some? then Lookup(a, id) else Lookup(b, id)
    decreases |a|
  {
    if a == [] {
      assert a + b == b;
    } else {
      assert (a + b)[1..] == a[1..] + b;
      LookupConcat(a[1..], b, id);
    }
  }

  /** A row of lookups made for the given ids. */
  ghost predicate RowFor(row: seq<Option<BlockEntry>>, ids: seq<u8>) {
    && |row| == |ids|
    && (forall i :: 0 <= i < |row| && row[i].Some? ==> row[i].value.sectionId == ids[i])
    && (forall i, j :: 0 <= i < |ids| && 0 <= j < |ids| && ids[i] == ids[j] ==> row[i] == row[j])
  }

  lemma LookupLast(row: seq<Option<BlockEntry>>, ids: seq<u8>, id: u8)
    requires RowFor(row, ids) && row != []
    ensures var k := |row| - 1;
            var before := Lookup(Present(row[..k]), id);
            Lookup(Present(row), id) == if before.Some? then before else if ids[k] == id then row[k] else None
  {
    var k := |row| - 1;
    LookupConcat(Present(row[..k]), OneOrNone(row[k]), id);
  }

  lemma {:induction false} LookupAbsent(row: seq<Option<BlockEntry>>, ids: seq<u8>, id: u8)
    requires RowFor(row, ids) && id !in ids
    ensures Lookup(Present(row), id).None?
    decreases |row|
  {
    if row == [] {
    } else {
      LookupLast(row, ids, id);
      LookupAbsent(row[..|row| - 1], ids[..|row| - 1], id);
    }
  }

  lemma {:induction false} LookupPresent(row: seq<Option<BlockEntry>>, ids: seq<u8>, i: nat)
    requires RowFor(row, ids) && i < |ids|
    ensures Lookup(Present(row), ids[i]) == row[i]
    decreases |row|
  {
    var k := |row| - 1;
    LookupLast(row, ids, ids[i]);
    if ids[i] in ids[..k] {
      var j :| 0 <= j < k && ids[..k][j] == ids[i];
      LookupPresent(row[..k], ids[..k], j);
    } else {
      LookupAbsent(row[..k], ids[..k], ids[i]);
    }
  }

  /** Looking an id up in the index gives exactly what the index should hold for it. */
  lemma LookupEntries(m: seq<u8>, version: u16, sizes: u8 -> nat, ids: seq<u8>, id: u8)
    requires Copyable(m)
    ensures Lookup(EntriesFor(m, version, sizes, ids), id) == if id in ids then EntryFor(m, version, id, MinSize(m, version, sizes, id)) else None
  {
    var row := Lookups(m, version, sizes, ids);
    assert RowFor(row, ids);
    if id in ids {
      var i :| 0 <= i < |ids| && ids[i] == id;
      LookupPresent(row, ids, i);
    } else {
      LookupAbsent(row, ids, id);
    }
  }

  /**
   The index agrees with the scan for every id of the table other than 41: an entry exactly when the scan
   finds a block, copied from that block; where the scan answers, the first block with the id.
   */
  lemma IndexAgreesWithScan(m: seq<u8>, version: u16, sizes: u8 -> nat, ids: seq<u8>, id: u8)
    requires Copyable(m) && id in ids && id != LFP_DATA_PTRS
    ensures var entry, raw := Lookup(EntriesFor(m, version, sizes, ids), id), FoundSection(m, id);
            && (entry.None? <==> raw.None?)
            && (raw.Some? ==>
                  && Headed(m, raw.value) && (id != MIPI_SEQUENCE || Answers(m, id) ==> Placed(m, raw.value))
                  && CopiedFrom(m, raw.value, MinSize(m, version, sizes, id), entry.value.data))
    ensures Answers(m, id) || RawSection(m, id).Some? ==> FoundSection(m, id) == RawSection(m, id)
  {
    AnswerFindsSection(m, id);
    LookupEntries(m, version, sizes, ids, id);
    if FoundSection(m, id).Some? {
      EntryHoldsBlock(m, version, id, MinSize(m, version, sizes, id));
      if id != MIPI_SEQUENCE || Answers(m, id) { FoundSectionPlaced(m, id); }
    }
  }

  /**
   `data` starts with the block's header and payload, and of a MIPI block from version 3 on with the five
   bytes behind it, and is filled up with zeros to `minSize` bytes behind the header.
   */
  ghost predicate CopiedFrom(m: seq<u8>, raw: RawBlock, minSize: nat, data: seq<u8>)
    requires Mapped(m) && Headed(m, raw)
  {
    var copied := if raw.id == MIPI_SEQUENCE && m[raw.payload] >= 3 then raw.size + 5 else raw.size;
    && raw.payload + copied <= |m| && |data| == 3 + Max(copied, minSize)
    && data[..3 + copied] == m[raw.payload - 3..raw.payload + copied]
    && forall k :: 3 + copied <= k < |data| ==> data[k] == 0
  }

  lemma EntryHoldsBlock(m: seq<u8>, version: u16, id: u8, minSize: nat)
    requires Copyable(m) && id != LFP_DATA_PTRS && FoundSection(m, id).Some?
    ensures var entry, raw := EntryFor(m, version, id, minSize), FoundSection(m, id).value;
            entry.Some? && Headed(m, raw) && CopiedFrom(m, raw, minSize, entry.value.data)
  {
    FoundSectionCopyable(m, id);
    PaddedSlice(RawBytes(m, id), 3 + minSize, 0, |RawBytes(m, id)|);
  }

  lemma PaddedSlice(b: seq<u8>, n: nat, from: nat, to: nat)
    requires from <= to <= |b|
    ensures PadTo(b, n)[from..to] == b[from..to]
  {
  }

  function Max(a: int, b: int): int {
    if a < b then b else a
  }

  lemma RawBytesHoldPayload(m: seq<u8>, id: u8)
    requires Copyable(m) && FoundSection(m, id).Some?
    ensures var b, raw := RawBytes(m, id), FoundSection(m, id).value;
            && Headed(m, raw) && raw.payload + raw.size <= |m| && raw.size + 3 <= |b|
            && b[3..3 + raw.size] == m[raw.payload..raw.payload + raw.size]
            && (id != MIPI_SEQUENCE ==> |b| == 3 + raw.size)
  {
    FoundSectionCopyable(m, id);
    var raw := FoundSection(m, id).value;
    SliceOfSlice(m, raw.payload - 3, raw.payload + CopySize(m, raw.payload, id), 3, 3 + raw.size);
  }

  /**
   Section 41 is in the index exactly when there is a usable pointer table; it then decodes to that
   table, which describes block 42.
   */
  lemma IndexedPtrsDescribe(m: seq<u8>, version: u16, sizes: u8 -> nat, ids: seq<u8>)
    requires Copyable(m) && LFP_DATA_PTRS in ids
    ensures var entry := Lookup(EntriesFor(m, version, sizes, ids), LFP_DATA_PTRS);
            && (entry.Some? <==> UsablePtrs(m, version).Some?)
            && (entry.Some? ==>
                  && |entry.value.data| >= 3 + PTRS_SIZE
                  && var v := DecodePtrs(entry.value.data[3..3 + PTRS_SIZE]);
                     Some(v) == UsablePtrs(m, version) && Describes(v, m))
  {
    LookupEntries(m, version, sizes, ids, LFP_DATA_PTRS);
    var usable := UsablePtrs(m, version);
    if usable.Some? {
      PtrsRoundTrip(usable.value);
      var data := EntryFor(m, version, LFP_DATA_PTRS, PTRS_SIZE).value.data;
      assert data[3..3 + PTRS_SIZE] == EncodePtrs(usable.value);
    }
  }

  /**
   A block 41 is indexed exactly if its table, filled up with zeros, is one written out for a shape that block
   42 has, with every offset raised to where block 42 lies; what is indexed is the table as written out.
   */
  lemma RawPtrsIndexedIff(m: seq<u8>, version: u16, sizes: u8 -> nat, ids: seq<u8>)
    requires Copyable(m) && LFP_DATA_PTRS in ids && FoundSection(m, LFP_DATA_PTRS).Some?
    ensures var entry := Lookup(EntriesFor(m, version, sizes, ids), LFP_DATA_PTRS);
            entry.Some? <==> exists v :: IsUsable(m, RawPtrs(m), v)
    ensures var entry := Lookup(EntriesFor(m, version, sizes, ids), LFP_DATA_PTRS);
            entry.Some? ==> |entry.value.data| >= 3 + PTRS_SIZE &&
                            IsUsable(m, RawPtrs(m), DecodePtrs(entry.value.data[3..3 + PTRS_SIZE]))
  {
    IndexedPtrsDescribe(m, version, sizes, ids);
    var raw, offset := RawPtrs(m), DataOffset(m);
    if UsablePtrs(m, version).Some? {
      var v := UsablePtrs(m, version).value;
      RebasedIff(v, raw, offset);
      DescribesIff(v, m);
      assert IsUsable(m, raw, v);
    }
    forall v | IsUsable(m, raw, v) ensures UsablePtrs(m, version).Some? {
      RebasedIff(v, raw, offset);
      DescribesIff(v, m);
    }
  }

  /** The pointer table of block 41, whose missing bytes are zero. */
  ghost function RawPtrs(m: seq<u8>): Ptrs
    requires Copyable(m) && FoundSection(m, LFP_DATA_PTRS).Some?
  {
    DecodePtrs(PadTo(RawBytes(m, LFP_DATA_PTRS), 3 + PTRS_SIZE)[3..3 + PTRS_SIZE])
  }

  ghost predicate IsUsable(m: seq<u8>, raw: Ptrs, v: Ptrs)
    requires Mapped(m)
  {
    && IsShifted(v, raw, DataOffset(m))
    && exists fp: u8, span: nat :: span <= 261 && v == BuiltPtrs(fp, span, v.name) && Acceptable(m, fp, span, v.name)
  }

  /** The other bytes of an indexed section 41: those of block 41, or the header of a generated one. */
  lemma IndexedPtrsBytes(m: seq<u8>, version: u16, sizes: u8 -> nat, ids: seq<u8>)
    requires Copyable(m) && LFP_DATA_PTRS in ids
    ensures var entry, raw := Lookup(EntriesFor(m, version, sizes, ids), LFP_DATA_PTRS), FoundSection(m, LFP_DATA_PTRS);
            entry.Some? ==>
              if raw.None? then |entry.value.data| == 3 + 148 && entry.value.data[..3] == [41, 148, 0]
              else AroundPtrs(m, raw.value, entry.value.data)
  {
    LookupEntries(m, version, sizes, ids, LFP_DATA_PTRS);
    if UsablePtrs(m, version).Some? {
      PtrsEntryBytes(m, version);
      if FoundSection(m, LFP_DATA_PTRS).Some? { PtrsBytesAround(m); } else { HeaderOnly(m); }
    }
  }

  /** Apart from the 148 bytes of the pointer table, `data` is block 41 as it lies in memory. */
  ghost predicate AroundPtrs(m: seq<u8>, raw: RawBlock, data: seq<u8>) {
    && 3 <= raw.payload && raw.payload + raw.size <= |m|
    && |data| == 3 + Max(148, raw.size) && data[..3] == m[raw.payload - 3..raw.payload]
    && (raw.size > 148 ==> data[3 + 148..] == m[raw.payload + 148..raw.payload + raw.size])
  }

  lemma PtrsEntryBytes(m: seq<u8>, version: u16)
    requires Copyable(m) && UsablePtrs(m, version).Some?
    ensures var b, data := PadTo(PtrsBytes(m), 3 + PTRS_SIZE), EntryFor(m, version, LFP_DATA_PTRS, PTRS_SIZE).value.data;
            |data| == |b| && data[..3] == b[..3] && data[3 + PTRS_SIZE..] == b[3 + PTRS_SIZE..]
  {
  }

  lemma PtrsBytesAround(m: seq<u8>)
    requires Copyable(m) && FoundSection(m, LFP_DATA_PTRS).Some?
    ensures AroundPtrs(m, FoundSection(m, LFP_DATA_PTRS).value, PadTo(PtrsBytes(m), 3 + PTRS_SIZE))
  {
    FoundSectionCopyable(m, LFP_DATA_PTRS);
    var raw := FoundSection(m, LFP_DATA_PTRS).value;
    var at, b := raw.payload, RawBytes(m, LFP_DATA_PTRS);
    assert b == m[at - 3..at + raw.size];
    SliceOfSlice(m, at - 3, at + raw.size, 0, 3);
    PaddedSlice(b, 3 + PTRS_SIZE, 0, 3);
    if raw.size > 148 {
      SliceOfSlice(m, at - 3, at + raw.size, 3 + 148, 3 + raw.size);
      assert PadTo(b, 3 + PTRS_SIZE) == b && b[3 + 148..] == b[3 + 148..3 + raw.size];
    }
  }

  /**
   The panel lookups that go through the index: with section 41, section 42 is in the index too, and every
   table of every panel, the name table and the tail behind it lie inside its entry.
   */
  lemma IndexedTablesInside(m: seq<u8>, version: u16, sizes: u8 -> nat, ids: seq<u8>, panel: nat, kind: Kind)
    requires Copyable(m) && LFP_DATA_PTRS in ids && LFP_DATA in ids && panel < 16
    ensures var entries := EntriesFor(m, version, sizes, ids);
            var ptrs, data := Lookup(entries, LFP_DATA_PTRS), Lookup(entries, LFP_DATA);
            ptrs.Some? ==>
              && |ptrs.value.data| >= 3 + PTRS_SIZE && data.Some?
              && var v := DecodePtrs(ptrs.value.data[3..3 + PTRS_SIZE]);
                 && 3 + TableOf(v, panel, kind).offset + TableSpan(v, panel, kind) <= |data.value.data|
                 && (v.name.size != 0 ==> 3 + v.name.offset + LFP_TAIL_SIZE <= |data.value.data|)
                 && 3 + LFP_DATA_SIZE <= |data.value.data|
  {
    IndexedPtrsDescribe(m, version, sizes, ids);
    IndexAgreesWithScan(m, version, sizes, ids, LFP_DATA);
    if UsablePtrs(m, version).Some? { TablesInside(UsablePtrs(m, version).value, m, panel, kind); }
  }

  /** Without a block 41, section 41 is indexed exactly when one can be generated and the terminators are in place. */
  lemma GeneratedPtrsIndexedIff(m: seq<u8>, version: u16, sizes: u8 -> nat, ids: seq<u8>)
    requires Copyable(m) && LFP_DATA_PTRS in ids && FoundSection(m, LFP_DATA_PTRS).None?
    ensures Lookup(EntriesFor(m, version, sizes, ids), LFP_DATA_PTRS).Some? <==>
            && version >= 155 && FoundSection(m, LFP_DATA).Some? && FoundSection(m, LFP_DATA).value.size >= 16 * 66
            && forall i :: 0 <= i < 16 ==> Terminated(m, FoundSection(m, LFP_DATA).value.payload, 38, i)
  {
    IndexedPtrsDescribe(m, version, sizes, ids);
    if FoundSection(m, LFP_DATA).Some? && FoundSection(m, LFP_DATA).value.size >= 16 * 66 {
      RelativeDescribesIff(m);
    }
  }

  lemma RelativeDescribesIff(m: seq<u8>)
    requires Copyable(m) && FoundSection(m, LFP_DATA).Some? && FoundSection(m, LFP_DATA).value.size >= 16 * 66
    ensures Describes(RelativePtrs(FoundSection(m, LFP_DATA).value.size), m) <==>
            forall i :: 0 <= i < 16 ==> Terminated(m, FoundSection(m, LFP_DATA).value.payload, 38, i)
  {
    var v := RelativePtrs(FoundSection(m, LFP_DATA).value.size);
    forall i | 0 <= i < 16 ensures RowPlaced(v.rows[i], 66 * i, 38, 38) { }
    assert FpSpan(v) == 38;
  }

  lemma {:induction false} PresentIncreasing(row: seq<Option<BlockEntry>>, ids: seq<u8>)
    requires RowFor(row, ids) && Increasing(ids)
    ensures forall i, j :: 0 <= i < j < |Present(row)| ==> Present(row)[i].sectionId < Present(row)[j].sectionId
    ensures forall e :: e in Present(row) ==> e.sectionId in ids
    decreases |row|
  {
    if row == [] {
    } else {
      PresentIncreasing(row[..|row| - 1], ids[..|row| - 1]);
    }
  }

  ghost predicate Increasing(ids: seq<u8>) {
    forall i, j :: 0 <= i < j < |ids| ==> ids[i] < ids[j]
  }

  lemma TableIncreasing()
    ensures Increasing(BDB_BLOCKS)
  {
  }

  lemma EntriesIncreasing(m: seq<u8>, version: u16, sizes: u8 -> nat, ids: seq<u8>)
    requires Copyable(m) && Increasing(ids)
    ensures var entries := EntriesFor(m, version, sizes, ids);
            && (forall i, j :: 0 <= i < j < |entries| ==> entries[i].sectionId < entries[j].sectionId)
            && (forall e :: e in entries ==> e.sectionId in ids)
  {
    PresentIncreasing(Lookups(m, version, sizes, ids), ids);
  }

  /** The table lists its ids in increasing order, so the index has at most one entry per id, in table order. */
  lemma IndexInTableOrder(m: seq<u8>, version: u16, sizes: u8 -> nat)
    requires Copyable(m)
    ensures var entries := EntriesFor(m, version, sizes, BDB_BLOCKS);
            && (forall i, j :: 0 <= i < j < |entries| ==> entries[i].sectionId < entries[j].sectionId)
            && (forall e :: e in entries ==> e.sectionId in BDB_BLOCKS)
  {
    TableIncreasing();
    EntriesIncreasing(m, version, sizes, BDB_BLOCKS);
  }

  // ---------------------------------------------------------------------------------------------
  // Building and consulting the index
  // ---------------------------------------------------------------------------------------------

  /** `data` is the block to copy for a section id: the raw block or, for a missing block 41, a generated one. */
  ghost predicate Loaded(m: seq<u8>, version: u16, id: u8, data: Option<seq<u8>>)
    requires Copyable(m)
  {
    if FoundSection(m, id).Some? then data == Some(RawBytes(m, id))
    else if id == LFP_DATA_PTRS && version >= 155 && FoundSection(m, LFP_DATA).Some? &&
            FoundSection(m, LFP_DATA).value.size >= 16 * 66 then
      data.Some? &&
      exists v: Ptrs :: |v.rows| == 16 && Generated(v, DataOffset(m), FoundSection(m, LFP_DATA).value.size) &&
                        data.value == [LFP_DATA_PTRS] + Le16(PTRS_SIZE) + EncodePtrs(v)
    else data.None?
  }

  /** `fixed` is `data` with its pointer table rebased, if the rebased table describes block 42. */
  ghost predicate FixedUp(m: seq<u8>, data: seq<u8>, fixed: Option<seq<u8>>)
    requires Copyable(m) && |data| >= 3 + PTRS_SIZE
  {
    var v := DecodePtrs(data[3..3 + PTRS_SIZE]);
    if CanRebase(v, DataOffset(m)) && Describes(Rebased(v, DataOffset(m)), m)
    then fixed == Some(data[..3] + EncodePtrs(Rebased(v, DataOffset(m))) + data[3 + PTRS_SIZE..])
    else fixed == None
  }

  /** The searches that loading a section makes end: for its own block and, for section 41, for block 42. */
  ghost predicate Loadable(m: seq<u8>, version: u16, id: u8) {
    && Copyable(m) && Halts(m, id)
    && (id == LFP_DATA_PTRS && (FoundSection(m, id).Some? || version >= 155) ==> Halts(m, LFP_DATA))
  }

  ghost predicate AllLoadable(m: seq<u8>, version: u16, ids: seq<u8>) {
    forall id :: id in ids ==> Loadable(m, version, id)
  }

  /** Section 41 is listed before section 42. */
  ghost predicate PtrsFirst(ids: seq<u8>) {
    forall i :: 0 <= i < |ids| && ids[i] == LFP_DATA ==> LFP_DATA_PTRS in ids[..i]
  }

  lemma TablePtrsFirst()
    ensures PtrsFirst(BDB_BLOCKS)
  {
    assert BDB_BLOCKS[8] == LFP_DATA_PTRS && BDB_BLOCKS[9] == LFP_DATA;
    assert BDB_BLOCKS[..9][8] == LFP_DATA_PTRS;
  }

  /** Without a false end behind the blocks, every section can be loaded. */
  lemma LoadableWithoutFalseEnd(m: seq<u8>, version: u16, id: u8)
    requires Mapped(m) && !FalseEnd(m, BlocksEnd(m))
    ensures Loadable(m, version, id)
  {
    SearchableAnswers(m, id);
    SearchableAnswers(m, LFP_DATA);
    SearchableAnswers(m, MIPI_SEQUENCE);
    CopyableIfAnswered(m);
  }

  /** The bytes copied into a new entry: the raw block or, for a missing block 41, a generated one. */
  method LoadBlock(m: seq<u8>, version: u16, id: u8) returns (data: Option<seq<u8>>)
    requires Loadable(m, version, id)
    ensures Loaded(m, version, id, data)
  {
    var block := FindRawSection(m, id);
    if block.Some? {
      FoundSectionCopyable(m, id);
      var blockSize := CopySize(m, block.value, id);
      return Some(m[block.value - 3..block.value + blockSize]);
    }
    if id == LFP_DATA_PTRS {
      var temp := Generate(m, version);
      if temp != null {
        return Some([LFP_DATA_PTRS] + Le16(PTRS_SIZE) + EncodePtrs(temp.View()));
      }
    }
    return None;
  }

  /** Rebases and validates a copied block 41 in place; none if it has to be dropped. */
  method FixupBlock(m: seq<u8>, data: seq<u8>) returns (fixed: Option<seq<u8>>)
    requires Copyable(m) && Halts(m, LFP_DATA) && |data| >= 3 + PTRS_SIZE
    ensures FixedUp(m, data, fixed)
  {
    var ptrs := new PtrTable.FromBytes(data[3..3 + PTRS_SIZE]);
    var ok := ptrs.Fixup(m);
    if !ok {
      return None;
    }
    return Some(data[..3] + EncodePtrs(ptrs.View()) + data[3 + PTRS_SIZE..]);
  }

  /** A generated block 41 decodes to the generated table, so its fixup yields the relative table. */
  lemma GeneratedBlock(m: seq<u8>, v: Ptrs, data: seq<u8>)
    requires Copyable(m) && FoundSection(m, LFP_DATA).Some? && FoundSection(m, LFP_DATA).value.size >= 16 * 66
    requires |v.rows| == 16 && Generated(v, DataOffset(m), FoundSection(m, LFP_DATA).value.size)
    requires data == [LFP_DATA_PTRS] + Le16(PTRS_SIZE) + EncodePtrs(v)
    ensures |data| == 3 + PTRS_SIZE && data[..3] == [LFP_DATA_PTRS] + Le16(PTRS_SIZE)
    ensures DecodePtrs(data[3..3 + PTRS_SIZE]) == v
    ensures CanRebase(v, DataOffset(m)) && Rebased(v, DataOffset(m)) == RelativePtrs(FoundSection(m, LFP_DATA).value.size)
  {
    assert data[3..3 + PTRS_SIZE] == EncodePtrs(v);
    PtrsRoundTrip(v);
    GeneratedRebases(v, m);
  }

  /** What is loaded for section 41 and survives fixup is the entry the index should hold. */
  lemma PtrsEntry(m: seq<u8>, version: u16, data: seq<u8>, fixed: Option<seq<u8>>)
    requires Copyable(m) && Loaded(m, version, LFP_DATA_PTRS, Some(data))
    requires FixedUp(m, PadTo(data, 3 + PTRS_SIZE), fixed)
    ensures EntryFor(m, version, LFP_DATA_PTRS, PTRS_SIZE) ==
            match fixed case None => None case Some(d) => Some(BlockEntry(LFP_DATA_PTRS, d))
  {
    if FoundSection(m, LFP_DATA_PTRS).None? {
      GeneratedEntry(m, version, data, fixed);
    }
  }

  lemma GeneratedEntry(m: seq<u8>, version: u16, data: seq<u8>, fixed: Option<seq<u8>>)
    requires Copyable(m) && FoundSection(m, LFP_DATA_PTRS).None? && Loaded(m, version, LFP_DATA_PTRS, Some(data))
    requires FixedUp(m, PadTo(data, 3 + PTRS_SIZE), fixed)
    ensures EntryFor(m, version, LFP_DATA_PTRS, PTRS_SIZE) ==
            match fixed case None => None case Some(d) => Some(BlockEntry(LFP_DATA_PTRS, d))
  {
    var relative := RelativePtrs(FoundSection(m, LFP_DATA).value.size);
    FixedGenerated(m, version, data, fixed);
    HeaderOnly(m);
    assert UsablePtrs(m, version) == if Describes(relative, m) then Some(relative) else None;
  }

  lemma FixedGenerated(m: seq<u8>, version: u16, data: seq<u8>, fixed: Option<seq<u8>>)
    requires Copyable(m) && FoundSection(m, LFP_DATA_PTRS).None? && Loaded(m, version, LFP_DATA_PTRS, Some(data))
    requires FixedUp(m, PadTo(data, 3 + PTRS_SIZE), fixed)
    ensures var relative := RelativePtrs(FoundSection(m, LFP_DATA).value.size);
            fixed == if Describes(relative, m) then Some([LFP_DATA_PTRS] + Le16(PTRS_SIZE) + EncodePtrs(relative) + []) else None
  {
    var v: Ptrs :| |v.rows| == 16 && Generated(v, DataOffset(m), FoundSection(m, LFP_DATA).value.size) &&
                   data == [LFP_DATA_PTRS] + Le16(PTRS_SIZE) + EncodePtrs(v);
    GeneratedBlock(m, v, data);
    FixedTo(m, data, v, RelativePtrs(FoundSection(m, LFP_DATA).value.size), fixed);
  }

  lemma FixedTo(m: seq<u8>, data: seq<u8>, v: Ptrs, w: Ptrs, fixed: Option<seq<u8>>)
    requires Copyable(m) && |data| == 3 + PTRS_SIZE && FixedUp(m, data, fixed)
    requires |w.rows| == 16 && DecodePtrs(data[3..3 + PTRS_SIZE]) == v
    requires CanRebase(v, DataOffset(m)) && Rebased(v, DataOffset(m)) == w
    ensures fixed == if Describes(w, m) then Some(data[..3] + EncodePtrs(w) + []) else None
  {
    assert data[3 + PTRS_SIZE..] == [];
  }

  lemma HeaderOnly(m: seq<u8>)
    requires Copyable(m) && FoundSection(m, LFP_DATA_PTRS).None?
    ensures var b := PadTo(PtrsBytes(m), 3 + PTRS_SIZE);
            |b| == 3 + PTRS_SIZE && b[..3] == [LFP_DATA_PTRS] + Le16(PTRS_SIZE) && b[3 + PTRS_SIZE..] == []
  {
  }

  /** The copied, and for block 41 rebased and validated, entry for one section id. */
  method MakeEntry(m: seq<u8>, version: u16, id: u8, minSize: nat) returns (e: Option<BlockEntry>)
    requires Loadable(m, version, id) && (id == LFP_DATA_PTRS ==> minSize == PTRS_SIZE)
    ensures e == EntryFor(m, version, id, minSize)
  {
    var loaded := LoadBlock(m, version, id);
    if loaded.None? {
      return None;
    }
    var data := PadTo(loaded.value, 3 + minSize);
    if id == LFP_DATA_PTRS {
      var fixed := FixupBlock(m, data);
      PtrsEntry(m, version, loaded.value, fixed);
      if fixed.None? {
        return None;
      }
      data := fixed.value;
    }
    return Some(BlockEntry(id, data));
  }

  class Display {
    const version: u16
    const bdbBlocks: List<BlockEntry>
    var crtDdcPin: u8

    ghost predicate Valid()
      reads bdbBlocks, bdbBlocks.Ring()
    {
      bdbBlocks.Valid()
    }

    constructor (version: u16)
      ensures Valid() && fresh(bdbBlocks.Repr()) && bdbBlocks.Contents() == []
      ensures this.version == version && crtDdcPin == GMBUS_PIN_VGADDC
    {
      this.version := version;
      crtDdcPin := GMBUS_PIN_VGADDC;
      bdbBlocks := new List<BlockEntry>();
    }

    /** init_bdb_block */
    method InitBdbBlock(m: seq<u8>, id: u8, minSize: nat)
      requires Valid() && Loadable(m, version, id) && (id == LFP_DATA_PTRS ==> minSize == PTRS_SIZE)
      modifies bdbBlocks.Repr()
      ensures Valid() && fresh(bdbBlocks.Repr() - old(bdbBlocks.Repr()))
      ensures bdbBlocks.Contents() == old(bdbBlocks.Contents()) + OneOrNone(EntryFor(m, version, id, minSize))
    {
      var entry := MakeEntry(m, version, id, minSize);
      if entry.Some? {
        bdbBlocks.Append(entry.value);
      }
    }

    /** lfp_data_min_size, from the pointer table in the index so far. */
    method IndexedMinSize(ghost m: seq<u8>, ghost sizes: u8 -> nat, ghost before: seq<u8>) returns (size: nat)
      requires Valid() && Copyable(m) && LFP_DATA_PTRS in before
      requires bdbBlocks.Contents() == EntriesFor(m, version, sizes, before)
      ensures size == MinSize(m, version, sizes, LFP_DATA)
    {
      var entry := BdbFindSection(LFP_DATA_PTRS);
      IndexedPtrsDescribe(m, version, sizes, before);
      if entry.None? {
        return LfpDataMinSize(None);
      }
      size := LfpDataMinSize(Some(DecodePtrs(entry.value.data[3..3 + PTRS_SIZE])));
    }

    method NextMinSize(ghost m: seq<u8>, sizes: u8 -> nat, table: seq<u8>, i: nat) returns (minSize: nat)
      requires Valid() && Copyable(m) && i < |table| && PtrsFirst(table)
      requires bdbBlocks.Contents() == EntriesFor(m, version, sizes, table[..i])
      ensures minSize == MinSize(m, version, sizes, table[i])
    {
      minSize := TableMinSize(sizes, table[i]);
      if table[i] == LFP_DATA {
        minSize := IndexedMinSize(m, sizes, table[..i]);
      }
    }

    /** One turn of init_bdb_blocks. */
    method InitNext(m: seq<u8>, sizes: u8 -> nat, table: seq<u8>, i: nat)
      requires Valid() && i < |table| && Loadable(m, version, table[i]) && PtrsFirst(table)
      requires bdbBlocks.Contents() == EntriesFor(m, version, sizes, table[..i])
      modifies bdbBlocks.Repr()
      ensures Valid() && fresh(bdbBlocks.Repr() - old(bdbBlocks.Repr()))
      ensures bdbBlocks.Contents() == EntriesFor(m, version, sizes, table[..i + 1])
    {
      var minSize := NextMinSize(m, sizes, table, i);
      EntriesNext(m, version, sizes, table, i);
      InitBdbBlock(m, table[i], minSize);
    }

    /** init_bdb_blocks, on an empty list, for a table of section ids that lists section 41 before section 42. */
    method InitBdbBlocks(m: seq<u8>, sizes: u8 -> nat, table: seq<u8>)
      requires Valid() && Copyable(m) && bdbBlocks.Contents() == []
      requires AllLoadable(m, version, table) && PtrsFirst(table)
      modifies bdbBlocks.Repr()
      ensures Valid() && fresh(bdbBlocks.Repr() - old(bdbBlocks.Repr()))
      ensures bdbBlocks.Contents() == EntriesFor(m, version, sizes, table)
    {
      for i := 0 to |table|
        invariant Valid() && fresh(bdbBlocks.Repr() - old(bdbBlocks.Repr()))
        invariant bdbBlocks.Contents() == EntriesFor(m, version, sizes, table[..i])
      {
        InitNext(m, sizes, table, i);
      }
      assert table[..|table|] == table;
    }

    /** bdb_find_section: the payload of the first entry with the given id, walking the list. */
    method BdbFindSection(id: u8) returns (r: Option<BlockEntry>)
      requires Valid()
      ensures r == Lookup(bdbBlocks.Contents(), id)
    {
      ghost var i := 0;
      ghost var ring, entries := bdbBlocks.Ring(), bdbBlocks.Contents();
      assert ring[0] == bdbBlocks.head && ring[0].next == ring[if |ring| > 1 then 1 else 0];
      var pos := bdbBlocks.head.next;
      assert entries[0..] == entries;
      while pos != bdbBlocks.head
        invariant 0 <= i <= |entries| == |ring| - 1
        invariant pos == ring[if i < |entries| then i + 1 else 0]
        invariant Lookup(entries, id) == Lookup(entries[i..], id)
        decreases |entries| - i
      {
        assert pos == ring[i + 1] == bdbBlocks.links[i];
        assert entries[i] == pos.entry.value && entries[i..][0] == entries[i] && entries[i..][1..] == entries[i + 1..];
        if pos.entry.value.sectionId == id {
          return Some(pos.entry.value);
        }
        pos := pos.next;
        i := i + 1;
      }
      return None;
    }
  }
}
