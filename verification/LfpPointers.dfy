/**
 The table of pointers into the panel data block: block 41, which describes block 42
 (NootedBlue/kern_nblue.cpp, layouts from NootedBlue/intel_vbt_defs.h).

 Block 42 holds, for each of 16 panels, an fp_timing table of variable size, an 18-byte dvo_timing
 table and a 10-byte panel_pnp_id table; block 41 says where each of the 48 tables lies.
 */
module LfpPointers {
  import opened Options
  import opened Words
  import opened BdbScan

  /** struct lfp_data_ptr_table */
  datatype Table = Table(offset: u16, size: u8)

  /** struct lfp_data_ptr: the three tables of one panel */
  datatype Row = Row(fp: Table, dvo: Table, pnp: Table)

  /** The value of a struct bdb_lfp_data_ptrs */
  datatype Ptrs = Ptrs(numEntries: u8, rows: seq<Row>, name: Table)

  const PTRS_SIZE: nat := 148

  // ---------------------------------------------------------------------------------------------
  // The packed byte layout
  // ---------------------------------------------------------------------------------------------

  function DecodeTable(b: seq<u8>, i: nat): Table
    requires i + 3 <= |b|
  {
    Table(U16At(b, i), b[i + 2])
  }

  function DecodeRow(b: seq<u8>, i: nat): Row
    requires i + 9 <= |b|
  {
    Row(DecodeTable(b, i), DecodeTable(b, i + 3), DecodeTable(b, i + 6))
  }

  function DecodePtrs(b: seq<u8>): (v: Ptrs)
    requires |b| == PTRS_SIZE
    ensures |v.rows| == 16
  {
    Ptrs(b[0], seq(16, i requires 0 <= i < 16 => DecodeRow(b, 1 + 9 * i)), DecodeTable(b, 145))
  }

  function EncodeTable(t: Table): (b: seq<u8>)
    ensures |b| == 3 && DecodeTable(b, 0) == t
  {
    Le16(t.offset) + [t.size]
  }

  function EncodeRow(r: Row): (b: seq<u8>)
    ensures |b| == 9
  {
    EncodeTable(r.fp) + EncodeTable(r.dvo) + EncodeTable(r.pnp)
  }

  function EncodeRows(rows: seq<Row>): (b: seq<u8>)
    ensures |b| == 9 * |rows|
  {
    if rows == [] then [] else EncodeRow(rows[0]) + EncodeRows(rows[1..])
  }

  function EncodePtrs(v: Ptrs): (b: seq<u8>)
    requires |v.rows| == 16
    ensures |b| == PTRS_SIZE
  {
    [v.numEntries] + EncodeRows(v.rows) + EncodeTable(v.name)
  }

  lemma DecodeRowEncoded(b: seq<u8>, at: nat, row: Row)
    requires at + 9 <= |b| && b[at..at + 9] == EncodeRow(row)
    ensures DecodeRow(b, at) == row
  {
    var code := b[at..at + 9];
    assert code[..3] == EncodeTable(row.fp) && code[3..6] == EncodeTable(row.dvo) && code[6..] == EncodeTable(row.pnp);
    assert forall k :: 0 <= k < 9 ==> b[at + k] == code[k];
    assert code[..3][0] == code[0] && code[..3][1] == code[1] && code[..3][2] == code[2];
    assert code[3..6][0] == code[3] && code[3..6][1] == code[4] && code[3..6][2] == code[5];
    assert code[6..][0] == code[6] && code[6..][1] == code[7] && code[6..][2] == code[8];
  }

  lemma {:induction false} EncodedRowAt(rows: seq<Row>, i: nat)
    requires i < |rows|
    ensures EncodeRows(rows)[9 * i..9 * i + 9] == EncodeRow(rows[i])
    decreases |rows|
  {
    var head, tail := EncodeRow(rows[0]), EncodeRows(rows[1..]);
    assert EncodeRows(rows) == head + tail;
    if i == 0 {
    } else {
      EncodedRowAt(rows[1..], i - 1);
      SliceBehind(head, tail, 9 * (i - 1), 9 * (i - 1) + 9);
    }
  }

  /** Where the fields lie: one byte, 16 rows of three tables of three bytes each, and the table of names. */
  lemma PtrsLayout(v: Ptrs, i: nat)
    requires |v.rows| == 16 && i < 16
    ensures var b, at := EncodePtrs(v), 1 + 9 * i;
            && b[0] == v.numEntries
            && U16At(b, at) == v.rows[i].fp.offset && b[at + 2] == v.rows[i].fp.size
            && U16At(b, at + 3) == v.rows[i].dvo.offset && b[at + 5] == v.rows[i].dvo.size
            && U16At(b, at + 6) == v.rows[i].pnp.offset && b[at + 8] == v.rows[i].pnp.size
            && U16At(b, 145) == v.name.offset && b[147] == v.name.size
  {
    PtrsRoundTrip(v);
    var b, at := EncodePtrs(v), 1 + 9 * i;
    assert DecodePtrs(b).rows[i] == DecodeRow(b, at);
    assert DecodePtrs(b).name == DecodeTable(b, 145);
  }

  /** The byte layout loses nothing. */
  lemma PtrsRoundTrip(v: Ptrs)
    requires |v.rows| == 16
    ensures DecodePtrs(EncodePtrs(v)) == v
  {
    var b, code := EncodePtrs(v), EncodeRows(v.rows);
    forall i | 0 <= i < 16 ensures DecodeRow(b, 1 + 9 * i) == v.rows[i] {
      EncodedRowAt(v.rows, i);
      assert b[1 + 9 * i..1 + 9 * i + 9] == code[9 * i..9 * i + 9];
      DecodeRowEncoded(b, 1 + 9 * i, v.rows[i]);
    }
    assert DecodePtrs(b).rows == v.rows;
    assert b[145..] == EncodeTable(v.name);
    assert b[145] == b[145..][0] && b[146] == b[145..][1] && b[147] == b[145..][2];
  }

  // ---------------------------------------------------------------------------------------------
  // What the pointers mean
  // ---------------------------------------------------------------------------------------------

  /** One panel's tables back to back from `start`, when its fp_timing takes up fpSpan bytes. */
  ghost predicate RowPlaced(row: Row, start: int, fpSize: int, fpSpan: int) {
    && row.fp.offset == start && row.fp.size == fpSize
    && row.dvo.offset == start + fpSpan && row.dvo.size == 18
    && row.pnp.offset == start + fpSpan + 18 && row.pnp.size == 10
  }

  ghost predicate HasLayout(rows: seq<Row>, base: int, fpSize: int, fpSpan: int) {
    |rows| == 16 && forall i :: 0 <= i < 16 ==> RowPlaced(rows[i], base + i * (fpSpan + 28), fpSize, fpSpan)
  }

  /** The fp_timing table of panel i ends with the terminator 0xffff. */
  ghost predicate Terminated(m: seq<u8>, data: nat, fpSpan: int, i: int) {
    var at := data + i * (fpSpan + 28) + fpSpan - 2;
    0 <= at && at + 2 <= |m| && U16At(m, at) == 0xFFFF
  }

  /** How many bytes an fp_timing table takes up, read off the distance between two of them. */
  function FpSpan(v: Ptrs): int
    requires |v.rows| == 16
  {
    v.rows[1].fp.offset - 28
  }

  /** 16 panels back to back from the start, each fp_timing as long as declared or six bytes longer. */
  ghost predicate SoundLayout(v: Ptrs, size: int)
    requires |v.rows| == 16
  {
    && v.numEntries == 3
    && v.rows[0].fp.size >= 32
    && (FpSpan(v) == v.rows[0].fp.size || FpSpan(v) == v.rows[0].fp.size + 6)
    && HasLayout(v.rows, 0, v.rows[0].fp.size, FpSpan(v))
    && 16 * (FpSpan(v) + 28) <= size
    && (v.name.size == 0 || v.name.size == 13)
  }

  /** The pointers, relative to block 42, describe it: a layout that fits, with all terminators in place. */
  ghost predicate Describes(v: Ptrs, m: seq<u8>)
    requires Mapped(m) && |v.rows| == 16
  {
    && FoundSection(m, LFP_DATA).Some?
    && SoundLayout(v, FoundSection(m, LFP_DATA).value.size)
    && v.name.offset + 16 * v.name.size <= FoundSection(m, LFP_DATA).value.size
    && forall i :: 0 <= i < 16 ==> Terminated(m, FoundSection(m, LFP_DATA).value.payload, FpSpan(v), i)
  }

  // ---------------------------------------------------------------------------------------------
  // Described tables tile the block
  // ---------------------------------------------------------------------------------------------

  datatype Kind = FpTiming | DvoTiming | PanelPnpId

  function TableOf(v: Ptrs, panel: nat, kind: Kind): Table
    requires |v.rows| == 16 && panel < 16
  {
    match kind
    case FpTiming => v.rows[panel].fp
    case DvoTiming => v.rows[panel].dvo
    case PanelPnpId => v.rows[panel].pnp
  }

  /** The bytes a table takes up, the six unaccounted bytes of an fp_timing table included. */
  function TableSpan(v: Ptrs, panel: nat, kind: Kind): int
    requires |v.rows| == 16 && panel < 16
  {
    if kind.FpTiming? then FpSpan(v) else TableOf(v, panel, kind).size
  }

  /** Byte p of block 42 belongs to the given table. */
  ghost predicate Covers(v: Ptrs, panel: nat, kind: Kind, p: int)
    requires |v.rows| == 16 && panel < 16
  {
    var start := TableOf(v, panel, kind).offset as int;
    start <= p < start + TableSpan(v, panel, kind)
  }

  /** Which of a panel's three tables a byte of its entry falls into. */
  function KindAt(inPanel: int, fpSpan: int): Kind {
    if inPanel < fpSpan then FpTiming else if inPanel < fpSpan + 18 then DvoTiming else PanelPnpId
  }

  lemma CoversIff(v: Ptrs, panel: nat, start: int, kind: Kind, p: int)
    requires |v.rows| == 16 && panel < 16 && RowPlaced(v.rows[panel], start, v.rows[0].fp.size, FpSpan(v)) && 0 <= FpSpan(v)
    ensures Covers(v, panel, kind, p) <==>
            0 <= p - start < FpSpan(v) + 28 && kind == KindAt(p - start, FpSpan(v))
  {
  }

  /** In a described table the entry of a panel starts at a multiple of the stride. */
  lemma PanelPlaced(v: Ptrs, m: seq<u8>, panel: nat)
    requires Mapped(m) && |v.rows| == 16 && Describes(v, m) && panel < 16
    ensures RowPlaced(v.rows[panel], (FpSpan(v) + 28) * panel, v.rows[0].fp.size, FpSpan(v))
  {
    assert RowPlaced(v.rows[panel], 0 + panel * (FpSpan(v) + 28), v.rows[0].fp.size, FpSpan(v));
  }

  /** Every byte of the 16 panel entries belongs to exactly one of the 48 tables. */
  lemma TablesTile(v: Ptrs, m: seq<u8>, p: nat) returns (panel: nat, kind: Kind)
    requires Mapped(m) && |v.rows| == 16 && Describes(v, m) && p < 16 * (FpSpan(v) + 28)
    ensures panel < 16 && Covers(v, panel, kind, p)
    ensures forall panel': nat, kind' :: panel' < 16 && Covers(v, panel', kind', p) ==> panel' == panel && kind' == kind
  {
    var stride := FpSpan(v) + 28;
    QuotientBelow(p, stride, 16);
    panel := Quotient(p, stride);
    kind := KindAt(p - stride * panel, FpSpan(v));
    PanelPlaced(v, m, panel);
    CoversIff(v, panel, stride * panel, kind, p);
    forall panel': nat, kind' | panel' < 16 && Covers(v, panel', kind', p) ensures panel' == panel && kind' == kind {
      PanelPlaced(v, m, panel');
      CoversIff(v, panel', stride * panel', kind', p);
      QuotientUnique(p, stride, panel');
    }
  }

  lemma QuotientBelow(p: int, d: int, n: int)
    requires 0 <= p < n * d && 0 < d
    ensures 0 <= p / d < n && d * (p / d) <= p < d * (p / d) + d
  {
    var q := p / d;
    assert p == d * q + p % d;
    FactorNotNegative(d, q);
    assert d * (n - q - 1) == n * d - d * q - d;
    FactorNotNegative(d, n - q - 1);
  }

  /** Every table and every panel's name lies inside block 42, and so inside the BDB: all panel lookups stay in range. */
  lemma TablesInside(v: Ptrs, m: seq<u8>, panel: nat, kind: Kind)
    requires Mapped(m) && |v.rows| == 16 && Describes(v, m) && panel < 16
    ensures v.rows[0].fp.offset == 0
    ensures var data := FoundSection(m, LFP_DATA).value;
            && TableOf(v, panel, kind).size <= TableSpan(v, panel, kind)
            && TableOf(v, panel, kind).offset + TableSpan(v, panel, kind) <= data.size
            && data.payload + TableOf(v, panel, kind).offset + TableSpan(v, panel, kind) <= BdbSize(m)
            && (v.name.size != 0 ==> v.name.size == 13 && v.name.offset + 13 * panel + 13 <= data.size)
  {
    FoundSectionPlaced(m, LFP_DATA);
    PanelPlaced(v, m, 0);
    PanelPlaced(v, m, panel);
    PanelFits(panel, FpSpan(v) + 28);
  }

  // ---------------------------------------------------------------------------------------------
  // Which tables describe block 42
  // ---------------------------------------------------------------------------------------------

  /** Panel i of a table written out for fp_timing tables of `fp` declared and `span` actual bytes. */
  function BuiltRow(i: nat, fp: u8, span: nat): Row
    requires i < 16 && span <= 261
  {
    PanelFits(i, span + 28);
    var start := i * (span + 28);
    Row(Table(start, fp), Table(start + span, 18), Table(start + span + 18, 10))
  }

  function BuiltPtrs(fp: u8, span: nat, name: Table): Ptrs
    requires span <= 261
  {
    Ptrs(3, seq(16, i requires 0 <= i < 16 => BuiltRow(i, fp, span)), name)
  }

  /** The last two bytes of panel i's fp_timing table, right before its dvo_timing table, are 0xff. */
  ghost predicate PanelMarked(m: seq<u8>, data: nat, span: int, i: int) {
    var dvo := data + i * (span + 28) + span;
    2 <= dvo <= |m| && m[dvo - 2] == 0xFF && m[dvo - 1] == 0xFF
  }

  /** Block 42 can be described by such a table, with the given table of panel names. */
  ghost predicate Acceptable(m: seq<u8>, fp: int, span: int, name: Table)
    requires Mapped(m)
  {
    && FoundSection(m, LFP_DATA).Some?
    && var data := FoundSection(m, LFP_DATA).value;
       && 32 <= fp && (span == fp || span == fp + 6) && 16 * (span + 28) <= data.size
       && (name.size == 0 || name.size == 13) && name.offset + 16 * name.size <= data.size
       && forall i :: 0 <= i < 16 ==> PanelMarked(m, data.payload, span, i)
  }

  lemma BuiltPlaced(fp: u8, span: nat, name: Table, i: int)
    requires span <= 261 && 0 <= i < 16
    ensures RowPlaced(BuiltPtrs(fp, span, name).rows[i], 0 + i * (span + 28), fp, span)
  {
  }

  lemma TerminatedIffMarked(m: seq<u8>, data: nat, span: int)
    ensures (forall i :: 0 <= i < 16 ==> Terminated(m, data, span, i)) <==>
            (forall i :: 0 <= i < 16 ==> PanelMarked(m, data, span, i))
  {
    forall i ensures Terminated(m, data, span, i) <==> PanelMarked(m, data, span, i) { }
  }

  lemma BuiltDescribesIff(m: seq<u8>, fp: u8, span: nat, name: Table)
    requires Mapped(m) && span <= 261
    ensures Describes(BuiltPtrs(fp, span, name), m) <==> Acceptable(m, fp, span, name)
  {
    var v := BuiltPtrs(fp, span, name);
    forall i | 0 <= i < 16 ensures RowPlaced(v.rows[i], 0 + i * (span + 28), fp, span) { BuiltPlaced(fp, span, name, i); }
    assert v.rows[0].fp.size == fp && v.rows[1].fp.offset == span + 28;
    assert HasLayout(v.rows, 0, fp, span) && FpSpan(v) == span;
    if FoundSection(m, LFP_DATA).Some? { TerminatedIffMarked(m, FoundSection(m, LFP_DATA).value.payload, span); }
  }

  lemma DescribedIsBuilt(v: Ptrs, m: seq<u8>)
    requires Mapped(m) && |v.rows| == 16 && Describes(v, m)
    ensures 0 <= FpSpan(v) <= 261 && v == BuiltPtrs(v.rows[0].fp.size, FpSpan(v), v.name)
  {
    var fp, span := v.rows[0].fp.size, FpSpan(v);
    forall i | 0 <= i < 16 ensures v.rows[i] == BuiltRow(i, fp, span) {
      assert RowPlaced(v.rows[i], 0 + i * (span + 28), fp, span);
    }
    assert v.rows == BuiltPtrs(fp, span, v.name).rows;
  }

  /** A table describes block 42 if and only if it is one written out for a shape that block 42 has. */
  lemma DescribesIff(v: Ptrs, m: seq<u8>)
    requires Mapped(m) && |v.rows| == 16
    ensures Describes(v, m) <==>
            exists fp: u8, span: nat ::
              span <= 261 && v == BuiltPtrs(fp, span, v.name) && Acceptable(m, fp, span, v.name)
  {
    if Describes(v, m) {
      DescribedIsBuilt(v, m);
      BuiltDescribesIff(m, v.rows[0].fp.size, FpSpan(v), v.name);
    }
    forall fp: u8, span: nat | span <= 261 && v == BuiltPtrs(fp, span, v.name) && Acceptable(m, fp, span, v.name)
      ensures Describes(v, m)
    {
      BuiltDescribesIff(m, fp, span, v.name);
    }
  }

  // ---------------------------------------------------------------------------------------------
  // Rebasing: block 41 counts from the start of the BDB, the driver from the start of block 42
  // ---------------------------------------------------------------------------------------------

  ghost predicate RowAbove(row: Row, offset: int) {
    row.fp.offset >= offset && row.dvo.offset >= offset && row.pnp.offset >= offset
  }

  ghost predicate CanRebase(v: Ptrs, offset: nat) {
    && (forall i :: 0 <= i < |v.rows| ==> RowAbove(v.rows[i], offset))
    && (v.name.size != 0 ==> v.name.offset >= offset)
  }

  function Lower(t: Table, offset: nat): Table
    requires t.offset >= offset
  {
    Table(t.offset - offset, t.size)
  }

  function LowerRow(row: Row, offset: nat): Row
    requires row.fp.offset >= offset && row.dvo.offset >= offset && row.pnp.offset >= offset
  {
    Row(Lower(row.fp, offset), Lower(row.dvo, offset), Lower(row.pnp, offset))
  }

  ghost function Rebased(v: Ptrs, offset: nat): Ptrs
    requires CanRebase(v, offset)
  {
    Ptrs(v.numEntries,
         seq(|v.rows|, i requires 0 <= i < |v.rows| => assert RowAbove(v.rows[i], offset); LowerRow(v.rows[i], offset)),
         if v.name.size != 0 then Lower(v.name, offset) else v.name)
  }

  /** w is v with every offset that is in use raised by `offset`. */
  ghost predicate IsShifted(v: Ptrs, w: Ptrs, offset: nat) {
    && w.numEntries == v.numEntries && |w.rows| == |v.rows|
    && (forall i :: 0 <= i < |v.rows| ==>
          && TableShifted(v.rows[i].fp, w.rows[i].fp, offset)
          && TableShifted(v.rows[i].dvo, w.rows[i].dvo, offset)
          && TableShifted(v.rows[i].pnp, w.rows[i].pnp, offset))
    && TableShifted(v.name, w.name, if v.name.size == 0 then 0 else offset)
  }

  ghost predicate TableShifted(t: Table, u: Table, offset: nat) {
    u.size == t.size && u.offset == t.offset + offset
  }

  /** Rebasing undoes shifting, and is possible exactly for a table that is a shifted one. */
  lemma RebasedIff(v: Ptrs, w: Ptrs, offset: nat)
    ensures CanRebase(w, offset) && Rebased(w, offset) == v <==> IsShifted(v, w, offset)
  {
    if IsShifted(v, w, offset) {
      assert forall i :: 0 <= i < |w.rows| ==> RowAbove(w.rows[i], offset);
      assert Rebased(w, offset).rows == v.rows;
    }
  }

  /** The address of block 42's payload; zero when there is no block 42. */
  ghost function DataOffset(m: seq<u8>): nat
    requires Mapped(m)
  {
    if FoundSection(m, LFP_DATA).Some? then FoundSection(m, LFP_DATA).value.payload else 0
  }

  // ---------------------------------------------------------------------------------------------
  // Generated tables
  // ---------------------------------------------------------------------------------------------

  /** The table generated for a block 42 of the given size at the given offset; 66 = 38 + 18 + 10. */
  ghost predicate Generated(v: Ptrs, offset: int, size: int) {
    && v.numEntries == 3 && HasLayout(v.rows, offset, 38, 38)
    && (if 16 * (66 + 13) <= size then v.name.offset == offset + 16 * 66 && v.name.size == 13 else v.name == Table(0, 0))
  }

  /** The generated table relative to block 42. */
  ghost function RelativePtrs(size: int): Ptrs {
    Ptrs(3, seq(16, i requires 0 <= i < 16 => Row(Table(66 * i, 38), Table(66 * i + 38, 18), Table(66 * i + 56, 10))),
         if 16 * (66 + 13) <= size then Table(16 * 66, 13) else Table(0, 0))
  }

  lemma GeneratedUnique(v: Ptrs, size: int)
    requires Generated(v, 0, size)
    ensures v == RelativePtrs(size)
  {
    forall i | 0 <= i < 16 ensures v.rows[i] == RelativePtrs(size).rows[i] {
      assert RowPlaced(v.rows[i], 66 * i, 38, 38);
    }
    assert v.rows == RelativePtrs(size).rows;
  }

  /**
   A generated table can always be rebased, and rebasing gives back exactly the block-relative layout;
   it then describes block 42 exactly when all 16 fp_timing terminators are in place.
   */
  lemma GeneratedRebases(v: Ptrs, m: seq<u8>)
    requires Mapped(m) && FoundSection(m, LFP_DATA).Some? && FoundSection(m, LFP_DATA).value.size >= 16 * 66
    requires Generated(v, DataOffset(m), FoundSection(m, LFP_DATA).value.size)
    ensures CanRebase(v, DataOffset(m))
    ensures Rebased(v, DataOffset(m)) == RelativePtrs(FoundSection(m, LFP_DATA).value.size)
    ensures Describes(Rebased(v, DataOffset(m)), m) <==> forall i :: 0 <= i < 16 ==> Terminated(m, DataOffset(m), 38, i)
  {
    var offset := DataOffset(m);
    forall i | 0 <= i < 16 ensures RowAbove(v.rows[i], offset) { assert RowPlaced(v.rows[i], offset + 66 * i, 38, 38); }
    var w := Rebased(v, offset);
    forall i | 0 <= i < 16 ensures RowPlaced(w.rows[i], 66 * i, 38, 38) { assert RowPlaced(v.rows[i], offset + 66 * i, 38, 38); }
    assert RowPlaced(w.rows[0], 0, 38, 38) && RowPlaced(w.rows[1], 66, 38, 38);
    assert FpSpan(w) == 38;
    GeneratedUnique(w, FoundSection(m, LFP_DATA).value.size);
  }

  /** make_lfp_data_ptr: the table takes the last bytes of what is left; returns what then is left. */
  function MakePtr(table: Table, tableSize: int, totalSize: int): (Table, int)
    requires 0 <= tableSize
  {
    if totalSize < tableSize then (table, totalSize)
    else (Table((totalSize - tableSize) % 0x1_0000, tableSize % 0x100), totalSize - tableSize)
  }

  /** `offset += n` on a 16-bit field. */
  function Raise(t: Table, n: nat): Table {
    Table((t.offset + n) % 0x1_0000, t.size)
  }

  function RaiseRow(row: Row, n: nat): Row {
    Row(Raise(row.fp, n), Raise(row.dvo, n), Raise(row.pnp, n))
  }

  /** next_lfp_data_ptr: raising a panel's pointers by the size of an entry gives the next panel's. */
  lemma NextRowPlaced(row: Row, i: int)
    requires 0 <= i < 15 && RowPlaced(row, 66 * i, 38, 38)
    ensures RowPlaced(RaiseRow(row, 66), 66 * (i + 1), 38, 38)
  {
    assert row.fp.offset as int + 66 == 66 * (i + 1) < 0x1_0000;
  }

  /** generate_lfp_data_ptrs: a table with BDB-relative offsets, if the version and block 42 allow one. */
  method Generate(m: seq<u8>, version: u16) returns (p: PtrTable?)
    requires Mapped(m) && (version >= 155 ==> Halts(m, LFP_DATA))
    ensures p != null <==>
            version >= 155 && FoundSection(m, LFP_DATA).Some? && FoundSection(m, LFP_DATA).value.size >= 16 * 66
    ensures p != null ==> fresh(p) && fresh(p.rows) && p.Valid() &&
                          Generated(p.View(), DataOffset(m), FoundSection(m, LFP_DATA).value.size)
  {
    if version < 155 {
      return null;
    }
    var fpTimingSize := 38;
    var block := FindRawSection(m, LFP_DATA);
    if block.None? {
      return null;
    }
    var blockSize := BlockSize(m, block.value - 3);
    var size := fpTimingSize + 18 + 10;
    if size * 16 > blockSize {
      return null;
    }
    p := new PtrTable.Zeroed();
    var left := p.MakeFirstRow(fpTimingSize, size);
    if left != 0 || p.numEntries != 3 {
      return null;
    }
    p.FillRows(size, blockSize);
    ghost var relative := p.View();
    p.RaiseAll(block.value);
    RaisedGenerated(relative, p.View(), block.value, blockSize);
  }

  /** A generated table's fields: panels of 66 bytes, and the names behind them exactly if all 16 fit. */
  lemma GeneratedFields(v: Ptrs, offset: nat, size: nat, i: nat)
    requires Generated(v, offset, size) && i < 16
    ensures var start := offset + 66 * i;
            && v.rows[i].fp.offset == start && v.rows[i].fp.size == 38
            && v.rows[i].dvo.offset == start + 38 && v.rows[i].dvo.size == 18
            && v.rows[i].pnp.offset == start + 56 && v.rows[i].pnp.size == 10
    ensures v.numEntries == 3 && (v.name.size != 0 <==> 1056 + 16 * 13 <= size)
    ensures v.name.size != 0 ==> v.name.size == 13 && v.name.offset == offset + 1056
  {
    assert RowPlaced(v.rows[i], offset + i * (38 + 28), 38, 38);
  }

  /** Within a BDB of at most 65535 bytes the 16-bit offsets do not wrap. */
  lemma RaisedGenerated(v: Ptrs, w: Ptrs, offset: nat, size: nat)
    requires Generated(v, 0, size) && 16 * 66 <= size && offset + size < 0x1_0000
    requires |w.rows| == 16 && w.numEntries == v.numEntries
    requires forall i :: 0 <= i < 16 ==> w.rows[i] == RaiseRow(v.rows[i], offset)
    requires w.name == if v.name.size != 0 then Raise(v.name, offset) else v.name
    ensures Generated(w, offset, size)
  {
    forall i | 0 <= i < 16 ensures RowPlaced(w.rows[i], offset + 66 * i, 38, 38) {
      assert RowPlaced(v.rows[i], 66 * i, 38, 38);
    }
  }

  // ---------------------------------------------------------------------------------------------
  // The pointer table in memory
  // ---------------------------------------------------------------------------------------------

  /** Rows 1 to k - 1 have uniform sizes and lie `stride` bytes apart. */
  ghost predicate Uniform(rows: seq<Row>, k: int, fpSize: int, stride: int)
    requires 0 <= k <= |rows|
  {
    forall i :: 1 <= i < k ==> SameShape(rows[i - 1], rows[i], fpSize, stride)
  }

  predicate SameShape(prev: Row, row: Row, fpSize: int, stride: int) {
    && row.fp.size == fpSize && row.dvo.size == 18 && row.pnp.size == 10
    && row.fp.offset - prev.fp.offset == stride
    && row.dvo.offset - prev.dvo.offset == stride
    && row.pnp.offset - prev.pnp.offset == stride
  }

  lemma {:induction false} UniformRowPlaced(rows: seq<Row>, base: int, fpSize: int, fpSpan: int, i: nat)
    requires |rows| == 16 && i < 16
    requires RowPlaced(rows[0], base, fpSize, fpSpan) && Uniform(rows, 16, fpSize, fpSpan + 28)
    ensures RowPlaced(rows[i], base + i * (fpSpan + 28), fpSize, fpSpan)
  {
    if i == 0 {
    } else {
      UniformRowPlaced(rows, base, fpSize, fpSpan, i - 1);
      assert SameShape(rows[i - 1], rows[i], fpSize, fpSpan + 28);
      assert i * (fpSpan + 28) == (i - 1) * (fpSpan + 28) + (fpSpan + 28);
    }
  }

  lemma LayoutIffUniform(rows: seq<Row>, base: int, fpSize: int, fpSpan: int)
    requires |rows| == 16
    ensures HasLayout(rows, base, fpSize, fpSpan) <==>
            RowPlaced(rows[0], base, fpSize, fpSpan) && Uniform(rows, 16, fpSize, fpSpan + 28)
  {
    if HasLayout(rows, base, fpSize, fpSpan) {
      forall i | 1 <= i < 16 ensures SameShape(rows[i - 1], rows[i], fpSize, fpSpan + 28) {
        assert RowPlaced(rows[i - 1], base + (i - 1) * (fpSpan + 28), fpSize, fpSpan);
        assert RowPlaced(rows[i], base + i * (fpSpan + 28), fpSize, fpSpan);
        assert i * (fpSpan + 28) == (i - 1) * (fpSpan + 28) + (fpSpan + 28);
      }
    }
    if RowPlaced(rows[0], base, fpSize, fpSpan) && Uniform(rows, 16, fpSize, fpSpan + 28) {
      forall i | 0 <= i < 16 ensures RowPlaced(rows[i], base + i * (fpSpan + 28), fpSize, fpSpan) {
        UniformRowPlaced(rows, base, fpSize, fpSpan, i);
      }
    }
  }

  ghost predicate RowFits(row: Row, fpSize: int, dataBlockSize: int) {
    && row.fp.offset + fpSize <= dataBlockSize
    && row.dvo.offset + 18 <= dataBlockSize && row.pnp.offset + 10 <= dataBlockSize
  }

  lemma LayoutFits(rows: seq<Row>, fpSize: int, fpSpan: int, dataBlockSize: int)
    requires 0 <= fpSpan && HasLayout(rows, 0, fpSize, fpSpan) && 16 * (fpSpan + 28) <= dataBlockSize
    ensures forall i :: 0 <= i < 16 ==> RowFits(rows[i], fpSpan, dataBlockSize)
  {
    forall i | 0 <= i < 16 ensures RowFits(rows[i], fpSpan, dataBlockSize) {
      assert RowPlaced(rows[i], i * (fpSpan + 28), fpSize, fpSpan);
      PanelFits(i, fpSpan + 28);
    }
  }

  lemma TerminatedIff(m: seq<u8>, rows: seq<Row>, data: nat, fpSize: int, fpSpan: int)
    requires 2 <= fpSpan && HasLayout(rows, 0, fpSize, fpSpan)
    requires forall i :: 0 <= i < 16 ==> data + rows[i].fp.offset + fpSpan <= |m|
    ensures (forall i :: 0 <= i < 16 ==> Terminated(m, data, fpSpan, i)) <==>
            forall i :: 0 <= i < 16 ==> U16At(m, data + rows[i].fp.offset + fpSpan - 2) == 0xFFFF
  {
    forall i | 0 <= i < 16
      ensures Terminated(m, data, fpSpan, i) <==> U16At(m, data + rows[i].fp.offset + fpSpan - 2) == 0xFFFF
    {
      assert RowPlaced(rows[i], i * (fpSpan + 28), fpSize, fpSpan);
    }
  }

  lemma PanelFits(i: int, stride: int)
    requires 0 <= i < 16 && 0 <= stride
    ensures 0 <= i * stride && i * stride + stride <= 16 * stride
  {
    assert (15 - i) * stride >= 0;
  }

  class PtrTable {
    var numEntries: u8
    const rows: array<Row>
    var name: Table

    ghost predicate Valid() {
      rows.Length == 16
    }

    function View(): (v: Ptrs)
      requires Valid()
      reads this, rows
      ensures |v.rows| == 16
    {
      Ptrs(numEntries, rows[..], name)
    }

    /** Scratch memory for a table, all zero. */
    constructor Zeroed()
      ensures Valid() && fresh(rows)
      ensures View() == Ptrs(0, seq(16, _ => Row(Table(0, 0), Table(0, 0), Table(0, 0))), Table(0, 0))
    {
      numEntries := 0;
      rows := new Row[16](_ => Row(Table(0, 0), Table(0, 0), Table(0, 0)));
      name := Table(0, 0);
    }

    /** The table overlaid on the bytes of a block. */
    constructor FromBytes(b: seq<u8>)
      requires |b| == PTRS_SIZE
      ensures Valid() && fresh(rows) && View() == DecodePtrs(b)
    {
      var v := DecodePtrs(b);
      numEntries := v.numEntries;
      rows := new Row[16](i requires 0 <= i < 16 => v.rows[i]);
      name := v.name;
      new;
      assert rows[..] == v.rows;
    }

    /** The first panel's tables, laid out from the end of its entry; returns the bytes left over. */
    method MakeFirstRow(fpTimingSize: nat, total: nat) returns (left: int)
      requires Valid() && numEntries == 0
      modifies this, rows
      ensures 0 < fpTimingSize < 0x100 && total == fpTimingSize + 28 ==>
                left == 0 && numEntries == 3 && RowPlaced(rows[0], 0, fpTimingSize, fpTimingSize)
      ensures name == old(name)
    {
      var pnp := MakePtr(rows[0].pnp, 10, total);
      var dvo := MakePtr(rows[0].dvo, 18, pnp.1);
      var fp := MakePtr(rows[0].fp, fpTimingSize, dvo.1);
      rows[0] := Row(fp.0, dvo.0, pnp.0);
      left := fp.1;
      if rows[0].fp.size != 0 { numEntries := numEntries + 1; }
      if rows[0].dvo.size != 0 { numEntries := numEntries + 1; }
      if rows[0].pnp.size != 0 { numEntries := numEntries + 1; }
    }

    /** The other panels' tables, each `size` bytes after the previous one, and the panel names if they fit. */
    method FillRows(size: nat, blockSize: nat)
      requires Valid() && size == 66 && numEntries == 3 && RowPlaced(rows[0], 0, 38, 38) && name == Table(0, 0)
      modifies this, rows
      ensures Generated(View(), 0, blockSize)
    {
      for i := 1 to 16
        invariant numEntries == 3 && name == Table(0, 0)
        invariant forall j :: 0 <= j < i ==> RowPlaced(rows[j], 66 * j, 38, 38)
      {
        NextRowPlaced(rows[i - 1], i - 1);
        rows[i] := RaiseRow(rows[i - 1], size);
      }
      if 16 * (size + 13) <= blockSize {
        name := Table(size * 16, 13);
      }
    }

    /** Adds `offset` to every pointer, in 16-bit arithmetic. */
    method RaiseAll(offset: nat)
      requires Valid()
      modifies this, rows
      ensures numEntries == old(numEntries)
      ensures forall i :: 0 <= i < 16 ==> rows[i] == RaiseRow(old(rows[i]), offset)
      ensures name == if old(name).size != 0 then Raise(old(name), offset) else old(name)
    {
      for i := 0 to 16
        invariant numEntries == old(numEntries) && name == old(name)
        invariant forall j :: i <= j < 16 ==> rows[j] == old(rows[j])
        invariant forall j :: 0 <= j < i ==> rows[j] == RaiseRow(old(rows[j]), offset)
      {
        rows[i] := RaiseRow(rows[i], offset);
      }
      if name.size != 0 {
        name := Raise(name, offset);
      }
    }

    /** Whether all rows have the same shape as the first and lie `stride` bytes apart. */
    method RowsUniform(fpSize: int, stride: int) returns (ok: bool)
      requires Valid()
      ensures ok <==> Uniform(rows[..], 16, fpSize, stride)
    {
      for i := 1 to 16
        invariant Uniform(rows[..], i, fpSize, stride)
      {
        if !SameShape(rows[i - 1], rows[i], fpSize, stride) {
          assert !SameShape(rows[..][i - 1], rows[..][i], fpSize, stride);
          return false;
        }
      }
      return true;
    }

    /** Whether every table of a row ends inside the data block. */
    method RowsFit(fpSize: int, dataBlockSize: int) returns (ok: bool)
      requires Valid()
      ensures ok <==> forall i :: 0 <= i < 16 ==> RowFits(rows[i], fpSize, dataBlockSize)
    {
      for i := 0 to 16
        invariant forall j :: 0 <= j < i ==> RowFits(rows[j], fpSize, dataBlockSize)
      {
        if rows[i].fp.offset + fpSize > dataBlockSize || rows[i].dvo.offset + 18 > dataBlockSize ||
           rows[i].pnp.offset + 10 > dataBlockSize {
          return false;
        }
      }
      return true;
    }

    /** Whether every fp_timing table ends with the terminator. */
    method TerminatorsPresent(m: seq<u8>, data: nat, fpSize: int) returns (ok: bool)
      requires Valid() && 2 <= fpSize
      requires forall i :: 0 <= i < 16 ==> data + rows[i].fp.offset + fpSize <= |m|
      ensures ok <==> forall i :: 0 <= i < 16 ==> U16At(m, data + rows[i].fp.offset + fpSize - 2) == 0xFFFF
    {
      for i := 0 to 16
        invariant forall j :: 0 <= j < i ==> U16At(m, data + rows[j].fp.offset + fpSize - 2) == 0xFFFF
      {
        if U16At(m, data + rows[i].fp.offset + fpSize - 2) != 0xFFFF {
          return false;
        }
      }
      return true;
    }

    /** The checks on sizes and offsets; returns the bytes an fp_timing table takes up, or 0 to reject. */
    method CheckLayout(dataBlockSize: int) returns (fpSize: int)
      requires Valid()
      ensures fpSize == if SoundLayout(View(), dataBlockSize) then FpSpan(View()) else 0
    {
      ghost var v := View();
      if numEntries != 3 {
        return 0;
      }
      fpSize := rows[0].fp.size;
      ghost var declared := fpSize;
      if fpSize < 32 || rows[0].dvo.size != 18 || rows[0].pnp.size != 10 {
        return 0;
      }
      if name.size != 0 && name.size != 13 {
        return 0;
      }
      var stride := rows[1].fp.offset as int - rows[0].fp.offset as int;
      LayoutIffUniform(v.rows, 0, declared, FpSpan(v));
      if 16 * stride > dataBlockSize {
        return 0;
      }
      var uniform := RowsUniform(fpSize, stride);
      if !uniform {
        return 0;
      }
      if fpSize + 6 + 18 + 10 == stride {
        fpSize := fpSize + 6;
      }
      if fpSize + 18 + 10 != stride {
        return 0;
      }
      if rows[0].fp.offset + fpSize != rows[0].dvo.offset ||
         rows[0].dvo.offset + 18 != rows[0].pnp.offset ||
         rows[0].pnp.offset + 10 != stride {
        return 0;
      }
      assert RowPlaced(v.rows[0], 0, declared, fpSize);
    }

    /** validate_lfp_data_ptrs */
    method Validate(m: seq<u8>) returns (ok: bool)
      requires Valid() && Halts(m, LFP_DATA)
      ensures ok <==> Describes(View(), m)
    {
      ghost var v := View();
      var dataBlock := FindRawSection(m, LFP_DATA);
      if dataBlock.None? {
        return false;
      }
      var data := dataBlock.value;
      var dataBlockSize := BlockSize(m, data - 3);
      if dataBlockSize == 0 {
        return false;
      }
      var fpSize := CheckLayout(dataBlockSize);
      if fpSize == 0 {
        return false;
      }
      LayoutFits(v.rows, v.rows[0].fp.size, fpSize, dataBlockSize);
      var fit := RowsFit(fpSize, dataBlockSize);
      if !fit {
        return false;
      }
      if name.offset + 16 * name.size > dataBlockSize {
        return false;
      }
      ok := TerminatorsPresent(m, data, fpSize);
      TerminatedIff(m, v.rows, data, v.rows[0].fp.size, fpSize);
    }

    /** fixup_lfp_data_ptrs: rebases the table in place, then validates it. */
    method Fixup(m: seq<u8>) returns (ok: bool)
      requires Valid() && Halts(m, LFP_DATA)
      modifies this, rows
      ensures ok <==> CanRebase(old(View()), DataOffset(m)) && Describes(Rebased(old(View()), DataOffset(m)), m)
      ensures ok ==> View() == Rebased(old(View()), DataOffset(m))
    {
      ghost var v := View();
      var block := FindRawSection(m, LFP_DATA);
      var offset := if block.None? then 0 else block.value;
      for i := 0 to 16
        invariant numEntries == v.numEntries && name == v.name
        invariant forall j :: i <= j < 16 ==> rows[j] == v.rows[j]
        invariant forall j :: 0 <= j < i ==> RowAbove(v.rows[j], offset) && rows[j] == LowerRow(v.rows[j], offset)
      {
        if rows[i].fp.offset < offset || rows[i].dvo.offset < offset || rows[i].pnp.offset < offset {
          assert !RowAbove(v.rows[i], offset);
          return false;
        }
        rows[i] := LowerRow(rows[i], offset);
      }
      if name.size != 0 {
        if name.offset < offset {
          return false;
        }
        name := Lower(name, offset);
      }
      assert View().rows == Rebased(v, offset).rows;
      ok := Validate(m);
    }
  }
}
