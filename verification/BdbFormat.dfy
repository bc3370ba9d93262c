/** Writing a BDB, and reading back what was written with the walk of module BdbScan. */
module BdbFormat {
  import opened Options
  import opened Words
  import opened BdbScan

  /**
   A block with a 16-bit size, or a MIPI sequence of version 3 on, whose 32-bit size behind the version counts
   the version and itself, and whose 16-bit size field means nothing.
   */
  datatype Block = Plain(id: u8, payload: seq<u8>) | Sequence(version: u8, unused: u16, data: seq<u8>) {
    function Id(): u8 {
      if Plain? then id else MIPI_SEQUENCE
    }

    /** The bytes behind the three header bytes. */
    function Payload(): seq<u8>
      requires Sequence? ==> 5 + |data| < 0x1_0000_0000
    {
      if Plain? then payload else [version] + Le32(5 + |data|) + data
    }
  }

  /** A block whose size field can describe it and that the walk takes for what it is. */
  predicate Storable(b: Block) {
    match b
    case Plain(id, payload) => |payload| < 0x1_0000 && (id == MIPI_SEQUENCE ==> payload != [] && payload[0] < 3)
    case Sequence(version, _, data) => version >= 3 && 5 + |data| < 0x1_0000_0000
  }

  predicate AllStorable(bs: seq<Block>) {
    bs == [] || (Storable(bs[0]) && AllStorable(bs[1..]))
  }

  function EncodeBlock(b: Block): seq<u8>
    requires Storable(b)
  {
    [b.Id()] + Le16(SizeField(b)) + b.Payload()
  }

  function SizeField(b: Block): u16
    requires Storable(b)
  {
    if b.Plain? then |b.payload| else b.unused
  }

  function EncodeBlocks(bs: seq<Block>): seq<u8>
    requires AllStorable(bs)
  {
    if bs == [] then [] else EncodeBlock(bs[0]) + EncodeBlocks(bs[1..])
  }

  /** A header whose size field may cover extra header bytes. */
  datatype Header = Header(signature: seq<u8>, version: u16, extra: seq<u8>)

  predicate Fits(h: Header, bs: seq<Block>) {
    && |h.signature| == 16
    && AllStorable(bs)
    && 22 + |h.extra| + |EncodeBlocks(bs)| < 0x1_0000
  }

  function HeaderBytes(signature: seq<u8>, version: u16, headerSize: u16, bdbSize: u16): seq<u8> {
    signature + Le16(version) + Le16(headerSize) + Le16(bdbSize)
  }

  /** The whole BDB, followed by at least five bytes of whatever lies behind it in memory. */
  function Serialize(h: Header, bs: seq<Block>, behind: seq<u8>): (m: seq<u8>)
    requires Fits(h, bs) && |behind| >= 5
  {
    HeaderBytes(h.signature, h.version, 22 + |h.extra|, 22 + |h.extra| + |EncodeBlocks(bs)|)
    + (h.extra + EncodeBlocks(bs) + behind)
  }

  lemma HeaderFields(signature: seq<u8>, version: u16, headerSize: u16, bdbSize: u16, rest: seq<u8>)
    requires |signature| == 16
    ensures var m := HeaderBytes(signature, version, headerSize, bdbSize) + rest;
            |m| == 22 + |rest| && Version(m) == version && HeaderSize(m) == headerSize && BdbSize(m) == bdbSize
  {
    var m := HeaderBytes(signature, version, headerSize, bdbSize) + rest;
    var a, b, c := Le16(version), Le16(headerSize), Le16(bdbSize);
    assert m[16] == a[0] && m[17] == a[1] && m[18] == b[0] && m[19] == b[1] && m[20] == c[0] && m[21] == c[1];
  }

  lemma SerializedHeader(h: Header, bs: seq<Block>, behind: seq<u8>)
    requires Fits(h, bs) && |behind| >= 5
    ensures var m := Serialize(h, bs, behind);
            && Mapped(m) && Version(m) == h.version && HeaderSize(m) == 22 + |h.extra|
            && BdbSize(m) as int == 22 + |h.extra| + |EncodeBlocks(bs)|
            && m[HeaderSize(m)..BdbSize(m)] == EncodeBlocks(bs)
  {
    WrittenBytes(h.signature, h.version, h.extra, EncodeBlocks(bs), behind);
  }

  lemma WrittenBytes(signature: seq<u8>, version: u16, extra: seq<u8>, blocks: seq<u8>, behind: seq<u8>)
    requires |signature| == 16 && 22 + |extra| + |blocks| < 0x1_0000
    ensures var from, to := 22 + |extra|, 22 + |extra| + |blocks|;
            var m := HeaderBytes(signature, version, from, to) + (extra + blocks + behind);
            && |m| == to + |behind| && Version(m) == version && HeaderSize(m) == from && BdbSize(m) == to
            && m[from..to] == blocks
  {
    var from, to := 22 + |extra|, 22 + |extra| + |blocks|;
    HeaderFields(signature, version, from, to, extra + blocks + behind);
    SliceBehind(HeaderBytes(signature, version, from, to), extra + blocks + behind, |extra|, |extra| + |blocks|);
    MiddleSlice(extra, blocks, behind);
  }

  lemma MiddleSlice(a: seq<u8>, b: seq<u8>, c: seq<u8>)
    ensures (a + b + c)[|a|..|a| + |b|] == b
  {
  }

  /** The block at `index`, read back out of memory; of a sequence too short for its own size field nothing is left. */
  ghost function DecodeAt(m: seq<u8>, index: nat): Block
    requires Mapped(m) && BlockAt(m, index)
  {
    var end := EndOf(m, index);
    if m[index] == MIPI_SEQUENCE && m[index + 3] >= 3
    then Sequence(m[index + 3], U16At(m, index + 1), if index + 8 <= end then m[index + 8..end] else [])
    else Plain(m[index], m[index + 3..end])
  }

  /** The blocks that lie back to back from `index` on, read back out of memory. */
  ghost function DecodeFrom(m: seq<u8>, index: nat): seq<Block>
    requires Mapped(m)
    decreases BdbSize(m) as int - index
  {
    if BlockAt(m, index) then [DecodeAt(m, index)] + DecodeFrom(m, EndOf(m, index)) else []
  }

  predicate IsEmpty(b: Block) {
    b.Plain? && b.payload == []
  }

  /** The walk stops three bytes before the end, so a final block without payload goes unseen. */
  function Visible(bs: seq<Block>): seq<Block> {
    if bs != [] && IsEmpty(bs[|bs| - 1]) then bs[..|bs| - 1] else bs
  }

  lemma VisibleTail(bs: seq<Block>)
    requires bs != [] && (|bs| > 1 || !IsEmpty(bs[0]))
    ensures Visible(bs) == [bs[0]] + Visible(bs[1..])
  {
    assert bs == [bs[0]] + bs[1..];
  }

  lemma DecodeHead(m: seq<u8>, index: nat, bs: seq<Block>)
    requires Mapped(m) && BlockAt(m, index) && bs != [] && (|bs| > 1 || !IsEmpty(bs[0]))
    requires DecodeAt(m, index) == bs[0]
    requires DecodeFrom(m, EndOf(m, index)) == Visible(bs[1..])
    ensures DecodeFrom(m, index) == Visible(bs)
  {
    VisibleTail(bs);
  }

  /** What the walk sees of encoded blocks that fill the BDB from `index` to its end. */
  lemma {:induction false} DecodeEncoded(m: seq<u8>, index: nat, bs: seq<Block>)
    requires Mapped(m) && index <= BdbSize(m) && AllStorable(bs)
    requires m[index..BdbSize(m)] == EncodeBlocks(bs)
    ensures DecodeFrom(m, index) == Visible(bs)
    decreases |bs|
  {
    if index + 3 < BdbSize(m) {
      assert EncodeBlocks(bs) != [];
      HeadEncoded(m, index, bs);
      DecodeEncoded(m, EndOf(m, index), bs[1..]);
      DecodeHead(m, index, bs);
    } else {
      NothingVisible(m, index, bs);
    }
  }

  /** Where fewer than four bytes are left, at most an empty block was written, which is not seen. */
  lemma NothingVisible(m: seq<u8>, index: nat, bs: seq<Block>)
    requires Mapped(m) && index <= BdbSize(m) <= index + 3 && AllStorable(bs)
    requires m[index..BdbSize(m)] == EncodeBlocks(bs)
    ensures DecodeFrom(m, index) == [] == Visible(bs)
  {
    if bs != [] { HeadEncoded(m, index, bs); }
  }

  /** The walk over encoded blocks runs to the end of the BDB. */
  lemma {:induction false} EncodedStop(m: seq<u8>, index: nat, bs: seq<Block>)
    requires Mapped(m) && index <= BdbSize(m) && AllStorable(bs)
    requires m[index..BdbSize(m)] == EncodeBlocks(bs)
    ensures StopFrom(m, index) + 3 >= BdbSize(m)
    decreases |bs|
  {
    if index + 3 < BdbSize(m) {
      assert EncodeBlocks(bs) != [];
      HeadEncoded(m, index, bs);
      EncodedStop(m, EndOf(m, index), bs[1..]);
      assert StopFrom(m, index) == StopFrom(m, EndOf(m, index));
    } else {
      assert StopFrom(m, index) == index;
    }
  }

  lemma SplitSlice(m: seq<u8>, from: int, to: int, x: seq<u8>, y: seq<u8>)
    requires 0 <= from <= to <= |m| && m[from..to] == x + y
    ensures from + |x| <= to && m[from..from + |x|] == x && m[from + |x|..to] == y
  {
    assert m[from..to][..|x|] == x && m[from..to][|x|..] == y;
  }

  /** One encoded block, where it lies in memory. */
  lemma BlockEncoded(m: seq<u8>, index: nat, b: Block)
    requires Storable(b) && index + 3 + |b.Payload()| <= |m|
    requires m[index..index + 3 + |b.Payload()|] == EncodeBlock(b)
    ensures m[index] == b.Id() && m[index + 3..index + 3 + |b.Payload()|] == b.Payload()
    ensures U16At(m, index + 1) == SizeField(b)
  {
    HeaderEncoded(m, index, b.Id(), SizeField(b), b.Payload());
  }

  lemma HeaderEncoded(m: seq<u8>, index: nat, id: u8, sizeField: u16, payload: seq<u8>)
    requires index + 3 + |payload| <= |m| && m[index..index + 3 + |payload|] == [id] + Le16(sizeField) + payload
    ensures m[index] == id && U16At(m, index + 1) == sizeField && m[index + 3..index + 3 + |payload|] == payload
  {
    var size := Le16(sizeField);
    SplitSlice(m, index, index + 3 + |payload|, [id] + size, payload);
    SplitSlice(m, index, index + 3, [id], size);
    assert m[index] == m[index..index + 1][0];
    assert m[index + 1] == m[index + 1..index + 3][0] && m[index + 2] == m[index + 1..index + 3][1];
  }

  lemma BlockSizeEncoded(m: seq<u8>, index: nat, b: Block)
    requires Storable(b) && index + 3 + |b.Payload()| <= |m|
    requires m[index..index + 3 + |b.Payload()|] == EncodeBlock(b)
    ensures HeaderReadable(m, index) && BlockSize(m, index) == |b.Payload()|
    ensures b.Sequence? ==> m[index + 3] == b.version && m[index + 8..index + 8 + |b.data|] == b.data
    ensures b.Plain? && b.id == MIPI_SEQUENCE ==> m[index + 3] < 3
  {
    BlockEncoded(m, index, b);
    var at, end := index + 3, index + 3 + |b.Payload()|;
    match b {
      case Plain(id, payload) =>
        if id == MIPI_SEQUENCE { assert m[at] == m[at..end][0]; }
      case Sequence(version, _, data) =>
        var size := Le32(5 + |data|);
        SplitSlice(m, at, end, [version] + size, data);
        SplitSlice(m, at, at + 5, [version], size);
        assert m[at] == m[at..at + 1][0];
        WordAt(m, at + 1, 5 + |data|);
    }
  }

  lemma WordAt(m: seq<u8>, i: nat, x: u32)
    requires i + 4 <= |m| && m[i..i + 4] == Le32(x)
    ensures U32At(m, i) == x
  {
    var b := m[i..i + 4];
    assert m[i] == b[0] && m[i + 1] == b[1] && m[i + 2] == b[2] && m[i + 3] == b[3];
  }

  /** The block lies at `index`, as its header, and its size fields and contents say. */
  ghost predicate LiesAt(m: seq<u8>, index: nat, b: Block) {
    && HeaderReadable(m, index) && m[index] == b.Id()
    && match b
       case Plain(id, payload) =>
         && (id == MIPI_SEQUENCE ==> m[index + 3] < 3)
         && index + 3 + |payload| <= |m| && m[index + 3..index + 3 + |payload|] == payload
       case Sequence(version, unused, data) =>
         && version >= 3 && m[index + 3] == version && U16At(m, index + 1) == unused
         && index + 8 + |data| <= |m| && m[index + 8..index + 8 + |data|] == data
  }

  lemma EncodedLiesAt(m: seq<u8>, index: nat, b: Block)
    requires Storable(b) && index + 3 + |b.Payload()| <= |m|
    requires m[index..index + 3 + |b.Payload()|] == EncodeBlock(b)
    ensures LiesAt(m, index, b) && BlockSize(m, index) == |b.Payload()|
  {
    BlockEncoded(m, index, b);
    BlockSizeEncoded(m, index, b);
  }

  lemma DecodeLying(m: seq<u8>, index: nat, b: Block)
    requires Mapped(m) && BlockAt(m, index) && LiesAt(m, index, b)
    requires EndOf(m, index) == if b.Plain? then index + 3 + |b.payload| else index + 8 + |b.data|
    ensures DecodeAt(m, index) == b
  {
  }

  lemma HeadAt(m: seq<u8>, index: nat, b: Block)
    requires Mapped(m) && Storable(b) && index + 3 + |b.Payload()| <= BdbSize(m)
    requires m[index..index + 3 + |b.Payload()|] == EncodeBlock(b)
    ensures index + 3 < BdbSize(m) ==>
              BlockAt(m, index) && EndOf(m, index) == index + 3 + |b.Payload()| && DecodeAt(m, index) == b
  {
    EncodedLiesAt(m, index, b);
    if index + 3 < BdbSize(m) { DecodeLying(m, index, b); }
  }

  lemma NothingEncoded(bs: seq<Block>)
    requires AllStorable(bs)
    ensures EncodeBlocks(bs) == [] <==> bs == []
  {
  }

  lemma EncodedHead(bs: seq<Block>)
    requires AllStorable(bs) && bs != []
    ensures EncodeBlocks(bs) == EncodeBlock(bs[0]) + EncodeBlocks(bs[1..])
    ensures |EncodeBlock(bs[0])| == 3 + |bs[0].Payload()|
  {
  }

  lemma HeadSplit(m: seq<u8>, index: nat, to: nat, bs: seq<Block>)
    requires index <= to <= |m| && AllStorable(bs) && bs != []
    requires m[index..to] == EncodeBlocks(bs)
    ensures var end := index + 3 + |bs[0].Payload()|;
            end <= to && m[index..end] == EncodeBlock(bs[0]) && m[end..to] == EncodeBlocks(bs[1..])
  {
    EncodedHead(bs);
    SplitSlice(m, index, to, EncodeBlock(bs[0]), EncodeBlocks(bs[1..]));
  }

  lemma HeadEncoded(m: seq<u8>, index: nat, bs: seq<Block>)
    requires Mapped(m) && index <= BdbSize(m) && AllStorable(bs) && bs != []
    requires m[index..BdbSize(m)] == EncodeBlocks(bs)
    ensures var end := index + 3 + |bs[0].Payload()|;
            && end <= BdbSize(m)
            && (index + 3 < BdbSize(m) ==> BlockAt(m, index) && EndOf(m, index) == end && DecodeAt(m, index) == bs[0])
            && m[end..BdbSize(m)] == EncodeBlocks(bs[1..])
            && (index + 3 == BdbSize(m) <==> |bs| == 1 && IsEmpty(bs[0]))
  {
    HeadSplit(m, index, BdbSize(m), bs);
    NothingEncoded(bs[1..]);
    HeadAt(m, index, bs[0]);
  }

  /** Reading back a written BDB gives the blocks that were written, exactly when the last one is not empty. */
  lemma RoundTrip(h: Header, bs: seq<Block>, behind: seq<u8>)
    requires Fits(h, bs) && |behind| >= 5
    ensures var m := Serialize(h, bs, behind);
            && Mapped(m) && !FalseEnd(m, BlocksEnd(m))
            && DecodeFrom(m, HeaderSize(m)) == Visible(bs)
            && (DecodeFrom(m, HeaderSize(m)) == bs <==> bs == [] || !IsEmpty(bs[|bs| - 1]))
  {
    SerializedHeader(h, bs, behind);
    DecodeEncoded(Serialize(h, bs, behind), 22 + |h.extra|, bs);
    EncodedStop(Serialize(h, bs, behind), 22 + |h.extra|, bs);
  }

  /** The first written block with an id. */
  ghost function FirstBlock(bs: seq<Block>, id: u8): Option<Block> {
    if bs == [] then None else if bs[0].Id() == id then Some(bs[0]) else FirstBlock(bs[1..], id)
  }

  /** What was found in memory is what was looked for: nothing, or a block that reads back as this one. */
  ghost predicate ReadsAs(m: seq<u8>, found: Option<RawBlock>, b: Option<Block>)
    requires Mapped(m)
  {
    match found
    case None => b.None?
    case Some(raw) => raw.payload >= 3 && BlockAt(m, raw.payload - 3) && b == Some(DecodeAt(m, raw.payload - 3))
  }

  lemma FirstDecodedHere(m: seq<u8>, index: nat, id: u8)
    requires Mapped(m) && BlockAt(m, index)
    ensures FirstBlock(DecodeFrom(m, index), id) ==
            if m[index] == id then Some(DecodeAt(m, index)) else FirstBlock(DecodeFrom(m, EndOf(m, index)), id)
  {
    var rest := DecodeFrom(m, EndOf(m, index));
    assert DecodeFrom(m, index) == [DecodeAt(m, index)] + rest;
    assert DecodeFrom(m, index)[1..] == rest;
  }

  lemma {:induction false} FirstDecoded(m: seq<u8>, index: nat, id: u8)
    requires Mapped(m)
    ensures ReadsAs(m, FirstWithId(BlocksFrom(m, index), id), FirstBlock(DecodeFrom(m, index), id))
    decreases BdbSize(m) as int - index
  {
    FirstFrom(m, index, id);
    if !BlockAt(m, index) {
    } else {
      FirstDecodedHere(m, index, id);
      if m[index] != id { FirstDecoded(m, EndOf(m, index), id); }
    }
  }

  /** Searching a written BDB finds the first block written with that id, or nothing; an empty last block does not count. */
  lemma FindInSerialized(h: Header, bs: seq<Block>, behind: seq<u8>, id: u8)
    requires Fits(h, bs) && |behind| >= 5
    ensures var m := Serialize(h, bs, behind);
            && Searchable(m, id) && ReadsAs(m, RawSection(m, id), FirstBlock(Visible(bs), id))
            && (RawSection(m, id).Some? ==> Placed(m, RawSection(m, id).value))
  {
    var m := Serialize(h, bs, behind);
    RoundTrip(h, bs, behind);
    FirstDecoded(m, HeaderSize(m), id);
    if RawSection(m, id).Some? { RawSectionPlaced(m, id); }
  }
}
