/**
 The child device records of the general definitions block (NootedBlue/kern_nblue.cpp): block 2 holds
 a five-byte header, whose last byte is the size of a record, and then as many records as fit.
 */
module ChildDevices {
  import opened Options
  import opened Words
  import opened BdbScan
  import opened BdbIndex
  import opened IntrusiveList

  /** A record that was kept: its number and the 44 bytes copied from where it starts, whatever its declared size. */
  datatype ChildDevice = ChildDevice(index: nat, bytes: seq<u8>)

  /** An index entry that holds at least as many bytes as its header declares. */
  predicate Complete(data: seq<u8>) {
    |data| >= 3 && 3 + U16At(data, 1) as int <= |data|
  }

  /** The number of records considered; none if the header or a record would be too short. */
  function DeviceCount(data: seq<u8>): nat
    requires Complete(data)
  {
    if U16At(data, 1) < 5 || data[7] < 33 then 0 else Quotient(U16At(data, 1) - 5, data[7])
  }

  /** Records follow one another behind the header. */
  function RecordStart(data: seq<u8>, i: nat): nat
    requires |data| >= 8
  {
    if i == 0 then 8 else RecordStart(data, i - 1) + data[7]
  }

  /** child_device_ptr */
  lemma {:induction false} RecordStartIs(data: seq<u8>, i: nat)
    requires |data| >= 8
    ensures RecordStart(data, i) == 8 + i * data[7]
  {
    if i == 0 {
    } else {
      RecordStartIs(data, i - 1);
    }
  }

  /** A record is considered exactly when there is a header, records are long enough, and all its declared bytes lie inside the block. */
  lemma ConsideredIffInside(data: seq<u8>, i: nat)
    requires Complete(data)
    ensures i < DeviceCount(data) <==>
            U16At(data, 1) >= 5 && data[7] >= 33 && 8 + i * data[7] + data[7] <= 3 + U16At(data, 1)
  {
    if U16At(data, 1) >= 5 && data[7] >= 33 { QuotientAbove(U16At(data, 1) - 5, data[7], i); }
  }

  /** Another d fits into `room` behind i of them exactly if i is below the quotient. */
  lemma QuotientAbove(room: nat, d: nat, i: nat)
    requires d > 0
    ensures i < Quotient(room, d) <==> i * d + d <= room
  {
    var n := room / d;
    assert room == d * n + room % d;
    if i < n {
      MultiplesOrdered(d, i + 1, n);
    } else {
      MultiplesOrdered(d, n, i);
    }
    assert d * (i + 1) == i * d + d;
  }

  lemma MultiplesOrdered(d: int, a: int, b: int)
    requires 0 <= d && a <= b
    ensures d * a <= d * b
  {
  }

  /** The declared extents of two records do not overlap. */
  lemma {:induction false} RecordsDisjoint(data: seq<u8>, i: nat, j: nat)
    requires |data| >= 8 && i < j
    ensures RecordStart(data, i) + data[7] <= RecordStart(data, j)
  {
    if j == i + 1 {
    } else {
      RecordsDisjoint(data, i, j - 1);
    }
  }

  ghost predicate InBlock(data: seq<u8>, i: nat) {
    |data| >= 8 && data[7] >= 33 && RecordStart(data, i) + data[7] <= |data|
  }

  /** The first n records are: the last of them is. */
  ghost predicate FirstInBlock(data: seq<u8>, n: nat) {
    n == 0 || InBlock(data, n - 1)
  }

  lemma EarlierInBlock(data: seq<u8>, i: nat, n: nat)
    requires FirstInBlock(data, n) && i < n
    ensures InBlock(data, i)
  {
    if i == n - 1 {
    } else {
      RecordsDisjoint(data, i, n - 1);
    }
  }

  function DeviceType(data: seq<u8>, i: nat): u16
    requires InBlock(data, i)
  {
    U16At(data, RecordStart(data, i) + 2)
  }

  /** The copied record; a short last one takes in up to 11 bytes of what lies behind the entry in memory. */
  function Record(data: seq<u8>, behind: seq<u8>, i: nat): ChildDevice
    requires InBlock(data, i) && |behind| >= 11
  {
    ChildDevice(i, (data + behind)[RecordStart(data, i)..RecordStart(data, i) + 44])
  }

  /** It holds the record's own bytes, as far as it has room for them. */
  lemma RecordHoldsOwnBytes(data: seq<u8>, behind: seq<u8>, i: nat, k: nat)
    requires InBlock(data, i) && |behind| >= 11 && k < 44
    ensures k < data[7] ==> Record(data, behind, i).bytes[k] == data[RecordStart(data, i) + k]
    ensures RecordStart(data, i) + k < |data| ==> Record(data, behind, i).bytes[k] == data[RecordStart(data, i) + k]
  {
  }

  /** If records are shorter than 44 bytes, its last bytes are the first ones of the next record. */
  lemma ShortRecordTakesNext(data: seq<u8>, behind: seq<u8>, i: nat)
    requires InBlock(data, i) && InBlock(data, i + 1) && |behind| >= 11 && data[7] < 44
    ensures Record(data, behind, i).bytes[data[7]..] == Record(data, behind, i + 1).bytes[..44 - data[7]]
  {
    var start, d := RecordStart(data, i), data[7];
    assert RecordStart(data, i + 1) == start + d;
    SliceOfSlice(data + behind, start, start + 44, d, 44);
    SliceOfSlice(data + behind, start + d, start + d + 44, 0, 44 - d);
  }

  ghost function OneDevice(data: seq<u8>, behind: seq<u8>, i: nat): seq<ChildDevice>
    requires InBlock(data, i) && |behind| >= 11
  {
    if DeviceType(data, i) != 0 then [Record(data, behind, i)] else []
  }

  /** The records among the first n that have a device type. */
  ghost function Devices(data: seq<u8>, behind: seq<u8>, n: nat): seq<ChildDevice>
    requires |behind| >= 11 && FirstInBlock(data, n)
  {
    if n == 0 then []
    else Devices(data, behind, n - 1) + OneDevice(data, behind, n - 1)
  }

  /** One of the first n records, with a device type. */
  ghost predicate Kept(data: seq<u8>, behind: seq<u8>, n: nat, d: ChildDevice)
    requires |behind| >= 11 && FirstInBlock(data, n)
  {
    d.index < n && (EarlierInBlock(data, d.index, n); DeviceType(data, d.index) != 0 && d == Record(data, behind, d.index))
  }

  ghost predicate Ordered(devices: seq<ChildDevice>) {
    forall i, j :: 0 <= i < j < |devices| ==> devices[i].index < devices[j].index
  }

  lemma {:induction false} DeviceKeptIff(data: seq<u8>, behind: seq<u8>, n: nat, d: ChildDevice)
    requires |behind| >= 11 && FirstInBlock(data, n)
    ensures d in Devices(data, behind, n) <==> Kept(data, behind, n, d)
  {
    if n == 0 {
    } else {
      DeviceKeptIff(data, behind, n - 1, d);
      assert Devices(data, behind, n) == Devices(data, behind, n - 1) + OneDevice(data, behind, n - 1);
      assert d in OneDevice(data, behind, n - 1) <==> d.index == n - 1 && Kept(data, behind, n, d);
    }
  }

  lemma {:induction false} DevicesOrdered(data: seq<u8>, behind: seq<u8>, n: nat)
    requires |behind| >= 11 && FirstInBlock(data, n)
    ensures Ordered(Devices(data, behind, n))
  {
    if n == 0 {
    } else {
      DevicesOrdered(data, behind, n - 1);
      var before := Devices(data, behind, n - 1);
      forall i | 0 <= i < |before| ensures before[i].index < n - 1 { DeviceKeptIff(data, behind, n - 1, before[i]); }
    }
  }

  /** They are exactly those records, each once, in index order. */
  lemma DevicesExact(data: seq<u8>, behind: seq<u8>, n: nat)
    requires |behind| >= 11 && FirstInBlock(data, n)
    ensures forall d :: d in Devices(data, behind, n) <==> Kept(data, behind, n, d)
    ensures Ordered(Devices(data, behind, n))
  {
    forall d ensures d in Devices(data, behind, n) <==> Kept(data, behind, n, d) { DeviceKeptIff(data, behind, n, d); }
    DevicesOrdered(data, behind, n);
  }

  lemma AllInBlock(data: seq<u8>)
    requires Complete(data)
    ensures FirstInBlock(data, DeviceCount(data))
  {
    if DeviceCount(data) > 0 {
      ConsideredIffInside(data, DeviceCount(data) - 1);
      RecordStartIs(data, DeviceCount(data) - 1);
    }
  }

  /** What parsing an entry for block 2 adds to the device list. */
  ghost function Parsed(entry: Option<BlockEntry>, behind: seq<u8>): seq<ChildDevice>
    requires |behind| >= 11
  {
    if entry.None? || !Complete(entry.value.data) then []
    else
      AllInBlock(entry.value.data);
      Devices(entry.value.data, behind, DeviceCount(entry.value.data))
  }

  /** All copies lie inside the entry: the considered records with a device type start at least 44 bytes before its end. */
  ghost predicate CopiesInside(data: seq<u8>)
    requires Complete(data)
  {
    CopiedInside(data, DeviceCount(data))
  }

  ghost predicate CopiedInside(data: seq<u8>, n: nat) {
    forall i :: 0 <= i < n && InBlock(data, i) && DeviceType(data, i) != 0 ==> RecordStart(data, i) + 44 <= |data|
  }

  lemma {:induction false} SameDevices(data: seq<u8>, behind: seq<u8>, other: seq<u8>, n: nat)
    requires |behind| >= 11 && |other| >= 11 && FirstInBlock(data, n)
    requires CopiedInside(data, n)
    ensures Devices(data, behind, n) == Devices(data, other, n)
  {
    if n == 0 {
    } else {
      SameDevices(data, behind, other, n - 1);
      if DeviceType(data, n - 1) != 0 { SameRecord(data, behind, other, n - 1); }
    }
  }

  lemma SameRecord(data: seq<u8>, behind: seq<u8>, other: seq<u8>, i: nat)
    requires InBlock(data, i) && |behind| >= 11 && |other| >= 11 && RecordStart(data, i) + 44 <= |data|
    ensures Record(data, behind, i) == Record(data, other, i)
  {
    var start := RecordStart(data, i);
    assert (data + behind)[start..start + 44] == data[start..start + 44] == (data + other)[start..start + 44];
  }

  /** What the driver reads depends only on the block's own entry if and only if all copies lie inside it. */
  lemma ParsedFromEntryIff(entry: BlockEntry)
    requires Complete(entry.data)
    ensures (forall behind, other :: |behind| >= 11 && |other| >= 11 ==>
               Parsed(Some(entry), behind) == Parsed(Some(entry), other)) <==>
            CopiesInside(entry.data)
  {
    var data := entry.data;
    var n := DeviceCount(data);
    AllInBlock(data);
    if CopiesInside(data) {
      forall behind, other | |behind| >= 11 && |other| >= 11
        ensures Parsed(Some(entry), behind) == Parsed(Some(entry), other)
      {
        SameDevices(data, behind, other, n);
      }
    } else {
      var i :| 0 <= i < n && InBlock(data, i) && DeviceType(data, i) != 0 && RecordStart(data, i) + 44 > |data|;
      var zeros, ones: seq<u8> := seq(11, _ => 0), seq(11, _ => 1);
      DeviceKeptIff(data, zeros, n, Record(data, zeros, i));
      DeviceKeptIff(data, ones, n, Record(data, zeros, i));
      RecordReadsBehind(data, zeros, ones, i);
      assert Parsed(Some(entry), zeros) != Parsed(Some(entry), ones);
    }
  }

  lemma RecordReadsBehind(data: seq<u8>, behind: seq<u8>, other: seq<u8>, i: nat)
    requires InBlock(data, i) && |behind| >= 11 && |other| >= 11 && behind[0] != other[0]
    requires RecordStart(data, i) + 44 > |data|
    ensures Record(data, behind, i) != Record(data, other, i)
  {
    var k := |data| - RecordStart(data, i);
    assert Record(data, behind, i).bytes[k] == behind[0] && Record(data, other, i).bytes[k] == other[0];
  }

  /** get_gmbus_pin: the pins that gmbus_pins_icp names. */
  predicate ValidPin(pin: u8) {
    1 <= pin <= 3 || 9 <= pin <= 14
  }

  /** The DDC pin after parsing: the block's, if it has one that is valid; the size of records does not matter. */
  ghost function ParsedPin(entry: Option<BlockEntry>, before: u8): u8 {
    if entry.Some? && Complete(entry.value.data) && U16At(entry.value.data, 1) >= 5 && ValidPin(entry.value.data[3])
    then entry.value.data[3] else before
  }

  // ---------------------------------------------------------------------------------------------
  // Writing block 2
  // ---------------------------------------------------------------------------------------------

  function Flat(records: seq<seq<u8>>): seq<u8> {
    if records == [] then [] else records[0] + Flat(records[1..])
  }

  /** An entry for block 2: its header, the DDC pin, three bytes of options, the record size, the records, and what fills it up. */
  function WriteDefinitions(pin: u8, options: seq<u8>, size: u8, records: seq<seq<u8>>, rest: seq<u8>): seq<u8>
    requires |options| == 3 && 5 + |Flat(records)| < 0x1_0000
  {
    [GENERAL_DEFINITIONS] + Le16(5 + |Flat(records)|) + [pin] + options + [size] + Flat(records) + rest
  }

  /** All records have the declared size. */
  ghost predicate Sized(records: seq<seq<u8>>, size: nat) {
    forall i :: 0 <= i < |records| ==> |records[i]| == size
  }

  lemma {:induction false} FlatAt(records: seq<seq<u8>>, size: nat, i: nat)
    requires Sized(records, size) && i < |records|
    ensures 0 <= i * size && i * size + size <= |Flat(records)| && Flat(records)[i * size..i * size + size] == records[i]
    decreases |records|
  {
    assert |records[0]| == size;
    if i == 0 {
    } else {
      FlatAt(records[1..], size, i - 1);
      assert i * size == (i - 1) * size + size;
      SliceBehind(records[0], Flat(records[1..]), (i - 1) * size, (i - 1) * size + size);
    }
  }

  lemma {:induction false} FlatSize(records: seq<seq<u8>>, size: nat)
    requires Sized(records, size)
    ensures |Flat(records)| == |records| * size
  {
    if records == [] {
    } else {
      assert |records[0]| == size;
      FlatSize(records[1..], size);
      assert |records| * size == (|records| - 1) * size + size;
    }
  }

  lemma WrittenHeader(pin: u8, options: seq<u8>, size: u8, records: seq<seq<u8>>, rest: seq<u8>)
    requires |options| == 3 && 5 + |Flat(records)| < 0x1_0000
    ensures var data := WriteDefinitions(pin, options, size, records, rest);
            && Complete(data) && U16At(data, 1) == 5 + |Flat(records)| && data[3] == pin && data[7] == size
            && data[8..8 + |Flat(records)|] == Flat(records)
  {
    var data := WriteDefinitions(pin, options, size, records, rest);
    assert data[1..3] == Le16(5 + |Flat(records)|);
    assert data[1] == data[1..3][0] && data[2] == data[1..3][1];
  }

  lemma WrittenCount(pin: u8, options: seq<u8>, size: u8, records: seq<seq<u8>>, rest: seq<u8>)
    requires |options| == 3 && 5 + |Flat(records)| < 0x1_0000 && size >= 33 && Sized(records, size)
    ensures var data := WriteDefinitions(pin, options, size, records, rest);
            Complete(data) && DeviceCount(data) == |records|
  {
    WrittenHeader(pin, options, size, records, rest);
    FlatSize(records, size);
    CountIs(WriteDefinitions(pin, options, size, records, rest), |records|);
  }

  lemma CountIs(data: seq<u8>, n: nat)
    requires Complete(data) && |data| >= 8 && data[7] >= 33 && U16At(data, 1) as int == 5 + n * data[7]
    ensures DeviceCount(data) == n
  {
    QuotientUnique(n * data[7], data[7], n);
  }

  lemma WrittenRecord(pin: u8, options: seq<u8>, size: u8, records: seq<seq<u8>>, rest: seq<u8>, i: nat)
    requires |options| == 3 && 5 + |Flat(records)| < 0x1_0000 && size >= 33 && Sized(records, size) && i < |records|
    ensures var data := WriteDefinitions(pin, options, size, records, rest);
            && |data| >= 8 && RecordStart(data, i) + size <= |data|
            && data[RecordStart(data, i)..RecordStart(data, i) + size] == records[i]
  {
    var data := WriteDefinitions(pin, options, size, records, rest);
    WrittenHeader(pin, options, size, records, rest);
    FlatAt(records, size, i);
    RecordStartIs(data, i);
    var offset := i * size;
    assert RecordStart(data, i) == 8 + offset && Flat(records)[offset..offset + size] == records[i];
    SliceOfSlice(data, 8, 8 + |Flat(records)|, offset, offset + size);
  }

  /** The device is the written record with its number: as much of it as 44 bytes hold. */
  ghost predicate IsWritten(records: seq<seq<u8>>, d: ChildDevice) {
    && d.index < |records| && |d.bytes| == 44
    && forall k :: 0 <= k < 44 && k < |records[d.index]| ==> d.bytes[k] == records[d.index][k]
  }

  /** Bytes 2 and 3 of a record are its device type. */
  ghost predicate HasType(record: seq<u8>) {
    |record| >= 4 && (record[2] != 0 || record[3] != 0)
  }

  /**
   Parsing a written block 2 takes over its pin, if valid, and gives the written records that have a device
   type, each under its number, with as much of it as 44 bytes hold.
   */
  lemma DefinitionsRoundTrip(pin: u8, options: seq<u8>, size: u8, records: seq<seq<u8>>, rest: seq<u8>, behind: seq<u8>)
    requires |options| == 3 && 5 + |Flat(records)| < 0x1_0000 && size >= 33 && Sized(records, size) && |behind| >= 11
    ensures var entry := Some(BlockEntry(GENERAL_DEFINITIONS, WriteDefinitions(pin, options, size, records, rest)));
            && (forall d :: d in Parsed(entry, behind) ==> IsWritten(records, d) && HasType(records[d.index]))
            && (forall i :: 0 <= i < |records| && HasType(records[i]) ==> HasDevice(Parsed(entry, behind), i))
            && Ordered(Parsed(entry, behind))
            && forall before :: ParsedPin(entry, before) == if pin in {1, 2, 3, 9, 10, 11, 12, 13, 14} then pin else before
  {
    var data := WriteDefinitions(pin, options, size, records, rest);
    WrittenHeader(pin, options, size, records, rest);
    WrittenCount(pin, options, size, records, rest);
    AllInBlock(data);
    DevicesExact(data, behind, |records|);
    var devices := Devices(data, behind, |records|);
    forall d | d in devices ensures IsWritten(records, d) && HasType(records[d.index]) {
      assert Kept(data, behind, |records|, d);
      WrittenDevice(pin, options, size, records, rest, behind, d.index);
    }
    forall i | 0 <= i < |records| && HasType(records[i]) ensures HasDevice(devices, i) {
      WrittenDevice(pin, options, size, records, rest, behind, i);
      EarlierInBlock(data, i, |records|);
      assert Kept(data, behind, |records|, Record(data, behind, i));
    }
  }

  ghost predicate HasDevice(devices: seq<ChildDevice>, i: nat) {
    exists d :: d in devices && d.index == i
  }

  lemma WrittenDevice(pin: u8, options: seq<u8>, size: u8, records: seq<seq<u8>>, rest: seq<u8>, behind: seq<u8>, i: nat)
    requires |options| == 3 && 5 + |Flat(records)| < 0x1_0000 && size >= 33 && Sized(records, size)
    requires |behind| >= 11 && i < |records|
    ensures var data := WriteDefinitions(pin, options, size, records, rest);
            && InBlock(data, i) && IsWritten(records, Record(data, behind, i))
            && (DeviceType(data, i) != 0 <==> HasType(records[i]))
  {
    var data := WriteDefinitions(pin, options, size, records, rest);
    WrittenHeader(pin, options, size, records, rest);
    WrittenRecord(pin, options, size, records, rest, i);
    var start, record := RecordStart(data, i), records[i];
    assert |record| == size;
    CopiedRecord(data, behind, i, record);
  }

  lemma CopiedRecord(data: seq<u8>, behind: seq<u8>, i: nat, record: seq<u8>)
    requires InBlock(data, i) && |behind| >= 11 && |record| == data[7]
    requires data[RecordStart(data, i)..RecordStart(data, i) + data[7]] == record
    ensures forall k :: 0 <= k < 44 && k < |record| ==> Record(data, behind, i).bytes[k] == record[k]
    ensures DeviceType(data, i) != 0 <==> HasType(record)
  {
    var start := RecordStart(data, i);
    forall k | 0 <= k < |record| ensures data[start + k] == record[k] { assert data[start..start + data[7]][k] == data[start + k]; }
    assert data[start + 2] == record[2] && data[start + 3] == record[3];
  }

  // ---------------------------------------------------------------------------------------------
  // Parsing block 2
  // ---------------------------------------------------------------------------------------------

  /** parse_general_definitions; `behind` is what lies behind the entry for block 2 in memory. */
  method ParseGeneralDefinitions(display: Display, devices: List<ChildDevice>, behind: seq<u8>)
    requires display.Valid() && devices.Valid() && |behind| >= 11
    requires var entry := Lookup(display.bdbBlocks.Contents(), GENERAL_DEFINITIONS);
             entry.Some? ==> Complete(entry.value.data)
    modifies devices.Repr(), display`crtDdcPin
    ensures devices.Valid()
    ensures devices.Contents() ==
            old(devices.Contents()) + Parsed(old(Lookup(display.bdbBlocks.Contents(), GENERAL_DEFINITIONS)), behind)
    ensures display.crtDdcPin ==
            ParsedPin(old(Lookup(display.bdbBlocks.Contents(), GENERAL_DEFINITIONS)), old(display.crtDdcPin))
  {
    var entry := display.BdbFindSection(GENERAL_DEFINITIONS);
    if entry.None? {
      return;
    }
    var data := entry.value.data;
    var blockSize := U16At(data, 1);
    AllInBlock(data);
    if blockSize < 5 {
      return;
    }
    var busPin := data[3];
    if ValidPin(busPin) {
      display.crtDdcPin := busPin;
    }
    if data[7] < 33 {
      return;
    }
    var childDeviceNum := Quotient(blockSize - 5, data[7]);
    AppendDevices(data, behind, childDeviceNum, devices);
  }

  /** A list that held `before` has had the devices among the first i records appended. */
  ghost predicate Appended(before: seq<ChildDevice>, data: seq<u8>, behind: seq<u8>, i: nat, now: seq<ChildDevice>) {
    |behind| >= 11 && FirstInBlock(data, i) && now == before + Devices(data, behind, i)
  }

  lemma AppendedNext(before: seq<ChildDevice>, data: seq<u8>, behind: seq<u8>, i: nat, n: nat, now: seq<ChildDevice>)
    requires Appended(before, data, behind, i, now) && i < n && FirstInBlock(data, n)
    ensures InBlock(data, i) && Appended(before, data, behind, i + 1, now + OneDevice(data, behind, i))
  {
    EarlierInBlock(data, i, n);
  }

  /** The loop over the records. */
  method AppendDevices(data: seq<u8>, behind: seq<u8>, n: nat, devices: List<ChildDevice>)
    requires devices.Valid() && |behind| >= 11 && FirstInBlock(data, n)
    modifies devices.Repr()
    ensures devices.Valid() && Appended(old(devices.Contents()), data, behind, n, devices.Contents())
  {
    ghost var before := devices.Contents();
    for i := 0 to n
      invariant devices.Valid() && fresh(devices.Repr() - old(devices.Repr()))
      invariant Appended(before, data, behind, i, devices.Contents())
    {
      AppendDevice(data, behind, i, n, devices, before);
    }
  }

  method AppendDevice(data: seq<u8>, behind: seq<u8>, i: nat, ghost n: nat, devices: List<ChildDevice>,
                      ghost before: seq<ChildDevice>)
    requires devices.Valid() && i < n && FirstInBlock(data, n)
    requires Appended(before, data, behind, i, devices.Contents())
    modifies devices.Repr()
    ensures devices.Valid() && fresh(devices.Repr() - old(devices.Repr()))
    ensures Appended(before, data, behind, i + 1, devices.Contents())
  {
    AppendedNext(before, data, behind, i, n, devices.Contents());
    if DeviceType(data, i) != 0 {
      devices.Append(Record(data, behind, i));
    }
  }

  /** Entries of a built index are complete, so the parser can rely on it. */
  lemma IndexedDefinitionsComplete(m: seq<u8>, version: u16, sizes: u8 -> nat, ids: seq<u8>)
    requires Copyable(m)
    ensures var entry := Lookup(EntriesFor(m, version, sizes, ids), GENERAL_DEFINITIONS);
            entry.Some? ==> Complete(entry.value.data)
  {
    LookupEntries(m, version, sizes, ids, GENERAL_DEFINITIONS);
    if FoundSection(m, GENERAL_DEFINITIONS).Some? { RawDefinitionsComplete(m); }
  }

  lemma RawDefinitionsComplete(m: seq<u8>)
    requires Copyable(m) && FoundSection(m, GENERAL_DEFINITIONS).Some?
    ensures Complete(RawBytes(m, GENERAL_DEFINITIONS))
  {
    RawBytesHoldPayload(m, GENERAL_DEFINITIONS);
    var b, at := RawBytes(m, GENERAL_DEFINITIONS), FoundSection(m, GENERAL_DEFINITIONS).value.payload;
    assert b[1] == m[at - 2] && b[2] == m[at - 1];
  }

  /** The lists set up from a video BIOS table: the block index, and the devices found through it. */
  method LoadVbt(m: seq<u8>, sizes: u8 -> nat, behind: seq<u8>) returns (display: Display, devices: List<ChildDevice>)
    requires Copyable(m) && |behind| >= 11 && AllLoadable(m, Version(m), BDB_BLOCKS)
    ensures display.Valid() && devices.Valid() && display.version == Version(m)
    ensures var entries := EntriesFor(m, Version(m), sizes, BDB_BLOCKS);
            && display.bdbBlocks.Contents() == entries
            && devices.Contents() == Parsed(Lookup(entries, GENERAL_DEFINITIONS), behind)
            && display.crtDdcPin == ParsedPin(Lookup(entries, GENERAL_DEFINITIONS), GMBUS_PIN_VGADDC)
  {
    TablePtrsFirst();
    display, devices := LoadTable(m, sizes, behind, BDB_BLOCKS);
  }

  method BuildIndex(m: seq<u8>, sizes: u8 -> nat, table: seq<u8>) returns (display: Display)
    requires Copyable(m) && AllLoadable(m, Version(m), table) && PtrsFirst(table)
    ensures fresh(display) && fresh(display.bdbBlocks.Repr()) && display.Valid()
    ensures display.version == Version(m) && display.crtDdcPin == GMBUS_PIN_VGADDC
    ensures display.bdbBlocks.Contents() == EntriesFor(m, Version(m), sizes, table)
  {
    display := new Display(Version(m));
    display.InitBdbBlocks(m, sizes, table);
  }

  method LoadTable(m: seq<u8>, sizes: u8 -> nat, behind: seq<u8>, table: seq<u8>)
    returns (display: Display, devices: List<ChildDevice>)
    requires Copyable(m) && |behind| >= 11 && AllLoadable(m, Version(m), table) && PtrsFirst(table)
    ensures display.Valid() && devices.Valid() && display.version == Version(m)
    ensures var entries := EntriesFor(m, Version(m), sizes, table);
            && display.bdbBlocks.Contents() == entries
            && devices.Contents() == Parsed(Lookup(entries, GENERAL_DEFINITIONS), behind)
            && display.crtDdcPin == ParsedPin(Lookup(entries, GENERAL_DEFINITIONS), GMBUS_PIN_VGADDC)
  {
    devices := new List<ChildDevice>();
    display := BuildIndex(m, sizes, table);
    IndexedDefinitionsComplete(m, Version(m), sizes, table);
    label Parsing:
    ghost var ring, entry := display.bdbBlocks.Ring(), Lookup(display.bdbBlocks.Contents(), GENERAL_DEFINITIONS);
    assert devices.Contents() == [] && devices.Repr() !! display.bdbBlocks.Repr();
    ParseGeneralDefinitions(display, devices, behind);
    assert display.bdbBlocks.Ring() == ring && forall i :: 0 <= i < |ring| ==> unchanged@Parsing(ring[i]);
    assert devices.Contents() == Parsed(entry, behind);
  }
}
