/**
 The walk over the BIOS data blocks of a video BIOS table (NootedBlue/kern_nblue.cpp).

 Memory is a sequence of bytes that starts at the BDB header.  A block is one id byte, a 16-bit size
 and its payload; a MIPI sequence block from version 3 on carries a 32-bit size in its payload instead.
 */
module BdbScan {
  import opened Options
  import opened Words

  const GENERAL_DEFINITIONS: u8 := 2
  const LFP_DATA_PTRS: u8 := 41
  const LFP_DATA: u8 := 42
  const MIPI_SEQUENCE: u8 := 53

  function Version(m: seq<u8>): u16
    requires |m| >= 22
  {
    U16At(m, 16)
  }

  function HeaderSize(m: seq<u8>): u16
    requires |m| >= 22
  {
    U16At(m, 18)
  }

  function BdbSize(m: seq<u8>): u16
    requires |m| >= 22
  {
    U16At(m, 20)
  }

  /**
   The memory that may be read: the BDB, and five bytes more, because a block header at the very end
   is read as if it were complete and because a version 3 MIPI block is copied with five extra bytes.
   */
  predicate Mapped(m: seq<u8>) {
    |m| >= 22 && BdbSize(m) as int + 5 <= |m|
  }

  predicate HeaderReadable(m: seq<u8>, i: nat) {
    i + 3 <= |m| && (m[i] == MIPI_SEQUENCE ==> i + 4 <= |m| && (m[i + 3] >= 3 ==> i + 8 <= |m|))
  }

  /** _get_blocksize: the size declared by the block at i. */
  function BlockSize(m: seq<u8>, i: nat): u32
    requires HeaderReadable(m, i)
  {
    if m[i] == MIPI_SEQUENCE && m[i + 3] >= 3 then U32At(m, i + 4) else U16At(m, i + 1)
  }

  // ---------------------------------------------------------------------------------------------
  // The blocks of a BDB
  // ---------------------------------------------------------------------------------------------

  /** A block where it lies in memory; `payload` is the address of its first payload byte. */
  datatype RawBlock = RawBlock(id: u8, payload: nat, size: nat)

  /** Where the block at `index` ends, by its declared size. */
  function EndOf(m: seq<u8>, index: nat): nat
    requires Mapped(m) && index + 3 < BdbSize(m)
  {
    index + 3 + BlockSize(m, index)
  }

  /** A whole block lies at `index`. */
  predicate BlockAt(m: seq<u8>, index: nat)
    requires Mapped(m)
  {
    index + 3 < BdbSize(m) && EndOf(m, index) <= BdbSize(m)
  }

  /** The blocks that lie back to back from `index` on. */
  ghost function BlocksFrom(m: seq<u8>, index: nat): seq<RawBlock>
    requires Mapped(m)
    decreases BdbSize(m) as int - index
  {
    if BlockAt(m, index)
    then [RawBlock(m[index], index + 3, BlockSize(m, index))] + BlocksFrom(m, EndOf(m, index))
    else []
  }

  /** Where those blocks end. */
  ghost function StopFrom(m: seq<u8>, index: nat): nat
    requires Mapped(m)
    decreases BdbSize(m) as int - index
  {
    if BlockAt(m, index) then StopFrom(m, EndOf(m, index)) else index
  }

  ghost function Blocks(m: seq<u8>): seq<RawBlock>
    requires Mapped(m)
  {
    BlocksFrom(m, HeaderSize(m))
  }

  ghost function FirstWithId(bs: seq<RawBlock>, id: u8): Option<RawBlock> {
    if bs == [] then None else if bs[0].id == id then Some(bs[0]) else FirstWithId(bs[1..], id)
  }

  lemma {:induction false} FirstWithIdIsFirst(bs: seq<RawBlock>, id: u8)
    ensures FirstWithId(bs, id).Some? ==> FirstWithId(bs, id).value in bs && FirstWithId(bs, id).value.id == id
    ensures FirstWithId(bs, id).None? ==> forall b :: b in bs ==> b.id != id
  {
    if bs != [] && bs[0].id != id { FirstWithIdIsFirst(bs[1..], id); }
  }

  /** The first block with the given id. */
  ghost function RawSection(m: seq<u8>, id: u8): Option<RawBlock>
    requires Mapped(m)
  {
    FirstWithId(Blocks(m), id)
  }

  lemma FirstFrom(m: seq<u8>, index: nat, id: u8)
    requires Mapped(m)
    ensures FirstWithId(BlocksFrom(m, index), id) ==
            if !BlockAt(m, index) then None
            else if m[index] == id then Some(RawBlock(id, index + 3, BlockSize(m, index)))
            else FirstWithId(BlocksFrom(m, EndOf(m, index)), id)
  {
    if BlockAt(m, index) {
      assert BlocksFrom(m, index)[1..] == BlocksFrom(m, EndOf(m, index));
    }
  }

  /** The block starts inside the BDB, behind a header that declares its id and size. */
  ghost predicate Headed(m: seq<u8>, b: RawBlock)
    requires Mapped(m)
  {
    3 <= b.payload < BdbSize(m) && m[b.payload - 3] == b.id && BlockSize(m, b.payload - 3) == b.size
  }

  /** And it ends inside the BDB. */
  ghost predicate Placed(m: seq<u8>, b: RawBlock)
    requires Mapped(m)
  {
    Headed(m, b) && b.payload + b.size <= BdbSize(m)
  }

  lemma {:induction false} BlocksPlaced(m: seq<u8>, index: nat, b: RawBlock)
    requires Mapped(m) && b in BlocksFrom(m, index)
    ensures Placed(m, b) && b.payload >= index + 3
    decreases BdbSize(m) as int - index
  {
    var blocks := BlocksFrom(m, index);
    if b != blocks[0] {
      assert b in blocks[1..];
      BlocksPlaced(m, EndOf(m, index), b);
    }
  }

  lemma RawSectionPlaced(m: seq<u8>, id: u8)
    requires Mapped(m) && RawSection(m, id).Some?
    ensures Placed(m, RawSection(m, id).value) && RawSection(m, id).value.id == id
  {
    FirstWithIdIsFirst(Blocks(m), id);
    BlocksPlaced(m, HeaderSize(m), RawSection(m, id).value);
  }

  // ---------------------------------------------------------------------------------------------
  // The walk, in 32-bit arithmetic
  // ---------------------------------------------------------------------------------------------

  datatype Step = Stop | Found(payload: nat) | Next(index: nat)

  /** One turn of the loop as the code takes it. */
  function ScanStep(m: seq<u8>, id: u8, index: nat): Step
    requires Mapped(m)
  {
    if index + 3 >= BdbSize(m) then Stop
    else
      var end := EndOf(m, index) % 0x1_0000_0000;
      if end > BdbSize(m) then Stop
      else if m[index] == id then Found(index + 3)
      else Next(end)
  }

  /** One turn of the loop as it is meant. */
  function IdealStep(m: seq<u8>, id: u8, index: nat): Step
    requires Mapped(m)
  {
    if !BlockAt(m, index) then Stop else if m[index] == id then Found(index + 3) else Next(EndOf(m, index))
  }

  /** The block's end overflows 32 bits and then looks as if it lay inside the BDB. */
  predicate FalseEnd(m: seq<u8>, index: nat)
    requires Mapped(m)
  {
    index + 3 < BdbSize(m) && EndOf(m, index) >= 0x1_0000_0000 && EndOf(m, index) % 0x1_0000_0000 <= BdbSize(m)
  }

  /** A turn goes as meant exactly when there is no false end, which only a version 3 MIPI block can have. */
  lemma StepAsMeantIff(m: seq<u8>, id: u8, index: nat)
    requires Mapped(m)
    ensures ScanStep(m, id, index) == IdealStep(m, id, index) <==> !FalseEnd(m, index)
    ensures FalseEnd(m, index) ==> m[index] == MIPI_SEQUENCE && m[index + 3] >= 3
  {
    if index + 3 < BdbSize(m) { Wrap32(EndOf(m, index)); }
  }

  lemma Wrap32(x: nat)
    requires x < 0x2_0000_0000
    ensures x % 0x1_0000_0000 == if x < 0x1_0000_0000 then x else x - 0x1_0000_0000
  {
  }

  /** Where the code is after up to n turns. */
  function Turns(m: seq<u8>, id: u8, index: nat, n: nat): Step
    requires Mapped(m)
    decreases n
  {
    if n == 0 then Next(index)
    else match ScanStep(m, id, index)
      case Next(i) => Turns(m, id, i, n - 1)
      case done => done
  }

  lemma {:induction false} TurnsCompose(m: seq<u8>, id: u8, index: nat, p: nat, n: nat)
    requires Mapped(m) && Turns(m, id, index, p).Next?
    ensures Turns(m, id, index, p + n) == Turns(m, id, Turns(m, id, index, p).index, n)
    decreases p
  {
    if p == 0 {
    } else {
      TurnsCompose(m, id, ScanStep(m, id, index).index, p - 1, n);
    }
  }

  /** A turn at a whole block goes as meant. */
  lemma TurnAtBlock(m: seq<u8>, id: u8, index: nat, n: nat)
    requires Mapped(m) && BlockAt(m, index)
    ensures Turns(m, id, index, n + 1) ==
            if m[index] == id then Found(index + 3) else Turns(m, id, EndOf(m, index), n)
  {
    assert ScanStep(m, id, index) == IdealStep(m, id, index);
  }

  /**
   The code's walk passes over the blocks: a present id is found in its first block, whatever lies
   behind the blocks, and a search for an absent id arrives where they end.
   */
  lemma {:induction false} WalkOverBlocks(m: seq<u8>, id: u8, index: nat)
    requires Mapped(m)
    ensures Turns(m, id, index, |BlocksFrom(m, index)|) ==
            match FirstWithId(BlocksFrom(m, index), id)
            case Some(b) => Found(b.payload)
            case None => Next(StopFrom(m, index))
    decreases BdbSize(m) as int - index
  {
    FirstFrom(m, index, id);
    if !BlockAt(m, index) {
    } else {
      var rest := BlocksFrom(m, EndOf(m, index));
      assert |BlocksFrom(m, index)| == |rest| + 1;
      TurnAtBlock(m, id, index, |rest|);
      if m[index] != id { WalkOverBlocks(m, id, EndOf(m, index)); }
    }
  }

  /** Where the blocks of the BDB end. */
  ghost function BlocksEnd(m: seq<u8>): nat
    requires Mapped(m)
  {
    StopFrom(m, HeaderSize(m))
  }

  lemma {:induction false} NoBlockAtStop(m: seq<u8>, index: nat)
    requires Mapped(m)
    ensures !BlockAt(m, StopFrom(m, index))
    decreases BdbSize(m) as int - index
  {
    if !BlockAt(m, index) {
    } else {
      NoBlockAtStop(m, EndOf(m, index));
    }
  }

  /** A search for an absent id comes to where the blocks end, and goes on from there. */
  lemma AbsentIdArrives(m: seq<u8>, id: u8, n: nat)
    requires Mapped(m) && RawSection(m, id).None?
    ensures Turns(m, id, HeaderSize(m), |Blocks(m)| + n) == Turns(m, id, BlocksEnd(m), n)
  {
    WalkOverBlocks(m, id, HeaderSize(m));
    TurnsCompose(m, id, HeaderSize(m), |Blocks(m)|, n);
  }

  /**
   The next turn of that search stops if and only if there is no false end there.  Otherwise it takes the
   false end for a block: the search for a MIPI block returns it, although it runs past the BDB, and any
   other search goes on where its end seems to lie.
   */
  lemma AbsentIdTurn(m: seq<u8>, id: u8, n: nat)
    requires Mapped(m) && RawSection(m, id).None?
    ensures Turns(m, id, HeaderSize(m), |Blocks(m)| + 1 + n) ==
            if !FalseEnd(m, BlocksEnd(m)) then Stop
            else if id == MIPI_SEQUENCE then Found(BlocksEnd(m) + 3)
            else Turns(m, id, EndOf(m, BlocksEnd(m)) % 0x1_0000_0000, n)
    ensures FalseEnd(m, BlocksEnd(m)) ==> EndOf(m, BlocksEnd(m)) > BdbSize(m)
  {
    AbsentIdArrives(m, id, 1 + n);
    NoBlockAtStop(m, HeaderSize(m));
    StepAsMeantIff(m, id, BlocksEnd(m));
  }

  /** The id is present, or no false end lies behind the blocks. */
  ghost predicate Searchable(m: seq<u8>, id: u8) {
    Mapped(m) && (RawSection(m, id).Some? || !FalseEnd(m, BlocksEnd(m)))
  }

  /** The search ends. */
  ghost predicate Halts(m: seq<u8>, id: u8) {
    Mapped(m) && exists n: nat :: !Turns(m, id, HeaderSize(m), n).Next?
  }

  /** What a search should report for an id. */
  ghost function Expected(m: seq<u8>, id: u8): Step
    requires Mapped(m)
  {
    match RawSection(m, id) case Some(b) => Found(b.payload) case None => Stop
  }

  /** The search ends and reports what it should. */
  ghost predicate Answers(m: seq<u8>, id: u8) {
    Mapped(m) && exists n: nat :: Turns(m, id, HeaderSize(m), n) == Expected(m, id)
  }

  lemma {:induction false} TurnsSettle(m: seq<u8>, id: u8, index: nat, p: nat, n: nat)
    requires Mapped(m) && !Turns(m, id, index, p).Next? && p <= n
    ensures Turns(m, id, index, n) == Turns(m, id, index, p)
    decreases p
  {
    if ScanStep(m, id, index).Next? { TurnsSettle(m, id, ScanStep(m, id, index).index, p - 1, n - 1); }
  }

  /** A search ends in one way only. */
  lemma OneOutcome(m: seq<u8>, id: u8, index: nat, p: nat, q: nat)
    requires Mapped(m) && !Turns(m, id, index, p).Next? && !Turns(m, id, index, q).Next?
    ensures Turns(m, id, index, p) == Turns(m, id, index, q)
  {
    if p <= q { TurnsSettle(m, id, index, p, q); } else { TurnsSettle(m, id, index, q, p); }
  }

  /** A searchable id is answered, at the latest one turn after the last block. */
  lemma SearchableAnswers(m: seq<u8>, id: u8)
    requires Searchable(m, id)
    ensures Answers(m, id) && Turns(m, id, HeaderSize(m), |Blocks(m)| + 1) == Expected(m, id)
  {
    WalkOverBlocks(m, id, HeaderSize(m));
    if RawSection(m, id).Some? {
      TurnsSettle(m, id, HeaderSize(m), |Blocks(m)|, |Blocks(m)| + 1);
    } else {
      AbsentIdTurn(m, id, 0);
    }
  }

  /**
   The search for a MIPI block always ends.  It reports what it should if and only if the id is
   searchable; otherwise it returns a block that runs past the BDB.
   */
  lemma MipiSearchCorrectIff(m: seq<u8>)
    requires Mapped(m)
    ensures Halts(m, MIPI_SEQUENCE)
    ensures Answers(m, MIPI_SEQUENCE) <==> Searchable(m, MIPI_SEQUENCE)
    ensures !Searchable(m, MIPI_SEQUENCE) ==>
              && Turns(m, MIPI_SEQUENCE, HeaderSize(m), |Blocks(m)| + 1) == Found(BlocksEnd(m) + 3)
              && EndOf(m, BlocksEnd(m)) > BdbSize(m)
  {
    if Searchable(m, MIPI_SEQUENCE) {
      SearchableAnswers(m, MIPI_SEQUENCE);
    } else {
      AbsentIdTurn(m, MIPI_SEQUENCE, 0);
      forall n: nat ensures Turns(m, MIPI_SEQUENCE, HeaderSize(m), n) != Stop {
        if Turns(m, MIPI_SEQUENCE, HeaderSize(m), n) == Stop {
          OneOutcome(m, MIPI_SEQUENCE, HeaderSize(m), n, |Blocks(m)| + 1);
        }
      }
    }
  }

  /** Without a MIPI block, every search reports what it should if and only if no false end lies behind the blocks. */
  lemma AllAnswersIff(m: seq<u8>)
    requires Mapped(m) && RawSection(m, MIPI_SEQUENCE).None?
    ensures (forall id :: Answers(m, id)) <==> !FalseEnd(m, BlocksEnd(m))
  {
    MipiSearchCorrectIff(m);
    if !FalseEnd(m, BlocksEnd(m)) {
      forall id ensures Answers(m, id) { SearchableAnswers(m, id); }
    }
  }

  // ---------------------------------------------------------------------------------------------
  // Searches that do not end
  // ---------------------------------------------------------------------------------------------

  /** After a turn that goes on, the code is inside the BDB. */
  lemma {:induction false} TurnsInside(m: seq<u8>, id: u8, index: nat, n: nat)
    requires Mapped(m) && n > 0 && Turns(m, id, index, n).Next?
    ensures Turns(m, id, index, n).index <= BdbSize(m)
    decreases n
  {
    var next := ScanStep(m, id, index).index;
    if n == 1 { assert Turns(m, id, next, 0) == Next(next); } else { TurnsInside(m, id, next, n - 1); }
  }

  /** A search that meets an index twice never ends. */
  lemma {:induction false} MetTwice(m: seq<u8>, id: u8, index: nat, p: nat, q: nat, n: nat)
    requires Mapped(m) && p < q && Turns(m, id, index, p).Next? && Turns(m, id, index, p) == Turns(m, id, index, q)
    ensures Turns(m, id, index, n).Next?
    decreases n
  {
    if n <= q {
      if !Turns(m, id, index, n).Next? { TurnsSettle(m, id, index, n, q); }
    } else {
      TurnsCompose(m, id, index, q, n - q);
      TurnsCompose(m, id, index, p, n - q);
      MetTwice(m, id, index, p, q, p + (n - q));
    }
  }

  ghost function Values(s: seq<nat>): set<nat> {
    set x | x in s
  }

  lemma {:induction false} DistinctCount(s: seq<nat>)
    requires forall i, j :: 0 <= i < j < |s| ==> s[i] != s[j]
    ensures |Values(s)| == |s|
  {
    if s == [] {
    } else {
      DistinctCount(s[1..]);
      assert s[0] !in s[1..];
      assert Values(s) == {s[0]} + Values(s[1..]);
    }
  }

  lemma {:induction false} CountBelow(s: set<nat>, bound: nat)
    requires forall x :: x in s ==> x < bound
    ensures |s| <= bound
    decreases bound
  {
    if bound == 0 {
    } else {
      CountBelow(s - {bound - 1}, bound - 1);
      assert |s| <= |s - {bound - 1}| + 1;
    }
  }

  /** Where the code is after 1, 2, ... turns. */
  ghost predicate Trace(m: seq<u8>, id: u8, index: nat, trace: seq<nat>)
    requires Mapped(m)
  {
    forall k :: 0 <= k < |trace| ==> Turns(m, id, index, k + 1) == Next(trace[k])
  }

  /** More turns than the BDB has bytes meet some index twice. */
  lemma LongTraceRepeats(m: seq<u8>, id: u8, index: nat, trace: seq<nat>) returns (p: nat, q: nat)
    requires Mapped(m) && Trace(m, id, index, trace) && |trace| > BdbSize(m) + 1
    ensures p < q && Turns(m, id, index, p).Next? && Turns(m, id, index, p) == Turns(m, id, index, q)
  {
    forall k | 0 <= k < |trace| ensures trace[k] < BdbSize(m) + 1 {
      assert Turns(m, id, index, k + 1) == Next(trace[k]);
      TurnsInside(m, id, index, k + 1);
    }
    CountBelow(Values(trace), BdbSize(m) + 1);
    if forall i, j :: 0 <= i < j < |trace| ==> trace[i] != trace[j] {
      DistinctCount(trace);
      assert false;
    }
    var i, j :| 0 <= i < j < |trace| && trace[i] == trace[j];
    p, q := i + 1, j + 1;
  }

  /** The search ends if and only if it does so within as many turns as the BDB has bytes, and two more. */
  lemma HaltsIffSoon(m: seq<u8>, id: u8)
    requires Mapped(m)
    ensures Halts(m, id) <==> !Turns(m, id, HeaderSize(m), BdbSize(m) + 2).Next?
    ensures Answers(m, id) <==> Turns(m, id, HeaderSize(m), BdbSize(m) + 2) == Expected(m, id)
  {
    var last: nat := BdbSize(m) + 2;
    if Turns(m, id, HeaderSize(m), last).Next? {
      forall k: nat | k <= last ensures Turns(m, id, HeaderSize(m), k).Next? {
        if !Turns(m, id, HeaderSize(m), k).Next? { TurnsSettle(m, id, HeaderSize(m), k, last); }
      }
      var trace := seq(last, k requires 0 <= k < last => Turns(m, id, HeaderSize(m), k + 1).index);
      var p, q := LongTraceRepeats(m, id, HeaderSize(m), trace);
      forall n: nat ensures Turns(m, id, HeaderSize(m), n).Next? { MetTwice(m, id, HeaderSize(m), p, q, n); }
    } else {
      forall n: nat | !Turns(m, id, HeaderSize(m), n).Next?
        ensures Turns(m, id, HeaderSize(m), n) == Turns(m, id, HeaderSize(m), last)
      {
        OneOutcome(m, id, HeaderSize(m), n, last);
      }
    }
  }

  /** If the false end points back to its own block, the search never ends. */
  lemma {:induction false} SearchNeverEnds(m: seq<u8>, id: u8, n: nat)
    requires Mapped(m) && RawSection(m, id).None? && id != MIPI_SEQUENCE
    requires FalseEnd(m, BlocksEnd(m)) && EndOf(m, BlocksEnd(m)) == 0x1_0000_0000 + BlocksEnd(m)
    ensures Turns(m, id, HeaderSize(m), |Blocks(m)| + n) == Next(BlocksEnd(m))
    decreases n
  {
    if n == 0 {
      AbsentIdArrives(m, id, 0);
    } else {
      assert EndOf(m, BlocksEnd(m)) % 0x1_0000_0000 == BlocksEnd(m);
      SearchNeverEnds(m, id, n - 1);
      AbsentIdArrives(m, id, n - 1);
      AbsentIdTurn(m, id, n - 1);
    }
  }

  /** There is such a BDB: one version 3 MIPI block that declares 2^32 - 3 bytes, right behind the header. */
  lemma NeverEndingSearchExists(id: u8)
    requires id != MIPI_SEQUENCE
    ensures exists m :: Mapped(m) && forall n: nat :: Turns(m, id, HeaderSize(m), n) == Next(HeaderSize(m))
  {
    var m: seq<u8> := seq(18, _ => 0) + [22, 0, 30, 0] + [MIPI_SEQUENCE, 0, 0, 3, 0xFD, 0xFF, 0xFF, 0xFF] + [0, 0, 0, 0, 0];
    assert HeaderSize(m) == 22 && BdbSize(m) == 30;
    assert EndOf(m, 22) == 0x1_0000_0000 + 22;
    assert Blocks(m) == [] && BlocksEnd(m) == 22;
    forall n: nat ensures Turns(m, id, HeaderSize(m), n) == Next(HeaderSize(m)) { SearchNeverEnds(m, id, n); }
  }

  // ---------------------------------------------------------------------------------------------
  // What a search finds
  // ---------------------------------------------------------------------------------------------

  /** Where the search ends, if it does. */
  function Outcome(m: seq<u8>, id: u8): Step
    requires Mapped(m)
  {
    Turns(m, id, HeaderSize(m), BdbSize(m) + 2)
  }

  /** The block the search returns. */
  function FoundSection(m: seq<u8>, id: u8): Option<RawBlock>
    requires Mapped(m)
  {
    match Outcome(m, id)
    case Found(p) => if 3 <= p < BdbSize(m) then Some(RawBlock(id, p, BlockSize(m, p - 3))) else None
    case _ => None
  }

  /** Whatever a search returns lies behind a header with that id, inside the BDB unless it is a false end. */
  lemma {:induction false} FoundAtBlock(m: seq<u8>, id: u8, index: nat, n: nat)
    requires Mapped(m) && Turns(m, id, index, n).Found?
    ensures var p := Turns(m, id, index, n).payload;
            && p >= 3 && p < BdbSize(m) && m[p - 3] == id
            && if FalseEnd(m, p - 3) then id == MIPI_SEQUENCE else BlockAt(m, p - 3)
    decreases n
  {
    StepAsMeantIff(m, id, index);
    if ScanStep(m, id, index).Next? { FoundAtBlock(m, id, ScanStep(m, id, index).index, n - 1); }
  }

  lemma FoundSectionHeaded(m: seq<u8>, id: u8)
    requires Mapped(m) && FoundSection(m, id).Some?
    ensures Headed(m, FoundSection(m, id).value) && FoundSection(m, id).value.id == id
  {
    FoundAtBlock(m, id, HeaderSize(m), BdbSize(m) + 2);
  }

  /** A search that answers finds the first block with the id; in particular, it finds every id that is present. */
  lemma AnswerFindsSection(m: seq<u8>, id: u8)
    requires Mapped(m)
    ensures Answers(m, id) ==> FoundSection(m, id) == RawSection(m, id)
    ensures RawSection(m, id).Some? ==> FoundSection(m, id) == RawSection(m, id)
  {
    HaltsIffSoon(m, id);
    if RawSection(m, id).Some? {
      SearchableAnswers(m, id);
      RawSectionPlaced(m, id);
    }
  }

  /** What a search returns ends inside the BDB too, unless it is for the MIPI id and wrong. */
  lemma FoundSectionPlaced(m: seq<u8>, id: u8)
    requires Mapped(m) && FoundSection(m, id).Some? && (id != MIPI_SEQUENCE || Answers(m, id))
    ensures Placed(m, FoundSection(m, id).value) && FoundSection(m, id).value.id == id
  {
    FoundAtBlock(m, id, HeaderSize(m), BdbSize(m) + 2);
    if id == MIPI_SEQUENCE {
      AnswerFindsSection(m, id);
      RawSectionPlaced(m, id);
    }
  }

  lemma DescribeOutcome(m: seq<u8>, id: u8)
    requires Halts(m, id)
    ensures match Outcome(m, id)
            case Found(p) => FoundSection(m, id).Some? && FoundSection(m, id).value.payload == p
            case Stop => FoundSection(m, id).None?
            case Next(_) => false
    ensures FoundSection(m, id).Some? ==> Headed(m, FoundSection(m, id).value)
    ensures FoundSection(m, id).Some? && (id != MIPI_SEQUENCE || Answers(m, id)) ==> Placed(m, FoundSection(m, id).value)
    ensures Answers(m, id) ==> FoundSection(m, id) == RawSection(m, id)
  {
    HaltsIffSoon(m, id);
    AnswerFindsSection(m, id);
    if Outcome(m, id).Found? {
      FoundAtBlock(m, id, HeaderSize(m), BdbSize(m) + 2);
      FoundSectionHeaded(m, id);
      if id != MIPI_SEQUENCE || Answers(m, id) { FoundSectionPlaced(m, id); }
    }
  }

  /**
   find_raw_section, wherever its search ends.  Where the search answers, it returns the payload address
   of the first block with that id, or nothing if there is none.
   */
  method FindRawSection(m: seq<u8>, id: u8) returns (r: Option<nat>)
    requires Halts(m, id)
    ensures Outcome(m, id) == if r.Some? then Found(r.value) else Stop
    ensures r.Some? <==> FoundSection(m, id).Some?
    ensures r.Some? ==> r.value == FoundSection(m, id).value.payload && Headed(m, FoundSection(m, id).value)
    ensures r.Some? && (id != MIPI_SEQUENCE || Answers(m, id)) ==> Placed(m, FoundSection(m, id).value)
    ensures Answers(m, id) ==> FoundSection(m, id) == RawSection(m, id)
  {
    DescribeOutcome(m, id);
    ghost var left: nat := BdbSize(m) + 2;
    var index: nat := HeaderSize(m);
    var total := BdbSize(m);
    while index + 3 < total
      invariant Turns(m, id, index, left) == Outcome(m, id)
      decreases left
    {
      var currentId := m[index];
      var currentSize := BlockSize(m, index);
      assert EndOf(m, index) == index + 3 + currentSize;
      index := index + 3;
      if (index + currentSize) % 0x1_0000_0000 > total {
        return None;
      }
      if currentId == id {
        return Some(index);
      }
      index := (index + currentSize) % 0x1_0000_0000;
      left := left - 1;
    }
    return None;
  }
}
