/**
 Register fields (NootedBlue/intel_dsi_vbt_defs.h) and read-modify-write on the memory-mapped
 registers (NootedBlue/kern_nblue.cpp).
 */
module Registers {
  import opened Words

  // ---------------------------------------------------------------------------------------------
  // Fields of a 32-bit register
  // ---------------------------------------------------------------------------------------------

  function Truncate32(x: nat): u32 {
    x % 0x1_0000_0000
  }

  /** REG_GENMASK(h, l) */
  function Genmask(h: nat, l: nat): u32
    requires l <= h <= 31
  {
    Truncate32(Shl(Pow2(h - l + 1) - 1, l))
  }

  /** REG_FIELD_PREP(mask, val) */
  function FieldPrep(mask: u32, val: u32): u32
    requires mask != 0
  {
    AndBound(Truncate32(Shl(val, LowestSetBit(mask))), mask);
    And(Truncate32(Shl(val, LowestSetBit(mask))), mask)
  }

  /** REG_FIELD_GET(mask, val) */
  function FieldGet(mask: u32, val: u32): nat
    requires mask != 0
  {
    NegationIsolatesLowestBit32(mask);
    Quotient(And(val, mask), And(mask, Negate32(mask)))
  }

  /** -x in 32-bit unsigned arithmetic */
  function Negate32(x: u32): u32 {
    if x == 0 then 0 else 0x1_0000_0000 - x
  }

  lemma NegationIsolatesLowestBit32(mask: u32)
    requires mask != 0
    ensures And(mask, Negate32(mask)) == Pow2(LowestSetBit(mask))
  {
    WordSizes();
    NegationIsolatesLowestBit(mask, 32);
  }

  /** The low w bits of x. */
  function LowBits(x: nat, w: nat): nat
    decreases w
  {
    if w == 0 then 0 else 2 * LowBits(x / 2, w - 1) + x % 2
  }

  lemma {:induction false} LowBitsBit(x: nat, w: nat, n: nat)
    ensures Bit(LowBits(x, w), n) <==> n < w && Bit(x, n)
    decreases w
  {
    if w == 0 {
      ZeroBit(n);
    } else if n > 0 {
      LowBitsBit(x / 2, w - 1, n - 1);
    }
  }

  lemma {:induction false} LowBitsOfSmall(x: nat, w: nat)
    requires x < Pow2(w)
    ensures LowBits(x, w) == x
    decreases w
  {
    if w == 0 {
    } else {
      LowBitsOfSmall(x / 2, w - 1);
    }
  }

  lemma {:induction false} LowBitsSplit(x: nat, w: nat)
    ensures LowBits(x, w) < Pow2(w) && x == Pow2(w) * Shr(x, w) + LowBits(x, w)
    decreases w
  {
    if w == 0 {
    } else {
      LowBitsSplit(x / 2, w - 1);
      DoubleProduct(Pow2(w - 1), Shr(x / 2, w - 1));
    }
  }

  lemma Truncate32Bit(x: nat, n: nat)
    ensures Bit(Truncate32(x), n) <==> n < 32 && Bit(x, n)
  {
    WordSizes();
    LowBitsSplit(x, 32);
    RemainderUnique(x, 0x1_0000_0000, Shr(x, 32), LowBits(x, 32));
    LowBitsBit(x, 32, n);
  }

  lemma GenmaskBit(h: nat, l: nat, n: nat)
    requires l <= h <= 31
    ensures Bit(Genmask(h, l), n) <==> l <= n <= h
  {
    Truncate32Bit(Shl(Pow2(h - l + 1) - 1, l), n);
    ShlBit(Pow2(h - l + 1) - 1, l, n);
    if n >= l { LowMaskBit(h - l + 1, n - l); }
  }

  lemma GenmaskLowest(h: nat, l: nat)
    requires l <= h <= 31
    ensures Genmask(h, l) != 0 && LowestSetBit(Genmask(h, l)) == l
  {
    var mask := Genmask(h, l);
    GenmaskBit(h, l, l);
    ZeroBit(l);
    GenmaskBit(h, l, LowestSetBit(mask));
    if l < LowestSetBit(mask) { BitsBelowLowest(mask, l); }
  }

  lemma FieldPrepBit(h: nat, l: nat, v: u32, n: nat)
    requires l <= h <= 31
    ensures Genmask(h, l) != 0
    ensures Bit(FieldPrep(Genmask(h, l), v), n) <==> l <= n <= h && Bit(v, n - l)
  {
    GenmaskLowest(h, l);
    AndBit(Truncate32(Shl(v, l)), Genmask(h, l), n);
    Truncate32Bit(Shl(v, l), n);
    ShlBit(v, l, n);
    GenmaskBit(h, l, n);
  }

  lemma FieldGetBit(h: nat, l: nat, x: u32, n: nat)
    requires l <= h <= 31
    ensures Genmask(h, l) != 0
    ensures Bit(FieldGet(Genmask(h, l), x), n) <==> n <= h - l && Bit(x, n + l)
  {
    GenmaskLowest(h, l);
    NegationIsolatesLowestBit32(Genmask(h, l));
    ShrIsDivision(And(x, Genmask(h, l)), l);
    ShrBit(And(x, Genmask(h, l)), l, n);
    AndBit(x, Genmask(h, l), n + l);
    GenmaskBit(h, l, n + l);
  }

  /** Reading back a prepared field gives the value's low h - l + 1 bits: the value itself if it fits. */
  lemma GetUndoesPrep(h: nat, l: nat, v: u32)
    requires l <= h <= 31
    ensures Genmask(h, l) != 0
    ensures FieldGet(Genmask(h, l), FieldPrep(Genmask(h, l), v)) == LowBits(v, h - l + 1)
    ensures v < Pow2(h - l + 1) ==> FieldGet(Genmask(h, l), FieldPrep(Genmask(h, l), v)) == v
  {
    GenmaskLowest(h, l);
    var mask, width := Genmask(h, l), h - l + 1;
    var got := FieldGet(mask, FieldPrep(mask, v));
    forall n: nat ensures Bit(got, n) <==> Bit(LowBits(v, width), n) {
      FieldGetBit(h, l, FieldPrep(mask, v), n);
      FieldPrepBit(h, l, v, n + l);
      LowBitsBit(v, width, n);
    }
    Extensional(got, LowBits(v, width));
    if v < Pow2(width) { LowBitsOfSmall(v, width); }
  }

  /** (old & ~clear) | set */
  function Modified(value: u32, clear: u32, bits: u32): u32 {
    WordSizes();
    ModifiedFits(value, clear, bits);
    Or(And(value, Not(clear, 32)), bits)
  }

  lemma ModifiedFits(x: u32, clear: u32, bits: u32)
    requires clear < Pow2(32)
    ensures Or(And(x, Not(clear, 32)), bits) < 0x1_0000_0000
  {
    WordSizes();
    forall n | n >= 32 ensures !Bit(Or(And(x, Not(clear, 32)), bits), n) {
      OrBit(And(x, Not(clear, 32)), bits, n);
      AndBit(x, Not(clear, 32), n);
      NotBit(clear, 32, n);
      HighBitsClear(bits, 32, n);
    }
    FitsIfHighBitsClear(Or(And(x, Not(clear, 32)), bits), 32);
  }

  lemma ModifiedBit(x: u32, clear: u32, bits: u32, n: nat)
    requires n < 32
    ensures Bit(Modified(x, clear, bits), n) <==> Bit(bits, n) || (Bit(x, n) && !Bit(clear, n))
  {
    WordSizes();
    OrBit(And(x, Not(clear, 32)), bits, n);
    AndBit(x, Not(clear, 32), n);
    NotBit(clear, 32, n);
  }

  /** Clearing a field's mask and setting its prepared value changes that field and no disjoint one. */
  lemma ModifySetsField(x: u32, h: nat, l: nat, v: u32)
    requires l <= h <= 31
    ensures Genmask(h, l) != 0
    ensures FieldGet(Genmask(h, l), Modified(x, Genmask(h, l), FieldPrep(Genmask(h, l), v))) == LowBits(v, h - l + 1)
  {
    GenmaskLowest(h, l);
    var mask := Genmask(h, l);
    var after := Modified(x, mask, FieldPrep(mask, v));
    forall n: nat ensures Bit(FieldGet(mask, after), n) <==> Bit(LowBits(v, h - l + 1), n) {
      FieldGetBit(h, l, after, n);
      LowBitsBit(v, h - l + 1, n);
      if n <= h - l {
        ModifiedBit(x, mask, FieldPrep(mask, v), n + l);
        FieldPrepBit(h, l, v, n + l);
        GenmaskBit(h, l, n + l);
      }
    }
    Extensional(FieldGet(mask, after), LowBits(v, h - l + 1));
  }

  lemma ModifyKeepsOtherFields(x: u32, h: nat, l: nat, v: u32, h': nat, l': nat)
    requires l <= h <= 31 && l' <= h' <= 31 && (h' < l || h < l')
    ensures Genmask(h, l) != 0 && Genmask(h', l') != 0
    ensures FieldGet(Genmask(h', l'), Modified(x, Genmask(h, l), FieldPrep(Genmask(h, l), v))) ==
            FieldGet(Genmask(h', l'), x)
  {
    GenmaskLowest(h, l);
    GenmaskLowest(h', l');
    var mask, mask' := Genmask(h, l), Genmask(h', l');
    var after := Modified(x, mask, FieldPrep(mask, v));
    forall n: nat ensures Bit(FieldGet(mask', after), n) <==> Bit(FieldGet(mask', x), n) {
      FieldGetBit(h', l', after, n);
      FieldGetBit(h', l', x, n);
      if n <= h' - l' {
        ModifiedBit(x, mask, FieldPrep(mask, v), n + l');
        FieldPrepBit(h, l, v, n + l');
        GenmaskBit(h, l, n + l');
      }
    }
    Extensional(FieldGet(mask', after), FieldGet(mask', x));
  }

  // ---------------------------------------------------------------------------------------------
  // Memory-mapped registers
  // ---------------------------------------------------------------------------------------------

  /** The bounds check `reg < rmmioLen - 4`, in 64-bit unsigned arithmetic. */
  predicate InRange(reg: nat, len: u64) {
    reg < (len + 0x1_0000_0000_0000_0000 - 4) % 0x1_0000_0000_0000_0000
  }

  /** The check keeps 64-bit register numbers inside the mapping exactly when the mapping has at least four bytes. */
  lemma InRangeSafeIff(len: u64)
    ensures (forall reg: u64 :: InRange(reg, len) ==> reg + 4 <= len) <==> len >= 4
  {
    if len < 4 {
      assert InRange(len, len);
    }
  }

  /** On such a mapping the check leaves out the last whole register: it asks for one byte more than a register has. */
  lemma InRangeIff(reg: u64, len: u64)
    requires len >= 4
    ensures InRange(reg, len) <==> reg + 4 < len
    ensures !InRange(len - 4, len)
  {
    assert (len + 0x1_0000_0000_0000_0000 - 4) % 0x1_0000_0000_0000_0000 == len - 4;
  }

  class Mmio {
    const bytes: array<u8>

    ghost predicate Valid() {
      4 <= bytes.Length < 0x1_0000_0000_0000_0000
    }

    constructor (bytes: array<u8>)
      ensures this.bytes == bytes
    {
      this.bytes := bytes;
    }

    /** What a 32-bit read returns: zero outside the mapping. */
    ghost function Value(reg: nat): u32
      requires Valid()
      reads bytes
    {
      if InRange(reg, bytes.Length) then U32At(bytes[..], reg) else 0
    }

    /** Serialising what was read gives back the register's four bytes, least significant first. */
    method ReadReg32(reg: nat) returns (val: u32)
      requires Valid()
      ensures InRange(reg, bytes.Length) ==> reg + 4 <= bytes.Length && Le32(val) == bytes[reg..reg + 4]
      ensures !InRange(reg, bytes.Length) ==> val == 0
      ensures val == Value(reg)
    {
      if !InRange(reg, bytes.Length) {
        return 0;
      }
      var low := bytes[reg] as int + 0x100 * bytes[reg + 1] as int;
      var high := bytes[reg + 2] as int + 0x100 * bytes[reg + 3] as int;
      val := low + 0x1_0000 * high;
      BytesOfWord(bytes[..], reg);
      assert bytes[..][reg..reg + 4] == bytes[reg..reg + 4];
    }

    /** Writes the four bytes of one register, or nothing outside the mapping. */
    method WriteReg32(reg: nat, val: u32)
      requires Valid()
      modifies bytes
      ensures Value(reg) == if InRange(reg, bytes.Length) then val else 0
      ensures forall i :: 0 <= i < bytes.Length && !(reg <= i < reg + 4) ==> bytes[i] == old(bytes[i])
      ensures !InRange(reg, bytes.Length) ==> bytes[..] == old(bytes[..])
    {
      if InRange(reg, bytes.Length) {
        var b := Le32(val);
        bytes[reg], bytes[reg + 1], bytes[reg + 2], bytes[reg + 3] := b[0], b[1], b[2], b[3];
        assert bytes[..][reg] == b[0] && bytes[..][reg + 1] == b[1];
        assert bytes[..][reg + 2] == b[2] && bytes[..][reg + 3] == b[3];
      }
    }

    /** Read, clear, set, write back; every register that does not overlap `reg` keeps its value. */
    method Rmw(reg: nat, clear: u32, bits: u32) returns (before: u32)
      requires Valid()
      modifies bytes
      ensures before == old(Value(reg))
      ensures InRange(reg, bytes.Length) ==> Value(reg) == Modified(before, clear, bits)
      ensures !InRange(reg, bytes.Length) ==> before == 0 && bytes[..] == old(bytes[..])
      ensures forall other: nat :: other + 4 <= reg || reg + 4 <= other ==> Value(other) == old(Value(other))
    {
      before := ReadReg32(reg);
      var val := Modified(before, clear, bits);
      WriteReg32(reg, val);
    }

    /** Writing one field of a register: that field changes, every disjoint field of it does not. */
    method SetField(reg: nat, h: nat, l: nat, v: u32)
      requires Valid() && l <= h <= 31 && InRange(reg, bytes.Length)
      modifies bytes
      ensures Genmask(h, l) != 0 && FieldGet(Genmask(h, l), Value(reg)) == LowBits(v, h - l + 1)
      ensures forall h', l' :: 0 <= l' <= h' <= 31 && (h' < l || h < l') ==>
                Genmask(h', l') != 0 && FieldGet(Genmask(h', l'), Value(reg)) == FieldGet(Genmask(h', l'), old(Value(reg)))
      ensures forall other: nat :: other + 4 <= reg || reg + 4 <= other ==> Value(other) == old(Value(other))
    {
      GenmaskLowest(h, l);
      var mask := Genmask(h, l);
      var before := Rmw(reg, mask, FieldPrep(mask, v));
      ModifySetsField(before, h, l, v);
      forall h', l' | 0 <= l' <= h' <= 31 && (h' < l || h < l')
        ensures Genmask(h', l') != 0
        ensures FieldGet(Genmask(h', l'), Value(reg)) == FieldGet(Genmask(h', l'), before)
      {
        ModifyKeepsOtherFields(before, h, l, v, h', l');
      }
    }
  }
}
