/**
 The platform mask: one bit per platform, packed above the four subplatform bits of two 32-bit words
 (NootedBlue/intel_vbt_defs.h, NootedBlue/kern_nblue.cpp).
 */
module PlatformMask {
  import opened Words

  // A mask word has 32 bits, of which INTEL_SUBPLATFORM_BITS = 4 are kept for the subplatform.

  function MaskIndex(platform: nat): nat {
    platform / 28
  }

  function MaskBit(platform: nat): nat {
    platform % 28 + 4
  }

  /** Platforms take the bits above the subplatform's of one word after another, in order. */
  lemma MaskPosition(p: nat)
    ensures 4 <= MaskBit(p) < 32 && p == 28 * MaskIndex(p) + (MaskBit(p) - 4)
  {
  }

  /** A platform bit or-ed with any subplatform bits answers only for its own platform. */
  lemma PlatformBitDistinct(p: nat, sub: nat, q: nat)
    requires sub < 16
    ensures And(Or(Pow2(MaskBit(p)), sub), Pow2(MaskBit(q))) != 0 <==> MaskBit(p) == MaskBit(q)
  {
    AndSingleBit(Or(Pow2(MaskBit(p)), sub), MaskBit(q));
    OrBit(Pow2(MaskBit(p)), sub, MaskBit(q));
    Pow2Bit(MaskBit(p), MaskBit(q));
    HighBitsClear(sub, 4, MaskBit(q));
  }

  method FindDevid(id: u16, ids: seq<u16>) returns (found: bool)
    ensures found <==> id in ids
  {
    for i := 0 to |ids|
      invariant id !in ids[..i]
    {
      if ids[i] == id {
        return true;
      }
    }
    return false;
  }

  /** The device ids that select each subplatform. */
  datatype SubplatformIds = SubplatformIds(uy: seq<u16>, n: seq<u16>, rpl: seq<u16>, rplu: seq<u16>) {

    /** Subplatform bit b is set for the device: UY and RPL are bit 0, N is bit 1, RPL-U is bit 2. */
    ghost predicate Selects(devid: u16, b: int) {
      match b
      case 0 => devid in uy || (devid !in n && devid in rpl)
      case 1 => devid !in uy && devid in n
      case 2 => devid !in uy && devid !in n && devid in rpl && devid in rplu
      case _ => false
    }
  }

  class RuntimeInfo {
    const platformMask: array<u32>

    ghost predicate Valid() {
      platformMask.Length == 2
    }

    /** A zeroed mask answers for no platform. */
    constructor ()
      ensures Valid() && fresh(platformMask)
      ensures forall q: nat :: q < 56 ==> !IsPlatform(q)
    {
      platformMask := new u32[2](_ => 0);
      new;
      assert forall b :: b >= 0 ==> And(0, Pow2(b)) == 0;
    }

    predicate IsPlatform(p: nat)
      requires Valid() && p < 56
      reads platformMask
    {
      And(platformMask[MaskIndex(p)], Pow2(MaskBit(p))) != 0
    }

    /**
     Records the device's platform and subplatform.  Afterwards IsPlatform holds for that platform, and
     otherwise only for what the other mask word already held: for nothing else if it was zero.
     */
    method SubplatformInit(platform: nat, devid: u16, ids: SubplatformIds)
      requires Valid() && platform < 56
      modifies platformMask
      ensures forall q: nat :: q < 56 ==>
                (IsPlatform(q) <==> q == platform || (MaskIndex(q) != MaskIndex(platform) && old(IsPlatform(q))))
      ensures platformMask[1 - MaskIndex(platform)] == old(platformMask[1 - MaskIndex(platform)])
      ensures forall b :: 0 <= b < 4 ==>
                (Bit(platformMask[MaskIndex(platform)], b) <==> ids.Selects(devid, b))
      ensures platformMask[platform / 28] as int ==
              Pow2(4 + platform % 28) +
              if devid in ids.uy then 1
              else if devid in ids.n then 2
              else if devid in ids.rpl then (if devid in ids.rplu then 5 else 1)
              else 0
    {
      var pi, pb := MaskIndex(platform), MaskBit(platform);
      var mask: nat := 0;
      ShiftedBitFits(pb);
      platformMask[pi] := Pow2(pb);
      var uy := FindDevid(devid, ids.uy);
      var n := FindDevid(devid, ids.n);
      var rpl := FindDevid(devid, ids.rpl);
      var rplu := FindDevid(devid, ids.rplu);
      if uy {
        mask := Pow2(0);
      } else if n {
        mask := Pow2(1);
      } else if rpl {
        mask := Pow2(0);
        if rplu {
          mask := Or(mask, Pow2(2));
          assert mask == 5;
        }
      }
      MaskFits(pb, mask);
      PlatformAndMask(pb, mask);
      platformMask[pi] := Or(platformMask[pi], mask);
      forall q: nat | q < 56 ensures MaskIndex(q) == pi ==> (IsPlatform(q) <==> q == platform) {
        PlatformBitDistinct(platform, mask, q);
      }
      forall b | 0 <= b < 4
        ensures Bit(platformMask[pi], b) <==> ids.Selects(devid, b)
      {
        OrBit(Pow2(pb), mask, b);
        Pow2Bit(pb, b);
        OrBit(Pow2(0), Pow2(2), b);
        Pow2Bit(0, b); Pow2Bit(1, b); Pow2Bit(2, b); ZeroBit(b);
      }
    }
  }

  lemma ShiftedBitFits(pb: nat)
    requires pb < 32
    ensures Pow2(pb) < 0x1_0000_0000
  {
    WordSizes();
    forall n | n >= 32 ensures !Bit(Pow2(pb), n) { Pow2Bit(pb, n); }
    FitsIfHighBitsClear(Pow2(pb), 32);
  }

  lemma PlatformAndMask(pb: nat, mask: nat)
    requires 4 <= pb && mask < 16
    ensures Or(Pow2(pb), mask) == Pow2(pb) + mask
  {
    Pow2Sum(4, pb - 4);
    assert Pow2(4) == 16;
    OrAbove(Pow2(pb - 4), 4, mask);
  }

  lemma MaskFits(pb: nat, mask: nat)
    requires pb < 32 && mask < 16
    ensures Or(Pow2(pb), mask) < 0x1_0000_0000
  {
    WordSizes();
    forall n | n >= 32 ensures !Bit(Or(Pow2(pb), mask), n) {
      OrBit(Pow2(pb), mask, n);
      Pow2Bit(pb, n);
      HighBitsClear(mask, 4, n);
    }
    FitsIfHighBitsClear(Or(Pow2(pb), mask), 32);
  }
}
