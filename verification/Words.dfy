/**
 Machine words as natural numbers, with the C bit operators defined bit by bit.

 Every definition recurses by halving, so `Bit` is the only notion of "the n-th bit" in the project
 and each operator is characterised by what it does to `Bit`.
 */
module Words {

  type u8 = x: int | 0 <= x < 0x100
  type u16 = x: int | 0 <= x < 0x1_0000
  type u32 = x: int | 0 <= x < 0x1_0000_0000
  type u64 = x: int | 0 <= x < 0x1_0000_0000_0000_0000

  function Pow2(n: nat): (p: nat)
    ensures p >= 1
  {
    if n == 0 then 1 else 2 * Pow2(n - 1)
  }

  /** The sizes of the machine words. */
  lemma WordSizes()
    ensures Pow2(8) == 0x100 && Pow2(16) == 0x1_0000 && Pow2(32) == 0x1_0000_0000
    ensures Pow2(64) == 0x1_0000_0000_0000_0000
  {
    assert Pow2(4) == 16;
    Pow2Sum(4, 4);
    Pow2Sum(8, 8);
    Pow2Sum(16, 16);
    Pow2Sum(32, 32);
  }

  lemma {:induction false} Pow2Sum(m: nat, n: nat)
    ensures Pow2(m + n) == Pow2(m) * Pow2(n)
    decreases m
  {
    if m == 0 {
    } else {
      Pow2Sum(m - 1, n);
    }
  }

  /** The n-th bit of x. */
  predicate Bit(x: nat, n: nat) {
    if n == 0 then x % 2 == 1 else Bit(x / 2, n - 1)
  }

  /** x & y */
  function And(x: nat, y: nat): nat
    decreases x
  {
    if x == 0 then 0 else 2 * And(x / 2, y / 2) + if x % 2 == 1 && y % 2 == 1 then 1 else 0
  }

  /** x | y */
  function Or(x: nat, y: nat): nat
    decreases x + y
  {
    if x == 0 && y == 0 then 0 else 2 * Or(x / 2, y / 2) + if x % 2 == 1 || y % 2 == 1 then 1 else 0
  }

  /** ~x in a word of w bits */
  function Not(x: nat, w: nat): nat
    requires x < Pow2(w)
  {
    Pow2(w) - 1 - x
  }

  /** x >> k */
  function Shr(x: nat, k: nat): nat {
    if k == 0 then x else Shr(x / 2, k - 1)
  }

  /** x << k, before truncation to the word size */
  function Shl(x: nat, k: nat): nat
    decreases k
  {
    if k == 0 then x else Shl(2 * x, k - 1)
  }

  // ---------------------------------------------------------------------------------------------
  // The operators, bit by bit
  // ---------------------------------------------------------------------------------------------

  lemma {:induction false} ZeroBit(n: nat)
    ensures !Bit(0, n)
  {
    if n == 0 {
    } else {
      ZeroBit(n - 1);
    }
  }

  lemma {:induction false} AndBit(x: nat, y: nat, n: nat)
    ensures Bit(And(x, y), n) <==> Bit(x, n) && Bit(y, n)
    decreases n
  {
    if x == 0 {
      ZeroBit(n);
    } else {
      var half, low := And(x / 2, y / 2), if x % 2 == 1 && y % 2 == 1 then 1 else 0;
      assert And(x, y) == 2 * half + low && And(x, y) / 2 == half && And(x, y) % 2 == low;
      if n > 0 { AndBit(x / 2, y / 2, n - 1); }
    }
  }

  lemma {:induction false} AndBound(x: nat, y: nat)
    ensures And(x, y) <= x
    decreases x
  {
    if x == 0 {
    } else {
      AndBound(x / 2, y / 2);
    }
  }

  lemma {:induction false} OrBit(x: nat, y: nat, n: nat)
    ensures Bit(Or(x, y), n) <==> Bit(x, n) || Bit(y, n)
    decreases n
  {
    if x == 0 && y == 0 {
      ZeroBit(n);
    } else {
      var half, low := Or(x / 2, y / 2), if x % 2 == 1 || y % 2 == 1 then 1 else 0;
      assert Or(x, y) == 2 * half + low && Or(x, y) / 2 == half && Or(x, y) % 2 == low;
      if n > 0 { OrBit(x / 2, y / 2, n - 1); }
    }
  }

  /** Or-ing a multiple of 2^k with a number below 2^k adds them. */
  lemma {:induction false} OrAbove(x: nat, k: nat, y: nat)
    requires y < Pow2(k)
    ensures 0 <= Pow2(k) * x && Or(Pow2(k) * x, y) == Pow2(k) * x + y
    decreases k
  {
    if k == 0 {
      OrZero(x);
    } else {
      OrAbove(x, k - 1, y / 2);
      DoubleProduct(Pow2(k - 1), x);
      var half := Pow2(k - 1) * x;
      assert Pow2(k) * x == 2 * half;
      assert Or(2 * half, y) == 2 * Or(half, y / 2) + y % 2;
    }
  }

  lemma {:induction false} OrZero(x: nat)
    ensures Or(x, 0) == x
  {
    if x == 0 {
    } else {
      OrZero(x / 2);
    }
  }

  lemma {:induction false} NotBit(x: nat, w: nat, n: nat)
    requires x < Pow2(w)
    ensures Bit(Not(x, w), n) <==> n < w && !Bit(x, n)
    decreases w
  {
    if w == 0 {
      ZeroBit(n);
    } else {
      assert Not(x, w) == 2 * Not(x / 2, w - 1) + 1 - x % 2;
      if n > 0 { NotBit(x / 2, w - 1, n - 1); }
    }
  }

  lemma {:induction false} ShrBit(x: nat, k: nat, n: nat)
    ensures Bit(Shr(x, k), n) <==> Bit(x, n + k)
    decreases k
  {
    if k == 0 {
    } else {
      ShrBit(x / 2, k - 1, n);
    }
  }

  lemma {:induction false} ShlBit(x: nat, k: nat, n: nat)
    ensures Bit(Shl(x, k), n) <==> k <= n && Bit(x, n - k)
    decreases k
  {
    if k == 0 {
    } else {
      ShlBit(2 * x, k - 1, n);
      assert (2 * x) % 2 == 0 && 2 * x / 2 == x;
    }
  }

  /** The low k bits, and nothing else: the mask (1 << k) - 1. */
  lemma {:induction false} LowMaskBit(k: nat, n: nat)
    ensures Bit(Pow2(k) - 1, n) <==> n < k
    decreases k
  {
    if k == 0 {
      ZeroBit(n);
    } else if n > 0 {
      assert (Pow2(k) - 1) / 2 == Pow2(k - 1) - 1;
      LowMaskBit(k - 1, n - 1);
    }
  }

  /** A single bit: 1 << k. */
  lemma {:induction false} Pow2Bit(k: nat, n: nat)
    ensures Bit(Pow2(k), n) <==> n == k
    decreases k
  {
    if k == 0 {
      if n > 0 { ZeroBit(n - 1); }
    } else if n > 0 {
      assert Pow2(k) / 2 == Pow2(k - 1);
      Pow2Bit(k - 1, n - 1);
    }
  }

  // ---------------------------------------------------------------------------------------------
  // Words are determined by their bits
  // ---------------------------------------------------------------------------------------------

  /** A number below 2^w has no bit at or above w. */
  lemma {:induction false} HighBitsClear(x: nat, w: nat, n: nat)
    requires x < Pow2(w) && w <= n
    ensures !Bit(x, n)
    decreases n
  {
    if w == 0 { ZeroBit(n); } else { HighBitsClear(x / 2, w - 1, n - 1); }
  }

  /** A number with no bit at or above w is below 2^w. */
  lemma {:induction false} FitsIfHighBitsClear(x: nat, w: nat)
    requires forall n :: n >= w ==> !Bit(x, n)
    ensures x < Pow2(w)
    decreases w, x
  {
    if x == 0 {
    } else {
      forall n: nat | n >= (if w == 0 then 0 else w - 1) ensures !Bit(x / 2, n) { assert !Bit(x, n + 1); }
      if w == 0 {
        assert !Bit(x, 0);
        FitsIfHighBitsClear(x / 2, 0);
      } else {
        FitsIfHighBitsClear(x / 2, w - 1);
      }
    }
  }

  lemma {:induction false} Extensional(x: nat, y: nat)
    requires forall n :: n >= 0 ==> (Bit(x, n) <==> Bit(y, n))
    ensures x == y
    decreases x + y
  {
    if x + y == 0 {
    } else {
      forall n: nat ensures Bit(x / 2, n) <==> Bit(y / 2, n) {
        assert Bit(x, n + 1) <==> Bit(y, n + 1);
      }
      Extensional(x / 2, y / 2);
      assert Bit(x, 0) <==> Bit(y, 0);
    }
  }

  /** A non-zero number has a set bit. */
  lemma SomeBitSet(x: nat) returns (n: nat)
    requires x > 0
    ensures Bit(x, n)
  {
    if x % 2 == 1 {
      n := 0;
    } else {
      n := SomeBitSet(x / 2);
      n := n + 1;
    }
  }

  // ---------------------------------------------------------------------------------------------
  // Shifts as arithmetic
  // ---------------------------------------------------------------------------------------------

  lemma {:induction false} ShrIsDivision(x: nat, k: nat)
    ensures Shr(x, k) == x / Pow2(k)
  {
    ShrBounds(x, k);
    QuotientUnique(x, Pow2(k), Shr(x, k));
  }

  lemma DoubleProduct(a: nat, b: nat)
    ensures 2 * a * b == 2 * (a * b)
  {
  }

  lemma {:induction false} ShrBounds(x: nat, k: nat)
    ensures Pow2(k) * Shr(x, k) <= x < Pow2(k) * Shr(x, k) + Pow2(k)
    decreases k
  {
    if k == 0 {
    } else {
      ShrBounds(x / 2, k - 1);
      DoubleProduct(Pow2(k - 1), Shr(x / 2, k - 1));
    }
  }

  function Quotient(x: nat, d: nat): nat
    requires d != 0
  {
    x / d
  }

  lemma QuotientUnique(x: nat, d: nat, q: nat)
    requires 0 < d && d * q <= x < d * q + d
    ensures x / d == q
  {
    assert d * (q - x / d) == d * q - d * (x / d);
    MultipleBelow(d, q - x / d);
  }

  lemma RemainderUnique(x: nat, d: nat, q: nat, r: nat)
    requires r < d && x == d * q + r
    ensures x % d == r
  {
    QuotientUnique(x, d, q);
  }

  lemma MultipleBelow(d: int, a: int)
    requires -d < d * a < d
    ensures a == 0
  {
  }

  lemma FactorNotNegative(d: int, k: int)
    requires 0 < d && d * k > -d
    ensures k >= 0
  {
  }

  // ---------------------------------------------------------------------------------------------
  // Testing and isolating single bits
  // ---------------------------------------------------------------------------------------------

  /** x & (1 << b) tests bit b. */
  lemma AndSingleBit(x: nat, b: nat)
    ensures And(x, Pow2(b)) != 0 <==> Bit(x, b)
  {
    AndBit(x, Pow2(b), b);
    Pow2Bit(b, b);
    if And(x, Pow2(b)) == 0 {
      ZeroBit(b);
    } else {
      var n := SomeBitSet(And(x, Pow2(b)));
      AndBit(x, Pow2(b), n);
      Pow2Bit(b, n);
    }
  }

  /** The index of the lowest set bit: ffs(x) - 1. */
  function LowestSetBit(x: nat): (n: nat)
    requires x != 0
    ensures Bit(x, n)
  {
    if x % 2 == 1 then 0 else 1 + LowestSetBit(x / 2)
  }

  lemma {:induction false} BitsBelowLowest(x: nat, m: nat)
    requires x != 0 && m < LowestSetBit(x)
    ensures !Bit(x, m)
  {
    if m == 0 {
    } else {
      BitsBelowLowest(x / 2, m - 1);
    }
  }

  /** x & -x in a word of w bits is the lowest set bit on its own. */
  lemma {:induction false} NegationIsolatesLowestBit(x: nat, w: nat)
    requires 0 < x < Pow2(w)
    ensures And(x, Pow2(w) - x) == Pow2(LowestSetBit(x))
    decreases w
  {
    var y, half := Pow2(w) - x, Pow2(w - 1);
    assert Pow2(w) == 2 * half;
    assert And(x, y) == 2 * And(x / 2, y / 2) + x % 2;
    if x % 2 == 1 {
      assert y / 2 == Not(x / 2, w - 1);
      AndComplement(x / 2, w - 1);
    } else {
      assert y / 2 == half - x / 2;
      NegationIsolatesLowestBit(x / 2, w - 1);
    }
  }

  lemma AndComplement(x: nat, w: nat)
    requires x < Pow2(w)
    ensures And(x, Not(x, w)) == 0
  {
    var y := And(x, Not(x, w));
    if y != 0 {
      var n := SomeBitSet(y);
      AndBit(x, Not(x, w), n);
      NotBit(x, w, n);
    }
  }

  // ---------------------------------------------------------------------------------------------
  // Little-endian fields of a byte buffer
  // ---------------------------------------------------------------------------------------------

  function U16At(m: seq<u8>, i: nat): u16
    requires i + 2 <= |m|
  {
    m[i] as int + 0x100 * m[i + 1] as int
  }

  function U32At(m: seq<u8>, i: nat): u32
    requires i + 4 <= |m|
  {
    m[i] as int + 0x100 * m[i + 1] as int + 0x1_0000 * m[i + 2] as int + 0x100_0000 * m[i + 3] as int
  }

  function Le16(x: u16): (b: seq<u8>)
    ensures |b| == 2 && U16At(b, 0) == x
  {
    [x % 0x100, x / 0x100]
  }

  function Le32(x: u32): (b: seq<u8>)
    ensures |b| == 4 && U32At(b, 0) == x
  {
    var y := x / 0x100;
    var z := y / 0x100;
    [x % 0x100, y % 0x100, z % 0x100, z / 0x100]
  }

  /** Writing a word that was read gives back its bytes. */
  lemma BytesOfWord(m: seq<u8>, i: nat)
    requires i + 4 <= |m|
    ensures Le32(U32At(m, i)) == m[i..i + 4]
  {
    var z := m[i + 2] as int + 0x100 * m[i + 3] as int;
    var y := m[i + 1] as int + 0x100 * z;
    LowByte(m[i], y);
    LowByte(m[i + 1], z);
    LowByte(m[i + 2], m[i + 3]);
  }

  lemma LowByte(b: u8, rest: nat)
    ensures (b + 0x100 * rest) % 0x100 == b && (b + 0x100 * rest) / 0x100 == rest
  {
  }

  lemma SliceBehind(head: seq<u8>, tail: seq<u8>, from: nat, to: nat)
    requires from <= to <= |tail|
    ensures (head + tail)[|head| + from..|head| + to] == tail[from..to]
  {
    assert forall k :: 0 <= k < to - from ==> (head + tail)[|head| + from..|head| + to][k] == tail[from..to][k];
  }

  lemma SliceOfSlice(m: seq<u8>, a: nat, b: nat, c: nat, d: nat)
    requires a <= b <= |m| && c <= d <= b - a
    ensures m[a..b][c..d] == m[a + c..a + d]
  {
    assert forall k :: 0 <= k < d - c ==> m[a..b][c..d][k] == m[a + c..a + d][k];
  }
}
