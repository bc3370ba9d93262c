/**
 Word-at-a-time bitmap searches (NootedBlue/intel_vbt_defs.h), against the search that looks at one
 bit after another.
 */
module Bitmap {
  import opened Words

  /** The bitmap's bit at position p. */
  predicate BitAt(addr: seq<u64>, p: nat)
    requires p < 64 * |addr|
  {
    Bit(addr[p / 64], p % 64)
  }

  lemma BitAtWord(addr: seq<u64>, w: nat, m: nat)
    requires w < |addr| && m < 64
    ensures BitAt(addr, 64 * w + m) == Bit(addr[w], m)
  {
    assert (64 * w + m) / 64 == w && (64 * w + m) % 64 == m;
  }

  /** The reference search: the first position in [offset, size) whose bit is `want`, else size. */
  ghost function LinearSearch(addr: seq<u64>, size: nat, offset: nat, want: bool): (r: nat)
    requires size <= 64 * |addr|
    ensures r <= size && (offset <= size ==> offset <= r)
    decreases size - offset
  {
    if offset >= size then size
    else if BitAt(addr, offset) == want then offset
    else LinearSearch(addr, size, offset + 1, want)
  }

  lemma {:induction false} SearchSkips(addr: seq<u64>, size: nat, from: nat, to: nat, want: bool)
    requires from <= to <= size <= 64 * |addr|
    requires forall p :: from <= p < to ==> BitAt(addr, p) != want
    ensures LinearSearch(addr, size, from, want) == LinearSearch(addr, size, to, want)
    decreases size - from
  {
    if from < to { SearchSkips(addr, size, from + 1, to, want); }
  }

  lemma SearchFinds(addr: seq<u64>, size: nat, from: nat, to: nat, want: bool)
    requires from <= to <= size <= 64 * |addr|
    requires forall p :: from <= p < to ==> BitAt(addr, p) != want
    requires to == size || BitAt(addr, to) == want
    ensures LinearSearch(addr, size, from, want) == to
  {
    SearchSkips(addr, size, from, to, want);
  }

  lemma {:induction false} SearchResult(addr: seq<u64>, size: nat, offset: nat, want: bool)
    requires size <= 64 * |addr|
    ensures var r := LinearSearch(addr, size, offset, want);
            && (r < size ==> offset <= r && BitAt(addr, r) == want)
            && forall p :: offset <= p < r ==> BitAt(addr, p) != want
    decreases size - offset
  {
    if offset < size && BitAt(addr, offset) != want { SearchResult(addr, size, offset + 1, want); }
  }

  // ---------------------------------------------------------------------------------------------
  // Lowest set bit of a word
  // ---------------------------------------------------------------------------------------------

  /** The low n bits of x are all clear. */
  ghost predicate ClearBelow(x: nat, n: nat) {
    forall m :: 0 <= m < n ==> !Bit(x, m)
  }

  /** `n` is the position of the lowest set bit of x. */
  ghost predicate IsLowestBit(x: nat, n: nat) {
    Bit(x, n) && ClearBelow(x, n)
  }

  lemma AndLowMask(x: nat, k: nat)
    ensures And(x, Pow2(k) - 1) == 0 <==> ClearBelow(x, k)
  {
    var masked := And(x, Pow2(k) - 1);
    forall m: nat ensures Bit(masked, m) <==> Bit(x, m) && m < k { AndBit(x, Pow2(k) - 1, m); LowMaskBit(k, m); }
    if masked == 0 {
      forall m: nat ensures !Bit(masked, m) { ZeroBit(m); }
    } else {
      var m := SomeBitSet(masked);
      assert m < k && Bit(x, m);
    }
  }

  /** Between two steps of the halving search: n low bits are known clear and x0 >> n is left in x. */
  ghost predicate Narrowed(x0: nat, n: nat, x: nat, k: nat) {
    x == Shr(x0, n) && ClearBelow(x0, n) && exists m :: 0 <= m < k && Bit(x, m)
  }

  /** One halving step: drop the low k bits if they are all clear, keep only them otherwise. */
  lemma NarrowStep(x0: nat, n: nat, x: nat, k: nat)
    requires Narrowed(x0, n, x, 2 * k)
    ensures if And(x, Pow2(k) - 1) == 0 then Narrowed(x0, n + k, Shr(x, k), k) else Narrowed(x0, n, x, k)
  {
    AndLowMask(x, k);
    if And(x, Pow2(k) - 1) == 0 {
      ShrShr(x0, n, k);
      forall m | 0 <= m < n + k ensures !Bit(x0, m) { if m >= n { ShrBit(x0, n, m - n); } }
      var m :| 0 <= m < 2 * k && Bit(x, m);
      assert m >= k;
      ShrBit(x, k, m - k);
      assert Bit(Shr(x, k), m - k);
    }
  }

  lemma {:induction false} ShrShr(x: nat, n: nat, k: nat)
    ensures Shr(Shr(x, n), k) == Shr(x, n + k)
    decreases n
  {
    if n == 0 {
    } else {
      ShrShr(x / 2, n - 1, k);
    }
  }

  lemma {:induction false} ShrAtMost(x: nat, k: nat)
    ensures Shr(x, k) <= x
    decreases k
  {
    if k == 0 {
    } else {
      ShrAtMost(x / 2, k - 1);
    }
  }

  /** The word shifted right by `shift` bits. */
  function ShiftedWord(word: u64, shift: nat): u64 {
    ShrAtMost(word, shift);
    Shr(word, shift)
  }

  lemma {:induction false} ShrZero(k: nat)
    ensures Shr(0, k) == 0
  {
    if k == 0 {
    } else {
      ShrZero(k - 1);
    }
  }

  /** One line of the halving search: if the low k bits are clear, count and drop them. */
  method SkipZeros(ghost word: u64, n: nat, x: nat, k: nat) returns (n': nat, x': nat)
    requires if word == 0 then x == 0 else Narrowed(word, n, x, 2 * k)
    ensures if word == 0 then x' == 0 && n' == n + k else Narrowed(word, n', x', k)
    ensures n' <= n + k
  {
    n', x' := n, x;
    if word != 0 { NarrowStep(word, n, x, k); } else { ShrZero(k); }
    if And(x, Pow2(k) - 1) == 0 {
      n' := n + k;
      x' := Shr(x, k);
    }
  }

  /** For a word other than zero, the number of zero bits below its lowest set bit. */
  method CountTrailingZeros(word: u64) returns (n: nat)
    ensures word != 0 ==> n < 64 && IsLowestBit(word, n)
    ensures word == 0 ==> n == 63
  {
    WordSizes();
    if word != 0 {
      ghost var m := SomeBitSet(word);
      if m >= 64 { HighBitsClear(word, 64, m); }
      assert Narrowed(word, 0, word, 64);
    }
    var x: nat;
    n, x := SkipZeros(word, 0, word, 32);
    n, x := SkipZeros(word, n, x, 16);
    n, x := SkipZeros(word, n, x, 8);
    n := CountInByte(word, n, x);
  }

  /** The last three lines of the halving search, once the lowest set bit is known to within a byte. */
  method CountInByte(ghost word: u64, n0: nat, x0: nat) returns (n: nat)
    requires if word == 0 then x0 == 0 else Narrowed(word, n0, x0, 8)
    ensures n <= n0 + 7 && if word == 0 then n == n0 + 7 else IsLowestBit(word, n)
  {
    var x: nat;
    n, x := SkipZeros(word, n0, x0, 4);
    n, x := SkipZeros(word, n, x, 2);
    n, x := SkipZeros(word, n, x, 1);
    ShrBit(word, n, 0);
  }

  // ---------------------------------------------------------------------------------------------
  // find_next_bit and for_each_set_bit
  // ---------------------------------------------------------------------------------------------

  lemma ShiftedBit(addr: seq<u64>, w: nat, shift: nat, m: nat)
    requires w < |addr| && shift < 64
    ensures Bit(Shr(addr[w], shift), m) <==> shift + m < 64 && BitAt(addr, 64 * w + (shift + m))
  {
    ShrBit(addr[w], shift, m);
    if shift + m < 64 {
      BitAtWord(addr, w, shift + m);
    } else {
      WordSizes();
      HighBitsClear(addr[w], 64, shift + m);
    }
  }

  /** What looking at the rest of the first word learns. */
  lemma ScanPartialWord(addr: seq<u64>, size: nat, offset: nat)
    requires offset < size <= 64 * |addr|
    ensures Shr(addr[offset / 64], offset % 64) == 0 ==>
              var next := offset + 64 - offset % 64;
              LinearSearch(addr, size, offset, true) ==
              LinearSearch(addr, size, next, true)
    ensures forall n :: 0 <= n && IsLowestBit(Shr(addr[offset / 64], offset % 64), n) ==>
              LinearSearch(addr, size, offset, true) == if offset + n < size then offset + n else size
  {
    var w, shift := offset / 64, offset % 64;
    if Shr(addr[w], shift) == 0 {
      var next := offset + 64 - shift;
      var end := if next < size then next else size;
      forall p | offset <= p < end ensures !BitAt(addr, p) { ShiftedBit(addr, w, shift, p - offset); ZeroBit(p - offset); }
      SearchSkips(addr, size, offset, end, true);
    }
    forall n | 0 <= n && IsLowestBit(Shr(addr[w], shift), n)
      ensures LinearSearch(addr, size, offset, true) == if offset + n < size then offset + n else size
    {
      ShiftedBit(addr, w, shift, n);
      forall p | offset <= p < offset + n ensures !BitAt(addr, p) { ShiftedBit(addr, w, shift, p - offset); }
      SearchFinds(addr, size, offset, if offset + n < size then offset + n else size, true);
    }
  }

  /** The bits of word w below `size`: the word itself, or its low bits when `size` cuts it. */
  function WordBelow(addr: seq<u64>, w: nat, size: nat): (word: u64)
    requires w < |addr| && 64 * w < size
  {
    AndBound(addr[w], Pow2(size - 64 * w) - 1);
    if 64 * w + 64 > size
    then And(addr[w], Pow2(size - 64 * w) - 1)
    else addr[w]
  }

  lemma WordBelowBit(addr: seq<u64>, w: nat, size: nat, m: nat)
    requires w < |addr| && 64 * w < size
    ensures Bit(WordBelow(addr, w, size), m) <==>
            m < 64 && 64 * w + m < size && BitAt(addr, 64 * w + m)
  {
    if 64 * w + 64 > size {
      AndBit(addr[w], Pow2(size - 64 * w) - 1, m);
      LowMaskBit(size - 64 * w, m);
    }
    if m < 64 {
      BitAtWord(addr, w, m);
    } else {
      WordSizes();
      HighBitsClear(addr[w], 64, m);
    }
  }

  /** What one turn of the word loop learns. */
  lemma ScanWord(addr: seq<u64>, w: nat, size: nat)
    requires w < |addr| && 64 * w < size <= 64 * |addr|
    ensures WordBelow(addr, w, size) == 0 ==>
              var next := 64 * w + 64;
              LinearSearch(addr, size, 64 * w, true) ==
              LinearSearch(addr, size, next, true)
    ensures forall n :: 0 <= n && IsLowestBit(WordBelow(addr, w, size), n) ==>
              LinearSearch(addr, size, 64 * w, true) == 64 * w + n < size
  {
    var base, word := 64 * w, WordBelow(addr, w, size);
    var next := base + 64;
    if word == 0 {
      var end := if next < size then next else size;
      forall p | base <= p < end ensures !BitAt(addr, p) { WordBelowBit(addr, w, size, p - base); ZeroBit(p - base); }
      SearchSkips(addr, size, base, end, true);
    }
    forall n | 0 <= n && IsLowestBit(word, n)
      ensures LinearSearch(addr, size, base, true) == base + n < size
    {
      WordBelowBit(addr, w, size, n);
      forall p | base <= p < base + n ensures !BitAt(addr, p) { WordBelowBit(addr, w, size, p - base); }
      SearchFinds(addr, size, base, base + n, true);
    }
  }

  /** The loop of the search: whole words, starting with word `first`. */
  method FindSetFromWord(addr: seq<u64>, size: nat, first: nat) returns (r: nat)
    requires size <= 64 * |addr|
    ensures r == LinearSearch(addr, size, 64 * first, true)
  {
    var i := 64 * first;
    ghost var w := first;
    while i < size
      invariant i == 64 * w
      invariant LinearSearch(addr, size, 64 * first, true) == LinearSearch(addr, size, 64 * w, true)
    {
      assert i / 64 == w;
      var word := WordBelow(addr, i / 64, size);
      ScanWord(addr, w, size);
      if word != 0 {
        var n := CountTrailingZeros(word);
        return i + n;
      }
      i, w := i + 64, w + 1;
    }
    return size;
  }

  /**
   The first set bit at or after `offset`.  From the middle of a word the result may run past `size`;
   cut off at `size` it is always the answer of the bit-by-bit search.
   */
  method FindNextBit(addr: seq<u64>, size: nat, offset: nat) returns (r: nat)
    requires size <= 64 * |addr|
    ensures (if r < size then r else size) == LinearSearch(addr, size, offset, true)
  {
    if offset >= size {
      return size;
    }
    var word, wordOffset := offset / 64, offset % 64;
    if wordOffset == 0 {
      r := FindSetFromWord(addr, size, word);
      return;
    }
    var mask := ShiftedWord(addr[word], wordOffset);
    ScanPartialWord(addr, size, offset);
    if mask != 0 {
      var n := CountTrailingZeros(mask);
      return offset + n;
    }
    r := FindSetFromWord(addr, size, word + 1);
  }

  /** for_each_set_bit: the positions at which its body runs, in the order it runs. */
  method ForEachSetBit(addr: seq<u64>, size: nat) returns (visited: seq<nat>)
    requires size <= 64 * |addr|
    ensures forall p :: p in visited <==> 0 <= p < size && BitAt(addr, p)
    ensures forall i, j :: 0 <= i < j < |visited| ==> visited[i] < visited[j]
  {
    visited := [];
    var bit := 0;
    while true
      invariant forall p :: p in visited <==> 0 <= p < size && p < bit && BitAt(addr, p)
      invariant forall i :: 0 <= i < |visited| ==> visited[i] < bit
      invariant forall i, j :: 0 <= i < j < |visited| ==> visited[i] < visited[j]
      decreases size - bit
    {
      SearchResult(addr, size, bit, true);
      bit := FindNextBit(addr, size, bit);
      if bit >= size {
        break;
      }
      visited := visited + [bit];
      bit := bit + 1;
    }
  }

  // ---------------------------------------------------------------------------------------------
  // find_next_zero_bit
  // ---------------------------------------------------------------------------------------------

  /**
   What find_next_zero_bit returns.  From a word boundary it is the bit-by-bit search.  From inside a
   word it looks at the rest of that word only, and reports the position it finds less offset % 64.
   */
  ghost function ZeroSearch(addr: seq<u64>, size: nat, offset: nat): nat
    requires size <= 64 * |addr|
  {
    if offset >= size then size
    else if offset % 64 == 0 then LinearSearch(addr, size, offset, false)
    else
      var found := LinearSearch(addr, offset + 64 - offset % 64, offset, false) - offset % 64;
      if found < size then found else size
  }

  /** The position of the lowest set bit, found by shifting. */
  method ShiftToFirstSet(val: u64) returns (bit: nat)
    requires val != 0
    ensures IsLowestBit(val, bit)
  {
    bit := 0;
    var v: nat := val;
    while And(v, 1) == 0
      invariant v != 0 && v == Shr(val, bit) && ClearBelow(val, bit)
      decreases v
    {
      AndLowMask(v, 1);
      assert !Bit(v, 0);
      ShrBit(val, bit, 0);
      ShrShr(val, bit, 1);
      v := Shr(v, 1);
      bit := bit + 1;
    }
    AndLowMask(v, 1);
    ShrBit(val, bit, 0);
  }

  /** ~x for a 64-bit word. */
  function Not64(x: u64): u64 {
    0xFFFF_FFFF_FFFF_FFFF - x
  }

  /** The bits of ~(word >> shift): the word's clear bits from `shift` on, then ones. */
  lemma ComplementBit(addr: seq<u64>, w: nat, shift: nat, m: nat)
    requires w < |addr| && shift < 64
    ensures Bit(Not64(ShiftedWord(addr[w], shift)), m) <==>
            m < 64 && (shift + m >= 64 || !BitAt(addr, 64 * w + (shift + m)))
  {
    WordSizes();
    NotBit(ShiftedWord(addr[w], shift), 64, m);
    ShrBit(addr[w], shift, m);
    if shift + m < 64 {
      BitAtWord(addr, w, shift + m);
    } else {
      HighBitsClear(addr[w], 64, shift + m);
    }
  }

  /** The lowest set bit of ~(word >> shift) is the first clear bit of the word from `shift` on. */
  lemma ClearBitInWord(addr: seq<u64>, w: nat, shift: nat, n: nat)
    requires w < |addr| && shift < 64 && IsLowestBit(Not64(ShiftedWord(addr[w], shift)), n)
    ensures LinearSearch(addr, 64 * w + 64, 64 * w + shift, false) == 64 * w + shift + n
  {
    var from := 64 * w + shift;
    ComplementBit(addr, w, shift, n);
    if shift > 0 { ComplementBit(addr, w, shift, 64 - shift); }
    forall p | from <= p < from + n ensures BitAt(addr, p) { ComplementBit(addr, w, shift, p - from); }
    SearchFinds(addr, 64 * w + 64, from, from + n, false);
  }

  /** A search that ends inside a prefix is the search of the prefix. */
  lemma {:induction false} SearchPrefix(addr: seq<u64>, small: nat, size: nat, offset: nat, want: bool)
    requires offset <= small <= 64 * |addr| && size <= 64 * |addr|
    requires LinearSearch(addr, small, offset, want) < small
    ensures LinearSearch(addr, size, offset, want) ==
            var r := LinearSearch(addr, small, offset, want);
            if r < size then r else size
    decreases size - offset
  {
    if offset < size && BitAt(addr, offset) != want { SearchPrefix(addr, small, size, offset + 1, want); }
  }

  /** What looking at the whole of word w learns about clear bits. */
  lemma ScanZeroWord(addr: seq<u64>, w: nat, size: nat)
    requires w < |addr| && 64 * w < size <= 64 * |addr|
    ensures Not64(addr[w]) == 0 ==>
              LinearSearch(addr, size, 64 * w, false) ==
              LinearSearch(addr, size, 64 * w + 64, false)
    ensures forall n :: 0 <= n && IsLowestBit(Not64(addr[w]), n) ==>
              LinearSearch(addr, size, 64 * w, false) == if 64 * w + n < size then 64 * w + n else size
  {
    if Not64(addr[w]) == 0 {
      var end := if 64 * w + 64 < size then 64 * w + 64 else size;
      forall p | 64 * w <= p < end ensures BitAt(addr, p) {
        ComplementBit(addr, w, 0, p - 64 * w);
        ZeroBit(p - 64 * w);
      }
      SearchSkips(addr, size, 64 * w, end, false);
    }
    forall n | 0 <= n && IsLowestBit(Not64(addr[w]), n)
      ensures LinearSearch(addr, size, 64 * w, false) == if 64 * w + n < size then 64 * w + n else size
    {
      ComplementBit(addr, w, 0, n);
      ClearBitInWord(addr, w, 0, n);
      SearchPrefix(addr, 64 * w + 64, size, 64 * w, false);
    }
  }

  /** From inside a word the shifted complement is never zero, so later words are not looked at. */
  lemma PartialComplementNonZero(addr: seq<u64>, w: nat, shift: nat)
    requires w < |addr| && 0 < shift < 64
    ensures Not64(ShiftedWord(addr[w], shift)) != 0
  {
    ComplementBit(addr, w, shift, 63);
    ZeroBit(63);
  }

  /** The second half of the search: whole words, starting with word `first`. */
  method FindZeroFromWord(addr: seq<u64>, size: nat, first: nat) returns (r: nat)
    requires size <= 64 * |addr|
    ensures r == LinearSearch(addr, size, 64 * first, false)
  {
    var maxWords := (size + 64 - 1) / 64;
    var i := first;
    while i < maxWords
      invariant first <= i
      invariant LinearSearch(addr, size, 64 * first, false) == LinearSearch(addr, size, 64 * i, false)
    {
      var val := Not64(addr[i]);
      ScanZeroWord(addr, i, size);
      if val != 0 {
        var bit := ShiftToFirstSet(val);
        var foundBit := i * 64 + bit;
        return if foundBit < size then foundBit else size;
      }
      i := i + 1;
    }
    return size;
  }

  method FindNextZeroBit(addr: seq<u64>, size: nat, offset: nat) returns (r: nat)
    requires size <= 64 * |addr|
    ensures r == ZeroSearch(addr, size, offset)
  {
    if offset >= size {
      return size;
    }
    var wordOffset, bitOffset := offset / 64, offset % 64;
    var val := Not64(ShiftedWord(addr[wordOffset], bitOffset));
    if bitOffset == 0 { ScanZeroWord(addr, wordOffset, size); } else { PartialComplementNonZero(addr, wordOffset, bitOffset); }
    if val != 0 {
      var bit := ShiftToFirstSet(val);
      ClearBitInWord(addr, wordOffset, bitOffset, bit);
      var foundBit := wordOffset * 64 + bit;
      return if foundBit < size then foundBit else size;
    }
    r := FindZeroFromWord(addr, size, wordOffset + 1);
  }

  /**
   The bits that make find_next_zero_bit right: it starts at a word boundary, or the `size - base` bits
   from `offset` on are all set and lie in the word that starts at `base`.
   */
  ghost predicate ZeroSearchSound(addr: seq<u64>, size: nat, offset: nat)
    requires offset < size <= 64 * |addr|
  {
    var base := offset - offset % 64;
    offset % 64 == 0 ||
    (offset + (size - base) <= base + 64 && forall p :: offset <= p < offset + (size - base) ==> BitAt(addr, p))
  }

  /** When find_next_zero_bit is right. */
  lemma ZeroSearchCorrectIff(addr: seq<u64>, size: nat, offset: nat)
    requires offset < size <= 64 * |addr|
    ensures ZeroSearch(addr, size, offset) == LinearSearch(addr, size, offset, false) <==>
            ZeroSearchSound(addr, size, offset)
  {
    var shift := offset % 64;
    var base := offset - shift;
    if shift != 0 {
      var inWord := LinearSearch(addr, base + 64, offset, false);
      SearchResult(addr, base + 64, offset, false);
      SearchResult(addr, size, offset, false);
      if inWord < base + 64 { SearchPrefix(addr, base + 64, size, offset, false); }
    }
  }

  /** From inside a word, the answer is the first clear position p of the rest of the word, or its end, less offset % 64. */
  lemma ZeroSearchIs(addr: seq<u64>, size: nat, offset: nat, p: nat)
    requires offset < size <= 64 * |addr| && offset % 64 != 0 && offset <= p <= offset - offset % 64 + 64
    requires forall q :: offset <= q < p ==> BitAt(addr, q)
    requires p == offset - offset % 64 + 64 || !BitAt(addr, p)
    ensures ZeroSearch(addr, size, offset) == if p - offset % 64 < size then p - offset % 64 else size
  {
    SearchFinds(addr, offset + 64 - offset % 64, offset, p, false);
  }

  /** In particular, on an empty bitmap it answers 0 when asked for a clear bit from 1 on. */
  lemma ZeroSearchGoesBack()
    ensures ZeroSearch([0], 64, 1) == 0 && LinearSearch([0], 64, 1, false) == 1
  {
    assert !BitAt([0], 1);
  }

  /** From inside a word, a result that is not before the offset and not `size` is a set bit. */
  lemma ForwardLandsOnSetBit(addr: seq<u64>, size: nat, offset: nat)
    requires offset < size <= 64 * |addr| && offset % 64 != 0
    requires offset <= ZeroSearch(addr, size, offset) < size
    ensures BitAt(addr, ZeroSearch(addr, size, offset))
  {
    SearchResult(addr, offset + 64 - offset % 64, offset, false);
  }

  // ---------------------------------------------------------------------------------------------
  // for_each_clear_bit
  // ---------------------------------------------------------------------------------------------

  /**
   Where a loop is after n turns that starts with a search from 0 and each turn searches from the
   position behind the last one.
   */
  ghost function Position(search: nat -> nat, n: nat): nat {
    search(if n == 0 then 0 else Position(search, n - 1) + 1)
  }

  /** Such a loop ends at `size`, and `visited` are the positions below `size` at which its body has run. */
  ghost predicate IsRun(search: nat -> nat, size: nat, visited: seq<nat>) {
    && (forall n :: 0 <= n < |visited| ==> visited[n] == Position(search, n) < size)
    && Position(search, |visited|) >= size
  }

  /** find_next_zero_bit on a given bitmap. */
  ghost function ZeroSearcher(addr: seq<u64>, size: nat): nat -> nat
    requires size <= 64 * |addr|
  {
    offset => ZeroSearch(addr, size, offset)
  }

  /** Exactly the clear positions below `size`, once each, increasing. */
  ghost predicate IsClearList(addr: seq<u64>, size: nat, positions: seq<nat>)
    requires size <= 64 * |addr|
  {
    (forall p :: p in positions <==> 0 <= p < size && !BitAt(addr, p)) && Increasing(positions)
  }

  ghost predicate Increasing(positions: seq<nat>) {
    forall i, j :: 0 <= i < j < |positions| ==> positions[i] < positions[j]
  }

  /** What for_each_clear_bit is for: it ends, having run its body at the clear positions below `size`. */
  ghost predicate VisitsClearBits(addr: seq<u64>, size: nat)
    requires size <= 64 * |addr|
  {
    exists visited :: IsRun(ZeroSearcher(addr, size), size, visited) && IsClearList(addr, size, visited)
  }

  lemma {:induction false} ClearListExists(addr: seq<u64>, size: nat) returns (positions: seq<nat>)
    requires size <= 64 * |addr|
    ensures IsClearList(addr, size, positions)
    decreases size
  {
    positions := [];
    if size == 0 {
    } else {
      positions := ClearListExists(addr, size - 1);
      assert forall i :: 0 <= i < |positions| ==> positions[i] in positions;
      if !BitAt(addr, size - 1) { positions := positions + [size - 1]; }
    }
  }

  /** Turn n of a run over `positions` searches from here ... */
  ghost function SearchedFrom(positions: seq<nat>, n: nat): nat
    requires n <= |positions|
  {
    if n == 0 then 0 else positions[n - 1] + 1
  }

  /** ... and has to arrive here. */
  ghost function ArrivesAt(positions: seq<nat>, size: nat, n: nat): nat
    requires n <= |positions|
  {
    if n < |positions| then positions[n] else size
  }

  /** A loop runs over increasing positions exactly when each of its searches leads from one to the next. */
  lemma RunIff(search: nat -> nat, size: nat, positions: seq<nat>)
    requires (forall i :: 0 <= i < |positions| ==> positions[i] < size) && forall o :: search(o) <= size
    ensures IsRun(search, size, positions) <==>
            forall n :: 0 <= n <= |positions| ==> search(SearchedFrom(positions, n)) == ArrivesAt(positions, size, n)
  {
    if IsRun(search, size, positions) {
      forall n | 0 <= n <= |positions| ensures search(SearchedFrom(positions, n)) == ArrivesAt(positions, size, n) {
        assert n > 0 ==> positions[n - 1] == Position(search, n - 1);
        assert Position(search, n) == search(SearchedFrom(positions, n));
      }
    }
    if forall n :: 0 <= n <= |positions| ==> search(SearchedFrom(positions, n)) == ArrivesAt(positions, size, n) {
      forall n | 0 <= n <= |positions| ensures Position(search, n) == ArrivesAt(positions, size, n) {
        PositionFollows(search, size, positions, n);
      }
    }
  }

  lemma {:induction false} PositionFollows(search: nat -> nat, size: nat, positions: seq<nat>, n: nat)
    requires n <= |positions|
    requires forall k :: 0 <= k <= |positions| ==> search(SearchedFrom(positions, k)) == ArrivesAt(positions, size, k)
    ensures Position(search, n) == ArrivesAt(positions, size, n)
    decreases n
  {
    if n == 0 {
    } else {
      PositionFollows(search, size, positions, n - 1);
    }
    assert Position(search, n) == search(SearchedFrom(positions, n));
  }

  lemma NotInGap(positions: seq<nat>, size: nat, n: nat, p: nat)
    requires Increasing(positions) && n <= |positions|
    requires SearchedFrom(positions, n) <= p < ArrivesAt(positions, size, n)
    ensures p !in positions
  {
    forall i | 0 <= i < |positions| ensures positions[i] != p {
      if i < n { assert positions[i] <= positions[n - 1]; } else { assert positions[n] <= positions[i]; }
    }
  }

  /** The bit-by-bit search leads from one clear position to the next, and from the last one to `size`. */
  lemma NextInClearList(addr: seq<u64>, size: nat, positions: seq<nat>, n: nat)
    requires size <= 64 * |addr| && IsClearList(addr, size, positions) && n <= |positions|
    ensures LinearSearch(addr, size, SearchedFrom(positions, n), false) == ArrivesAt(positions, size, n)
  {
    var from, to := SearchedFrom(positions, n), ArrivesAt(positions, size, n);
    if n > 0 { assert positions[n - 1] in positions; }
    if n < |positions| { assert positions[n] in positions; }
    forall p | from <= p < to ensures BitAt(addr, p) { NotInGap(positions, size, n, p); }
    SearchFinds(addr, size, from, to, false);
  }

  /** Behind every clear bit below `size` the search is right. */
  ghost predicate SoundBehindClearBits(addr: seq<u64>, size: nat)
    requires size <= 64 * |addr|
  {
    forall b :: 0 <= b && b + 1 < size && !BitAt(addr, b) ==> ZeroSearchSound(addr, size, b + 1)
  }

  /** The code's search leads from a clear position to the next exactly when it is right behind it. */
  lemma ZeroSearchLeadsIff(addr: seq<u64>, size: nat, positions: seq<nat>, n: nat)
    requires size <= 64 * |addr| && IsClearList(addr, size, positions) && n <= |positions|
    ensures ZeroSearch(addr, size, SearchedFrom(positions, n)) == ArrivesAt(positions, size, n) <==>
            (SearchedFrom(positions, n) < size ==> ZeroSearchSound(addr, size, SearchedFrom(positions, n)))
  {
    NextInClearList(addr, size, positions, n);
    if SearchedFrom(positions, n) < size { ZeroSearchCorrectIff(addr, size, SearchedFrom(positions, n)); }
  }

  lemma SoundIff(addr: seq<u64>, size: nat, positions: seq<nat>)
    requires size <= 64 * |addr| && IsClearList(addr, size, positions)
    ensures SoundBehindClearBits(addr, size) <==>
            forall n :: 0 <= n <= |positions| ==>
              ZeroSearch(addr, size, SearchedFrom(positions, n)) == ArrivesAt(positions, size, n)
  {
    if SoundBehindClearBits(addr, size) {
      forall n | 0 <= n <= |positions|
        ensures ZeroSearch(addr, size, SearchedFrom(positions, n)) == ArrivesAt(positions, size, n)
      {
        ZeroSearchLeadsIff(addr, size, positions, n);
        if n > 0 { assert positions[n - 1] in positions; }
      }
    }
    if forall n :: 0 <= n <= |positions| ==>
         ZeroSearch(addr, size, SearchedFrom(positions, n)) == ArrivesAt(positions, size, n) {
      forall b | 0 <= b && b + 1 < size && !BitAt(addr, b) ensures ZeroSearchSound(addr, size, b + 1) {
        assert b in positions;
        var n :| 0 <= n < |positions| && positions[n] == b;
        assert SearchedFrom(positions, n + 1) == b + 1;
        ZeroSearchLeadsIff(addr, size, positions, n + 1);
      }
    }
  }

  lemma RunsOverClearListIff(addr: seq<u64>, size: nat, positions: seq<nat>)
    requires size <= 64 * |addr| && IsClearList(addr, size, positions)
    ensures IsRun(ZeroSearcher(addr, size), size, positions) <==> SoundBehindClearBits(addr, size)
  {
    var search := ZeroSearcher(addr, size);
    forall i | 0 <= i < |positions| ensures positions[i] < size { assert positions[i] in positions; }
    forall o: nat ensures search(o) <= size { ZeroSearchAtMost(addr, size, o); }
    RunIff(search, size, positions);
    SoundIff(addr, size, positions);
    forall n | 0 <= n <= |positions|
      ensures search(SearchedFrom(positions, n)) == ZeroSearch(addr, size, SearchedFrom(positions, n))
    {
    }
  }

  lemma ZeroSearchAtMost(addr: seq<u64>, size: nat, offset: nat)
    requires size <= 64 * |addr|
    ensures ZeroSearch(addr, size, offset) <= size
  {
  }

  /**
   for_each_clear_bit ends and runs its body at exactly the clear positions below `size`, once each and
   increasing, if and only if behind every clear bit below `size` the search is right.
   */
  lemma ClearBitLoopCorrectIff(addr: seq<u64>, size: nat)
    requires size <= 64 * |addr|
    ensures VisitsClearBits(addr, size) <==> SoundBehindClearBits(addr, size)
  {
    if VisitsClearBits(addr, size) {
      var visited :| IsRun(ZeroSearcher(addr, size), size, visited) && IsClearList(addr, size, visited);
      RunsOverClearListIff(addr, size, visited);
    }
    if SoundBehindClearBits(addr, size) {
      var positions := ClearListExists(addr, size);
      RunsOverClearListIff(addr, size, positions);
    }
  }

  /**
   A single turn of the loop moves forward exactly when it searches from a word boundary or the next
   (bit + 1) % 64 bits are all set and in the same word; otherwise it moves to `bit` or further back.
   */
  lemma ClearBitLoopAdvancesIff(addr: seq<u64>, size: nat, bit: nat)
    requires bit + 1 < size <= 64 * |addr|
    ensures var from, shift := bit + 1, (bit + 1) % 64;
            ZeroSearch(addr, size, from) > bit <==>
            shift == 0 || (2 * shift <= 64 && forall p :: from <= p < from + shift ==> BitAt(addr, p))
  {
    var from, shift := bit + 1, (bit + 1) % 64;
    if shift != 0 { SearchResult(addr, from + 64 - shift, from, false); }
  }

  /** On the bitmap with bits 0, 1 and 3 set, the loop goes from clear bit 2 back to set bit 1. */
  lemma ClearBitLoopVisitsSetBit()
    ensures var search := ZeroSearcher([0xB], 64);
            Position(search, 0) == 2 && Position(search, 1) == 1 && BitAt([0xB], 1)
    ensures !VisitsClearBits([0xB], 64)
  {
    var addr: seq<u64> := [0xB];
    assert BitAt(addr, 0) && BitAt(addr, 1) && !BitAt(addr, 2) && BitAt(addr, 3) && !BitAt(addr, 4);
    SearchFinds(addr, 64, 0, 2, false);
    SearchFinds(addr, 64, 3, 4, false);
    assert Position(ZeroSearcher(addr, 64), 0) == ZeroSearch(addr, 64, 0);
    assert Position(ZeroSearcher(addr, 64), 1) == ZeroSearch(addr, 64, 3);
    assert !ZeroSearchSound(addr, 64, 3);
    ClearBitLoopCorrectIff(addr, 64);
  }
}
