/** Brightness scaling with rounding (NootedBlue/kern_nblue.cpp), including its 64-bit intermediate results. */
module Scale {
  import opened Words

  /** The conversion of an integer result to uint64_t. */
  function Wrap64(x: int): (r: u64)
    ensures 0 <= x < 0x1_0000_0000_0000_0000 ==> r == x
  {
    x % 0x1_0000_0000_0000_0000
  }

  function Divide64(x: u64, d: u64): (r: u64)
    requires d != 0
  {
    DivisionShrinks(x, d);
    x / d
  }

  lemma DivisionShrinks(x: int, d: int)
    requires 0 <= x && 0 < d
    ensures 0 <= x / d <= x
  {
    var q := x / d;
    assert x == d * q + x % d;
    FactorNotNegative(d, q);
    ProductAtLeastFactor(d, q);
  }

  lemma ProductAtLeastFactor(d: int, q: int)
    requires 1 <= d && 0 <= q
    ensures q <= d * q
  {
  }

  function Clamp(val: u32, lo: u32, hi: u32): u32 {
    if val < lo then lo else if val > hi then hi else val
  }

  /** floor((x * t + s / 2) / s) over unbounded integers: x * t / s rounded to nearest, halves up. */
  ghost function Rounded(x: int, s: int, t: int): int
    requires s > 0
  {
    (x * t + s / 2) / s
  }

  /** What scaling is meant to compute. */
  ghost function Scaled(val: u32, sourceMin: u32, sourceMax: u32, targetMin: u32, targetMax: u32): int
    requires sourceMin < sourceMax
  {
    targetMin as int +
    Rounded(Clamp(val, sourceMin, sourceMax) as int - sourceMin as int,
            sourceMax as int - sourceMin as int, targetMax as int - targetMin as int)
  }

  /**
   The code, with every intermediate value wrapping at 64 bits and the result at 32.  Between properly
   ordered ranges nothing wraps.
   */
  method Scale(val: u32, sourceMin: u32, sourceMax: u32, targetMin: u32, targetMax: u32) returns (r: u32)
    requires sourceMin != sourceMax
    ensures sourceMin < sourceMax && targetMin <= targetMax ==>
              r as int == Scaled(val, sourceMin, sourceMax, targetMin, targetMax)
  {
    var clamped := Clamp(val, sourceMin, sourceMax);
    var sourceRange := Wrap64(sourceMax as int - sourceMin as int);
    var targetRange := Wrap64(targetMax as int - targetMin as int);
    var distance := Wrap64(clamped as int - sourceMin as int);
    ghost var ordered := sourceMin < sourceMax && targetMin <= targetMax;
    if ordered { NoOverflow(distance, sourceRange, targetRange, targetMin); }
    var targetVal := Wrap64(distance as int * targetRange as int);
    targetVal := Divide64(Wrap64(targetVal as int + sourceRange as int / 2), sourceRange);
    targetVal := Wrap64(targetVal as int + targetMin as int);
    r := targetVal % 0x1_0000_0000;
  }

  lemma NoOverflow(x: int, s: int, t: int, targetMin: int)
    requires 0 <= x <= s && 0 < s < 0x1_0000_0000 && 0 <= t && 0 <= targetMin && targetMin + t < 0x1_0000_0000
    ensures 0 <= x * t && x * t + s / 2 < 0x1_0000_0000_0000_0000
    ensures 0 <= Rounded(x, s, t) && Rounded(x, s, t) + targetMin < 0x1_0000_0000
  {
    ProductBound(x, t, 0xFFFF_FFFF);
    RoundedInRange(x, s, t);
  }

  lemma ProductBound(x: int, t: int, b: int)
    requires 0 <= x <= b && 0 <= t <= b
    ensures 0 <= x * t <= b * b
  {
    assert x * t <= b * t;
    assert b * t <= b * b;
  }

  lemma RoundedInRange(x: int, s: int, t: int)
    requires 0 <= x <= s && 0 < s && 0 <= t
    ensures 0 <= Rounded(x, s, t) <= t
  {
    RoundedMonotone(0, x, s, t);
    RoundedMonotone(x, s, s, t);
    RoundedEnds(s, t);
  }

  lemma RoundedEnds(s: int, t: int)
    requires 0 < s && 0 <= t
    ensures Rounded(0, s, t) == 0 && Rounded(s, s, t) == t
  {
    QuotientUnique(s / 2, s, 0);
    QuotientUnique(s * t + s / 2, s, t);
  }

  lemma RoundedMonotone(x: int, y: int, s: int, t: int)
    requires 0 <= x <= y && 0 < s && 0 <= t
    ensures Rounded(x, s, t) <= Rounded(y, s, t)
  {
    assert x * t <= y * t;
    DivisionMonotone(x * t + s / 2, y * t + s / 2, s);
  }

  lemma DivisionMonotone(a: int, b: int, d: int)
    requires 0 <= a <= b && 0 < d
    ensures a / d <= b / d
  {
    var p, q := a / d, b / d;
    assert a == d * p + a % d && b == d * q + b % d;
    assert d * (q - p) == d * q - d * p;
    FactorNotNegative(d, q - p);
  }

  /** Both ends of the source range map to the ends of the target range, and nothing leaves it. */
  lemma ScaledRange(val: u32, sourceMin: u32, sourceMax: u32, targetMin: u32, targetMax: u32)
    requires sourceMin < sourceMax && targetMin <= targetMax
    ensures targetMin <= Scaled(val, sourceMin, sourceMax, targetMin, targetMax) <= targetMax
    ensures val <= sourceMin ==> Scaled(val, sourceMin, sourceMax, targetMin, targetMax) == targetMin
    ensures val >= sourceMax ==> Scaled(val, sourceMin, sourceMax, targetMin, targetMax) == targetMax
  {
    var s, t := sourceMax as int - sourceMin as int, targetMax as int - targetMin as int;
    RoundedInRange(Clamp(val, sourceMin, sourceMax) as int - sourceMin as int, s, t);
    RoundedEnds(s, t);
  }

  lemma ScaledMonotone(v: u32, w: u32, sourceMin: u32, sourceMax: u32, targetMin: u32, targetMax: u32)
    requires sourceMin < sourceMax && targetMin <= targetMax && v <= w
    ensures Scaled(v, sourceMin, sourceMax, targetMin, targetMax) <= Scaled(w, sourceMin, sourceMax, targetMin, targetMax)
  {
    RoundedMonotone(Clamp(v, sourceMin, sourceMax) as int - sourceMin as int,
                    Clamp(w, sourceMin, sourceMax) as int - sourceMin as int,
                    sourceMax as int - sourceMin as int, targetMax as int - targetMin as int);
  }

  /** Inside the source range the result is the integer nearest to the exact ratio, the upper one of two. */
  lemma ScaledNearest(val: u32, sourceMin: u32, sourceMax: u32, targetMin: u32, targetMax: u32)
    requires sourceMin <= val <= sourceMax && sourceMin < sourceMax && targetMin <= targetMax
    ensures var x, s, t := val as int - sourceMin as int,
                           sourceMax as int - sourceMin as int, targetMax as int - targetMin as int;
            var r := Scaled(val, sourceMin, sourceMax, targetMin, targetMax) - targetMin as int;
            -s < 2 * (s * r - x * t) <= s
  {
    RoundedNearest(val as int - sourceMin as int, sourceMax as int - sourceMin as int, targetMax as int - targetMin as int);
  }

  lemma RoundedNearest(x: int, s: int, t: int)
    requires 0 < s && 0 <= x && 0 <= t
    ensures -s < 2 * (s * Rounded(x, s, t) - x * t) <= s
  {
    var n := x * t + s / 2;
    assert n == s * (n / s) + n % s;
  }
}
