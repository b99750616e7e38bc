/** The machine arithmetic of the C and C++ sources: fixed-width conversions and division that
    truncates toward zero. */
module CArith {

  type uint8 = x: int | 0 <= x < 0x100
  type uint32 = x: int | 0 <= x < 0x1_0000_0000
  type int8 = x: int | -0x80 <= x < 0x80
  type int32 = x: int | -0x8000_0000 <= x < 0x8000_0000
  type int64 = x: int | -0x8000_0000_0000_0000 <= x < 0x8000_0000_0000_0000

  /** Conversion of any integer to an unsigned octet. */
  function ToUint8(x: int): (r: uint8) {
    x % 0x100
  }

  /** Conversion to a signed octet: the two's complement reading of the low eight bits. */
  function ToInt8(x: int): (r: int8)
    ensures -0x80 <= x < 0x80 ==> r == x
  {
    (x + 0x80) % 0x100 - 0x80
  }

  lemma WrapPeriod(a: int, k: int)
    ensures ToInt8(a + 0x100 * k) == ToInt8(a)
  {
  }

  /** Wrapping early or late makes no difference to a sum. */
  lemma WrapAdd(a: int, b: int)
    ensures ToInt8(ToInt8(a) + b) == ToInt8(a + b)
  {
    var q := (a + 0x80) / 0x100;
    assert ToInt8(a) == a - 0x100 * q;
    WrapPeriod(a + b, -q);
  }

  /** The signed reading of a difference of two octets. */
  lemma SignedDifference(d: int)
    requires -256 < d < 256
    ensures ToInt8(d) == if d < -128 then d + 256 else if d >= 128 then d - 256 else d
  {
  }

  lemma ToUint8Cases(d: int)
    requires -256 <= d < 512
    ensures ToUint8(d) == if d < 0 then d + 256 else if d >= 256 then d - 256 else d
  {
  }

  function ToUint32(x: int): (r: uint32) {
    x % 0x1_0000_0000
  }

  function ToInt32(x: int): (r: int32)
    ensures -0x8000_0000 <= x < 0x8000_0000 ==> r == x
  {
    (x + 0x8000_0000) % 0x1_0000_0000 - 0x8000_0000
  }

  function ToInt64(x: int): (r: int64)
    ensures -0x8000_0000_0000_0000 <= x < 0x8000_0000_0000_0000 ==> r == x
  {
    (x + 0x8000_0000_0000_0000) % 0x1_0000_0000_0000_0000 - 0x8000_0000_0000_0000
  }

  /** Division that drops the fraction, whatever the sign of the dividend. */
  function TruncDiv(a: int, n: int): (q: int)
    requires n > 0
  {
    if a >= 0 then a / n else -((-a) / n)
  }

  /** The quotient keeps the sign, and its multiple is the nearest one to the dividend on the side of zero. */
  lemma TruncDivMeaning(a: int, n: int)
    requires n > 0
    ensures var m := n * TruncDiv(a, n);
      if a >= 0 then 0 <= m <= a < m + n else m - n < a <= m <= 0
    ensures a >= 0 ==> TruncDiv(a, n) >= 0
    ensures a <= 0 ==> TruncDiv(a, n) <= 0
  {
    if a >= 0 {
      FloorMeaning(a, n);
    } else {
      FloorMeaning(-a, n);
      assert n * -((-a) / n) == -(n * ((-a) / n));
    }
  }

  lemma FloorMeaning(a: int, n: int)
    requires n > 0 && a >= 0
    ensures 0 <= a / n && 0 <= n * (a / n) <= a < n * (a / n) + n
  {
  }

  lemma FloorBetween(a: int, n: int, lo: int, hi: int)
    requires n > 0 && a >= 0 && n * lo <= a <= n * hi
    ensures lo <= a / n <= hi
  {
    var q := a / n;
    if q > hi { MulMono(n, hi, q - 1); }
    if q < lo { MulMono(n, q + 1, lo); }
  }

  /** A truncated quotient stays within any integer bounds that the exact quotient respects. */
  lemma TruncDivBetween(a: int, n: int, lo: int, hi: int)
    requires n > 0
    requires n * lo <= a <= n * hi
    ensures lo <= TruncDiv(a, n) <= hi
  {
    if a >= 0 {
      FloorBetween(a, n, lo, hi);
    } else {
      assert n * -hi == -(n * hi) && n * -lo == -(n * lo);
      FloorBetween(-a, n, -hi, -lo);
    }
  }

  lemma MulMono(n: int, a: int, b: int)
    requires n >= 0 && a <= b
    ensures n * a <= n * b
  {
    assert n * (b - a) >= 0;
  }
}
