/** Shared vocabulary of the model: optional values, the fixed-width integer
    types of the C++ and Java sources, and decimal digit strings as produced by
    std::to_string. */
module Common {

  datatype Option<+T> = None | Some(value: T)

  /** uint8_t */
  type uint8 = x: int | 0 <= x < 0x100
  /** uint16_t */
  type uint16 = x: int | 0 <= x < 0x1_0000
  /** uint32_t */
  type uint32 = x: int | 0 <= x < 0x1_0000_0000
  /** int32_t, and Java's int */
  type int32 = x: int | -0x8000_0000 <= x < 0x8000_0000

  // Big-endian (most significant byte first) multi-byte values.

  function BigEndian16(b0: uint8, b1: uint8): (w: uint16) {
    b0 * 0x100 + b1
  }

  function BigEndian24(b0: uint8, b1: uint8, b2: uint8): (w: nat)
    ensures w < 0x100_0000
  {
    b0 * 0x1_0000 + b1 * 0x100 + b2
  }

  function BigEndian32(b0: uint8, b1: uint8, b2: uint8, b3: uint8): (w: uint32) {
    b0 * 0x100_0000 + b1 * 0x1_0000 + b2 * 0x100 + b3
  }

  /** Reinterprets a 32-bit pattern as a two's-complement signed value. */
  function SignedOf32(w: uint32): (x: int32)
    ensures x >= 0 <==> w < 0x8000_0000
  {
    if w < 0x8000_0000 then w else w - 0x1_0000_0000
  }

  /** The 32-bit two's-complement pattern of a signed value. */
  function PatternOf32(x: int32): (w: uint32)
    ensures SignedOf32(w) == x
  {
    if x >= 0 then x else x + 0x1_0000_0000
  }

  /** A position's degrees, minutes and seconds as decimal degrees, negated
      when its hemisphere byte is not zero (south or west). */
  function DecimalDegrees(degrees: int, minutes: int, seconds: int, hemisphere: int): real {
    var magnitude := degrees as real + minutes as real / 60.0 + seconds as real / 3600.0;
    if hemisphere != 0 then -magnitude else magnitude
  }

  /** Byte k of w, counting from the least significant byte. */
  function ByteOf(w: nat, k: nat): uint8 {
    (w / Pow256(k)) % 0x100
  }

  function Pow256(k: nat): (p: nat)
    ensures p > 0
  {
    if k == 0 then 1 else 0x100 * Pow256(k - 1)
  }

  lemma {:induction false} MulAtLeast(k: int, d: int)
    requires k >= 1 && d > 0
    ensures k * d >= d
  {
    if k > 1 {
      MulAtLeast(k - 1, d);
      assert k * d == (k - 1) * d + d;
    }
  }

  /** Quotient and remainder are determined by the decomposition hi * d + lo. */
  lemma DivModOf(hi: nat, lo: nat, d: nat)
    requires d > 0 && lo < d
    ensures (hi * d + lo) / d == hi && (hi * d + lo) % d == lo
  {
    var x := hi * d + lo;
    var q, r := x / d, x % d;
    assert x == q * d + r;
    var k := hi - q;
    assert k * d == r - lo;
    if k > 0 {
      MulAtLeast(k, d);
    } else if k < 0 {
      MulAtLeast(-k, d);
    }
  }

  lemma BigEndian16Bytes(b0: uint8, b1: uint8)
    ensures ByteOf(BigEndian16(b0, b1), 1) == b0 && ByteOf(BigEndian16(b0, b1), 0) == b1
  {
    DivModOf(b0, b1, 0x100);
  }

  lemma BigEndian16RoundTrip(w: uint16)
    ensures BigEndian16(ByteOf(w, 1), ByteOf(w, 0)) == w
  {
    var b0, b1 := w / 0x100, w % 0x100;
    assert w == BigEndian16(b0, b1);
    BigEndian16Bytes(b0, b1);
  }

  lemma BigEndian24Bytes(b0: uint8, b1: uint8, b2: uint8)
    ensures var w := BigEndian24(b0, b1, b2);
      ByteOf(w, 2) == b0 && ByteOf(w, 1) == b1 && ByteOf(w, 0) == b2
  {
    var w := BigEndian24(b0, b1, b2);
    assert Pow256(2) == 0x1_0000;
    DivModOf(b0, b1 * 0x100 + b2, 0x1_0000);
    DivModOf(b0 * 0x100 + b1, b2, 0x100);
    assert w == (b0 * 0x100 + b1) * 0x100 + b2;
    DivModOf(b0, b1, 0x100);
  }

  lemma BigEndian24RoundTrip(w: nat)
    requires w < 0x100_0000
    ensures BigEndian24(ByteOf(w, 2), ByteOf(w, 1), ByteOf(w, 0)) == w
  {
    var r := w % 0x1_0000;
    var b0, b1, b2 := w / 0x1_0000, r / 0x100, r % 0x100;
    assert w == BigEndian24(b0, b1, b2);
    BigEndian24Bytes(b0, b1, b2);
  }

  lemma BigEndian32Bytes(b0: uint8, b1: uint8, b2: uint8, b3: uint8)
    ensures var w := BigEndian32(b0, b1, b2, b3);
      ByteOf(w, 3) == b0 && ByteOf(w, 2) == b1 && ByteOf(w, 1) == b2 && ByteOf(w, 0) == b3
  {
    var w := BigEndian32(b0, b1, b2, b3);
    assert Pow256(2) == 0x1_0000;
    assert Pow256(3) == 0x100_0000;
    DivModOf(b0, b1 * 0x1_0000 + b2 * 0x100 + b3, 0x100_0000);
    assert w == (b0 * 0x100 + b1) * 0x1_0000 + (b2 * 0x100 + b3);
    DivModOf(b0 * 0x100 + b1, b2 * 0x100 + b3, 0x1_0000);
    DivModOf(b0, b1, 0x100);
    assert w == ((b0 * 0x100 + b1) * 0x100 + b2) * 0x100 + b3;
    DivModOf((b0 * 0x100 + b1) * 0x100 + b2, b3, 0x100);
    DivModOf(b0 * 0x100 + b1, b2, 0x100);
  }

  lemma BigEndian32RoundTrip(w: uint32)
    ensures BigEndian32(ByteOf(w, 3), ByteOf(w, 2), ByteOf(w, 1), ByteOf(w, 0)) == w
  {
    var r := w % 0x100_0000;
    var r2 := r % 0x1_0000;
    var b0, b1, b2, b3 := w / 0x100_0000, r / 0x1_0000, r2 / 0x100, r2 % 0x100;
    assert w == BigEndian32(b0, b1, b2, b3);
    BigEndian32Bytes(b0, b1, b2, b3);
  }

  predicate IsDecimalDigit(c: char) {
    '0' <= c <= '9'
  }

  function DigitChar(d: nat): (c: char)
    requires d < 10
    ensures IsDecimalDigit(c)
  {
    (('0' as int) + d) as char
  }

  function DigitOf(c: char): (d: nat)
    requires IsDecimalDigit(c)
    ensures d < 10
  {
    (c as int) - ('0' as int)
  }

  predicate AllDecimalDigits(s: string) {
    forall i :: 0 <= i < |s| ==> IsDecimalDigit(s[i])
  }

  /** The decimal rendering of a non-negative integer, as std::to_string
      writes it: at least one digit and no leading zero. */
  function NatToString(n: nat): (s: string)
    ensures |s| > 0 && AllDecimalDigits(s)
    ensures n > 0 ==> s[0] != '0'
    ensures n < 10 <==> |s| == 1
  {
    if n < 10 then [DigitChar(n)] else NatToString(n / 10) + [DigitChar(n % 10)]
  }

  /** The value of a string of decimal digits, most significant first. */
  function DecimalValue(s: string): nat
    requires AllDecimalDigits(s)
  {
    if s == [] then 0 else DecimalValue(s[..|s| - 1]) * 10 + DigitOf(s[|s| - 1])
  }

  /** Reading back a rendered number gives the number. */
  lemma {:induction false} DecimalRoundTrip(n: nat)
    ensures DecimalValue(NatToString(n)) == n
  {
    if n >= 10 {
      var s := NatToString(n);
      assert s[..|s| - 1] == NatToString(n / 10);
      DecimalRoundTrip(n / 10);
    }
  }

  /** Distinct numbers have distinct renderings. */
  lemma NatToStringInjective(m: nat, n: nat)
    requires NatToString(m) == NatToString(n)
    ensures m == n
  {
    DecimalRoundTrip(m);
    DecimalRoundTrip(n);
  }
}
