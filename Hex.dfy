/** Decoder::hexStringToBytes (src/Decoder.cpp): keep the hexadecimal digits
    of a string, pair them up high nibble first, drop an unpaired last digit. */
module Hex {
  import opened Common

  /** std::isxdigit in the C locale. */
  predicate IsHexDigit(c: char) {
    '0' <= c <= '9' || 'A' <= c <= 'F' || 'a' <= c <= 'f'
  }

  predicate AllHexDigits(s: string) {
    forall i :: 0 <= i < |s| ==> IsHexDigit(s[i])
  }

  function HexDigitValue(c: char): (v: nat)
    requires IsHexDigit(c)
    ensures v < 16
  {
    if '0' <= c <= '9' then (c as int) - ('0' as int)
    else if 'A' <= c <= 'F' then (c as int) - ('A' as int) + 10
    else (c as int) - ('a' as int) + 10
  }

  /** The hexadecimal digits of s, in order. */
  function CleanHex(s: string): (r: string)
    ensures AllHexDigits(r) && |r| <= |s|
  {
    if s == [] then []
    else CleanHex(s[..|s| - 1]) + (if IsHexDigit(s[|s| - 1]) then [s[|s| - 1]] else [])
  }

  /** The value of the two hex digits a (high nibble) and b. */
  function PairByte(a: char, b: char): uint8
    requires IsHexDigit(a) && IsHexDigit(b)
  {
    16 * HexDigitValue(a) + HexDigitValue(b)
  }

  /** Consecutive digit pairs as bytes; an unpaired last digit is dropped. */
  function PairBytes(d: string): (r: seq<uint8>)
    requires AllHexDigits(d)
    ensures |r| == |d| / 2
    ensures forall i :: 0 <= i < |r| ==> r[i] == PairByte(d[2 * i], d[2 * i + 1])
  {
    if |d| < 2 then [] else [PairByte(d[0], d[1])] + PairBytes(d[2..])
  }

  /** What hexStringToBytes returns for a string. */
  function HexBytes(s: string): seq<uint8> {
    PairBytes(CleanHex(s))
  }

  method HexStringToBytes(hex: string) returns (bytes: seq<uint8>)
    ensures bytes == HexBytes(hex)
  {
    var cleanHex := "";
    for k := 0 to |hex|
      invariant cleanHex == CleanHex(hex[..k])
    {
      assert hex[..k + 1][..k] == hex[..k];
      if IsHexDigit(hex[k]) {
        cleanHex := cleanHex + [hex[k]];
      }
    }
    assert hex[..|hex|] == hex;
    bytes := [];
    var i := 0;
    while i < |cleanHex|
      invariant i % 2 == 0 && i <= |cleanHex| + 1
      invariant |bytes| == (if i <= |cleanHex| then i else |cleanHex|) / 2
      invariant forall m :: 0 <= m < |bytes| ==> bytes[m] == PairByte(cleanHex[2 * m], cleanHex[2 * m + 1])
    {
      if i + 1 < |cleanHex| {
        bytes := bytes + [PairByte(cleanHex[i], cleanHex[i + 1])];
      }
      i := i + 2;
    }
  }

  /** The value of a string of hexadecimal digits, most significant first. */
  function HexValue(d: string): nat
    requires AllHexDigits(d)
  {
    if d == [] then 0 else HexValue(d[..|d| - 1]) * 16 + HexDigitValue(d[|d| - 1])
  }

  /** The two-digit rendering of every byte, upper- or lower-case. */
  function HexRendering(b: seq<uint8>, upper: bool): (s: string)
    ensures AllHexDigits(s) && |s| == 2 * |b|
  {
    if b == [] then [] else [NibbleChar(b[0] / 16, upper), NibbleChar(b[0] % 16, upper)] + HexRendering(b[1..], upper)
  }

  function NibbleChar(v: nat, upper: bool): (c: char)
    requires v < 16
    ensures IsHexDigit(c) && HexDigitValue(c) == v
  {
    if v < 10 then (('0' as int) + v) as char
    else if upper then (('A' as int) + v - 10) as char
    else (('a' as int) + v - 10) as char
  }

  /** A string made of hex digits only is its own clean form. */
  lemma {:induction false} CleanHexOfDigits(s: string)
    requires AllHexDigits(s)
    ensures CleanHex(s) == s
  {
    if s != [] {
      CleanHexOfDigits(s[..|s| - 1]);
    }
  }

  /** Characters that are not hex digits make no difference anywhere. */
  lemma {:induction false} CleanHexConcat(s: string, t: string)
    ensures CleanHex(s + t) == CleanHex(s) + CleanHex(t)
  {
    if t != [] {
      assert (s + t)[..|s + t| - 1] == s + t[..|t| - 1];
      CleanHexConcat(s, t[..|t| - 1]);
    } else {
      assert s + t == s;
    }
  }

  lemma NonHexIgnored(s: string, c: char, t: string)
    requires !IsHexDigit(c)
    ensures HexBytes(s + [c] + t) == HexBytes(s + t)
  {
    CleanHexConcat(s + [c], t);
    CleanHexConcat(s, [c]);
    CleanHexConcat(s, t);
    assert CleanHex([c]) == CleanHex([]) + [];
  }

  /** Decoding the hex rendering of any byte sequence gives it back. */
  lemma HexRoundTrip(b: seq<uint8>, upper: bool)
    ensures HexBytes(HexRendering(b, upper)) == b
  {
    var s := HexRendering(b, upper);
    CleanHexOfDigits(s);
    var r := PairBytes(s);
    forall i | 0 <= i < |b|
      ensures r[i] == b[i]
    {
      RenderingAt(b, upper, i);
    }
  }

  /** A trailing unpaired digit is dropped. */
  lemma OddDigitDropped(b: seq<uint8>, upper: bool, d: char)
    requires IsHexDigit(d)
    ensures HexBytes(HexRendering(b, upper) + [d]) == b
  {
    var s := HexRendering(b, upper);
    CleanHexOfDigits(s + [d]);
    var r := PairBytes(s + [d]);
    forall i | 0 <= i < |b|
      ensures r[i] == b[i]
    {
      RenderingAt(b, upper, i);
    }
  }

  /** Digits 2i and 2i+1 of the rendering are the nibbles of b[i]. */
  lemma {:induction false} RenderingAt(b: seq<uint8>, upper: bool, i: nat)
    requires i < |b|
    ensures var s := HexRendering(b, upper);
      NibbleChar(b[i] / 16, upper) == s[2 * i] && NibbleChar(b[i] % 16, upper) == s[2 * i + 1]
  {
    if i > 0 {
      RenderingAt(b[1..], upper, i - 1);
    }
  }
}
