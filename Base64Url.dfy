/** GmailClient::decodeBase64Url (src/GmailClient.cpp): the base64url
    decoder of section 5 of RFC 4648 that turns a Gmail message body back into
    text. A std::string is a sequence of bytes, so input and output are
    seq<uint8>. */
module Base64Url {
  import opened Common

  const MINUS: uint8 := 0x2D
  const PLUS: uint8 := 0x2B
  const UNDERSCORE: uint8 := 0x5F
  const SLASH: uint8 := 0x2F
  const PAD: uint8 := 0x3D

  /** The 64 symbols of the table base64_chars, as bytes: the upper-case
      letters, the lower-case letters, the digits, '+' and '/'. */
  const ALPHABET: seq<uint8> :=
    seq(26, i requires 0 <= i < 26 => 0x41 + i) +
    seq(26, i requires 0 <= i < 26 => 0x61 + i) +
    seq(10, i requires 0 <= i < 10 => 0x30 + i) +
    [PLUS, SLASH]

  /** The value of a byte in the standard alphabet (Table 1 of RFC 4648),
      -1 for every other byte. */
  function SymbolValue(c: uint8): (v: int)
    ensures -1 <= v < 64
  {
    if 0x41 <= c <= 0x5A then c - 0x41
    else if 0x61 <= c <= 0x7A then c - 0x61 + 26
    else if 0x30 <= c <= 0x39 then c - 0x30 + 52
    else if c == PLUS then 62
    else if c == SLASH then 63
    else -1
  }

  /** The table holds each value at the byte that SymbolValue maps to it. */
  lemma AlphabetMatchesTable()
    ensures |ALPHABET| == 64
    ensures forall i :: 0 <= i < 64 ==> SymbolValue(ALPHABET[i]) == i
  {
  }

  lemma AlphabetInverse(c: uint8)
    requires SymbolValue(c) >= 0
    ensures ALPHABET[SymbolValue(c)] == c
  {
  }

  // ---------------------------------------------------------------------
  // The specification: RFC 4648 groups of four symbols.
  // ---------------------------------------------------------------------

  predicate AllSymbols(v: seq<int>) {
    forall k :: 0 <= k < |v| ==> 0 <= v[k] < 64
  }

  /** The values of the longest prefix of s made of alphabet bytes. */
  function SymbolPrefix(s: seq<uint8>): (v: seq<int>)
    ensures |v| <= |s| && AllSymbols(v)
    ensures forall k :: 0 <= k < |v| ==> v[k] == SymbolValue(s[k])
    ensures |v| < |s| ==> SymbolValue(s[|v|]) < 0
  {
    if s == [] || SymbolValue(s[0]) < 0 then [] else [SymbolValue(s[0])] + SymbolPrefix(s[1..])
  }

  /** Symbols to bytes: four symbols (24 bits) give three bytes; a final
      group of three gives two, of two gives one, of one gives none. */
  function DecodeGroups(v: seq<int>): (b: seq<uint8>)
    requires AllSymbols(v)
    ensures |b| == 6 * |v| / 8
  {
    if |v| == 0 || |v| == 1 then []
    else if |v| == 2 then [v[0] * 4 + v[1] / 16]
    else if |v| == 3 then [v[0] * 4 + v[1] / 16, (v[1] % 16) * 16 + v[2] / 4]
    else ([v[0] * 4 + v[1] / 16, (v[1] % 16) * 16 + v[2] / 4, (v[2] % 4) * 64 + v[3]]
      + DecodeGroups(v[4..]))
  }

  /** The byte, if any, that one more symbol x completes after v. */
  function NextBytes(v: seq<int>, x: int): seq<uint8>
    requires AllSymbols(v) && 0 <= x < 64
  {
    if |v| % 4 == 0 then []
    else if |v| % 4 == 1 then [v[|v| - 1] * 4 + x / 16]
    else if |v| % 4 == 2 then [(v[|v| - 1] % 16) * 16 + x / 4]
    else [(v[|v| - 1] % 4) * 64 + x]
  }

  /** The three bytes of the first full group. */
  function FirstGroup(v: seq<int>): seq<uint8>
    requires AllSymbols(v) && |v| >= 4
  {
    [v[0] * 4 + v[1] / 16, (v[1] % 16) * 16 + v[2] / 4, (v[2] % 4) * 64 + v[3]]
  }

  lemma DecodeGroupsUnfold(v: seq<int>)
    requires AllSymbols(v) && |v| >= 4
    ensures DecodeGroups(v) == FirstGroup(v) + DecodeGroups(v[4..])
  {
  }

  /** Appending a symbol appends the byte, if any, it completes. */
  lemma {:induction false} DecodeGroupsSnoc(v: seq<int>, x: int)
    requires AllSymbols(v) && 0 <= x < 64
    ensures AllSymbols(v + [x])
    ensures DecodeGroups(v + [x]) == DecodeGroups(v) + NextBytes(v, x)
    decreases |v|
  {
    SymbolsSnoc(v, x);
    if |v| >= 4 {
      DecodeGroupsSnoc(v[4..], x);
      SnocAfterGroup(v, x);
    } else {
      DecodeGroupsSnocShort(v, x);
    }
  }

  /** The step of the induction: the first group is unchanged and the
      symbol is appended to the rest. */
  lemma SnocAfterGroup(v: seq<int>, x: int)
    requires AllSymbols(v) && 0 <= x < 64 && |v| >= 4
    requires AllSymbols(v[4..] + [x])
    requires DecodeGroups(v[4..] + [x]) == DecodeGroups(v[4..]) + NextBytes(v[4..], x)
    ensures AllSymbols(v + [x])
    ensures DecodeGroups(v + [x]) == DecodeGroups(v) + NextBytes(v, x)
  {
    SymbolsSnoc(v, x);
    var w := v + [x];
    DecodeGroupsUnfold(w);
    DecodeGroupsUnfold(v);
    assert w[0] == v[0] && w[1] == v[1] && w[2] == v[2] && w[3] == v[3];
    assert FirstGroup(w) == FirstGroup(v);
    assert w[4..] == v[4..] + [x];
    NextBytesTail(v, x);
    ConcatAssoc(FirstGroup(v), DecodeGroups(v[4..]), NextBytes(v, x));
  }

  lemma ConcatAssoc(a: seq<uint8>, b: seq<uint8>, c: seq<uint8>)
    ensures a + (b + c) == (a + b) + c
  {
  }

  lemma NextBytesTail(v: seq<int>, x: int)
    requires AllSymbols(v) && 0 <= x < 64 && |v| >= 4
    ensures AllSymbols(v[4..]) && NextBytes(v[4..], x) == NextBytes(v, x)
  {
    assert |v[4..]| % 4 == |v| % 4;
    if |v| > 4 {
      assert v[4..][|v[4..]| - 1] == v[|v| - 1];
    }
  }

  lemma DecodeGroupsSnocShort(v: seq<int>, x: int)
    requires AllSymbols(v) && 0 <= x < 64 && |v| < 4
    ensures AllSymbols(v + [x])
    ensures DecodeGroups(v + [x]) == DecodeGroups(v) + NextBytes(v, x)
  {
    SymbolsSnoc(v, x);
    if |v| == 0 {
      assert v + [x] == [x];
    } else if |v| == 1 {
      SnocOne(v, x);
    } else if |v| == 2 {
      SnocTwo(v, x);
    } else {
      SnocThree(v, x);
    }
  }

  lemma SnocOne(v: seq<int>, x: int)
    requires AllSymbols(v) && 0 <= x < 64 && |v| == 1
    ensures AllSymbols(v + [x]) && DecodeGroups(v + [x]) == DecodeGroups(v) + NextBytes(v, x)
  {
    SymbolsSnoc(v, x);
    var a := v[0];
    assert v + [x] == [a, x];
    DecodeTwo(a, x);
    NextBytesShort(v, x);
    assert [] + [a * 4 + x / 16] == [a * 4 + x / 16];
  }

  lemma SnocTwo(v: seq<int>, x: int)
    requires AllSymbols(v) && 0 <= x < 64 && |v| == 2
    ensures AllSymbols(v + [x]) && DecodeGroups(v + [x]) == DecodeGroups(v) + NextBytes(v, x)
  {
    SymbolsSnoc(v, x);
    var a, b := v[0], v[1];
    assert v == [a, b];
    assert v + [x] == [a, b, x];
    var y0 := a * 4 + b / 16;
    DecodeTwo(a, b);
    DecodeThree(a, b, x);
    NextBytesShort(v, x);
    assert [y0] + [(b % 16) * 16 + x / 4] == [y0, (b % 16) * 16 + x / 4];
  }

  lemma SnocThree(v: seq<int>, x: int)
    requires AllSymbols(v) && 0 <= x < 64 && |v| == 3
    ensures AllSymbols(v + [x]) && DecodeGroups(v + [x]) == DecodeGroups(v) + NextBytes(v, x)
  {
    SymbolsSnoc(v, x);
    var a, b, c := v[0], v[1], v[2];
    assert v == [a, b, c];
    assert v + [x] == [a, b, c, x];
    var y0, y1 := a * 4 + b / 16, (b % 16) * 16 + c / 4;
    DecodeThree(a, b, c);
    DecodeFour(a, b, c, x);
    NextBytesShort(v, x);
    assert [y0, y1] + [(c % 4) * 64 + x] == [y0, y1, (c % 4) * 64 + x];
  }

  lemma SymbolsSnoc(v: seq<int>, x: int)
    requires AllSymbols(v) && 0 <= x < 64
    ensures AllSymbols(v + [x])
  {
  }

  lemma NextBytesShort(v: seq<int>, x: int)
    requires AllSymbols(v) && 0 <= x < 64 && 0 < |v| < 4
    ensures |v| == 1 ==> NextBytes(v, x) == [v[0] * 4 + x / 16]
    ensures |v| == 2 ==> NextBytes(v, x) == [(v[1] % 16) * 16 + x / 4]
    ensures |v| == 3 ==> NextBytes(v, x) == [(v[2] % 4) * 64 + x]
  {
  }

  lemma DecodeTwo(a: int, b: int)
    requires 0 <= a < 64 && 0 <= b < 64
    ensures DecodeGroups([a, b]) == [a * 4 + b / 16]
  {
  }

  lemma DecodeThree(a: int, b: int, c: int)
    requires 0 <= a < 64 && 0 <= b < 64 && 0 <= c < 64
    ensures DecodeGroups([a, b, c]) == [a * 4 + b / 16, (b % 16) * 16 + c / 4]
  {
  }

  lemma DecodeFour(a: int, b: int, c: int, d: int)
    requires 0 <= a < 64 && 0 <= b < 64 && 0 <= c < 64 && 0 <= d < 64
    ensures DecodeGroups([a, b, c, d]) == [a * 4 + b / 16, (b % 16) * 16 + c / 4, (c % 4) * 64 + d]
  {
    assert [a, b, c, d][4..] == [];
  }

  /** What decodeBase64Url returns. */
  function Base64UrlDecoded(encoded: seq<uint8>): seq<uint8> {
    DecodeGroups(SymbolPrefix(UrlToStandard(encoded)))
  }

  /** '-' becomes '+' and '_' becomes '/'; every other byte is kept. */
  function UrlToStandard(s: seq<uint8>): (r: seq<uint8>)
    ensures |r| == |s|
    ensures forall k :: 0 <= k < |s| ==> r[k] == UrlByte(s[k])
  {
    seq(|s|, k requires 0 <= k < |s| => UrlByte(s[k]))
  }

  function UrlByte(c: uint8): uint8 {
    if c == MINUS then PLUS else if c == UNDERSCORE then SLASH else c
  }

  // ---------------------------------------------------------------------
  // Arithmetic of the bit accumulator.
  // ---------------------------------------------------------------------

  const WORD: nat := 0x1_0000_0000

  /** 2^k for the three shifts the accumulator uses. */
  function Shift(k: int): (p: nat)
    ensures p > 0
  {
    if k == 4 then 16 else if k == 2 then 4 else 1
  }

  /** The value of the last two symbols: the low 12 bits of the accumulator. */
  function LastTwo(v: seq<int>): nat
    requires AllSymbols(v)
  {
    if |v| == 0 then 0 else if |v| == 1 then v[0] else v[|v| - 2] * 64 + v[|v| - 1]
  }

  /** The low 12 bits survive the truncation to 32 bits. */
  lemma LowBitsOfWord(x: nat)
    ensures (x % WORD) % 4096 == x % 4096
  {
    var h, r := x / WORD, x % WORD;
    assert x == (h * 0x10_0000 + r / 4096) * 4096 + r % 4096;
    DivModOf(h * 0x10_0000 + r / 4096, r % 4096, 4096);
  }

  /** The low 6 bits of the low 12 bits are the low 6 bits. */
  lemma LowSixOfTwelve(y: nat)
    ensures (y % 4096) % 64 == y % 64
  {
    var h, r := y / 4096, y % 4096;
    assert y == (h * 64 + r / 64) * 64 + r % 64;
    DivModOf(h * 64 + r / 64, r % 64, 64);
  }

  /** Shifting six bits in keeps the previous low six bits next to the new
      symbol. */
  lemma AccumulateLow(val: nat, x: nat)
    requires x < 64
    ensures ((val * 64 + x) % WORD) % 4096 == (val % 64) * 64 + x
  {
    LowBitsOfWord(val * 64 + x);
    var q, r := val / 64, val % 64;
    assert val * 64 + x == q * 4096 + (r * 64 + x);
    DivModOf(q, r * 64 + x, 4096);
  }

  /** The byte taken at the shift depends on the low 12 bits only. */
  lemma ByteFromLowBits(y: nat, k: int)
    requires k == 0 || k == 2 || k == 4
    ensures (y / Shift(k)) % 256 == ((y % 4096) / Shift(k)) % 256
  {
    var q, r := y / 4096, y % 4096;
    assert y == q * 4096 + r;
    if k == 4 {
      LowByteShift4(q, r);
    } else if k == 2 {
      LowByteShift2(q, r);
    } else {
      LowByteShift0(q, r);
    }
  }

  lemma LowByteShift4(q: nat, r: nat)
    requires r < 4096
    ensures ((q * 4096 + r) / 16) % 256 == (r / 16) % 256
  {
    assert q * 4096 + r == (q * 256 + r / 16) * 16 + r % 16;
    DivModOf(q * 256 + r / 16, r % 16, 16);
    DivModOf(q, r / 16, 256);
    DivModOf(0, r / 16, 256);
  }

  lemma LowByteShift2(q: nat, r: nat)
    requires r < 4096
    ensures ((q * 4096 + r) / 4) % 256 == (r / 4) % 256
  {
    assert q * 4096 + r == (q * 1024 + r / 4) * 4 + r % 4;
    DivModOf(q * 1024 + r / 4, r % 4, 4);
    var rp := r / 4;
    assert q * 1024 + rp == (q * 4 + rp / 256) * 256 + rp % 256;
    DivModOf(q * 4 + rp / 256, rp % 256, 256);
  }

  lemma LowByteShift0(q: nat, r: nat)
    requires r < 4096
    ensures ((q * 4096 + r) / 1) % 256 == (r / 1) % 256
  {
    assert q * 4096 + r == (q * 16 + r / 256) * 256 + r % 256;
    DivModOf(q * 16 + r / 256, r % 256, 256);
  }

  /** The byte the decoder pushes is the one the specification adds. */
  lemma PushedByte(v: seq<int>, x: int, low: nat)
    requires AllSymbols(v) && 0 <= x < 64 && |v| > 0 && |v| % 4 != 0
    requires low == v[|v| - 1] * 64 + x
    ensures var k := (6 * (|v| + 1)) % 8;
      NextBytes(v, x) == [(low / Shift(k)) % 256] && (low / Shift(k)) % 256 < 256
  {
    var a := v[|v| - 1];
    BitCountStep(|v|);
    if |v| % 4 == 1 {
      SecondSymbolByte(a, x, low);
    } else if |v| % 4 == 2 {
      ThirdSymbolByte(a, x, low);
    } else {
      FourthSymbolByte(a, x, low);
    }
  }

  /** The byte a second symbol completes: shift by 4. */
  lemma SecondSymbolByte(a: int, x: int, low: nat)
    requires 0 <= a < 64 && 0 <= x < 64 && low == a * 64 + x
    ensures (low / 16) % 256 == a * 4 + x / 16
  {
    assert low == (a * 4 + x / 16) * 16 + x % 16;
    DivModOf(a * 4 + x / 16, x % 16, 16);
  }

  /** The byte a third symbol completes: shift by 2. */
  lemma ThirdSymbolByte(a: int, x: int, low: nat)
    requires 0 <= a < 64 && 0 <= x < 64 && low == a * 64 + x
    ensures (low / 4) % 256 == (a % 16) * 16 + x / 4
  {
    assert low == (a * 16 + x / 4) * 4 + x % 4;
    DivModOf(a * 16 + x / 4, x % 4, 4);
    assert a * 16 + x / 4 == (a / 16) * 256 + ((a % 16) * 16 + x / 4);
    DivModOf(a / 16, (a % 16) * 16 + x / 4, 256);
  }

  /** The byte a fourth symbol completes: no shift. */
  lemma FourthSymbolByte(a: int, x: int, low: nat)
    requires 0 <= a < 64 && 0 <= x < 64 && low == a * 64 + x
    ensures (low / 1) % 256 == (a % 4) * 64 + x
  {
    assert low == (a / 4) * 256 + ((a % 4) * 64 + x);
    DivModOf(a / 4, (a % 4) * 64 + x, 256);
  }

  // ---------------------------------------------------------------------
  // The decoder.
  // ---------------------------------------------------------------------

  /** The in-place std::replace over the whole string. */
  method Replace(s: seq<uint8>, from: uint8, to: uint8) returns (r: seq<uint8>)
    ensures |r| == |s|
    ensures forall k :: 0 <= k < |s| ==> r[k] == (if s[k] == from then to else s[k])
  {
    r := s;
    for k := 0 to |r|
      invariant |r| == |s|
      invariant forall m :: 0 <= m < k ==> r[m] == (if s[m] == from then to else s[m])
      invariant forall m :: k <= m < |s| ==> r[m] == s[m]
    {
      if r[k] == from {
        r := r[k := to];
      }
    }
  }

  /** The lookup table T: -1 everywhere, then T[base64_chars[i]] = i. */
  method BuildTable() returns (table: array<int>)
    ensures fresh(table) && table.Length == 256
    ensures forall c :: 0 <= c < 256 ==> table[c] == SymbolValue(c)
  {
    table := new int[256](_ => -1);
    AlphabetMatchesTable();
    for i := 0 to 64
      invariant forall c :: 0 <= c < 256 ==> table[c] == (if 0 <= SymbolValue(c) < i then SymbolValue(c) else -1)
    {
      forall c | 0 <= c < 256 && SymbolValue(c) == i
        ensures c == ALPHABET[i]
      {
        AlphabetInverse(c);
      }
      table[ALPHABET[i]] := i;
    }
  }

  /** The '=' padding loop: append '=' until the length is a multiple of 4. */
  method PadToQuads(base64: seq<uint8>) returns (padded: seq<uint8>)
    ensures |padded| % 4 == 0 && |base64| <= |padded| < |base64| + 4
    ensures padded[..|base64|] == base64
    ensures forall k :: |base64| <= k < |padded| ==> padded[k] == PAD
  {
    padded := base64;
    while |padded| % 4 != 0
      invariant |base64| <= |padded| <= |base64| + (4 - |base64| % 4) % 4
      invariant padded[..|base64|] == base64
      invariant forall k :: |base64| <= k < |padded| ==> padded[k] == PAD
      decreases |base64| + 4 - |padded|
    {
      assert (padded + [PAD])[..|base64|] == padded[..|base64|];
      padded := padded + [PAD];
    }
  }

  method DecodeBase64Url(encoded: seq<uint8>) returns (decoded: seq<uint8>)
    ensures decoded == Base64UrlDecoded(encoded)
  {
    var base64 := Replace(encoded, MINUS, PLUS);
    base64 := Replace(base64, UNDERSCORE, SLASH);
    assert base64 == UrlToStandard(encoded);
    var padded := PadToQuads(base64);
    PaddingIgnored(base64, padded);
    decoded := DecodePadded(padded);
  }

  /** The table lookup and bit accumulator loop over the padded text. */
  method DecodePadded(padded: seq<uint8>) returns (decoded: seq<uint8>)
    ensures decoded == DecodeGroups(SymbolPrefix(padded))
  {
    var table := BuildTable();
    ghost var symbols := SymbolPrefix(padded);
    decoded := [];
    var val: nat := 0;
    var valb: int := -8;
    var j := 0;
    while j < |padded|
      invariant j <= |symbols| && Accumulated(symbols[..j], val, valb, decoded)
      modifies {}
    {
      var c := padded[j];
      if table[c] == -1 {
        PrefixEnds(padded, j);
        break;
      }
      var x := table[c];
      NextSymbol(padded, j);
      AccumulatorStep(symbols[..j], x, val, valb, decoded);
      val := (val * 64 + x) % WORD;
      valb := valb + 6;
      if valb >= 0 {
        decoded := decoded + [(val / Shift(valb)) % 256];
        valb := valb - 8;
      }
      j := j + 1;
    }
    if j == |padded| {
      PrefixEnds(padded, j);
    }
  }

  /** The symbol at j, when there is one, extends the prefix read so far. */
  lemma NextSymbol(s: seq<uint8>, j: nat)
    requires j <= |SymbolPrefix(s)| && j < |s| && SymbolValue(s[j]) >= 0
    ensures j < |SymbolPrefix(s)|
    ensures SymbolPrefix(s)[..j + 1] == SymbolPrefix(s)[..j] + [SymbolValue(s[j])]
  {
    PrefixSnoc(SymbolPrefix(s), j);
  }

  lemma PrefixSnoc(v: seq<int>, j: nat)
    requires j < |v|
    ensures v[..j + 1] == v[..j] + [v[j]]
  {
  }

  /** Reading stops at the end of the text or at a byte outside the
      alphabet: there the prefix read so far is the whole prefix. */
  lemma PrefixEnds(s: seq<uint8>, j: nat)
    requires j <= |SymbolPrefix(s)| && (j == |s| || (j < |s| && SymbolValue(s[j]) < 0))
    ensures SymbolPrefix(s)[..j] == SymbolPrefix(s)
  {
  }

  /** The state of the decoding loop after the symbols v: valb counts the
      bits not yet taken, minus 8; the low 12 bits of val hold the last two
      symbols; decoded holds the bytes the specification gives for v. */
  ghost predicate Accumulated(v: seq<int>, val: nat, valb: int, decoded: seq<uint8>) {
    && AllSymbols(v)
    && valb == (6 * |v|) % 8 - 8
    && val < WORD && val % 4096 == LastTwo(v)
    && decoded == DecodeGroups(v)
  }

  /** One turn of the decoding loop: shifting symbol x into the accumulator,
      and pushing a byte when the bit count reaches 8, gives the state after
      v + [x]. */
  lemma AccumulatorStep(v: seq<int>, x: int, val: nat, valb: int, decoded: seq<uint8>)
    requires Accumulated(v, val, valb, decoded) && 0 <= x < 64
    ensures var next, k := (val * 64 + x) % WORD, valb + 6;
      if k >= 0 then Accumulated(v + [x], next, k - 8, decoded + [(next / Shift(k)) % 256])
      else Accumulated(v + [x], next, k, decoded)
  {
    SymbolsSnoc(v, x);
    var next := (val * 64 + x) % WORD;
    LowBitsStep(v, x, val);
    BitCountStep(|v|);
    ByteStep(v, x, next);
  }

  lemma LowBitsStep(v: seq<int>, x: int, val: nat)
    requires AllSymbols(v) && 0 <= x < 64 && val % 4096 == LastTwo(v)
    ensures AllSymbols(v + [x]) && ((val * 64 + x) % WORD) % 4096 == LastTwo(v + [x])
  {
    SymbolsSnoc(v, x);
    AccumulateLow(val, x);
    var w := v + [x];
    LowSixOfTwelve(val);
    if |v| > 0 {
      LastTwoLow(v);
      assert w[|w| - 2] == v[|v| - 1] && w[|w| - 1] == x;
    } else {
      assert w == [x];
    }
  }

  /** (6n) mod 8 cycles through 0, 6, 4, 2. */
  lemma BitCountStep(n: nat)
    ensures n % 4 == 0 ==> (6 * n) % 8 == 0 && (6 * (n + 1)) % 8 == 6
    ensures n % 4 == 1 ==> (6 * n) % 8 == 6 && (6 * (n + 1)) % 8 == 4
    ensures n % 4 == 2 ==> (6 * n) % 8 == 4 && (6 * (n + 1)) % 8 == 2
    ensures n % 4 == 3 ==> (6 * n) % 8 == 2 && (6 * (n + 1)) % 8 == 0
  {
    var q, r := n / 4, n % 4;
    SixfoldMod(q, r);
    SixfoldMod(q, r + 1);
  }

  /** Four symbols are 24 bits, a whole number of bytes. */
  lemma SixfoldMod(q: nat, r: nat)
    requires r <= 4
    ensures (24 * q + 6 * r) % 8 == (6 * r) % 8
  {
    DivModOf(3 * q + (6 * r) / 8, (6 * r) % 8, 8);
  }

  lemma ByteStep(v: seq<int>, x: int, next: nat)
    requires AllSymbols(v) && 0 <= x < 64 && AllSymbols(v + [x])
    requires next % 4096 == LastTwo(v + [x])
    ensures |v| % 4 != 0 ==> DecodeGroups(v + [x]) == DecodeGroups(v) + [(next / Shift((6 * (|v| + 1)) % 8)) % 256]
    ensures |v| % 4 == 0 ==> DecodeGroups(v + [x]) == DecodeGroups(v)
  {
    DecodeGroupsSnoc(v, x);
    var w := v + [x];
    if |v| % 4 != 0 {
      var k := (6 * (|v| + 1)) % 8;
      BitCountStep(|v|);
      ByteFromLowBits(next, k);
      assert w[|w| - 2] == v[|v| - 1] && w[|w| - 1] == x;
      PushedByte(v, x, next % 4096);
    } else {
      assert NextBytes(v, x) == [];
      assert DecodeGroups(v) + [] == DecodeGroups(v);
    }
  }

  /** The low six bits of LastTwo are the last symbol. */
  lemma LastTwoLow(v: seq<int>)
    requires AllSymbols(v) && |v| > 0
    ensures LastTwo(v) % 64 == v[|v| - 1]
  {
    if |v| >= 2 {
      DivModOf(v[|v| - 2], v[|v| - 1], 64);
    }
  }

  /** '=' is not a symbol, so the padding never reaches the output. */
  lemma PaddingIgnored(s: seq<uint8>, padded: seq<uint8>)
    requires |s| <= |padded| && padded[..|s|] == s
    requires forall k :: |s| <= k < |padded| ==> padded[k] == PAD
    ensures SymbolPrefix(padded) == SymbolPrefix(s)
  {
    StopsAt(padded, |SymbolPrefix(s)|);
  }

  /** The prefix ends at the first byte outside the alphabet. */
  lemma StopsAt(s: seq<uint8>, n: nat)
    requires n <= |s|
    requires forall k :: 0 <= k < n ==> SymbolValue(s[k]) >= 0
    requires n < |s| ==> SymbolValue(s[n]) < 0
    ensures |SymbolPrefix(s)| == n
    ensures SymbolPrefix(s) == seq(n, k requires 0 <= k < n => SymbolValue(s[k]))
  {
  }

  // ---------------------------------------------------------------------
  // Reference encoder (section 5 of RFC 4648, unpadded) and round trips.
  // ---------------------------------------------------------------------

  /** The url-safe alphabet: '-' and '_' in place of '+' and '/'. */
  function UrlSymbol(x: int): (c: uint8)
    requires 0 <= x < 64
    ensures SymbolValue(UrlByte(c)) == x
  {
    if x < 26 then 0x41 + x
    else if x < 52 then 0x61 + x - 26
    else if x < 62 then 0x30 + x - 52
    else if x == 62 then MINUS
    else UNDERSCORE
  }

  /** Three bytes to four six-bit symbols; a final one byte gives two
      symbols, two bytes give three. */
  function EncodeGroups(b: seq<uint8>): (v: seq<int>)
    ensures AllSymbols(v)
    ensures |v| == (4 * |b| + 2) / 3
  {
    if |b| == 0 then []
    else if |b| == 1 then [b[0] / 4, (b[0] % 4) * 16]
    else if |b| == 2 then [b[0] / 4, (b[0] % 4) * 16 + b[1] / 16, (b[1] % 16) * 4]
    else ([b[0] / 4, (b[0] % 4) * 16 + b[1] / 16, (b[1] % 16) * 4 + b[2] / 64, b[2] % 64]
      + EncodeGroups(b[3..]))
  }

  /** n '=' bytes. */
  function Padding(n: nat): (s: seq<uint8>)
    ensures |s| == n && forall k :: 0 <= k < n ==> s[k] == PAD
  {
    if n == 0 then [] else [PAD] + Padding(n - 1)
  }

  function Base64UrlEncoded(b: seq<uint8>): (s: seq<uint8>)
    ensures |s| == (4 * |b| + 2) / 3
  {
    var v := EncodeGroups(b);
    seq(|v|, k requires 0 <= k < |v| => UrlSymbol(v[k]))
  }

  /** Splitting a byte into its high and low bits and joining them again. */
  lemma Rejoin(a: nat, p: nat, q: nat)
    requires p > 0 && q > 0 && a < p * q
    ensures (a / q) * q + a % q == a && a / q < p
  {
    if a / q >= p {
      MulAtLeast(a / q, q);
      assert (a / q) * q >= p * q by {
        assert (a / q) * q == p * q + (a / q - p) * q;
        if a / q > p { MulAtLeast(a / q - p, q); }
      }
    }
  }

  /** The symbols of one group of three bytes decode to those bytes. */
  lemma GroupRoundTrip(b0: uint8, b1: uint8, b2: uint8)
    ensures var s0, s1, s2, s3 := b0 / 4, (b0 % 4) * 16 + b1 / 16, (b1 % 16) * 4 + b2 / 64, b2 % 64;
      && s0 < 64 && s1 < 64 && s2 < 64
      && s0 * 4 + s1 / 16 == b0
      && (s1 % 16) * 16 + s2 / 4 == b1
      && (s2 % 4) * 64 + s3 == b2
  {
    var s1, s2 := (b0 % 4) * 16 + b1 / 16, (b1 % 16) * 4 + b2 / 64;
    Rejoin(b0, 64, 4);
    Rejoin(b1, 16, 16);
    Rejoin(b2, 4, 64);
    DivModOf(b0 % 4, b1 / 16, 16);
    DivModOf(b1 % 16, b2 / 64, 4);
  }

  /** Decoding the symbols of any byte sequence gives it back. */
  lemma {:induction false} GroupsRoundTrip(b: seq<uint8>)
    ensures DecodeGroups(EncodeGroups(b)) == b
    decreases |b|
  {
    var v := EncodeGroups(b);
    if |b| == 0 {
    } else if |b| == 1 {
      GroupRoundTrip(b[0], 0, 0);
      DecodeTwo(v[0], v[1]);
      assert v == [v[0], v[1]];
    } else if |b| == 2 {
      GroupRoundTrip(b[0], b[1], 0);
      DecodeThree(v[0], v[1], v[2]);
      assert v == [v[0], v[1], v[2]];
    } else {
      GroupRoundTrip(b[0], b[1], b[2]);
      assert v[4..] == EncodeGroups(b[3..]);
      DecodeGroupsUnfold(v);
      GroupsRoundTrip(b[3..]);
      assert b == b[..3] + b[3..];
      assert FirstGroup(v) == b[..3];
    }
  }

  /** The url-safe symbols read back, through the '-'/'_' translation, as
      the symbol values they encode. */
  lemma SymbolsOfEncoded(b: seq<uint8>, pad: nat)
    ensures var s := Base64UrlEncoded(b) + Padding(pad);
      SymbolPrefix(UrlToStandard(s)) == EncodeGroups(b)
  {
    var v := EncodeGroups(b);
    var e := Base64UrlEncoded(b);
    var s := e + Padding(pad);
    var t := UrlToStandard(s);
    forall k | 0 <= k < |v|
      ensures SymbolValue(t[k]) == v[k]
    {
      assert s[k] == e[k] == UrlSymbol(v[k]);
    }
    if |v| < |t| {
      assert s[|v|] == PAD;
    }
    StopsAt(t, |v|);
  }

  /** Decoding a url-safe encoding gives the bytes back, with or without
      '=' padding after it. */
  lemma DecodeEncoded(b: seq<uint8>, pad: nat)
    ensures Base64UrlDecoded(Base64UrlEncoded(b) + Padding(pad)) == b
  {
    SymbolsOfEncoded(b, pad);
    GroupsRoundTrip(b);
  }

  /** The decoded output has floor(6n/8) bytes for n leading symbols. */
  lemma DecodedLength(encoded: seq<uint8>)
    ensures |Base64UrlDecoded(encoded)| == 6 * |SymbolPrefix(UrlToStandard(encoded))| / 8
  {
  }

  /** Decoding stops at the first byte that is not a symbol of either
      alphabet: nothing after it reaches the output. */
  lemma StopsAtNonSymbol(p: seq<uint8>, c: uint8, rest: seq<uint8>)
    requires SymbolValue(UrlByte(c)) < 0
    ensures Base64UrlDecoded(p + [c] + rest) == Base64UrlDecoded(p)
  {
    var s, t := UrlToStandard(p), UrlToStandard(p + [c] + rest);
    var n := |SymbolPrefix(s)|;
    assert forall k :: 0 <= k < |p| ==> t[k] == s[k];
    if n < |s| {
      assert t[n] == s[n];
    } else {
      assert t[n] == UrlByte(c);
    }
    StopsAt(s, n);
    StopsAt(t, n);
    var a, b := SymbolPrefix(s), SymbolPrefix(t);
    assert |a| == |b| == n;
    forall k | 0 <= k < n
      ensures a[k] == b[k]
    {
      assert a[k] == SymbolValue(s[k]) && b[k] == SymbolValue(t[k]);
    }
    assert a == b;
  }

  /** The standard alphabet's '+' and '/' are accepted as well: translating
      first changes nothing. */
  lemma StandardAlphabetAccepted(encoded: seq<uint8>)
    ensures Base64UrlDecoded(UrlToStandard(encoded)) == Base64UrlDecoded(encoded)
  {
    var s := UrlToStandard(encoded);
    assert UrlToStandard(s) == s;
  }
}
