/** The byte-level helpers and the history navigation of the web dashboard
    (dashboard/dashboard.js). JavaScript strings are sequences of Dafny
    characters; a number produced by parseInt is an integer or NaN. */
module Dashboard {
  import opened Common
  import Config
  import Hex
  import Decoder

  // ---------------------------------------------------------------------
  // Whitespace removal: hexStr.replace(/\s/g, '').
  // ---------------------------------------------------------------------

  /** The class \s of JavaScript regular expressions: the WhiteSpace and
      LineTerminator characters of ECMAScript. */
  predicate IsJsSpace(c: char) {
    c == '\t' || c == '\n' || c == '\U{000B}' || c == '\U{000C}' || c == '\r' || c == ' '
    || c == '\U{00A0}' || c == '\U{1680}' || ('\U{2000}' <= c <= '\U{200A}')
    || c == '\U{2028}' || c == '\U{2029}' || c == '\U{202F}' || c == '\U{205F}'
    || c == '\U{3000}' || c == '\U{FEFF}'
  }

  predicate NoJsSpace(s: string) {
    forall i :: 0 <= i < |s| ==> !IsJsSpace(s[i])
  }

  /** s without its whitespace, the other characters kept in order. */
  function StripSpace(s: string): (r: string)
    ensures NoJsSpace(r) && |r| <= |s|
  {
    if s == [] then []
    else StripSpace(s[..|s| - 1]) + (if IsJsSpace(s[|s| - 1]) then [] else [s[|s| - 1]])
  }

  /** (hexStr || ''): null, undefined and '' all become ''. */
  function Cleaned(hexStr: Option<string>): string {
    match hexStr
    case None => StripSpace("")
    case Some(s) => StripSpace(s)
  }

  lemma {:induction false} StripSpaceConcat(s: string, t: string)
    ensures StripSpace(s + t) == StripSpace(s) + StripSpace(t)
  {
    if t != [] {
      assert (s + t)[..|s + t| - 1] == s + t[..|t| - 1];
      StripSpaceConcat(s, t[..|t| - 1]);
    } else {
      assert s + t == s;
    }
  }

  lemma {:induction false} StripSpaceOfNoSpace(s: string)
    requires NoJsSpace(s)
    ensures StripSpace(s) == s
  {
    if s != [] {
      StripSpaceOfNoSpace(s[..|s| - 1]);
    }
  }

  // ---------------------------------------------------------------------
  // parseInt(s, 16).
  // ---------------------------------------------------------------------

  datatype JsNumber = Num(value: int) | NaN

  /** The longest prefix of s made of hexadecimal digits. */
  function HexDigitPrefix(s: string): (d: string)
    ensures Hex.AllHexDigits(d) && |d| <= |s| && d == s[..|d|]
    ensures |d| < |s| ==> !Hex.IsHexDigit(s[|d|])
  {
    if s == [] || !Hex.IsHexDigit(s[0]) then [] else [s[0]] + HexDigitPrefix(s[1..])
  }

  /** Leading whitespace removed. */
  function TrimStart(s: string): (t: string)
    ensures |t| <= |s| && (t == [] || !IsJsSpace(t[0]))
  {
    if s != [] && IsJsSpace(s[0]) then TrimStart(s[1..]) else s
  }

  /** parseInt with radix 16 (ECMAScript, section 19.2.5): leading
      whitespace, an optional sign, an optional "0x" or "0X", then the
      longest run of hexadecimal digits; no digit at all gives NaN. */
  function ParseIntHex(s: string): JsNumber {
    var t := TrimStart(s);
    var negative := |t| > 0 && t[0] == '-';
    var u := if |t| > 0 && (t[0] == '-' || t[0] == '+') then t[1..] else t;
    var w := if |u| >= 2 && u[0] == '0' && (u[1] == 'x' || u[1] == 'X') then u[2..] else u;
    var d := HexDigitPrefix(w);
    var value: int := if d == [] then 0 else Hex.HexValue(d);
    if d == [] then NaN else Num(if negative then -value else value)
  }

  /** What parseInt gives for every two-character string without leading
      whitespace, case by case. */
  function PairValue(a: char, b: char): JsNumber {
    if Hex.IsHexDigit(a) then
      if a == '0' && (b == 'x' || b == 'X') then NaN
      else if Hex.IsHexDigit(b) then Num(Hex.PairByte(a, b))
      else Num(Hex.HexDigitValue(a))
    else if (a == '+' || a == '-') && Hex.IsHexDigit(b) then
      var value: int := Hex.HexDigitValue(b);
      Num(if a == '-' then -value else value)
    else NaN
  }

  lemma ParsePairCases(a: char, b: char)
    requires !IsJsSpace(a)
    ensures ParseIntHex([a, b]) == PairValue(a, b)
  {
    var s := [a, b];
    assert TrimStart(s) == s;
    if Hex.IsHexDigit(a) && !(a == '0' && (b == 'x' || b == 'X')) {
      assert s[1..] == [b] && [b][1..] == [];
      assert [a][..0] == [];
      if Hex.IsHexDigit(b) {
        assert HexDigitPrefix(s) == s;
        assert s[..1] == [a];
        assert Hex.HexValue([a]) == Hex.HexDigitValue(a);
        assert Hex.HexValue(s) == Hex.HexValue([a]) * 16 + Hex.HexDigitValue(b);
      } else {
        assert HexDigitPrefix([b]) == [];
        assert HexDigitPrefix(s) == [a];
        assert Hex.HexValue([a]) == Hex.HexDigitValue(a);
      }
    } else if a == '0' && (b == 'x' || b == 'X') {
      assert s[2..] == [];
    } else if a == '+' || a == '-' {
      assert s[1..] == [b];
      if Hex.IsHexDigit(b) {
        assert HexDigitPrefix([b]) == [b];
        assert [b][..0] == [];
      }
    }
  }

  // ---------------------------------------------------------------------
  // hexToBytes.
  // ---------------------------------------------------------------------

  /** Consecutive character pairs of clean, each read by parseInt; an odd
      last character is dropped. */
  function PairValues(clean: string): (r: seq<JsNumber>)
    ensures |r| == |clean| / 2
  {
    if |clean| < 2 then [] else [ParseIntHex(clean[..2])] + PairValues(clean[2..])
  }

  lemma {:induction false} PairValuesAt(clean: string, m: nat)
    requires m < |clean| / 2
    ensures PairValues(clean)[m] == ParseIntHex(clean[2 * m..2 * m + 2])
  {
    if m > 0 {
      PairValuesAt(clean[2..], m - 1);
      assert clean[2..][2 * (m - 1)..2 * (m - 1) + 2] == clean[2 * m..2 * m + 2];
    }
  }

  method HexToBytes(hexStr: Option<string>) returns (bytes: seq<JsNumber>)
    ensures bytes == PairValues(Cleaned(hexStr))
  {
    var clean := match hexStr case None => "" case Some(s) => s;
    clean := StripSpace(clean);
    bytes := [];
    var i := 0;
    while i + 1 < |clean|
      invariant i % 2 == 0 && i <= |clean|
      invariant |bytes| == i / 2
      invariant forall m :: 0 <= m < |bytes| ==> bytes[m] == ParseIntHex(clean[2 * m..2 * m + 2])
    {
      bytes := bytes + [ParseIntHex(clean[i..i + 2])];
      i := i + 2;
    }
    var spec := PairValues(clean);
    forall m | 0 <= m < |bytes|
      ensures bytes[m] == spec[m]
    {
      PairValuesAt(clean, m);
    }
  }

  /** On a string of hex digits and whitespace the dashboard reads the same
      bytes as the C++ decoder (Hex.HexBytes). */
  lemma AgreesWithDecoder(s: string)
    requires forall i :: 0 <= i < |s| ==> Hex.IsHexDigit(s[i]) || IsJsSpace(s[i])
    ensures var r := PairValues(Cleaned(Some(s)));
      var b := Hex.HexBytes(s);
      |r| == |b| && forall m :: 0 <= m < |r| ==> r[m] == Num(b[m])
  {
    var clean := StripSpace(s);
    StripIsCleanHex(s);
    var r, b := PairValues(clean), Hex.HexBytes(s);
    forall m | 0 <= m < |r|
      ensures r[m] == Num(b[m])
    {
      PairValuesAt(clean, m);
      var a, c := clean[2 * m], clean[2 * m + 1];
      assert clean[2 * m..2 * m + 2] == [a, c];
      ParsePairCases(a, c);
    }
  }

  lemma {:induction false} StripIsCleanHex(s: string)
    requires forall i :: 0 <= i < |s| ==> Hex.IsHexDigit(s[i]) || IsJsSpace(s[i])
    ensures StripSpace(s) == Hex.CleanHex(s)
  {
    if s != [] {
      StripIsCleanHex(s[..|s| - 1]);
    }
  }

  // ---------------------------------------------------------------------
  // formatHexString.
  // ---------------------------------------------------------------------

  /** toUpperCase on the ASCII letters. */
  function UpperChar(c: char): char {
    if 'a' <= c <= 'z' then ((c as int) - 32) as char else c
  }

  function ToUpper(s: string): (r: string)
    ensures |r| == |s| && forall i :: 0 <= i < |s| ==> r[i] == UpperChar(s[i])
  {
    seq(|s|, i requires 0 <= i < |s| => UpperChar(s[i]))
  }

  /** clean.match(/.{1,2}/g).join(' '): two-character chunks, the last one
      possibly shorter, separated by single spaces. */
  function JoinPairs(c: string): (j: string)
    requires c != []
    ensures |j| == |c| + (|c| + 1) / 2 - 1
  {
    if |c| <= 2 then c else c[..2] + [' '] + JoinPairs(c[2..])
  }

  /** The column of the joined text that character k of the input lands
      in: two characters and a space per pair. */
  function Column(k: nat): (col: nat)
    ensures col % 3 != 2
  {
    3 * (k / 2) + k % 2
  }

  /** Every column that is not a separator holds one input character. */
  lemma ColumnInverse(i: nat)
    requires i % 3 != 2
    ensures Column(2 * (i / 3) + i % 3) == i
  {
    var k := 2 * (i / 3) + i % 3;
    DivModOf(i / 3, i % 3, 2);
  }

  lemma ColumnStep(k: nat)
    requires k >= 2
    ensures Column(k) == 3 + Column(k - 2)
  {
    assert k / 2 == (k - 2) / 2 + 1 && k % 2 == (k - 2) % 2;
  }

  /** Character k of c sits at Column(k) of the joined text. */
  lemma {:induction false} JoinPairsChars(c: string)
    requires c != []
    ensures forall k :: 0 <= k < |c| ==> Column(k) < |JoinPairs(c)| && JoinPairs(c)[Column(k)] == c[k]
  {
    if |c| > 2 {
      JoinPairsChars(c[2..]);
      forall k | 0 <= k < |c|
        ensures Column(k) < |JoinPairs(c)| && JoinPairs(c)[Column(k)] == c[k]
      {
        JoinedAt(c, k);
      }
    }
  }

  /** One step of the induction: the first pair, its space, then the rest
      shifted by three columns. */
  lemma JoinedAt(c: string, k: nat)
    requires 2 < |c| && k < |c|
    requires k >= 2 ==> Column(k - 2) < |JoinPairs(c[2..])| && JoinPairs(c[2..])[Column(k - 2)] == c[2..][k - 2]
    ensures Column(k) < |JoinPairs(c)| && JoinPairs(c)[Column(k)] == c[k]
  {
    var rest := JoinPairs(c[2..]);
    var head := c[..2] + [' '];
    assert JoinPairs(c) == head + rest;
    if k >= 2 {
      ColumnStep(k);
    }
  }

  /** Every third column of the joined text holds a space. */
  lemma {:induction false} JoinPairsSpaces(c: string)
    requires c != []
    ensures forall i :: 0 <= i < |JoinPairs(c)| && i % 3 == 2 ==> JoinPairs(c)[i] == ' '
  {
    if |c| > 2 {
      var rest := JoinPairs(c[2..]);
      var j := JoinPairs(c);
      assert j == c[..2] + [' '] + rest;
      JoinPairsSpaces(c[2..]);
      var head := c[..2] + [' '];
      assert |head| == 3 && head[2] == ' ';
      forall i | 3 <= i < |j| && i % 3 == 2
        ensures j[i] == ' '
      {
        assert j[i] == rest[i - 3] && (i - 3) % 3 == 2;
      }
    }
  }

  /** formatHexString: whitespace removed, pairs joined by spaces and
      upper-cased; '' when nothing is left. */
  function FormatHexString(hexStr: Option<string>): (r: string)
    ensures r == [] <==> Cleaned(hexStr) == []
  {
    var clean := Cleaned(hexStr);
    if clean == [] then [] else ToUpper(JoinPairs(clean))
  }

  /** The shape of the display: character k of the cleaned text, upper-cased,
      at Column(k), and a space in every third column and nowhere else. */
  lemma FormatLayout(hexStr: Option<string>)
    ensures var c, r := Cleaned(hexStr), FormatHexString(hexStr);
      && (c != [] ==> |r| == |c| + (|c| + 1) / 2 - 1)
      && (forall k :: 0 <= k < |c| ==> Column(k) < |r| && r[Column(k)] == UpperChar(c[k]))
      && (forall i :: 0 <= i < |r| ==> (r[i] == ' ' <==> i % 3 == 2))
  {
    var c, r := Cleaned(hexStr), FormatHexString(hexStr);
    if c != [] {
      var j := JoinPairs(c);
      JoinPairsChars(c);
      JoinPairsSpaces(c);
      forall i | 0 <= i < |r| && i % 3 == 2
        ensures r[i] == ' '
      {
        assert j[i] == ' ';
      }
      forall i | 0 <= i < |r| && i % 3 != 2
        ensures r[i] != ' '
      {
        var k := 2 * (i / 3) + i % 3;
        ColumnInverse(i);
        assert k < |c|;
        assert j[i] == c[k];
      }
    }
  }

  lemma {:induction false} StripJoined(c: string)
    requires c != [] && NoJsSpace(c)
    ensures StripSpace(JoinPairs(c)) == c
  {
    if |c| <= 2 {
      StripSpaceOfNoSpace(c);
    } else {
      var rest := JoinPairs(c[2..]);
      StripJoined(c[2..]);
      StripSpaceConcat(c[..2] + [' '], rest);
      StripSpaceConcat(c[..2], [' ']);
      StripSpaceOfNoSpace(c[..2]);
      assert StripSpace([' ']) == StripSpace([]) + [];
      assert c[..2] + c[2..] == c;
    }
  }

  lemma {:induction false} StripUpper(s: string)
    ensures StripSpace(ToUpper(s)) == ToUpper(StripSpace(s))
  {
    if s != [] {
      assert ToUpper(s)[..|s| - 1] == ToUpper(s[..|s| - 1]);
      StripUpper(s[..|s| - 1]);
      var x := s[|s| - 1];
      assert IsJsSpace(UpperChar(x)) == IsJsSpace(x);
      var p := StripSpace(s[..|s| - 1]);
      var t := if IsJsSpace(x) then [] else [x];
      assert ToUpper(p + t) == ToUpper(p) + ToUpper(t);
    }
  }

  /** Upper-casing never changes what parseInt reads from a pair. */
  lemma PairValueUpper(a: char, b: char)
    requires !IsJsSpace(a)
    ensures ParseIntHex([UpperChar(a), UpperChar(b)]) == ParseIntHex([a, b])
  {
    ParsePairCases(a, b);
    ParsePairCases(UpperChar(a), UpperChar(b));
  }

  /** The whitespace-free form of the display is the upper-cased text. */
  lemma FormattedCleans(hexStr: Option<string>)
    ensures Cleaned(Some(FormatHexString(hexStr))) == ToUpper(Cleaned(hexStr))
  {
    var c := Cleaned(hexStr);
    if c != [] {
      StripUpper(JoinPairs(c));
      StripJoined(c);
    } else {
      assert StripSpace([]) == [];
    }
  }

  lemma PairValuesUpper(c: string)
    requires NoJsSpace(c)
    ensures PairValues(ToUpper(c)) == PairValues(c)
  {
    var u := ToUpper(c);
    var pu, pc := PairValues(u), PairValues(c);
    forall m | 0 <= m < |pc|
      ensures pu[m] == pc[m]
    {
      PairValuesAt(u, m);
      PairValuesAt(c, m);
      assert u[2 * m..2 * m + 2] == [UpperChar(c[2 * m]), UpperChar(c[2 * m + 1])];
      assert c[2 * m..2 * m + 2] == [c[2 * m], c[2 * m + 1]];
      PairValueUpper(c[2 * m], c[2 * m + 1]);
    }
  }

  /** Reading the bytes back from the formatted display gives the bytes of
      the original text. */
  lemma ReparseFormatted(hexStr: Option<string>)
    ensures PairValues(Cleaned(Some(FormatHexString(hexStr)))) == PairValues(Cleaned(hexStr))
  {
    FormattedCleans(hexStr);
    PairValuesUpper(Cleaned(hexStr));
  }

  // ---------------------------------------------------------------------
  // BYTE_REGIONS and getByteRegion.
  // ---------------------------------------------------------------------

  /** The css class and the label (here: name) of a region. */
  datatype RegionStyle = RegionStyle(cls: string, name: string)

  datatype ByteRegion = ByteRegion(start: int, end: int, style: RegionStyle)

  const BYTE_REGIONS: seq<ByteRegion> := [
    ByteRegion(0, 1, RegionStyle("hdr", "HEADER")),
    ByteRegion(2, 4, RegionStyle("ser", "SERIAL")),
    ByteRegion(5, 7, RegionStyle("utc", "UTC")),
    ByteRegion(8, 15, RegionStyle("gps", "GPS")),
    ByteRegion(16, 20, RegionStyle("alt", "ALT")),
    ByteRegion(21, 36, RegionStyle("adc", "ADC")),
    ByteRegion(37, 47, RegionStyle("rsv", "RSVD")),
    ByteRegion(48, 49, RegionStyle("mdm", "MODEM"))
  ]

  /** What getByteRegion returns for an index no region contains. */
  const UNKNOWN_REGION := RegionStyle("rsv", "?")

  predicate Contains(r: ByteRegion, index: int) {
    r.start <= index <= r.end
  }

  /** Region k of rs is the first one that contains index. */
  predicate FirstAt(rs: seq<ByteRegion>, index: int, k: int)
    requires 0 <= k < |rs|
  {
    Contains(rs[k], index) && forall m :: 0 <= m < k ==> !Contains(rs[m], index)
  }

  predicate InRegion(k: int, index: int) {
    0 <= k < |BYTE_REGIONS| && Contains(BYTE_REGIONS[k], index)
  }

  /** The style of the first region of rs that contains index. */
  function FirstContaining(rs: seq<ByteRegion>, index: int): (s: RegionStyle)
    ensures (forall k :: 0 <= k < |rs| ==> !Contains(rs[k], index)) ==> s == UNKNOWN_REGION
    ensures forall k :: 0 <= k < |rs| && FirstAt(rs, index, k) ==> s == rs[k].style
  {
    if rs == [] then UNKNOWN_REGION
    else if Contains(rs[0], index) then rs[0].style
    else
      var s := FirstContaining(rs[1..], index);
      assert forall k :: 1 <= k < |rs| ==> rs[k] == rs[1..][k - 1];
      s
  }

  method GetByteRegion(index: int) returns (style: RegionStyle)
    ensures style == FirstContaining(BYTE_REGIONS, index)
  {
    for k := 0 to |BYTE_REGIONS|
      invariant forall m :: 0 <= m < k ==> !Contains(BYTE_REGIONS[m], index)
    {
      var r := BYTE_REGIONS[k];
      if index >= r.start && index <= r.end {
        return r.style;
      }
    }
    return UNKNOWN_REGION;
  }

  /** The regions tile 0..49: every frame index lies in exactly one region,
      and no other index lies in any. */
  lemma RegionsTileFrame(index: int)
    ensures 0 <= index < Config.EXPECTED_PAYLOAD_SIZE <==> exists k :: InRegion(k, index)
    ensures forall k, m :: InRegion(k, index) && InRegion(m, index) ==> k == m
    ensures !(0 <= index < Config.EXPECTED_PAYLOAD_SIZE) ==> FirstContaining(BYTE_REGIONS, index) == UNKNOWN_REGION
  {
    if 0 <= index < Config.EXPECTED_PAYLOAD_SIZE {
      var k := if index <= 1 then 0 else if index <= 4 then 1 else if index <= 7 then 2
        else if index <= 15 then 3 else if index <= 20 then 4 else if index <= 36 then 5
        else if index <= 47 then 6 else 7;
      assert InRegion(k, index);
    }
  }

  /** The dashboard's grouping of a field of the frame layout. */
  function StyleOf(r: Config.Region): RegionStyle {
    match r
    case Header => BYTE_REGIONS[0].style
    case Serial => BYTE_REGIONS[1].style
    case UtcTime => BYTE_REGIONS[2].style
    case Latitude | Longitude => BYTE_REGIONS[3].style
    case Altitude | AltitudeUnits => BYTE_REGIONS[4].style
    case AnalogPort(_) => BYTE_REGIONS[5].style
    case Reserved => BYTE_REGIONS[6].style
    case ModemStatus => BYTE_REGIONS[7].style
  }

  /** The colouring agrees with the decoder's byte layout: every byte gets
      the region of the field the decoder reads it as. */
  lemma RegionsMatchLayout(index: int)
    requires 0 <= index < Config.EXPECTED_PAYLOAD_SIZE
    ensures Config.RegionOf(index).Some?
    ensures FirstContaining(BYTE_REGIONS, index) == StyleOf(Config.RegionOf(index).value)
  {
    var k := if index <= 1 then 0 else if index <= 4 then 1 else if index <= 7 then 2
      else if index <= 15 then 3 else if index <= 20 then 4 else if index <= 36 then 5
      else if index <= 47 then 6 else 7;
    StyleInRegion(index, k);
    FieldInRegion(index, k);
  }

  /** The regions are listed in order, so the one that holds index is the
      first that does. */
  lemma StyleInRegion(index: int, k: int)
    requires InRegion(k, index)
    ensures FirstContaining(BYTE_REGIONS, index) == BYTE_REGIONS[k].style
  {
    assert FirstAt(BYTE_REGIONS, index, k);
  }

  /** The field the decoder reads at index belongs to region k. */
  lemma FieldInRegion(index: int, k: int)
    requires InRegion(k, index)
    ensures Config.RegionOf(index).Some? && StyleOf(Config.RegionOf(index).value) == BYTE_REGIONS[k].style
  {
    if k == 5 {
      assert Config.PortOffset(0) <= index < Config.PortOffset(Config.ANALOG_PORT_COUNT);
    }
  }

  // ---------------------------------------------------------------------
  // The changed-byte count of renderDiff.
  // ---------------------------------------------------------------------

  /** A byte of a frame, or undefined past its end. */
  datatype Slot = Absent | Present(n: JsNumber)

  function SlotAt(bytes: seq<JsNumber>, i: int): Slot {
    if 0 <= i < |bytes| then Present(bytes[i]) else Absent
  }

  /** JavaScript's ===: undefined equals only undefined, NaN equals nothing. */
  predicate StrictlyEqual(a: Slot, b: Slot) {
    (a.Absent? && b.Absent?) || (a.Present? && b.Present? && a.n.Num? && b.n.Num? && a.n.value == b.n.value)
  }

  function Max(a: int, b: int): int {
    if a >= b then a else b
  }

  /** The indices below n at which the two frames differ. */
  function ChangedBelow(cur: seq<JsNumber>, prev: seq<JsNumber>, n: int): set<int> {
    set i | 0 <= i < n && !StrictlyEqual(SlotAt(cur, i), SlotAt(prev, i))
  }

  /** The indices renderDiff marks as changed. */
  function ChangedIndices(cur: seq<JsNumber>, prev: seq<JsNumber>): set<int> {
    ChangedBelow(cur, prev, Max(|cur|, |prev|))
  }

  /** One record of telemetry.json; only its hex text is modelled. */
  datatype TelemetryRecord = TelemetryRecord(hexData: Option<string>)

  /** The outcome shown by renderDiff: no previous frame, an empty previous
      frame, or "changed of compared bytes changed". */
  datatype DiffSummary = FirstRecord | PreviousEmpty | Compared(changed: nat, compared: nat)

  method RenderDiff(telemetry: seq<TelemetryRecord>, currentIdx: int, currentBytes: seq<JsNumber>)
    returns (d: DiffSummary)
    requires currentIdx <= |telemetry|
    ensures currentIdx <= 0 || |telemetry| < 2 ==> d == FirstRecord
    ensures currentIdx > 0 && |telemetry| >= 2 ==>
      var prev := PairValues(Cleaned(telemetry[currentIdx - 1].hexData));
      d == if prev == [] then PreviousEmpty
           else Compared(|ChangedIndices(currentBytes, prev)|, Max(|currentBytes|, |prev|))
  {
    if currentIdx <= 0 || |telemetry| < 2 {
      return FirstRecord;
    }
    var prevBytes := HexToBytes(telemetry[currentIdx - 1].hexData);
    if |prevBytes| == 0 {
      return PreviousEmpty;
    }
    var maxLen := Max(|currentBytes|, |prevBytes|);
    var changedCount := 0;
    for i := 0 to maxLen
      invariant changedCount == |ChangedBelow(currentBytes, prevBytes, i)|
    {
      var cur := if i < |currentBytes| then Present(currentBytes[i]) else Absent;
      var prev := if i < |prevBytes| then Present(prevBytes[i]) else Absent;
      ChangedStep(currentBytes, prevBytes, i);
      if !StrictlyEqual(cur, prev) {
        changedCount := changedCount + 1;
      }
    }
    return Compared(changedCount, maxLen);
  }

  /** Index i is counted exactly when the slots there differ. */
  lemma ChangedStep(cur: seq<JsNumber>, prev: seq<JsNumber>, i: int)
    requires 0 <= i
    ensures |ChangedBelow(cur, prev, i + 1)| == |ChangedBelow(cur, prev, i)|
      + if StrictlyEqual(SlotAt(cur, i), SlotAt(prev, i)) then 0 else 1
  {
    var below := ChangedBelow(cur, prev, i);
    if StrictlyEqual(SlotAt(cur, i), SlotAt(prev, i)) {
      assert ChangedBelow(cur, prev, i + 1) == below;
    } else {
      assert ChangedBelow(cur, prev, i + 1) == below + {i};
    }
  }

  /** A frame compared with itself shows no change unless it holds NaN, and
      a NaN byte always shows as changed. */
  lemma SelfComparison(b: seq<JsNumber>)
    ensures ChangedIndices(b, b) == set i | 0 <= i < |b| && b[i].NaN?
  {
  }

  /** Every index past the end of the shorter frame counts as changed. */
  lemma LengthDifferenceCounts(cur: seq<JsNumber>, prev: seq<JsNumber>, i: int)
    requires |cur| <= i < |prev| || |prev| <= i < |cur|
    ensures i in ChangedIndices(cur, prev)
  {
  }

  // ---------------------------------------------------------------------
  // The modem-code class.
  // ---------------------------------------------------------------------

  /** The css class the modem panel gives a status code. */
  datatype CodeClass = Ok | Warn | Error

  function ModemCodeClass(code: int): CodeClass {
    if code >= 400 then Ok else if code >= 300 then Warn else Error
  }

  /** Within 200..499 the colour agrees with the decoder's description
      bands: "Error Code" codes are red, "Status Code" amber, "Success
      Code" green, and so are the listed codes of each band. */
  lemma ClassMatchesDescriptionBands(status: uint16)
    requires 200 <= status < 500
    ensures ModemCodeClass(status) == Error <==> Decoder.FallbackPrefix(status) == "Error Code: "
    ensures ModemCodeClass(status) == Warn <==> Decoder.FallbackPrefix(status) == "Status Code: "
    ensures ModemCodeClass(status) == Ok <==> Decoder.FallbackPrefix(status) == "Success Code: "
  {
  }

  /** Outside that range the two disagree: a code of 500 or more is
      described as unknown but shown green, one below 200 red. */
  lemma UnknownCodesClassified(status: uint16)
    requires !(200 <= status < 500)
    ensures Decoder.FallbackPrefix(status) == "Unknown: "
    ensures ModemCodeClass(status) == (if status >= 500 then Ok else Error)
  {
  }

  // ---------------------------------------------------------------------
  // History navigation.
  // ---------------------------------------------------------------------

  datatype HexTab = Latest | History

  datatype Key = ArrowLeft | ArrowUp | ArrowRight | ArrowDown | Home | End | OtherKey

  /** The histPrev button and ArrowLeft/ArrowUp. */
  function PrevIndex(i: int): int {
    if i > 0 then i - 1 else i
  }

  /** The histNext button and ArrowRight/ArrowDown. */
  function NextIndex(i: int, n: nat): int {
    if i < n - 1 then i + 1 else i
  }

  /** The keydown handler: ignored outside the history tab or with no data. */
  function KeyIndex(key: Key, tab: HexTab, i: int, n: nat): int {
    if tab != History || n == 0 then i
    else match key
      case ArrowLeft | ArrowUp => PrevIndex(i)
      case ArrowRight | ArrowDown => NextIndex(i, n)
      case Home => 0
      case End => n - 1
      case OtherKey => i
  }

  /** Switching tabs: opening the history tab with no selection selects
      the newest record. */
  function TabIndex(tab: HexTab, i: int, n: nat): int {
    if tab == History && n > 0 && i < 0 then n - 1 else i
  }

  /** renderHistoryView shows record i when there is data and a selection. */
  predicate Shown(i: int, n: nat) {
    n > 0 && i >= 0
  }

  /** Prev and Next keep a valid index valid, move by at most one, and stop
      at the oldest and the newest record. */
  lemma PrevNextStayInRange(i: int, n: nat)
    requires 0 <= i < n
    ensures 0 <= PrevIndex(i) < n && 0 <= NextIndex(i, n) < n
    ensures PrevIndex(i) == i <==> i == 0
    ensures NextIndex(i, n) == i <==> i == n - 1
    ensures i - PrevIndex(i) <= 1 && NextIndex(i, n) - i <= 1
  {
  }

  /** Every key keeps a valid index valid; Home and End in the history tab
      select the oldest and the newest record. */
  lemma KeysStayInRange(key: Key, tab: HexTab, i: int, n: nat)
    requires 0 <= i < n
    ensures 0 <= KeyIndex(key, tab, i, n) < n
    ensures tab == History && key == Home ==> KeyIndex(key, tab, i, n) == 0
    ensures tab == History && key == End ==> KeyIndex(key, tab, i, n) == n - 1
  {
  }

  /** From no selection, Next selects the oldest record and Prev does
      nothing; opening the history tab selects the newest. */
  lemma FromNoSelection(n: nat)
    requires n > 0
    ensures NextIndex(-1, n) == 0 && PrevIndex(-1) == -1
    ensures TabIndex(History, -1, n) == n - 1
  {
  }

  /** A button, a key or a tab change keeps the selection within -1..n-1
      (no selection, or a record of the list), and never drops a selection
      once one is made. */
  lemma SelectionStaysValid(i: int, n: nat, key: Key, tab: HexTab)
    requires -1 <= i < n
    ensures -1 <= PrevIndex(i) < n && -1 <= NextIndex(i, n) < n
    ensures -1 <= KeyIndex(key, tab, i, n) < n && -1 <= TabIndex(tab, i, n) < n
    ensures 0 <= i ==> 0 <= PrevIndex(i) && 0 <= NextIndex(i, n)
    ensures 0 <= i ==> 0 <= KeyIndex(key, tab, i, n) && 0 <= TabIndex(tab, i, n)
  {
  }

  /** The list loadTelemetry leaves: a non-empty fetched list replaces the
      data, an empty or missing one keeps it. */
  function Reloaded(telemetry: seq<TelemetryRecord>, data: seq<TelemetryRecord>): (t: seq<TelemetryRecord>)
    ensures |t| > 0 <==> |telemetry| > 0 || |data| > 0
  {
    if |data| > 0 then data else telemetry
  }

  /** A reload never empties the list and never strands a selection when
      the list does not shrink. */
  lemma ReloadKeepsSelection(telemetry: seq<TelemetryRecord>, data: seq<TelemetryRecord>, i: int)
    requires 0 <= i < |telemetry| && |data| >= |telemetry|
    ensures 0 <= i < |Reloaded(telemetry, data)|
  {
  }

  /** The selection is not adjusted when the data is replaced: End on three
      records, then a reload with one, leaves a shown selection past the end
      of the list, which renderHistoryView then indexes. */
  lemma ReloadCanStrandSelection(r: TelemetryRecord)
    ensures var before := [r, r, r];
      var i := KeyIndex(End, History, 0, |before|);
      var after := Reloaded(before, [r]);
      i == 2 && Shown(i, |after|) && i >= |after|
  {
  }

  /** The global state of the page that the history handlers change. */
  class HistoryNav {
    var telemetry: seq<TelemetryRecord>
    var historyIndex: int
    var activeHexTab: HexTab

    /** 0 <= historyIndex < telemetryData.length */
    predicate InRange()
      reads this
    {
      0 <= historyIndex < |telemetry|
    }

    constructor ()
      ensures telemetry == [] && historyIndex == -1 && activeHexTab == Latest
    {
      telemetry := [];
      historyIndex := -1;
      activeHexTab := Latest;
    }

    method First()
      modifies this
      ensures historyIndex == 0
      ensures telemetry == old(telemetry) && activeHexTab == old(activeHexTab)
    {
      historyIndex := 0;
    }

    method Prev()
      modifies this
      ensures historyIndex == PrevIndex(old(historyIndex))
      ensures telemetry == old(telemetry) && activeHexTab == old(activeHexTab)
      ensures old(InRange()) ==> InRange()
    {
      if historyIndex > 0 {
        historyIndex := historyIndex - 1;
      }
    }

    method Next()
      modifies this
      ensures historyIndex == NextIndex(old(historyIndex), |telemetry|)
      ensures telemetry == old(telemetry) && activeHexTab == old(activeHexTab)
      ensures old(InRange()) ==> InRange()
    {
      if historyIndex < |telemetry| - 1 {
        historyIndex := historyIndex + 1;
      }
    }

    method Last()
      modifies this
      ensures historyIndex == |telemetry| - 1
      ensures telemetry == old(telemetry) && activeHexTab == old(activeHexTab)
      ensures |telemetry| > 0 ==> InRange()
    {
      historyIndex := |telemetry| - 1;
    }

    method SelectTab(tab: HexTab)
      modifies this
      ensures activeHexTab == tab
      ensures historyIndex == TabIndex(tab, old(historyIndex), |telemetry|)
      ensures telemetry == old(telemetry)
      ensures old(historyIndex) < |telemetry| && Shown(historyIndex, |telemetry|) ==> InRange()
    {
      activeHexTab := tab;
      if activeHexTab == History {
        if |telemetry| > 0 && historyIndex < 0 {
          historyIndex := |telemetry| - 1;
        }
      }
    }

    method KeyDown(key: Key)
      modifies this
      ensures historyIndex == KeyIndex(key, old(activeHexTab), old(historyIndex), |telemetry|)
      ensures telemetry == old(telemetry) && activeHexTab == old(activeHexTab)
      ensures old(InRange()) ==> InRange()
    {
      if activeHexTab != History || |telemetry| == 0 {
        return;
      }
      match key {
        case ArrowLeft | ArrowUp =>
          if historyIndex > 0 { historyIndex := historyIndex - 1; }
        case ArrowRight | ArrowDown =>
          if historyIndex < |telemetry| - 1 { historyIndex := historyIndex + 1; }
        case Home =>
          historyIndex := 0;
        case End =>
          historyIndex := |telemetry| - 1;
        case OtherKey =>
      }
    }

    /** loadTelemetry: a non-empty list replaces the data; the selection is
        kept as it is. */
    method LoadTelemetry(data: seq<TelemetryRecord>)
      modifies this
      ensures telemetry == Reloaded(old(telemetry), data)
      ensures historyIndex == old(historyIndex) && activeHexTab == old(activeHexTab)
    {
      if |data| > 0 {
        telemetry := data;
      }
    }
  }
}
