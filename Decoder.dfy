/** The Decoder class of include/Decoder.h and src/Decoder.cpp: field
    extraction from an email body, the 50-byte frame decoder, the per-sensor
    decoders, the modem status lookup and parseEmail. */
module Decoder {
  import opened Common
  import opened Config
  import opened Hex

  // ---------------------------------------------------------------------
  // Field extraction: regex_search for `<name>:\s*([^\n\r]+)`, then trim.
  // ---------------------------------------------------------------------

  /** `\s` of std::regex, and std::isspace, in the C locale. */
  predicate IsSpace(c: char) {
    c == ' ' || c == '\t' || c == '\n' || c == '\U{000B}' || c == '\U{000C}' || c == '\r'
  }

  predicate IsLineBreak(c: char) {
    c == '\n' || c == '\r'
  }

  /** The first position at or after q that does not hold whitespace. */
  function SkipSpace(text: string, q: nat): (e: nat)
    requires q <= |text|
    ensures q <= e <= |text|
    ensures forall k :: q <= k < e ==> IsSpace(text[k])
    ensures e < |text| ==> !IsSpace(text[e])
    decreases |text| - q
  {
    if q < |text| && IsSpace(text[q]) then SkipSpace(text, q + 1) else q
  }

  /** The first line break at or after e, or the end of the text. */
  function LineEnd(text: string, e: nat): (m: nat)
    requires e <= |text|
    ensures e <= m <= |text|
    ensures forall k :: e <= k < m ==> !IsLineBreak(text[k])
    ensures m < |text| ==> IsLineBreak(text[m])
    decreases |text| - e
  {
    if e < |text| && !IsLineBreak(text[e]) then LineEnd(text, e + 1) else e
  }

  /** The last position in [q, n) that does not hold a line break. */
  function LastNonBreak(text: string, q: nat, n: nat): (r: Option<nat>)
    requires q <= n <= |text|
    ensures r.Some? ==> q <= r.value < n && !IsLineBreak(text[r.value])
    ensures r.Some? ==> forall k :: r.value < k < n ==> IsLineBreak(text[k])
    ensures r.None? ==> forall k :: q <= k < n ==> IsLineBreak(text[k])
    decreases n
  {
    if n <= q then None
    else if !IsLineBreak(text[n - 1]) then Some(n - 1)
    else LastNonBreak(text, q, n - 1)
  }

  /** The group that `\s*([^\n\r]+)` captures when matched from q, if it
      matches there. `\s*` is greedy and also eats line breaks, so the value
      may come from a later line; when only whitespace is left, the
      backtracking matcher gives back characters until the group can take
      one that is not a line break. */
  function CaptureAt(text: string, q: nat): (r: Option<string>)
    requires q <= |text|
    ensures r.Some? ==> |r.value| > 0
    ensures r.Some? ==> forall k :: 0 <= k < |r.value| ==> !IsLineBreak(r.value[k])
  {
    var e := SkipSpace(text, q);
    if e < |text| then Some(text[e..LineEnd(text, e)])
    else match LastNonBreak(text, q, |text|)
      case Some(k) => Some([text[k]])
      case None => None
  }

  predicate OccursAt(text: string, pat: string, p: nat) {
    p + |pat| <= |text| && text[p..p + |pat|] == pat
  }

  ghost predicate Occurs(text: string, pat: string) {
    exists p: nat :: OccursAt(text, pat, p)
  }

  /** regex_search: the leftmost position from p on where the whole pattern
      matches, and the group captured there. */
  function SearchFrom(text: string, pat: string, p: nat): (r: Option<string>)
    requires p <= |text| && |pat| > 0
    ensures r.Some? ==> Occurs(text, pat)
    ensures r.Some? ==> |r.value| > 0 && forall k :: 0 <= k < |r.value| ==> !IsLineBreak(r.value[k])
    decreases |text| - p
  {
    if p + |pat| > |text| then None
    else if OccursAt(text, pat, p) && CaptureAt(text, p + |pat|).Some? then CaptureAt(text, p + |pat|)
    else SearchFrom(text, pat, p + 1)
  }

  /** The characters `erase(0, find_first_not_of(" \t"))` removes. */
  predicate IsLeadingTrim(c: char) {
    c == ' ' || c == '\t'
  }

  /** The characters `find_last_not_of(" \t\r\nUTC")` skips: a set, not the
      suffix "UTC". */
  predicate IsTrailingTrim(c: char) {
    c == ' ' || c == '\t' || c == '\r' || c == '\n' || c == 'U' || c == 'T' || c == 'C'
  }

  function TrimLeading(s: string): (r: string)
    ensures |r| <= |s| && r == s[|s| - |r|..]
    ensures r != [] ==> !IsLeadingTrim(r[0])
    ensures forall k :: 0 <= k < |s| - |r| ==> IsLeadingTrim(s[k])
  {
    if s != [] && IsLeadingTrim(s[0]) then TrimLeading(s[1..]) else s
  }

  function TrimTrailing(s: string): (r: string)
    ensures |r| <= |s| && r == s[..|r|]
    ensures r != [] ==> !IsTrailingTrim(r[|r| - 1])
    ensures forall k :: |r| <= k < |s| ==> IsTrailingTrim(s[k])
  {
    if s != [] && IsTrailingTrim(s[|s| - 1]) then TrimTrailing(s[..|s| - 1]) else s
  }

  /** Decoder::extractField. The value after the first "<fieldName>:" that
      the pattern matches at, trimmed; "" when there is none. */
  function ExtractField(text: string, fieldName: string): (r: string)
    ensures r != "" ==> !IsLeadingTrim(r[0]) && !IsTrailingTrim(r[|r| - 1])
    ensures forall k :: 0 <= k < |r| ==> !IsLineBreak(r[k])
  {
    match SearchFrom(text, fieldName + ":", 0)
    case None => ""
    case Some(v) => TrimTrailing(TrimLeading(v))
  }

  /** A field whose name is not followed by a colon anywhere is "". */
  lemma MissingFieldIsEmpty(text: string, fieldName: string)
    requires !Occurs(text, fieldName + ":")
    ensures ExtractField(text, fieldName) == ""
  {
  }

  // ---------------------------------------------------------------------
  // std::stoi: strtol in base 10, then a range check against int.
  // ---------------------------------------------------------------------

  datatype ConversionError = InvalidArgument | OutOfRange

  datatype IntConversion = IntOk(value: int32) | IntError(error: ConversionError)

  /** The end of the run of decimal digits that starts at j. */
  function DigitRunEnd(s: string, j: nat): (e: nat)
    requires j <= |s|
    ensures j <= e <= |s| && AllDecimalDigits(s[j..e])
    ensures e < |s| ==> !IsDecimalDigit(s[e])
    decreases |s| - j
  {
    if j < |s| && IsDecimalDigit(s[j]) then DigitRunEnd(s, j + 1) else j
  }

  /** std::stoi: leading whitespace, an optional sign, then the longest run of
      digits; anything after it is ignored. No digit throws
      std::invalid_argument, a value outside int throws std::out_of_range. */
  function StoI(s: string): IntConversion {
    var i := SkipSpace(s, 0);
    var negative := i < |s| && s[i] == '-';
    var j := if i < |s| && (s[i] == '-' || s[i] == '+') then i + 1 else i;
    var e := DigitRunEnd(s, j);
    if e == j then IntError(InvalidArgument)
    else
      var magnitude := DecimalValue(s[j..e]);
      var v: int := if negative then -(magnitude as int) else magnitude;
      if -0x8000_0000 <= v < 0x8000_0000 then IntOk(v) else IntError(OutOfRange)
  }

  /** stoi reads back what std::to_string wrote, for every int. */
  lemma StoIRoundTrip(n: nat, negative: bool)
    requires if negative then 0 < n <= 0x8000_0000 else n < 0x8000_0000
    ensures StoI((if negative then "-" else "") + NatToString(n)) == IntOk(if negative then -(n as int) else n)
  {
    var s := (if negative then "-" else "") + NatToString(n);
    var j := if negative then 1 else 0;
    assert SkipSpace(s, 0) == 0;
    DigitRunAll(s, j);
    assert s[j..|s|] == NatToString(n);
    DecimalRoundTrip(n);
  }

  /** A string of digits from j on is one run. */
  lemma {:induction false} DigitRunAll(s: string, j: nat)
    requires j <= |s| && forall k :: j <= k < |s| ==> IsDecimalDigit(s[k])
    ensures DigitRunEnd(s, j) == |s|
    decreases |s| - j
  {
    if j < |s| {
      DigitRunAll(s, j + 1);
    }
  }

  /** A string with no digit at all never converts. */
  lemma StoIRejectsNoDigits(s: string)
    requires forall k :: 0 <= k < |s| ==> !IsDecimalDigit(s[k])
    ensures StoI(s) == IntError(InvalidArgument)
  {
  }

  // ---------------------------------------------------------------------
  // Sensor decoders: each is a function of one raw 16-bit value.
  // ---------------------------------------------------------------------

  function DecodeInternalTemp(rawValue: uint16): AnalogSensorData {
    AnalogSensorData(rawValue, "Internal Temperature", true)
  }

  function DecodePressure(rawValue: uint16): AnalogSensorData {
    AnalogSensorData(rawValue, "Pressure", true)
  }

  function DecodeExternalTemp(rawValue: uint16): AnalogSensorData {
    AnalogSensorData(rawValue, "External Temperature", true)
  }

  function DecodeAccelY(rawValue: uint16): AnalogSensorData {
    AnalogSensorData(rawValue, "Y-axis Accelerometer", true)
  }

  function DecodeAccelX(rawValue: uint16): AnalogSensorData {
    AnalogSensorData(rawValue, "X-axis Accelerometer", true)
  }

  function DecodeBattery(rawValue: uint16): AnalogSensorData {
    AnalogSensorData(rawValue, "Battery", true)
  }

  // ---------------------------------------------------------------------
  // Modem status descriptions.
  // ---------------------------------------------------------------------

  /** The codes that have a fixed description. */
  predicate IsListedStatus(status: int) {
    status in {400, 401, 402, 403, 404, 407, 300, 304, 311, 313, 200, 290, 291}
  }

  /** Decoder::getModemStatusDescription. */
  function ModemStatusDescription(status: uint16): string {
    match status
    case 400 => "Ping Through MPM And Modem Success"
    case 401 => "Modem Ready For Use"
    case 402 => "Transmit Successful And No Receive"
    case 403 => "Transmit And Receive Successful"
    case 404 => "Transmit And Receive Successful Plus Receive Pending"
    case 407 => "Receive Data Placed In Receive Array"
    case 300 => "Success Byte After SBDIX"
    case 304 => "OK Found"
    case 311 => "Idle"
    case 313 => "Network Available With Acceptable Signal Strength"
    case 200 => "Transmit Has Failed"
    case 290 => "Write To MO Buffer Failed"
    case 291 => "Wrong Modem Connected Check Serial Number"
    case _ =>
      if 200 <= status < 300 then "Error Code: " + NatToString(status)
      else if 300 <= status < 400 then "Status Code: " + NatToString(status)
      else if 400 <= status < 500 then "Success Code: " + NatToString(status)
      else "Unknown: " + NatToString(status)
  }

  /** The prefix of the description of a code that has no fixed one. */
  function FallbackPrefix(status: int): string {
    if 200 <= status < 300 then "Error Code: "
    else if 300 <= status < 400 then "Status Code: "
    else if 400 <= status < 500 then "Success Code: "
    else "Unknown: "
  }

  /** A code without a fixed description is described by its range and its
      decimal value. */
  lemma ModemStatusFallback(status: uint16)
    requires !IsListedStatus(status)
    ensures ModemStatusDescription(status) == FallbackPrefix(status) + NatToString(status)
  {
  }

  lemma ModemStatusErrorExample()
    ensures ModemStatusDescription(250) == "Error Code: 250"
  {
    assert NatToString(25) == NatToString(2) + "5";
    assert NatToString(250) == NatToString(25) + "0";
  }

  lemma ModemStatusUnknownExample()
    ensures ModemStatusDescription(999) == "Unknown: 999"
  {
    assert NatToString(99) == NatToString(9) + "9";
    assert NatToString(999) == NatToString(99) + "9";
  }

  /** Distinct codes get distinct descriptions: the description loses nothing. */
  lemma ModemStatusDescriptionInjective(a: uint16, b: uint16)
    requires ModemStatusDescription(a) == ModemStatusDescription(b)
    ensures a == b
  {
    var d := ModemStatusDescription(a);
    if IsListedStatus(a) && IsListedStatus(b) {
      ListedInjective(a, b);
    } else if !IsListedStatus(a) && !IsListedStatus(b) {
      var pa, pb := FallbackPrefix(a), FallbackPrefix(b);
      if pa == pb {
        assert d[|pa|..] == NatToString(a) && d[|pb|..] == NatToString(b);
        NatToStringInjective(a, b);
      } else {
        PrefixesDiffer(d, pa, pb);
      }
    } else if IsListedStatus(a) {
      ListedIsNotFallback(a, b);
    } else {
      ListedIsNotFallback(b, a);
    }
  }

  lemma ListedInjective(a: uint16, b: uint16)
    requires IsListedStatus(a) && IsListedStatus(b)
    requires ModemStatusDescription(a) == ModemStatusDescription(b)
    ensures a == b
  {
    ListedCodeOfDescription(a);
    ListedCodeOfDescription(b);
  }

  /** The code of a fixed description, told apart by its length and, where
      two lengths coincide, its first character. */
  function ListedCode(d: string): int {
    if |d| == 34 then (if d[0] == 'P' then 400 else 402)
    else if |d| == 19 then (if d[0] == 'M' then 401 else 200)
    else if |d| == 31 then 403
    else if |d| == 52 then 404
    else if |d| == 36 then 407
    else if |d| == 24 then 300
    else if |d| == 8 then 304
    else if |d| == 4 then 311
    else if |d| == 49 then 313
    else if |d| == 25 then 290
    else 291
  }

  lemma ListedCodeOfDescription(a: uint16)
    requires IsListedStatus(a)
    ensures ListedCode(ModemStatusDescription(a)) == a
  {
  }

  /** The four fallback prefixes already differ in their third character. */
  lemma PrefixesDiffer(d: string, pa: string, pb: string)
    requires pa in {"Error Code: ", "Status Code: ", "Success Code: ", "Unknown: "}
    requires pb in {"Error Code: ", "Status Code: ", "Success Code: ", "Unknown: "}
    requires pa != pb
    ensures |pa| <= |d| && |pb| <= |d| && d[..|pa|] == pa ==> d[..|pb|] != pb
  {
    if |pa| <= |d| && |pb| <= |d| && d[..|pa|] == pa {
      assert d[..|pb|][2] == d[..|pa|][2];
    }
  }

  /** What every fallback description looks like: a prefix of 9 to 14
      characters and a code of 1 to 5 digits; only "Success Code: " with a
      five-digit code reaches 19 characters. */
  predicate FallbackLike(d: string) {
    10 <= |d| <= 19 && (|d| == 19 ==> d[0] == 'S')
  }

  /** No fixed description looks like a fallback one. */
  lemma ListedShape(a: uint16)
    requires IsListedStatus(a)
    ensures !FallbackLike(ModemStatusDescription(a))
  {
    ListedCodeOfDescription(a);
    var d := ModemStatusDescription(a);
    if a == 401 {
      assert d[0] == 'M';
    } else if a == 200 {
      assert d[0] == 'T';
    }
  }

  /** A 16-bit code has at most five decimal digits. */
  lemma ShortDecimal(n: nat)
    requires n < 100000
    ensures |NatToString(n)| <= 5
  {
    if n >= 10 {
      var a := n / 10;
      assert |NatToString(n)| == |NatToString(a)| + 1;
      if a >= 10 {
        var b := a / 10;
        assert |NatToString(a)| == |NatToString(b)| + 1;
        if b >= 10 {
          var c := b / 10;
          assert |NatToString(b)| == |NatToString(c)| + 1;
          if c >= 10 {
            assert |NatToString(c)| == |NatToString(c / 10)| + 1;
          }
        }
      }
    }
  }

  lemma ListedIsNotFallback(a: uint16, b: uint16)
    requires IsListedStatus(a) && !IsListedStatus(b)
    ensures ModemStatusDescription(a) != ModemStatusDescription(b)
  {
    var p := FallbackPrefix(b);
    var e := p + NatToString(b);
    assert ModemStatusDescription(b) == e;
    ShortDecimal(b);
    assert |e| == 19 ==> p == "Success Code: " && e[0] == p[0];
    assert FallbackLike(e);
    ListedShape(a);
  }

  // ---------------------------------------------------------------------
  // The frame decoder.
  // ---------------------------------------------------------------------

  /** What decodeHexPayload produces from the bytes of the hex string. */
  function PayloadFromBytes(b: seq<uint8>): PayloadData {
    if |b| < EXPECTED_PAYLOAD_SIZE then DEFAULT_PAYLOAD
    else
      var header := [b[HEADER_BYTE_0] as char, b[HEADER_BYTE_1] as char];
      var latitudeDms := Dms(b[LAT_DEGREES], b[LAT_MINUTES], b[LAT_SECONDS],
                             if b[LAT_HEMISPHERE] == 0 then 'N' else 'S');
      var longitudeDms := Dms(b[LON_DEGREES], b[LON_MINUTES], b[LON_SECONDS],
                              if b[LON_HEMISPHERE] == 0 then 'E' else 'W');
      var status := BigEndian16(b[MODEM_STATUS_MSB], b[MODEM_STATUS_LSB]);
      PayloadData(
        header := header,
        headerValid := header == "RB",
        serialNumber := BigEndian24(b[SERIAL_BYTE_0], b[SERIAL_BYTE_1], b[SERIAL_BYTE_2]),
        utcHours := b[UTC_HOURS],
        utcMinutes := b[UTC_MINUTES],
        utcSeconds := b[UTC_SECONDS],
        latitude := DecimalDegrees(b[LAT_DEGREES], b[LAT_MINUTES], b[LAT_SECONDS], b[LAT_HEMISPHERE]),
        longitude := DecimalDegrees(b[LON_DEGREES], b[LON_MINUTES], b[LON_SECONDS], b[LON_HEMISPHERE]),
        latitudeDms := latitudeDms,
        longitudeDms := longitudeDms,
        altitude := SignedOf32(BigEndian32(b[ALTITUDE_BYTE_0], b[ALTITUDE_BYTE_1],
                                           b[ALTITUDE_BYTE_2], b[ALTITUDE_BYTE_3])),
        altitudeUnits := if b[ALTITUDE_UNITS] == 0 then "meters" else "feet",
        internalTemp := DecodeInternalTemp(PortValue(b, PORT_INTERNAL_TEMP)),
        pressure := DecodePressure(PortValue(b, PORT_PRESSURE)),
        uvLight := DEFAULT_SENSOR,
        unused := DEFAULT_SENSOR,
        externalTemp := DecodeExternalTemp(PortValue(b, PORT_EXTERNAL_TEMP)),
        accelY := DecodeAccelY(PortValue(b, PORT_ACCEL_Y)),
        accelX := DecodeAccelX(PortValue(b, PORT_ACCEL_X)),
        battery := DecodeBattery(PortValue(b, PORT_BATTERY)),
        modemStatus := status,
        modemStatusDescription := ModemStatusDescription(status),
        isValid := header == "RB")
  }

  /** Decoder::decodeHexPayload: fills the fields of a default PayloadData
      once the length check has passed. */
  method DecodeHexPayload(hexString: string) returns (payload: PayloadData)
    ensures payload == PayloadFromBytes(HexBytes(hexString))
  {
    payload := DEFAULT_PAYLOAD;
    var bytes := HexStringToBytes(hexString);
    if |bytes| < EXPECTED_PAYLOAD_SIZE {
      return;
    }
    var header := [bytes[HEADER_BYTE_0] as char, bytes[HEADER_BYTE_1] as char];
    var latitudeDms := Dms(bytes[LAT_DEGREES], bytes[LAT_MINUTES], bytes[LAT_SECONDS],
                           if bytes[LAT_HEMISPHERE] == 0 then 'N' else 'S');
    var longitudeDms := Dms(bytes[LON_DEGREES], bytes[LON_MINUTES], bytes[LON_SECONDS],
                            if bytes[LON_HEMISPHERE] == 0 then 'E' else 'W');
    var status := BigEndian16(bytes[MODEM_STATUS_MSB], bytes[MODEM_STATUS_LSB]);
    payload := payload.(
      header := header,
      headerValid := header == "RB",
      serialNumber := BigEndian24(bytes[SERIAL_BYTE_0], bytes[SERIAL_BYTE_1], bytes[SERIAL_BYTE_2]),
      utcHours := bytes[UTC_HOURS],
      utcMinutes := bytes[UTC_MINUTES],
      utcSeconds := bytes[UTC_SECONDS],
      latitudeDms := latitudeDms,
      latitude := DecimalDegrees(bytes[LAT_DEGREES], bytes[LAT_MINUTES], bytes[LAT_SECONDS], bytes[LAT_HEMISPHERE]),
      longitudeDms := longitudeDms,
      longitude := DecimalDegrees(bytes[LON_DEGREES], bytes[LON_MINUTES], bytes[LON_SECONDS], bytes[LON_HEMISPHERE]),
      altitude := SignedOf32(BigEndian32(bytes[ALTITUDE_BYTE_0], bytes[ALTITUDE_BYTE_1],
                                         bytes[ALTITUDE_BYTE_2], bytes[ALTITUDE_BYTE_3])),
      altitudeUnits := if bytes[ALTITUDE_UNITS] == 0 then "meters" else "feet",
      internalTemp := DecodeInternalTemp(PortValue(bytes, PORT_INTERNAL_TEMP)),
      pressure := DecodePressure(PortValue(bytes, PORT_PRESSURE)),
      externalTemp := DecodeExternalTemp(PortValue(bytes, PORT_EXTERNAL_TEMP)),
      accelY := DecodeAccelY(PortValue(bytes, PORT_ACCEL_Y)),
      accelX := DecodeAccelX(PortValue(bytes, PORT_ACCEL_X)),
      battery := DecodeBattery(PortValue(bytes, PORT_BATTERY)),
      modemStatus := status,
      modemStatusDescription := ModemStatusDescription(status),
      isValid := header == "RB");
  }


  // ---------------------------------------------------------------------
  // Properties of the frame decoder.
  // ---------------------------------------------------------------------

  /** A frame shorter than 50 bytes decodes to the default payload, which is
      not valid. */
  lemma ShortFrameRejected(b: seq<uint8>)
    requires |b| < EXPECTED_PAYLOAD_SIZE
    ensures PayloadFromBytes(b) == DEFAULT_PAYLOAD
    ensures !PayloadFromBytes(b).isValid && !PayloadFromBytes(b).headerValid
  {
  }

  /** Bytes after the first 50 are never read. */
  lemma TrailingBytesIgnored(b: seq<uint8>)
    requires |b| >= EXPECTED_PAYLOAD_SIZE
    ensures PayloadFromBytes(b) == PayloadFromBytes(b[..EXPECTED_PAYLOAD_SIZE])
  {
    var c := b[..EXPECTED_PAYLOAD_SIZE];
    forall p: nat | p < ANALOG_PORT_COUNT
      ensures PortValue(b, p) == PortValue(c, p)
    {
    }
  }

  /** Validity is decided by the two header bytes alone: "RB". */
  lemma HeaderDecidesValidity(b: seq<uint8>)
    requires |b| >= EXPECTED_PAYLOAD_SIZE
    ensures PayloadFromBytes(b).isValid == PayloadFromBytes(b).headerValid
    ensures PayloadFromBytes(b).isValid <==> b[HEADER_BYTE_0] == HEADER_CHAR_0 && b[HEADER_BYTE_1] == HEADER_CHAR_1
  {
    var h := [b[HEADER_BYTE_0] as char, b[HEADER_BYTE_1] as char];
    if h == "RB" {
      assert h[0] == 'R' && h[1] == 'B';
    }
  }

  /** The decoder reads each field where the layout puts it. */
  predicate DecodedFrom(p: PayloadData, f: FrameFields)
    requires WellFormed(f)
  {
    p.header == [f.header0 as char, f.header1 as char] &&
    (p.isValid <==> f.header0 == HEADER_CHAR_0 && f.header1 == HEADER_CHAR_1) &&
    p.serialNumber == f.serial &&
    p.utcHours == f.utcHours && p.utcMinutes == f.utcMinutes && p.utcSeconds == f.utcSeconds &&
    p.latitudeDms == Dms(f.latDegrees, f.latMinutes, f.latSeconds, if f.latHemisphere == 0 then 'N' else 'S') &&
    p.longitudeDms == Dms(f.lonDegrees, f.lonMinutes, f.lonSeconds, if f.lonHemisphere == 0 then 'E' else 'W') &&
    p.latitude == DecimalDegrees(f.latDegrees, f.latMinutes, f.latSeconds, f.latHemisphere) &&
    p.longitude == DecimalDegrees(f.lonDegrees, f.lonMinutes, f.lonSeconds, f.lonHemisphere) &&
    p.altitude == f.altitude &&
    p.altitudeUnits == (if f.altitudeUnits == 0 then "meters" else "feet") &&
    p.internalTemp == AnalogSensorData(f.ports[PORT_INTERNAL_TEMP], "Internal Temperature", true) &&
    p.pressure == AnalogSensorData(f.ports[PORT_PRESSURE], "Pressure", true) &&
    p.externalTemp == AnalogSensorData(f.ports[PORT_EXTERNAL_TEMP], "External Temperature", true) &&
    p.accelY == AnalogSensorData(f.ports[PORT_ACCEL_Y], "Y-axis Accelerometer", true) &&
    p.accelX == AnalogSensorData(f.ports[PORT_ACCEL_X], "X-axis Accelerometer", true) &&
    p.battery == AnalogSensorData(f.ports[PORT_BATTERY], "Battery", true) &&
    p.uvLight == DEFAULT_SENSOR && p.unused == DEFAULT_SENSOR &&
    p.modemStatus == f.modemStatus &&
    p.modemStatusDescription == ModemStatusDescription(f.modemStatus)
  }

  lemma DecodesLayout(b: seq<uint8>)
    requires |b| >= EXPECTED_PAYLOAD_SIZE
    ensures DecodedFrom(PayloadFromBytes(b), FieldsOf(b))
  {
    HeaderDecidesValidity(b);
  }

  /** Rendering a frame in hex, in either case, and decoding it gives back
      every field the frame carries. */
  lemma DecodeEncodedFrame(f: FrameFields, upper: bool)
    requires WellFormed(f)
    ensures DecodedFrom(PayloadFromBytes(HexBytes(HexRendering(EncodeFrame(f), upper))), f)
  {
    var b := EncodeFrame(f);
    HexRoundTrip(b, upper);
    FieldsOfEncode(f);
    DecodesLayout(b);
  }

  /** 10 degrees 30 minutes in the southern hemisphere is -10.5. */
  lemma SouthernLatitudeExample(b: seq<uint8>)
    requires |b| >= EXPECTED_PAYLOAD_SIZE
    requires b[LAT_DEGREES] == 10 && b[LAT_MINUTES] == 30 && b[LAT_SECONDS] == 0 && b[LAT_HEMISPHERE] == 1
    ensures PayloadFromBytes(b).latitude == -10.5
    ensures PayloadFromBytes(b).latitudeDms.hemisphere == 'S'
  {
  }

  /** A 94-digit example message that starts with "RB": it encodes 47 bytes,
      short of the 50 the decoder demands, so it decodes to the default
      payload and is not valid. */
  const SHORT_TEST_VECTOR: string :=
    "524200333f5133207202f2e006f1633010000022700000000000000000000000000000000000000000000000000000"

  lemma ShortTestVectorRejected()
    ensures |HexBytes(SHORT_TEST_VECTOR)| <= 47
    ensures PayloadFromBytes(HexBytes(SHORT_TEST_VECTOR)) == DEFAULT_PAYLOAD
  {
    assert |SHORT_TEST_VECTOR| == 94;
  }

  // ---------------------------------------------------------------------
  // Properties of field extraction.
  // ---------------------------------------------------------------------

  lemma {:induction false} SearchSkips(text: string, pat: string, p: nat, q: nat)
    requires p <= q <= |text| && |pat| > 0
    requires forall j :: p <= j < q ==> !OccursAt(text, pat, j)
    ensures SearchFrom(text, pat, p) == SearchFrom(text, pat, q)
    decreases q - p
  {
    if p < q {
      SearchSkips(text, pat, p + 1, q);
    }
  }

  lemma {:induction false} SkipSpaceTo(text: string, q: nat, e: nat)
    requires q <= e < |text|
    requires forall k :: q <= k < e ==> IsSpace(text[k])
    requires !IsSpace(text[e])
    ensures SkipSpace(text, q) == e
    decreases e - q
  {
    if q < e {
      SkipSpaceTo(text, q + 1, e);
    }
  }

  lemma {:induction false} LineEndAt(text: string, e: nat, m: nat)
    requires e <= m <= |text|
    requires forall k :: e <= k < m ==> !IsLineBreak(text[k])
    requires m < |text| ==> IsLineBreak(text[m])
    ensures LineEnd(text, e) == m
    decreases m - e
  {
    if e < m {
      LineEndAt(text, e + 1, m);
    }
  }

  /** The match found at the first occurrence p of "<fieldName>:": the
      whitespace after the colon (line breaks included) runs to e, the value
      from e to the end of its line at m. */
  lemma ExtractAt(text: string, fieldName: string, p: nat, e: nat, m: nat)
    requires OccursAt(text, fieldName + ":", p)
    requires forall j :: 0 <= j < p ==> !OccursAt(text, fieldName + ":", j)
    requires p + |fieldName| + 1 <= e < m <= |text|
    requires forall k :: p + |fieldName| + 1 <= k < e ==> IsSpace(text[k])
    requires !IsSpace(text[e])
    requires forall k :: e <= k < m ==> !IsLineBreak(text[k])
    requires m < |text| ==> IsLineBreak(text[m])
    ensures ExtractField(text, fieldName) == TrimTrailing(text[e..m])
  {
    var pat := fieldName + ":";
    var v := text[e..m];
    SearchSkips(text, pat, 0, p);
    SkipSpaceTo(text, p + |pat|, e);
    LineEndAt(text, e, m);
    MatchAt(text, pat, p, e, m);
    assert v[0] == text[e];
    assert TrimLeading(v) == v;
  }

  /** The pattern matches at p, and the group runs from e to m. */
  lemma MatchAt(text: string, pat: string, p: nat, e: nat, m: nat)
    requires |pat| > 0 && OccursAt(text, pat, p)
    requires p + |pat| <= e < |text| && e <= m <= |text|
    requires SkipSpace(text, p + |pat|) == e && LineEnd(text, e) == m
    ensures SearchFrom(text, pat, p) == Some(text[e..m])
  {
  }

  /** The same in terms of the pieces of the text: whatever whitespace
      follows the colon is skipped, and the value runs to the end of its line;
      only its trailing characters from " \t\r\nUTC" are trimmed. */
  lemma ExtractsFirstValue(pre: string, fieldName: string, gap: string, value: string, rest: string)
    requires forall j :: 0 <= j < |pre| ==>
      !OccursAt(pre + (fieldName + ":") + gap + value + rest, fieldName + ":", j)
    requires forall k :: 0 <= k < |gap| ==> IsSpace(gap[k])
    requires value != [] && !IsSpace(value[0])
    requires forall k :: 0 <= k < |value| ==> !IsLineBreak(value[k])
    requires rest == [] || IsLineBreak(rest[0])
    ensures ExtractField(pre + (fieldName + ":") + gap + value + rest, fieldName) == TrimTrailing(value)
  {
    var text := pre + (fieldName + ":") + gap + value + rest;
    var e := |pre| + |fieldName| + 1 + |gap|;
    PiecesOfText(pre, fieldName + ":", gap, value, rest);
    ExtractAt(text, fieldName, |pre|, e, e + |value|);
  }

  lemma PiecesOfText(pre: string, pat: string, gap: string, value: string, rest: string)
    requires forall k :: 0 <= k < |gap| ==> IsSpace(gap[k])
    requires forall k :: 0 <= k < |value| ==> !IsLineBreak(value[k])
    requires rest == [] || IsLineBreak(rest[0])
    ensures var text := pre + pat + gap + value + rest;
      var q := |pre| + |pat|;
      var e := q + |gap|;
      var m := e + |value|;
      OccursAt(text, pat, |pre|) && text[e..m] == value &&
      (forall k :: q <= k < e ==> IsSpace(text[k])) &&
      (forall k :: e <= k < m ==> !IsLineBreak(text[k])) &&
      (m < |text| ==> IsLineBreak(text[m]))
  {
    var text := pre + pat + gap + value + rest;
    var q := |pre| + |pat|;
    var e := q + |gap|;
    var m := e + |value|;
    assert text[|pre|..q] == pat;
    assert text[e..m] == value;
    assert rest != [] ==> text[m] == rest[0];
    forall k | q <= k < e
      ensures IsSpace(text[k])
    {
      assert text[k] == gap[k - q];
    }
    forall k | e <= k < m
      ensures !IsLineBreak(text[k])
    {
      assert text[k] == value[k - e];
    }
  }

  /** Trailing characters from the trim set are all removed. */
  lemma {:induction false} TrimTrailingSuffix(v: string, w: string)
    requires v == [] || !IsTrailingTrim(v[|v| - 1])
    requires forall k :: 0 <= k < |w| ==> IsTrailingTrim(w[k])
    ensures TrimTrailing(v + w) == v
    decreases |w|
  {
    if w == [] {
      assert v + w == v;
    } else {
      assert (v + w)[..|v + w| - 1] == v + w[..|w| - 1];
      TrimTrailingSuffix(v, w[..|w| - 1]);
    }
  }

  /** A value on the line after the colon is still found. */
  lemma ValueOnNextLine()
    ensures ExtractField("IMEI:\r\n" + "300234010" + "\r\n", "IMEI") == "300234010"
  {
    var value := "300234010";
    var text := "IMEI:\r\n" + value + "\r\n";
    assert text[0..5] == "IMEI:";
    ExtractAt(text, "IMEI", 0, 7, 16);
    assert forall k :: 0 <= k < 9 ==> text[7..16][k] == value[k];
  }

  /** " UTC" after a transmit time is trimmed, as intended ... */
  lemma TransmitTimeSuffixTrimmed(time: string)
    requires time == [] || !IsTrailingTrim(time[|time| - 1])
    ensures TrimTrailing(time + " UTC") == time
  {
    TrimTrailingSuffix(time, " UTC");
  }

  /** ... but the same character set applies to every field: an upper-case
      hex frame whose last digit is 'C' loses that digit, leaving 99 digits,
      49 bytes, and the default payload. */
  lemma UppercaseFrameEndingInC(b: seq<uint8>)
    requires |b| == EXPECTED_PAYLOAD_SIZE
    requires b[MODEM_STATUS_LSB] % 16 == 12 && b[MODEM_STATUS_LSB] / 16 != 12
    ensures var s := HexRendering(b, true);
      TrimTrailing(s) == s[..|s| - 1] && PayloadFromBytes(HexBytes(TrimTrailing(s))) == DEFAULT_PAYLOAD
  {
    var s := HexRendering(b, true);
    RenderingAt(b, true, MODEM_STATUS_LSB);
    var v := s[..|s| - 1];
    assert s == v + [s[|s| - 1]];
    assert s[|s| - 1] == 'C';
    TrimTrailingSuffix(v, [s[|s| - 1]]);
    assert AllHexDigits(v);
    CleanHexOfDigits(v);
  }

  // ---------------------------------------------------------------------
  // parseEmail.
  // ---------------------------------------------------------------------

  /** The EmailContent record of include/Decoder.h. */
  datatype EmailContent = EmailContent(
    imei: string,
    momsn: int32,
    transmitTime: string,
    iridiumLatitude: real,
    iridiumLongitude: real,
    iridiumCep: real,
    sessionStatus: int32,
    hexData: string,
    payload: PayloadData,
    isValid: bool)

  /** A default-constructed EmailContent. */
  const DEFAULT_EMAIL := EmailContent("", 0, "", 0.0, 0.0, 0.0, 0, "", DEFAULT_PAYLOAD, false)

  /** A fresh record carries nothing and is not valid; neither is its payload. */
  lemma DefaultEmailInvalid()
    ensures !DEFAULT_EMAIL.isValid && !DEFAULT_EMAIL.payload.isValid
    ensures DEFAULT_EMAIL.momsn == 0 && DEFAULT_EMAIL.sessionStatus == 0
    ensures DEFAULT_EMAIL.imei == "" && DEFAULT_EMAIL.hexData == ""
  {
  }

  /** Converting an extracted value with std::stoi throws; "" is never
      converted. */
  predicate IntThrows(s: string) {
    s != "" && StoI(s).IntError?
  }

  /** Converting an extracted value with std::stod throws. */
  predicate RealThrows(s: string, stod: string -> Option<real>) {
    s != "" && stod(s).None?
  }

  /** The stored value: the conversion, or the default 0 for "". */
  function IntFieldValue(s: string): (v: int32)
    requires !IntThrows(s)
    ensures s == "" ==> v == 0
    ensures s != "" ==> StoI(s) == IntOk(v)
  {
    if s == "" then 0 else StoI(s).value
  }

  function RealFieldValue(s: string, stod: string -> Option<real>): (v: real)
    requires !RealThrows(s, stod)
    ensures s == "" ==> v == 0.0
    ensures s != "" ==> stod(s) == Some(v)
  {
    if s == "" then 0.0 else stod(s).value
  }

  /** The eight values parseEmail extracts from a body. extractField is
      pure and never throws, so extracting them all first is the same as
      extracting each just before it is used. */
  datatype BodyFields = BodyFields(
    imei: string, momsn: string, transmitTime: string,
    latitude: string, longitude: string, cep: string,
    sessionStatus: string, data: string)

  function FieldsOfBody(bodyText: string): BodyFields {
    BodyFields(
      ExtractField(bodyText, "IMEI"), ExtractField(bodyText, "MOMSN"),
      ExtractField(bodyText, "Transmit Time"), ExtractField(bodyText, "Iridium Latitude"),
      ExtractField(bodyText, "Iridium Longitude"), ExtractField(bodyText, "Iridium CEP"),
      ExtractField(bodyText, "Iridium Session Status"), ExtractField(bodyText, "Data"))
  }

  /** How many of the five numeric conversions of parseEmail, in the order
      MOMSN, latitude, longitude, CEP, session status, complete before the
      first one throws. */
  function ConversionsCompleted(f: BodyFields, stod: string -> Option<real>): (n: nat)
    ensures n <= 5
    ensures n == 5 <==> (!IntThrows(f.momsn) && !RealThrows(f.latitude, stod) &&
      !RealThrows(f.longitude, stod) && !RealThrows(f.cep, stod) && !IntThrows(f.sessionStatus))
  {
    if IntThrows(f.momsn) then 0
    else if RealThrows(f.latitude, stod) then 1
    else if RealThrows(f.longitude, stod) then 2
    else if RealThrows(f.cep, stod) then 3
    else if IntThrows(f.sessionStatus) then 4
    else 5
  }

  /** The record parseEmail builds from the extracted values, over the
      outcome of the conversions. */
  predicate FilledFrom(t: EmailContent, f: BodyFields, stod: string -> Option<real>) {
    var n := ConversionsCompleted(f, stod);
    t.imei == f.imei &&
    t.momsn == (if n >= 1 then IntFieldValue(f.momsn) else 0) &&
    t.transmitTime == (if n >= 1 then f.transmitTime else "") &&
    t.iridiumLatitude == (if n >= 2 then RealFieldValue(f.latitude, stod) else 0.0) &&
    t.iridiumLongitude == (if n >= 3 then RealFieldValue(f.longitude, stod) else 0.0) &&
    t.iridiumCep == (if n >= 4 then RealFieldValue(f.cep, stod) else 0.0) &&
    t.sessionStatus == (if n == 5 then IntFieldValue(f.sessionStatus) else 0) &&
    t.hexData == (if n == 5 then f.data else "")
  }

  /** The try block of Decoder::parseEmail up to the hex data: the fields
      are filled in order, and a conversion that throws leaves every later
      field at its default (completed is false). */
  method ParseTextFields(f: BodyFields, stod: string -> Option<real>)
    returns (telemetry: EmailContent, completed: bool)
    ensures FilledFrom(telemetry, f, stod)
    ensures completed <==> ConversionsCompleted(f, stod) == 5
    ensures telemetry.payload == DEFAULT_PAYLOAD && !telemetry.isValid
  {
    telemetry := DEFAULT_EMAIL;
    completed := false;
    telemetry := telemetry.(imei := f.imei);
    if f.momsn != "" {
      match StoI(f.momsn)
      case IntError(_) =>
        return;
      case IntOk(v) =>
        telemetry := telemetry.(momsn := v);
    }
    telemetry := telemetry.(transmitTime := f.transmitTime);
    if f.latitude != "" {
      match stod(f.latitude)
      case None =>
        return;
      case Some(v) =>
        telemetry := telemetry.(iridiumLatitude := v);
    }
    if f.longitude != "" {
      match stod(f.longitude)
      case None =>
        return;
      case Some(v) =>
        telemetry := telemetry.(iridiumLongitude := v);
    }
    if f.cep != "" {
      match stod(f.cep)
      case None =>
        return;
      case Some(v) =>
        telemetry := telemetry.(iridiumCep := v);
    }
    if f.sessionStatus != "" {
      match StoI(f.sessionStatus)
      case IntError(_) =>
        return;
      case IntOk(v) =>
        telemetry := telemetry.(sessionStatus := v);
    }
    telemetry := telemetry.(hexData := f.data);
    completed := true;
  }

  /** Decoder::parseEmail: the text fields, then the payload when there is
      hex data, then validity. */
  method ParseEmail(bodyText: string, stod: string -> Option<real>) returns (telemetry: EmailContent)
    ensures FilledFrom(telemetry, FieldsOfBody(bodyText), stod)
    ensures telemetry.payload ==
      (if telemetry.hexData != "" then PayloadFromBytes(HexBytes(telemetry.hexData)) else DEFAULT_PAYLOAD)
    ensures telemetry.isValid <==>
      ConversionsCompleted(FieldsOfBody(bodyText), stod) == 5 && telemetry.imei != "" && telemetry.hexData != ""
    ensures telemetry.isValid <==> telemetry.imei != "" && telemetry.hexData != ""
  {
    var fields := FieldsOfBody(bodyText);
    var completed;
    telemetry, completed := ParseTextFields(fields, stod);
    if !completed {
      return;
    }
    if telemetry.hexData != "" {
      var payload := DecodeHexPayload(telemetry.hexData);
      telemetry := telemetry.(payload := payload);
    }
    if telemetry.imei != "" && telemetry.hexData != "" {
      telemetry := telemetry.(isValid := true);
    }
  }

  /** A MOMSN value without a digit makes stoi throw at the first
      conversion: nothing after the IMEI is kept. */
  lemma UnreadableMomsnStopsParsing(t: EmailContent, f: BodyFields, stod: string -> Option<real>)
    requires FilledFrom(t, f, stod)
    requires f.momsn != [] && forall k :: 0 <= k < |f.momsn| ==> !IsDecimalDigit(f.momsn[k])
    ensures t.imei == f.imei && t.momsn == 0 && t.transmitTime == "" && t.hexData == ""
    ensures t.iridiumLatitude == 0.0 && t.iridiumLongitude == 0.0 && t.iridiumCep == 0.0 && t.sessionStatus == 0
  {
    StoIRejectsNoDigits(f.momsn);
  }
}
