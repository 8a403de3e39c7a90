/** The legacy command-line decoder (Decoder.java). It reads lines until
    one is "0", refuses lines longer than 100 characters, and decodes every
    other line pair by pair into the report it prints: the printed text is
    modelled as the values it shows. */
module LegacyDecoder {
  import opened Common
  import Hex
  import Config
  import Decoder

  /** The exceptions the decoder can raise; none of them is caught, so each
      ends the program. */
  datatype JavaException =
    | NumberFormat            // Integer.parseInt on a pair that is not a number
    | StringIndexOutOfBounds  // substring(i, i + 2) past the end of an odd-length line
    | ArrayIndexOutOfBounds   // decimalValues[k] with fewer than 50 values
    | NoSuchElement           // Scanner.nextLine with no line left

  datatype Result<T> = Ok(value: T) | Throws(error: JavaException)

  // ---------------------------------------------------------------------
  // Java int arithmetic.
  // ---------------------------------------------------------------------

  function Pow2(k: nat): (p: nat)
    ensures p > 0
  {
    if k == 0 then 1 else 2 * Pow2(k - 1)
  }

  lemma {:induction false} Pow2Add(a: nat, b: nat)
    ensures Pow2(a + b) == Pow2(a) * Pow2(b)
  {
    if a > 0 {
      Pow2Add(a - 1, b);
      assert Pow2(a + b) == 2 * Pow2(a - 1 + b);
    }
  }

  lemma Pow2Values()
    ensures Pow2(8) == 0x100 && Pow2(16) == 0x1_0000 && Pow2(24) == 0x100_0000
    ensures Pow2(32) == 0x1_0000_0000
  {
    assert Pow2(4) == 16;
    assert Pow2(8) == 0x100 by { Pow2Add(4, 4); }
    Pow2Add(8, 8);
    Pow2Add(16, 8);
    Pow2Add(16, 16);
  }

  /** The int a 32-bit result wraps to. */
  function Wrap32(x: int): int32 {
    SignedOf32(x % 0x1_0000_0000)
  }

  /** x << k on a Java int: the low 32 bits of x * 2^k. */
  function Shl(x: int32, k: nat): int32 {
    Wrap32(x * Pow2(k))
  }

  function Add(x: int32, y: int32): int32 {
    Wrap32(x + y)
  }

  /** The bitwise or of the low n bits of p and q. */
  function BitOr(p: nat, q: nat, n: nat): (r: nat)
    ensures r < Pow2(n)
  {
    if n == 0 then 0
    else 2 * BitOr(p / 2, q / 2, n - 1) + (if p % 2 == 1 || q % 2 == 1 then 1 else 0)
  }

  /** x | y on Java ints. */
  function Or(x: int32, y: int32): int32 {
    Pow2Values();
    SignedOf32(BitOr(PatternOf32(x), PatternOf32(y), 32))
  }

  /** Java's % truncates toward zero. */
  function Rem(a: int, b: int): int
    requires b > 0
  {
    if a >= 0 then a % b else -((-a) % b)
  }

  lemma {:induction false} OrZero(p: nat, n: nat)
    requires p < Pow2(n)
    ensures BitOr(p, 0, n) == p
  {
    if n > 0 {
      OrZero(p / 2, n - 1);
    }
  }

  /** Or of two values whose set bits do not overlap is their sum. */
  lemma {:induction false} OrDisjoint(p: nat, q: nat, n: nat, k: nat)
    requires k <= n && p < Pow2(n) && q < Pow2(k) && p % Pow2(k) == 0
    ensures BitOr(p, q, n) == p + q
  {
    if k == 0 {
      OrZero(p, n);
    } else {
      var m := p / Pow2(k);
      DivModOf(m, 0, Pow2(k));
      assert p == m * Pow2(k);
      assert p == (m * Pow2(k - 1)) * 2;
      DivModOf(m * Pow2(k - 1), 0, 2);
      DivModOf(m, 0, Pow2(k - 1));
      OrDisjoint(p / 2, q / 2, n - 1, k - 1);
    }
  }

  lemma PatternOfSigned(w: uint32)
    ensures PatternOf32(SignedOf32(w)) == w
  {
  }

  // ---------------------------------------------------------------------
  // Integer.parseInt(s, 16).
  // ---------------------------------------------------------------------

  /** Integer.parseInt with radix 16: an optional sign, then one or more
      hexadecimal digits, the whole string, and a value that fits an int. */
  function ParseHex(s: string): Option<int> {
    if s == [] then None
    else
      var digits := if s[0] == '-' || s[0] == '+' then s[1..] else s;
      if digits == [] || !Hex.AllHexDigits(digits) then None
      else
        var magnitude: int := Hex.HexValue(digits);
        var value := if s[0] == '-' then -magnitude else magnitude;
        if -0x8000_0000 <= value < 0x8000_0000 then Some(value) else None
  }

  /** What parseInt accepts as a two-character string: two hex digits, or
      a sign and one hex digit. */
  function ParsePair(a: char, b: char): (r: Option<int>)
    ensures r.Some? ==> -15 <= r.value <= 255
  {
    if Hex.IsHexDigit(a) && Hex.IsHexDigit(b) then Some(Hex.PairByte(a, b))
    else if (a == '+' || a == '-') && Hex.IsHexDigit(b) then
      Some(if a == '-' then 0 - Hex.HexDigitValue(b) else Hex.HexDigitValue(b))
    else None
  }

  /** parseInt on a two-character string is ParsePair of its characters. */
  lemma ParsePairCases(a: char, b: char)
    ensures ParseHex([a, b]) == ParsePair(a, b)
  {
    var s := [a, b];
    assert s[1..] == [b] && [b][..0] == [] && s[..1] == [a] && [a][..0] == [];
    if Hex.IsHexDigit(a) && Hex.IsHexDigit(b) {
      assert Hex.HexValue([a]) == Hex.HexDigitValue(a);
      assert Hex.HexValue(s) == Hex.HexValue([a]) * 16 + Hex.HexDigitValue(b);
    } else if (a == '+' || a == '-') && Hex.IsHexDigit(b) {
      assert Hex.HexValue([b]) == Hex.HexDigitValue(b);
    } else if !(a == '+' || a == '-') {
      assert !Hex.AllHexDigits(s);
    } else {
      assert !Hex.AllHexDigits([b]);
    }
  }

  predicate InPairRange(v: seq<int>) {
    forall k :: 0 <= k < |v| ==> -15 <= v[k] <= 255
  }

  // ---------------------------------------------------------------------
  // The pair loop that fills decimalValues.
  // ---------------------------------------------------------------------

  function Prefixed(a: seq<int>, r: Result<seq<int>>): Result<seq<int>> {
    match r
    case Ok(b) => Ok(a + b)
    case Throws(e) => Throws(e)
  }

  /** The values of the pairs from position i on, or the first exception. */
  function ParseFrom(hex: string, i: nat): (r: Result<seq<int>>)
    requires i <= |hex|
    ensures r.Ok? ==> |r.value| == (|hex| - i) / 2 && InPairRange(r.value)
    decreases |hex| - i
  {
    if i == |hex| then Ok([])
    else if i + 2 > |hex| then Throws(StringIndexOutOfBounds)
    else
      match ParsePair(hex[i], hex[i + 1])
      case None => Throws(NumberFormat)
      case Some(v) => Prefixed([v], ParseFrom(hex, i + 2))
  }

  /** The pair at position j parses. */
  predicate PairOk(hex: string, j: nat)
    requires j + 2 <= |hex|
  {
    ParsePair(hex[j], hex[j + 1]).Some?
  }

  /** Integer.parseInt of the pair at position j. */
  function PairValue(hex: string, j: nat): int
    requires j + 2 <= |hex| && PairOk(hex, j)
  {
    ParsePair(hex[j], hex[j + 1]).value
  }

  /** The rest from position i has even length and every pair in it parses. */
  predicate AllPairsOk(hex: string, i: nat)
    requires i <= |hex|
  {
    (|hex| - i) % 2 == 0 && forall k :: 0 <= k < (|hex| - i) / 2 ==> PairOk(hex, i + 2 * k)
  }

  /** When the parse succeeds, every pair parsed and the values are theirs. */
  lemma {:induction false} ParseFromValues(hex: string, i: nat)
    requires i <= |hex| && ParseFrom(hex, i).Ok?
    ensures AllPairsOk(hex, i)
    ensures forall k :: 0 <= k < (|hex| - i) / 2 ==> ParseFrom(hex, i).value[k] == PairValue(hex, i + 2 * k)
    decreases |hex| - i
  {
    if i < |hex| {
      var rest := ParseFrom(hex, i + 2);
      var x := PairValue(hex, i);
      assert ParseFrom(hex, i) == Prefixed([x], rest);
      var values := ParseFrom(hex, i).value;
      assert values == [x] + rest.value;
      ParseFromValues(hex, i + 2);
      forall k | 0 <= k < (|hex| - i) / 2
        ensures PairOk(hex, i + 2 * k) && values[k] == PairValue(hex, i + 2 * k)
      {
        if k == 0 {
          assert i + 2 * k == i;
        } else {
          assert i + 2 * k == (i + 2) + 2 * (k - 1);
          assert values[k] == rest.value[k - 1];
        }
      }
    }
  }

  /** When every pair parses, so does the whole rest. */
  lemma {:induction false} ParseFromComplete(hex: string, i: nat)
    requires i <= |hex| && AllPairsOk(hex, i)
    ensures ParseFrom(hex, i).Ok?
    decreases |hex| - i
  {
    if i < |hex| {
      assert PairOk(hex, i + 2 * 0);
      forall k | 0 <= k < (|hex| - (i + 2)) / 2
        ensures PairOk(hex, (i + 2) + 2 * k)
      {
        assert (i + 2) + 2 * k == i + 2 * (k + 1);
      }
      ParseFromComplete(hex, i + 2);
    }
  }

  // ---------------------------------------------------------------------
  // The report.
  // ---------------------------------------------------------------------

  /** An analog port: its number, the sensor the switch names for it, and
      the raw code msb * 256 + lsb the voltage is computed from. */
  datatype AnalogReading = AnalogReading(port: int, sensor: Sensor, raw: int)

  /** Degrees, minutes, seconds and the hemisphere letter. */
  datatype Position = Position(degrees: int, minutes: int, seconds: int, hemisphere: char)

  /** The values convertHexToDecimal prints, in order; the status line
      prints StatusText(statusCode). */
  datatype LegacyReport = LegacyReport(
    header: string,
    serial: int32,
    utcHours: int,
    utcMinutes: int,
    utcSeconds: int,
    arizonaHours24: int,
    arizonaHours12: int,
    amPm: string,
    latitude: Position,
    longitude: Position,
    latitudeDecimal: real,
    longitudeDecimal: real,
    altitude: int32,
    altitudeUnits: string,
    analog: seq<AnalogReading>,
    batteryRaw: int,
    statusCode: int)

  /** (v2 << 16) + (v3 << 8) + v4 on Java ints. */
  function Serial(v2: int32, v3: int32, v4: int32): int32 {
    Add(Add(Shl(v2, 16), Shl(v3, 8)), v4)
  }

  /** (v16 << 24) | (v17 << 16) | (v18 << 8) | v19 on Java ints. */
  function Altitude(v16: int32, v17: int32, v18: int32, v19: int32): int32 {
    Or(Or(Or(Shl(v16, 24), Shl(v17, 16)), Shl(v18, 8)), v19)
  }

  /** (char) x: the low 16 bits of the int as a UTF-16 code unit. */
  function JavaChar(x: int): char
    requires -15 <= x <= 255
  {
    if x < 0 then (x + 0x1_0000) as char else x as char
  }

  /** The 12-hour clock reading of a 24-hour hour. */
  function Hours12(h24: int): int {
    if h24 == 0 then 12 else if h24 == 12 then 12 else if h24 > 12 then h24 - 12 else h24
  }

  function AmPm(h24: int): string {
    if h24 < 12 then "AM" else "PM"
  }

  /** UTC-7 (Arizona) hours from UTC hours. */
  function ArizonaHours24(utc: int): int {
    Rem(utc - 7 + 24, 24)
  }

  /** The sensors the switch on (i - 21) / 2 names. */
  datatype Sensor =
    | InternalTemperature | Pressure | UvLight | NotAvailable
    | ExternalTemperature | AccelerationY | AccelerationX | UnknownSensor

  /** The sensor the switch names for a port. */
  function SensorOf(port: int): Sensor {
    match port
    case 0 => InternalTemperature
    case 1 => Pressure
    case 2 => UvLight
    case 3 => NotAvailable
    case 4 => ExternalTemperature
    case 5 => AccelerationY
    case 6 => AccelerationX
    case _ => UnknownSensor
  }

  /** The name printed for a sensor. */
  function SensorName(sensor: Sensor): string {
    match sensor
    case InternalTemperature => "Internal Temperature"
    case Pressure => "Pressure"
    case UvLight => "UV Light Sensor"
    case NotAvailable => "N/A"
    case ExternalTemperature => "External Temperature"
    case AccelerationY => "Acceleration Y-axis"
    case AccelerationX => "Acceleration X-axis"
    case UnknownSensor => "Unknown"
  }

  /** The analog loop, i = 21, 23, ..., 33: ports 0 to 6. */
  function AnalogOf(v: seq<int>): (r: seq<AnalogReading>)
    requires |v| >= 50
    ensures |r| == 7
  {
    seq(7, p requires 0 <= p < 7 => AnalogReading(p, SensorOf(p), v[21 + 2 * p] * 256 + v[22 + 2 * p]))
  }

  function ReportOf(v: seq<int>): LegacyReport
    requires |v| >= 50 && InPairRange(v)
  {
    var h24 := ArizonaHours24(v[5]);
    LegacyReport(
      header := [JavaChar(v[0]), JavaChar(v[1])],
      serial := Serial(v[2], v[3], v[4]),
      utcHours := v[5],
      utcMinutes := v[6],
      utcSeconds := v[7],
      arizonaHours24 := h24,
      arizonaHours12 := Hours12(h24),
      amPm := AmPm(h24),
      latitude := Position(v[8], v[9], v[10], if v[11] == 0 then 'N' else 'S'),
      longitude := Position(v[12], v[13], v[14], if v[15] == 0 then 'E' else 'W'),
      latitudeDecimal := DecimalDegrees(v[8], v[9], v[10], v[11]),
      longitudeDecimal := DecimalDegrees(v[12], v[13], v[14], v[15]),
      altitude := Altitude(v[16], v[17], v[18], v[19]),
      altitudeUnits := if v[20] == 0 then "meters" else "feet",
      analog := AnalogOf(v),
      batteryRaw := v[35] * 256 + v[36],
      statusCode := v[48] * 256 + v[49])
  }

  /** What convertHexToDecimal produces for a line, or the exception it
      raises. */
  function Converted(hex: string): Result<LegacyReport> {
    match ParseFrom(hex, 0)
    case Throws(e) => Throws(e)
    case Ok(v) => if |v| < Config.EXPECTED_PAYLOAD_SIZE then Throws(ArrayIndexOutOfBounds) else Ok(ReportOf(v))
  }

  // ---------------------------------------------------------------------
  // convertHexToDecimal.
  // ---------------------------------------------------------------------

  method ConvertHexToDecimal(hexString: string) returns (r: Result<LegacyReport>)
    ensures r == Converted(hexString)
  {
    var decimalValues := new int[|hexString| / 2];
    var i := 0;
    assert decimalValues[..0] == [];
    PrefixedEmpty(ParseFrom(hexString, 0));
    while i < |hexString|
      invariant 0 <= i <= |hexString| && i % 2 == 0
      invariant ParseFrom(hexString, 0) == Prefixed(decimalValues[..i / 2], ParseFrom(hexString, i))
    {
      if i + 2 > |hexString| {
        return Throws(StringIndexOutOfBounds);
      }
      var decimalValue := ParsePairAt(hexString, i);
      if decimalValue.None? {
        return Throws(NumberFormat);
      }
      ghost var before := decimalValues[..i / 2];
      decimalValues[i / 2] := decimalValue.value;
      assert decimalValues[..i / 2 + 1] == before + [decimalValue.value];
      PrefixedAssoc(before, decimalValue.value, ParseFrom(hexString, i + 2));
      i := i + 2;
    }
    assert decimalValues[..i / 2] == decimalValues[..];
    assert decimalValues[..] + [] == decimalValues[..];
    if decimalValues.Length < Config.EXPECTED_PAYLOAD_SIZE {
      return Throws(ArrayIndexOutOfBounds);
    }
    assert ParseFrom(hexString, 0) == Ok(decimalValues[..]);
    var report := BuildReport(decimalValues[..]);
    r := Ok(report);
  }

  /** The decoding and printing after the pair loop, from the contents of
      the filled array. */
  method BuildReport(v: seq<int>) returns (report: LegacyReport)
    requires |v| >= 50 && InPairRange(v)
    ensures report == ReportOf(v)
  {
    var ascii1 := JavaChar(v[0]);
    var ascii2 := JavaChar(v[1]);
    var arizonaHours12, amPm := ArizonaClock(ArizonaHours24(v[5]));
    var analog := AnalogLoop(v);
    var latitude := Position(v[8], v[9], v[10], if v[11] == 0 then 'N' else 'S');
    var longitude := Position(v[12], v[13], v[14], if v[15] == 0 then 'E' else 'W');
    var latitudeDecimal := ToDecimal(v[8], v[9], v[10], v[11]);
    var longitudeDecimal := ToDecimal(v[12], v[13], v[14], v[15]);
    var statusCode := v[48] * 256 + v[49];
    report := LegacyReport(
      header := [ascii1, ascii2],
      serial := Serial(v[2], v[3], v[4]),
      utcHours := v[5],
      utcMinutes := v[6],
      utcSeconds := v[7],
      arizonaHours24 := ArizonaHours24(v[5]),
      arizonaHours12 := arizonaHours12,
      amPm := amPm,
      latitude := latitude,
      longitude := longitude,
      latitudeDecimal := latitudeDecimal,
      longitudeDecimal := longitudeDecimal,
      altitude := Altitude(v[16], v[17], v[18], v[19]),
      altitudeUnits := if v[20] == 0 then "meters" else "feet",
      analog := analog,
      batteryRaw := v[35] * 256 + v[36],
      statusCode := statusCode);
  }

  /** Integer.parseInt(hexString.substring(i, i + 2), 16), None where it
      throws. */
  method ParsePairAt(hexString: string, i: nat) returns (decimalValue: Option<int>)
    requires i + 2 <= |hexString|
    ensures decimalValue == ParsePair(hexString[i], hexString[i + 1])
  {
    var hexPair := hexString[i..i + 2];
    decimalValue := ParseHex(hexPair);
    assert hexPair == [hexString[i], hexString[i + 1]];
    ParsePairCases(hexString[i], hexString[i + 1]);
  }

  lemma PrefixedEmpty(r: Result<seq<int>>)
    ensures Prefixed([], r) == r
  {
    if r.Ok? {
      assert [] + r.value == r.value;
    }
  }

  lemma PrefixedAssoc(a: seq<int>, x: int, r: Result<seq<int>>)
    ensures Prefixed(a, Prefixed([x], r)) == Prefixed(a + [x], r)
  {
    if r.Ok? {
      assert a + ([x] + r.value) == (a + [x]) + r.value;
    }
  }

  /** The decimal-degree computation done for the latitude and again for
      the longitude: the sign flips when the hemisphere byte is not zero. */
  method ToDecimal(degrees: int, minutes: int, seconds: int, hemisphere: int) returns (decimal: real)
    ensures decimal == DecimalDegrees(degrees, minutes, seconds, hemisphere)
  {
    decimal := degrees as real + minutes as real / 60.0 + seconds as real / 3600.0;
    if hemisphere != 0 {
      decimal := -decimal;
    }
  }

  /** The if/else chains that turn the Arizona hour into a 12-hour clock
      reading and a suffix. */
  method ArizonaClock(arizonaHours24: int) returns (arizonaHours12: int, amPm: string)
    ensures arizonaHours12 == Hours12(arizonaHours24) && amPm == AmPm(arizonaHours24)
  {
    if arizonaHours24 == 0 {
      arizonaHours12 := 12;
    } else if arizonaHours24 == 12 {
      arizonaHours12 := 12;
    } else if arizonaHours24 > 12 {
      arizonaHours12 := arizonaHours24 - 12;
    } else {
      arizonaHours12 := arizonaHours24;
    }
    if arizonaHours24 < 12 {
      amPm := "AM";
    } else {
      amPm := "PM";
    }
  }

  /** for (int i = 21; i <= 34; i += 2) over the analog bytes. */
  method AnalogLoop(decimalValues: seq<int>) returns (readings: seq<AnalogReading>)
    requires |decimalValues| >= 50
    ensures readings == AnalogOf(decimalValues)
  {
    ghost var spec := AnalogOf(decimalValues);
    readings := [];
    var i := 21;
    while i <= 34
      invariant 21 <= i <= 35 && i % 2 == 1
      invariant readings == spec[..(i - 21) / 2]
    {
      var msb := decimalValues[i];
      var lsb := decimalValues[i + 1];
      var rawValue := msb * 256 + lsb;
      var port := (i - 21) / 2;
      var sensor := SensorOf(port);
      assert spec[port] == AnalogReading(port, sensor, rawValue);
      assert spec[..port + 1] == spec[..port] + [spec[port]];
      readings := readings + [AnalogReading(port, sensor, rawValue)];
      i := i + 2;
    }
    assert spec[..7] == spec;
  }

  // ---------------------------------------------------------------------
  // The status switch.
  // ---------------------------------------------------------------------

  const UNKNOWN_STATUS := "Unknown or unhandled status code."
  const RESERVED_SUCCESS := "Reserved – indicates MO session success."
  const RESERVED_FAILURE := "Reserved – indicates MO session failure."
  const RESERVED_CODE_FAILURE := "Reserved return code indicating failure."

  /** The codes the switch has a case for. */
  predicate IsHandledStatus(code: int) {
    (0 <= code <= 8) || (10 <= code <= 65) || (100 <= code <= 101) || (104 <= code <= 109)
    || (112 <= code <= 114) || code == 116 || (118 <= code <= 120) || code == 200
    || (202 <= code <= 204) || (206 <= code <= 209) || (231 <= code <= 234) || (236 <= code <= 240)
    || (242 <= code <= 245) || (249 <= code <= 251) || (255 <= code <= 265) || code == 269
    || (272 <= code <= 276) || (278 <= code <= 311) || (313 <= code <= 320) || (322 <= code <= 324)
    || (326 <= code <= 331) || (333 <= code <= 340) || (400 <= code <= 407)
  }

  /** The text after "Status: " that the switch prints for a code. */
  function StatusText(code: int): string {
    match StatusCase(code)
    case Some(text) => text
    case None => UNKNOWN_STATUS
  }

  /** The text of the case for a code, or None where the default branch
      is taken. */
  function StatusCase(code: int): Option<string> {
    if code < 0 || code >= 410 then None
    else match code / 10
      case 0 => Status0Case(code)
      case 1 => Status10Case(code)
      case 2 => Status20Case(code)
      case 3 => Status30Case(code)
      case 4 => Status40Case(code)
      case 5 => Status50Case(code)
      case 6 => Status60Case(code)
      case 10 => Status100Case(code)
      case 11 => Status110Case(code)
      case 12 => Status120Case(code)
      case 20 => Status200Case(code)
      case 23 => Status230Case(code)
      case 24 => Status240Case(code)
      case 25 => Status250Case(code)
      case 26 => Status260Case(code)
      case 27 => Status270Case(code)
      case 28 => Status280Case(code)
      case 29 => Status290Case(code)
      case 30 => Status300Case(code)
      case 31 => Status310Case(code)
      case 32 => Status320Case(code)
      case 33 => Status330Case(code)
      case 34 => Status340Case(code)
      case 40 => Status400Case(code)
      case _ => None
  }

  /** The switch cases for codes 0..9. */
  function Status0Case(code: int): Option<string> {
    match code
    case 0 => Some("MO message transferred successfully.")
    case 1 => Some("MO message transferred successfully, but MT message in the queue was too big.")
    case 2 => Some("MO message transferred successfully, but Location Update was not accepted.")
    case 3 => Some(RESERVED_SUCCESS)
    case 4 => Some(RESERVED_SUCCESS)
    case 5 => Some(RESERVED_FAILURE)
    case 6 => Some(RESERVED_FAILURE)
    case 7 => Some(RESERVED_FAILURE)
    case 8 => Some(RESERVED_FAILURE)
    case _ => None
  }

  /** The switch cases for codes 10..19. */
  function Status10Case(code: int): Option<string> {
    match code
    case 10 => Some("GSS reported that the call did not complete in the allowed time.")
    case 11 => Some("MO message queue at the GSS is full.")
    case 12 => Some("MO message has too many segments.")
    case 13 => Some("GSS reported that the session did not complete.")
    case 14 => Some("Invalid segment size.")
    case 15 => Some("Access is denied.")
    case 16 => Some("ISU has been locked and may not make SBD calls (see +CULK command).")
    case 17 => Some("Gateway not responding (local session timeout).")
    case 18 => Some("Connection lost (RF drop).")
    case 19 => Some("Link failure (protocol error caused termination of the call).")
    case _ => None
  }

  /** The switch cases for codes 20..29. */
  function Status20Case(code: int): Option<string> {
    match code
    case 20 => Some(RESERVED_CODE_FAILURE)
    case 21 => Some(RESERVED_CODE_FAILURE)
    case 22 => Some(RESERVED_CODE_FAILURE)
    case 23 => Some(RESERVED_CODE_FAILURE)
    case 24 => Some(RESERVED_CODE_FAILURE)
    case 25 => Some(RESERVED_CODE_FAILURE)
    case 26 => Some(RESERVED_CODE_FAILURE)
    case 27 => Some(RESERVED_CODE_FAILURE)
    case 28 => Some(RESERVED_CODE_FAILURE)
    case 29 => Some(RESERVED_CODE_FAILURE)
    case _ => None
  }

  /** The switch cases for codes 30..39. */
  function Status30Case(code: int): Option<string> {
    match code
    case 30 => Some(RESERVED_CODE_FAILURE)
    case 31 => Some(RESERVED_CODE_FAILURE)
    case 32 => Some("No network service, unable to initiate call.")
    case 33 => Some("Antenna fault, unable to initiate call.")
    case 34 => Some("Radio is disabled, unable to initiate call (see *Rn command).")
    case 35 => Some("ISU is busy, unable to initiate call.")
    case 36 => Some("Try later, must wait 3 minutes since last registration.")
    case 37 => Some("SBD service is temporarily disabled.")
    case 38 => Some("Try later, traffic management period (see +SBDLOE command).")
    case 39 => Some(RESERVED_CODE_FAILURE)
    case _ => None
  }

  /** The switch cases for codes 40..49. */
  function Status40Case(code: int): Option<string> {
    match code
    case 40 => Some(RESERVED_CODE_FAILURE)
    case 41 => Some(RESERVED_CODE_FAILURE)
    case 42 => Some(RESERVED_CODE_FAILURE)
    case 43 => Some(RESERVED_CODE_FAILURE)
    case 44 => Some(RESERVED_CODE_FAILURE)
    case 45 => Some(RESERVED_CODE_FAILURE)
    case 46 => Some(RESERVED_CODE_FAILURE)
    case 47 => Some(RESERVED_CODE_FAILURE)
    case 48 => Some(RESERVED_CODE_FAILURE)
    case 49 => Some(RESERVED_CODE_FAILURE)
    case _ => None
  }

  /** The switch cases for codes 50..59. */
  function Status50Case(code: int): Option<string> {
    match code
    case 50 => Some(RESERVED_CODE_FAILURE)
    case 51 => Some(RESERVED_CODE_FAILURE)
    case 52 => Some(RESERVED_CODE_FAILURE)
    case 53 => Some(RESERVED_CODE_FAILURE)
    case 54 => Some(RESERVED_CODE_FAILURE)
    case 55 => Some(RESERVED_CODE_FAILURE)
    case 56 => Some(RESERVED_CODE_FAILURE)
    case 57 => Some(RESERVED_CODE_FAILURE)
    case 58 => Some(RESERVED_CODE_FAILURE)
    case 59 => Some(RESERVED_CODE_FAILURE)
    case _ => None
  }

  /** The switch cases for codes 60..69. */
  function Status60Case(code: int): Option<string> {
    match code
    case 60 => Some(RESERVED_CODE_FAILURE)
    case 61 => Some(RESERVED_CODE_FAILURE)
    case 62 => Some(RESERVED_CODE_FAILURE)
    case 63 => Some(RESERVED_CODE_FAILURE)
    case 64 => Some("Band violation (attempt to transmit outside permitted frequency band).")
    case 65 => Some("PLL lock failure hardware error during attempted transmit.")
    case _ => None
  }

  /** The switch cases for codes 100..109. */
  function Status100Case(code: int): Option<string> {
    match code
    case 100 => Some("FailureAfterSBDIX_UInt")
    case 101 => Some("ModemStatus_TimedOutUInt")
    case 104 => Some("UnexpectedMO_StatusValueUInt")
    case 105 => Some("UnexpectedMOMSN_ValueUInt")
    case 106 => Some("UnexpectedMT_StatusValueUInt")
    case 107 => Some("UnexpectedMTMSN_StatusValueUInt")
    case 108 => Some("UnexpectedMT_SBD_MessageLengthUInt")
    case 109 => Some("UnexpectedMT_SBD_MessageQueuedValueUInt")
    case _ => None
  }

  /** The switch cases for codes 110..119. */
  function Status110Case(code: int): Option<string> {
    match code
    case 112 => Some("ModemFailureAfterSBDIX_UInt")
    case 113 => Some("UnexpectedResponseToSBDIXUInt")
    case 114 => Some("TimeOutAfterSBDIX_UInt")
    case 116 => Some("TimeOutAfterSendingMessageSizeUInt")
    case 118 => Some("MO_BufferClearedErrorResponseUInt")
    case 119 => Some("MO_BufferClearedTimeOutUInt")
    case _ => None
  }

  /** The switch cases for codes 120..129. */
  function Status120Case(code: int): Option<string> {
    match code
    case 120 => Some("InvalidCommand")
    case _ => None
  }

  /** The switch cases for codes 200..209. */
  function Status200Case(code: int): Option<string> {
    match code
    case 200 => Some("MO_BufferClearedUnexpectedResponseUInt")
    case 202 => Some("MT_BufferClearedErrorResponseUInt")
    case 203 => Some("MT_BufferClearedTimeOutUInt")
    case 204 => Some("MT_BufferClearedUnexpectedResponseUInt")
    case 206 => Some("DisableFlowControlRequestTimedOutUInt")
    case 207 => Some("DisableFlowControlRequestUnexpectedResponseUInt")
    case 208 => Some("DisableSBD_RingSetupFailedDueToTimeOutUInt")
    case 209 => Some("DisableSBD_RingSetupFailedDueToUnexpectedResponseUInt")
    case _ => None
  }

  /** The switch cases for codes 230..239. */
  function Status230Case(code: int): Option<string> {
    match code
    case 231 => Some("RingIndicationErrononiouslyEnabledUInt")
    case 232 => Some("TimeOutAfterGetResponseFromVerifyDisableMT_AlertUInt")
    case 233 => Some("UnexpectedResponseToSBDMTAUInt")
    case 234 => Some("UnexpectedResponseAfterSendingMessageSizeUInt")
    case 236 => Some("SetupFailedDueToTimeOutUInt")
    case 237 => Some("SetupFailedDueToUnexpectedResponseUInt")
    case 238 => Some("NetworkStatusUnexpectedResponseUInt")
    case 239 => Some("TimeOutNetworkStatusUInt")
    case _ => None
  }

  /** The switch cases for codes 240..249. */
  function Status240Case(code: int): Option<string> {
    match code
    case 240 => Some("NetworkNotAvailableUInt")
    case 242 => Some("MT_MessageUnexpectedResponseUInt")
    case 243 => Some("MT_MessageTimeOutUInt")
    case 244 => Some("MT_MessageFailedCheckSumUInt")
    case 245 => Some("MT_MessageTooLongUInt")
    case 249 => Some("ModemSetupFailedDueToTimeOutUInt")
    case _ => None
  }

  /** The switch cases for codes 250..259. */
  function Status250Case(code: int): Option<string> {
    match code
    case 250 => Some("NoModemConnectedUInt")
    case 251 => Some("UnexpectedModemConnectedUInt")
    case 255 => Some("DuplicateTransmitOfDataAttemptedUInt")
    case 256 => Some("YouAreAskingToTransmitTooSoonSoTryLaterUInt")
    case 257 => Some("FlowControlSetupFailedDueToTimeOutUInt")
    case 258 => Some("FlowControlSetupFailedDueToUnexpectedResponseUInt")
    case 259 => Some("StoreConfigurationFailedDueToTimeOutUInt")
    case _ => None
  }

  /** The switch cases for codes 260..269. */
  function Status260Case(code: int): Option<string> {
    match code
    case 260 => Some("StoreConfigurationFailedDueToUnexpectedResponseUInt")
    case 261 => Some("SelectProfileFailedDueToTimeOutUInt")
    case 262 => Some("SelectProfileFailedDueToUnexpectedResponseUInt")
    case 263 => Some("RingIndicationUnexpectedResponseUInt")
    case 264 => Some("OK_SearchTimedOutUInt")
    case 265 => Some("OK_UnexpectedResponseUInt")
    case 269 => Some("SignalStrengthTooLowUInt")
    case _ => None
  }

  /** The switch cases for codes 270..279. */
  function Status270Case(code: int): Option<string> {
    match code
    case 272 => Some("TransmitSuccessfulButReceiveFailedUInt")
    case 273 => Some("UnexpectedFDR_CommandUInt")
    case 274 => Some("MPM_Busy_TransmitCommandRejectedUInt")
    case 275 => Some("PingToMPM_TimedOutUInt")
    case 276 => Some("PingToMPM_SuccessButToModemFailedUInt")
    case 278 => Some("InitialSetupModemStatusValueUInt")
    case 279 => Some("TimeOutWaitingForgetReceivedDataUInt")
    case _ => None
  }

  /** The switch cases for codes 280..289. */
  function Status280Case(code: int): Option<string> {
    match code
    case 280 => Some("NoPingMPM_BusyUInt")
    case 281 => Some("ModemFailedAtSetupUInt")
    case 282 => Some("UnexpectedResponseFromModemDuringSetupUInt")
    case 283 => Some("ModemSetupFailedBecauseMPM_BusyUInt")
    case 284 => Some("ModemFailedAtSetupTimeOutUInt")
    case 285 => Some("MPM_BusyWhenFDR_AskedForSetupUInt")
    case 286 => Some("MPM_DidNotRespondToRequestForDataUInt")
    case 287 => Some("SoftwareError1UInt")
    case 288 => Some("MPM_BusyUInt")
    case 289 => Some("AskedForPingResultTooSoon_DoPingAgainUInt")
    case _ => None
  }

  /** The switch cases for codes 290..299. */
  function Status290Case(code: int): Option<string> {
    match code
    case 290 => Some("PingToMPM_DidNotRespondUInt")
    case 291 => Some("WrongModemConnectedCheckSerialNumberUInt")
    case 292 => Some("RequestedTransmitTooSoonUInt")
    case 293 => Some("NoFunctioningModemPresentUInt")
    case 294 => Some("TimeOutAfterSendingMessageUInt")
    case 295 => Some("SBD_MessageTimeOutByModemUInt")
    case 296 => Some("SBD_MessageChecksumWrongUInt")
    case 297 => Some("SBD_MessageSizeWrongUInt")
    case 298 => Some("UnexpectedResponseAfterWritingDataToMobileOriginatedBufferUInt")
    case 299 => Some("SBD_MessageSizeTooBigOrTooSmallUInt")
    case _ => None
  }

  /** The switch cases for codes 300..309. */
  function Status300Case(code: int): Option<string> {
    match code
    case 300 => Some("SuccessByteAfterSBDIX_UInt")
    case 301 => Some("MessageSizeAcceptedUInt")
    case 302 => Some("MO_BufferClearedSuccessfullyUInt")
    case 303 => Some("MT_BufferClearedSuccessfullyUInt")
    case 304 => Some("OK_FoundUInt")
    case 305 => Some("RingIndicationDisabledUInt")
    case 306 => Some("SetupSuccessfulUInt")
    case 307 => Some("MT_MessageRetrievedCorrectlyUInt")
    case 308 => Some("MT_MessageIsNullUInt")
    case 309 => Some("ModemSetupSuccessfulUInt")
    case _ => None
  }

  /** The switch cases for codes 310..319. */
  function Status310Case(code: int): Option<string> {
    match code
    case 310 => Some("CorrectModemConnectedUInt")
    case 311 => Some("idleUInt")
    case 313 => Some("NetworkAvailableWithAcceptableSignalStrengthUInt")
    case 314 => Some("VerifyDisableMT_AlertUInt")
    case 315 => Some("FlushedUART_BufferUInt")
    case 316 => Some("ArraySentToModemUInt")
    case 317 => Some("InitiateTransmitAndReceiveUInt")
    case 318 => Some("TellModemToClearMO_BufferUInt")
    case 319 => Some("TellModemToClearMT_BufferUInt")
    case _ => None
  }

  /** The switch cases for codes 320..329. */
  function Status320Case(code: int): Option<string> {
    match code
    case 320 => Some("ToldModemToGiveUsTheReceivedMessageUInt")
    case 322 => Some("TransmissionProcessHasBegunUInt")
    case 323 => Some("SentPerformTransmitUInt")
    case 324 => Some("SentgetReceivedDataUInt")
    case 326 => Some("AboutToStartTransmitProcessUInt")
    case 327 => Some("WaitingForOK_FromModemUInt")
    case 328 => Some("InitialReturnCodeValueUInt")
    case 329 => Some("InitialMPM_ResponseValueUInt")
    case _ => None
  }

  /** The switch cases for codes 330..339. */
  function Status330Case(code: int): Option<string> {
    match code
    case 330 => Some("BusySettingUpModemUInt")
    case 331 => Some("PerformingPingUInt")
    case 333 => Some("PingNotRunningUInt")
    case 334 => Some("MPM_Busy_TransmitCommandPendingUInt")
    case 335 => Some("ModemSetupProceedingUInt")
    case 336 => Some("ModemDefaultsSetUInt")
    case 337 => Some("SentPingUInt")
    case 338 => Some("SBD_MessageSuccessfullyWrittenUInt")
    case 339 => Some("MT_MessagePendingUInt")
    case _ => None
  }

  /** The switch cases for codes 340..349. */
  function Status340Case(code: int): Option<string> {
    match code
    case 340 => Some("MT_MessagesPendingUInt")
    case _ => None
  }

  /** The switch cases for codes 400..409. */
  function Status400Case(code: int): Option<string> {
    match code
    case 400 => Some("PingThroughMPM_AndModemSuccessUInt")
    case 401 => Some("ModemReadyForUseUInt")
    case 402 => Some("TransmitSuccessfulAndNoReceiveUInt")
    case 403 => Some("TransmitAndReceiveSuccessfulUInt")
    case 404 => Some("TransmitAndReceiveSuccessfulPlusReceivePendingUInt")
    case 405 => Some("dataLoopAroundEnabledUInt")
    case 406 => Some("dataLooopAroundDisabledUInt")
    case 407 => Some("receiveDataPlacedInReceiveArrayUint")
    case _ => None
  }

  /** The default branch is taken exactly for the codes without a case. */
  lemma UnknownIffUnhandled(code: int)
    ensures StatusCase(code).None? <==> !IsHandledStatus(code)
  {
    if 0 <= code < 410 {
      match code / 10
      case 0 => Unhandled0(code);
      case 1 => Unhandled10(code);
      case 2 => Unhandled20(code);
      case 3 => Unhandled30(code);
      case 4 => Unhandled40(code);
      case 5 => Unhandled50(code);
      case 6 => Unhandled60(code);
      case 10 => Unhandled100(code);
      case 11 => Unhandled110(code);
      case 12 => Unhandled120(code);
      case 20 => Unhandled200(code);
      case 23 => Unhandled230(code);
      case 24 => Unhandled240(code);
      case 25 => Unhandled250(code);
      case 26 => Unhandled260(code);
      case 27 => Unhandled270(code);
      case 28 => Unhandled280(code);
      case 29 => Unhandled290(code);
      case 30 => Unhandled300(code);
      case 31 => Unhandled310(code);
      case 32 => Unhandled320(code);
      case 33 => Unhandled330(code);
      case 34 => Unhandled340(code);
      case 40 => Unhandled400(code);
      case _ =>
    }
  }

  lemma Unhandled0(code: int)
    requires 0 <= code <= 9
    ensures Status0Case(code).None? <==> !IsHandledStatus(code)
  {
  }

  lemma Unhandled10(code: int)
    requires 10 <= code <= 19
    ensures Status10Case(code).None? <==> !IsHandledStatus(code)
  {
  }

  lemma Unhandled20(code: int)
    requires 20 <= code <= 29
    ensures Status20Case(code).None? <==> !IsHandledStatus(code)
  {
  }

  lemma Unhandled30(code: int)
    requires 30 <= code <= 39
    ensures Status30Case(code).None? <==> !IsHandledStatus(code)
  {
  }

  lemma Unhandled40(code: int)
    requires 40 <= code <= 49
    ensures Status40Case(code).None? <==> !IsHandledStatus(code)
  {
  }

  lemma Unhandled50(code: int)
    requires 50 <= code <= 59
    ensures Status50Case(code).None? <==> !IsHandledStatus(code)
  {
  }

  lemma Unhandled60(code: int)
    requires 60 <= code <= 69
    ensures Status60Case(code).None? <==> !IsHandledStatus(code)
  {
  }

  lemma Unhandled100(code: int)
    requires 100 <= code <= 109
    ensures Status100Case(code).None? <==> !IsHandledStatus(code)
  {
  }

  lemma Unhandled110(code: int)
    requires 110 <= code <= 119
    ensures Status110Case(code).None? <==> !IsHandledStatus(code)
  {
  }

  lemma Unhandled120(code: int)
    requires 120 <= code <= 129
    ensures Status120Case(code).None? <==> !IsHandledStatus(code)
  {
  }

  lemma Unhandled200(code: int)
    requires 200 <= code <= 209
    ensures Status200Case(code).None? <==> !IsHandledStatus(code)
  {
  }

  lemma Unhandled230(code: int)
    requires 230 <= code <= 239
    ensures Status230Case(code).None? <==> !IsHandledStatus(code)
  {
  }

  lemma Unhandled240(code: int)
    requires 240 <= code <= 249
    ensures Status240Case(code).None? <==> !IsHandledStatus(code)
  {
  }

  lemma Unhandled250(code: int)
    requires 250 <= code <= 259
    ensures Status250Case(code).None? <==> !IsHandledStatus(code)
  {
  }

  lemma Unhandled260(code: int)
    requires 260 <= code <= 269
    ensures Status260Case(code).None? <==> !IsHandledStatus(code)
  {
  }

  lemma Unhandled270(code: int)
    requires 270 <= code <= 279
    ensures Status270Case(code).None? <==> !IsHandledStatus(code)
  {
  }

  lemma Unhandled280(code: int)
    requires 280 <= code <= 289
    ensures Status280Case(code).None? <==> !IsHandledStatus(code)
  {
  }

  lemma Unhandled290(code: int)
    requires 290 <= code <= 299
    ensures Status290Case(code).None? <==> !IsHandledStatus(code)
  {
  }

  lemma Unhandled300(code: int)
    requires 300 <= code <= 309
    ensures Status300Case(code).None? <==> !IsHandledStatus(code)
  {
  }

  lemma Unhandled310(code: int)
    requires 310 <= code <= 319
    ensures Status310Case(code).None? <==> !IsHandledStatus(code)
  {
  }

  lemma Unhandled320(code: int)
    requires 320 <= code <= 329
    ensures Status320Case(code).None? <==> !IsHandledStatus(code)
  {
  }

  lemma Unhandled330(code: int)
    requires 330 <= code <= 339
    ensures Status330Case(code).None? <==> !IsHandledStatus(code)
  {
  }

  lemma Unhandled340(code: int)
    requires 340 <= code <= 349
    ensures Status340Case(code).None? <==> !IsHandledStatus(code)
  {
  }

  lemma Unhandled400(code: int)
    requires 400 <= code <= 409
    ensures Status400Case(code).None? <==> !IsHandledStatus(code)
  {
  }

  /** The +SBDIX mobile-originated codes 0..65 all have a case except 9. */
  lemma MobileOriginatedCodes(code: int)
    requires 0 <= code <= 65
    ensures IsHandledStatus(code) <==> code != 9
  {
  }

  /** The reserved ranges of the +SBDIX table. */
  lemma ReservedRanges(code: int)
    ensures 3 <= code <= 4 ==> StatusText(code) == RESERVED_SUCCESS
    ensures 5 <= code <= 8 ==> StatusText(code) == RESERVED_FAILURE
    ensures (20 <= code <= 31 || 39 <= code <= 63) ==> StatusText(code) == RESERVED_CODE_FAILURE
  {
  }

  /** Every code the C++ decoder describes by name has a case here too. */
  lemma CppListedCodesHandled(code: int)
    requires Decoder.IsListedStatus(code)
    ensures IsHandledStatus(code) && StatusCase(code).Some?
  {
    UnknownIffUnhandled(code);
  }

  // ---------------------------------------------------------------------
  // Properties of the report.
  // ---------------------------------------------------------------------

  /** A line converts exactly when it has an even number of characters, at
      least 100, and every pair parses. */
  lemma ConvertedOkIff(hex: string)
    ensures Converted(hex).Ok? <==>
      |hex| >= 100 && AllPairsOk(hex, 0)
  {
    if Converted(hex).Ok? {
      ParseFromValues(hex, 0);
    }
    if AllPairsOk(hex, 0) {
      ParseFromComplete(hex, 0);
    }
  }

  /** The Arizona hour is in 0..23 and is UTC - 7 modulo 24. */
  lemma ArizonaHoursRange(utc: int)
    requires -15 <= utc <= 255
    ensures 0 <= ArizonaHours24(utc) < 24 && ArizonaHours24(utc) == (utc - 7) % 24
  {
    DivModOf((utc + 17) / 24, (utc + 17) % 24, 24);
    assert utc - 7 == ((utc + 17) / 24 - 1) * 24 + (utc + 17) % 24;
    DivModOf(0, 0, 24);
  }

  /** Reading a 12-hour clock back as a 24-hour hour. */
  function To24(h12: int, suffix: string): int {
    if suffix == "AM" then (if h12 == 12 then 0 else h12) else (if h12 == 12 then 12 else h12 + 12)
  }

  /** The 12-hour reading is 1..12, "AM" exactly before noon, and together
      with the suffix it gives the 24-hour hour back. */
  lemma TwelveHourClock(h24: int)
    requires 0 <= h24 < 24
    ensures 1 <= Hours12(h24) <= 12
    ensures AmPm(h24) == "AM" <==> h24 < 12
    ensures To24(Hours12(h24), AmPm(h24)) == h24
  {
  }

  /** A value that fits an int is its own wrap. */
  lemma WrapSmall(y: int)
    requires -0x8000_0000 <= y < 0x8000_0000
    ensures Wrap32(y) == y
  {
  }

  /** serial = (v2 << 16) + (v3 << 8) + v4 never overflows: it is the
      exact sum, and for bytes the 24-bit big-endian number. */
  lemma SerialFormula(v2: int, v3: int, v4: int)
    requires -15 <= v2 <= 255 && -15 <= v3 <= 255 && -15 <= v4 <= 255
    ensures Serial(v2, v3, v4) == v2 * 0x1_0000 + v3 * 0x100 + v4
    ensures 0 <= v2 && 0 <= v3 && 0 <= v4 ==> Serial(v2, v3, v4) == BigEndian24(v2, v3, v4)
  {
    Pow2Values();
    ShlExact(v2, 16, 0x1_0000);
    ShlExact(v3, 8, 0x100);
    var high := v2 * 0x1_0000 + v3 * 0x100;
    assert Add(Shl(v2, 16), Shl(v3, 8)) == high by { WrapSmall(high); }
    WrapSmall(high + v4);
  }

  /** x << k is x * 2^k when that fits an int. */
  lemma ShlExact(x: int32, k: nat, m: int)
    requires m == Pow2(k) && -0x8000_0000 <= x * m < 0x8000_0000
    ensures Shl(x, k) == x * m
  {
    WrapSmall(x * m);
  }

  /** A byte shifted left by at most 24 bits: its 32-bit pattern is the
      byte times 2^k. */
  lemma ShiftedByte(x: uint8, k: nat, m: nat)
    requires m == Pow2(k) && m <= 0x100_0000
    ensures Shl(x, k) == SignedOf32(x * m) && PatternOf32(Shl(x, k)) == x * m
  {
    DivModOf(0, x * m, 0x1_0000_0000);
    PatternOfSigned(x * m);
  }

  /** For bytes, the or of the shifted bytes is the two's-complement value
      of the 32-bit big-endian number: the C++ altitude. */
  lemma AltitudeOfBytes(a: uint8, b: uint8, c: uint8, d: uint8)
    ensures Altitude(a, b, c, d) == SignedOf32(BigEndian32(a, b, c, d))
  {
    Pow2Values();
    var p1, p2, p3 := a * 0x100_0000, b * 0x1_0000, c * 0x100;
    ShiftedByte(a, 24, 0x100_0000);
    ShiftedByte(b, 16, 0x1_0000);
    ShiftedByte(c, 8, 0x100);
    DivModOf(a, 0, 0x100_0000);
    OrDisjoint(p1, p2, 32, 24);
    var q := p1 + p2;
    PatternOfSigned(q);
    DivModOf(a * 0x100 + b, 0, 0x1_0000);
    assert q == (a * 0x100 + b) * 0x1_0000;
    OrDisjoint(q, p3, 32, 16);
    var r := q + p3;
    PatternOfSigned(r);
    assert r == (a * 0x1_0000 + b * 0x100 + c) * 0x100;
    DivModOf(a * 0x1_0000 + b * 0x100 + c, 0, 0x100);
    OrDisjoint(r, d, 32, 8);
    assert r + d == BigEndian32(a, b, c, d);
  }

  // ---------------------------------------------------------------------
  // Agreement with the C++ decoder.
  // ---------------------------------------------------------------------

  /** A line of 100 hex digits parses to exactly the bytes hexStringToBytes
      gives for it. */
  lemma ValuesOfHexLine(line: string)
    requires |line| == 100 && Hex.AllHexDigits(line)
    ensures ParseFrom(line, 0).Ok?
    ensures var v := ParseFrom(line, 0).value; var b := Hex.HexBytes(line);
      |v| == |b| == 50 && forall k :: 0 <= k < 50 ==> v[k] == b[k]
  {
    Hex.CleanHexOfDigits(line);
    forall k | 0 <= k < 50
      ensures PairOk(line, 0 + 2 * k) && PairValue(line, 0 + 2 * k) == Hex.PairByte(line[2 * k], line[2 * k + 1])
    {
    }
    ParseFromComplete(line, 0);
    ParseFromValues(line, 0);
  }

  /** On a well-formed 100-digit line the Java decoder prints the same
      header, serial number, UTC time, coordinates, altitude, units, raw
      analog codes and modem status as the C++ decoder decodes. */
  lemma AgreesWithCppDecoder(line: string)
    requires |line| == 100 && Hex.AllHexDigits(line)
    ensures Converted(line).Ok?
    ensures var r := Converted(line).value; var b := Hex.HexBytes(line); var p := Decoder.PayloadFromBytes(b);
      && r.header == p.header
      && r.serial == p.serialNumber
      && r.utcHours == p.utcHours && r.utcMinutes == p.utcMinutes && r.utcSeconds == p.utcSeconds
      && r.latitudeDecimal == p.latitude && r.longitudeDecimal == p.longitude
      && r.altitude == p.altitude && r.altitudeUnits == p.altitudeUnits
      && r.statusCode == p.modemStatus
      && r.batteryRaw == Config.PortValue(b, Config.PORT_BATTERY)
      && (forall k :: 0 <= k < 7 ==> r.analog[k].raw == Config.PortValue(b, k))
  {
    ValuesOfHexLine(line);
    var v := ParseFrom(line, 0).value;
    var b := Hex.HexBytes(line);
    AgreeOnIdentity(v, b);
    AgreeOnPosition(v, b);
    AgreeOnSensors(v, b);
  }

  /** The parsed values are the bytes. */
  predicate SameValues(v: seq<int>, b: seq<uint8>) {
    |v| == 50 && |b| == 50 && forall k :: 0 <= k < 50 ==> v[k] == b[k]
  }

  lemma AgreeOnIdentity(v: seq<int>, b: seq<uint8>)
    requires SameValues(v, b)
    ensures InPairRange(v)
    ensures var r := ReportOf(v); var p := Decoder.PayloadFromBytes(b);
      r.header == p.header && r.serial == p.serialNumber
      && r.utcHours == p.utcHours && r.utcMinutes == p.utcMinutes && r.utcSeconds == p.utcSeconds
  {
    SerialFormula(v[2], v[3], v[4]);
    JavaCharOfByte(b[0]);
    JavaCharOfByte(b[1]);
  }

  lemma JavaCharOfByte(x: uint8)
    ensures JavaChar(x) == x as char
  {
  }

  lemma AgreeOnPosition(v: seq<int>, b: seq<uint8>)
    requires SameValues(v, b)
    ensures InPairRange(v)
    ensures var r := ReportOf(v); var p := Decoder.PayloadFromBytes(b);
      r.latitudeDecimal == p.latitude && r.longitudeDecimal == p.longitude
      && r.altitude == p.altitude && r.altitudeUnits == p.altitudeUnits
  {
    AltitudeOfBytes(b[16], b[17], b[18], b[19]);
  }

  lemma AgreeOnSensors(v: seq<int>, b: seq<uint8>)
    requires SameValues(v, b)
    ensures InPairRange(v)
    ensures var r := ReportOf(v); var p := Decoder.PayloadFromBytes(b);
      r.statusCode == p.modemStatus
      && r.batteryRaw == Config.PortValue(b, Config.PORT_BATTERY)
      && (forall k :: 0 <= k < 7 ==> r.analog[k].raw == Config.PortValue(b, k))
  {
    AgreeOnAnalog(v, b);
  }

  lemma AgreeOnAnalog(v: seq<int>, b: seq<uint8>)
    requires SameValues(v, b)
    ensures forall k :: 0 <= k < 7 ==> AnalogOf(v)[k].raw == Config.PortValue(b, k)
  {
    forall k | 0 <= k < 7
      ensures AnalogOf(v)[k].raw == Config.PortValue(b, k)
    {
      assert AnalogOf(v)[k].raw == v[21 + 2 * k] * 256 + v[22 + 2 * k];
    }
  }

  /** The two decoders name the analog ports differently: the Java switch
      calls port 0 the internal temperature and port 4 the external one,
      the C++ decoder reads the internal temperature from port 4 and the
      external one from port 3. */
  lemma PortNamingDiffers()
    ensures SensorOf(0) == InternalTemperature && Config.PORT_INTERNAL_TEMP == 4
    ensures SensorOf(Config.PORT_EXTERNAL_TEMP) == NotAvailable
    ensures SensorOf(4) == ExternalTemperature
  {
  }

  // ---------------------------------------------------------------------
  // The main loop.
  // ---------------------------------------------------------------------

  /** What one line read by main leads to. */
  datatype LineOutcome = Rejected | Decoded(report: LegacyReport)

  /** How the session ends: "0" was entered, or an exception escaped. */
  datatype SessionEnd = Quit | Crashed(error: JavaException)

  datatype SessionResult = SessionResult(outcomes: seq<LineOutcome>, end: SessionEnd)

  /** The session over the input lines, from the first unread one. */
  function Session(lines: seq<string>): (r: SessionResult)
    ensures |r.outcomes| <= |lines|
  {
    if lines == [] then SessionResult([], Crashed(NoSuchElement))
    else if lines[0] == "0" then SessionResult([], Quit)
    else if |lines[0]| > 100 then Then(Rejected, Session(lines[1..]))
    else match Converted(lines[0])
      case Throws(e) => SessionResult([], Crashed(e))
      case Ok(report) => Then(Decoded(report), Session(lines[1..]))
  }

  function Then(o: LineOutcome, r: SessionResult): SessionResult {
    SessionResult([o] + r.outcomes, r.end)
  }

  function Appended(done: seq<LineOutcome>, r: SessionResult): SessionResult {
    SessionResult(done + r.outcomes, r.end)
  }

  /** The while (!flagexit) loop of main over the lines the scanner gives. */
  method RunSession(lines: seq<string>) returns (result: SessionResult)
    ensures result == Session(lines)
  {
    var outcomes: seq<LineOutcome> := [];
    var flagexit := false;
    var next := 0;
    assert lines[0..] == lines;
    while !flagexit
      invariant 0 <= next <= |lines|
      invariant !flagexit ==> Session(lines) == Appended(outcomes, Session(lines[next..]))
      invariant flagexit ==> Session(lines) == SessionResult(outcomes, Quit)
      decreases |lines| - next, !flagexit
    {
      if next == |lines| {
        return SessionResult(outcomes, Crashed(NoSuchElement));
      }
      var hexInput := lines[next];
      SessionUnfold(lines, next);
      next := next + 1;
      if hexInput == "0" {
        flagexit := true;
        continue;
      }
      if |hexInput| > 100 {
        AppendedThen(outcomes, Rejected, Session(lines[next..]));
        outcomes := outcomes + [Rejected];
        continue;
      }
      var converted := ConvertHexToDecimal(hexInput);
      if converted.Throws? {
        return SessionResult(outcomes, Crashed(converted.error));
      }
      AppendedThen(outcomes, Decoded(converted.value), Session(lines[next..]));
      outcomes := outcomes + [Decoded(converted.value)];
    }
    result := SessionResult(outcomes, Quit);
  }

  /** One step of Session from the line at index next. */
  lemma SessionUnfold(lines: seq<string>, next: nat)
    requires next < |lines|
    ensures var line := lines[next]; var rest := Session(lines[next + 1..]);
      (line == "0" ==> Session(lines[next..]) == SessionResult([], Quit)) &&
      (line != "0" && |line| > 100 ==> Session(lines[next..]) == Then(Rejected, rest)) &&
      (line != "0" && |line| <= 100 && Converted(line).Throws? ==>
        Session(lines[next..]) == SessionResult([], Crashed(Converted(line).error))) &&
      (line != "0" && |line| <= 100 && Converted(line).Ok? ==>
        Session(lines[next..]) == Then(Decoded(Converted(line).value), rest))
  {
    assert lines[next..][0] == lines[next] && lines[next..][1..] == lines[next + 1..];
  }

  lemma AppendedThen(done: seq<LineOutcome>, o: LineOutcome, r: SessionResult)
    ensures Appended(done, Then(o, r)) == Appended(done + [o], r)
  {
    assert done + ([o] + r.outcomes) == (done + [o]) + r.outcomes;
  }

  /** Nothing after the first "0" is read. */
  lemma {:induction false} QuitStopsReading(before: seq<string>, after: seq<string>, other: seq<string>)
    requires forall k :: 0 <= k < |before| ==> before[k] != "0"
    ensures Session(before + ["0"] + after) == Session(before + ["0"] + other)
  {
    if before == [] {
      assert (before + ["0"] + after)[0] == "0" && (before + ["0"] + other)[0] == "0";
    } else {
      assert (before + ["0"] + after)[1..] == before[1..] + ["0"] + after;
      assert (before + ["0"] + other)[1..] == before[1..] + ["0"] + other;
      QuitStopsReading(before[1..], after, other);
    }
  }

  /** What a line other than "0" leads to: lines longer than 100 characters
      are rejected, and a line is decoded exactly when it has 100
      characters that pair up into numbers. */
  lemma LineGate(line: string, rest: seq<string>)
    requires line != "0"
    ensures |line| > 100 ==> Session([line] + rest) == Then(Rejected, Session(rest))
    ensures |line| <= 100 ==>
      (Session([line] + rest).outcomes != [] && Session([line] + rest).outcomes[0].Decoded?
       <==> |line| == 100 && AllPairsOk(line, 0))
  {
    assert ([line] + rest)[0] == line && ([line] + rest)[1..] == rest;
    ConvertedOkIff(line);
  }
}
