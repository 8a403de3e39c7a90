/** The fixed 50-byte telemetry frame of include/Config.h: the byte offset of
    every field, the analog port numbers, and the default-initialised records
    the decoder fills in. */
module Config {
  import opened Common

  // Header: two ASCII characters, expected 'R' (0x52) and 'B' (0x42).
  const HEADER_BYTE_0: nat := 0
  const HEADER_BYTE_1: nat := 1
  const HEADER_CHAR_0: uint8 := 0x52
  const HEADER_CHAR_1: uint8 := 0x42
  // RockBLOCK serial number, three bytes, most significant first.
  const SERIAL_BYTE_0: nat := 2
  const SERIAL_BYTE_1: nat := 3
  const SERIAL_BYTE_2: nat := 4
  // UTC time.
  const UTC_HOURS: nat := 5
  const UTC_MINUTES: nat := 6
  const UTC_SECONDS: nat := 7
  // Latitude as degrees, minutes, seconds and hemisphere (0 = North, otherwise South).
  const LAT_DEGREES: nat := 8
  const LAT_MINUTES: nat := 9
  const LAT_SECONDS: nat := 10
  const LAT_HEMISPHERE: nat := 11
  // Longitude likewise (0 = East, otherwise West).
  const LON_DEGREES: nat := 12
  const LON_MINUTES: nat := 13
  const LON_SECONDS: nat := 14
  const LON_HEMISPHERE: nat := 15
  // Altitude: a big-endian two's-complement int32, then a units byte (0 = meters).
  const ALTITUDE_BYTE_0: nat := 16
  const ALTITUDE_BYTE_1: nat := 17
  const ALTITUDE_BYTE_2: nat := 18
  const ALTITUDE_BYTE_3: nat := 19
  const ALTITUDE_UNITS: nat := 20
  // Eight analog ports of two bytes each, most significant first.
  const ANALOG_DATA_BASE: nat := 21
  const BYTES_PER_PORT: nat := 2
  const ANALOG_PORT_COUNT: nat := 8
  const PORT_INTERNAL_TEMP: nat := 4
  const PORT_PRESSURE: nat := 2
  const PORT_EXTERNAL_TEMP: nat := 3
  const PORT_ACCEL_Y: nat := 6
  const PORT_ACCEL_X: nat := 5
  const PORT_BATTERY: nat := 7
  // Reserved bytes, then the Iridium modem status.
  const RESERVED_START: nat := 37
  const RESERVED_END: nat := 47
  const MODEM_STATUS_MSB: nat := 48
  const MODEM_STATUS_LSB: nat := 49
  const EXPECTED_PAYLOAD_SIZE: nat := 50

  /** The first of the two bytes of an analog port. */
  function PortOffset(port: nat): nat {
    ANALOG_DATA_BASE + port * BYTES_PER_PORT
  }

  /** The ports the decoder reads, in the order internal temperature,
      pressure, external temperature, Y and X acceleration, battery. */
  const NAMED_PORTS: seq<nat> :=
    [PORT_INTERNAL_TEMP, PORT_PRESSURE, PORT_EXTERNAL_TEMP, PORT_ACCEL_Y, PORT_ACCEL_X, PORT_BATTERY]

  /** Every port of the block lies inside bytes 21..36, below the reserved
      bytes, and consecutive ports do not overlap. */
  lemma PortsWithinAnalogBlock(p: nat)
    requires p < ANALOG_PORT_COUNT
    ensures ANALOG_DATA_BASE <= PortOffset(p) && PortOffset(p) + 1 < RESERVED_START
    ensures p + 1 < ANALOG_PORT_COUNT ==> PortOffset(p) + 1 < PortOffset(p + 1)
  {
  }

  /** The six named ports are pairwise distinct and all lie in 2..7. */
  lemma NamedPortsDistinct()
    ensures forall i, j :: 0 <= i < j < |NAMED_PORTS| ==> NAMED_PORTS[i] != NAMED_PORTS[j]
    ensures forall i :: 0 <= i < |NAMED_PORTS| ==> 2 <= NAMED_PORTS[i] < ANALOG_PORT_COUNT
  {
  }

  /** The regions of the frame, in byte order. */
  datatype Region = Header | Serial | UtcTime | Latitude | Longitude | Altitude
                  | AltitudeUnits | AnalogPort(port: nat) | Reserved | ModemStatus

  /** The region the layout constants assign to byte i, if any. */
  function RegionOf(i: int): Option<Region> {
    if i == HEADER_BYTE_0 || i == HEADER_BYTE_1 then Some(Header)
    else if i == SERIAL_BYTE_0 || i == SERIAL_BYTE_1 || i == SERIAL_BYTE_2 then Some(Serial)
    else if i == UTC_HOURS || i == UTC_MINUTES || i == UTC_SECONDS then Some(UtcTime)
    else if LAT_DEGREES <= i <= LAT_HEMISPHERE then Some(Latitude)
    else if LON_DEGREES <= i <= LON_HEMISPHERE then Some(Longitude)
    else if ALTITUDE_BYTE_0 <= i <= ALTITUDE_BYTE_3 then Some(Altitude)
    else if i == ALTITUDE_UNITS then Some(AltitudeUnits)
    else if PortOffset(0) <= i < PortOffset(ANALOG_PORT_COUNT) then
      Some(AnalogPort((i - ANALOG_DATA_BASE) / BYTES_PER_PORT))
    else if RESERVED_START <= i <= RESERVED_END then Some(Reserved)
    else if i == MODEM_STATUS_MSB || i == MODEM_STATUS_LSB then Some(ModemStatus)
    else None
  }

  /** The layout covers every byte of the frame and nothing outside it, and
      each analog port owns exactly its two bytes. */
  lemma LayoutTilesFrame(i: int)
    ensures RegionOf(i).Some? <==> 0 <= i < EXPECTED_PAYLOAD_SIZE
    ensures forall p :: 0 <= p < ANALOG_PORT_COUNT ==>
      (RegionOf(i) == Some(AnalogPort(p)) <==> i == PortOffset(p) || i == PortOffset(p) + 1)
  {
  }

  /** AnalogSensorData. The source stores the voltage rawCode × ADC_TO_VOLTAGE
      and a calibrated float measurement; this model keeps the raw 16-bit code
      both are computed from. */
  datatype AnalogSensorData = AnalogSensorData(rawCode: uint16, name: string, isValid: bool)

  const DEFAULT_SENSOR := AnalogSensorData(0, "", false)

  /** A position as degrees, minutes, seconds and a hemisphere letter. */
  datatype Dms = Dms(degrees: uint8, minutes: uint8, seconds: uint8, hemisphere: char)

  /** PayloadData: everything the frame decoder produces. latitude and
      longitude are decimal degrees, modelled as exact reals. */
  datatype PayloadData = PayloadData(
    header: string,
    headerValid: bool,
    serialNumber: uint32,
    utcHours: uint8,
    utcMinutes: uint8,
    utcSeconds: uint8,
    latitude: real,
    longitude: real,
    latitudeDms: Dms,
    longitudeDms: Dms,
    altitude: int32,
    altitudeUnits: string,
    internalTemp: AnalogSensorData,
    pressure: AnalogSensorData,
    uvLight: AnalogSensorData,
    unused: AnalogSensorData,
    externalTemp: AnalogSensorData,
    accelY: AnalogSensorData,
    accelX: AnalogSensorData,
    battery: AnalogSensorData,
    modemStatus: uint16,
    modemStatusDescription: string,
    isValid: bool)

  /** A default-constructed PayloadData. */
  const DEFAULT_PAYLOAD := PayloadData(
    "", false, 0, 0, 0, 0, 0.0, 0.0, Dms(0, 0, 0, 'N'), Dms(0, 0, 0, 'E'), 0, "",
    DEFAULT_SENSOR, DEFAULT_SENSOR, DEFAULT_SENSOR, DEFAULT_SENSOR,
    DEFAULT_SENSOR, DEFAULT_SENSOR, DEFAULT_SENSOR, DEFAULT_SENSOR,
    0, "", false)

  /** Everything a frame carries, field by field, as the layout describes it
      (independent of what the decoder keeps of it). */
  datatype FrameFields = FrameFields(
    header0: uint8, header1: uint8,
    serial: nat,
    utcHours: uint8, utcMinutes: uint8, utcSeconds: uint8,
    latDegrees: uint8, latMinutes: uint8, latSeconds: uint8, latHemisphere: uint8,
    lonDegrees: uint8, lonMinutes: uint8, lonSeconds: uint8, lonHemisphere: uint8,
    altitude: int32, altitudeUnits: uint8,
    ports: seq<uint16>,
    reserved: seq<uint8>,
    modemStatus: uint16)

  predicate WellFormed(f: FrameFields) {
    f.serial < 0x100_0000 && |f.ports| == ANALOG_PORT_COUNT &&
    |f.reserved| == RESERVED_END - RESERVED_START + 1
  }

  /** The 16-bit value of analog port p, most significant byte first. */
  function PortValue(b: seq<uint8>, p: nat): uint16
    requires |b| >= EXPECTED_PAYLOAD_SIZE && p < ANALOG_PORT_COUNT
  {
    BigEndian16(b[PortOffset(p)], b[PortOffset(p) + 1])
  }

  /** Reads every field of the first 50 bytes at its layout offset. */
  function FieldsOf(b: seq<uint8>): (f: FrameFields)
    requires |b| >= EXPECTED_PAYLOAD_SIZE
    ensures WellFormed(f)
  {
    FrameFields(
      b[HEADER_BYTE_0], b[HEADER_BYTE_1],
      BigEndian24(b[SERIAL_BYTE_0], b[SERIAL_BYTE_1], b[SERIAL_BYTE_2]),
      b[UTC_HOURS], b[UTC_MINUTES], b[UTC_SECONDS],
      b[LAT_DEGREES], b[LAT_MINUTES], b[LAT_SECONDS], b[LAT_HEMISPHERE],
      b[LON_DEGREES], b[LON_MINUTES], b[LON_SECONDS], b[LON_HEMISPHERE],
      SignedOf32(BigEndian32(b[ALTITUDE_BYTE_0], b[ALTITUDE_BYTE_1], b[ALTITUDE_BYTE_2], b[ALTITUDE_BYTE_3])),
      b[ALTITUDE_UNITS],
      seq(ANALOG_PORT_COUNT, p requires 0 <= p < ANALOG_PORT_COUNT => PortValue(b, p)),
      b[RESERVED_START..RESERVED_END + 1],
      BigEndian16(b[MODEM_STATUS_MSB], b[MODEM_STATUS_LSB]))
  }

  /** The byte the layout puts at offset i for the given fields. */
  function ByteAt(f: FrameFields, i: nat): uint8
    requires WellFormed(f) && i < EXPECTED_PAYLOAD_SIZE
  {
    if i == HEADER_BYTE_0 then f.header0
    else if i == HEADER_BYTE_1 then f.header1
    else if SERIAL_BYTE_0 <= i <= SERIAL_BYTE_2 then ByteOf(f.serial, SERIAL_BYTE_2 - i)
    else if i == UTC_HOURS then f.utcHours
    else if i == UTC_MINUTES then f.utcMinutes
    else if i == UTC_SECONDS then f.utcSeconds
    else if i == LAT_DEGREES then f.latDegrees
    else if i == LAT_MINUTES then f.latMinutes
    else if i == LAT_SECONDS then f.latSeconds
    else if i == LAT_HEMISPHERE then f.latHemisphere
    else if i == LON_DEGREES then f.lonDegrees
    else if i == LON_MINUTES then f.lonMinutes
    else if i == LON_SECONDS then f.lonSeconds
    else if i == LON_HEMISPHERE then f.lonHemisphere
    else if ALTITUDE_BYTE_0 <= i <= ALTITUDE_BYTE_3 then ByteOf(PatternOf32(f.altitude), ALTITUDE_BYTE_3 - i)
    else if i == ALTITUDE_UNITS then f.altitudeUnits
    else if i < RESERVED_START then
      var p := (i - ANALOG_DATA_BASE) / BYTES_PER_PORT;
      ByteOf(f.ports[p], 1 - (i - PortOffset(p)))
    else if i <= RESERVED_END then f.reserved[i - RESERVED_START]
    else ByteOf(f.modemStatus, MODEM_STATUS_LSB - i)
  }

  /** The 50-byte frame that carries the given fields. */
  function EncodeFrame(f: FrameFields): (b: seq<uint8>)
    requires WellFormed(f)
    ensures |b| == EXPECTED_PAYLOAD_SIZE
  {
    seq(EXPECTED_PAYLOAD_SIZE, i requires 0 <= i < EXPECTED_PAYLOAD_SIZE => ByteAt(f, i))
  }

  /** The two bytes of port p are rebuilt from the value read there. */
  lemma ByteAtFieldsOfPort(b: seq<uint8>, p: nat)
    requires |b| >= EXPECTED_PAYLOAD_SIZE && p < ANALOG_PORT_COUNT
    ensures ByteAt(FieldsOf(b), PortOffset(p)) == b[PortOffset(p)]
    ensures ByteAt(FieldsOf(b), PortOffset(p) + 1) == b[PortOffset(p) + 1]
  {
    var f := FieldsOf(b);
    assert (PortOffset(p) - ANALOG_DATA_BASE) / BYTES_PER_PORT == p;
    assert (PortOffset(p) + 1 - ANALOG_DATA_BASE) / BYTES_PER_PORT == p;
    assert f.ports[p] == PortValue(b, p);
    BigEndian16Bytes(b[PortOffset(p)], b[PortOffset(p) + 1]);
  }

  /** Byte i of the encoding of the fields read from b is b[i]. */
  lemma ByteAtFieldsOf(b: seq<uint8>, i: nat)
    requires |b| >= EXPECTED_PAYLOAD_SIZE && i < EXPECTED_PAYLOAD_SIZE
    ensures ByteAt(FieldsOf(b), i) == b[i]
  {
    if SERIAL_BYTE_0 <= i <= SERIAL_BYTE_2 {
      ByteAtSerial(b, i);
    } else if ALTITUDE_BYTE_0 <= i <= ALTITUDE_BYTE_3 {
      ByteAtAltitude(b, i);
    } else if ANALOG_DATA_BASE <= i < RESERVED_START {
      var p := (i - ANALOG_DATA_BASE) / BYTES_PER_PORT;
      assert i == PortOffset(p) || i == PortOffset(p) + 1;
      ByteAtFieldsOfPort(b, p);
    } else if MODEM_STATUS_MSB <= i {
      ByteAtStatus(b, i);
    } else {
      ByteAtSingle(b, i);
    }
  }

  lemma ByteAtSerial(b: seq<uint8>, i: nat)
    requires |b| >= EXPECTED_PAYLOAD_SIZE && SERIAL_BYTE_0 <= i <= SERIAL_BYTE_2
    ensures ByteAt(FieldsOf(b), i) == b[i]
  {
    BigEndian24Bytes(b[SERIAL_BYTE_0], b[SERIAL_BYTE_1], b[SERIAL_BYTE_2]);
  }

  lemma ByteAtAltitude(b: seq<uint8>, i: nat)
    requires |b| >= EXPECTED_PAYLOAD_SIZE && ALTITUDE_BYTE_0 <= i <= ALTITUDE_BYTE_3
    ensures ByteAt(FieldsOf(b), i) == b[i]
  {
    BigEndian32Bytes(b[ALTITUDE_BYTE_0], b[ALTITUDE_BYTE_1], b[ALTITUDE_BYTE_2], b[ALTITUDE_BYTE_3]);
  }

  lemma ByteAtStatus(b: seq<uint8>, i: nat)
    requires |b| >= EXPECTED_PAYLOAD_SIZE && MODEM_STATUS_MSB <= i < EXPECTED_PAYLOAD_SIZE
    ensures ByteAt(FieldsOf(b), i) == b[i]
  {
    BigEndian16Bytes(b[MODEM_STATUS_MSB], b[MODEM_STATUS_LSB]);
  }

  lemma ByteAtSingle(b: seq<uint8>, i: nat)
    requires |b| >= EXPECTED_PAYLOAD_SIZE && i < EXPECTED_PAYLOAD_SIZE
    requires i < SERIAL_BYTE_0 || (SERIAL_BYTE_2 < i < ALTITUDE_BYTE_0) || i == ALTITUDE_UNITS
      || (RESERVED_START <= i <= RESERVED_END)
    ensures ByteAt(FieldsOf(b), i) == b[i]
  {
  }


  /** Encoding the fields read from a frame rebuilds its first 50 bytes:
      the layout reads every byte exactly once. */
  lemma EncodeFieldsOf(b: seq<uint8>)
    requires |b| >= EXPECTED_PAYLOAD_SIZE
    ensures EncodeFrame(FieldsOf(b)) == b[..EXPECTED_PAYLOAD_SIZE]
  {
    forall i | 0 <= i < EXPECTED_PAYLOAD_SIZE
      ensures EncodeFrame(FieldsOf(b))[i] == b[i]
    {
      ByteAtFieldsOf(b, i);
    }
  }

  /** Port p of a well-formed frame survives encoding and reading back. */
  lemma PortRoundTrip(f: FrameFields, p: nat)
    requires WellFormed(f) && p < ANALOG_PORT_COUNT
    ensures PortValue(EncodeFrame(f), p) == f.ports[p]
  {
    var b := EncodeFrame(f);
    assert (PortOffset(p) - ANALOG_DATA_BASE) / BYTES_PER_PORT == p;
    assert (PortOffset(p) + 1 - ANALOG_DATA_BASE) / BYTES_PER_PORT == p;
    assert b[PortOffset(p)] == ByteOf(f.ports[p], 1);
    assert b[PortOffset(p) + 1] == ByteOf(f.ports[p], 0);
    BigEndian16RoundTrip(f.ports[p]);
  }

  /** The single-byte fields survive encoding and reading back. */
  lemma ByteFieldsRoundTrip(f: FrameFields)
    requires WellFormed(f)
    ensures var g := FieldsOf(EncodeFrame(f));
      g.header0 == f.header0 && g.header1 == f.header1 &&
      g.utcHours == f.utcHours && g.utcMinutes == f.utcMinutes && g.utcSeconds == f.utcSeconds &&
      g.latDegrees == f.latDegrees && g.latMinutes == f.latMinutes &&
      g.latSeconds == f.latSeconds && g.latHemisphere == f.latHemisphere &&
      g.lonDegrees == f.lonDegrees && g.lonMinutes == f.lonMinutes &&
      g.lonSeconds == f.lonSeconds && g.lonHemisphere == f.lonHemisphere &&
      g.altitudeUnits == f.altitudeUnits
  {
  }

  /** The multi-byte fields survive encoding and reading back. */
  lemma WideFieldsRoundTrip(f: FrameFields)
    requires WellFormed(f)
    ensures var g := FieldsOf(EncodeFrame(f));
      g.serial == f.serial && g.altitude == f.altitude && g.modemStatus == f.modemStatus
  {
    var b := EncodeFrame(f);
    assert b[SERIAL_BYTE_0] == ByteOf(f.serial, 2);
    assert b[SERIAL_BYTE_1] == ByteOf(f.serial, 1);
    assert b[SERIAL_BYTE_2] == ByteOf(f.serial, 0);
    BigEndian24RoundTrip(f.serial);
    var w := PatternOf32(f.altitude);
    assert b[ALTITUDE_BYTE_0] == ByteOf(w, 3);
    assert b[ALTITUDE_BYTE_1] == ByteOf(w, 2);
    assert b[ALTITUDE_BYTE_2] == ByteOf(w, 1);
    assert b[ALTITUDE_BYTE_3] == ByteOf(w, 0);
    BigEndian32RoundTrip(w);
    assert b[MODEM_STATUS_MSB] == ByteOf(f.modemStatus, 1);
    assert b[MODEM_STATUS_LSB] == ByteOf(f.modemStatus, 0);
    BigEndian16RoundTrip(f.modemStatus);
  }

  /** The port block survives encoding and reading back. */
  lemma PortsFieldRoundTrip(f: FrameFields)
    requires WellFormed(f)
    ensures FieldsOf(EncodeFrame(f)).ports == f.ports
  {
    var b := EncodeFrame(f);
    var ports := FieldsOf(b).ports;
    forall p | 0 <= p < ANALOG_PORT_COUNT
      ensures ports[p] == f.ports[p]
    {
      PortRoundTrip(f, p);
    }
  }

  /** The reserved bytes survive encoding and reading back. */
  lemma ReservedFieldRoundTrip(f: FrameFields)
    requires WellFormed(f)
    ensures FieldsOf(EncodeFrame(f)).reserved == f.reserved
  {
    var b := EncodeFrame(f);
    forall k | 0 <= k < |f.reserved|
      ensures b[RESERVED_START + k] == f.reserved[k]
    {
      assert ByteAt(f, RESERVED_START + k) == f.reserved[k];
    }
    assert b[RESERVED_START..RESERVED_END + 1] == f.reserved;
  }

  /** Reading back an encoded frame gives the fields that were encoded. */
  lemma FieldsOfEncode(f: FrameFields)
    requires WellFormed(f)
    ensures FieldsOf(EncodeFrame(f)) == f
  {
    ByteFieldsRoundTrip(f);
    WideFieldsRoundTrip(f);
    PortsFieldRoundTrip(f);
    ReservedFieldRoundTrip(f);
  }
}
