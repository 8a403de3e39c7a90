# Ascend telemetry decoder — a Dafny model

The Ascend ground station receives RockBLOCK (Iridium SBD) e-mails from a
high-altitude balloon. Each e-mail carries a few text fields and a 50-byte
binary frame written as 100 hexadecimal digits. The frame layout is:

- bytes 0-1: the header "RB";
- bytes 2-4: the modem serial;
- bytes 5-7: UTC time;
- bytes 8-15: latitude and longitude in degrees, minutes, seconds and hemisphere;
- bytes 16-20: a signed altitude and its unit;
- bytes 21-36: eight 16-bit analog ports;
- bytes 37-47: reserved;
- bytes 48-49: the modem status.

This project models the code that turns that e-mail into telemetry, in
seven modules:

- `Common`: fixed-width integers, big-endian combination of bytes, decimal
  rendering.
- `Config`: the frame layout constants of `PayloadConfig`, the
  `AnalogSensorData` and `PayloadData` records with their defaults, and a
  reference encoder `EncodeFrame` for the layout.
- `Hex`: `hexStringToBytes`.
- `Decoder`: `extractField` (the regular expression `NAME:\s*([^\n\r]+)` and
  both trims), `std::stoi`, `parseEmail`, `decodeHexPayload`, the sensor
  decoders and `getModemStatusDescription`.
- `Base64Url`: `GmailClient::decodeBase64Url`, with a reference encoder.
- `Dashboard`: the web dashboard helpers. These are `hexToBytes` (with
  JavaScript `parseInt(…, 16)` and `NaN`), `formatHexString`,
  `getByteRegion`, the diff count of `renderDiff`, the modem code colour
  classes, and the history navigation state (`historyIndex`,
  `activeHexTab`, `telemetryData`) as a class.
- `LegacyDecoder`: the stand-alone Java `Decoder` console tool. This covers
  its read loop, its pair parsing with Java exceptions, its 32-bit shifts,
  the Arizona clock, the analog loop and the status switch.

Every loop of the source (`hexStringToBytes`, `decodeBase64Url`,
`hexToBytes`, `getByteRegion`, `renderDiff`, the Java `main` and
`convertHexToDecimal` loops) is a method. Each such method is proved equal to
a function, and the lemmas are stated about that function.

Three behaviours of the code are worth knowing before reading the table:

- A frame of 94 hexadecimal digits is 47 bytes, short of the 50 that
  `decodeHexPayload` demands, so it decodes to the default payload
  (`Decoder.ShortTestVectorRejected`).
- The `\s*` after the field's colon also skips line breaks, so a value on the
  line after "NAME:" is still found (`Decoder.ValueOnNextLine`).
- The Java tool's gate rejects only lines longer than 100 characters. A
  shorter line reaches the decoder and ends the program with an exception
  (`LegacyDecoder.LineGate`).

## Model

| member | source | states |
|---|---|---|
| Common.DecimalDegrees | src/Decoder.cpp:137-159 | the one decimal-degree formula both decoders use: degrees + minutes/60 + seconds/3600, negated for a non-zero hemisphere byte; its uses are stated by `Decoder.DecodesLayout`, `Decoder.SouthernLatitudeExample`, `LegacyDecoder.ToDecimal` and `LegacyDecoder.AgreesWithCppDecoder` |
| Common.SignedOf32 | include/Config.h:38-42 | the big-endian altitude word is read as a two's-complement int32: non-negative exactly when the top bit is clear |
| Common.PatternOf32 | src/Decoder.cpp:165-169 | every int32 altitude has a 32-bit pattern that reads back as itself |
| Common.BigEndian16RoundTrip | src/Decoder.cpp:176-181 | the (msb << 8) \| lsb combination of a port is undone by splitting the word into its two bytes |
| Common.BigEndian16Bytes | src/Decoder.cpp:176-181 | splitting the combined port word gives back the msb and the lsb |
| Common.BigEndian24Bytes | src/Decoder.cpp:127 | splitting the 24-bit serial gives back its three bytes |
| Common.BigEndian24RoundTrip | src/Decoder.cpp:127 | every serial below 2^24 is the combination of its three bytes |
| Common.BigEndian32Bytes | src/Decoder.cpp:165-167 | splitting the 32-bit altitude word gives back its four bytes |
| Common.BigEndian32RoundTrip | src/Decoder.cpp:165-167 | every 32-bit word is the combination of its four bytes |
| Common.NatToString | src/Decoder.cpp:332 | std::to_string of a status code is a non-empty run of decimal digits with no leading zero, one digit exactly below 10 |
| Common.DecimalRoundTrip | src/Decoder.cpp:332 | the decimal rendering reads back as the number |
| Common.NatToStringInjective | src/Decoder.cpp:332 | different codes render differently |
| Config.PortsWithinAnalogBlock | include/Config.h:47-63 | each port's two bytes lie inside the analog block, before the reserved bytes, and ports do not overlap |
| Config.NamedPortsDistinct | include/Config.h:52-57 | the six named sensors read six different ports, all among the eight |
| Config.LayoutTilesFrame | include/Config.h:14-70 | every index of the 50-byte frame belongs to exactly one field, and no index outside it does |
| Config.FieldsOf | include/Config.h:14-70 | the fields read from any frame of at least 50 bytes are in range (bytes, 24-bit serial, 32-bit altitude, 16-bit ports and status) |
| Config.EncodeFrame | include/Config.h:70 | the reference encoder writes exactly EXPECTED_PAYLOAD_SIZE bytes |
| Config.ByteAtFieldsOf | include/Config.h:14-70 | re-encoding the fields read from a frame gives back each of its 50 bytes |
| Config.EncodeFieldsOf | include/Config.h:14-70 | encoding the fields of a frame gives back its first 50 bytes |
| Config.PortRoundTrip | include/Config.h:47-50 | the port read from an encoded frame is the port that was written |
| Config.FieldsOfEncode | include/Config.h:14-70 | reading the fields of an encoded frame gives back exactly the fields that were written |
| Hex.CleanHex | src/Decoder.cpp:89-94 | the cleaned text holds only hexadecimal digits and is no longer than the input |
| Hex.PairBytes | src/Decoder.cpp:96-102 | one byte per complete pair of digits; byte i is the value of digits 2i and 2i+1 |
| Hex.HexStringToBytes | src/Decoder.cpp:86-105 | the two loops return exactly HexBytes of the input: non-digits dropped, then pairs combined, a trailing odd digit ignored |
| Hex.HexRendering | src/Decoder.cpp:86-105 | the reference renderer writes two hexadecimal digits per byte |
| Hex.CleanHexConcat | src/Decoder.cpp:89-94 | cleaning distributes over concatenation |
| Hex.NonHexIgnored | src/Decoder.cpp:91 | inserting a non-hexadecimal character anywhere does not change the bytes |
| Hex.HexRoundTrip | src/Decoder.cpp:86-105 | decoding the hexadecimal rendering of any bytes, upper or lower case, gives back the bytes |
| Hex.OddDigitDropped | src/Decoder.cpp:96 | a digit left over after the last pair is ignored |
| Decoder.SkipSpace | src/Decoder.cpp:67 | `\s*` stops at the first character that is not space, tab, newline, vertical tab, form feed or carriage return |
| Decoder.LineEnd | src/Decoder.cpp:67 | `[^\n\r]+` extends to the first line break or the end of the text |
| Decoder.SearchFrom | src/Decoder.cpp:67-74 | a match exists only where the pattern occurs, and its capture is non-empty and free of line breaks |
| Decoder.TrimLeading | src/Decoder.cpp:76 | the first erase removes exactly the leading run of spaces and tabs |
| Decoder.TrimTrailing | src/Decoder.cpp:77 | the second erase removes exactly the trailing run of characters from " \t\r\nUTC" |
| Decoder.ExtractField | src/Decoder.cpp:65-83 | an extracted value is free of line breaks, starts with neither space nor tab, and ends in none of " \t\r\nUTC" |
| Decoder.MissingFieldIsEmpty | src/Decoder.cpp:72-82 | a field whose "NAME:" does not occur yields the empty string |
| Decoder.ExtractsFirstValue | src/Decoder.cpp:65-83 | for the first "NAME:" followed by whitespace and a value, the result is that value up to the line break, with its trailing trim removed |
| Decoder.ValueOnNextLine | src/Decoder.cpp:67 | `\s*` crosses the line break, so "IMEI:\r\n300234010" yields "300234010" |
| Decoder.TransmitTimeSuffixTrimmed | src/Decoder.cpp:77 | a " UTC" suffix on the transmit time is removed |
| Decoder.UppercaseFrameEndingInC | src/Decoder.cpp:77 | an upper-case frame whose last digit is C loses that digit to the trim and decodes to the default payload |
| Decoder.StoI | src/Decoder.cpp:17-19 | std::stoi: leading whitespace, an optional sign and the longest digit run; no digit throws invalid_argument, a value outside int throws out_of_range; stated by `Decoder.StoIRoundTrip` and `Decoder.StoIRejectsNoDigits` |
| Decoder.StoIRoundTrip | src/Decoder.cpp:18 | stoi reads back every int32 written in decimal, with or without a minus sign |
| Decoder.StoIRejectsNoDigits | src/Decoder.cpp:18 | stoi of text without digits throws invalid_argument |
| Decoder.ModemStatusDescription | src/Decoder.cpp:307-334 | the thirteen listed codes get their fixed text and every other code its band prefix and decimal value; stated by `Decoder.ModemStatusFallback`, the two examples and `Decoder.ModemStatusDescriptionInjective` |
| Decoder.ModemStatusFallback | src/Decoder.cpp:326-333 | an unlisted code yields its band prefix ("Error Code: ", "Status Code: ", "Success Code: " or "Unknown: ") followed by its decimal value |
| Decoder.ModemStatusErrorExample | src/Decoder.cpp:326-327 | code 250 is described as "Error Code: 250" |
| Decoder.ModemStatusUnknownExample | src/Decoder.cpp:332 | code 999 is described as "Unknown: 999" |
| Decoder.ModemStatusDescriptionInjective | src/Decoder.cpp:307-334 | different status codes always get different descriptions |
| Decoder.DecodeInternalTemp | src/Decoder.cpp:236-247 | keeps the raw port value, names it "Internal Temperature" and marks it valid; stated for the decoded frame by `Decoder.DecodesLayout` |
| Decoder.DecodePressure | src/Decoder.cpp:248-258 | keeps the raw port value, names it "Pressure" and marks it valid; stated by `Decoder.DecodesLayout` |
| Decoder.DecodeExternalTemp | src/Decoder.cpp:259-272 | keeps the raw port value, names it "External Temperature" and marks it valid; stated by `Decoder.DecodesLayout` |
| Decoder.DecodeAccelY | src/Decoder.cpp:273-283 | keeps the raw port value, names it "Y-axis Accelerometer" and marks it valid; stated by `Decoder.DecodesLayout` |
| Decoder.DecodeAccelX | src/Decoder.cpp:284-294 | keeps the raw port value, names it "X-axis Accelerometer" and marks it valid; stated by `Decoder.DecodesLayout` |
| Decoder.DecodeBattery | src/Decoder.cpp:295-305 | keeps the raw port value, names it "Battery" and marks it valid; stated by `Decoder.DecodesLayout` |
| Decoder.PayloadFromBytes | src/Decoder.cpp:106-220 | the payload decodeHexPayload builds from the bytes; stated by `Decoder.ShortFrameRejected`, `Decoder.TrailingBytesIgnored`, `Decoder.HeaderDecidesValidity`, `Decoder.DecodesLayout` and `Decoder.DecodeEncodedFrame` |
| Decoder.DecodeHexPayload | src/Decoder.cpp:106-220 | the decoded payload is PayloadFromBytes of hexStringToBytes of the input |
| Decoder.ShortFrameRejected | src/Decoder.cpp:113-116 | fewer than 50 bytes give the default payload: not valid, header not valid |
| Decoder.TrailingBytesIgnored | src/Decoder.cpp:106-220 | bytes after the 50th do not affect the payload |
| Decoder.HeaderDecidesValidity | src/Decoder.cpp:118-123 | a full frame is valid exactly when its header is valid, exactly when it starts with 'R' 'B' |
| Decoder.DecodesLayout | src/Decoder.cpp:124-212 | every payload field is read from its configured offsets: header and validity, serial, UTC time, both positions as degrees/minutes/seconds with hemisphere letters and as decimal degrees negated exactly when the hemisphere byte is not 0, altitude, "meters" for a units byte of 0 and "feet" otherwise, the six named ports, uvLight and unused left at their defaults, the status and its description |
| Decoder.DecodeEncodedFrame | src/Decoder.cpp:106-220 | rendering any well-formed frame as hexadecimal and decoding it gives back every field |
| Decoder.SouthernLatitudeExample | src/Decoder.cpp:137-146 | 10° 30' 0" with hemisphere byte 1 decodes to -10.5 and 'S' |
| Decoder.ShortTestVectorRejected | src/Decoder.cpp:113-116 | the 94-digit example frame decodes to at most 47 bytes and so to the default payload |
| Decoder.DefaultEmailInvalid | include/Decoder.h:8-18 | a fresh EmailContent is invalid, with zero counters and empty IMEI and data |
| Decoder.IntFieldValue | src/Decoder.cpp:17-19 | an empty field leaves 0, a non-empty one is what stoi reads |
| Decoder.RealFieldValue | src/Decoder.cpp:24-26 | an empty field leaves 0.0, a non-empty one is what stod reads |
| Decoder.ConversionsCompleted | src/Decoder.cpp:13-41 | all five conversions complete exactly when none of them throws |
| Decoder.ParseTextFields | src/Decoder.cpp:13-41 | fields are filled in source order until the first conversion that throws; later fields keep their defaults |
| Decoder.ParseEmail | src/Decoder.cpp:12-62 | the fields are filled as above; the payload is the decoded data when the data field is non-empty; the e-mail is valid exactly when IMEI and data are non-empty |
| Decoder.UnreadableMomsnStopsParsing | src/Decoder.cpp:16-19 | a MOMSN without digits stops parsing: only the IMEI is kept |
| Base64Url.SymbolValue | src/GmailClient.cpp:122-127 | the table maps every byte to -1 or to a value below 64 |
| Base64Url.AlphabetMatchesTable | src/GmailClient.cpp:122-127 | the table gives i to the i-th character of the standard alphabet |
| Base64Url.SymbolPrefix | src/GmailClient.cpp:129-131 | decoding reads the longest prefix of valid symbols and stops at the first byte the table marks -1 |
| Base64Url.DecodeGroups | src/GmailClient.cpp:129-138 | every four symbols give three bytes, and a shorter tail gives one byte per complete 8 bits |
| Base64Url.UrlToStandard | src/GmailClient.cpp:117-118 | '-' becomes '+' and '_' becomes '/', and every other byte is kept |
| Base64Url.Replace | src/GmailClient.cpp:117-118 | std::replace changes every occurrence of one byte to another and nothing else |
| Base64Url.BuildTable | src/GmailClient.cpp:122-127 | the 256-entry table holds each byte's symbol value |
| Base64Url.PadToQuads | src/GmailClient.cpp:119-121 | '=' is appended up to the next multiple of four and the input is kept as a prefix |
| Base64Url.DecodePadded | src/GmailClient.cpp:128-139 | the accumulator loop returns the group decoding of the symbol prefix |
| Base64Url.DecodeBase64Url | src/GmailClient.cpp:115-140 | the whole function returns Base64UrlDecoded of its input |
| Base64Url.AccumulatorStep | src/GmailClient.cpp:130-137 | one step of the 32-bit accumulator keeps its invariant: the low 12 bits are the last two symbols, and the bytes so far are the group decoding |
| Base64Url.PaddingIgnored | src/GmailClient.cpp:119-121 | the '=' padding adds no symbols |
| Base64Url.StopsAt | src/GmailClient.cpp:131 | the symbols read are exactly those before the first invalid byte |
| Base64Url.GroupsRoundTrip | src/GmailClient.cpp:129-138 | group decoding inverts the reference encoder |
| Base64Url.DecodeEncoded | src/GmailClient.cpp:115-140 | decoding the base64url encoding of any bytes, with any number of '=', gives back the bytes |
| Base64Url.DecodedLength | src/GmailClient.cpp:129-138 | the output has 6·n/8 bytes for n symbols read |
| Base64Url.StopsAtNonSymbol | src/GmailClient.cpp:131 | nothing after the first invalid byte affects the result |
| Base64Url.StandardAlphabetAccepted | src/GmailClient.cpp:117-127 | input already in the standard alphabet decodes the same way |
| Dashboard.StripSpace | dashboard/dashboard.js:47 | `replace(/\s/g, '')` leaves no JavaScript whitespace |
| Dashboard.ParseIntHex | dashboard/dashboard.js:50 | parseInt(s, 16): leading whitespace, an optional sign, an optional "0x"/"0X", then the longest run of hexadecimal digits, NaN when there is none; stated for the pairs hexToBytes passes it by `Dashboard.ParsePairCases`, `Dashboard.HexToBytes` and `Dashboard.AgreesWithDecoder` |
| Dashboard.ParsePairCases | dashboard/dashboard.js:50 | parseInt of two characters in base 16, the first not whitespace: two digits give their value; '0' followed by 'x' or 'X' gives NaN; any other digit followed by a non-digit gives that digit; a sign before a digit gives the signed digit; anything else gives NaN |
| Dashboard.PairValues | dashboard/dashboard.js:49-51 | one number per complete pair of the cleaned text |
| Dashboard.HexToBytes | dashboard/dashboard.js:46-53 | the loop returns PairValues of the whitespace-free text, with null or undefined read as empty |
| Dashboard.AgreesWithDecoder | dashboard/dashboard.js:46-53 | on text made of hexadecimal digits and whitespace, the dashboard's bytes are the server decoder's bytes |
| Dashboard.FormatHexString | dashboard/dashboard.js:93-96 | the result is empty exactly when the cleaned input is |
| Dashboard.FormatLayout | dashboard/dashboard.js:93-96 | cleaned digits are upper-cased and written in pairs separated by single spaces: the k-th digit sits at column Column(k), and exactly every third position is a space |
| Dashboard.FormattedCleans | dashboard/dashboard.js:93-96 | cleaning the formatted text gives the upper-cased cleaned input |
| Dashboard.ReparseFormatted | dashboard/dashboard.js:46-53 | hexToBytes of the formatted text equals hexToBytes of the original |
| Dashboard.FirstContaining | dashboard/dashboard.js:39-44 | the first region whose start..end holds the index wins; with none, the reserved "?" style |
| Dashboard.GetByteRegion | dashboard/dashboard.js:39-44 | the loop returns the first containing region of BYTE_REGIONS |
| Dashboard.RegionsTileFrame | dashboard/dashboard.js:28-37 | the regions cover exactly indices 0..49, each by one region |
| Dashboard.RegionsMatchLayout | dashboard/dashboard.js:28-37 | each index gets the style of the frame field that Config.h places there |
| Dashboard.RenderDiff | dashboard/dashboard.js:199-235 | no previous record gives the first-record note; an empty previous frame gives its note; otherwise the count of differing positions out of the longer length |
| Dashboard.SelfComparison | dashboard/dashboard.js:222 | comparing a frame with itself flags exactly its NaN positions, because NaN !== NaN |
| Dashboard.LengthDifferenceCounts | dashboard/dashboard.js:216-222 | a position present in one frame only always counts as changed |
| Dashboard.ModemCodeClass | dashboard/dashboard.js:427-430 | ok from 400, warn from 300, error below; stated against the server's descriptions by `Dashboard.ClassMatchesDescriptionBands` and `Dashboard.UnknownCodesClassified` |
| Dashboard.ClassMatchesDescriptionBands | dashboard/dashboard.js:427-430 | for codes 200-499 the colour class matches the server's description band: error, status, success |
| Dashboard.UnknownCodesClassified | dashboard/dashboard.js:427-430 | codes outside 200-499 are "Unknown" on the server but coloured ok from 500 and error below 200 |
| Dashboard.PrevIndex | dashboard/dashboard.js:144 | the histPrev button and ArrowLeft/ArrowUp; stated by `Dashboard.PrevNextStayInRange`, `Dashboard.FromNoSelection` and `Dashboard.SelectionStaysValid` |
| Dashboard.NextIndex | dashboard/dashboard.js:145 | the histNext button and ArrowRight/ArrowDown; stated by `Dashboard.PrevNextStayInRange`, `Dashboard.FromNoSelection` and `Dashboard.SelectionStaysValid` |
| Dashboard.KeyIndex | dashboard/dashboard.js:148-163 | the keydown handler, ignored outside the history tab or with no records; stated by `Dashboard.KeysStayInRange` and `Dashboard.SelectionStaysValid` |
| Dashboard.TabIndex | dashboard/dashboard.js:122-140 | the tab click handler's selection; stated by `Dashboard.FromNoSelection` and `Dashboard.SelectionStaysValid` |
| Dashboard.PrevNextStayInRange | dashboard/dashboard.js:144-145 | Prev and Next keep a selected index in range, move by at most one, and stay put exactly at the ends |
| Dashboard.KeysStayInRange | dashboard/dashboard.js:148-163 | the arrow, Home and End keys keep a selected index in range; in the history tab Home selects 0 and End the last record |
| Dashboard.FromNoSelection | dashboard/dashboard.js:122-145 | with no selection, Next selects the oldest record, Prev does nothing, and opening the history tab selects the newest |
| Dashboard.SelectionStaysValid | dashboard/dashboard.js:122-164 | from an index in -1..n-1, every button, key and tab change leaves the index in -1..n-1, and a selection once made (index at least 0) is never dropped |
| Dashboard.Reloaded | dashboard/dashboard.js:301-317 | the records are replaced only by a non-empty reply, so they are non-empty exactly when either is |
| Dashboard.ReloadKeepsSelection | dashboard/dashboard.js:301-317 | a reload that does not shrink the list keeps the selection in range |
| Dashboard.ReloadCanStrandSelection | dashboard/dashboard.js:301-317 | a reload that shrinks the list can leave the selected index past its end |
| Dashboard.HistoryNav.constructor | dashboard/dashboard.js:5-21 | the page starts with no records, no selection and the latest tab |
| Dashboard.HistoryNav.First | dashboard/dashboard.js:143 | selects index 0 and changes nothing else |
| Dashboard.HistoryNav.Prev | dashboard/dashboard.js:144 | steps back unless at 0, keeping the index in range |
| Dashboard.HistoryNav.Next | dashboard/dashboard.js:145 | steps forward unless at the last record, keeping the index in range |
| Dashboard.HistoryNav.Last | dashboard/dashboard.js:146 | selects the newest record |
| Dashboard.HistoryNav.SelectTab | dashboard/dashboard.js:122-140 | switches the tab; entering history with no selection selects the newest record |
| Dashboard.HistoryNav.KeyDown | dashboard/dashboard.js:148-163 | applies the key to the index as KeyIndex says and keeps it in range |
| Dashboard.HistoryNav.LoadTelemetry | dashboard/dashboard.js:301-317 | replaces the records by a non-empty reply and leaves the selection untouched |
| LegacyDecoder.BitOr | Decoder.java:88 | the bitwise or of two n-bit values is an n-bit value |
| LegacyDecoder.OrDisjoint | Decoder.java:88 | or-ing values with disjoint bits adds them |
| LegacyDecoder.ParsePair | Decoder.java:31-32 | Integer.parseInt(pair, 16) yields a value in -15..255 or throws |
| LegacyDecoder.ParsePairCases | Decoder.java:32 | parseInt of two characters: two digits give their value; a sign and a digit give the signed digit; anything else throws NumberFormatException |
| LegacyDecoder.ParseFrom | Decoder.java:30-36 | a loop that completes yields one value per pair, each in -15..255 |
| LegacyDecoder.ParseFromValues | Decoder.java:30-36 | the k-th stored value is the value of the k-th pair |
| LegacyDecoder.ParseFromComplete | Decoder.java:30-36 | when every pair parses and the length is even, the loop completes |
| LegacyDecoder.Converted | Decoder.java:27-222 | the report of a line or the exception convertHexToDecimal throws; stated by `LegacyDecoder.ConvertHexToDecimal`, `LegacyDecoder.ConvertedOkIff` and `LegacyDecoder.AgreesWithCppDecoder` |
| LegacyDecoder.ReportOf | Decoder.java:38-222 | every printed quantity of a parsed line; stated by `LegacyDecoder.BuildReport`, `LegacyDecoder.AgreesWithCppDecoder` and `LegacyDecoder.AgreeOnAnalog` |
| LegacyDecoder.ConvertHexToDecimal | Decoder.java:27-222 | the method's outcome, a report or the Java exception it throws, is Converted of the line |
| LegacyDecoder.ConvertedOkIff | Decoder.java:27-222 | a report is produced exactly when the line has at least 100 characters and every pair parses |
| LegacyDecoder.BuildReport | Decoder.java:38-222 | the report is ReportOf the parsed values |
| LegacyDecoder.ParsePairAt | Decoder.java:31-32 | parses the pair starting at i |
| LegacyDecoder.ToDecimal | Decoder.java:70-83 | a coordinate is degrees + minutes/60 + seconds/3600, negated for a non-zero hemisphere |
| LegacyDecoder.ArizonaClock | Decoder.java:47-65 | computes the 12-hour clock and AM/PM of the Arizona hour |
| LegacyDecoder.AnalogLoop | Decoder.java:157-208 | reads seven ports of msb·256+lsb from byte 21 and names them by the Java switch |
| LegacyDecoder.AnalogOf | Decoder.java:157-208 | the analog loop produces seven readings |
| LegacyDecoder.ArizonaHours24 | Decoder.java:47 | (hour - 7 + 24) % 24 with Java's remainder; stated by `LegacyDecoder.ArizonaHoursRange` |
| LegacyDecoder.Hours12 | Decoder.java:49-58 | the 12-hour reading of a 24-hour hour; stated by `LegacyDecoder.TwelveHourClock` and `LegacyDecoder.ArizonaClock` |
| LegacyDecoder.AmPm | Decoder.java:60-65 | AM before noon, PM from noon; stated by `LegacyDecoder.TwelveHourClock` and `LegacyDecoder.ArizonaClock` |
| LegacyDecoder.ArizonaHoursRange | Decoder.java:47 | the Arizona hour is in 0..23 and is UTC−7 modulo 24 |
| LegacyDecoder.TwelveHourClock | Decoder.java:48-64 | the 12-hour value is in 1..12, AM exactly before noon, and hour and suffix give back the 24-hour value |
| LegacyDecoder.Serial | Decoder.java:43 | (v2 << 16) + (v3 << 8) + v4 on Java ints; stated by `LegacyDecoder.SerialFormula` |
| LegacyDecoder.SerialFormula | Decoder.java:43 | the serial is v2·65536 + v3·256 + v4, the big-endian 24-bit value for bytes |
| LegacyDecoder.ShlExact | Decoder.java:43 | a Java shift that does not overflow multiplies by a power of two |
| LegacyDecoder.Altitude | Decoder.java:88 | the or of the four shifted values on Java ints; stated by `LegacyDecoder.AltitudeOfBytes` |
| LegacyDecoder.AltitudeOfBytes | Decoder.java:88 | the or of the four shifted bytes is the two's-complement reading of the big-endian word |
| LegacyDecoder.StatusCase | Decoder.java:222-692 | the text of the switch case for a status code, None for the default branch; stated by `LegacyDecoder.UnknownIffUnhandled`, `LegacyDecoder.MobileOriginatedCodes`, `LegacyDecoder.ReservedRanges` and `LegacyDecoder.CppListedCodesHandled` |
| LegacyDecoder.UnknownIffUnhandled | Decoder.java:218-690 | the switch prints "Unknown or unhandled" exactly for the codes without a case |
| LegacyDecoder.MobileOriginatedCodes | Decoder.java:226-316 | among 0..65, every code except 9 has a case |
| LegacyDecoder.ReservedRanges | Decoder.java:234-310 | codes 3-4, 5-8, 20-31 and 39-63 print the reserved messages |
| LegacyDecoder.CppListedCodesHandled | Decoder.java:218-690 | every code the C++ decoder names has a case in the Java switch |
| LegacyDecoder.ValuesOfHexLine | Decoder.java:29-36 | for 100 hexadecimal digits, the parsed values are the bytes of hexStringToBytes |
| LegacyDecoder.AgreesWithCppDecoder | Decoder.java:27-222 | on 100 hexadecimal digits the Java report and the C++ payload agree on header, serial, time, position, altitude, ports, battery and status |
| LegacyDecoder.AgreeOnAnalog | Decoder.java:159-164 | the Java port readings are the C++ port values |
| LegacyDecoder.PortNamingDiffers | Decoder.java:165-207 | the Java tool names port 0 internal temperature and port 4 external, while Config.h puts internal temperature on port 4 |
| LegacyDecoder.Session | Decoder.java:3-26 | a session never has more outcomes than lines |
| LegacyDecoder.RunSession | Decoder.java:3-26 | the read loop's result is Session of the input lines |
| LegacyDecoder.QuitStopsReading | Decoder.java:11-15 | nothing after the first "0" is read |
| LegacyDecoder.LineGate | Decoder.java:16-23 | only lines over 100 characters are rejected; a shorter line is decoded exactly when it has 100 characters and every pair parses |

## Left out

- Floating-point sensor calibration is not modelled. This covers the
  voltage, measurement and unit of `AnalogSensorData` and the Java `float`
  formulas. `AnalogSensorData` keeps the port's raw code, its name and its
  validity flag. Coordinates are modelled as exact reals, not doubles.
- `std::stod` is a parameter of `parseEmail` (text to an optional real),
  because its decimal-to-double rounding is not modelled.
- The `std::regex` engine is modelled only for the one pattern shape
  `extractField` builds. Field names are taken literally; none of the eight
  names holds a regex metacharacter.
- `PayloadData::toString`, `EmailContent::toString`, the logger, and the
  Java tool's report printing are output only and are not modelled. The one
  exception is the Java status switch: `LegacyDecoder.StatusCase` carries the
  text of every case, and the default branch is its `None`.
- The Gmail HTTP client, OAuth, JSON parsing of messages and `main.cpp` are
  not part of this model. Only `decodeBase64Url` is.
- The dashboard's DOM rendering, charts, map, log view, `fetch`, and timers
  are not modelled. The diff's HTML is reduced to its summary (the changed
  count and the longer length). `loadTelemetry` is reduced to the replacement
  rule for the record list.
- Dashboard.UpperChar: `toUpperCase` is modelled for ASCII letters only.
- LegacyDecoder.ParsePair: `Character.digit` also accepts non-ASCII digits,
  and the model does not.
- Hex.IsHexDigit: `isxdigit` is modelled on ASCII characters in the C locale.
- Base64Url.AccumulatorStep: `val << 6` on a signed `int` overflows in C++.
  The model takes the two's-complement wrap that compilers produce, which
  the low 12 bits it relies on do not depend on.
- Decoder.PayloadFromBytes: `bytes[16] << 24` on a signed `int` overflows in
  C++ when byte 16 is 128 or more. The model reads the altitude as the
  two's-complement big-endian int32 that Config.h documents, which is what
  compilers produce.
- LegacyDecoder.Session: Java's `String.length()` counts UTF-16 code units and
  the model counts characters. A character outside the Basic Multilingual
  Plane is two code units in the source and one `char` here, so the
  100-character gate can differ on such lines.
- LegacyDecoder.ParseFrom: `substring(i, i + 2)` works on UTF-16 code units;
  the model pairs characters (see the previous line).
- Dashboard.HexToBytes: JavaScript's `length` and `substr` count UTF-16 code
  units; the model pairs characters, which differs only for characters
  outside the Basic Multilingual Plane.
- Dashboard.FormatHexString: `/.{1,2}/g` groups UTF-16 code units; the model
  groups characters, with the same restriction as the previous line.
- The sensor decoders `DecodeInternalTemp` … `DecodeBattery` keep only the
  raw value, the name and the validity flag; the voltage, measurement and
  unit they compute in `float` are left out with the rest of the floating
  point above.
