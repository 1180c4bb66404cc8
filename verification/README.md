# Daly BMS protocol core in Dafny

A model of the protocol layer of DalySwift, a client for Daly battery
management systems (BMS) attached to a UART. The client sends 13-byte
request frames: start byte `0xA5`, the connection class `0x40`, a command
code `0x90..0x98`, the length 8, eight zero bytes and an 8-bit wrapping-sum
checksum. It reads back one or more 13-byte response frames and checks
each for length, checksum, header and BMS address. Multi-frame answers
(cell voltages, temperatures) are reassembled by their 1-based frame id
byte. The payloads are then decoded into typed records: state of charge,
voltage and temperature limits, MOSFET status, status information with
its digital I/O bits, and a 56-bit failure flag word.

Modules, one per part of the program:

- `Wrappers`: `Option`, `Result` and the `DalyError` cases.
- `ByteCodec`: the 16-bit and 32-bit big-endian readers, the scale and offset conversions, and bits.
- `Commands`: the command catalogue, wire codes and frame counts.
- `Settings`: `ClientId` and `ConnectionType` raw values.
- `FrameCodec`: the checksum, request building and frame extraction.
- `ResponseSplit`: cutting the read buffer into frames and checking their codes.
- `Reassembly`: sorting multi-frame answers by id.
- `CellData`: voltage, temperature and balance-bit decoding.
- Six `*Response` modules: the payload decoders.
- `Client`: the public calls, with the count cache and the serial port as a parameter.

Decisions:

- Floating-point values are modelled as exact `real`s.
- The source rounds `frameCount` up in `Float`; the model uses integer ceiling division. This is exact for the byte-sized counts the client passes.
- The serial port is a function `Port` from (request bytes, number of bytes asked for) to an `Exchange`: bytes written, bytes read. Every call returns the list of requests it wrote.

`extractFrame` returns `Array(data[4...])`, that is bytes 4 to 12 of the frame. So every payload the model hands on is nine bytes: eight data bytes followed by the frame's checksum. The model follows the code (`FrameCodec.ExtractFrame`), and the client calls decode these nine-byte payloads as the code does. Two consequences are listed under Findings.

## Model

| member | source | states |
|---|---|---|
| ByteCodec.U16 | Sources/DalySwift/Extensions/Float+Extensions.swift:53-55 | the value is below 2^16 and gives back `high` as value/256 and `low` as value%256, so the addition cannot overflow and the pair is recoverable |
| ByteCodec.FromBytes | Sources/DalySwift/Extensions/Float+Extensions.swift:10-13 | the number is the 16-bit value, in range 0..65535 |
| ByteCodec.Scaled | Sources/DalySwift/Extensions/Float+Extensions.swift:21-23 | for a non-negative scale the value lies in [0, 65535·scale], and dividing by a non-zero scale gives the 16-bit value back |
| ByteCodec.OffsetScaled | Sources/DalySwift/Extensions/Float+Extensions.swift:32-34 | the offset is subtracted before scaling: for a positive scale the value is negative iff the raw value is below the offset and zero iff equal to it, and value/scale + offset is the raw value |
| ByteCodec.OffsetByte | Sources/DalySwift/Extensions/Float+Extensions.swift:41-43 | value + offset is the raw byte; the value lies in [−offset, 255 − offset] |
| ByteCodec.U32 | Sources/DalySwift/Extensions/UInt32+Extensions.swift:5-14 | any count other than 4 gives 0; four bytes give a value below 2^32 whose successive base-256 digits are bytes 3, 2, 1, 0 (big-endian) |
| ByteCodec.U32Window | Sources/DalySwift/Extensions/UInt32+Extensions.swift:10-13 | a four-byte window of any buffer decodes exactly its own bytes: two windows decode equal iff they are equal |
| Commands.CodeByte | Sources/DalySwift/Command.swift:14-24 | every code's raw value lies in 0x90..0x98 |
| Commands.CodeOf | Sources/DalySwift/Command.swift:14-24 | `Code(rawValue:)` is defined exactly on 0x90..0x98 and inverts the raw value there |
| Commands.IsValid | Sources/DalySwift/Command.swift:56-58 | `isValid(b)` holds iff `Code(rawValue: b)` exists, and then that code's raw value is b |
| Commands.CodeRoundTrip | Sources/DalySwift/Command.swift:14-24 | decoding the raw value of a code gives the code back |
| Commands.ValidIffCode | Sources/DalySwift/Command.swift:56-58 | `isValid(b)` holds iff `Code(rawValue: b)` exists, iff some code has raw value b |
| Commands.CodeOfCommand | Sources/DalySwift/Command.swift:26-38 | the two counted commands map to their own codes and no other command does |
| Commands.CommandByte | Sources/DalySwift/Command.swift:40-42 | a command's byte is always valid and decodes to the command's code |
| Commands.CommandByteInjective | Sources/DalySwift/Command.swift:26-42 | two commands share a wire byte iff they share a code; the count never reaches the wire |
| Commands.FrameCount | Sources/DalySwift/Command.swift:44-54 | ceil(n/3) frames for n cell voltages, ceil(n/7) for n temperatures, 1 for every other command |
| Commands.FrameCountMonotone | Sources/DalySwift/Command.swift:44-54 | frame counts never decrease with the count and are zero only for a count of zero |
| Commands.FrameCapacity | Sources/DalySwift/Command.swift:46-51 | the frames asked for hold 6 voltage bytes or 7 temperature bytes each, enough for all n items |
| Commands.FrameCountExamples | Sources/DalySwift/Command.swift:46-51 | 1→1, 3→1, 4→2, 9→3, 10→4 voltage frames; 7→1, 8→2 temperature frames |
| Settings.ClientIdRaw | Sources/DalySwift/Settings/ClientId.swift:31-38 | named cases give 0x20/0x40/0x80, `custom(v)` gives v |
| Settings.ClientIdOf | Sources/DalySwift/Settings/ClientId.swift:40-47 | every byte is accepted and gives itself back as raw value; the result is `custom` iff the byte is not one of the three named ones |
| Settings.ClientIdRoundTrip | Sources/DalySwift/Settings/ClientId.swift:31-47 | raw value then `init(rawValue:)` is the identity except on `custom` of a named byte |
| Settings.ConnectionRaw | Sources/DalySwift/Settings/ConnectionType.swift:3-7 | every connection type's raw value is one of 0x20, 0x40, 0x80 |
| Settings.ConnectionOf | Sources/DalySwift/Settings/ConnectionType.swift:3-7 | `init(rawValue:)` is defined exactly on 0x20, 0x40, 0x80 and inverts the raw value |
| Settings.ConnectionRoundTrip | Sources/DalySwift/Settings/ConnectionType.swift:3-7 | the raw values are distinct: each type survives the round trip |
| FrameCodec.CrcFrom | Sources/DalySwift/DalyClient.swift:325-327 | folding `&+` from an accumulator gives (accumulator + sum of bytes) mod 256 |
| FrameCodec.Crc | Sources/DalySwift/DalyClient.swift:325-327 | the checksum is the sum of the bytes mod 256 |
| FrameCodec.EncodeFrame | Sources/DalySwift/DalyClient.swift:58-66 | a 13-byte frame: start byte, address, code, length 8, the eight body bytes, and the checksum of the first twelve |
| FrameCodec.CreateRequestData | Sources/DalySwift/DalyClient.swift:58-66 | the request is exactly `[0xA5, 0x40, byte, 8, 0 ×8, (0xED + byte) mod 256]` |
| FrameCodec.ExtractFrame | Sources/DalySwift/DalyClient.swift:134-150 | the error is `invalidResponseLength` iff the length is not 13; else `crcMismatch` iff the checksum is wrong; else `headerMismatch` iff the start byte, code or length field is wrong; on success it returns code, address and bytes 4..12 (nine bytes) |
| FrameCodec.ExtractEncoded | Sources/DalySwift/DalyClient.swift:134-150 | every encoded frame is accepted and yields its code, address and body followed by the checksum |
| FrameCodec.ExtractedIsEncoded | Sources/DalySwift/DalyClient.swift:134-150 | every accepted frame is the encoding of its own code, address and bytes 4..11 |
| FrameCodec.RequestRoundTrip | Sources/DalySwift/DalyClient.swift:134-150 | the client's own request is accepted as a frame with the command's code, address 0x40 and a zero body |
| FrameCodec.CorruptedChecksumRejected | Sources/DalySwift/DalyClient.swift:139-142 | changing only the last byte of an accepted frame always gives `crcMismatch` |
| FrameCodec.ExtractBMSFrame | Sources/DalySwift/DalyClient.swift:123-129 | succeeds iff `extractFrame` does and the address is the BMS address; frame errors pass through; a foreign address gives `headerMismatch` |
| ResponseSplit.FrameAt | Sources/DalySwift/DalyClient.swift:81-90 | frame i is bytes 13i..13i+12; a buffer ending earlier gives `invalidResponseLength` |
| ResponseSplit.ExtractFrames | Sources/DalySwift/DalyClient.swift:81-90 | succeeds iff every frame extracts, returning them in read order; otherwise fails with the error of the first failing frame |
| ResponseSplit.SplitResponse | Sources/DalySwift/DalyClient.swift:81-97 | succeeds iff each of the `frameCount` frames is a valid BMS frame with the requested code, then returns bytes 13i+4..13i+12 of each in read order; wrong codes give `incompleteFrames`, otherwise the first frame error is reported |
| ResponseSplit.ShortReadRejected | Sources/DalySwift/DalyClient.swift:84-87 | a buffer shorter than 13·frameCount whose complete frames are valid gives `invalidResponseLength` |
| Reassembly.SortById | Sources/DalySwift/DalyClient.swift:309 | the result is sorted by id and a permutation of the input |
| Reassembly.Reassemble | Sources/DalySwift/DalyClient.swift:304-320 | succeeds iff the multiset of first bytes is exactly {1..N}, failing with `incompleteFrames`; on success slot id−1 holds the payload tagged id without its id byte |
| Reassembly.ReassembleOrderIndependent | Sources/DalySwift/DalyClient.swift:304-320 | the outcome does not depend on the order in which frames arrived |
| Reassembly.SlotSource | Sources/DalySwift/DalyClient.swift:304-320 | every output slot k comes from the frame tagged k+1 |
| Reassembly.DuplicateIdRejected | Sources/DalySwift/DalyClient.swift:314-317 | two frames with the same id give `incompleteFrames` |
| Reassembly.OutOfRangeIdRejected | Sources/DalySwift/DalyClient.swift:314-317 | an id of 0 or above N gives `incompleteFrames` |
| Reassembly.MissingIdRejected | Sources/DalySwift/DalyClient.swift:314-317 | a missing id in 1..N gives `incompleteFrames` |
| CellData.Concat | Sources/DalySwift/DalyClient.swift:259 | `reduce([], +)` keeps every chunk whole: the empty list gives the empty sequence, the first chunk is a prefix, the last chunk a suffix, and no chunk is longer than the result |
| CellData.ConcatIsFlatten | Sources/DalySwift/DalyClient.swift:259 | when every chunk has w bytes, concatenation puts byte m of chunk c at position w·c + m |
| CellData.Prefix | Sources/DalySwift/DalyClient.swift:235 | `prefix(n)` is a prefix of the input of length min(n, length) |
| CellData.Flatten | Sources/DalySwift/DalyClient.swift:234 | concatenating the first w bytes of each chunk puts byte m of chunk c at position w·c + m |
| CellData.CellVoltages | Sources/DalySwift/DalyClient.swift:233-243 | succeeds iff the chunks hold 2n voltage bytes; voltage i is u16 of bytes 2(i%3), 2(i%3)+1 of chunk i/3, times 0.001 |
| CellData.CellTemperatures | Sources/DalySwift/DalyClient.swift:258-269 | as intended: succeeds iff 7 bytes per chunk cover n sensors; temperature i is byte i%7 of chunk i/7 minus 40 |
| CellData.CellTemperaturesAsWritten | Sources/DalySwift/DalyClient.swift:258-269 | as written: whole chunks are concatenated; with 8-byte chunks temperature i is byte i%8 of chunk i/8 minus 40 |
| CellData.EighthTemperatureMisread | Sources/DalySwift/DalyClient.swift:258-260 | with 8-byte chunks the as-written eighth temperature is chunk 0's last byte, while the intended one is chunk 1's first data byte |
| CellData.BalanceStatesAsWritten | Sources/DalySwift/DalyClient.swift:284-291 | as written: succeeds iff 8·length ≥ n; cell i is bit i%8 of byte i/8 |
| CellData.BalanceStates | Sources/DalySwift/DalyClient.swift:284-291 | as intended: only the eight data bytes count, so it succeeds iff n ≤ 64; cell i is bit i%8 of byte i/8 |
| CellData.BalanceGuardAdmitsChecksum | Sources/DalySwift/DalyClient.swift:284-291 | on a nine-byte payload the as-written guard admits 72 cells and reads cells 64..71 from the checksum byte; the intended decoding rejects them |
| StateOfChargeResponse.DecodeStateOfCharge | Sources/DalySwift/Responses/StateOfCharge.swift:29-34 | the four fields are u16 pairs ×0.1, the current offset by 30000 first; voltages and SoC lie in [0, 6553.5], current in [−3000, 3553.5]; current < 0 iff raw < 30000; current = 0 iff bytes 4–5 are 0x75 0x30 |
| StateOfChargeResponse.DecodeStateOfChargeInjective | Sources/DalySwift/Responses/StateOfCharge.swift:29-34 | two payloads decode alike iff their first eight bytes agree |
| StateOfChargeResponse.DecodeStateOfChargeExample | Sources/DalySwift/Responses/StateOfCharge.swift:29-34 | a worked payload decodes to 40.0 V, 40.0 V, 0.0 A, 100.0 % |
| CellVoltageLimitsResponse.DecodeCellVoltageLimits | Sources/DalySwift/Responses/CellVoltageLimits.swift:29-34 | voltages are u16 of bytes 0–1 and 3–4 ×0.001, within [0, 65.535]; cells are bytes 2 and 5 |
| CellVoltageLimitsResponse.DecodeCellVoltageLimitsInjective | Sources/DalySwift/Responses/CellVoltageLimits.swift:29-34 | two payloads decode alike iff bytes 0..5 agree; bytes 6–7 are ignored |
| CellTemperatureLimitsResponse.DecodeCellTemperatureLimits | Sources/DalySwift/Responses/CellTemperatureLimits.swift:29-34 | temperatures are bytes 0 and 2 minus 40, within [−40, 215]; sensors are bytes 1 and 3 |
| CellTemperatureLimitsResponse.DecodeCellTemperatureLimitsInjective | Sources/DalySwift/Responses/CellTemperatureLimits.swift:29-34 | two payloads decode alike iff bytes 0..3 agree; bytes 4–7 are ignored |
| MosfetStatusResponse.StatusRaw | Sources/DalySwift/Responses/MosfetStatus.swift:8-12 | raw values are 0, 1, 2 |
| MosfetStatusResponse.StatusOf | Sources/DalySwift/Responses/MosfetStatus.swift:8-12 | `Status(rawValue:)` is defined exactly on 0..2 and inverts the raw value |
| MosfetStatusResponse.DecodeMosfetStatus | Sources/DalySwift/Responses/MosfetStatus.swift:44-50 | for b0 ≤ 2 the status has raw value b0; the MOSFET states and heartbeat are bytes 1–3; the capacity is big-endian bytes 4..7, below 2^32 |
| MosfetStatusResponse.DecodeMosfetStatusInjective | Sources/DalySwift/Responses/MosfetStatus.swift:44-50 | on payloads with b0 ≤ 2, two decode alike iff their eight bytes agree |
| StatusInformationResponse.DecodeStatusInformation | Sources/DalySwift/Responses/StatusInformation.swift:38-52 | the counts are bytes 0 and 1; charger and load are connected iff bytes 2 and 3 are non-zero; the eight di/do flags weighted 2^k add up to byte 4 |
| StatusInformationResponse.BitsReconstruct | Sources/DalySwift/Responses/StatusInformation.swift:43-51 | the sum of bit k of a byte times 2^k for k = 0..7 is the byte |
| StatusInformationResponse.DecodeStatusInformationEquivalence | Sources/DalySwift/Responses/StatusInformation.swift:38-52 | two payloads decode alike iff they agree on bytes 0, 1, 4 and on whether bytes 2 and 3 are zero; bytes 5–7 are ignored |
| FailureStatusResponse.PositionOf | Sources/DalySwift/Responses/FailureStatus.swift:43-96 | every named fault sits at byte 0..6 and bit 0..7; faults in bytes 3 and 6 use bits 0..3 only |
| FailureStatusResponse.Shift | Sources/DalySwift/Responses/FailureStatus.swift:43-96 | each constant is `1 << ((7 − k)·8 + j)` with shift in 8..63 |
| FailureStatusResponse.FlagsDistinct | Sources/DalySwift/Responses/FailureStatus.swift:43-96 | two named constants have the same raw value iff they are the same fault |
| FailureStatusResponse.FlagValue | Sources/DalySwift/Responses/FailureStatus.swift:43-96 | each named constant is a single set bit, bit `(7 − k)·8 + j` for its position (k, j), and so lies above the low byte |
| FailureStatusResponse.Contains | Sources/DalySwift/Responses/FailureStatus.swift:43-96 | `OptionSet.contains` of a named fault is bit j of byte k (counted from the most significant) of the 64-bit word, for the fault's position (k, j) |
| FailureStatusResponse.FlagValueExamples | Sources/DalySwift/Responses/FailureStatus.swift:43-96 | `cellVoltageHighLevel1` is 2^56 and `lowVoltageForbiddenChargeFault` is 2^11 |
| FailureStatusResponse.DecodeFailures | Sources/DalySwift/Responses/FailureStatus.swift:106-115 | the word is below 2^64, its low byte is zero, and byte k of the word (from the top) is payload byte k for k = 0..6 |
| FailureStatusResponse.DecodeFailureStatus | Sources/DalySwift/Responses/FailureStatus.swift:24-27 | the fault code is byte 7 and the failure word reproduces bytes 0..6 |
| FailureStatusResponse.DecodeFailuresInjective | Sources/DalySwift/Responses/FailureStatus.swift:106-115 | two payloads give the same word iff bytes 0..6 agree, so byte 7 never affects it |
| FailureStatusResponse.ContainsIffBit | Sources/DalySwift/Responses/FailureStatus.swift:43-115 | a named fault is contained iff bit j of payload byte k is set, for its position (k, j) |
| FailureStatusResponse.DecodedFaults | Sources/DalySwift/Responses/FailureStatus.swift:43-115 | the contained faults are exactly those whose payload bit is set |
| FailureStatusResponse.UnnamedBitsKept | Sources/DalySwift/Responses/FailureStatus.swift:106-115 | bits 4..7 of bytes 3 and 6 have no named fault, yet the word carries them unchanged |
| Client.NewClient | Sources/DalySwift/DalyClient.swift:29-32 | a new client has the given address and no cached counts |
| Client.RequestFrames | Sources/DalySwift/DalyClient.swift:71-103 | writes one request; fewer than 13 bytes written gives `failedToTransmitRequest`; succeeds iff all 13 were written and every frame read answers the command, returning bytes 13i+4..13i+12 of the read |
| Client.RequestFrame | Sources/DalySwift/DalyClient.swift:108-110 | for one-frame commands: the payload is bytes 4..12 of the read, from a frame with start byte, BMS address and the command's code |
| Client.GetStatus | Sources/DalySwift/DalyClient.swift:198-203 | fails iff the status frame request fails, with its error and the client unchanged; on success the value is the status information decoded from frame bytes 4..12, and its cell and sensor counts (bytes 4 and 5) are cached |
| Client.GetCellCount | Sources/DalySwift/DalyClient.swift:205-211 | a cached count is returned with no request written; otherwise the call is `getStatus`: same request, same client, same error, and on success the status's cell count, which is then cached |
| Client.GetCellTemperatureCount | Sources/DalySwift/DalyClient.swift:213-219 | a cached count is returned with no request written; otherwise the call is `getStatus`: same request, same client, same error, and on success the status's temperature sensor count, which is then cached |
| Client.StatusCachesCounts | Sources/DalySwift/DalyClient.swift:198-219 | after a successful status request both count lookups write nothing and return the status values |
| Client.DecodeVoltageFrames | Sources/DalySwift/DalyClient.swift:233-243 | with ceil(n/3) nine-byte payloads it succeeds iff reassembly does; voltage i comes from data bytes 2(i%3), 2(i%3)+1 of the frame with id i/3+1 |
| Client.DecodeTemperatureFrames | Sources/DalySwift/DalyClient.swift:258-269 | as written: given at least n/7 nine-byte payloads (id byte, seven data bytes, checksum) it succeeds iff reassembly does; temperature i is byte 1 + i%8 of the payload with id i/8+1, minus 40, so payload byte 8, the checksum, is read as a temperature |
| Client.DecodeTemperatureFramesIntended | Sources/DalySwift/DalyClient.swift:258-269 | as intended: given at least n/7 nine-byte payloads it succeeds iff reassembly does; temperature i is byte 1 + i%7 of the payload with id i/7+1, minus 40 |
| Client.EighthTemperatureFromChecksum | Sources/DalySwift/DalyClient.swift:258-260 | for eight or more sensors the as-written eighth temperature is the checksum byte of the payload with id 1, the intended one the first data byte of the payload with id 2 |
| Client.GetCellVoltages | Sources/DalySwift/DalyClient.swift:229-244 | a failing count lookup is returned with its error; otherwise one voltage request follows, a failing frame request gives its error, and the call succeeds iff reassembly does (else `incompleteFrames`); with a cached count only the voltage request is written; on success voltage i comes from the frame with id i/3+1 |
| Client.GetCellTemperatures | Sources/DalySwift/DalyClient.swift:254-270 | as written: the count, frame and reassembly errors arrive in that order as for voltages; on success temperature i is byte 1 + i%8 of the payload with id i/8+1, minus 40 |
| Client.GetCellTemperaturesIntended | Sources/DalySwift/DalyClient.swift:254-270 | the corrected call writes the same requests and fails or succeeds exactly as the as-written one; temperature i is byte 1 + i%7 of the payload with id i/7+1, minus 40 |
| Client.GetCellBalanceState | Sources/DalySwift/DalyClient.swift:280-292 | as written: count and frame errors arrive in that order; after a frame it succeeds iff n ≤ 72 (else `invalidResponseLength`); cell i is bit i%8 of frame byte 4 + i/8 |
| Client.GetCellBalanceStateIntended | Sources/DalySwift/DalyClient.swift:280-292 | the corrected call writes the same requests; it succeeds iff the as-written call does and n ≤ 64, and then returns the same bits |
| Client.GetStateOfCharge | Sources/DalySwift/DalyClient.swift:158-160 | succeeds iff the frame request does, decoding bytes 4..11 of the frame; the checksum byte is ignored |
| Client.GetCellVoltageLimits | Sources/DalySwift/DalyClient.swift:168-170 | succeeds iff the frame request does, decoding bytes 4..9 of the frame |
| Client.GetCellTemperatureLimits | Sources/DalySwift/DalyClient.swift:178-180 | succeeds iff the frame request does, decoding bytes 4..7 of the frame |
| Client.GetFailures | Sources/DalySwift/DalyClient.swift:300-302 | the fault code is frame byte 11, and a named fault is reported iff its bit is set in frame byte 4 + k |
| Client.StatusThenVoltages | Sources/DalySwift/DalyClient.swift:229-231 | after a successful status request, a voltage request writes exactly one request, for the count from that status, and no status request |

## Left out

- Serial transport: opening the port, `writeBytes`, `readBytesBlocking`, read timeouts, `async`/`await`. These are the `Port` parameter. A timed-out read is whatever shorter byte sequence the port returns.
- The 100-byte resynchronisation read in the `catch` block of `requestFrames`. It is I/O. The model propagates the original error, and does not cover the case where that read itself throws and replaces the error.
- `print` diagnostics.
- IEEE `Float` rounding: values are exact reals, and `frameCount` is exact integer ceiling division.
- `getMosfetStatus` as a client call. `MosfetStatus(bytes:)` force-unwraps the status byte, so a BMS that sends a byte above 2 stops the program. The decoder is modelled with that as its precondition, but no caller can guarantee it about bytes read from the port.
- `failedToCreateSerialClient` and `portClosed` exist as error cases but are never thrown by the modelled code.
- `PendingCommand` is unused by the library.
- `Package.swift` is build configuration.
- The test target needs hardware and asserts nothing.
- Sorting: Swift's `sorted` is not stable. The model sorts by insertion, and `Reassembly.ReassembleOrderIndependent` shows the result does not depend on the order among equal ids.
- Client.Port: the port is a function of the request, so two identical requests within one call would get identical answers. No modelled call writes the same request twice.

## Findings

| source | as written | input that shows it | evidently intended | confidence | as-written member | corrected member |
|---|---|---|---|---|---|---|
| Sources/DalySwift/DalyClient.swift:258-260 | the temperature path concatenates whole reassembled chunks (`reduce([], +)`); each chunk is the 9-byte payload minus its id, so its eighth byte is the frame checksum | eight or more sensors: two frames with ids 1 and 2; the eighth temperature is frame 1's checksum minus 40 | read the seven data bytes of each chunk (as the voltage path keeps only bytes 0–5) | medium, not executed | CellData.CellTemperaturesAsWritten, CellData.EighthTemperatureMisread, Client.GetCellTemperatures, Client.EighthTemperatureFromChecksum | CellData.CellTemperatures, Client.GetCellTemperaturesIntended |
| Sources/DalySwift/DalyClient.swift:284-291 | the guard `frame.count * 8 >= cellCount` counts the checksum byte in the 9-byte payload, admitting up to 72 cells | a status reporting 72 cells: the guard passes, and cells 64..71 are the bits of the checksum byte | at most 64 cells from the eight data bytes, larger counts rejected | medium, not executed | CellData.BalanceStatesAsWritten, CellData.BalanceGuardAdmitsChecksum, Client.GetCellBalanceState | CellData.BalanceStates, Client.GetCellBalanceStateIntended |
