# Helios laser DAC API, modelled in Dafny

This project models the protocol layer of the Helios laser-DAC driver
(`sdk/example/HeliosDacAPI.cpp`). It has three parts:

- **Frame encoder** (`FrameCodec`). `WriteFrame` checks its arguments. It then packs each point into
  7 bytes: 12-bit x and y across three bytes, then r, g, b, i. A 5-byte trailer
  follows: pps and the point count, each 16-bit little-endian, then the flags
  byte. The encoder is specified by `EncodeFrame` and has an inverse, `DecodeFrame`. The
  source's fill loop over a fixed `frameBuffer` array is the method `PackFrame`.
- **Control commands** (`ControlCodec`). Each of Stop, SetShutter, GetStatus,
  GetFirmwareVersion, GetName, SetName and EraseFirmware sends a request with a
  fixed opcode. The device-side reading of a request, `Decode`, is its inverse. The
  three queries check that the response begins with `0x80 | opcode`. They then
  decode it (`StatusResult`, `FirmwareResult`, `NameResult`). GetName falls back
  to a synthesised name.
- **Lifecycle** (`HeliosDacApi.Api`). This class holds the global `inited` flag and the
  controller. `OpenDevices` closes any earlier session first. `CloseDevices` returns 1 when a
  session was open and 0 otherwise. No other entry point makes a USB call
  without a session.

The USB side is `HeliosDac`: the controller class and libusb, whose code lies
outside this model. In the model it is a class whose calls return arbitrary values. Each call, with
what it returned, is appended to a ghost `log`. "No transport call" is stated as
"the log is unchanged". The queries' postconditions give their result as the
codec function applied to the values logged. `new HeliosDac()` with its
`OpenDevices` is the `Enumerate` call. `delete dacController` is the `Release` call.

Constants from the header, which is not part of this model, are taken as in the Helios
SDK: `HELIOS_MAX_POINTS = 0x1000`, `HELIOS_MAX_RATE = 0xFFFF`,
`HELIOS_MIN_RATE = 7`. `LimitsFitSixteenBits` records the assumption the
trailer relies on: the maximum rate and count fit in 16 bits. This matters
because lines 55 and 57 truncate `pps >> 8` and `numOfPoints >> 8` into a
`uint8_t`.

Bytes are integers in `0..255` (`byte`). The coordinates are `uint16`, as in
`HeliosPoint`. The `|` of line 47 is written out bit by bit (`BitOr`). So a
y of 4096 or more spills into x, as in C: x comes back as its bits 4..11
over its low nibble or-ed with `y >> 12`, and exactly whenever y < 4096 (`PointPacking`).

The model keeps the source's `int` sentinels; it has no tagged result type.
The GetName fallback is the code's `"Helios "` (with a space), then two
characters computed as written, then NUL. It is not a decimal rendering of
the index.

## Model

| member | source | states |
|---|---|---|
| HeliosDefs.LimitsFitSixteenBits | sdk/example/HeliosDacAPI.cpp:54-57 | the rate and count limits fit the 16-bit trailer fields, and the rate range is not empty |
| HeliosDefs.LowByte | sdk/example/HeliosDacAPI.cpp:54-57 | `(uint8_t)(v & 0xFF)`: the byte congruent to v modulo 256 |
| HeliosDefs.HighByte | sdk/example/HeliosDacAPI.cpp:54-57 | `(uint8_t)(v >> 8)`: with the low byte below it, the byte that gives v modulo 2^16 |
| FrameCodec.EncodePoint | sdk/example/HeliosDacAPI.cpp:46-52 | one point is seven bytes; for every 16-bit point their contents are pinned by PointPacking (both coordinates read back, the `y >> 12` spill into x included, and r, g, b, i) and PointBytesRoundTrip |
| FrameCodec.NibbleSplit | sdk/example/HeliosDacAPI.cpp:47 | for a 4-bit a and an 8-bit c, (a << 4) OR c is a OR-ed with c's high nibble in the high nibble and c's low nibble below, so it fits a byte |
| FrameCodec.PointPacking | sdk/example/HeliosDacAPI.cpp:46-52 | for any 16-bit point, unpacking (x = b0*16 + (b1>>4), y = (b1&0x0F)*256 + b2) yields y's low 12 bits; it yields x's bits 4..11 over x's low nibble or-ed with y >> 12, hence x's low 12 bits whenever y < 4096; bytes 3..6 are r, g, b, i |
| FrameCodec.PointRoundTrip | sdk/example/HeliosDacAPI.cpp:46-52 | for x, y < 4096 the seven bytes decode to exactly the point |
| FrameCodec.PointBytesRoundTrip | sdk/example/HeliosDacAPI.cpp:46-52 | every 7-byte group is the packing of the point it decodes to |
| FrameCodec.EncodePoints | sdk/example/HeliosDacAPI.cpp:44-53 | n points take exactly 7n bytes |
| FrameCodec.EncodePointsAt | sdk/example/HeliosDacAPI.cpp:44-53 | point k occupies bytes 7k..7k+6, in order |
| FrameCodec.Trailer | sdk/example/HeliosDacAPI.cpp:54-58 | five bytes: pps and the count each kept modulo 2^16, little-endian, then the flags |
| FrameCodec.EncodeFrame | sdk/example/HeliosDacAPI.cpp:42-58 | 7n + 5 bytes whose trailer reads back pps and n modulo 2^16 and the flags |
| FrameCodec.FrameLayout | sdk/example/HeliosDacAPI.cpp:42-58 | for 0 <= n <= HELIOS_MAX_POINTS the frame is exactly 7n+5 bytes; point k is at offset 7k; the last five bytes are pps&0xFF, pps>>8, n&0xFF, n>>8, flags; pps and n are read back little-endian |
| FrameCodec.FrameRoundTrip | sdk/example/HeliosDacAPI.cpp:44-58 | a valid frame with 12-bit points is decoded back exactly |
| FrameCodec.FrameBytesRoundTrip | sdk/example/HeliosDacAPI.cpp:44-58 | every buffer the decoder accepts is the encoding of the frame it yields |
| FrameCodec.TrailerRoundTrip | sdk/example/HeliosDacAPI.cpp:54-58 | any five bytes are the trailer of the rate, count and flags read back from them |
| FrameCodec.PutPoint | sdk/example/HeliosDacAPI.cpp:46-52 | one loop pass writes the seven bytes of the point right after the bytes already written and leaves every later byte unchanged |
| FrameCodec.PutTrailer | sdk/example/HeliosDacAPI.cpp:54-58 | the five trailer writes put pps&0xFF, pps>>8, n&0xFF, n>>8 and flags right after the point bytes and leave every later byte unchanged |
| FrameCodec.PackFrame | sdk/example/HeliosDacAPI.cpp:41-58 | the loop over frameBuffer with the running bufPos produces exactly EncodeFrame of the first numOfPoints points |
| FrameCodec.FrameCheckAsWritten | sdk/example/HeliosDacAPI.cpp:38-39 | the written guard admits exactly the valid requests plus every negative count at a valid rate |
| FrameCodec.FrameAsWritten | sdk/example/HeliosDacAPI.cpp:41-58 | the written buffer has 7 max(n,0) + 5 bytes and its trailer announces n modulo 2^16 |
| FrameCodec.FrameCheckCorrected | sdk/example/HeliosDacAPI.cpp:36-39 | the corrected guard is the written guard plus numOfPoints >= 0, and both build the same buffer on every count the corrected guard admits |
| FrameCodec.NegativeCountMisannounced | sdk/example/HeliosDacAPI.cpp:38-57 | numOfPoints = -1 passes the written guard and yields a 5-byte buffer announcing 65535 points that the decoder rejects; the corrected guard refuses it |
| ControlCodec.ResponseOpcodeConvention | sdk/example/HeliosDacAPI.cpp:88 | the expected response opcodes 0x83, 0x84 and 0x85 are 0x80 OR-ed with the request opcode |
| ControlCodec.Encode | sdk/example/HeliosDacAPI.cpp:68-181 | every request starts with its opcode; SetName is 32 bytes, the opcode then the 31 name bytes; every other request is 2 bytes whose second byte is 1 for an open shutter and 0 otherwise: Stop [0x01,0], SetShutter [0x02,v], GetStatus [0x03,0], GetFirmwareVersion [0x04,0], GetName [0x05,0], EraseFirmware [0xDE,0] |
| ControlCodec.EncodeDecode | sdk/example/HeliosDacAPI.cpp:68-181 | the device reads every request back as the command that built it, so no two commands share a request |
| ControlCodec.DecodeEncode | sdk/example/HeliosDacAPI.cpp:68-181 | every byte string the device reads as a command is exactly that command's request |
| ControlCodec.StatusResult | sdk/example/HeliosDacAPI.cpp:120-137 | the result is always -1, 0 or 1; it is 1 iff the send and read returned 1 and the response is [0x83,1]; it is 0 iff the response is 0x83 with another second byte; every other case gives -1 |
| ControlCodec.StatusAsWritten | sdk/example/HeliosDacAPI.cpp:115-137 | the written GetStatus has no result exactly when a delivered response has the wrong opcode, and it agrees with StatusResult everywhere else |
| ControlCodec.StatusMismatchHasNoResult | sdk/example/HeliosDacAPI.cpp:125-137 | a delivered response [0x00,0x01] leaves the written GetStatus without a result, where StatusResult gives -1 |
| ControlCodec.LittleEndian32 | sdk/example/HeliosDacAPI.cpp:165-168 | the four reply bytes, least significant first, give an unsigned 32-bit value |
| ControlCodec.Int32 | sdk/example/HeliosDacAPI.cpp:165-168 | the 32 bits read as a two's complement `int`: a value in [-2^31, 2^31) congruent to the unsigned one modulo 2^32 |
| ControlCodec.FirmwareResult | sdk/example/HeliosDacAPI.cpp:155-173 | the result is -1 on a failed send, 0 on a failed read and -1 on a wrong opcode, and it always fits a 32-bit int |
| ControlCodec.FirmwareRoundTrip | sdk/example/HeliosDacAPI.cpp:160-169 | a version v reported as [0x84, v little-endian] comes back as v read as an int32; it comes back as v itself for v < 2^31 |
| ControlCodec.FirmwareRepliesAreReports | sdk/example/HeliosDacAPI.cpp:163-169 | every response starting with 0x84 is the report of the version in bytes 1..4, and decodes to it |
| ControlCodec.FirmwareSentinelsAmbiguous | sdk/example/HeliosDacAPI.cpp:157-172 | version 0xFFFFFFFF gives the same -1 as a failed send, and version 0 gives the same 0 as a failed read |
| ControlCodec.FirmwareAsWritten | sdk/example/HeliosDacAPI.cpp:150-173 | the written GetFirmwareVersion has no result exactly when a delivered response has the wrong opcode, and it agrees with FirmwareResult everywhere else |
| ControlCodec.FirmwareMismatchHasNoResult | sdk/example/HeliosDacAPI.cpp:160-173 | a delivered response [0x00,1,0,0,0] leaves the written GetFirmwareVersion without a result, where FirmwareResult gives -1 |
| ControlCodec.CRemainder10 | sdk/example/HeliosDacAPI.cpp:99 | C's `dacNum % 10`, truncating: a value in (-10, 10) congruent to dacNum modulo 10 with dacNum's sign, which fixes it for every dacNum, negative ones included |
| ControlCodec.FallbackName | sdk/example/HeliosDacAPI.cpp:96-100 | the fallback name is 10 bytes: "Helios ", two computed characters and NUL |
| ControlCodec.FallbackNameDecimal | sdk/example/HeliosDacAPI.cpp:96-100 | for 0 <= d <= 19 the fallback name is "Helios " plus d as two zero-padded decimal digits plus NUL, and d is read back from it |
| ControlCodec.FallbackNameRepeats | sdk/example/HeliosDacAPI.cpp:98-99 | for d >= 10 the fallback name is that of 10 + d % 10, so from 20 on it no longer spells d |
| ControlCodec.NamePayload | sdk/example/HeliosDacAPI.cpp:90 | the corrected copy: 31 name bytes, byte k being response byte k + 1 |
| ControlCodec.NameResult | sdk/example/HeliosDacAPI.cpp:81-101 | GetName returns 1 iff the send and read returned 1 and the response starts with 0x85; otherwise it returns 0 and the fallback name |
| ControlCodec.NameRoundTrip | sdk/example/HeliosDacAPI.cpp:85-91 | a 31-byte name the device reports as [0x85] + name is returned with result 1 |
| ControlCodec.NameCopyAsWritten | sdk/example/HeliosDacAPI.cpp:90 | the written copy is 32 bytes: response bytes 1..31, then the byte that lies past the buffer |
| ControlCodec.NameCopyReadsPastBuffer | sdk/example/HeliosDacAPI.cpp:90 | the written 32-byte copy from index 1 depends on the byte past the buffer; its first 31 bytes are the corrected payload |
| HeliosDacApi.Api.OpenDevices | sdk/example/HeliosDacAPI.cpp:15-31 | it first releases an open session, then scans; inited holds afterwards iff the count is positive; the count is returned; a failed scan releases the new controller |
| HeliosDacApi.Api.CloseDevices | sdk/example/HeliosDacAPI.cpp:184-194 | when inited it releases the controller, clears inited and returns 1; otherwise it returns 0 and makes no call |
| HeliosDacApi.Api.CloseTwice | sdk/example/HeliosDacAPI.cpp:184-194 | two closes in a row return (1 if a session was open, else 0) and then 0, with at most one release |
| HeliosDacApi.Api.WriteFrame | sdk/example/HeliosDacAPI.cpp:34-61 | it returns 0 and makes no call when not inited, when points is null, when the count is negative or above HELIOS_MAX_POINTS, or when pps is outside [HELIOS_MIN_RATE, HELIOS_MAX_RATE]; otherwise it sends EncodeFrame once and returns SendFrame's result |
| HeliosDacApi.Api.Stop | sdk/example/HeliosDacAPI.cpp:63-73 | not inited: it returns 0 with no call; otherwise it sends [0x01,0] and returns 1 iff SendControl returned non-zero |
| HeliosDacApi.Api.SetShutter | sdk/example/HeliosDacAPI.cpp:141-148 | not inited: it returns 0 with no call; otherwise it sends [0x02,value] and returns SendControl's result |
| HeliosDacApi.Api.SetName | sdk/example/HeliosDacAPI.cpp:104-112 | not inited: it returns -1 with no call; otherwise it sends 0x06 and the first 31 name bytes, 32 bytes in all, and returns SendControl's result |
| HeliosDacApi.Api.EraseFirmware | sdk/example/HeliosDacAPI.cpp:175-182 | not inited: it returns -1 with no call; otherwise it sends [0xDE,0] and returns SendControl's result |
| HeliosDacApi.Api.GetStatus | sdk/example/HeliosDacAPI.cpp:115-138 | not inited: it returns -1 with no call; otherwise it sends [0x03,0], reads 2 bytes only if the send returned 1, and returns StatusResult of what came back |
| HeliosDacApi.Api.GetFirmwareVersion | sdk/example/HeliosDacAPI.cpp:150-173 | not inited: it returns -1 with no call; otherwise it sends [0x04,0], reads 5 bytes only if the send returned 1, and returns FirmwareResult of what came back |
| HeliosDacApi.Api.GetName | sdk/example/HeliosDacAPI.cpp:76-102 | not inited: it returns -1, writes nothing and makes no call; otherwise it sends [0x05,0], reads 32 bytes only if the send returned 1, and returns NameResult of what came back |

## Findings

| source | as written | input that shows it | evidently intended | confidence | as-written member | corrected member |
|---|---|---|---|---|---|---|
| sdk/example/HeliosDacAPI.cpp:125-137 | GetStatus has no `return` when the read succeeds but the opcode is not 0x83 (undefined behaviour) | read returns 1 with response [0x00, 0x01] | return -1, as on the other failure paths | not executed | ControlCodec.StatusMismatchHasNoResult | ControlCodec.StatusResult |
| sdk/example/HeliosDacAPI.cpp:160-172 | GetFirmwareVersion has no `return` when the read succeeds but the opcode is not 0x84 | read returns 1 with response [0x00, 1, 0, 0, 0] | return -1 | not executed | ControlCodec.FirmwareMismatchHasNoResult | ControlCodec.FirmwareResult |
| sdk/example/HeliosDacAPI.cpp:90 | `memcpy(name, &ctrlBuffer[1], 32)` reads one byte past the 32-byte buffer | any successful GetName | copy response bytes 1..31 | not executed | ControlCodec.NameCopyReadsPastBuffer | ControlCodec.NamePayload |
| sdk/example/HeliosDacAPI.cpp:38 | a negative numOfPoints passes the guard, and the trailer stores its two's complement bits | WriteFrame with numOfPoints = -1 sends 5 bytes announcing 65535 points | reject negative counts like oversized ones | not executed | FrameCodec.NegativeCountMisannounced | FrameCodec.FrameCheckCorrected |

## Left out

- The `HeliosDac` controller and its libusb transfers (`OpenDevices`, `SendFrame`, `SendControl`, `GetControlResponse`, the destructor). Their code is not part of this model, so they are a class whose calls return arbitrary values and are logged.
- A short read by `GetControlResponse`: the model's response always has the requested length. Its bytes are arbitrary, so this covers whatever a short read leaves in the buffer.
- `printf` at line 28: console output with no effect on behaviour.
- `new`/`delete` of `dacController`: the model has one controller object. Its creation with the scan and its destruction are the logged `Enumerate` and `Release` calls, and the `inited` flag says whether it is alive.
- The `char*` out-parameter and the `memcpy` mechanics: names are byte sequences. `GetName` returns the bytes it would write; `SetName` takes at least 31 bytes, as the 31-byte `memcpy` reads.
- A null `points` pointer is `None` of an `Option` sequence. On the sending path (a session, points and a count and rate the guard admits), a caller's array shorter than the count is excluded by `WriteFrame`'s precondition, since the C code would read past it there; on every path that returns 0 early the array length is unconstrained.
- Thread safety of the global state: the source has no concurrency.
- HeliosDacApi.Api.GetFirmwareVersion: on two's complement it reads `ctrlBuffer[4] << 24` into the sign bit (`Int32`). That shift overflows a signed `int` before C++20. This undefined behaviour is not modelled.
