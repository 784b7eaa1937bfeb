/** The control commands of the Helios DAC API: the request each entry point
    sends, and how the three queries turn the DAC's response into their
    result. Every query's response must start with the request opcode with its
    high bit set. */
module ControlCodec {
  import opened HeliosDefs

  datatype Command =
    | Stop
    | SetShutter(open: bool)
    | GetStatus
    | GetFirmwareVersion
    | GetName
    | SetName(name: seq<byte>)
    | EraseFirmware
  {
    /** Commands the DAC answers with a response. */
    predicate IsQuery() {
      GetStatus? || GetFirmwareVersion? || GetName?
    }

    /** SetName carries exactly the 31 name bytes its request has room for. */
    predicate WellFormed() {
      SetName? ==> |name| == 31
    }
  }

  function Opcode(c: Command): byte {
    match c
    case Stop => 0x01
    case SetShutter(_) => 0x02
    case GetStatus => 0x03
    case GetFirmwareVersion => 0x04
    case GetName => 0x05
    case SetName(_) => 0x06
    case EraseFirmware => 0xDE
  }

  /** The leading byte the driver expects in a query's response. */
  function ResponseOpcode(c: Command): byte
    requires c.IsQuery()
  {
    match c
    case GetStatus => 0x83
    case GetFirmwareVersion => 0x84
    case GetName => 0x85
  }

  /** The expected response opcodes follow the convention 0x80 | opcode. */
  lemma ResponseOpcodeConvention(c: Command)
    requires c.IsQuery()
    ensures ResponseOpcode(c) == BitOr(0x80, Opcode(c))
  {
    match c
    case GetStatus =>
      assert BitOr(0x40, 0x01) == 2 * BitOr(0x20, 0) + 1 == 0x41;
      assert BitOr(0x80, 0x03) == 2 * BitOr(0x40, 0x01) + 1;
    case GetFirmwareVersion =>
      assert BitOr(0x20, 0x01) == 2 * BitOr(0x10, 0) + 1 == 0x21;
      assert BitOr(0x40, 0x02) == 2 * BitOr(0x20, 0x01);
      assert BitOr(0x80, 0x04) == 2 * BitOr(0x40, 0x02);
    case GetName =>
      assert BitOr(0x20, 0x01) == 2 * BitOr(0x10, 0) + 1 == 0x21;
      assert BitOr(0x40, 0x02) == 2 * BitOr(0x20, 0x01);
      assert BitOr(0x80, 0x05) == 2 * BitOr(0x40, 0x02) + 1;
  }

  // --------------------------------------------------------------- requests

  /** The bytes an entry point hands to SendControl: the opcode and a zero
      byte (the shutter value for SetShutter), or for SetName the opcode and
      31 name bytes. */
  function Encode(c: Command): (bs: seq<byte>)
    requires c.WellFormed()
    ensures |bs| == (if c.SetName? then 32 else 2)
    ensures bs[0] == Opcode(c)
    ensures c.SetName? ==> bs[1..] == c.name
    ensures !c.SetName? ==> bs[1] == (if c.SetShutter? && c.open then 1 else 0)
  {
    match c
    case SetShutter(open) => [Opcode(c), if open then 1 else 0]
    case SetName(name) => [Opcode(c)] + name
    case _ => [Opcode(c), 0]
  }

  /** The DAC's reading of a request: the command these bytes encode, if any. */
  function Decode(bs: seq<byte>): Option<Command> {
    if |bs| == 32 && bs[0] == 0x06 then Some(SetName(bs[1..]))
    else if |bs| != 2 then None
    else if bs[0] == 0x02 && bs[1] <= 1 then Some(SetShutter(bs[1] == 1))
    else if bs[1] != 0 then None
    else if bs[0] == 0x01 then Some(Stop)
    else if bs[0] == 0x03 then Some(GetStatus)
    else if bs[0] == 0x04 then Some(GetFirmwareVersion)
    else if bs[0] == 0x05 then Some(GetName)
    else if bs[0] == 0xDE then Some(EraseFirmware)
    else None
  }

  /** Every request is read back as the command that built it; in particular
      no two commands share a request. */
  lemma EncodeDecode(c: Command)
    requires c.WellFormed()
    ensures Decode(Encode(c)) == Some(c)
  {
    if c.SetName? {
      assert Encode(c)[1..] == c.name;
    }
  }

  /** Every byte string the DAC reads as a command is exactly that command's
      request. */
  lemma DecodeEncode(bs: seq<byte>)
    requires Decode(bs).Some?
    ensures Decode(bs).value.WellFormed() && Encode(Decode(bs).value) == bs
  {
    if |bs| == 32 && bs[0] == 0x06 {
      assert bs == [bs[0]] + bs[1..];
    } else {
      assert bs == [bs[0], bs[1]];
    }
  }

  // ---------------------------------------------------------------- GetStatus

  /** GetStatus after the send returned `sent` and the two-byte read returned
      `received` with `reply`: 1 when the DAC reports ready, 0 when it
      answered but is busy, -1 on a failed send or read and on a response with
      the wrong opcode. */
  function StatusResult(sent: int, received: int, reply: seq<byte>): (r: int)
    requires sent == 1 && received == 1 ==> |reply| == 2
    ensures r == -1 || r == 0 || r == 1
    ensures r == 1 <==> sent == 1 && received == 1 && reply == [ResponseOpcode(GetStatus), 1]
    ensures r == 0 <==> sent == 1 && received == 1 && reply[0] == ResponseOpcode(GetStatus) && reply[1] != 1
  {
    if sent != 1 then -1
    else if received != 1 then -1
    else if reply[0] == ResponseOpcode(GetStatus) then (if reply[1] == 1 then 1 else 0)
    else -1
  }

  /** GetStatus as written: None where control runs off the end of the
      function without a return statement. */
  function StatusAsWritten(sent: int, received: int, reply: seq<byte>): (r: Option<int>)
    requires sent == 1 && received == 1 ==> |reply| == 2
    ensures r.None? <==> sent == 1 && received == 1 && reply[0] != ResponseOpcode(GetStatus)
    ensures r.Some? ==> r.value == StatusResult(sent, received, reply)
  {
    if sent != 1 then Some(-1)
    else if received == 1 then
      if reply[0] == 0x83 then Some(if reply[1] == 1 then 1 else 0) else None
    else Some(-1)
  }

  /** A delivered response [0x00, 0x01] leaves the written GetStatus
      without a result, where the corrected one reports -1. */
  lemma StatusMismatchHasNoResult()
    ensures StatusAsWritten(1, 1, [0x00, 0x01]).None?
    ensures StatusResult(1, 1, [0x00, 0x01]) == -1
  {
  }

  // ------------------------------------------------------- GetFirmwareVersion

  /** Four bytes, least significant first. */
  function LittleEndian32(bs: seq<byte>): (v: int)
    requires |bs| == 4
    ensures 0 <= v < 0x1_0000_0000
  {
    bs[0] as int + 0x100 * bs[1] as int + 0x1_0000 * bs[2] as int + 0x100_0000 * bs[3] as int
  }

  /** The 32 bits of u read as a two's complement `int`: the shift of the
      top byte by 24 places lands in the sign bit. */
  function Int32(u: int): (r: int)
    requires 0 <= u < 0x1_0000_0000
    ensures -0x8000_0000 <= r < 0x8000_0000
    ensures (r - u) % 0x1_0000_0000 == 0
  {
    if u < 0x8000_0000 then u else u - 0x1_0000_0000
  }

  /** GetFirmwareVersion after the send returned `sent` and the five-byte read
      returned `received` with `reply`: -1 on a failed send, 0 on a failed
      read, the version on a well-tagged response, -1 on the wrong opcode. */
  function FirmwareResult(sent: int, received: int, reply: seq<byte>): (r: int)
    requires sent == 1 && received == 1 ==> |reply| == 5
    ensures -0x8000_0000 <= r < 0x8000_0000
    ensures sent != 1 ==> r == -1
    ensures sent == 1 && received != 1 ==> r == 0
    ensures sent == 1 && received == 1 && reply[0] != ResponseOpcode(GetFirmwareVersion) ==> r == -1
  {
    if sent != 1 then -1
    else if received != 1 then 0
    else if reply[0] == ResponseOpcode(GetFirmwareVersion) then Int32(LittleEndian32(reply[1..5]))
    else -1
  }

  /** The response a DAC gives to report firmware version v. */
  function FirmwareReply(v: int): (reply: seq<byte>)
    requires 0 <= v < 0x1_0000_0000
    ensures |reply| == 5
  {
    [0x84, v % 0x100, (v / 0x100) % 0x100, (v / 0x1_0000) % 0x100, (v / 0x100_0000) % 0x100]
  }

  /** Writing v out least significant byte first and reading it back gives v. */
  lemma LittleEndian32RoundTrip(v: int)
    requires 0 <= v < 0x1_0000_0000
    ensures LittleEndian32(FirmwareReply(v)[1..]) == v
  {
    var q1, q2, q3 := v / 0x100, v / 0x1_0000, v / 0x100_0000;
    DivModUnique(v, 0x1_0000, v % 0x100 + 0x100 * (q1 % 0x100), q1 / 0x100);
    DivModUnique(v, 0x100_0000, v % 0x1_0000 + 0x1_0000 * (q2 % 0x100), q2 / 0x100);
    DivModUnique(q3, 0x100, q3, 0);
    var b := FirmwareReply(v)[1..];
    assert b == [v % 0x100, q1 % 0x100, q2 % 0x100, q3];
  }

  /** A version reported by the DAC is what GetFirmwareVersion returns, as
      long as it stays below 2^31. */
  lemma FirmwareRoundTrip(v: int)
    requires 0 <= v < 0x1_0000_0000
    ensures FirmwareResult(1, 1, FirmwareReply(v)) == Int32(v)
    ensures v < 0x8000_0000 ==> FirmwareResult(1, 1, FirmwareReply(v)) == v
  {
    LittleEndian32RoundTrip(v);
  }

  /** Every well-tagged response is the report of some version, and decodes
      to it. */
  lemma FirmwareRepliesAreReports(reply: seq<byte>)
    requires |reply| == 5 && reply[0] == ResponseOpcode(GetFirmwareVersion)
    ensures reply == FirmwareReply(LittleEndian32(reply[1..]))
    ensures FirmwareResult(1, 1, reply) == Int32(LittleEndian32(reply[1..]))
  {
    var b1, b2, b3, b4 := reply[1] as int, reply[2] as int, reply[3] as int, reply[4] as int;
    var v := LittleEndian32(reply[1..]);
    assert v == b1 + 0x100 * b2 + 0x1_0000 * b3 + 0x100_0000 * b4;
    DivModUnique(v, 0x100, b1, b2 + 0x100 * b3 + 0x1_0000 * b4);
    DivModUnique(v / 0x100, 0x100, b2, b3 + 0x100 * b4);
    DivModUnique(v, 0x1_0000, b1 + 0x100 * b2, b3 + 0x100 * b4);
    DivModUnique(v / 0x1_0000, 0x100, b3, b4);
    DivModUnique(v, 0x100_0000, b1 + 0x100 * b2 + 0x1_0000 * b3, b4);
    DivModUnique(b4, 0x100, b4, 0);
    assert FirmwareReply(v) == [0x84, b1, b2, b3, b4];
  }

  /** The result sentinels collide with versions: version 0xFFFFFFFF reads as
      the send-failure -1, and version 0 as the read-failure 0. */
  lemma FirmwareSentinelsAmbiguous()
    ensures FirmwareResult(1, 1, FirmwareReply(0xFFFF_FFFF)) == FirmwareResult(0, 0, []) == -1
    ensures FirmwareResult(1, 1, FirmwareReply(0)) == FirmwareResult(1, 0, []) == 0
  {
    FirmwareRoundTrip(0xFFFF_FFFF);
    FirmwareRoundTrip(0);
  }

  /** GetFirmwareVersion as written: None where control runs off the end of
      the function without a return statement. */
  function FirmwareAsWritten(sent: int, received: int, reply: seq<byte>): (r: Option<int>)
    requires sent == 1 && received == 1 ==> |reply| == 5
    ensures r.None? <==> sent == 1 && received == 1 && reply[0] != ResponseOpcode(GetFirmwareVersion)
    ensures r.Some? ==> r.value == FirmwareResult(sent, received, reply)
  {
    if sent != 1 then Some(-1)
    else if received == 1 then
      if reply[0] == 0x84 then Some(Int32(LittleEndian32(reply[1..5]))) else None
    else Some(0)
  }

  /** A delivered response [0x00, 1, 0, 0, 0] leaves the written
      GetFirmwareVersion without a result, where the corrected one reports
      -1. */
  lemma FirmwareMismatchHasNoResult()
    ensures FirmwareAsWritten(1, 1, [0x00, 1, 0, 0, 0]).None?
    ensures FirmwareResult(1, 1, [0x00, 1, 0, 0, 0]) == -1
  {
  }

  // ------------------------------------------------------------------ GetName

  /** "Helios " */
  const FALLBACK_PREFIX: seq<byte> := [0x48, 0x65, 0x6C, 0x69, 0x6F, 0x73, 0x20]

  /** `a % 10` in C, which rounds the quotient towards zero: the remainder
      of a by 10 that lies strictly inside (-10, 10) and takes the sign of a. */
  function CRemainder10(a: int): (r: int)
    ensures -10 < r < 10
    ensures (a - r) % 10 == 0
    ensures a >= 0 ==> 0 <= r
    ensures a < 0 ==> r <= 0
    ensures a >= 0 ==> r == a % 10
  {
    if a >= 0 then a % 10 else -((-a) % 10)
  }

  /** The name GetName writes when it gets no name from the DAC: "Helios ",
      then the characters '0' + (d >= 10) and '0' + d % 10, then NUL. */
  function FallbackName(dacNum: int): (name: seq<byte>)
    ensures |name| == 10 && name[..7] == FALLBACK_PREFIX && name[9] == 0
  {
    FALLBACK_PREFIX +
    [0x30 + (if dacNum >= 10 then 1 else 0), 0x30 + CRemainder10(dacNum), 0]
  }

  /** The device index a fallback name spells as two decimal digits. */
  function FallbackIndex(name: seq<byte>): int
    requires |name| == 10
  {
    (name[7] as int - 0x30) * 10 + (name[8] as int - 0x30)
  }

  /** For devices 0 to 19 the fallback name is "Helios " and the index as two
      zero-padded decimal digits, and the index can be read back from it. */
  lemma FallbackNameDecimal(dacNum: int)
    requires 0 <= dacNum <= 19
    ensures FallbackName(dacNum) == FALLBACK_PREFIX + [0x30 + dacNum / 10, 0x30 + dacNum % 10, 0]
    ensures FallbackIndex(FallbackName(dacNum)) == dacNum
  {
  }

  /** From index 20 on, the fallback names repeat those of 10 to 19. */
  lemma FallbackNameRepeats(dacNum: int)
    requires dacNum >= 10
    ensures FallbackName(dacNum) == FallbackName(10 + dacNum % 10)
    ensures dacNum >= 20 ==> FallbackIndex(FallbackName(dacNum)) != dacNum
  {
  }

  /** The name bytes of a 32-byte response: bytes 1 to 31. */
  function NamePayload(reply: seq<byte>): (name: seq<byte>)
    requires |reply| == 32
    ensures |name| == 31
    ensures forall k :: 0 <= k < 31 ==> name[k] == reply[k + 1]
  {
    reply[1..]
  }

  /** The response a DAC gives to report its 31-byte name. */
  function NameReply(name: seq<byte>): (reply: seq<byte>)
    requires |name| == 31
    ensures |reply| == 32
  {
    [0x85] + name
  }

  /** GetName after the send returned `sent` and the 32-byte read returned
      `received` with `reply`: 1 and the DAC's name on a well-tagged
      response, otherwise 0 and the fallback name. */
  function NameResult(dacNum: int, sent: int, received: int, reply: seq<byte>): (r: (int, seq<byte>))
    requires sent == 1 && received == 1 ==> |reply| == 32
    ensures r.0 == 0 || r.0 == 1
    ensures r.0 == 1 <==> sent == 1 && received == 1 && reply[0] == ResponseOpcode(GetName)
    ensures r.0 == 0 ==> r.1 == FallbackName(dacNum)
  {
    if sent == 1 && received == 1 && reply[0] == ResponseOpcode(GetName)
    then (1, NamePayload(reply))
    else (0, FallbackName(dacNum))
  }

  /** A name the DAC reports is the name GetName returns. */
  lemma NameRoundTrip(dacNum: int, name: seq<byte>)
    requires |name| == 31
    ensures NameResult(dacNum, 1, 1, NameReply(name)) == (1, name)
  {
    assert NameReply(name)[1..] == name;
  }

  /** GetName's copy as written: 32 bytes from index 1 of the 32-byte buffer,
      the last of them being whatever byte lies just past the buffer. */
  function NameCopyAsWritten(reply: seq<byte>, pastBuffer: byte): (copy: seq<byte>)
    requires |reply| == 32
    ensures |copy| == 32
    ensures forall k :: 0 <= k < 31 ==> copy[k] == reply[k + 1]
    ensures copy[31] == pastBuffer
  {
    reply[1..] + [pastBuffer]
  }

  /** The written copy depends on memory outside the response; its first 31
      bytes are the corrected payload. */
  lemma NameCopyReadsPastBuffer(reply: seq<byte>)
    requires |reply| == 32
    ensures NameCopyAsWritten(reply, 0) != NameCopyAsWritten(reply, 1)
    ensures forall b: byte :: NameCopyAsWritten(reply, b)[..31] == NamePayload(reply)
  {
    assert NameCopyAsWritten(reply, 0)[31] != NameCopyAsWritten(reply, 1)[31];
    forall b: byte
      ensures NameCopyAsWritten(reply, b)[..31] == NamePayload(reply)
    {
      assert NameCopyAsWritten(reply, b)[..31] == reply[1..];
    }
  }
}
