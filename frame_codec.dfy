/** The frame encoder of the Helios DAC API: a checked sequence of points plus
    a playback rate and a flags byte become the byte buffer sent to the DAC,
    seven bytes per point followed by a five-byte trailer. */
module FrameCodec {
  import opened HeliosDefs

  /** A frame as the caller describes it. */
  datatype Frame = Frame(pps: int, flags: byte, points: seq<Point>)

  /** The guard of WriteFrame with a negative point count rejected as well
      (the source lets it through; see NegativeCountMisannounced). */
  predicate ValidFrameRequest(pps: int, numOfPoints: int) {
    0 <= numOfPoints <= HELIOS_MAX_POINTS &&
    HELIOS_MIN_RATE <= pps <= HELIOS_MAX_RATE
  }

  /** A frame the driver accepts and whose coordinates fit in 12 bits. */
  predicate WellFormed(f: Frame) {
    ValidFrameRequest(f.pps, |f.points|) &&
    forall k :: 0 <= k < |f.points| ==> Is12Bit(f.points[k])
  }

  // ---------------------------------------------------------------- points

  /** `((x & 0x0F) << 4) | (y >> 8)`, the second byte of a point before
      it is truncated to eight bits. */
  function NibbleByte(p: Point): nat {
    BitOr((p.x % 0x10) * 0x10, p.y / 0x100)
  }

  /** Seven bytes of one point: the top 8 bits of x; the low nibble of x over
      the high bits of y; the low 8 bits of y; then r, g, b and i. */
  function EncodePoint(p: Point): (bs: seq<byte>)
    ensures |bs| == 7
  {
    [ (p.x / 0x10) % 0x100,
      NibbleByte(p) % 0x100,
      p.y % 0x100,
      p.r, p.g, p.b, p.i ]
  }

  /** Reads a point back from its seven bytes, as the DAC does:
      x == b0 * 16 + (b1 >> 4) and y == (b1 & 0x0F) * 256 + b2. */
  function DecodePoint(bs: seq<byte>): (p: Point)
    requires |bs| == 7
    ensures Is12Bit(p)
  {
    Point(bs[0] as int * 0x10 + bs[1] as int / 0x10, (bs[1] as int % 0x10) * 0x100 + bs[2] as int,
          bs[3], bs[4], bs[5], bs[6])
  }

  /** Shifting one operand of `|` left by a bit shifts the result. */
  lemma BitOrEven(a: nat, c: nat)
    ensures BitOr(2 * a, c) == 2 * BitOr(a, c / 2) + c % 2
  {
  }

  /** Shifting one operand of `|` left by four bits shifts the result. */
  lemma BitOrShift4(a: nat, c: nat)
    ensures BitOr(0x10 * a, c) == 0x10 * BitOr(a, c / 0x10) + c % 0x10
  {
    var c2, c4, c8 := c / 2, c / 4, c / 8;
    assert c2 / 2 == c4 && c4 / 2 == c8 && c8 / 2 == c / 0x10;
    calc {
      BitOr(0x10 * a, c);
      { BitOrEven(8 * a, c); assert 2 * (8 * a) == 0x10 * a; }
      2 * BitOr(8 * a, c2) + c % 2;
      { BitOrEven(4 * a, c2); assert 2 * (4 * a) == 8 * a; }
      4 * BitOr(4 * a, c4) + 2 * (c2 % 2) + c % 2;
      { BitOrEven(2 * a, c4); assert 2 * (2 * a) == 4 * a; }
      8 * BitOr(2 * a, c8) + 4 * (c4 % 2) + 2 * (c2 % 2) + c % 2;
      { BitOrEven(a, c8); }
      0x10 * BitOr(a, c / 0x10) + 8 * (c8 % 2) + 4 * (c4 % 2) + 2 * (c2 % 2) + c % 2;
    }
  }

  /** `|` of two 4-bit values is a 4-bit value. */
  lemma BitOrNibble(a: nat, b: nat)
    requires a < 0x10 && b < 0x10
    ensures BitOr(a, b) < 0x10
  {
    assert Pow2(4) == 0x10;
    BitOrBelow(a, b, 4);
  }

  /** `(a << 4) | c` for a 4-bit a and an 8-bit c: a or-ed with c's high
      nibble on top, c's low nibble below. */
  lemma NibbleSplit(a: nat, c: nat)
    requires a < 0x10 && c < 0x100
    ensures BitOr(a * 0x10, c) == 0x10 * BitOr(a, c / 0x10) + c % 0x10
    ensures BitOr(a, c / 0x10) < 0x10
  {
    BitOrShift4(a, c);
    BitOrNibble(a, c / 0x10);
  }

  /** Packing keeps the low 12 bits of y and the colour bytes; x survives
      whenever y fits in 12 bits, and otherwise its low nibble comes back
      or-ed with y's top nibble (the spill of `y >> 12`). */
  lemma PointPacking(p: Point)
    ensures DecodePoint(EncodePoint(p)).y == p.y % 0x1000
    ensures p.y < 0x1000 ==> DecodePoint(EncodePoint(p)).x == p.x % 0x1000
    ensures DecodePoint(EncodePoint(p)).x
              == ((p.x / 0x10) % 0x100) * 0x10 + BitOr(p.x % 0x10, p.y / 0x1000)
    ensures EncodePoint(p)[3..] == [p.r, p.g, p.b, p.i]
  {
    var xh, xl, yh, yl := p.x / 0x10, p.x % 0x10, p.y / 0x100, p.y % 0x100;
    NibbleSplit(xl, yh);
    var o := BitOr(xl, yh / 0x10);
    var n := 0x10 * o + yh % 0x10;
    assert NibbleByte(p) == n;
    DivModUnique(n, 0x100, n, 0);
    DivModUnique(n, 0x10, yh % 0x10, o);
    var e := EncodePoint(p);
    assert e[0] == xh % 0x100 && e[1] == n && e[2] == yl;
    var q := DecodePoint(e);
    assert q.y == (yh % 0x10) * 0x100 + yl;
    DivModUnique(p.y, 0x1000, (yh % 0x10) * 0x100 + yl, yh / 0x10);
    assert q.x == (xh % 0x100) * 0x10 + o;
    if p.y < 0x1000 {
      assert yh / 0x10 == 0;
      assert o == xl;
      assert q.x == (xh % 0x100) * 0x10 + xl;
      DivModUnique(p.x, 0x1000, (xh % 0x100) * 0x10 + xl, xh / 0x100);
    }
  }

  /** For 12-bit coordinates the seven bytes determine the point. */
  lemma PointRoundTrip(p: Point)
    requires Is12Bit(p)
    ensures DecodePoint(EncodePoint(p)) == p
  {
    PointPacking(p);
    DivModUnique(p.x, 0x1000, p.x, 0);
    DivModUnique(p.y, 0x1000, p.y, 0);
    var e := EncodePoint(p);
    assert e[3..] == [p.r, p.g, p.b, p.i];
    assert e[3] == p.r && e[4] == p.g && e[5] == p.b && e[6] == p.i;
  }

  /** Any seven bytes are the packing of the point they decode to. */
  lemma PointBytesRoundTrip(bs: seq<byte>)
    requires |bs| == 7
    ensures EncodePoint(DecodePoint(bs)) == bs
  {
    var b0, b1, b2 := bs[0] as int, bs[1] as int, bs[2] as int;
    var hi, lo := b1 / 0x10, b1 % 0x10;
    var p := DecodePoint(bs);
    assert p.x == b0 * 0x10 + hi && p.y == lo * 0x100 + b2;
    DivModUnique(p.x, 0x10, hi, b0);
    DivModUnique(p.y, 0x100, b2, lo);
    DivModUnique(b0, 0x100, b0, 0);
    DivModUnique(lo, 0x10, lo, 0);
    NibbleSplit(hi, lo);
    assert BitOr(hi, 0) == hi;
    DivModUnique(b1, 0x100, b1, 0);
    var e := EncodePoint(p);
    assert e[0] == b0 && e[1] == b1 && e[2] == b2;
    assert e[3..] == bs[3..];
    assert e == e[..3] + e[3..] && bs == bs[..3] + bs[3..];
  }

  /** All points, in order, seven bytes each. */
  function EncodePoints(pts: seq<Point>): (bs: seq<byte>)
    ensures |bs| == 7 * |pts|
  {
    if pts == [] then [] else EncodePoint(pts[0]) + EncodePoints(pts[1..])
  }

  /** Splits a buffer into seven-byte groups and decodes each. */
  function DecodePoints(bs: seq<byte>): (pts: seq<Point>)
    ensures |pts| == |bs| / 7
  {
    if |bs| < 7 then [] else [DecodePoint(bs[..7])] + DecodePoints(bs[7..])
  }

  /** Point k occupies bytes 7k .. 7k+6 of the encoding. */
  lemma {:induction false} EncodePointsAt(pts: seq<Point>, k: int)
    requires 0 <= k < |pts|
    ensures EncodePoints(pts)[7 * k .. 7 * k + 7] == EncodePoint(pts[k])
  {
    var head, rest := EncodePoint(pts[0]), EncodePoints(pts[1..]);
    assert EncodePoints(pts) == head + rest;
    if k > 0 {
      EncodePointsAt(pts[1..], k - 1);
      assert pts[1..][k - 1] == pts[k];
      assert (head + rest)[7 * k .. 7 * k + 7] == rest[7 * (k - 1) .. 7 * k];
    } else {
      assert (head + rest)[..7] == head;
    }
  }

  /** Appending a point appends its seven bytes. */
  lemma {:induction false} EncodePointsAppend(pts: seq<Point>, p: Point)
    ensures EncodePoints(pts + [p]) == EncodePoints(pts) + EncodePoint(p)
  {
    if pts == [] {
      assert [p][1..] == [];
    } else {
      assert (pts + [p])[1..] == pts[1..] + [p];
      EncodePointsAppend(pts[1..], p);
    }
  }

  /** Decoding the encoding of 12-bit points gives the points back. */
  lemma {:induction false} PointsRoundTrip(pts: seq<Point>)
    requires forall k :: 0 <= k < |pts| ==> Is12Bit(pts[k])
    ensures DecodePoints(EncodePoints(pts)) == pts
  {
    if pts != [] {
      var bs := EncodePoints(pts);
      assert bs[..7] == EncodePoint(pts[0]);
      assert bs[7..] == EncodePoints(pts[1..]);
      PointRoundTrip(pts[0]);
      PointsRoundTrip(pts[1..]);
    }
  }

  /** Any whole number of seven-byte groups is the encoding of what it decodes to. */
  lemma {:induction false} PointsBytesRoundTrip(bs: seq<byte>)
    requires |bs| % 7 == 0
    ensures EncodePoints(DecodePoints(bs)) == bs
  {
    if |bs| >= 7 {
      var pts := DecodePoints(bs);
      assert pts[0] == DecodePoint(bs[..7]);
      assert pts[1..] == DecodePoints(bs[7..]);
      PointBytesRoundTrip(bs[..7]);
      PointsBytesRoundTrip(bs[7..]);
      assert bs == bs[..7] + bs[7..];
    }
  }

  // ----------------------------------------------------------------- frames

  /** pps and the point count, little-endian 16 bits each, then the flags. */
  function Trailer(pps: int, numOfPoints: int, flags: byte): (t: seq<byte>)
    ensures |t| == 5
    ensures LittleEndian16(t[0], t[1]) == pps % 0x1_0000
    ensures LittleEndian16(t[2], t[3]) == numOfPoints % 0x1_0000
    ensures t[4] == flags
  {
    LittleEndian16Truncates(pps);
    LittleEndian16Truncates(numOfPoints);
    [LowByte(pps), HighByte(pps), LowByte(numOfPoints), HighByte(numOfPoints), flags]
  }

  /** The wire form of a frame. */
  function EncodeFrame(f: Frame): (bs: seq<byte>)
    ensures |bs| == 7 * |f.points| + 5
    ensures LittleEndian16(bs[|bs| - 5], bs[|bs| - 4]) == f.pps % 0x1_0000
    ensures LittleEndian16(bs[|bs| - 3], bs[|bs| - 2]) == |f.points| % 0x1_0000
    ensures bs[|bs| - 1] == f.flags
  {
    EncodePoints(f.points) + Trailer(f.pps, |f.points|, f.flags)
  }

  /** Reads a frame back: the trailer is the last five bytes, and the count it
      announces must match the number of seven-byte groups before it. */
  function DecodeFrame(bs: seq<byte>): Option<Frame> {
    if |bs| < 5 then None
    else
      var t := |bs| - 5;
      if t != 7 * LittleEndian16(bs[t + 2], bs[t + 3]) then None
      else Some(Frame(LittleEndian16(bs[t], bs[t + 1]), bs[t + 4], DecodePoints(bs[..t])))
  }

  /** For n accepted points the buffer holds exactly 7n + 5 bytes: each point's
      seven bytes in order, then pps & 0xFF, pps >> 8, n & 0xFF, n >> 8 and
      flags, from which pps and n are read back little-endian. */
  lemma FrameLayout(f: Frame)
    requires ValidFrameRequest(f.pps, |f.points|)
    ensures var bs, n := EncodeFrame(f), |f.points|;
      |bs| == 7 * n + 5 &&
      (forall k :: 0 <= k < n ==> bs[7 * k .. 7 * k + 7] == EncodePoint(f.points[k])) &&
      bs[7 * n ..] == [LowByte(f.pps), HighByte(f.pps), LowByte(n), HighByte(n), f.flags] &&
      LittleEndian16(bs[7 * n], bs[7 * n + 1]) == f.pps &&
      LittleEndian16(bs[7 * n + 2], bs[7 * n + 3]) == n &&
      bs[7 * n + 4] == f.flags
  {
    var bs, n := EncodeFrame(f), |f.points|;
    forall k | 0 <= k < n
      ensures bs[7 * k .. 7 * k + 7] == EncodePoint(f.points[k])
    {
      EncodePointsAt(f.points, k);
      assert bs[7 * k .. 7 * k + 7] == EncodePoints(f.points)[7 * k .. 7 * k + 7];
    }
    LittleEndian16RoundTrip(f.pps);
    LittleEndian16RoundTrip(n);
  }

  /** A well-formed frame is recovered exactly from its encoding. */
  lemma FrameRoundTrip(f: Frame)
    requires WellFormed(f)
    ensures DecodeFrame(EncodeFrame(f)) == Some(f)
  {
    var bs, n := EncodeFrame(f), |f.points|;
    FrameLayout(f);
    assert bs[..7 * n] == EncodePoints(f.points);
    PointsRoundTrip(f.points);
  }

  /** Any five bytes are the trailer of the rate, count and flags they hold. */
  lemma TrailerRoundTrip(tr: seq<byte>)
    requires |tr| == 5
    ensures Trailer(LittleEndian16(tr[0], tr[1]), LittleEndian16(tr[2], tr[3]), tr[4]) == tr
  {
    LittleEndian16Bytes(tr[0], tr[1]);
    LittleEndian16Bytes(tr[2], tr[3]);
  }

  /** Every buffer DecodeFrame accepts is the encoding of the frame it yields,
      so every buffer the decoder accepts is one the encoder produces. */
  lemma FrameBytesRoundTrip(bs: seq<byte>)
    requires DecodeFrame(bs).Some?
    ensures EncodeFrame(DecodeFrame(bs).value) == bs
  {
    var t := |bs| - 5;
    var body, trailer := bs[..t], bs[t..];
    assert trailer == [bs[t], bs[t + 1], bs[t + 2], bs[t + 3], bs[t + 4]];
    var count: int := LittleEndian16(bs[t + 2], bs[t + 3]);
    DivModUnique(|body|, 7, 0, count);
    var f := DecodeFrame(bs).value;
    assert f.points == DecodePoints(body) && |f.points| == count;
    PointsBytesRoundTrip(body);
    TrailerRoundTrip(trailer);
    assert bs == body + trailer;
  }

  /** A buffer whose first pos bytes are done and whose next bytes are chunk
      starts with done + chunk. */
  lemma Extended(a: seq<byte>, pos: nat, done: seq<byte>, chunk: seq<byte>)
    requires pos + |chunk| <= |a| && a[..pos] == done
    requires forall j :: 0 <= j < |chunk| ==> a[pos + j] == chunk[j]
    ensures a[..pos + |chunk|] == done + chunk
  {
  }

  /** One pass of WriteFrame's loop: the seven bytes of p go to
      frameBuffer[bufPos ..], after the bytes already written. */
  method PutPoint(frameBuffer: array<byte>, bufPos: int, p: Point)
    requires 0 <= bufPos && bufPos + 7 <= frameBuffer.Length
    modifies frameBuffer
    ensures frameBuffer[..bufPos + 7] == old(frameBuffer[..bufPos]) + EncodePoint(p)
    ensures frameBuffer[bufPos + 7..] == old(frameBuffer[bufPos + 7..])
  {
    ghost var done := frameBuffer[..bufPos];
    frameBuffer[bufPos] := (p.x / 0x10) % 0x100;
    frameBuffer[bufPos + 1] := NibbleByte(p) % 0x100;
    frameBuffer[bufPos + 2] := p.y % 0x100;
    frameBuffer[bufPos + 3] := p.r;
    frameBuffer[bufPos + 4] := p.g;
    frameBuffer[bufPos + 5] := p.b;
    frameBuffer[bufPos + 6] := p.i;
    Extended(frameBuffer[..], bufPos, done, EncodePoint(p));
  }

  /** The end of WriteFrame's buffer: pps and the point count, low byte
      first, then the flags, after the point bytes already written. */
  method PutTrailer(frameBuffer: array<byte>, bufPos: int, pps: int, numOfPoints: int, flags: byte)
    requires 0 <= bufPos && bufPos + 5 <= frameBuffer.Length
    modifies frameBuffer
    ensures frameBuffer[..bufPos + 5] == old(frameBuffer[..bufPos]) + Trailer(pps, numOfPoints, flags)
    ensures frameBuffer[bufPos + 5..] == old(frameBuffer[bufPos + 5..])
  {
    ghost var body := frameBuffer[..bufPos];
    frameBuffer[bufPos] := LowByte(pps);
    frameBuffer[bufPos + 1] := HighByte(pps);
    frameBuffer[bufPos + 2] := LowByte(numOfPoints);
    frameBuffer[bufPos + 3] := HighByte(numOfPoints);
    frameBuffer[bufPos + 4] := flags;
    Extended(frameBuffer[..], bufPos, body, Trailer(pps, numOfPoints, flags));
  }

  /** The loop of WriteFrame: fills a buffer of HELIOS_MAX_POINTS * 7 + 5
      bytes point by point, appends the trailer and yields the bytes written. */
  method PackFrame(pps: int, flags: byte, points: seq<Point>, numOfPoints: int) returns (frame: seq<byte>)
    requires ValidFrameRequest(pps, numOfPoints)
    requires numOfPoints <= |points|
    ensures frame == EncodeFrame(Frame(pps, flags, points[..numOfPoints]))
  {
    var frameBuffer := new byte[HELIOS_MAX_POINTS * 7 + 5];
    var bufPos := 0;
    for i := 0 to numOfPoints
      invariant bufPos == 7 * i
      invariant frameBuffer[..bufPos] == EncodePoints(points[..i])
    {
      PutPoint(frameBuffer, bufPos, points[i]);
      bufPos := bufPos + 7;
      assert points[..i + 1] == points[..i] + [points[i]];
      EncodePointsAppend(points[..i], points[i]);
    }
    PutTrailer(frameBuffer, bufPos, pps, numOfPoints, flags);
    bufPos := bufPos + 5;
    frame := frameBuffer[..bufPos];
  }

  // ----------------------------------------------- the guard as written

  /** The guard of WriteFrame as written in HeliosDacAPI.cpp (lines 38-39): it does not test for a
      negative count. */
  predicate FrameCheckAsWritten(pps: int, numOfPoints: int): (ok: bool)
    ensures ok <==>
      (ValidFrameRequest(pps, numOfPoints) || (numOfPoints < 0 && HELIOS_MIN_RATE <= pps <= HELIOS_MAX_RATE))
  {
    !(numOfPoints > HELIOS_MAX_POINTS || pps > HELIOS_MAX_RATE || pps < HELIOS_MIN_RATE)
  }

  /** The buffer WriteFrame builds as written: for a negative count the loop
      runs no time and the trailer stores the count's two's complement bits. */
  function FrameAsWritten(pps: int, flags: byte, points: seq<Point>, numOfPoints: int): (bs: seq<byte>)
    requires numOfPoints <= |points|
    ensures |bs| == 7 * (if numOfPoints < 0 then 0 else numOfPoints) + 5
    ensures LittleEndian16(bs[|bs| - 3], bs[|bs| - 2]) == numOfPoints % 0x1_0000
  {
    EncodePoints(points[..if numOfPoints < 0 then 0 else numOfPoints]) +
    Trailer(pps, numOfPoints, flags)
  }

  /** The corrected guard is the written one plus "count is not negative", and
      on every count it admits both build the same buffer. */
  lemma FrameCheckCorrected(pps: int, flags: byte, points: seq<Point>, numOfPoints: int)
    requires numOfPoints <= |points|
    ensures ValidFrameRequest(pps, numOfPoints) <==> FrameCheckAsWritten(pps, numOfPoints) && numOfPoints >= 0
    ensures ValidFrameRequest(pps, numOfPoints) ==>
      FrameAsWritten(pps, flags, points, numOfPoints) == EncodeFrame(Frame(pps, flags, points[..numOfPoints]))
  {
  }

  /** With numOfPoints == -1 the written guard lets the call through and the
      five-byte buffer announces 65535 points while carrying none; the
      corrected guard rejects it. */
  lemma NegativeCountMisannounced(points: seq<Point>)
    ensures FrameCheckAsWritten(HELIOS_MIN_RATE, -1)
    ensures !ValidFrameRequest(HELIOS_MIN_RATE, -1)
    ensures var bs := FrameAsWritten(HELIOS_MIN_RATE, 0, points, -1);
      |bs| == 5 && LittleEndian16(bs[2], bs[3]) == 0xFFFF && DecodeFrame(bs) == None
  {
    DivModUnique(-1, 0x100, 0xFF, -1);
    DivModUnique(HELIOS_MIN_RATE, 0x100, HELIOS_MIN_RATE, 0);
    DivModUnique(0, 0x100, 0, 0);
    assert Trailer(HELIOS_MIN_RATE, -1, 0) == [7, 0, 0xFF, 0xFF, 0];
    assert points[..0] == [];
    assert EncodePoints([]) == [];
    assert FrameAsWritten(HELIOS_MIN_RATE, 0, points, -1) == [7, 0, 0xFF, 0xFF, 0];
  }
}
