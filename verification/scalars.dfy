/**
 * The fixed-size values: IppInt and IppEnum (a four-byte signed integer),
 * IppBool (one byte), IppIntegerRange (two integers) and IppResolution (two
 * integers and a units byte). Every encoding starts with its two-byte value
 * length; every decoder skips that field without reading it.
 */
module Scalars {
  import opened Primitives

  /** IppInt.Encode and IppEnum.Encode: length 4, then the value big-endian. */
  function EncodeInteger(x: int32): (r: Bytes)
    ensures |r| == 6 && ToInt16(r[0], r[1]) == 4
  {
    WriteInt16(4) + WriteInt32(x)
  }

  /** IppInt.Decode and IppEnum.Decode. */
  function DecodeInteger(buf: Bytes, off: nat): (r: Result<(int32, nat)>)
    ensures r.Ok? <==> off + 6 <= |buf|
    ensures r.Ok? ==> r.value.1 == off + 6
  {
    var x :- ReadInt32(buf, off + 2);
    Ok((x, off + 6))
  }

  lemma IntegerRoundTrip(buf: Bytes, off: nat, x: int32)
    requires At(buf, off, EncodeInteger(x))
    ensures DecodeInteger(buf, off) == Ok((x, off + 6))
  {
    var e := EncodeInteger(x);
    forall i | 2 <= i < 6 ensures buf[off + i] == e[i] { AtIndex(buf, off, e, i); }
    Int32RoundTrip(x);
  }

  /** IppBool.Encode: length 1, then 0x01 for true and 0x00 for false. */
  function EncodeBoolean(b: bool): (r: Bytes)
    ensures |r| == 3 && ToInt16(r[0], r[1]) == 1
    ensures r[2] > 0 <==> b
  {
    WriteInt16(1) + [if b then 0x01 else 0x00]
  }

  /** IppBool.Decode: any non-zero byte reads as true. */
  function DecodeBoolean(buf: Bytes, off: nat): (r: Result<(bool, nat)>)
    ensures r.Ok? <==> off + 3 <= |buf|
    ensures r.Ok? ==> r.value.1 == off + 3 && (r.value.0 <==> buf[off + 2] != 0)
  {
    if off + 3 <= |buf| then Ok((buf[off + 2] > 0, off + 3)) else Err(OutOfBounds)
  }

  lemma BooleanRoundTrip(buf: Bytes, off: nat, b: bool)
    requires At(buf, off, EncodeBoolean(b))
    ensures DecodeBoolean(buf, off) == Ok((b, off + 3))
  {
    AtIndex(buf, off, EncodeBoolean(b), 2);
  }

  /**
   * IppIntegerRange.Encode as written: both writes go into the lower buffer,
   * so the upper bound is sent first and the second integer is always zero.
   */
  function EncodeRangeAsWritten(lower: int32, upper: int32): (r: Bytes)
    ensures |r| == 10 && ToInt16(r[0], r[1]) == 8
    ensures r[6..] == [0, 0, 0, 0]
  {
    WriteInt16(8) + WriteInt32(upper) + [0, 0, 0, 0]
  }

  /** The range encoding the decoder reads back: lower bound, then upper bound. */
  function EncodeRange(lower: int32, upper: int32): (r: Bytes)
    ensures |r| == 10 && ToInt16(r[0], r[1]) == 8
  {
    WriteInt16(8) + WriteInt32(lower) + WriteInt32(upper)
  }

  /** IppIntegerRange.Decode: the lower bound at +2, the upper bound at +6. */
  function DecodeRange(buf: Bytes, off: nat): (r: Result<(int32, int32, nat)>)
    ensures r.Ok? <==> off + 10 <= |buf|
    ensures r.Ok? ==> r.value.2 == off + 10
  {
    var lower :- ReadInt32(buf, off + 2);
    var upper :- ReadInt32(buf, off + 6);
    Ok((lower, upper, off + 10))
  }

  lemma RangeRoundTrip(buf: Bytes, off: nat, lower: int32, upper: int32)
    requires At(buf, off, EncodeRange(lower, upper))
    ensures DecodeRange(buf, off) == Ok((lower, upper, off + 10))
  {
    var e := EncodeRange(lower, upper);
    forall i | 2 <= i < 10 ensures buf[off + i] == e[i] { AtIndex(buf, off, e, i); }
    Int32RoundTrip(lower);
    Int32RoundTrip(upper);
  }

  /** The program's layout of lower..upper is the corrected layout of the range upper..0. */
  lemma RangeAsWrittenIsTurned(lower: int32, upper: int32)
    ensures EncodeRangeAsWritten(lower, upper) == EncodeRange(upper, 0)
  {
    assert WriteInt32(0) == [0, 0, 0, 0];
  }

  /** Whatever the bounds, the program's range layout reads back as upper..0. */
  lemma RangeAsWrittenRoundTrip(buf: Bytes, off: nat, lower: int32, upper: int32)
    requires At(buf, off, EncodeRangeAsWritten(lower, upper))
    ensures DecodeRange(buf, off) == Ok((upper, 0, off + 10))
  {
    RangeAsWrittenIsTurned(lower, upper);
    RangeRoundTrip(buf, off, upper, 0);
  }

  /** The range 1..100 comes back from the as-written encoding as 100..0. */
  lemma RangeAsWrittenLosesBounds()
    ensures DecodeRange(EncodeRangeAsWritten(1, 100), 0) == Ok((100, 0, 10))
  {
    var e := EncodeRangeAsWritten(1, 100);
    assert e[0..|e|] == e;
    RangeAsWrittenRoundTrip(e, 0, 1, 100);
  }

  /** IppResolution.Encode throws NotImplementedException. */
  function EncodeResolution(crossFeed: int32, feed: int32, units: byte): (r: Result<Bytes>)
    ensures r == Err(NotImplemented)
  {
    Err(NotImplemented)
  }

  /** IppResolution.Decode: cross-feed at +2, feed at +6, units at +10. */
  function DecodeResolution(buf: Bytes, off: nat): (r: Result<(int32, int32, byte, nat)>)
    ensures r.Ok? <==> off + 11 <= |buf|
    ensures r.Ok? ==> r.value.3 == off + 11 && r.value.2 == buf[off + 10]
  {
    var crossFeed :- ReadInt32(buf, off + 2);
    var feed :- ReadInt32(buf, off + 6);
    if off + 10 < |buf| then Ok((crossFeed, feed, buf[off + 10], off + 11)) else Err(OutOfBounds)
  }

  /** The resolution fields are the big-endian integers at +2 and +6. */
  lemma ResolutionFields(buf: Bytes, off: nat, crossFeed: int32, feed: int32, units: byte)
    requires At(buf, off + 2, WriteInt32(crossFeed) + WriteInt32(feed) + [units])
    ensures DecodeResolution(buf, off) == Ok((crossFeed, feed, units, off + 11))
  {
    var e := WriteInt32(crossFeed) + WriteInt32(feed) + [units];
    forall i | 0 <= i < 9 ensures buf[off + 2 + i] == e[i] { AtIndex(buf, off + 2, e, i); }
    Int32RoundTrip(crossFeed);
    Int32RoundTrip(feed);
  }
}
