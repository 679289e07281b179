/**
 * IppString (Values/IppString.cs): a value-length field followed by the
 * string's bytes. The decoder is given the buffer and the offset of the
 * length field and returns the value with the offset just past it.
 */
module StringCodec {
  import opened Primitives

  /** The length is cast to a signed short, so only strings of at most 32767 bytes survive. */
  const MAX_LENGTH: nat := 0x7FFF

  function Encode(s: Bytes): (r: Bytes)
    ensures |r| == |s| + 2
    ensures r[2..] == s
    ensures |s| <= MAX_LENGTH ==> ToInt16(r[0], r[1]) == |s|
  {
    Int16RoundTrip(Wrap16(|s|));
    WriteInt16(Wrap16(|s|)) + s
  }

  /**
   * IppString.Decode as written: a length below one yields the empty string,
   * and the offset moves by the length plus two even when the length is
   * negative, which moves it backwards.
   */
  function DecodeAsWritten(buf: Bytes, off: int): (r: Result<(Bytes, int)>)
    ensures r.Ok? <==> ReadInt16(buf, off).Ok? && (ReadInt16(buf, off).value < 1 || off + 2 + ReadInt16(buf, off).value <= |buf|)
    ensures r.Ok? ==> r.value.1 == off + 2 + ReadInt16(buf, off).value
    ensures r.Ok? && ReadInt16(buf, off).value < 0 ==> r.value.0 == [] && r.value.1 < off + 2
  {
    var length :- ReadInt16(buf, off);
    if length < 1 then Ok(([], off + length + 2))
    else if off + 2 + length <= |buf| then Ok((buf[off + 2..off + 2 + length], off + length + 2))
    else Err(OutOfBounds)
  }

  /**
   * The decoder the rest of the model uses: a negative length is refused
   * instead of moving the offset backwards, so every decoded string moves the
   * offset forwards by at least the two bytes of its length field.
   */
  function Decode(buf: Bytes, off: nat): (r: Result<(Bytes, nat)>)
    ensures r.Ok? <==> off + 2 <= |buf| && 0 <= ToInt16(buf[off], buf[off + 1]) && off + 2 + ToInt16(buf[off], buf[off + 1]) <= |buf|
    ensures r.Ok? ==> r.value.1 == off + 2 + |r.value.0| <= |buf| && r.value.0 == buf[off + 2..r.value.1]
    ensures r.Err? && off + 2 <= |buf| && ToInt16(buf[off], buf[off + 1]) < 0 ==> r.fault == NegativeLength
  {
    var length :- ReadInt16(buf, off);
    if length < 0 then Err(NegativeLength)
    else if off + 2 + length <= |buf| then Ok((buf[off + 2..off + 2 + length], off + 2 + length))
    else Err(OutOfBounds)
  }

  /**
   * The two decoders differ only on a negative length: there the corrected
   * one refuses, and the as-written one yields the empty string and moves
   * the offset back below its start plus two.
   */
  lemma DecodeAgreesWithAsWritten(buf: Bytes, off: nat)
    ensures Decode(buf, off) != Err(NegativeLength) ==> DecodeAsWritten(buf, off) == Decode(buf, off)
    ensures Decode(buf, off) == Err(NegativeLength) ==>
              DecodeAsWritten(buf, off).Ok? && DecodeAsWritten(buf, off).value.0 == [] && DecodeAsWritten(buf, off).value.1 < off + 2
  {
  }

  /** A length field of -5 sends the as-written decoder three bytes back from where it started. */
  lemma AsWrittenRewinds()
    ensures DecodeAsWritten([0xFF, 0xFB], 0) == Ok(([], -3))
    ensures Decode([0xFF, 0xFB], 0) == Err(NegativeLength)
  {
  }

  /** Decoding what Encode wrote gives the string back and the offset just past it. */
  lemma RoundTrip(buf: Bytes, off: nat, s: Bytes)
    requires |s| <= MAX_LENGTH
    requires At(buf, off, Encode(s))
    ensures Decode(buf, off) == Ok((s, off + 2 + |s|))
  {
    var e := Encode(s);
    AtIndex(buf, off, e, 0);
    AtIndex(buf, off, e, 1);
    assert buf[off + 2..off + 2 + |s|] == e[2..];
  }

  /** A string of 32768 bytes is written with a length field that reads back as negative. */
  lemma TooLongDoesNotRoundTrip(s: Bytes)
    requires |s| == MAX_LENGTH + 1
    ensures Decode(Encode(s), 0) == Err(NegativeLength)
  {
    var e := Encode(s);
    assert Wrap16(|s|) == -0x8000;
    assert e[0] == 0x80 && e[1] == 0;
  }
}
