/**
 * IppLangString (Values/IppLangString.cs): textWithLanguage and
 * nameWithLanguage, an outer value length followed by two IppStrings, the
 * language and then the text.
 */
module LangStringCodec {
  import opened Primitives
  import StringCodec

  function Encode(language: Bytes, text: Bytes): (r: Bytes)
    ensures |r| == 6 + |language| + |text|
    ensures 4 + |language| + |text| <= StringCodec.MAX_LENGTH ==> ToInt16(r[0], r[1]) == 4 + |language| + |text|
    ensures r[2..] == StringCodec.Encode(language) + StringCodec.Encode(text)
  {
    var l := StringCodec.Encode(language);
    var t := StringCodec.Encode(text);
    var h := WriteInt16(Wrap16(|l| + |t|));
    Int16RoundTrip(Wrap16(|l| + |t|));
    assert (h + l + t)[2..] == l + t;
    h + l + t
  }

  /** IppLangString.Decode: the outer length is skipped, not checked. */
  function Decode(buf: Bytes, off: nat): (r: Result<(Bytes, Bytes, nat)>)
    ensures r.Ok? ==> r.value.2 == off + 6 + |r.value.0| + |r.value.1| <= |buf|
    ensures r.Ok? ==> r.value.0 == buf[off + 4..off + 4 + |r.value.0|]
  {
    var (language, next) :- StringCodec.Decode(buf, off + 2);
    var (text, last) :- StringCodec.Decode(buf, next);
    Ok((language, text, last))
  }

  /** IppLangString.Decode over the as-written string reader, at an offset that may have moved below zero. */
  function DecodeAsWritten(buf: Bytes, off: int): (r: Result<(Bytes, Bytes, int)>)
    ensures r.Ok? ==> StringCodec.DecodeAsWritten(buf, off + 2).Ok?
  {
    var (language, next) :- StringCodec.DecodeAsWritten(buf, off + 2);
    var (text, last) :- StringCodec.DecodeAsWritten(buf, next);
    Ok((language, text, last))
  }

  /**
   * What the as-written reader reads: the offset moves by the two raw length
   * fields L and T, backwards when they are negative, and a length below one
   * reads as the empty string.
   */
  lemma DecodeAsWrittenReads(buf: Bytes, off: int)
    ensures var r := DecodeAsWritten(buf, off);
            r.Ok? ==> var L := ReadInt16(buf, off + 2).value;
                      && StringCodec.DecodeAsWritten(buf, off + 4 + L).Ok?
                      && var T := ReadInt16(buf, off + 4 + L).value;
                      && r.value.2 == off + 6 + L + T
                      && (L < 1 ==> r.value.0 == [])
                      && (L >= 1 ==> r.value.0 == buf[off + 4..off + 4 + L])
                      && (T < 1 ==> r.value.1 == [])
                      && (T >= 1 ==> r.value.1 == buf[off + 6 + L..off + 6 + L + T])
  {
  }

  /** Unless the corrected reader refuses a negative length, the two readers agree. */
  lemma DecodeAgreesWithAsWritten(buf: Bytes, off: nat)
    ensures Decode(buf, off) != Err(NegativeLength) ==> DecodeAsWritten(buf, off) == Decode(buf, off)
  {
    StringCodec.DecodeAgreesWithAsWritten(buf, off + 2);
    if StringCodec.Decode(buf, off + 2).Ok? {
      StringCodec.DecodeAgreesWithAsWritten(buf, StringCodec.Decode(buf, off + 2).value.1);
    }
  }

  lemma RoundTrip(buf: Bytes, off: nat, language: Bytes, text: Bytes)
    requires |language| <= StringCodec.MAX_LENGTH && |text| <= StringCodec.MAX_LENGTH
    requires At(buf, off, Encode(language, text))
    ensures Decode(buf, off) == Ok((language, text, off + 6 + |language| + |text|))
  {
    var next := off + 4 + |language|;
    StringsRead(buf, off, language, text);
    DecodeOf(buf, off, language, next, text, next + 2 + |text|);
  }

  /** Both strings of an encoded language-tagged string read back. */
  lemma StringsRead(buf: Bytes, off: nat, language: Bytes, text: Bytes)
    requires |language| <= StringCodec.MAX_LENGTH && |text| <= StringCodec.MAX_LENGTH
    requires At(buf, off, Encode(language, text))
    ensures StringCodec.Decode(buf, off + 2) == Ok((language, off + 4 + |language|))
    ensures StringCodec.Decode(buf, off + 4 + |language|) == Ok((text, off + 6 + |language| + |text|))
  {
    Layout(buf, off, language, text);
    StringCodec.RoundTrip(buf, off + 2, language);
    StringCodec.RoundTrip(buf, off + 4 + |language|, text);
  }

  /** Decode is the two string reads after the outer length. */
  lemma DecodeOf(buf: Bytes, off: nat, language: Bytes, next: nat, text: Bytes, last: nat)
    requires StringCodec.Decode(buf, off + 2) == Ok((language, next))
    requires StringCodec.Decode(buf, next) == Ok((text, last))
    ensures Decode(buf, off) == Ok((language, text, last))
  {
  }

  /** Where the two strings of an encoded language-tagged string sit. */
  lemma Layout(buf: Bytes, off: nat, language: Bytes, text: Bytes)
    requires At(buf, off, Encode(language, text))
    ensures At(buf, off + 2, StringCodec.Encode(language))
    ensures At(buf, off + 4 + |language|, StringCodec.Encode(text))
  {
    var l := StringCodec.Encode(language);
    var t := StringCodec.Encode(text);
    var e := Encode(language, text);
    assert e == e[..2] + (l + t);
    AtSplit(buf, off, e[..2], l + t);
    AtSplit(buf, off + 2, l, t);
  }
}
