/**
 * The attribute values (the classes of the Values directory) and the value switch of
 * IppDecoder.DecodeValue, including the recursive decoding of collections
 * (Values/IppCollection.cs).
 */
module Values {
  import opened Primitives
  import opened Tags
  import Calendar
  import StringCodec
  import Scalars
  import DateTimeCodec
  import LangStringCodec

  /** One constructor per IIppValue class. */
  datatype Value =
    | IntegerValue(i: int32)
    | EnumValue(e: int32)
    | BooleanValue(b: bool)
    | StringValue(s: Bytes)
    | LangStringValue(language: Bytes, text: Bytes)
    | DateTimeValue(dt: Calendar.ValidDateTime)
    | RangeValue(lower: int32, upper: int32)
    | ResolutionValue(crossFeed: int32, feed: int32, units: byte)
    | CollectionValue(members: seq<Member>)

  /** A collection member: the entry of IppCollection.Members. */
  datatype Member = Member(key: Bytes, value: Value)

  /** The value class DecodeValue builds for each tag. */
  predicate Fits(t: ValueTag, v: Value)
  {
    match v
    case IntegerValue(_) => t == Integer
    case EnumValue(_) => t == Enum
    case BooleanValue(_) => t == Boolean
    case StringValue(_) => t.IsStringFamily()
    case LangStringValue(_, _) => t == TextWithLang || t == NameWithLang
    case DateTimeValue(_) => t == DateTime
    case RangeValue(_, _) => t == RangeOfInteger
    case ResolutionValue(_, _, _) => t == Resolution
    case CollectionValue(_) => t == Collection
  }

  function Keys(ms: seq<Member>): (r: seq<Bytes>)
    ensures |r| == |ms| && forall i :: 0 <= i < |ms| ==> r[i] == ms[i].key
  {
    seq(|ms|, i requires 0 <= i < |ms| => ms[i].key)
  }

  /** No key appears twice: what Dictionary.Add enforces. */
  predicate DistinctKeys(ms: seq<Member>)
  {
    forall i, j :: 0 <= i < j < |ms| ==> ms[i].key != ms[j].key
  }

  /** Every collection, at every depth, has distinct keys. */
  predicate WellKeyed(v: Value)
    decreases v
  {
    match v
    case CollectionValue(ms) => DistinctKeys(ms) && forall i :: 0 <= i < |ms| ==> WellKeyed(ms[i].value)
    case _ => true
  }

  /**
   * IIppValue.Encode with the corrected range layout, lower bound first
   * (Scalars.EncodeRange). IppResolution and IppCollection throw
   * NotImplementedException. What the program writes for a range is
   * EncodeValueAsWritten.
   */
  function EncodeValue(v: Value): (r: Result<Bytes>)
    ensures r.Ok? <==> !v.ResolutionValue? && !v.CollectionValue?
    ensures r.Err? ==> r.fault == NotImplemented
    ensures r.Ok? ==> |r.value| >= 2
  {
    match v
    case IntegerValue(x) => Ok(Scalars.EncodeInteger(x))
    case EnumValue(x) => Ok(Scalars.EncodeInteger(x))
    case BooleanValue(b) => Ok(Scalars.EncodeBoolean(b))
    case StringValue(s) => Ok(StringCodec.Encode(s))
    case LangStringValue(l, t) => Ok(LangStringCodec.Encode(l, t))
    case DateTimeValue(dt) => Ok(DateTimeCodec.Encode(dt))
    case RangeValue(lo, hi) => Ok(Scalars.EncodeRange(lo, hi))
    case ResolutionValue(_, _, _) => Err(NotImplemented)
    case CollectionValue(_) => Err(NotImplemented)
  }

  /**
   * IIppValue.Encode as the program writes it: IppIntegerRange puts its upper
   * bound where the lower bound belongs and leaves the upper bound zero
   * (Scalars.EncodeRangeAsWritten); every other value as EncodeValue.
   */
  function EncodeValueAsWritten(v: Value): (r: Result<Bytes>)
    ensures r.Ok? <==> EncodeValue(v).Ok?
    ensures !v.RangeValue? ==> r == EncodeValue(v)
  {
    match v
    case RangeValue(lo, hi) => Ok(Scalars.EncodeRangeAsWritten(lo, hi))
    case _ => EncodeValue(v)
  }

  /** The value the program's encoding stands for: a range lower..upper becomes upper..0. */
  function Turned(v: Value): Value
  {
    match v
    case RangeValue(_, hi) => RangeValue(hi, 0)
    case _ => v
  }

  /** Turning changes a value exactly when it is a range other than 0..0. */
  lemma TurnedUnchanged(v: Value)
    ensures Turned(v) == v <==> !(v.RangeValue? && (v.lower != 0 || v.upper != 0))
  {
  }

  /** A turned value is encoded, fits its tag and stays bounded as the value did. */
  lemma TurnedWellFormed(t: ValueTag, v: Value)
    ensures Fits(t, Turned(v)) <==> Fits(t, v)
    ensures Bounded(Turned(v)) <==> Bounded(v)
    ensures EncodeValue(Turned(v)).Ok? <==> EncodeValue(v).Ok?
  {
  }

  /** The program's encoding of a value is the corrected encoding of the turned value. */
  lemma EncodeAsWrittenTurns(v: Value)
    ensures EncodeValueAsWritten(v) == EncodeValue(Turned(v))
  {
    if v.RangeValue? {
      Scalars.RangeAsWrittenIsTurned(v.lower, v.upper);
    }
  }

  /** The bytes left from `off`; the measure every decoding step decreases. */
  function Remaining(buf: Bytes, off: nat): nat
  {
    if off < |buf| then |buf| - off else 0
  }

  /**
   * IppDecoder.DecodeValue: decode the value whose length field is at `off`.
   * The out-of-band tags skip two bytes and yield no value; a byte that
   * names no declared tag is an error. Strings are read by the corrected
   * StringCodec.Decode, which refuses a negative length where the program
   * reads an empty string and moves back; DecoderAsWritten.DecodeValue is
   * the program's reader.
   */
  function DecodeValue(buf: Bytes, tag: byte, off: nat): (r: Result<(Option<Value>, nat)>)
    ensures ValueTagOf(tag).None? ==> r == Err(UnsupportedTag)
    ensures ValueTagOf(tag).Some? && ValueTagOf(tag).value.IsOutOfBand() ==> r == Ok((None, off + 2))
    ensures r.Ok? ==> ValueTagOf(tag).Some? && r.value.1 >= off + 2
    ensures r.Ok? ==> (r.value.0.None? <==> ValueTagOf(tag).value.IsOutOfBand())
    ensures r.Ok? && r.value.0.Some? ==> Fits(ValueTagOf(tag).value, r.value.0.value) && WellKeyed(r.value.0.value)
    decreases Remaining(buf, off), 2
  {
    match ValueTagOf(tag)
    case None => Err(UnsupportedTag)
    case Some(t) =>
      match t
      case Integer =>
        var (x, c) :- Scalars.DecodeInteger(buf, off);
        Ok((Some(IntegerValue(x)), c))
      case Boolean =>
        var (b, c) :- Scalars.DecodeBoolean(buf, off);
        Ok((Some(BooleanValue(b)), c))
      case Enum =>
        var (x, c) :- Scalars.DecodeInteger(buf, off);
        Ok((Some(EnumValue(x)), c))
      case DateTime =>
        var (dt, c) :- DateTimeCodec.Decode(buf, off);
        Ok((Some(DateTimeValue(dt)), c))
      case TextWithLang =>
        var (l, s, c) :- LangStringCodec.Decode(buf, off);
        Ok((Some(LangStringValue(l, s)), c))
      case NameWithLang =>
        var (l, s, c) :- LangStringCodec.Decode(buf, off);
        Ok((Some(LangStringValue(l, s)), c))
      case RangeOfInteger =>
        var (lo, hi, c) :- Scalars.DecodeRange(buf, off);
        Ok((Some(RangeValue(lo, hi)), c))
      case Collection =>
        var (ms, c) :- DecodeCollection(buf, off);
        Ok((Some(CollectionValue(ms)), c))
      case Resolution =>
        var (x, y, u, c) :- Scalars.DecodeResolution(buf, off);
        Ok((Some(ResolutionValue(x, y, u)), c))
      case NoValue => Ok((None, off + 2))
      case Unknown => Ok((None, off + 2))
      case _ =>
        var (s, c) :- StringCodec.Decode(buf, off);
        Ok((Some(StringValue(s)), c))
  }

  /**
   * IppCollection.Decode: skip the value length, decode members up to the
   * end-of-collection tag, then skip its five bytes.
   */
  function DecodeCollection(buf: Bytes, off: nat): (r: Result<(seq<Member>, nat)>)
    ensures r.Ok? ==> r.value.1 >= off + 7
    ensures r.Ok? ==> DistinctKeys(r.value.0) && forall i :: 0 <= i < |r.value.0| ==> WellKeyed(r.value.0[i].value)
    decreases Remaining(buf, off), 1
  {
    DecodeMembers(buf, off + 2, [])
  }

  /**
   * The member loop of IppCollection.Decode, with the members so far in
   * `acc`. Each member is a member-name attribute (tag and empty name skipped,
   * the key read as a string) followed by the member's value attribute (tag,
   * empty name skipped, value). A member without a value is dropped; a key
   * already present fails as Dictionary.Add does. A key with a negative
   * length is refused here; DecoderAsWritten.DecodeMembers reads it as the
   * program does.
   */
  function DecodeMembers(buf: Bytes, off: nat, acc: seq<Member>): (r: Result<(seq<Member>, nat)>)
    requires DistinctKeys(acc) && forall i :: 0 <= i < |acc| ==> WellKeyed(acc[i].value)
    ensures r.Ok? ==> r.value.1 >= off + 5 && acc <= r.value.0
    ensures r.Ok? ==> DistinctKeys(r.value.0) && forall i :: 0 <= i < |r.value.0| ==> WellKeyed(r.value.0[i].value)
    decreases Remaining(buf, off), 0
  {
    if off >= |buf| then Err(OutOfBounds)
    else if buf[off] == END_COLLECTION then Ok((acc, off + 5))
    else
      var (key, n) :- StringCodec.Decode(buf, off + 3);
      if n >= |buf| then Err(OutOfBounds)
      else
        var (v, c) :- DecodeValue(buf, buf[n], n + 3);
        match v
        case None => DecodeMembers(buf, c, acc)
        case Some(x) =>
          if key in Keys(acc) then Err(DuplicateKey)
          else DecodeMembers(buf, c, acc + [Member(key, x)])
  }

  /** A value the decoder reproduces exactly: strings fit their length field, no milliseconds. */
  predicate Bounded(v: Value)
  {
    match v
    case StringValue(s) => |s| <= StringCodec.MAX_LENGTH
    case LangStringValue(l, t) => |l| <= StringCodec.MAX_LENGTH && |t| <= StringCodec.MAX_LENGTH
    case DateTimeValue(dt) => dt.millisecond == 0
    case _ => true
  }

  /** Decoding an encoded value under a tag it fits gives the value back and the offset past it. */
  lemma ValueRoundTrip(buf: Bytes, off: nat, t: ValueTag, v: Value)
    requires Fits(t, v) && Bounded(v) && EncodeValue(v).Ok?
    requires At(buf, off, EncodeValue(v).value)
    ensures DecodeValue(buf, t.Code(), off) == Ok((Some(v), off + |EncodeValue(v).value|))
  {
    if v.StringValue? {
      StringRoundTrip(buf, off, t, v);
    } else if v.LangStringValue? {
      LangRoundTrip(buf, off, t, v);
    } else {
      FixedRoundTrip(buf, off, t, v);
    }
  }

  /** What the program writes for a value reads back as the turned value: a range comes back as upper..0. */
  lemma ValueRoundTripAsWritten(buf: Bytes, off: nat, t: ValueTag, v: Value)
    requires Fits(t, v) && Bounded(v) && EncodeValueAsWritten(v).Ok?
    requires At(buf, off, EncodeValueAsWritten(v).value)
    ensures DecodeValue(buf, t.Code(), off) == Ok((Some(Turned(v)), off + |EncodeValueAsWritten(v).value|))
  {
    EncodeAsWrittenTurns(v);
    TurnedWellFormed(t, v);
    ValueRoundTrip(buf, off, t, Turned(v));
  }

  lemma StringRoundTrip(buf: Bytes, off: nat, t: ValueTag, v: Value)
    requires v.StringValue? && Fits(t, v) && Bounded(v) && EncodeValue(v).Ok?
    requires At(buf, off, EncodeValue(v).value)
    ensures DecodeValue(buf, t.Code(), off) == Ok((Some(v), off + |EncodeValue(v).value|))
  {
    ValueTagCodes(t);
    StringCodec.RoundTrip(buf, off, v.s);
  }

  lemma LangRoundTrip(buf: Bytes, off: nat, t: ValueTag, v: Value)
    requires v.LangStringValue? && Fits(t, v) && Bounded(v) && EncodeValue(v).Ok?
    requires At(buf, off, EncodeValue(v).value)
    ensures DecodeValue(buf, t.Code(), off) == Ok((Some(v), off + |EncodeValue(v).value|))
  {
    ValueTagCodes(t);
    LangStringCodec.RoundTrip(buf, off, v.language, v.text);
  }

  lemma FixedRoundTrip(buf: Bytes, off: nat, t: ValueTag, v: Value)
    requires Fits(t, v) && Bounded(v) && EncodeValue(v).Ok?
    requires !v.StringValue? && !v.LangStringValue?
    requires At(buf, off, EncodeValue(v).value)
    ensures DecodeValue(buf, t.Code(), off) == Ok((Some(v), off + |EncodeValue(v).value|))
  {
    ValueTagCodes(t);
    match v
    case IntegerValue(x) => Scalars.IntegerRoundTrip(buf, off, x);
    case EnumValue(x) => Scalars.IntegerRoundTrip(buf, off, x);
    case BooleanValue(b) => Scalars.BooleanRoundTrip(buf, off, b);
    case DateTimeValue(dt) => DateTimeCodec.RoundTrip(buf, off, dt);
    case RangeValue(lo, hi) => Scalars.RangeRoundTrip(buf, off, lo, hi);
  }
}
