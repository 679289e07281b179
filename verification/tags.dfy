/**
 * The one-byte tags of the wire format.
 *
 * Value tags are the `Value` enum of Values/Value.cs (section 3.5.2 of RFC 8010);
 * delimiter tags are the `AttributesTag` values of section 3.5.1 of RFC 8010.
 */
module Tags {
  import opened Primitives

  datatype ValueTag =
    | Unsupported | Unknown | NoValue
    | Integer | Boolean | Enum
    | OctetString | DateTime | Resolution | RangeOfInteger | Collection | TextWithLang | NameWithLang
    | TextWithoutLang | NameWithoutLang | Keyword | Uri | UriScheme | Charset | NaturalLang | MimeMediaType
  {
    function Code(): byte
    {
      match this
      case Unsupported => 0x10
      case Unknown => 0x12
      case NoValue => 0x13
      case Integer => 0x21
      case Boolean => 0x22
      case Enum => 0x23
      case OctetString => 0x30
      case DateTime => 0x31
      case Resolution => 0x32
      case RangeOfInteger => 0x33
      case Collection => 0x34
      case TextWithLang => 0x35
      case NameWithLang => 0x36
      case TextWithoutLang => 0x41
      case NameWithoutLang => 0x42
      case Keyword => 0x44
      case Uri => 0x45
      case UriScheme => 0x46
      case Charset => 0x47
      case NaturalLang => 0x48
      case MimeMediaType => 0x49
    }

    /** The ten tags whose values IppDecoder.DecodeValue reads with IppString.Decode. */
    predicate IsStringFamily()
    {
      this in {OctetString, TextWithoutLang, NameWithoutLang, Keyword, Uri, UriScheme,
                Charset, NaturalLang, MimeMediaType, Unsupported}
    }

    /** The out-of-band tags whose values are skipped and yield nothing. */
    predicate IsOutOfBand()
    {
      this == NoValue || this == Unknown
    }
  }

  /** The `(Value) tag` cast, restricted to declared members: None for any other byte. */
  function ValueTagOf(b: byte): (r: Option<ValueTag>)
    ensures r.Some? ==> r.value.Code() == b
  {
    if b == 0x10 then Some(Unsupported)
    else if b == 0x12 then Some(Unknown)
    else if b == 0x13 then Some(NoValue)
    else if b == 0x21 then Some(Integer)
    else if b == 0x22 then Some(Boolean)
    else if b == 0x23 then Some(Enum)
    else if b == 0x30 then Some(OctetString)
    else if b == 0x31 then Some(DateTime)
    else if b == 0x32 then Some(Resolution)
    else if b == 0x33 then Some(RangeOfInteger)
    else if b == 0x34 then Some(Collection)
    else if b == 0x35 then Some(TextWithLang)
    else if b == 0x36 then Some(NameWithLang)
    else if b == 0x41 then Some(TextWithoutLang)
    else if b == 0x42 then Some(NameWithoutLang)
    else if b == 0x44 then Some(Keyword)
    else if b == 0x45 then Some(Uri)
    else if b == 0x46 then Some(UriScheme)
    else if b == 0x47 then Some(Charset)
    else if b == 0x48 then Some(NaturalLang)
    else if b == 0x49 then Some(MimeMediaType)
    else None
  }

  /**
   * Every declared tag is recovered from its code, so the codes are pairwise
   * distinct, and every code lies above 0x0F, where the decoder's delimiter test
   * classifies it as a value tag.
   */
  lemma ValueTagCodes(t: ValueTag)
    ensures ValueTagOf(t.Code()) == Some(t)
    ensures t.Code() > 0x0F
    ensures var c := t.Code();
            || 0x10 <= c <= 0x13
            || 0x21 <= c <= 0x23
            || 0x30 <= c <= 0x36
            || 0x41 <= c <= 0x49
  {
  }

  /** Equal codes mean equal tags. */
  lemma ValueTagCodeInjective(s: ValueTag, t: ValueTag)
    requires s.Code() == t.Code()
    ensures s == t
  {
    ValueTagCodes(s);
    ValueTagCodes(t);
  }

  /** End-of-collection (0x37) and member-name (0x4A) are not declared value tags. */
  lemma CollectionMarkersUndeclared()
    ensures ValueTagOf(END_COLLECTION) == None
    ensures ValueTagOf(MEMBER_NAME) == None
  {
  }

  const END_COLLECTION: byte := 0x37
  const MEMBER_NAME: byte := 0x4A

  // Delimiter tags (the AttributesTag enum).
  const OPERATION_ATTRIBUTES_TAG: byte := 0x01
  const JOB_ATTRIBUTES_TAG: byte := 0x02
  const END_OF_ATTRIBUTES_TAG: byte := 0x03
  const PRINTER_ATTRIBUTES_TAG: byte := 0x04
  const UNSUPPORTED_ATTRIBUTES_TAG: byte := 0x05

  /** The decoder's test: a tag of at most 0x0F ends the current group. */
  predicate IsDelimiter(b: byte)
  {
    b <= 0x0F
  }
}
