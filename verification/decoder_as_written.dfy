/**
 * IppDecoder.Decode and IppDecoder.DecodeValue as the program runs them,
 * over the as-written string reader of IppString.Decode: a negative length
 * yields the empty string and moves the offset back by the length plus two.
 * Offsets are therefore integers that can fall below zero, and the loops
 * need not end. Each loop turn spends one unit of `fuel`, and `OutOfFuel`
 * stands for a reader the source would leave running.
 *
 * The readers of MessageCodec and Values refuse a negative length instead;
 * wherever they do not refuse for that reason, the two agree (RequestAgrees).
 */
module DecoderAsWritten {
  import opened Primitives
  import opened Text
  import opened Tags
  import opened Values
  import opened Model
  import StringCodec
  import LangStringCodec
  import MessageCodec

  /**
   * The fixed-width readers (integer, boolean, enum, date, range and
   * resolution) at an offset that may be negative. None of them reads the
   * two length bytes: the first read is at `off + 2`. So at -2 and -1 they
   * read what the corrected readers read from the buffer with two bytes put
   * in front of it, and below -2 their first slice throws.
   */
  function DecodeFixed(buf: Bytes, tag: byte, off: int): (r: Result<(Option<Value>, int)>)
    ensures off >= 0 ==> r == Values.DecodeValue(buf, tag, off)
    ensures off < -2 ==> r == Err(OutOfBounds)
    decreases if off < 0 then -off else 0
  {
    if off >= 0 then Values.DecodeValue(buf, tag, off)
    else if off >= -2 then
      match DecodeFixed([0, 0] + buf, tag, off + 2)
      case Ok((v, c)) => Ok((v, c - 2))
      case Err(f) => Err(f)
    else Err(OutOfBounds)
  }

  /** IppDecoder.DecodeValue: the value whose length field is at `off`. */
  function DecodeValue(buf: Bytes, tag: byte, off: int, fuel: nat): (r: Result<(Option<Value>, int)>)
    ensures ValueTagOf(tag).None? ==> r == Err(UnsupportedTag)
    ensures ValueTagOf(tag).Some? && ValueTagOf(tag).value.IsOutOfBand() ==> r == Ok((None, off + 2))
    ensures r.Ok? ==> ValueTagOf(tag).Some?
    decreases fuel, 1
  {
    match ValueTagOf(tag)
    case None => Err(UnsupportedTag)
    case Some(t) =>
      match t
      case NoValue => Ok((None, off + 2))
      case Unknown => Ok((None, off + 2))
      case TextWithLang =>
        var (l, s, c) :- LangStringCodec.DecodeAsWritten(buf, off);
        Ok((Some(LangStringValue(l, s)), c))
      case NameWithLang =>
        var (l, s, c) :- LangStringCodec.DecodeAsWritten(buf, off);
        Ok((Some(LangStringValue(l, s)), c))
      case Collection =>
        var (ms, c) :- DecodeMembers(buf, off + 2, [], fuel);
        Ok((Some(CollectionValue(ms)), c))
      case Integer => DecodeFixed(buf, tag, off)
      case Boolean => DecodeFixed(buf, tag, off)
      case Enum => DecodeFixed(buf, tag, off)
      case DateTime => DecodeFixed(buf, tag, off)
      case RangeOfInteger => DecodeFixed(buf, tag, off)
      case Resolution => DecodeFixed(buf, tag, off)
      case _ =>
        var (s, c) :- StringCodec.DecodeAsWritten(buf, off);
        Ok((Some(StringValue(s)), c))
  }

  /**
   * One member of IppCollection.Decode: skip three bytes, read the key, read
   * the value's tag, skip two bytes, read the value. The result is the key,
   * the value (none for an out-of-band tag) and the offset after it.
   */
  function ReadMember(buf: Bytes, off: int, fuel: nat): (r: Result<(Bytes, Option<Value>, int)>)
    decreases fuel, 2
  {
    var (key, n) :- StringCodec.DecodeAsWritten(buf, off + 3);
    if n < 0 || n >= |buf| then Err(OutOfBounds)
    else
      var (v, c) :- DecodeValue(buf, buf[n], n + 3, fuel);
      Ok((key, v, c))
  }

  /**
   * The member loop of IppCollection.Decode: members until the
   * end-of-collection tag; a member without a value is dropped and a key
   * already present throws.
   */
  function DecodeMembers(buf: Bytes, off: int, acc: seq<Member>, fuel: nat): (r: Result<(seq<Member>, int)>)
    ensures r.Ok? ==> acc <= r.value.0
    ensures off < 0 || off >= |buf| ==> r == Err(OutOfBounds)
    decreases fuel, 0
  {
    if off < 0 || off >= |buf| then Err(OutOfBounds)
    else if buf[off] == END_COLLECTION then Ok((acc, off + 5))
    else if fuel == 0 then Err(OutOfFuel)
    else
      var (key, v, c) :- ReadMember(buf, off, fuel - 1);
      match v
      case None => DecodeMembers(buf, c, acc, fuel - 1)
      case Some(x) =>
        if key in Keys(acc) then Err(DuplicateKey)
        else DecodeMembers(buf, c, acc + [Member(key, x)], fuel - 1)
  }

  /**
   * One entry of the inner loop of IppDecoder.Decode: the name, the value,
   * and the offset of the tag that follows, which must lie in the buffer.
   */
  function ReadEntry(buf: Bytes, tag: byte, off: int, fuel: nat): (r: Result<(Bytes, Option<Value>, int)>)
    ensures r.Ok? ==> ValueTagOf(tag).Some? && 0 <= r.value.2 < |buf|
  {
    var (name, n) :- StringCodec.DecodeAsWritten(buf, off);
    if |name| > 0 && IsBlank(name) then Err(InvalidName)
    else
      var (v, c) :- DecodeValue(buf, tag, n, fuel);
      if c < 0 || c >= |buf| then Err(OutOfBounds) else Ok((name, v, c))
  }

  /** The inner loop of IppDecoder.Decode: entries while the tag is a value tag. */
  function DecodeAttributes(buf: Bytes, tag: byte, off: int, attrs: seq<Attribute>, fuel: nat): (r: Result<(seq<Attribute>, byte, int)>)
    ensures r.Ok? ==> IsDelimiter(r.value.1)
    ensures IsDelimiter(tag) ==> r == Ok((attrs, tag, off))
    decreases fuel
  {
    if IsDelimiter(tag) then Ok((attrs, tag, off))
    else if fuel == 0 then Err(OutOfFuel)
    else
      var (name, v, c) :- ReadEntry(buf, tag, off, fuel - 1);
      DecodeAttributes(buf, buf[c], c + 1, MessageCodec.AddEntry(attrs, ValueTagOf(tag).value, name, v), fuel - 1)
  }

  /** The outer loop of IppDecoder.Decode: a group per tag until end-of-attributes or the end of the buffer. */
  function DecodeGroups(buf: Bytes, tag: byte, off: int, groups: seq<Group>, fuel: nat): (r: Result<seq<Group>>)
    ensures r.Ok? ==> groups <= r.value
    ensures (tag == END_OF_ATTRIBUTES_TAG || off >= |buf|) ==> r == Ok(groups)
    decreases fuel
  {
    if tag == END_OF_ATTRIBUTES_TAG || off >= |buf| then Ok(groups)
    else if off < 0 then Err(OutOfBounds)
    else if fuel == 0 then Err(OutOfFuel)
    else
      var (attrs, next, c) :- DecodeAttributes(buf, buf[off], off + 1, [], fuel - 1);
      DecodeGroups(buf, next, c, groups + [Group(tag, attrs)], fuel - 1)
  }

  /** IppDecoder.Decode: the eight-byte header, then the groups from the tag at offset 8. */
  function Decode(buf: Bytes, fuel: nat): (r: Result<Request>)
    ensures |buf| < 9 ==> r == Err(OutOfBounds)
    ensures r.Ok? ==> r.value.major == buf[0] && r.value.minor == buf[1]
  {
    if |buf| < 9 then Err(OutOfBounds)
    else
      var groups :- DecodeGroups(buf, buf[8], 9, [], fuel);
      Ok(Request(buf[0], buf[1], ToInt16(buf[2], buf[3]), ToInt32(buf[4], buf[5], buf[6], buf[7]), groups))
  }

  /** One member as the member loop of Values.DecodeMembers reads it. */
  function CorrectedMember(buf: Bytes, off: nat): (r: Result<(Bytes, Option<Value>, nat)>)
    ensures r.Ok? ==> off < r.value.2
    ensures r.Ok? && r.value.1.Some? ==> WellKeyed(r.value.1.value)
  {
    var (key, n) :- StringCodec.Decode(buf, off + 3);
    if n >= |buf| then Err(OutOfBounds)
    else
      var (v, c) :- Values.DecodeValue(buf, buf[n], n + 3);
      Ok((key, v, c))
  }

  /** One entry as the inner loop of MessageCodec.DecodeAttributes reads it. */
  function CorrectedEntry(buf: Bytes, tag: byte, off: nat): (r: Result<(Bytes, Option<Value>, nat)>)
    ensures r.Ok? ==> ValueTagOf(tag).Some? && off < r.value.2 < |buf|
  {
    var (name, n) :- StringCodec.Decode(buf, off);
    if |name| > 0 && IsBlank(name) then Err(InvalidName)
    else
      var (v, c) :- Values.DecodeValue(buf, tag, n);
      if c >= |buf| then Err(OutOfBounds) else Ok((name, v, c))
  }

  /** Values.DecodeMembers takes one member per turn, as CorrectedMember reads it. */
  lemma CorrectedMembersUnfold(buf: Bytes, off: nat, acc: seq<Member>)
    requires DistinctKeys(acc) && forall i :: 0 <= i < |acc| ==> WellKeyed(acc[i].value)
    requires off < |buf| && buf[off] != END_COLLECTION
    ensures CorrectedMember(buf, off).Err? ==> Values.DecodeMembers(buf, off, acc) == Err(CorrectedMember(buf, off).fault)
    ensures CorrectedMember(buf, off).Ok? ==>
              var (key, v, c) := CorrectedMember(buf, off).value;
              && (v.None? ==> Values.DecodeMembers(buf, off, acc) == Values.DecodeMembers(buf, c, acc))
              && (v.Some? && key in Keys(acc) ==> Values.DecodeMembers(buf, off, acc) == Err(DuplicateKey))
              && (v.Some? && key !in Keys(acc) ==>
                    && DistinctKeys(acc + [Member(key, v.value)])
                    && (forall i :: 0 <= i < |acc + [Member(key, v.value)]| ==> WellKeyed((acc + [Member(key, v.value)])[i].value))
                    && Values.DecodeMembers(buf, off, acc) == Values.DecodeMembers(buf, c, acc + [Member(key, v.value)]))
  {
  }

  /** MessageCodec.DecodeAttributes takes one entry per turn: the entry `e` that CorrectedEntry reads. */
  lemma CorrectedAttributesUnfold(buf: Bytes, tag: byte, off: nat, attrs: seq<Attribute>, e: Result<(Bytes, Option<Value>, nat)>)
    requires !IsDelimiter(tag) && CorrectedEntry(buf, tag, off) == e
    ensures e.Err? ==> MessageCodec.DecodeAttributes(buf, tag, off, attrs) == Err(e.fault)
    ensures e.Ok? ==> MessageCodec.DecodeAttributes(buf, tag, off, attrs)
                      == MessageCodec.DecodeAttributes(buf, buf[e.value.2], e.value.2 + 1, MessageCodec.AddEntry(attrs, ValueTagOf(tag).value, e.value.0, e.value.1))
  {
    match StringCodec.Decode(buf, off)
    case Err(_) =>
    case Ok((name, n)) =>
      if !(|name| > 0 && IsBlank(name)) {
        match Values.DecodeValue(buf, tag, n)
        case Err(_) =>
        case Ok((v, c)) =>
          if c < |buf| {
            MessageCodec.DecodeAttributesUnfold(buf, tag, off, attrs, name, n, v, c);
          }
      }
  }

  /** The as-written inner loop takes one entry per turn: the entry `e` that ReadEntry reads. */
  lemma AttributesUnfold(buf: Bytes, tag: byte, off: int, attrs: seq<Attribute>, fuel: nat, e: Result<(Bytes, Option<Value>, int)>)
    requires !IsDelimiter(tag) && fuel > 0 && ReadEntry(buf, tag, off, fuel - 1) == e
    ensures e.Err? ==> DecodeAttributes(buf, tag, off, attrs, fuel) == Err(e.fault)
    ensures e.Ok? ==> DecodeAttributes(buf, tag, off, attrs, fuel)
                      == DecodeAttributes(buf, buf[e.value.2], e.value.2 + 1, MessageCodec.AddEntry(attrs, ValueTagOf(tag).value, e.value.0, e.value.1), fuel - 1)
  {
  }

  /** With fuel for every byte left, a value is read as the corrected reader reads it, unless that refuses a negative length. */
  lemma {:induction false} ValueAgrees(buf: Bytes, tag: byte, off: nat, fuel: nat)
    requires fuel > Remaining(buf, off)
    ensures Values.DecodeValue(buf, tag, off) != Err(NegativeLength) ==>
              DecodeValue(buf, tag, off, fuel) == Values.DecodeValue(buf, tag, off)
    decreases fuel, 2
  {
    match ValueTagOf(tag)
    case None =>
    case Some(t) =>
      match t
      case TextWithLang => LangStringCodec.DecodeAgreesWithAsWritten(buf, off);
      case NameWithLang => LangStringCodec.DecodeAgreesWithAsWritten(buf, off);
      case Collection => MembersAgree(buf, off + 2, [], fuel);
      case _ => StringCodec.DecodeAgreesWithAsWritten(buf, off);
  }

  /** One member is read alike, unless the corrected reader refuses a negative length. */
  lemma {:induction false} MemberAgrees(buf: Bytes, off: nat, fuel: nat)
    requires fuel >= Remaining(buf, off)
    ensures CorrectedMember(buf, off) != Err(NegativeLength) ==> ReadMember(buf, off, fuel) == CorrectedMember(buf, off)
    decreases fuel, 3
  {
    StringCodec.DecodeAgreesWithAsWritten(buf, off + 3);
    match StringCodec.Decode(buf, off + 3)
    case Err(_) =>
    case Ok((key, n)) =>
      if n < |buf| {
        ValueAgrees(buf, buf[n], n + 3, fuel);
      }
  }

  /**
   * One turn of both member loops, handed on as where the corrected loop
   * goes next: they fail alike unless the corrected reader refuses a
   * negative length, or they go on from the same offset and members.
   */
  lemma MembersTurn(buf: Bytes, off: nat, acc: seq<Member>, fuel: nat) returns (t: Result<(nat, seq<Member>)>)
    requires DistinctKeys(acc) && forall i :: 0 <= i < |acc| ==> WellKeyed(acc[i].value)
    requires off < |buf| && buf[off] != END_COLLECTION && fuel > Remaining(buf, off)
    ensures t.Err? ==> Values.DecodeMembers(buf, off, acc) == Err(t.fault)
    ensures t.Err? && t.fault != NegativeLength ==> DecodeMembers(buf, off, acc, fuel) == Err(t.fault)
    ensures t.Ok? ==> && off < t.value.0
                      && DistinctKeys(t.value.1) && (forall i :: 0 <= i < |t.value.1| ==> WellKeyed(t.value.1[i].value))
                      && Values.DecodeMembers(buf, off, acc) == Values.DecodeMembers(buf, t.value.0, t.value.1)
                      && DecodeMembers(buf, off, acc, fuel) == DecodeMembers(buf, t.value.0, t.value.1, fuel - 1)
    decreases fuel, 0
  {
    CorrectedMembersUnfold(buf, off, acc);
    MemberAgrees(buf, off, fuel - 1);
    match CorrectedMember(buf, off)
    case Err(f) => t := Err(f);
    case Ok((key, v, c)) =>
      if v.None? {
        t := Ok((c, acc));
      } else if key in Keys(acc) {
        t := Err(DuplicateKey);
      } else {
        t := Ok((c, acc + [Member(key, v.value)]));
      }
  }

  /** Agreement after a member both member loops read alike is agreement before it. */
  lemma MembersCarry(buf: Bytes, off: nat, acc: seq<Member>, fuel: nat, at: nat, more: seq<Member>)
    requires fuel > 0
    requires DistinctKeys(acc) && forall i :: 0 <= i < |acc| ==> WellKeyed(acc[i].value)
    requires DistinctKeys(more) && forall i :: 0 <= i < |more| ==> WellKeyed(more[i].value)
    requires Values.DecodeMembers(buf, off, acc) == Values.DecodeMembers(buf, at, more)
    requires DecodeMembers(buf, off, acc, fuel) == DecodeMembers(buf, at, more, fuel - 1)
    requires Values.DecodeMembers(buf, at, more) != Err(NegativeLength) ==>
               DecodeMembers(buf, at, more, fuel - 1) == Values.DecodeMembers(buf, at, more)
    ensures Values.DecodeMembers(buf, off, acc) != Err(NegativeLength) ==>
              DecodeMembers(buf, off, acc, fuel) == Values.DecodeMembers(buf, off, acc)
  {
  }

  /** Both member loops fail alike, unless the corrected one refuses a negative length. */
  lemma MembersFail(buf: Bytes, off: nat, acc: seq<Member>, fuel: nat, f: Fault)
    requires DistinctKeys(acc) && forall i :: 0 <= i < |acc| ==> WellKeyed(acc[i].value)
    requires Values.DecodeMembers(buf, off, acc) == Err(f)
    requires f != NegativeLength ==> DecodeMembers(buf, off, acc, fuel) == Err(f)
    ensures Values.DecodeMembers(buf, off, acc) != Err(NegativeLength) ==>
              DecodeMembers(buf, off, acc, fuel) == Values.DecodeMembers(buf, off, acc)
  {
  }

  /** The member loop agrees in the same way. */
  lemma {:induction false} MembersAgree(buf: Bytes, off: nat, acc: seq<Member>, fuel: nat)
    requires DistinctKeys(acc) && forall i :: 0 <= i < |acc| ==> WellKeyed(acc[i].value)
    requires fuel > Remaining(buf, off)
    ensures Values.DecodeMembers(buf, off, acc) != Err(NegativeLength) ==>
              DecodeMembers(buf, off, acc, fuel) == Values.DecodeMembers(buf, off, acc)
    decreases fuel, 1
  {
    if off < |buf| && buf[off] != END_COLLECTION {
      var t := MembersTurn(buf, off, acc, fuel);
      if t.Ok? {
        MembersAgree(buf, t.value.0, t.value.1, fuel - 1);
        MembersCarry(buf, off, acc, fuel, t.value.0, t.value.1);
      } else {
        MembersFail(buf, off, acc, fuel, t.fault);
      }
    }
  }

  /** One entry is read alike, unless the corrected reader refuses a negative length. */
  lemma EntryAgrees(buf: Bytes, tag: byte, off: nat, fuel: nat)
    requires fuel >= Remaining(buf, off)
    ensures CorrectedEntry(buf, tag, off) != Err(NegativeLength) ==> ReadEntry(buf, tag, off, fuel) == CorrectedEntry(buf, tag, off)
  {
    StringCodec.DecodeAgreesWithAsWritten(buf, off);
    var name := StringCodec.Decode(buf, off);
    if name.Ok? {
      ValueAgrees(buf, tag, name.value.1, fuel);
    }
  }

  /** From this point on, the program's inner loop reads as the corrected one, unless that refuses a negative length. */
  ghost predicate AttributesAgreeAt(buf: Bytes, tag: byte, off: nat, attrs: seq<Attribute>, fuel: nat)
  {
    MessageCodec.DecodeAttributes(buf, tag, off, attrs) != Err(NegativeLength) ==>
      DecodeAttributes(buf, tag, off, attrs, fuel) == MessageCodec.DecodeAttributes(buf, tag, off, attrs)
  }

  /**
   * Both inner loops take the same turn `t`: they fail alike unless the
   * corrected reader refuses a negative length, or both go on from the next
   * tag, its offset plus one and the entries so far.
   */
  ghost predicate AttributesTurned(buf: Bytes, tag: byte, off: nat, attrs: seq<Attribute>, fuel: nat, t: Result<(byte, nat, seq<Attribute>)>)
  {
    && (t.Err? ==> MessageCodec.DecodeAttributes(buf, tag, off, attrs) == Err(t.fault))
    && (t.Err? && t.fault != NegativeLength ==> DecodeAttributes(buf, tag, off, attrs, fuel) == Err(t.fault))
    && (t.Ok? ==> && fuel > 0
                  && MessageCodec.DecodeAttributes(buf, tag, off, attrs) == MessageCodec.DecodeAttributes(buf, t.value.0, t.value.1, t.value.2)
                  && DecodeAttributes(buf, tag, off, attrs, fuel) == DecodeAttributes(buf, t.value.0, t.value.1, t.value.2, fuel - 1))
  }

  /** One turn of both inner loops on the entry at `off`, handed on as the turn they both take. */
  lemma AttributesTurn(buf: Bytes, tag: byte, off: nat, attrs: seq<Attribute>, fuel: nat) returns (t: Result<(byte, nat, seq<Attribute>)>)
    requires !IsDelimiter(tag) && fuel > Remaining(buf, off)
    ensures t.Ok? ==> off < t.value.1 <= |buf|
    ensures AttributesTurned(buf, tag, off, attrs, fuel, t)
  {
    var e := CorrectedEntry(buf, tag, off);
    EntryAgrees(buf, tag, off, fuel - 1);
    CorrectedAttributesUnfold(buf, tag, off, attrs, e);
    if e != Err(NegativeLength) {
      AttributesUnfold(buf, tag, off, attrs, fuel, e);
    }
    t := if e.Ok? then Ok((buf[e.value.2], e.value.2 + 1, MessageCodec.AddEntry(attrs, ValueTagOf(tag).value, e.value.0, e.value.1)))
         else Err(e.fault);
  }

  /**
   * Both inner loops agree before a turn they take alike: at once when they
   * fail in it, and otherwise because they agree from where they go on.
   */
  lemma {:induction false} AttributesClose(buf: Bytes, tag: byte, off: nat, attrs: seq<Attribute>, fuel: nat, t: Result<(byte, nat, seq<Attribute>)>)
    requires fuel > Remaining(buf, off) && AttributesTurned(buf, tag, off, attrs, fuel, t)
    requires t.Ok? ==> off < t.value.1
    ensures AttributesAgreeAt(buf, tag, off, attrs, fuel)
    decreases fuel, 0
  {
    if t.Ok? {
      AttributesAgree(buf, t.value.0, t.value.1, t.value.2, fuel - 1);
    }
  }

  /** With fuel for every byte left, the inner loop reads as the corrected one, unless that refuses a negative length. */
  lemma {:induction false} AttributesAgree(buf: Bytes, tag: byte, off: nat, attrs: seq<Attribute>, fuel: nat)
    requires fuel > Remaining(buf, off)
    ensures AttributesAgreeAt(buf, tag, off, attrs, fuel)
    decreases fuel, 1
  {
    if !IsDelimiter(tag) {
      var t := AttributesTurn(buf, tag, off, attrs, fuel);
      AttributesClose(buf, tag, off, attrs, fuel, t);
    }
  }

  /** One turn of the corrected outer loop, given what the group's inner loop returns. */
  lemma CorrectedGroupsStep(buf: Bytes, tag: byte, off: nat, groups: seq<Group>, a: Result<(seq<Attribute>, byte, nat)>)
    requires tag != END_OF_ATTRIBUTES_TAG && off < |buf|
    requires MessageCodec.DecodeAttributes(buf, buf[off], off + 1, []) == a
    ensures a.Ok? ==> off < a.value.2
    ensures a.Err? ==> MessageCodec.DecodeGroups(buf, tag, off, groups) == Err(a.fault)
    ensures a.Ok? ==> MessageCodec.DecodeGroups(buf, tag, off, groups) == MessageCodec.DecodeGroups(buf, a.value.1, a.value.2, groups + [Group(tag, a.value.0)])
  {
  }

  /** One turn of the as-written outer loop, given what the group's inner loop returns. */
  lemma GroupsStep(buf: Bytes, tag: byte, off: nat, groups: seq<Group>, fuel: nat, a: Result<(seq<Attribute>, byte, int)>)
    requires tag != END_OF_ATTRIBUTES_TAG && off < |buf| && fuel > 0
    requires DecodeAttributes(buf, buf[off], off + 1, [], fuel - 1) == a
    ensures a.Err? ==> DecodeGroups(buf, tag, off, groups, fuel) == Err(a.fault)
    ensures a.Ok? ==> DecodeGroups(buf, tag, off, groups, fuel) == DecodeGroups(buf, a.value.1, a.value.2, groups + [Group(tag, a.value.0)], fuel - 1)
  {
  }

  /** From this point on, the program's outer loop reads as the corrected one, unless that refuses a negative length. */
  ghost predicate GroupsAgreeAt(buf: Bytes, tag: byte, off: nat, groups: seq<Group>, fuel: nat)
  {
    MessageCodec.DecodeGroups(buf, tag, off, groups) != Err(NegativeLength) ==>
      DecodeGroups(buf, tag, off, groups, fuel) == MessageCodec.DecodeGroups(buf, tag, off, groups)
  }

  /**
   * Both outer loops take the same turn: the group's inner loops return `a`
   * in both, and they fail alike unless the corrected reader refuses a
   * negative length, or both go on with the group appended.
   */
  ghost predicate GroupsTurned(buf: Bytes, tag: byte, off: nat, groups: seq<Group>, fuel: nat, a: Result<(seq<Attribute>, byte, nat)>)
  {
    && (a.Err? ==> MessageCodec.DecodeGroups(buf, tag, off, groups) == Err(a.fault))
    && (a.Err? && a.fault != NegativeLength ==> DecodeGroups(buf, tag, off, groups, fuel) == Err(a.fault))
    && (a.Ok? ==> && fuel > 0
                  && MessageCodec.DecodeGroups(buf, tag, off, groups)
                     == MessageCodec.DecodeGroups(buf, a.value.1, a.value.2, groups + [Group(tag, a.value.0)])
                  && DecodeGroups(buf, tag, off, groups, fuel)
                     == DecodeGroups(buf, a.value.1, a.value.2, groups + [Group(tag, a.value.0)], fuel - 1))
  }

  /**
   * One turn of both outer loops, handed on as the group's attributes, the
   * tag after them and its offset plus one.
   */
  lemma GroupsTurn(buf: Bytes, tag: byte, off: nat, groups: seq<Group>, fuel: nat) returns (a: Result<(seq<Attribute>, byte, nat)>)
    requires tag != END_OF_ATTRIBUTES_TAG && off < |buf| && fuel > Remaining(buf, off)
    ensures a.Ok? ==> off < a.value.2
    ensures GroupsTurned(buf, tag, off, groups, fuel, a)
  {
    a := MessageCodec.DecodeAttributes(buf, buf[off], off + 1, []);
    CorrectedGroupsStep(buf, tag, off, groups, a);
    AsWrittenGroupsTurn(buf, tag, off, groups, fuel, a);
  }

  /** The as-written half of a turn: the group's inner loop agrees, so the outer loop moves as the corrected one does. */
  lemma AsWrittenGroupsTurn(buf: Bytes, tag: byte, off: nat, groups: seq<Group>, fuel: nat, a: Result<(seq<Attribute>, byte, nat)>)
    requires tag != END_OF_ATTRIBUTES_TAG && off < |buf| && fuel > Remaining(buf, off)
    requires MessageCodec.DecodeAttributes(buf, buf[off], off + 1, []) == a
    ensures a.Err? && a.fault != NegativeLength ==> DecodeGroups(buf, tag, off, groups, fuel) == Err(a.fault)
    ensures a.Ok? ==> DecodeGroups(buf, tag, off, groups, fuel) == DecodeGroups(buf, a.value.1, a.value.2, groups + [Group(tag, a.value.0)], fuel - 1)
  {
    AttributesAgree(buf, buf[off], off + 1, [], fuel - 1);
    if a != Err(NegativeLength) {
      GroupsStep(buf, tag, off, groups, fuel, a);
    }
  }

  /**
   * Both outer loops agree before a turn they take alike: at once when they
   * fail in it, and otherwise because they agree from where they go on.
   */
  lemma {:induction false} GroupsClose(buf: Bytes, tag: byte, off: nat, groups: seq<Group>, fuel: nat, a: Result<(seq<Attribute>, byte, nat)>)
    requires fuel > Remaining(buf, off) && GroupsTurned(buf, tag, off, groups, fuel, a)
    requires a.Ok? ==> off < a.value.2
    ensures GroupsAgreeAt(buf, tag, off, groups, fuel)
    decreases fuel, 0
  {
    if a.Ok? {
      GroupsAgree(buf, a.value.1, a.value.2, groups + [Group(tag, a.value.0)], fuel - 1);
    }
  }

  /** With fuel for every byte left, the outer loop reads as the corrected one, unless that refuses a negative length. */
  lemma {:induction false} GroupsAgree(buf: Bytes, tag: byte, off: nat, groups: seq<Group>, fuel: nat)
    requires fuel > Remaining(buf, off)
    ensures GroupsAgreeAt(buf, tag, off, groups, fuel)
    decreases fuel, 1
  {
    if tag != END_OF_ATTRIBUTES_TAG && off < |buf| {
      var a := GroupsTurn(buf, tag, off, groups, fuel);
      GroupsClose(buf, tag, off, groups, fuel, a);
    }
  }

  /**
   * Given one unit of fuel per byte, the program reads every request exactly
   * as the corrected reader does, except where the corrected reader refuses
   * a negative length.
   */
  lemma RequestAgrees(buf: Bytes, fuel: nat)
    requires fuel > |buf|
    ensures MessageCodec.Decode(buf) != Err(NegativeLength) ==> Decode(buf, fuel) == MessageCodec.Decode(buf)
  {
    if |buf| >= 9 {
      GroupsAgree(buf, buf[8], 9, [], fuel);
    }
  }

  /** A Get-Printer-Attributes request whose one entry has the no-value tag and a name length of -2. */
  const REWINDING_REQUEST: Bytes := [1, 1, 0, 0x0B, 0, 0, 0, 1, 1, 0x13, 0xFF, 0xFE, 3]

  /**
   * The name length of -2 leaves the offset where it was; the no-value
   * entry then skips the two length bytes, and the program reads one empty
   * operation group where the corrected reader refuses the request.
   */
  lemma NegativeNameAccepted(fuel: nat)
    requires fuel >= 2
    ensures Decode(REWINDING_REQUEST, fuel) == Ok(Request(1, 1, 0x0B, 1, [Group(1, [])]))
    ensures MessageCodec.Decode(REWINDING_REQUEST) == Err(NegativeLength)
  {
    var buf := REWINDING_REQUEST;
    assert StringCodec.DecodeAsWritten(buf, 10) == Ok(([], 10));
    assert DecodeValue(buf, 0x13, 10, fuel - 2) == Ok((None, 12));
    assert DecodeAttributes(buf, 3, 13, [], fuel - 2) == Ok(([], 3, 13));
    assert DecodeAttributes(buf, 0x13, 10, [], fuel - 1) == Ok(([], 3, 13));
    assert DecodeGroups(buf, 3, 13, [Group(1, [])], fuel - 1) == Ok([Group(1, [])]);
    assert [] + [Group(1, [])] == [Group(1, [])];
    assert DecodeGroups(buf, 1, 9, [], fuel) == Ok([Group(1, [])]);
    assert ToInt16(0, 0x0B) == 0x0B && ToInt32(0, 0, 0, 1) == 1;
  }

  /** The same request with a name length of -5. */
  const LOOPING_REQUEST: Bytes := [1, 1, 0, 0x0B, 0, 0, 0, 1, 1, 0x13, 0xFF, 0xFB, 3]

  /**
   * The name length of -5 moves the offset three bytes back, the no-value
   * entry skips two, and the next tag read is the same no-value tag: the
   * program never finishes reading this request, whatever the fuel.
   */
  lemma NoValueLoops(fuel: nat)
    ensures Decode(LOOPING_REQUEST, fuel) == Err(OutOfFuel)
    ensures MessageCodec.Decode(LOOPING_REQUEST) == Err(NegativeLength)
  {
    if fuel > 0 {
      LoopsAt(fuel - 1);
    }
  }

  /** Each turn of the inner loop on the looping request comes back to the tag at offset 9. */
  lemma {:induction false} LoopsAt(fuel: nat)
    ensures DecodeAttributes(LOOPING_REQUEST, 0x13, 10, [], fuel) == Err(OutOfFuel)
    decreases fuel
  {
    if fuel > 0 {
      var buf := LOOPING_REQUEST;
      assert StringCodec.DecodeAsWritten(buf, 10) == Ok(([], 7));
      assert DecodeValue(buf, 0x13, 7, fuel - 1) == Ok((None, 9));
      assert MessageCodec.AddEntry([], NoValue, [], None) == [];
      LoopsAt(fuel - 1);
    }
  }
}
