/**
 * IppDateTime (Values/IppDateTime.cs): the eleven-octet dateTime of section
 * 2 of RFC 2579: year (two bytes), month, day, hour, minutes, seconds,
 * deci-seconds, direction from UTC, hours and minutes from UTC.
 */
module DateTimeCodec {
  import opened Primitives
  import opened Calendar

  /**
   * IppDateTime.Encode for a UTC DateTime: the fields as they are, the
   * milliseconds rounded down to tenths of a second, and a "+00:00" offset.
   */
  function Encode(dt: ValidDateTime): (r: Bytes)
    ensures |r| == 13 && ToInt16(r[0], r[1]) == 11 && ToInt16(r[2], r[3]) == dt.year
    ensures r[4] == dt.month && r[5] == dt.day && r[6] == dt.hour
    ensures r[7] == dt.minute && r[8] == dt.second && r[9] == dt.millisecond / 100
    ensures r[10] == 0x2B && r[11] == 0 && r[12] == 0
  {
    Int16RoundTrip(11);
    Int16RoundTrip(dt.year);
    var length := WriteInt16(11);
    var year := WriteInt16(dt.year);
    var fields := [dt.month, dt.day, dt.hour, dt.minute, dt.second, dt.millisecond / 100, 0x2B, 0x00, 0x00];
    assert (length + year)[2] == year[0] && (length + year)[3] == year[1];
    length + year + fields
  }

  /** The signed offset from UTC: '+' means ahead of UTC, any other byte behind it. */
  function OffsetHours(direction: byte, hours: byte): (r: int)
    ensures -0xFF <= r <= 0xFF
    ensures r >= 0 || direction != 0x2B
  {
    if direction == 0x2B then hours as int else -(hours as int)
  }

  /** The local fields the decoder hands to the DateTimeOffset constructor; milliseconds are not read. */
  function LocalFields(buf: Bytes, off: nat): DateTime
    requires off + 12 <= |buf|
  {
    DateTime(ToInt16(buf[off + 2], buf[off + 3]), buf[off + 4], buf[off + 5], buf[off + 6],
             buf[off + 7], buf[off + 8], 0)
  }

  /** DateTimeOffset refuses an offset beyond fourteen hours either way. */
  const MAX_OFFSET_HOURS := 14

  /**
   * IppDateTime.Decode: the offset moves by 13 although the value is 11 bytes
   * after its length field; the deci-seconds and minutes-from-UTC bytes are
   * ignored; the result is the same instant in UTC. A buffer too short for
   * the twelve bytes read makes the span access throw.
   */
  function Decode(buf: Bytes, off: nat): (r: Result<(ValidDateTime, nat)>)
    ensures off + 12 > |buf| ==> r == Err(OutOfBounds)
    ensures r.Ok? ==> r.value.1 == off + 13 && r.value.0.millisecond == 0
  {
    if off + 12 > |buf| then Err(OutOfBounds) else
    var local := LocalFields(buf, off);
    var shift := OffsetHours(buf[off + 10], buf[off + 11]);
    if !local.Valid() || shift < -MAX_OFFSET_HOURS || shift > MAX_OFFSET_HOURS then Err(InvalidDateTime)
    else
      var utc :- ToUtc(local, shift);
      Ok((utc, off + 13))
  }

  /**
   * What Decode accepts: eleven readable bytes forming a valid local date,
   * an offset of at most fourteen hours, and a UTC instant inside the
   * DateTime range; the result is that instant, minutes and seconds kept.
   */
  lemma DecodeSpec(buf: Bytes, off: nat)
    requires off + 12 <= |buf|
    ensures var r := Decode(buf, off);
            var local := LocalFields(buf, off);
            var shift := OffsetHours(buf[off + 10], buf[off + 11]);
            && (r.Ok? <==> local.Valid() && -MAX_OFFSET_HOURS <= shift <= MAX_OFFSET_HOURS
                           && 0 <= Hours(local) - shift < HOURS_END)
            && (r.Ok? ==> Hours(r.value.0) == Hours(local) - shift
                          && r.value.0.minute == local.minute && r.value.0.second == local.second)
            && (r.Err? ==> r.fault == InvalidDateTime)
  {
    var local := LocalFields(buf, off);
    var shift := OffsetHours(buf[off + 10], buf[off + 11]);
    if local.Valid() && -MAX_OFFSET_HOURS <= shift <= MAX_OFFSET_HOURS {
      ToUtcShifts(local, shift);
    }
  }

  /** Decoding what Encode wrote gives the date back with its milliseconds dropped. */
  lemma RoundTrip(buf: Bytes, off: nat, dt: ValidDateTime)
    requires At(buf, off, Encode(dt))
    ensures Decode(buf, off) == Ok((dt.(millisecond := 0), off + 13))
  {
    var e := Encode(dt);
    forall i | 0 <= i < 13 ensures buf[off + i] == e[i] { AtIndex(buf, off, e, i); }
    var local := LocalFields(buf, off);
    assert local.year == dt.year && local.month == dt.month && local.day == dt.day;
    assert local.hour == dt.hour && local.minute == dt.minute && local.second == dt.second;
    assert local == dt.(millisecond := 0);
    assert OffsetHours(buf[off + 10], buf[off + 11]) == 0;
  }
}
