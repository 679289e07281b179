# IppServer in Dafny

A model of a small Internet Printing Protocol server. The model covers:

- its wire codec: the value encoders and decoders of `Values/`, and the
  message reader and writer `IppDecoder` and `IppEncoder`;
- its response objects: `IppAttribute`, `IppGroup` and `IppResponse`;
- the printer with its start/stop state machine and its attribute catalogue;
- the `IppPrinterService` dispatcher;
- the projection of the catalogue onto the requested attributes;
- the Print-Job operation handler;
- the operation, value-tag and status-code tables.

`Operations/PrinterAttributesOperation.cs` repeats the projection of
`Extensions/PrinterAttributesResponseExtensions.cs` line for line, so one
model, `Projection`, serves both.

The root-level copy of the server (`IppUtilities`, the older `IppPrinter`,
`IppPrinterService` and `IppResponse`) is modelled in `legacy.dfy` by reusing
the same codec and stating where its behaviour differs.

Bytes are `seq<byte>` with `byte = 0..255`. The C# 16- and 32-bit integers are
the subset types `int16` and `int32`, and every place where the source
truncates or wraps a value does so explicitly:

- the `(byte)` casts of the version;
- the `int` job counter, which wraps around;
- the 16-bit length field of an over-long string.

An exception thrown by the source is an `Err` of a `Result` whose fault names
its cause: out of bounds, unsupported tag, blank name, duplicate key, not
single, not implemented, or an invalid date.

Two places in the codec behave in a way the rest of the program evidently
does not intend, and each is modelled twice (see "## Findings"):

- `IppString.Decode` reads a negative length as an empty string and moves
  the offset back. `DecoderAsWritten` reads requests as the program does, with
  integer offsets and a fuel bound on its loops, and `OutOfFuel` stands for a
  loop the program never leaves. The readers of `StringCodec`, `Values` and
  `MessageCodec` are the corrected ones: they refuse a negative length with
  `NegativeLength`. `DecoderAsWritten.RequestAgrees` proves the two agree on
  every request the corrected reader does not refuse for that reason.
- `IppIntegerRange.Encode` writes the upper bound and then zeros.
  `EncoderAsWritten` writes messages as the program does, and
  `EncoderAsWritten.RoundTrip` states what they read back as. The encoders of
  `Values` and `MessageCodec` lay a range out lower bound first.

Modules, one per file:

| file | module | models |
|---|---|---|
| primitives.dfy | Primitives | `Result`, `Option`, big-endian 16/32-bit reads and writes |
| text.dfy | Text | ASCII strings, white space, case-insensitive comparison, decimal formatting |
| tags.dfy | Tags | the `Value` enum and the group delimiter tags |
| operations.dfy | OperationIds | the `Operation` enum |
| status.dfy | StatusCodes | the `StatusCode` enum |
| status_messages.dfy | StatusMessages | `StatusCodes.GetMessage` |
| stringcodec.dfy | StringCodec | `IppString` |
| scalars.dfy | Scalars | `IppInt`, `IppEnum`, `IppBool`, `IppIntegerRange`, `IppResolution` |
| langstrings.dfy | LangStringCodec | `IppLangString` |
| calendar.dfy | Calendar | the proleptic Gregorian calendar and the UTC shift of `DateTimeOffset` |
| datetimes.dfy | DateTimeCodec | `IppDateTime` |
| values.dfy | Values | `IIppValue`, `IppCollection`, `IppDecoder.DecodeValue` |
| model.dfy | Model | `IppAttribute`, `IppGroup`, `IppRequest`, `IppResponse` |
| codec.dfy | MessageCodec | `IppDecoder.Decode`, `IppEncoder.Encode` |
| roundtrip.dfy | MessageRoundTrip | the proof that decoding inverts encoding |
| decoder_as_written.dfy | DecoderAsWritten | `IppDecoder` and `IppCollection.Decode` over the program's string reader |
| encoder_as_written.dfy | EncoderAsWritten | `IppEncoder.Encode` with the program's range layout |
| printer.dfy | Printer | `Models/IppPrinter` |
| projection.dfy | Projection | `PrinterAttributesResponseExtensions`, `PrinterAttributesOperation` |
| printjob.dfy | PrintJobOperation | `PrintJobOperation` |
| service.dfy | Service | `Processing/IppPrinterService` |
| legacy.dfy | Legacy | the root-level `IppUtilities`, `IppPrinter`, `IppPrinterService`, `IppResponse` |

## Model

| member | source | states |
|---|---|---|
| Primitives.Wrap16 | Source/IppServer/Processing/IppEncoder.cs:41-43 | the `(short)` cast keeps a value congruent modulo 2^16 and leaves any value already in range unchanged |
| Primitives.Wrap32 | Source/IppServer/Operations/PrintJobOperation.cs:39 | `int` arithmetic wraps modulo 2^32 and leaves in-range values unchanged |
| Primitives.ReadInt16 | Source/IppServer/Values/IppString.cs:51 | a big-endian 16-bit read succeeds exactly when both bytes lie inside the buffer |
| Primitives.ReadInt32 | Source/IppServer/Values/IppInt.cs:40 | a big-endian 32-bit read succeeds exactly when all four bytes lie inside the buffer |
| Primitives.Int16RoundTrip | Source/IppServer/Processing/IppEncoder.cs:41-43 | reading back a written 16-bit integer gives the integer |
| Primitives.Int32RoundTrip | Source/IppServer/Processing/IppEncoder.cs:45-47 | reading back a written 32-bit integer gives the integer |
| Text.AsciiInjective | Source/IppServer/Values/IppString.cs:40 | UTF-8 encoding of ASCII text loses nothing: distinct ASCII strings have distinct bytes |
| Text.Digits | Source/IppServer/Operations/PrintJobOperation.cs:39 | the decimal form of a number is a non-empty run of ASCII digits with no leading zero |
| Text.Decimal | Source/IppServer/Operations/PrintJobOperation.cs:39 | `ToString()` of an `int` starts with a minus sign exactly when the number is negative |
| Text.DigitsDenote | Source/IppServer/Operations/PrintJobOperation.cs:39 | the digits of a number, read most significant first, denote that number |
| Text.DecimalDenotes | Source/IppServer/Operations/PrintJobOperation.cs:39 | the decimal rendering of a number reads back as the number, so two numbers never share a rendering |
| Tags.ValueTagOf | Source/IppServer/Values/Value.cs:27-57 | the `(Value)` cast finds a tag only for a declared code, and that tag has the byte as its code |
| Tags.ValueTagCodes | Source/IppServer/Values/Value.cs:27-57 | every declared tag is found again from its code, lies above the delimiter range 0x00-0x0F, and belongs to its documented family |
| Tags.ValueTagCodeInjective | Source/IppServer/Values/Value.cs:27-57 | no two value tags share a code |
| Tags.CollectionMarkersUndeclared | Source/IppServer/Values/IppCollection.cs:38-69 | the end-collection (0x37) and member-name (0x4A) markers are not value tags, so the top-level value switch refuses them |
| OperationIds.OperationOf | Source/IppServer/Processing/Operation.cs:27-46 | the `(Operation)` cast finds an operation only for a declared code, and that operation has the number as its code |
| OperationIds.OperationCodes | Source/IppServer/Processing/Operation.cs:27-46 | every operation is found again from its code, which lies in 0x02..0x12 and fits 16 bits |
| OperationIds.CodeFifteenUndeclared | Source/IppServer/Processing/Operation.cs:27-46 | code 0x0F names no operation although it lies inside the range |
| StatusCodes.StatusOf | Source/IppServer/ServerErrorStatusCode.cs:27-43 | a status is found only for a declared code, and that status has the number as its code |
| StatusCodes.StatusCodeFacts | Source/IppServer/ServerErrorStatusCode.cs:27-43 | every status is found again from its code and fits 16 bits; the success class is exactly codes 0-2; client and server errors lie in 0x0400 and 0x0500..0x0509 |
| StatusMessages.AsWrittenMessageSwapped | Source/IppServer/StatusCodes.cs:32-33 | the table as written gives successful-ok-conflicting-attributes the keyword of the other code, not its own |
| StatusMessages.GetMessageIsKeyword | Source/IppServer/StatusCodes.cs:29-50 | with the pair put back, every status code's message is its own name in lower case with `-` for `_` |
| StatusMessages.GetMessageAgreesElsewhere | Source/IppServer/StatusCodes.cs:29-50 | apart from the exchanged pair, the corrected table equals the table as written |
| StatusMessages.ExchangedCode | Source/IppServer/StatusCodes.cs:31-44 | the corrected message of a code is the as-written message of the code it was exchanged with, and only the two successful-ok-* codes are moved |
| StatusMessages.MessageIdentifiesCode | Source/IppServer/StatusCodes.cs:29-45 | each message of the table as written determines the code it belongs to |
| StatusMessages.MessagesDistinct | Source/IppServer/StatusCodes.cs:29-45 | two different codes never share a message, in the table as written or in the corrected one, so the map is injective |
| StringCodec.Encode | Source/IppServer/Values/IppString.cs:38-47 | the encoding is the 16-bit length followed by the bytes, and the length field holds the length when it fits |
| StringCodec.DecodeAsWritten | Source/IppServer/Values/IppString.cs:49-59 | as written, a negative length field reads an empty string and moves the offset backwards |
| StringCodec.AsWrittenRewinds | Source/IppServer/Values/IppString.cs:49-59 | concretely, the length field 0xFFFB yields an empty string and an offset of -3 |
| StringCodec.Decode | Source/IppServer/Values/IppString.cs:49-59 | the corrected reader succeeds exactly when the length field is non-negative and the bytes fit; the result is the slice after the length field, and a negative length is its own error |
| StringCodec.DecodeAgreesWithAsWritten | Source/IppServer/Values/IppString.cs:49-59 | for every non-negative length field the corrected reader and the reader as written agree, in success and in result |
| StringCodec.RoundTrip | Source/IppServer/Values/IppString.cs:38-59 | reading an encoded string of at most 32767 bytes gives the string and the offset past it |
| StringCodec.TooLongDoesNotRoundTrip | Source/IppServer/Values/IppString.cs:38-59 | a string of 32768 bytes is written with a negative length field and does not read back |
| Scalars.EncodeInteger | Source/IppServer/Values/IppInt.cs:46-55 | an integer is six bytes with length field 4 |
| Scalars.DecodeInteger | Source/IppServer/Values/IppInt.cs:37-44 | reading an integer succeeds exactly when six bytes remain, and moves the offset by six |
| Scalars.IntegerRoundTrip | Source/IppServer/Values/IppInt.cs:37-55 | reading an encoded integer (or enum) gives it back |
| Scalars.EncodeBoolean | Source/IppServer/Values/IppBool.cs:37-44 | a boolean is three bytes with length field 1 and a non-zero value byte exactly for true |
| Scalars.DecodeBoolean | Source/IppServer/Values/IppBool.cs:46-53 | reading a boolean succeeds exactly when three bytes remain; any non-zero value byte is true |
| Scalars.BooleanRoundTrip | Source/IppServer/Values/IppBool.cs:37-53 | reading an encoded boolean gives it back |
| Scalars.EncodeRangeAsWritten | Source/IppServer/Values/IppIntegerRange.cs:18-32 | as written, the range is ten bytes whose last four are zero whatever the bounds |
| Scalars.RangeAsWrittenIsTurned | Source/IppServer/Values/IppIntegerRange.cs:18-32 | the range lower..upper as written has the bytes of the corrected range upper..0 |
| Scalars.RangeAsWrittenRoundTrip | Source/IppServer/Values/IppIntegerRange.cs:18-42 | reading back a range as written gives the upper bound as the lower one and zero as the upper one |
| Scalars.RangeAsWrittenLosesBounds | Source/IppServer/Values/IppIntegerRange.cs:27-28 | the range 1..100 as written reads back as 100..0 |
| Scalars.EncodeRange | Source/IppServer/Values/IppIntegerRange.cs:18-32 | the corrected range is ten bytes with length field 8 |
| Scalars.DecodeRange | Source/IppServer/Values/IppIntegerRange.cs:34-42 | reading a range succeeds exactly when ten bytes remain |
| Scalars.RangeRoundTrip | Source/IppServer/Values/IppIntegerRange.cs:18-42 | reading a range written by the corrected encoder gives both bounds back |
| Scalars.EncodeResolution | Source/IppServer/Values/IppResolution.cs:42-45 | encoding a resolution always throws not-implemented |
| Scalars.DecodeResolution | Source/IppServer/Values/IppResolution.cs:47-62 | reading a resolution succeeds exactly when eleven bytes remain; the units byte is the last |
| Scalars.ResolutionFields | Source/IppServer/Values/IppResolution.cs:47-62 | the cross-feed, feed and units read are the fields laid out after the length |
| LangStringCodec.Encode | Source/IppServer/Values/IppLangString.cs:49-63 | the outer length counts both inner strings and their length fields, and the encoding is that length followed by the two encoded strings |
| LangStringCodec.Decode | Source/IppServer/Values/IppLangString.cs:40-47 | a successful read ends after both strings, and the language is the bytes after the inner length field |
| LangStringCodec.DecodeAsWrittenReads | Source/IppServer/Values/IppLangString.cs:40-47 | as written, the offset moves past the outer length by the two raw inner lengths L and T plus four, backwards when they are negative; a length below 1 reads as the empty string, and otherwise the language and text are the L and T bytes after their length fields |
| LangStringCodec.DecodeAgreesWithAsWritten | Source/IppServer/Values/IppLangString.cs:40-47 | unless the corrected reader refuses a negative length, it and the reader as written agree |
| LangStringCodec.RoundTrip | Source/IppServer/Values/IppLangString.cs:40-63 | reading an encoded language-tagged string gives language and text back |
| DateTimeCodec.Encode | Source/IppServer/Values/IppDateTime.cs:36-55 | a date is thirteen bytes: length 11, the fields, the milliseconds in tenths, and the offset "+0 hours" |
| DateTimeCodec.OffsetHours | Source/IppServer/Values/IppDateTime.cs:66-67 | only a '+' direction byte gives a non-negative offset |
| DateTimeCodec.Decode | Source/IppServer/Values/IppDateTime.cs:57-73 | a short buffer throws; a date read moves the offset by 13 and carries no milliseconds |
| DateTimeCodec.DecodeSpec | Source/IppServer/Values/IppDateTime.cs:57-73 | a read succeeds exactly for a valid local date with an offset of at most fourteen hours whose UTC instant is in range; it yields that instant with minutes and seconds kept |
| DateTimeCodec.RoundTrip | Source/IppServer/Values/IppDateTime.cs:36-73 | reading an encoded UTC date gives it back with its milliseconds dropped |
| Calendar.NextDay | Source/IppServer/Values/IppDateTime.cs:72 | the following calendar day is a valid date with the same time of day, and only 9999-12-31 has none |
| Calendar.NextDayCounts | Source/IppServer/Values/IppDateTime.cs:72 | the following day is one day later in the day count since 0001-01-01, and it is missing exactly when that count would reach the end of year 9999 |
| Calendar.PreviousDay | Source/IppServer/Values/IppDateTime.cs:72 | the preceding calendar day is a valid date with the same time of day, and only 0001-01-01 has none |
| Calendar.PreviousDayCounts | Source/IppServer/Values/IppDateTime.cs:72 | the preceding day is one day earlier in the day count, and it is missing exactly when the count is zero |
| Calendar.ToUtc | Source/IppServer/Values/IppDateTime.cs:72 | conversion to UTC keeps minutes, seconds and milliseconds, and its only failure is an invalid date |
| Calendar.ToUtcShifts | Source/IppServer/Values/IppDateTime.cs:72 | conversion to UTC subtracts the offset in whole hours, and fails exactly when the shifted instant leaves the range of DateTime |
| Values.EncodeValue | Source/IppServer/Values/IppCollection.cs:33-36 | every value but a resolution or a collection encodes to at least its length field; those two throw not-implemented |
| Values.DecodeValue | Source/IppServer/Processing/IppDecoder.cs:88-131 | an undeclared tag throws; the out-of-band tags skip two bytes and yield nothing; any other tag yields a value of the class that tag selects, with collections keyed without repeats |
| Values.DecodeCollection | Source/IppServer/Values/IppCollection.cs:38-69 | a collection read has distinct keys at every depth |
| Values.DecodeMembers | Source/IppServer/Values/IppCollection.cs:38-69 | each member read extends the members so far, keeping the keys distinct |
| Values.ValueRoundTrip | Source/IppServer/Processing/IppDecoder.cs:88-131 | reading a value written by the corrected encoder under a tag it fits gives the value back and the offset past it |
| Values.EncodeValueAsWritten | Source/IppServer/Values/IppIntegerRange.cs:18-32 | as written, a value encodes exactly when the corrected encoding does, and the two differ only for a range |
| Values.TurnedUnchanged | Source/IppServer/Values/IppIntegerRange.cs:27-28 | the program's range layout changes what a value stands for exactly when it is a range other than 0..0 |
| Values.TurnedWellFormed | Source/IppServer/Values/IppIntegerRange.cs:18-32 | a turned value fits its tag, stays bounded and encodes exactly when the value does |
| Values.EncodeAsWrittenTurns | Source/IppServer/Values/IppIntegerRange.cs:18-32 | the program's bytes for a value are the corrected encoding of the value with a range lower..upper turned to upper..0 |
| Values.ValueRoundTripAsWritten | Source/IppServer/Processing/IppDecoder.cs:88-131 | what the program writes for a value reads back as the value, except that a range lower..upper comes back as upper..0 |
| Model.NewAttribute | Source/IppServer/Models/IppAttribute.cs:31-38 | an attribute is built exactly when its name is not blank, keeping tag, name and values |
| Model.OperationAttributesGroup | Source/IppServer/Models/IppGroup.cs:44-53 | the operation group holds attributes-charset "utf-8" then attributes-natural-language "en-us" |
| Model.OperationAttributesGroupWellFormed | Source/IppServer/Models/IppGroup.cs:44-53 | the operation group is well formed: a group delimiter, non-blank names, and values that fit their tags |
| Model.NewResponse | Source/IppServer/Models/IppResponse.cs:32-36 | a new response is version 1.1 with the status, the request id and no groups |
| Model.ErrorResponse | Source/IppServer/Models/IppResponse.cs:38-44 | an error response is version 1.1 with the status, the request id and the operation group alone |
| Model.SuccessResponse | Source/IppServer/Models/IppResponse.cs:46-52 | a success response is the error response of successful-ok, and its status is in the success class |
| MessageCodec.AddEntry | Source/IppServer/Processing/IppDecoder.cs:63-77 | a named entry appends a new attribute; an unnamed entry adds its value to the last attribute; an unnamed entry with no attribute before it, or an out-of-band value, leaves the attributes unchanged |
| MessageCodec.DecodedNamesValid | Source/IppServer/Processing/IppDecoder.cs:61-80 | every attribute the inner loop builds has a non-blank name |
| MessageCodec.DecodeAttributes | Source/IppServer/Processing/IppDecoder.cs:56-80 | the inner loop stops on a delimiter tag, at or after where it started |
| MessageCodec.DecodeGroups | Source/IppServer/Processing/IppDecoder.cs:49-83 | groups are only appended, and the loop ends on end-of-attributes or at the end of the buffer |
| MessageCodec.Decode | Source/IppServer/Processing/IppDecoder.cs:33-86 | fewer than nine bytes throw; the header fields are read big-endian from bytes 0-7; the first group carries the tag at byte 8 |
| MessageCodec.EncodeValues | Source/IppServer/Processing/IppEncoder.cs:53-65 | an attribute encodes exactly when all its values do |
| MessageCodec.EncodeAttributes | Source/IppServer/Processing/IppEncoder.cs:53-65 | a group's attributes encode exactly when all their values do |
| MessageCodec.EncodeGroups | Source/IppServer/Processing/IppEncoder.cs:49-66 | the groups encode exactly when each group's attributes do, with at least a tag byte per group |
| MessageCodec.EncodeHeader | Source/IppServer/Processing/IppEncoder.cs:35-47 | the header is the versions cut to a byte, then status and request id that read back big-endian |
| MessageCodec.EncodeResponse | Source/IppServer/Processing/IppEncoder.cs:33-71 | a response encodes exactly when its groups do; it starts with the header and ends with end-of-attributes |
| MessageRoundTrip.WellFormedEncodes | Source/IppServer/Processing/IppEncoder.cs:49-66 | groups of well-formed attributes always encode |
| MessageRoundTrip.GroupsRoundTrip | Source/IppServer/Processing/IppDecoder.cs:49-83 | the decoder's group loop reads encoded well-formed groups back as the same groups |
| MessageRoundTrip.MessageRoundTrip | Source/IppServer/Processing/IppDecoder.cs:33-86 | decoding a well-formed response written with the corrected range layout gives its version cut to bytes, its status code, its request id and its groups |
| EncoderAsWritten.EncodeEntry | Source/IppServer/Processing/IppEncoder.cs:58-63 | the program's bytes for an entry are the corrected encoding of the entry with its value turned (a range lower..upper as upper..0) |
| EncoderAsWritten.EncodeValues | Source/IppServer/Processing/IppEncoder.cs:53-65 | the program's bytes for an attribute's values are the corrected encoding of the turned values |
| EncoderAsWritten.EncodeAttributes | Source/IppServer/Processing/IppEncoder.cs:53-65 | the program's bytes for a group's attributes are the corrected encoding of the attributes with their values turned |
| EncoderAsWritten.EncodeGroups | Source/IppServer/Processing/IppEncoder.cs:49-66 | the program's bytes for the groups are the corrected encoding of the turned groups |
| EncoderAsWritten.EncodeResponse | Source/IppServer/Processing/IppEncoder.cs:33-71 | the program's bytes for a response are the corrected encoding of the response with its groups turned |
| EncoderAsWritten.TurnedGroupsWellFormed | Source/IppServer/Processing/IppEncoder.cs:49-66 | turning keeps well-formed groups well formed |
| EncoderAsWritten.RoundTrip | Source/IppServer/Processing/IppEncoder.cs:33-71 | what the program writes for a well-formed response reads back with its version cut to bytes, its status code and request id, and each range lower..upper as upper..0 |
| EncoderAsWritten.TurnedGroupsUnchanged | Source/IppServer/Values/IppIntegerRange.cs:27-28 | turning leaves groups as they are exactly when every value is left as it is, that is, every range is 0..0 |
| EncoderAsWritten.RangeFreeRoundTrip | Source/IppServer/Processing/IppEncoder.cs:33-71 | without ranges the program writes what the corrected encoder writes, and the response reads back with its groups unchanged |
| DecoderAsWritten.DecodeFixed | Source/IppServer/Values/IppInt.cs:37-44 | at a non-negative offset the fixed-width readers are the corrected ones; below -2 their first read, at the offset plus two, throws |
| DecoderAsWritten.DecodeValue | Source/IppServer/Processing/IppDecoder.cs:88-131 | as written, an undeclared tag throws, the out-of-band tags skip two bytes and yield nothing, and only a declared tag yields a value |
| DecoderAsWritten.DecodeMembers | Source/IppServer/Values/IppCollection.cs:38-69 | as written, the member loop only extends the members, and an offset outside the buffer throws |
| DecoderAsWritten.ReadEntry | Source/IppServer/Processing/IppDecoder.cs:63-79 | as written, an entry is read only under a declared value tag and leaves the offset of the next tag inside the buffer |
| DecoderAsWritten.DecodeAttributes | Source/IppServer/Processing/IppDecoder.cs:61-80 | as written, the inner loop stops only on a delimiter tag |
| DecoderAsWritten.DecodeGroups | Source/IppServer/Processing/IppDecoder.cs:49-83 | as written, groups are only appended, and the loop ends on end-of-attributes or at or past the end of the buffer |
| DecoderAsWritten.Decode | Source/IppServer/Processing/IppDecoder.cs:33-86 | as written, fewer than nine bytes throw, and the version is bytes 0 and 1 |
| DecoderAsWritten.ValueAgrees | Source/IppServer/Processing/IppDecoder.cs:88-131 | with enough fuel, a value is read as the corrected reader reads it, unless that refuses a negative length |
| DecoderAsWritten.MembersAgree | Source/IppServer/Values/IppCollection.cs:38-69 | with enough fuel, the member loop reads as the corrected one, unless that refuses a negative length |
| DecoderAsWritten.AttributesAgree | Source/IppServer/Processing/IppDecoder.cs:61-80 | with enough fuel, the inner loop reads as the corrected one, unless that refuses a negative length |
| DecoderAsWritten.GroupsAgree | Source/IppServer/Processing/IppDecoder.cs:49-83 | with enough fuel, the group loop reads as the corrected one, unless that refuses a negative length |
| DecoderAsWritten.RequestAgrees | Source/IppServer/Processing/IppDecoder.cs:33-86 | with one unit of fuel per byte, the program reads every request as the corrected reader does, except those that reader refuses for a negative length |
| DecoderAsWritten.NegativeNameAccepted | Source/IppServer/Values/IppString.cs:49-59 | a 13-byte request whose name length is -2 reads as one empty operation group in the program, and is refused by the corrected reader |
| DecoderAsWritten.NoValueLoops | Source/IppServer/Processing/IppDecoder.cs:61-79 | the same request with name length -5 never finishes reading in the program, whatever the fuel, and is refused by the corrected reader |
| Printer.NewPrinter | Source/IppServer/Models/IppPrinter.cs:34-39 | a new printer is stopped with no jobs and keeps its name, port and URI |
| Printer.Start | Source/IppServer/Models/IppPrinter.cs:57-61 | starting makes the printer idle (code 3) and keeps its identity and jobs |
| Printer.Stop | Source/IppServer/Models/IppPrinter.cs:63-67 | stopping makes the printer stopped (code 5) and keeps its identity and jobs |
| Printer.AddJob | Source/IppServer/Models/IppPrinter.cs:69-73 | adding a job appends it behind the existing jobs and changes nothing else |
| Printer.ClearJobs | Source/IppServer/Models/IppPrinter.cs:128-131 | clearing empties the queue and changes nothing else |
| Printer.StartStopIdempotent | Source/IppServer/Models/IppPrinter.cs:57-67 | start and stop are idempotent, and each overrides the other |
| Printer.ClearJobsIdempotent | Source/IppServer/Models/IppPrinter.cs:128-131 | clearing twice is clearing once, and clearing forgets an added job |
| Printer.CatalogueNamesDistinct | Source/IppServer/Models/IppPrinter.cs:75-126 | the catalogue has 31 attributes with distinct names |
| Printer.Catalogue | Source/IppServer/Models/IppPrinter.cs:75-126 | the catalogue lists the 31 attribute names in the source's order |
| Printer.CatalogueReflectsIdentity | Source/IppServer/Models/IppPrinter.cs:77-83 | printer-name reports the name; printer-uri-supported and printer-uri report the URI |
| Printer.CatalogueReflectsState | Source/IppServer/Models/IppPrinter.cs:90-121 | printer-state is an enum holding the state's code, and queued-job-count an integer holding the job count |
| Printer.CatalogueReflectsFormats | Source/IppServer/Models/IppPrinter.cs:118 | document-format-supported lists the supported formats in order |
| Printer.CatalogueReflectsClock | Source/IppServer/Models/IppPrinter.cs:123-124 | printer-up-time and printer-current-time report the clock passed in |
| Printer.CatalogueValues | Source/IppServer/Models/IppPrinter.cs:75-126 | with at least one format, every catalogue attribute has a value |
| Printer.AttributesFollowState | Source/IppServer/Models/IppPrinter.cs:75-126 | two printers with the same name and URI have catalogues that differ only in printer-state and queued-job-count |
| Printer.QueuedJobCount | Source/IppServer/Models/IppPrinter.cs:121 | queued-job-count is the number of jobs, one more after a job is added and zero after clearing |
| Printer.OperationsSupported | Source/IppServer/Models/IppPrinter.cs:94-111 | operations-supported lists 15 distinct operations: every operation but Send-URI |
| Projection.FirstWhere | Source/IppServer/Extensions/PrinterAttributesResponseExtensions.cs:51-59 | `FirstOrDefault` finds the first element that satisfies the predicate, and finds none only when no element satisfies it; it serves for the first operation group and the first requested-attributes entry |
| Projection.StringsOf | Source/IppServer/Extensions/PrinterAttributesResponseExtensions.cs:61-63 | the string values of an attribute, in order, and only those |
| Projection.RequestedAttributesFound | Source/IppServer/Extensions/PrinterAttributesResponseExtensions.cs:49-64 | the names requested are the strings of the first requested-attributes of the first operation group |
| Projection.RequestedAttributesAbsent | Source/IppServer/Extensions/PrinterAttributesResponseExtensions.cs:49-64 | without an operation group, or without requested-attributes in it, nothing is requested |
| Projection.Supported | Source/IppServer/Extensions/PrinterAttributesResponseExtensions.cs:19 | the supported entries are exactly the catalogue entries whose name was requested, in catalogue order |
| Projection.Missing | Source/IppServer/Extensions/PrinterAttributesResponseExtensions.cs:17-18 | the missing names are exactly the requested names absent from the catalogue, in request order, each as often as requested |
| Projection.UnsupportedEntry | Source/IppServer/Extensions/PrinterAttributesResponseExtensions.cs:24-27 | an unsupported entry is built exactly for a non-blank name |
| Projection.UnsupportedGroup | Source/IppServer/Extensions/PrinterAttributesResponseExtensions.cs:21-28 | the unsupported group holds one "unsupported" entry per missing name, and fails with a blank-name error exactly when a name is blank |
| Projection.AllResponse | Source/IppServer/Extensions/PrinterAttributesResponseExtensions.cs:39-47 | the all-attributes response is successful-ok with the operation group and then the whole catalogue |
| Projection.SelectedResponse | Source/IppServer/Extensions/PrinterAttributesResponseExtensions.cs:17-36 | the selected response is the operation group, the supported entries and the unsupported names, and it fails exactly when a missing name is blank |
| Projection.AttributesResponseShape | Source/IppServer/Extensions/PrinterAttributesResponseExtensions.cs:8-47 | any successful answer is successful-ok, echoes the request id and opens with the operation group and then the printer group |
| Projection.AllAttributes | Source/IppServer/Extensions/PrinterAttributesResponseExtensions.cs:13-15 | no names, or "all" in any letter case, yields the whole catalogue and no unsupported group |
| Projection.SelectedAttributes | Source/IppServer/Extensions/PrinterAttributesResponseExtensions.cs:17-36 | otherwise the printer group is the requested entries in catalogue order and the unsupported group is the missing names |
| Projection.NameSorted | Source/IppServer/Extensions/PrinterAttributesResponseExtensions.cs:17-19 | a requested name is supported when the catalogue carries it and missing otherwise, never both |
| Projection.EveryNameAnswered | Source/IppServer/Extensions/PrinterAttributesResponseExtensions.cs:17-36 | every requested name appears in exactly one of the printer group and the unsupported group |
| Projection.MissingNoneBlank | Source/IppServer/Extensions/PrinterAttributesResponseExtensions.cs:17-28 | with a catalogue free of blank names, the missing names are free of blanks exactly when the requested ones are |
| Projection.AttributesResponseFails | Source/IppServer/Extensions/PrinterAttributesResponseExtensions.cs:8-36 | with such a catalogue, the answer fails exactly when "all" is not asked for and a requested name is blank |
| PrintJobOperation.CountTaggedZero | Source/IppServer/Operations/PrintJobOperation.cs:37 | no group carries the tag exactly when the count of groups with that tag is zero |
| PrintJobOperation.SingleGroup | Source/IppServer/Operations/PrintJobOperation.cs:37 | `Single` succeeds exactly when one group has the tag, and returns that group |
| PrintJobOperation.FirstString | Source/IppServer/Operations/PrintJobOperation.cs:41-46 | the name is read only from a first value that is a string |
| PrintJobOperation.NamedString | Source/IppServer/Operations/PrintJobOperation.cs:41-46 | a string found is the first value of an attribute with that name |
| PrintJobOperation.DefaultJobName | Source/IppServer/Operations/PrintJobOperation.cs:39 | the default job name is "Job " followed by the decimal rendering of the counter, which reads back as the counter |
| PrintJobOperation.JobName | Source/IppServer/Operations/PrintJobOperation.cs:39-46 | the job is named by job-name when it is a string, and by the default name otherwise |
| PrintJobOperation.JobGroup | Source/IppServer/Operations/PrintJobOperation.cs:62-74 | the job group holds job-uri (printer URI, "/", id), job-id, job-state and job-state-reasons |
| PrintJobOperation.JobStateMistagged | Source/IppServer/Operations/PrintJobOperation.cs:69-71 | job-state is not a well-formed attribute, since a string under the enum tag is read back as an enum after six of its nine bytes; job-state-reasons is well formed |
| PrintJobOperation.Run | Source/IppServer/Operations/PrintJobOperation.cs:33-74 | the handler fails exactly when there is not exactly one operation group; on success the counter advances by one, also when the format is refused; the response echoes the id and opens with the operation group; the printer keeps identity and state |
| PrintJobOperation.FormatRefused | Source/IppServer/Operations/PrintJobOperation.cs:48-57 | an unsupported document-format is answered client-error-bad-request and queues nothing |
| PrintJobOperation.JobQueued | Source/IppServer/Operations/PrintJobOperation.cs:59-74 | an accepted job is queued under its name and answered successful-ok with the job group |
| PrintJobOperation.JobIdOffByOne | Source/IppServer/Operations/PrintJobOperation.cs:39-67 | as written, the job named "Job n" is reported with job-id n + 1 |
| PrintJobOperation.FirstJobAsWritten | Source/IppServer/Operations/PrintJobOperation.cs:39-67 | as written, the first job is named "Job 1" and reported as job 2 |
| PrintJobOperation.JobIdMatchesName | Source/IppServer/Operations/PrintJobOperation.cs:39-67 | corrected, the job id, the number in the default name and the number in job-uri agree |
| PrintJobOperation.ConsecutiveJobIds | Source/IppServer/Operations/PrintJobOperation.cs:33-39 | two accepted jobs in a row get consecutive ids and both are queued |
| Service.InitialPrinter | Source/IppServer/Processing/IppPrinterService.cs:36 | the service's printer is "MyPrinter" on port 1234, stopped, with no jobs |
| Service.Process | Source/IppServer/Processing/IppPrinterService.cs:39-83 | a request never changes the printer's identity; every answer echoes the request id, is version 1.1 and opens with the operation group |
| Service.SuccessExactlyWhenServed | Source/IppServer/Processing/IppPrinterService.cs:39-82 | the answer is successful-ok exactly for an admitted request of one of the four served operations; only Get-Printer-Attributes can fail |
| Service.RefusedRequests | Source/IppServer/Processing/IppPrinterService.cs:41-45 | request id 0 gives client-error-bad-request with id 0; a major version above 2 gives server-error-version-not-supported |
| Service.MinorVersionIgnored | Source/IppServer/Processing/IppPrinterService.cs:41-45 | the minor version plays no part: two requests that differ only in it get the same reply and the same printer |
| Service.PrinterChangesOnlyWhenAsked | Source/IppServer/Processing/IppPrinterService.cs:49-81 | only Purge-Jobs, Pause-Printer and Resume-Printer change the printer |
| Service.NotSupported | Source/IppServer/Processing/IppPrinterService.cs:68-81 | every other operation gets server-error-operation-not-supported and changes nothing |
| Service.PrintJobNotSupported | Source/IppServer/Processing/IppPrinterService.cs:68-81 | Print-Job is among those not supported |
| Service.PurgeJobsClears | Source/IppServer/Processing/IppPrinterService.cs:53-57 | Purge-Jobs empties the queue, keeps the state, and a second purge changes nothing |
| Service.PauseAndResume | Source/IppServer/Processing/IppPrinterService.cs:58-67 | Pause-Printer stops the printer and Resume-Printer makes it idle, whatever came before; the jobs are kept |
| Service.AttributesReportState | Source/IppServer/Processing/IppPrinterService.cs:49-52 | Get-Printer-Attributes for all attributes reports the whole current catalogue, with the current state |
| Legacy.InitialPrinter | Source/IppServer/IppPrinterService.cs:35 | the legacy service's printer has the URI "ipp:/something/else", is stopped, and has no jobs |
| Legacy.CatalogueIgnoresUri | Source/IppServer/IppPrinter.cs:72-73 | the legacy catalogue reports the fixed URI, not its printer's own |
| Legacy.AnsweredOperations | Source/IppServer/IppPrinterService.cs:48-58 | the operations answered with attributes are exactly the ten from Print-Job to Get-Printer-Attributes |
| Legacy.LegacyDispatch | Source/IppServer/IppPrinterService.cs:38-68 | an admitted request for one of the ten gets the attribute projection; any other gets operation-not-supported |
| Legacy.ServicesDiffer | Source/IppServer/IppPrinterService.cs:46-67 | Pause, Resume and Purge are served by the Models service but refused here; Print-Job is refused there but answered here |
| Legacy.SetVersion | Source/IppServer/IppResponse.cs:37-38 | setting the version changes only the version |
| Legacy.VersionTruncated | Source/IppServer/IppUtilities.cs:32-126 | a response written and read back by the legacy codec has its version cut to bytes, keeps its status code and id, and keeps its groups except that each range lower..upper comes back as upper..0 |
| Legacy.ErrorResponseRoundTrip | Source/IppServer/IppPrinterService.cs:131-148 | every error response reads back as version 1.1 with its status, its id and the operation group |

## Left out

- Networking, `Task` and async plumbing, and console output are not modelled. A request arrives as a decoded value and a response leaves as bytes.
- Strings are treated as ASCII bytes, so there is no UTF-8 transcoding.
  - `Text.EqualsIgnoreCase` folds only A-Z, where the source uses invariant-culture comparison.
  - `IsBlank` counts only ASCII white space.
- The clock is an input. Printer up-time and current time are passed in as a `Printer.Clock`, because the source reads the system clock.
- Printer state codes (idle 3, processing 4, stopped 5) follow section 5.4.11 of RFC 8011. The `PrinterState` enum file is not part of this model.
- The static job counter of `PrintJobOperation` is modelled as a value passed in and returned. Concurrent handlers racing on it are not modelled.
- `IppResolution.Encode` and `IppCollection.Encode` throw `NotImplementedException` in the source. Here they are `Err(NotImplemented)`, so responses carrying them never encode.
- The legacy `Tag`, `IppAttribute`, `IppGroup`, `IppCollection` and `IppIntegerRange` of `IppUtilities.cs` have the same byte layout as the `Values` and `Models` versions, so the legacy codec is modelled by the same functions.
- Duplicate keys in a collection make `Dictionary.Add` throw. The decoder models this as an error, not as last-writer-wins.
- An additional value (an entry with an empty name) that arrives before any attribute of its group is dropped, as the null-conditional add does.
- `PrintJobOperation` is not reachable from `Processing/IppPrinterService.cs`, whose switch answers Print-Job as not supported. `Service.PrintJobNotSupported` states this, and the handler is modelled on its own in `PrintJobOperation`.
- PrintJobOperation.JobGroup: its contract names job-state and job-state-reasons without stating their values. The source sends job-state with the enum tag but a string value "pending" (it leaves a TODO there), and `PrintJobOperation.JobStateMistagged` states the consequence.
- `MessageRoundTrip.MessageRoundTrip` requires well-formed groups. Strings must fit the 16-bit length field, dates must carry no milliseconds, and there must be no resolution or collection value, since those cannot be written.
- `DateTimeCodec.Decode` follows the `DateTimeOffset` range and offset checks as an `InvalidDateTime` error. It does not distinguish which .NET exception is thrown.
- DateTimeCodec.Encode: takes a UTC date, the only kind this server creates. For a local-kind date the source writes the year before converting to UTC and the other fields after, which is not modelled.
- Calendar: days are counted in the proleptic Gregorian calendar of `System.DateTime` (years 1-9999). Leap seconds and the local time zone play no part, since the decoder converts to UTC.
- Values.DecodeValue: reads strings with the corrected `StringCodec.Decode`, which refuses a negative length where the program reads an empty string and moves back. `DecoderAsWritten.DecodeValue` is the program's reader, and `DecoderAsWritten.ValueAgrees` states where the two agree.
- Values.DecodeCollection: refuses a negative key length, as `Values.DecodeValue` does. The program's member loop is `DecoderAsWritten.DecodeMembers`.
- Values.DecodeMembers: refuses a negative key length, as `Values.DecodeValue` does. `DecoderAsWritten.MembersAgree` states where it agrees with the program's loop.
- LangStringCodec.Decode: refuses a negative inner length. `LangStringCodec.DecodeAsWritten` is the program's reader.
- MessageCodec.DecodeAttributes: refuses a negative name or value length. `DecoderAsWritten.DecodeAttributes` is the program's loop, and `DecoderAsWritten.AttributesAgree` states where the two agree.
- MessageCodec.DecodeGroups: refuses a negative length inside a group. `DecoderAsWritten.DecodeGroups` is the program's loop.
- MessageCodec.Decode: refuses a request with a negative length, which the program reads as `DecoderAsWritten.Decode` does or never finishes reading (`DecoderAsWritten.NoValueLoops`). `DecoderAsWritten.RequestAgrees` states that the two agree on every other request.
- DecoderAsWritten.Decode: the program's loops need not end, so every loop turn spends one unit of fuel and `OutOfFuel` stands for a read the program never finishes. With more fuel than bytes, only requests the corrected reader refuses for a negative length can run out.
- Values.EncodeValue: lays a range out lower bound first. The program writes the upper bound and then zeros, as `Values.EncodeValueAsWritten` does.
- Values.ValueRoundTrip: holds for the corrected range layout. What the program writes reads back as `Values.ValueRoundTripAsWritten` states, with a range lower..upper as upper..0.
- MessageCodec.EncodeResponse: writes ranges lower bound first. The program's writer is `EncoderAsWritten.EncodeResponse`.
- MessageRoundTrip.GroupsRoundTrip: holds for the corrected range layout. For the program's bytes, see `EncoderAsWritten.RoundTrip`.
- MessageRoundTrip.MessageRoundTrip: holds for the corrected range layout. `EncoderAsWritten.RoundTrip` states what the program's bytes read back as, and `EncoderAsWritten.RangeFreeRoundTrip` that without ranges the two coincide.
- Text.Decimal: `Int32.ToString()` takes its minus sign from the current culture. The model always writes `-` (0x2D), as the invariant culture does.

## Findings

| source | as written | input that shows it | evidently intended | confidence | as-written member | corrected member |
|---|---|---|---|---|---|---|
| Source/IppServer/Values/IppIntegerRange.cs:27-28 | writes the upper bound where the lower belongs and leaves the upper bytes zero | the range 1..100 reads back as 100..0 | lower bound then upper bound, each 32 bits big-endian | high, not executed | Scalars.RangeAsWrittenLosesBounds | Scalars.RangeRoundTrip |
| Source/IppServer/Values/IppString.cs:49-59 | a negative 16-bit length yields an empty string and moves the offset back | the request `01 01 00 0B 00 00 00 01 01 13 FF FE 03` (name length -2) reads as one empty operation group | refuse a negative length | medium, not executed | DecoderAsWritten.NegativeNameAccepted | StringCodec.Decode |
| Source/IppServer/Processing/IppDecoder.cs:61-79 | after a name length of -5 the offset moves back three bytes, the no-value entry skips two, and the loop reads the same tag again | the request `01 01 00 0B 00 00 00 01 01 13 FF FB 03` is never finished | refuse the request, so that every read ends | high, not executed | DecoderAsWritten.NoValueLoops | MessageCodec.Decode |
| Source/IppServer/StatusCodes.cs:32-33 | the two SUCCESSFUL_OK_* entries are exchanged | successful-ok-conflicting-attributes (0x0002) maps to "successful-ok-ignored-or-substituted-attributes" | each code maps to its own keyword | high, not executed | StatusMessages.AsWrittenMessageSwapped | StatusMessages.GetMessageIsKeyword |
| Source/IppServer/Operations/PrintJobOperation.cs:39-67 | the default name uses the counter before it is incremented, and job-id and job-uri use it after | the first job is named "Job 1" but reported with job-id 2 | one number for name, job-id and job-uri | medium, not executed | PrintJobOperation.JobIdOffByOne | PrintJobOperation.JobIdMatchesName |
