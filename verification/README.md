# LogChatMessageSerializer, modelled in Dafny

AdvancedChatLog keeps a log of chat messages per day. Its
`LogChatMessageSerializer` turns one logged message into a Gson
`JsonObject` and back. A logged message is a chat message (its time of day,
its stack count of collapsed duplicates, its display text and its original
text) together with the date of the log file it belongs to. The serializer
also defines two helpers for styled text:

- `cleanStyle`, which drops the interactive attributes of a style when the
  clean-save setting is on;
- `transfer`, which flattens a text one level deep into literal runs.

This project models those four operations and the ISO local date-time format
they rely on, and proves what they promise.

Files, one module each:

- `wrappers.dfy` (`Wrappers`): `Option` and `Result`, standing for Java's null and exceptions.
- `decimal.dfy` (`Decimal`): digit strings. Zero-padded fields, trailing-zero trimming, `Integer.toString` and `Integer.parseInt`.
- `iso_date_time.dfy` (`IsoDateTime`): `LocalDate`, `LocalTime` and `LocalDateTime` as values. It writes out `DateTimeFormatter.ISO_LOCAL_DATE_TIME` as a formatter and a parser and proves that they round-trip. The format is the extended calendar date and time of day of ISO 8601 (section 4.3.2), with a decimal fraction of the second (section 4.2.2.4).
- `text.dfy` (`TextModel`): Minecraft's `Style` and the text tree. It covers `Text.literal`, `Text.empty`, `fillStyle` (through `Style.withParent`) and `getString`.
- `json.dfy` (`Json`): the Gson elements a record is made of, and `getAsString` and `getAsByte`.
- `serializer.dfy` (`LogChatMessageSerializer`): `cleanStyle`, `transfer`, `save` and `load`, and the lemmas that relate them.

The clean-save setting is a `bool` parameter. The wire text format
(`Text.Serialization.fromJson`, and `toJsonString` for the corrected save
below) is foreign code, so it is passed in as a function. The model follows
the code of this revision. The code has no forced-cleaning retry and no
empty-object fallback on save. `save` does not call `transfer`; nothing in
the file does. `load` reads `stacks` and then drops it. The model does
the same in each case.

## Model

| member | source | states |
|---|---|---|
| LogChatMessageSerializer.CleanStyle | src/main/java/io/github/darkkronicle/advancedchatlog/util/LogChatMessageSerializer.java:34-42 | with clean-save off, the style comes back unchanged; with it on, the click event, hover event and insertion are None and every other attribute equals the input's |
| LogChatMessageSerializer.CleanStyleIdempotent | src/main/java/io/github/darkkronicle/advancedchatlog/util/LogChatMessageSerializer.java:34-41 | for a fixed setting, cleaning twice equals cleaning once |
| LogChatMessageSerializer.Transfer | src/main/java/io/github/darkkronicle/advancedchatlog/util/LogChatMessageSerializer.java:44-52 | the result is an empty root with as many runs as the input has top-level children, in order; run i is a childless literal holding child i's whole getString (nested children included), styled with cleanStyle of child i's style; no children gives an empty root |
| LogChatMessageSerializer.TransferKeepsString | src/main/java/io/github/darkkronicle/advancedchatlog/util/LogChatMessageSerializer.java:46-51 | the flattened text reads as the input minus the root's own string: input content + getString(result) == getString(input) |
| LogChatMessageSerializer.TransferIdempotent | src/main/java/io/github/darkkronicle/advancedchatlog/util/LogChatMessageSerializer.java:44-52 | flattening an already flattened text gives it back unchanged |
| LogChatMessageSerializer.Save | src/main/java/io/github/darkkronicle/advancedchatlog/util/LogChatMessageSerializer.java:74-83 | the object has exactly the members time, stacks, display and original; time is the ISO text of the date combined with the message time, stacks the stack count, display and original the raw texts through Gson's reflective adapter, not flattened or cleaned |
| LogChatMessageSerializer.SaveWireText | src/main/java/io/github/darkkronicle/advancedchatlog/util/LogChatMessageSerializer.java:78-81 | as save, but each text is written as the wire format's JSON string (the corrected save of the finding below) |
| LogChatMessageSerializer.ReadString | src/main/java/io/github/darkkronicle/advancedchatlog/util/LogChatMessageSerializer.java:57 | getAsString succeeds exactly when the member is present and a primitive, and then gives its text |
| LogChatMessageSerializer.ReadText | src/main/java/io/github/darkkronicle/advancedchatlog/util/LogChatMessageSerializer.java:61-62 | a text is read exactly when the member's string reads and the wire format accepts it, and is what the wire format gives; otherwise the string's own error, or BadText when the wire format rejects it |
| LogChatMessageSerializer.ReadStacks | src/main/java/io/github/darkkronicle/advancedchatlog/util/LogChatMessageSerializer.java:63 | the stack count is read exactly when the member is present and getAsByte accepts it, and is getAsByte's value; a missing member gives MissingField, an unreadable one BadStacks |
| LogChatMessageSerializer.Load | src/main/java/io/github/darkkronicle/advancedchatlog/util/LogChatMessageSerializer.java:55-71 | load succeeds exactly when the time reads and parses, both texts read and the stack count reads; otherwise the error is that of the first of time, display, original, stacks to fail; on success the date and time recombine to exactly the parsed date-time, the texts are what the wire format gives, and the stack count is the builder's default whatever the object says |
| LogChatMessageSerializer.ReadDateTime | src/main/java/io/github/darkkronicle/advancedchatlog/util/LogChatMessageSerializer.java:57 | the date-time is read exactly when the time member reads as a string and parses, and is the parsed value; otherwise the string's own error, or BadDateTime with the text |
| LogChatMessageSerializer.LoadIgnoresStacks | src/main/java/io/github/darkkronicle/advancedchatlog/util/LogChatMessageSerializer.java:63-69 | replacing the stored stack count by any other readable one leaves the loaded result unchanged |
| LogChatMessageSerializer.SavedTimeParses | src/main/java/io/github/darkkronicle/advancedchatlog/util/LogChatMessageSerializer.java:57-59 | the time member save writes is read back and parsed to the saved date combined with the saved time |
| LogChatMessageSerializer.LoadAfterSaveFails | src/main/java/io/github/darkkronicle/advancedchatlog/util/LogChatMessageSerializer.java:61 | for every valid record, loading what save wrote fails with NotAString("display") |
| LogChatMessageSerializer.LoadAfterSaveWireText | src/main/java/io/github/darkkronicle/advancedchatlog/util/LogChatMessageSerializer.java:55-70 | when the wire format round-trips both texts, loading what the corrected save wrote gives the record's date, time, display and original, with the default stack count instead of the saved one |
| IsoDateTime.Parse | src/main/java/io/github/darkkronicle/advancedchatlog/util/LogChatMessageSerializer.java:57 | ISO_LOCAL_DATE_TIME's parse: a text is accepted exactly when it is a date text, a 'T' or 't', and a time text; the result is the date and time those read, and is valid |
| IsoDateTime.ParseDate | src/main/java/io/github/darkkronicle/advancedchatlog/util/LogChatMessageSerializer.java:57 | a text is accepted exactly when it is YYYY-MM-DD in digits and names a real calendar date (month 1 to 12, day within the month, Gregorian leap years); the date is the digits read |
| IsoDateTime.ParseTime | src/main/java/io/github/darkkronicle/advancedchatlog/util/LogChatMessageSerializer.java:57 | hh:mm, then optionally :ss and a fraction, is accepted when hour < 24 and minute, second < 60; hour, minute and second are the digits read, missing seconds read as 0, and the nanoseconds are the fraction's |
| IsoDateTime.ParseFraction | src/main/java/io/github/darkkronicle/advancedchatlog/util/LogChatMessageSerializer.java:57 | accepted exactly when empty or a point and at most nine digits; the value is the digits times 10^(9-k) for k digits (empty or a lone point gives 0), below one second |
| IsoDateTime.ParseFormat | src/main/java/io/github/darkkronicle/advancedchatlog/util/LogChatMessageSerializer.java:30 | parsing what the formatter writes gives back the same date-time |
| IsoDateTime.ParseFormatDate | src/main/java/io/github/darkkronicle/advancedchatlog/util/LogChatMessageSerializer.java:30 | the date part of the format round-trips |
| IsoDateTime.ParseFormatTime | src/main/java/io/github/darkkronicle/advancedchatlog/util/LogChatMessageSerializer.java:30 | the time part of the format round-trips, the fraction included |
| IsoDateTime.ParseFormatFraction | src/main/java/io/github/darkkronicle/advancedchatlog/util/LogChatMessageSerializer.java:30 | the shortest fraction text reads back as the nanosecond count it was written from |
| IsoDateTime.FormatInjective | src/main/java/io/github/darkkronicle/advancedchatlog/util/LogChatMessageSerializer.java:78 | two date-times that save writes with the same time text are equal |
| IsoDateTime.FormatParseDate | src/main/java/io/github/darkkronicle/advancedchatlog/util/LogChatMessageSerializer.java:57 | an accepted date text is exactly the formatter's text for the date read |
| IsoDateTime.FormatParseFraction | src/main/java/io/github/darkkronicle/advancedchatlog/util/LogChatMessageSerializer.java:57 | an accepted fraction with digits and no trailing '0' is exactly the formatter's text for its nanoseconds |
| IsoDateTime.FormatParseTime | src/main/java/io/github/darkkronicle/advancedchatlog/util/LogChatMessageSerializer.java:57 | an accepted time text with seconds, and a fraction without trailing '0' if any, is exactly the formatter's text for the time read |
| IsoDateTime.FormatParse | src/main/java/io/github/darkkronicle/advancedchatlog/util/LogChatMessageSerializer.java:57 | every canonical text the parser accepts ('T', seconds, no trailing fraction zero) is exactly Format of the date-time read |
| IsoDateTime.Format | src/main/java/io/github/darkkronicle/advancedchatlog/util/LogChatMessageSerializer.java:78 | formatter.format writes a canonical text: date, upper-case 'T', time with seconds, a fraction only with digits and no trailing '0' |
| IsoDateTime.FormatDate | src/main/java/io/github/darkkronicle/advancedchatlog/util/LogChatMessageSerializer.java:78 | the date part is ten characters with '-' at positions 4 and 7 |
| IsoDateTime.FormatTime | src/main/java/io/github/darkkronicle/advancedchatlog/util/LogChatMessageSerializer.java:78 | the time part always has its seconds; a fraction follows only as a point and digits not ending in '0' |
| IsoDateTime.Fraction | src/main/java/io/github/darkkronicle/advancedchatlog/util/LogChatMessageSerializer.java:78 | the fraction is empty exactly for a whole second; otherwise a point and one to nine digits, the last not '0' |
| IsoDateTime.FormatDateExample | src/main/java/io/github/darkkronicle/advancedchatlog/util/LogChatMessageSerializer.java:78 | 15 January 2025 is written 2025-01-15 |
| IsoDateTime.FormatTimeExample | src/main/java/io/github/darkkronicle/advancedchatlog/util/LogChatMessageSerializer.java:78 | 14:32:07.123 is written 14:32:07.123: seconds always, only the significant digits of the fraction |
| IsoDateTime.TimeExample | src/main/java/io/github/darkkronicle/advancedchatlog/util/LogChatMessageSerializer.java:57 | the text 14:32:07.123 parses to 14 h 32 min 7 s 123000000 ns |
| Json.GetAsString | src/main/java/io/github/darkkronicle/advancedchatlog/util/LogChatMessageSerializer.java:57 | a string or number element gives its text; an object or null gives nothing |
| Json.GetAsByte | src/main/java/io/github/darkkronicle/advancedchatlog/util/LogChatMessageSerializer.java:63 | a number always reads, as its signed-byte narrowing; a string reads exactly when Integer.parseInt reads it to a value in -128..127, and gives that value; an object or null never reads |
| Json.Narrow | src/main/java/io/github/darkkronicle/advancedchatlog/util/LogChatMessageSerializer.java:63 | the result is in -128..127 and agrees with the input modulo 256 |
| Json.GetAsByteNumberOrText | src/main/java/io/github/darkkronicle/advancedchatlog/util/LogChatMessageSerializer.java:63 | a byte-sized count reads the same stored as a number or as its decimal text |
| Decimal.IntString | src/main/java/io/github/darkkronicle/advancedchatlog/util/LogChatMessageSerializer.java:57 | Integer.toString: a '-' exactly for negative values, then digits |
| Decimal.IntStringRoundTrip | src/main/java/io/github/darkkronicle/advancedchatlog/util/LogChatMessageSerializer.java:57 | Integer.parseInt reads back what Integer.toString writes |
| Decimal.ParseInt | src/main/java/io/github/darkkronicle/advancedchatlog/util/LogChatMessageSerializer.java:63 | Integer.parseInt on ASCII digits: accepted exactly for an optional sign and at least one digit; the value is the digits read, negated after '-' |
| TextModel.WithParent | src/main/java/io/github/darkkronicle/advancedchatlog/util/LogChatMessageSerializer.java:48 | a style over the empty parent is itself, and the empty style over a parent is the parent |
| TextModel.FillStyle | src/main/java/io/github/darkkronicle/advancedchatlog/util/LogChatMessageSerializer.java:48 | fillStyle keeps the run's string and children, and on a fresh literal installs exactly the given style |
| TextModel.Literal | src/main/java/io/github/darkkronicle/advancedchatlog/util/LogChatMessageSerializer.java:48 | Text.literal gives a childless run with the given string and the empty style |
| TextModel.Empty | src/main/java/io/github/darkkronicle/advancedchatlog/util/LogChatMessageSerializer.java:46 | Text.empty gives a childless run with the empty string and the empty style |
| TextModel.GetString | src/main/java/io/github/darkkronicle/advancedchatlog/util/LogChatMessageSerializer.java:48 | getString starts with the run's own string, and for a childless run is exactly that string |

## Left out

- Gson's reflective encoding of a text is not spelled out. `Json.Reflected` stands for the JSON object it produces; all that matters is that it is an object and not a primitive. Gson failing on that reflection is not modelled.
- The wire text format and the registry lookup it needs (`BuiltinRegistries.createWrapperLookup`) are not modelled. `Text.Serialization` is a function parameter. The round trip assumed for it is a precondition of `LoadAfterSaveWireText`.
- The clean-save setting is a parameter. Reading it from `ChatLogConfigStorage` is not modelled.
- Text content other than a literal string (translatable, keybind, score and selector contents) is not modelled. A run's `content` is the string its content contributes to `getString`.
- Style attributes beyond colour, the five format flags, click, hover, insertion and font are not modelled. Click and hover events are opaque pairs of strings.
- `ChatMessage` fields other than time, stacks and the two texts are not modelled. `ChatMessage.builder` is not part of this model. Its stack count for a message built without a stacks step is taken as 0 (`DefaultStacks`).
- JSON arrays, booleans, non-integer numbers and objects other than a reflected text are not modelled as member values.
- Json.GetAsByte: does not accept the non-ASCII Unicode digits that `Integer.parseInt` also accepts.
- Decimal.ParseInt: reads values beyond the 32-bit int range, which `Integer.parseInt` rejects; its one caller, `getAsByte`, rejects every value outside -128..127 either way.
- IsoDateTime.Parse: does not accept signed years or years of more than four digits (`+10000`, `-0001`). java.time accepts them.
- Save: requires the date's year to be between 0 and 9999, the years whose unsigned four-digit form the model formats.
- SaveWireText: requires the same year range as Save.

## Findings

| source | as written | input that shows it | evidently intended | confidence | as-written member | corrected member |
|---|---|---|---|---|---|---|
| src/main/java/io/github/darkkronicle/advancedchatlog/util/LogChatMessageSerializer.java:80-81 | display and original are written with `toJsonTree` of a plain Gson instance, which yields a JSON object for a text. `load` (lines 61-62) reads both with `getAsString`, which throws on an object. So no record that `save` writes can be loaded. | any record, e.g. date 2025-01-15, time 14:32:07.123, stacks 1, display and original the literal "hello": load fails at display | write each text as the wire format's JSON string (`Text.Serialization.toJsonString`), the form load parses; then load gives back the date, time and both texts | medium (not executed) | LogChatMessageSerializer.LoadAfterSaveFails | LogChatMessageSerializer.LoadAfterSaveWireText |
