/** LogChatMessageSerializer: a chat-log record to a JSON object and back,
    and the style cleaning and one-level flattening of styled text it
    defines beside them. The clean-save setting is a parameter; the wire
    text format (Text.Serialization) is passed in as functions. */
module LogChatMessageSerializer {
  import opened Wrappers
  import opened IsoDateTime
  import opened TextModel
  import opened Json

  /** The part of a ChatMessage the serializer reads and writes. */
  datatype ChatMessage = ChatMessage(time: LocalTime, stacks: int, displayText: Text, originalText: Text)

  /** A message together with the date of the log it belongs to. */
  datatype LogChatMessage = LogChatMessage(message: ChatMessage, date: LocalDate)

  /** The stack count of a message built without a stacks step. */
  const DefaultStacks := 0

  predicate ValidMessage(m: LogChatMessage)
  {
    ValidDate(m.date) && ValidTime(m.message.time)
  }

  // -------------------------------------------------------- style cleaning

  /** cleanStyle: with clean-save off the style is kept as it is; with it on,
      the click event, hover event and insertion are dropped and nothing
      else changes. */
  function CleanStyle(style: Style, cleanSave: bool): (r: Style)
    ensures !cleanSave ==> r == style
    ensures cleanSave ==> r.click == None && r.hover == None && r.insertion == None
    ensures cleanSave ==> r.(click := style.click, hover := style.hover, insertion := style.insertion) == style
  {
    if !cleanSave then style
    else style.(click := None, hover := None, insertion := None)
  }

  lemma CleanStyleIdempotent(style: Style, cleanSave: bool)
    ensures CleanStyle(CleanStyle(style, cleanSave), cleanSave) == CleanStyle(style, cleanSave)
  {
  }

  // ------------------------------------------------------------ flattening

  /** The run transfer makes of one top-level child: a childless literal
      holding the child's whole string, styled with its cleaned style. */
  function FlatRun(child: Text, cleanSave: bool): Text
  {
    Text(GetString(child), CleanStyle(child.style, cleanSave), [])
  }

  /** r is what transfer makes of text: an empty root whose children are,
      in order, the flattened top-level children of text. */
  predicate IsTransferOf(r: Text, text: Text, cleanSave: bool)
  {
    r.content == "" && r.style == EmptyStyle && |r.siblings| == |text.siblings| &&
    forall i :: 0 <= i < |text.siblings| ==> r.siblings[i] == FlatRun(text.siblings[i], cleanSave)
  }

  method Transfer(text: Text, cleanSave: bool) returns (base: Text)
    ensures IsTransferOf(base, text, cleanSave)
  {
    base := Empty();
    for i := 0 to |text.siblings|
      invariant base.content == "" && base.style == EmptyStyle && |base.siblings| == i
      invariant forall j :: 0 <= j < i ==> base.siblings[j] == FlatRun(text.siblings[j], cleanSave)
    {
      var t := text.siblings[i];
      var newT := FillStyle(Literal(GetString(t)), CleanStyle(t.style, cleanSave));
      base := base.(siblings := base.siblings + [newT]);
    }
  }

  lemma {:induction false} TransferSiblingsString(r: Text, text: Text, cleanSave: bool, i: nat)
    requires IsTransferOf(r, text, cleanSave) && i <= |text.siblings|
    ensures SiblingsString(r, i) == SiblingsString(text, i)
    decreases |text.siblings| - i
  {
    if i < |text.siblings| {
      TransferSiblingsString(r, text, cleanSave, i + 1);
      assert GetString(r.siblings[i]) == GetString(text.siblings[i]) + SiblingsString(r.siblings[i], 0);
    }
  }

  /** Flattening keeps the text: the result reads as the input without the
      root's own string. */
  lemma TransferKeepsString(r: Text, text: Text, cleanSave: bool)
    requires IsTransferOf(r, text, cleanSave)
    ensures text.content + GetString(r) == GetString(text)
  {
    TransferSiblingsString(r, text, cleanSave, 0);
  }

  /** Flattening a flattened text changes nothing. */
  lemma TransferIdempotent(r: Text, r2: Text, text: Text, cleanSave: bool)
    requires IsTransferOf(r, text, cleanSave) && IsTransferOf(r2, r, cleanSave)
    ensures r2 == r
  {
  }

  // ----------------------------------------------------------------- save

  /** The members save writes whatever the text encoding: the date and the
      time as one ISO local date-time, and the stack count. */
  predicate HasSavedKeysTimeAndStacks(json: JsonObject, m: LogChatMessage)
    requires ValidMessage(m)
  {
    json.Keys == {"time", "stacks", "display", "original"} &&
    json["time"] == Str(Format(LocalDateTime(m.date, m.message.time))) &&
    json["stacks"] == Num(m.message.stacks)
  }

  /** What save writes: the texts go through Gson's reflective adapter
      untouched, neither flattened nor cleaned. */
  predicate SavedAsWritten(json: JsonObject, m: LogChatMessage)
    requires ValidMessage(m)
  {
    HasSavedKeysTimeAndStacks(json, m) &&
    json["display"] == Reflected(m.message.displayText) &&
    json["original"] == Reflected(m.message.originalText)
  }

  method Save(message: LogChatMessage) returns (json: JsonObject)
    requires ValidMessage(message)
    ensures SavedAsWritten(json, message)
  {
    json := map[];
    var chat := message.message;
    var dateTime := LocalDateTime(message.date, chat.time);
    json := json["time" := Str(Format(dateTime))];
    json := json["stacks" := Num(chat.stacks)];
    json := json["display" := Reflected(chat.displayText)];
    json := json["original" := Reflected(chat.originalText)];
  }

  /** The texts as the wire text format's JSON strings, the form load reads. */
  predicate SavedAsWireText(json: JsonObject, m: LogChatMessage, toJson: Text -> string)
    requires ValidMessage(m)
  {
    HasSavedKeysTimeAndStacks(json, m) &&
    json["display"] == Str(toJson(m.message.displayText)) &&
    json["original"] == Str(toJson(m.message.originalText))
  }

  /** save with the texts written by the wire text format's toJsonString. */
  method SaveWireText(message: LogChatMessage, toJson: Text -> string) returns (json: JsonObject)
    requires ValidMessage(message)
    ensures SavedAsWireText(json, message, toJson)
  {
    json := map[];
    var chat := message.message;
    var dateTime := LocalDateTime(message.date, chat.time);
    json := json["time" := Str(Format(dateTime))];
    json := json["stacks" := Num(chat.stacks)];
    json := json["display" := Str(toJson(chat.displayText))];
    json := json["original" := Str(toJson(chat.originalText))];
  }

  // ----------------------------------------------------------------- load

  /** Why load throws: a member that is absent (obj.get gives null), one
      that is not a primitive, a time that is not an ISO local date-time,
      a text the wire format rejects, a stack count that is not a byte. */
  datatype LoadError =
    | MissingField(name: string)
    | NotAString(name: string)
    | BadDateTime(text: string)
    | BadText(name: string)
    | BadStacks

  /** obj.get(name).getAsString() */
  function ReadString(obj: JsonObject, name: string): (r: Result<string, LoadError>)
    ensures r.Ok? <==> name in obj && GetAsString(obj[name]).Some?
    ensures r.Ok? ==> r.value == GetAsString(obj[name]).value
  {
    if name !in obj then Err(MissingField(name))
    else
      var s := GetAsString(obj[name]);
      if s.None? then Err(NotAString(name)) else Ok(s.value)
  }

  /** Text.Serialization.fromJson(obj.get(name).getAsString(), ...) */
  function ReadText(obj: JsonObject, name: string, fromJson: string -> Option<Text>): (r: Result<Text, LoadError>)
    ensures r.Ok? <==> ReadString(obj, name).Ok? && fromJson(ReadString(obj, name).value).Some?
    ensures r.Ok? ==> fromJson(ReadString(obj, name).value) == Some(r.value)
    ensures ReadString(obj, name).Err? ==> r == Err(ReadString(obj, name).error)
    ensures (ReadString(obj, name).Ok? && fromJson(ReadString(obj, name).value).None?) ==>
              r == Err(BadText(name))
  {
    var s :- ReadString(obj, name);
    var t := fromJson(s);
    if t.None? then Err(BadText(name)) else Ok(t.value)
  }

  /** obj.get("stacks").getAsByte(), whose value load then drops. */
  function ReadStacks(obj: JsonObject): (r: Result<int, LoadError>)
    ensures r.Ok? <==> "stacks" in obj && GetAsByte(obj["stacks"]).Some?
    ensures r.Ok? ==> r.value == GetAsByte(obj["stacks"]).value
    ensures "stacks" !in obj ==> r == Err(MissingField("stacks"))
    ensures ("stacks" in obj && GetAsByte(obj["stacks"]).None?) ==> r == Err(BadStacks)
  {
    if "stacks" !in obj then Err(MissingField("stacks"))
    else
      var b := GetAsByte(obj["stacks"]);
      if b.None? then Err(BadStacks) else Ok(b.value)
  }

  /** LocalDateTime.from(formatter.parse(obj.get("time").getAsString())) */
  function ReadDateTime(obj: JsonObject): (r: Result<LocalDateTime, LoadError>)
    ensures r.Ok? <==> ReadString(obj, "time").Ok? && Parse(ReadString(obj, "time").value).Some?
    ensures r.Ok? ==> Parse(ReadString(obj, "time").value) == Some(r.value) && ValidDateTime(r.value)
    ensures ReadString(obj, "time").Err? ==> r == Err(ReadString(obj, "time").error)
    ensures (ReadString(obj, "time").Ok? && Parse(ReadString(obj, "time").value).None?) ==>
              r == Err(BadDateTime(ReadString(obj, "time").value))
  {
    var timeText :- ReadString(obj, "time");
    var parsed := Parse(timeText);
    if parsed.None? then Err(BadDateTime(timeText)) else Ok(parsed.value)
  }

  /** load: the members are read in the order time, display, original,
      stacks, and the first that fails decides the error. The date-time is
      split into the log's date and the message's time; the stack count
      read is not given to the rebuilt message. */
  function Load(obj: JsonObject, fromJson: string -> Option<Text>): (r: Result<LogChatMessage, LoadError>)
    ensures r.Ok? <==>
              ReadDateTime(obj).Ok? && ReadText(obj, "display", fromJson).Ok? &&
              ReadText(obj, "original", fromJson).Ok? && ReadStacks(obj).Ok?
    ensures "time" !in obj ==> r == Err(MissingField("time"))
    ensures ReadDateTime(obj).Err? ==> r == Err(ReadDateTime(obj).error)
    ensures (ReadDateTime(obj).Ok? && ReadText(obj, "display", fromJson).Err?) ==>
              r == Err(ReadText(obj, "display", fromJson).error)
    ensures (ReadDateTime(obj).Ok? && ReadText(obj, "display", fromJson).Ok? &&
             ReadText(obj, "original", fromJson).Err?) ==>
              r == Err(ReadText(obj, "original", fromJson).error)
    ensures (ReadDateTime(obj).Ok? && ReadText(obj, "display", fromJson).Ok? &&
             ReadText(obj, "original", fromJson).Ok? && ReadStacks(obj).Err?) ==>
              r == Err(ReadStacks(obj).error)
    ensures r.Ok? ==> ReadDateTime(obj) == Ok(LocalDateTime(r.value.date, r.value.message.time))
    ensures r.Ok? ==> ValidMessage(r.value)
    ensures r.Ok? ==> r.value.message.stacks == DefaultStacks
    ensures r.Ok? ==> ReadText(obj, "display", fromJson) == Ok(r.value.message.displayText)
    ensures r.Ok? ==> ReadText(obj, "original", fromJson) == Ok(r.value.message.originalText)
  {
    var dateTime :- ReadDateTime(obj);
    var date, time := dateTime.date, dateTime.time;
    var display :- ReadText(obj, "display", fromJson);
    var original :- ReadText(obj, "original", fromJson);
    var stacks :- ReadStacks(obj);
    Ok(LogChatMessage(ChatMessage(time, DefaultStacks, display, original), date))
  }

  /** The stack count in the object does not reach the loaded message:
      any other readable count gives the same result. */
  lemma LoadIgnoresStacks(obj: JsonObject, stacks: Element, fromJson: string -> Option<Text>)
    requires "stacks" in obj && GetAsByte(obj["stacks"]).Some? && GetAsByte(stacks).Some?
    ensures Load(obj["stacks" := stacks], fromJson) == Load(obj, fromJson)
  {
  }

  // ------------------------------------------------------------ round trip

  /** The time member save writes parses back to the record's date and time. */
  lemma SavedTimeParses(json: JsonObject, m: LogChatMessage)
    requires ValidMessage(m) && HasSavedKeysTimeAndStacks(json, m)
    ensures ReadString(json, "time") == Ok(Format(LocalDateTime(m.date, m.message.time)))
    ensures Parse(ReadString(json, "time").value) == Some(LocalDateTime(m.date, m.message.time))
  {
    ParseFormat(LocalDateTime(m.date, m.message.time));
  }

  /** As written, a saved record never loads: save stores each text as a
      JSON object and load asks that object for a string. */
  lemma LoadAfterSaveFails(json: JsonObject, m: LogChatMessage, fromJson: string -> Option<Text>)
    requires ValidMessage(m) && SavedAsWritten(json, m)
    ensures Load(json, fromJson) == Err(NotAString("display"))
  {
    SavedTimeParses(json, m);
  }

  /** With the texts saved in the wire format, load gives back the record's
      date, time and texts; the stack count comes back as the default. */
  lemma LoadAfterSaveWireText(json: JsonObject, m: LogChatMessage,
                              toJson: Text -> string, fromJson: string -> Option<Text>)
    requires ValidMessage(m) && SavedAsWireText(json, m, toJson)
    requires fromJson(toJson(m.message.displayText)) == Some(m.message.displayText)
    requires fromJson(toJson(m.message.originalText)) == Some(m.message.originalText)
    ensures Load(json, fromJson) ==
              Ok(LogChatMessage(ChatMessage(m.message.time, DefaultStacks, m.message.displayText, m.message.originalText), m.date))
  {
    SavedTimeParses(json, m);
  }
}
