/** The Gson elements a chat-log record is made of, and the two Gson
    accessors the loader applies to them. */
module Json {
  import opened Wrappers
  import opened Decimal
  import opened TextModel

  datatype Element =
    | Str(s: string)        // a JsonPrimitive holding a string
    | Num(n: int)           // a JsonPrimitive holding an integer
    | Reflected(t: Text)    // the JsonObject Gson's reflective adapter builds for a text object
    | Null                  // JsonNull

  /** A JsonObject: its members by name. */
  type JsonObject = map<string, Element>

  /** JsonElement.getAsString: a primitive gives its text, a number its decimal
      form; an object or JsonNull throws, here None. */
  function GetAsString(e: Element): (r: Option<string>)
    ensures r.Some? <==> (e.Str? || e.Num?)
    ensures e.Str? ==> r == Some(e.s)
    ensures e.Num? ==> r == Some(IntString(e.n))
  {
    match e
    case Str(s) => Some(s)
    case Num(n) => Some(IntString(n))
    case _ => None
  }

  /** Number.byteValue: the low eight bits, read as a signed byte. */
  function Narrow(n: int): (b: int)
    ensures -128 <= b <= 127
    ensures (b - n) % 256 == 0
  {
    (n + 128) % 256 - 128
  }

  /** JsonElement.getAsByte: a number is narrowed, a string is read by
      Byte.parseByte (a decimal integer between -128 and 127); anything
      else throws, here None. */
  function GetAsByte(e: Element): (r: Option<int>)
    ensures r.Some? ==> -128 <= r.value <= 127
    ensures e.Num? ==> r == Some(Narrow(e.n))
    ensures e.Str? ==>
              (r.Some? <==> ParseInt(e.s).Some? && -128 <= ParseInt(e.s).value <= 127)
    ensures e.Str? && r.Some? ==> r == ParseInt(e.s)
    ensures (e.Reflected? || e.Null?) ==> r.None?
  {
    match e
    case Num(n) => Some(Narrow(n))
    case Str(s) =>
      var v := ParseInt(s);
      if v.Some? && -128 <= v.value <= 127 then v else None
    case _ => None
  }

  /** A byte-sized number reads the same whether it is stored as a number
      or as its decimal text. */
  lemma GetAsByteNumberOrText(n: int)
    requires -128 <= n <= 127
    ensures GetAsByte(Num(n)) == Some(n)
    ensures GetAsByte(Str(IntString(n))) == Some(n)
  {
    IntStringRoundTrip(n);
  }
}
