/** The parts of Minecraft's styled text that the serializer touches: a
    Style with its formatting and its three interactive attributes, and a
    text tree of runs, each with its own string, style and child runs. */
module TextModel {
  import opened Wrappers

  datatype ClickEvent = ClickEvent(action: string, value: string)

  datatype HoverEvent = HoverEvent(action: string, contents: string)

  /** Every attribute of a Style is optional; None means "inherit". */
  datatype Style = Style(
    color: Option<int>,
    bold: Option<bool>,
    italic: Option<bool>,
    underlined: Option<bool>,
    strikethrough: Option<bool>,
    obfuscated: Option<bool>,
    click: Option<ClickEvent>,
    hover: Option<HoverEvent>,
    insertion: Option<string>,
    font: Option<string>)

  /** Style.EMPTY: no attribute set. */
  const EmptyStyle := Style(None, None, None, None, None, None, None, None, None, None)

  /** A run of text: its own string, its style and its child runs
      (Minecraft calls them siblings). */
  datatype Text = Text(content: string, style: Style, siblings: seq<Text>)

  /** Text.literal(s): a run with the given string, the empty style and no children. */
  function Literal(s: string): (t: Text)
    ensures t.content == s && t.style == EmptyStyle && t.siblings == []
  {
    Text(s, EmptyStyle, [])
  }

  /** Text.empty(). */
  function Empty(): (t: Text)
    ensures t.content == "" && t.style == EmptyStyle && t.siblings == []
  {
    Literal("")
  }

  function Inherit<T>(own: Option<T>, parent: Option<T>): Option<T>
  {
    if own.Some? then own else parent
  }

  /** Style.withParent: each attribute this style leaves unset is taken
      from the parent. */
  function WithParent(s: Style, parent: Style): (r: Style)
    ensures parent == EmptyStyle ==> r == s
    ensures s == EmptyStyle ==> r == parent
  {
    if s == EmptyStyle then parent
    else if parent == EmptyStyle then s
    else Style(
      Inherit(s.color, parent.color),
      Inherit(s.bold, parent.bold),
      Inherit(s.italic, parent.italic),
      Inherit(s.underlined, parent.underlined),
      Inherit(s.strikethrough, parent.strikethrough),
      Inherit(s.obfuscated, parent.obfuscated),
      Inherit(s.click, parent.click),
      Inherit(s.hover, parent.hover),
      Inherit(s.insertion, parent.insertion),
      Inherit(s.font, parent.font))
  }

  /** MutableText.fillStyle: the given style over the text's own. */
  function FillStyle(t: Text, s: Style): (r: Text)
    ensures r.content == t.content && r.siblings == t.siblings
    ensures t.style == EmptyStyle ==> r.style == s
  {
    t.(style := WithParent(s, t.style))
  }

  /** Text.getString: the run's own string, then each child's string in order. */
  function GetString(t: Text): (r: string)
    ensures t.content <= r
    ensures t.siblings == [] ==> r == t.content
    decreases t, 1
  {
    t.content + SiblingsString(t, 0)
  }

  /** The strings of the children of t from index i on, concatenated. */
  function SiblingsString(t: Text, i: nat): string
    requires i <= |t.siblings|
    decreases t, 0, |t.siblings| - i
  {
    if i == |t.siblings| then "" else GetString(t.siblings[i]) + SiblingsString(t, i + 1)
  }
}
