/** What the page scanner reads, as functions of the markup and a position.
    Markup is taken one character a byte. */
module PageText {
  import opened Letters

  datatype Class = Space | Text | Name | AttrName | Unquoted | Within(quote: char)

  predicate IsSpace(c: char) {
    c == ' ' || c == '\t' || c == '\n' || c == '\r' || c as int == 12
  }

  predicate Is(k: Class, c: char) {
    match k
    case Space => IsSpace(c)
    case Text => c != '<'
    case Name => 'a' <= c <= 'z' || 'A' <= c <= 'Z' || '0' <= c <= '9' || c == '-' || c == '_' || c == ':'
    case AttrName => !IsSpace(c) && c != '=' && c != '>'
    case Unquoted => !IsSpace(c) && c != '>'
    case Within(quote) => c != quote
  }

  /** The first position from `i` on whose character is not of the class. */
  function Past(s: string, i: nat, k: Class): (j: nat)
    requires i <= |s|
    ensures i <= j <= |s| && (j < |s| ==> !Is(k, s[j]))
    ensures forall n | i <= n < j :: Is(k, s[n])
    decreases |s| - i
  {
    if i < |s| && Is(k, s[i]) then Past(s, i + 1, k) else i
  }

  predicate StartsAt(s: string, i: nat, part: string) {
    i + |part| <= |s| && s[i..i + |part|] == part
  }

  /** Where a part first occurs from `i` on, or the length of the text. */
  function Find(s: string, i: nat, part: string): (j: nat)
    requires i <= |s| && part != ""
    ensures i <= j <= |s| && (j < |s| ==> StartsAt(s, j, part))
    ensures forall n | i <= n < j :: !StartsAt(s, n, part)
    decreases |s| - i
  {
    if i == |s| || StartsAt(s, i, part) then i else Find(s, i + 1, part)
  }

  function Capped(j: nat, s: string): (i: nat)
    ensures i <= |s| && (j <= |s| ==> i == j)
  {
    if j <= |s| then j else |s|
  }

  // --- Attributes -----------------------------------------------------------------------

  datatype Attr = Attr(name: string, value: string)

  datatype Attrs = Attrs(attrs: seq<Attr>, selfClosing: bool, end: nat)

  /** One attribute value in any of its three framings, and where it ends. */
  function ValueAt(s: string, i: nat): (v: (string, nat))
    requires i <= |s|
    ensures i <= v.1 <= |s|
  {
    if i < |s| && (s[i] == '"' || s[i] == '\'') then
      var e := Past(s, i + 1, Within(s[i]));
      (s[i + 1..e], Capped(e + 1, s))
    else
      var e := Past(s, i, Unquoted);
      (s[i..e], e)
  }

  /** What stands at a position inside a tag, and where it ends. */
  datatype Piece = Stop(end: nat) | Slash(end: nat) | NoName(end: nat) | One(attr: Attr, end: nat)

  function PieceAt(s: string, i: nat): (p: Piece)
    requires i <= |s|
    ensures i <= p.end <= |s| && (p.Stop? || i < p.end)
  {
    var start := Past(s, i, Space);
    if start == |s| then Stop(start)
    else if s[start] == '>' then Stop(start + 1)
    else if s[start] == '/' then Slash(start + 1)
    else
      var end := Past(s, start, AttrName);
      if end == start then NoName(start + 1)
      else
        var name, after := Lower(s[start..end]), Past(s, end, Space);
        if after == |s| || s[after] != '=' then One(Attr(name, ""), after)
        else
          var value := ValueAt(s, Past(s, after + 1, Space));
          One(Attr(name, value.0), value.1)
  }

  /** Attributes up to the tag's end. */
  function AttrsFrom(s: string, i: nat, attrs: seq<Attr>, selfClosing: bool): (a: Attrs)
    requires i <= |s|
    ensures i <= a.end <= |s|
    decreases |s| - i
  {
    match PieceAt(s, i)
    case Stop(end) => Attrs(attrs, selfClosing, end)
    case Slash(end) => AttrsFrom(s, end, attrs, true)
    case NoName(end) => AttrsFrom(s, end, attrs, selfClosing)
    case One(attr, end) => AttrsFrom(s, end, attrs + [attr], selfClosing)
  }

  // --- Tags --------------------------------------------------------------------------------

  datatype Tag = Tag(name: string, closing: bool, selfClosing: bool, attrs: seq<Attr>)

  datatype Scan = NoTag | Scan(tag: Tag, start: nat, end: nat)

  datatype Value = Missing | Given(text: string)

  function Attribute(attrs: seq<Attr>, name: string): Value {
    if attrs == [] then Missing
    else if attrs[0].name == name then Given(attrs[0].value)
    else Attribute(attrs[1..], name)
  }

  /** Past a comment, a doctype or a processing instruction; the position
      itself when there is none. */
  function PastInert(s: string, i: nat): (j: nat)
    requires i <= |s|
    ensures i <= j <= |s|
    ensures i < j <==> StartsAt(s, i, "<!") || StartsAt(s, i, "<?")
  {
    if StartsAt(s, i, "<!--") then
      assert s[i..i + 4][..2] == s[i..i + 2] == "<!";
      Capped(Find(s, i, "-->") + 3, s)
    else if StartsAt(s, i, "<!") || StartsAt(s, i, "<?") then Capped(Find(s, i, ">") + 1, s)
    else i
  }

  /** What a `<` opens: a tag, or something to pass over, which is a comment,
      a doctype, a processing instruction or a bare `<` in text. */
  datatype Mark = Passed(end: nat) | Opened(scan: Scan)

  function MarkAt(s: string, open: nat): (m: Mark)
    requires open < |s| && s[open] == '<'
    ensures m.Passed? ==> open < m.end <= |s|
    ensures m.Opened? ==> m.scan.Scan? && m.scan.start == open < m.scan.end <= |s| && m.scan.tag.name != ""
  {
    var inert := PastInert(s, open);
    if inert > open then Passed(inert)
    else
      var closing := open + 1 < |s| && s[open + 1] == '/';
      var from := if closing then open + 2 else open + 1;
      var end := Past(s, from, Name);
      if end == from then Passed(end)
      else
        var a := AttrsFrom(s, end, [], false);
        Opened(Scan(Tag(Lower(s[from..end]), closing, a.selfClosing, a.attrs), open, a.end))
  }

  /** The next tag from a position on. */
  function NextTag(s: string, i: nat): (scan: Scan)
    requires i <= |s|
    ensures scan.Scan? ==> i <= scan.start < scan.end <= |s| && s[scan.start] == '<' && scan.tag.name != ""
    decreases |s| - i
  {
    var open := Past(s, i, Text);
    if open == |s| then NoTag
    else
      match MarkAt(s, open)
      case Passed(end) => NextTag(s, end)
      case Opened(scan) => scan
  }

  /** Where the cursor stands after asking for the next tag. */
  function AfterTag(s: string, scan: Scan): nat {
    if scan.NoTag? then |s| else scan.end
  }

  /** Where an element's close tag starts, whatever its case; the length of the
      markup when it is never closed. */
  function CloseAt(s: string, i: nat, name: string): (j: nat)
    requires i <= |s|
    ensures i <= j <= |s|
    ensures forall n | i <= n < j :: !StartsAt(Lower(s), n, "</" + name)
    ensures j < |s| ==> StartsAt(Lower(s), j, "</" + name)
  {
    Find(Lower(s), i, "</" + name)
  }

  /** Past an element's close tag without reading anything before it. */
  function AfterClose(s: string, i: nat, name: string): (j: nat)
    requires i <= |s|
    ensures CloseAt(s, i, name) <= j <= |s|
  {
    var close := CloseAt(s, i, name);
    if close == |s| then close else AfterTag(s, NextTag(s, close))
  }

  // --- Content --------------------------------------------------------------------------------

  const TEXT_LIMIT: nat := 4096

  datatype Content = Content(text: string, image: Value, end: nat)

  /** The label an image gives, unless it says nothing. */
  function ImageLabel(tag: Tag, blank: string -> bool): Value {
    if tag.name != "img" || tag.closing then Missing
    else
      var alt := Attribute(tag.attrs, "alt");
      var said := if alt.Given? then alt else Attribute(tag.attrs, "title");
      if said.Given? && blank(said.text) then Missing else said
  }

  /** The text of an element up to its close tag, and its first image's label. */
  function ContentFrom(s: string, i: nat, name: string, blank: string -> bool, text: string, image: Value): (c: Content)
    requires i <= |s|
    ensures i <= c.end <= |s|
    decreases |s| - i, 0
  {
    if i == |s| then Content(text, image, i)
    else
      var close, open := CloseAt(s, i, name), Past(s, i, Text);
      if close == i then Content(text, image, AfterTag(s, NextTag(s, i)))
      else if open == i then
        if StartsAt(s, i, "<!--") then
          Limited(s, Capped(Find(s, i, "-->") + 3, s), name, blank, text, image)
        else
          var inner := NextTag(s, i);
          var shown := if image.Missing? && inner.Scan? then ImageLabel(inner.tag, blank) else image;
          Limited(s, AfterTag(s, inner), name, blank, text, shown)
      else if open == |s| then Content(text + s[i..], image, |s|)
      else
        var end := if close < open then close else open;
        Limited(s, end, name, blank, text + s[i..end], image)
  }

  function Limited(s: string, i: nat, name: string, blank: string -> bool, text: string, image: Value): (c: Content)
    requires i <= |s|
    ensures i <= c.end <= |s|
    decreases |s| - i, 1
  {
    if |text| > TEXT_LIMIT then Content(text, image, i) else ContentFrom(s, i, name, blank, text, image)
  }
}
