/** Pages written out and read back: attributes in quotes of either kind, and
    the links, labels and images of the elements that have them, in order. */
module PageReads {
  import opened Letters
  import opened PageText
  import opened Page
  import opened PageLinks

  // --- Markup at a position --------------------------------------------------------------

  /** The text stands at the position. */
  predicate At(s: string, i: nat, t: string) {
    i + |t| <= |s| && forall k | 0 <= k < |t| :: s[i + k] == t[k]
  }

  lemma AtParts(s: string, i: nat, a: string, b: string)
    ensures At(s, i, a + b) <==> At(s, i, a) && At(s, i + |a|, b)
  {
    var t := a + b;
    if At(s, i, t) {
      forall k | 0 <= k < |a| ensures s[i + k] == a[k] { assert t[k] == a[k]; }
      forall k | 0 <= k < |b| ensures s[i + |a| + k] == b[k] { assert s[i + (|a| + k)] == t[|a| + k] == b[k]; }
    }
    if At(s, i, a) && At(s, i + |a|, b) {
      forall k | 0 <= k < |t|
        ensures s[i + k] == t[k]
      {
        if k >= |a| {
          assert s[i + |a| + (k - |a|)] == b[k - |a|];
        }
      }
    }
  }

  lemma AtChar(s: string, i: nat, t: string, k: nat)
    requires At(s, i, t) && k < |t|
    ensures i + k < |s| && s[i + k] == t[k]
  {
  }

  lemma AtEnd(s: string, i: nat, t: string)
    requires At(s, i, t)
    ensures i + |t| <= |s|
  {
  }

  lemma AtSlice(s: string, i: nat, t: string)
    requires At(s, i, t)
    ensures s[i..i + |t|] == t
  {
  }

  /** A run of characters of a class, up to one that is not. */
  lemma RunOf(s: string, i: nat, t: string, k: Class)
    requires At(s, i, t) && (forall c <- t :: Is(k, c)) && i + |t| < |s| && !Is(k, s[i + |t|])
    ensures Past(s, i, k) == i + |t|
  {
    hide At, Past, Is;
    forall n | i <= n < i + |t|
      ensures Is(k, s[n])
    {
      AtChar(s, i, t, n - i);
      assert t[n - i] in t;
    }
    PastIs(s, i, k, i + |t|);
  }

  // --- Attributes --------------------------------------------------------------------------

  /** An attribute as a page writes it. */
  datatype Quoted = Quoted(name: string, quote: char, value: string)

  predicate Writable(a: Quoted) {
    && a.name != "" && a.name[0] != '/' && (forall c <- a.name :: Is(AttrName, c))
    && (a.quote == '"' || a.quote == '\'') && a.quote !in a.value
  }

  function AttrText(a: Quoted): string {
    " " + (a.name + ("=" + ([a.quote] + (a.value + [a.quote]))))
  }

  function AttrsText(attrs: seq<Quoted>): string {
    if attrs == [] then "" else AttrText(attrs[0]) + AttrsText(attrs[1..])
  }

  /** What the scanner is to read of them. */
  function Meant(attrs: seq<Quoted>): seq<Attr> {
    if attrs == [] then [] else [Attr(Lower(attrs[0].name), attrs[0].value)] + Meant(attrs[1..])
  }

  lemma AttrPlaces(s: string, i: nat, a: Quoted)
    requires At(s, i, AttrText(a))
    ensures At(s, i, " ") && At(s, i + 1, a.name) && At(s, i + 1 + |a.name|, "=")
    ensures At(s, i + 2 + |a.name|, [a.quote]) && At(s, i + 3 + |a.name|, a.value)
    ensures At(s, i + 3 + |a.name| + |a.value|, [a.quote]) && |AttrText(a)| == 4 + |a.name| + |a.value|
  {
    AtParts(s, i, " ", a.name + ("=" + ([a.quote] + (a.value + [a.quote]))));
    AtParts(s, i + 1, a.name, "=" + ([a.quote] + (a.value + [a.quote])));
    AtParts(s, i + 1 + |a.name|, "=", [a.quote] + (a.value + [a.quote]));
    AtParts(s, i + 2 + |a.name|, [a.quote], a.value + [a.quote]);
    AtParts(s, i + 3 + |a.name|, a.value, [a.quote]);
  }

  /** A value in quotes reads back as what stands between them. */
  lemma QuotedValue(s: string, i: nat, quote: char, value: string)
    requires (quote == '"' || quote == '\'') && quote !in value
    requires At(s, i, [quote]) && At(s, i + 1, value) && At(s, i + 1 + |value|, [quote])
    ensures ValueAt(s, i) == (value, i + 2 + |value|)
  {
    hide Past;
    var e := i + 1 + |value|;
    assert s[i] == [quote][0] && s[e] == [quote][0];
    forall n | i + 1 <= n < e
      ensures Is(Within(quote), s[n])
    {
      assert s[i + 1 + (n - i - 1)] == value[n - i - 1];
      assert value[n - i - 1] in value;
    }
    PastIs(s, i + 1, Within(quote), e);
    AtSlice(s, i + 1, value);
  }

  lemma AttrReads(s: string, i: nat, a: Quoted)
    requires Writable(a) && At(s, i, AttrText(a))
    ensures PieceAt(s, i) == One(Attr(Lower(a.name), a.value), i + |AttrText(a)|)
  {
    hide At, Past, Lower, ValueAt, AttrText;
    AttrPlaces(s, i, a);
    var from, to := i + 1, i + 1 + |a.name|;
    AtChar(s, i, " ", 0);
    AtChar(s, to, "=", 0);
    AtChar(s, to + 1, [a.quote], 0);
    AtChar(s, from, a.name, 0);
    assert a.name[0] in a.name;
    PastIs(s, i, Space, from);
    RunOf(s, from, a.name, AttrName);
    PastIs(s, to, Space, to);
    PastIs(s, to + 1, Space, to + 1);
    AtSlice(s, from, a.name);
    QuotedValue(s, to + 1, a.quote, a.value);
  }

  lemma {:induction false} AttrsRead(s: string, i: nat, attrs: seq<Quoted>, before: seq<Attr>)
    requires (forall a <- attrs :: Writable(a)) && At(s, i, AttrsText(attrs) + ">")
    ensures AttrsFrom(s, i, before, false) == Attrs(before + Meant(attrs), false, i + |AttrsText(attrs)| + 1)
    decreases |attrs|
  {
    hide PieceAt, AttrText;
    AtParts(s, i, AttrsText(attrs), ">");
    if attrs == [] {
      TagStops(s, i);
      assert before + [] == before;
    } else {
      var first, rest := attrs[0], attrs[1..];
      assert first in attrs && forall a <- rest :: a in attrs;
      AtParts(s, i, AttrText(first), AttrsText(rest));
      AtParts(s, i + |AttrText(first)|, AttrsText(rest), ">");
      AttrReads(s, i, first);
      AttrsRead(s, i + |AttrText(first)|, rest, before + [Attr(Lower(first.name), first.value)]);
      assert (before + [Attr(Lower(first.name), first.value)]) + Meant(rest) == before + Meant(attrs);
    }
  }

  lemma TagStops(s: string, i: nat)
    requires At(s, i, ">")
    ensures PieceAt(s, i) == Stop(i + 1)
  {
    assert s[i] == ">"[0];
    PastIs(s, i, Space, i);
  }

  // --- Tags -----------------------------------------------------------------------------------

  function TagText(name: string, attrs: seq<Quoted>): string {
    "<" + (name + (AttrsText(attrs) + ">"))
  }

  predicate ElementName(name: string) {
    name != "" && forall c <- name :: Is(Name, c)
  }

  lemma {:induction false} AttrsStart(attrs: seq<Quoted>)
    ensures (AttrsText(attrs) + ">")[0] == ' ' || (AttrsText(attrs) + ">")[0] == '>'
  {
    if attrs != [] {
      assert AttrText(attrs[0])[0] == ' ';
    }
  }

  /** A tag reads back: its name in lower case, and each attribute with what
      stands between its quotes. */
  lemma TagReads(s: string, i: nat, name: string, attrs: seq<Quoted>)
    requires ElementName(name) && (forall a <- attrs :: Writable(a)) && At(s, i, TagText(name, attrs))
    ensures NextTag(s, i) == Scan(Tag(Lower(name), false, false, Meant(attrs)), i, i + |TagText(name, attrs)|)
  {
    hide At, Past, Lower, MarkAt, Meant, AttrsText;
    AtParts(s, i, "<", name + (AttrsText(attrs) + ">"));
    AtChar(s, i, "<", 0);
    PastIs(s, i, Class.Text, i);
    MarkReads(s, i, name, attrs);
  }

  lemma MarkReads(s: string, i: nat, name: string, attrs: seq<Quoted>)
    requires ElementName(name) && (forall a <- attrs :: Writable(a)) && At(s, i, TagText(name, attrs))
    requires i < |s| && s[i] == '<'
    ensures MarkAt(s, i) == Opened(Scan(Tag(Lower(name), false, false, Meant(attrs)), i, i + |TagText(name, attrs)|))
  {
    hide At, Past, Lower, AttrsFrom, PastInert, AttrsText, StartsAt, Meant;
    var from, to, rest := i + 1, i + 1 + |name|, AttrsText(attrs) + ">";
    AtParts(s, i, "<", name + rest);
    AtParts(s, i + 1, name, rest);
    AtChar(s, from, name, 0);
    assert name[0] in name;
    AtChar(s, to, rest, 0);
    AttrsStart(attrs);
    NotInert(s, i);
    RunOf(s, from, name, Name);
    AtSlice(s, from, name);
    AttrsRead(s, to, attrs, []);
    var none: seq<Attr> := [];
    assert none + Meant(attrs) == Meant(attrs);
  }

  lemma CloseReads(s: string, i: nat)
    requires At(s, i, "</a>")
    ensures NextTag(s, i) == Scan(Tag("a", true, false, []), i, i + 4)
    ensures CloseAt(s, i, "a") == i
  {
    hide NextTag;
    assert s[i] == "</a>"[0] && s[i + 1] == "</a>"[1] && s[i + 2] == "</a>"[2] && s[i + 3] == "</a>"[3];
    BareTag(s, i, i + 2, i + 3, true);
    assert s[i + 2..i + 3] == "a";
    LowerSame("a");
    AtSlice(s, i, "</a>");
    assert s[i..i + 3] == "</a";
    LowerAt(s, i, "</a");
    CloseFirst(s, i);
  }

  lemma CloseFirst(s: string, i: nat)
    requires i < |s| && StartsAt(Lower(s), i, "</a")
    ensures CloseAt(s, i, "a") == i
  {
    hide Lower, StartsAt;
    assert "</" + "a" == "</a";
  }

  /** Text without a `<` is passed over. */
  lemma TextPassed(s: string, i: nat, j: nat, blank: string -> bool)
    requires i <= j <= |s| && forall n | i <= n < j :: s[n] != '<'
    ensures NextTag(s, i) == NextTag(s, j) && CandidatesFrom(s, i, blank) == CandidatesFrom(s, j, blank)
  {
    PastText(s, i, j);
  }

  lemma {:induction false} PastText(s: string, i: nat, j: nat)
    requires i <= j <= |s| && forall n | i <= n < j :: s[n] != '<'
    ensures Past(s, i, Class.Text) == Past(s, j, Class.Text)
    decreases j - i
  {
    if i < j {
      PastText(s, i + 1, j);
    }
  }

  // --- Pages --------------------------------------------------------------------------------------

  /** A stretch of a page: text, an `a` with a label or with an image in it, an
      `area` or `link`, an element whose inside is not read as markup, a
      comment, or a doctype or processing instruction. */
  datatype Stretch =
    | Prose(text: string)
    | Labelled(attrs: seq<Quoted>, words: string)
    | Pictured(attrs: seq<Quoted>, image: seq<Quoted>)
    | Single(name: string, attrs: seq<Quoted>)
    | Hidden(name: string, attrs: seq<Quoted>, inside: string)
    | Comment(inside: string)
    | Declaration(mark: char, inside: string)

  predicate WritableAll(attrs: seq<Quoted>) {
    forall a <- attrs :: Writable(a)
  }

  predicate Sound(w: Stretch) {
    match w
    case Prose(text) => '<' !in text
    case Labelled(attrs, words) => WritableAll(attrs) && '<' !in words
    case Pictured(attrs, image) => WritableAll(attrs) && WritableAll(image)
    case Single(name, attrs) => WritableAll(attrs) && (name == "area" || name == "link")
    case Hidden(name, attrs, inside) =>
      && WritableAll(attrs) && (name == "script" || name == "style" || name == "noscript" || name == "template")
      && forall n | 0 <= n < |inside| :: !StartsAt(Lower(inside + ("</" + (name + ">"))), n, "</" + name)
    case Comment(inside) => OnlyAtEnd("<!--" + (inside + "-->"), "-->")
    case Declaration(mark, inside) => (mark == '!' || mark == '?') && '>' !in inside && !(mark == '!' && "--" <= inside)
  }

  /** The part stands nowhere in the text but for its end. */
  predicate OnlyAtEnd(text: string, part: string) {
    forall n | 0 <= n < |text| - |part| :: !StartsAt(text, n, part)
  }

  function StretchText(w: Stretch): string {
    match w
    case Prose(text) => text
    case Labelled(attrs, words) => TagText("a", attrs) + (words + "</a>")
    case Pictured(attrs, image) => TagText("a", attrs) + (TagText("img", image) + "</a>")
    case Single(name, attrs) => TagText(name, attrs)
    case Hidden(name, attrs, inside) => TagText(name, attrs) + (inside + ("</" + (name + ">")))
    case Comment(inside) => "<!--" + (inside + "-->")
    case Declaration(mark, inside) => "<" + ([mark] + (inside + ">"))
  }

  function PageOf(page: seq<Stretch>): string {
    if page == [] then "" else StretchText(page[0]) + PageOf(page[1..])
  }

  /** The value of the first attribute of a name. */
  function ValueOf(attrs: seq<Attr>, name: string): Value {
    if attrs == [] then Missing else if attrs[0].name == name then Given(attrs[0].value) else ValueOf(attrs[1..], name)
  }

  /** What an image says of itself: its `alt`, or else its `title`, unless that
      is blank. */
  function Says(attrs: seq<Attr>, blank: string -> bool): Value {
    var said := if ValueOf(attrs, "alt").Given? then ValueOf(attrs, "alt") else ValueOf(attrs, "title");
    if said.Given? && blank(said.text) then Missing else said
  }

  /** The link a stretch gives, if it has an address. */
  function LinkOf(w: Stretch, at: nat, blank: string -> bool): seq<Candidate> {
    if !(w.Labelled? || w.Pictured? || w.Single?) then []
    else
      var attrs := Meant(w.attrs);
      var href := ValueOf(attrs, "href");
      if href.Missing? then []
      else
        match w
        case Labelled(_, words) => [Candidate(at, href.text, words, Missing, attrs)]
        case Pictured(_, image) => [Candidate(at, href.text, "", Says(Meant(image), blank), attrs)]
        case Single(_, _) => [Candidate(at, href.text, "", Missing, attrs)]
  }

  function LinksOf(page: seq<Stretch>, at: nat, blank: string -> bool): seq<Candidate>
    decreases |page|
  {
    if page == [] then []
    else LinkOf(page[0], at, blank) + LinksOf(page[1..], at + |StretchText(page[0])|, blank)
  }

  lemma {:induction false} ValueIs(attrs: seq<Attr>, name: string)
    ensures Attribute(attrs, name) == ValueOf(attrs, name)
  {
    if attrs != [] {
      ValueIs(attrs[1..], name);
    }
  }

  lemma SaysIs(attrs: seq<Attr>, blank: string -> bool)
    ensures ImageLabel(PageText.Tag("img", false, false, attrs), blank) == Says(attrs, blank)
  {
    ValueIs(attrs, "alt");
    ValueIs(attrs, "title");
  }

  /** A close tag gives no link. */
  lemma ClosePassed(s: string, i: nat, blank: string -> bool)
    requires At(s, i, "</a>")
    ensures CandidatesFrom(s, i, blank) == CandidatesFrom(s, i + 4, blank)
  {
    hide NextTag;
    CloseReads(s, i);
    var none: seq<Candidate> := [];
    assert none + CandidatesFrom(s, i + 4, blank) == CandidatesFrom(s, i + 4, blank);
  }

  /** What is inside an anchor of text: the text, and the scan goes on at its
      close tag or past it. */
  lemma LabelInside(s: string, i: nat, words: string, blank: string -> bool) returns (c: Content)
    requires '<' !in words && At(s, i, words) && At(s, i + |words|, "</a>")
    ensures c == ContentFrom(s, i, "a", blank, "", Missing) && c.text == words && c.image == Missing
    ensures c.end <= |s| && CandidatesFrom(s, c.end, blank) == CandidatesFrom(s, i + |words| + 4, blank)
  {
    hide NextTag, CloseAt, Past, StartsAt, CandidatesFrom;
    var e := i + |words|;
    CloseReads(s, e);
    ClosePassed(s, e, blank);
    c := ContentFrom(s, i, "a", blank, "", Missing);
    if words != "" {
      LabelRead(s, i, words, blank);
    }
  }

  lemma LabelRead(s: string, i: nat, words: string, blank: string -> bool)
    requires words != "" && '<' !in words && At(s, i, words) && At(s, i + |words|, "</a>")
    ensures ContentFrom(s, i, "a", blank, "", Missing) ==
            Content(words, Missing, i + |words| + if |words| > 4096 then 0 else 4)
  {
    hide NextTag, CloseAt, Past, StartsAt;
    var e := i + |words|;
    CloseReads(s, e);
    forall n | i <= n < e
      ensures s[n] != '<'
    {
      assert s[i + (n - i)] == words[n - i] && words[n - i] in words;
    }
    assert s[e] == "</a>"[0];
    PastIs(s, i, Class.Text, e);
    CloseBeyond(s, i, e);
    AtSlice(s, i, words);
    var none := "";
    assert none + s[i..e] == words;
    ClosedContent(s, e, words, Missing, blank);
  }

  lemma ClosedContent(s: string, e: nat, text: string, image: Value, blank: string -> bool)
    requires At(s, e, "</a>")
    ensures ContentFrom(s, e, "a", blank, text, image) == Content(text, image, e + 4)
  {
    hide NextTag, CloseAt;
    CloseReads(s, e);
  }

  lemma CloseBeyond(s: string, i: nat, e: nat)
    requires i <= e < |s| && CloseAt(s, e, "a") == e && forall n | i <= n < e :: s[n] != '<'
    ensures CloseAt(s, i, "a") == e
  {
    hide Lower, StartsAt;
    forall n | i <= n < e
      ensures !StartsAt(Lower(s), n, "</a")
    {
      assert Lower(s)[n] != '<';
      NotAt(Lower(s), n, "</a", 0);
    }
    assert "</" + "a" == "</a";
    FindIs(Lower(s), i, "</a", e);
  }

  /** What is inside an anchor around an image: no text, and what the image
      says. */
  lemma PictureInside(s: string, i: nat, image: seq<Quoted>, blank: string -> bool)
    requires WritableAll(image) && At(s, i, TagText("img", image)) && At(s, i + |TagText("img", image)|, "</a>")
    ensures ContentFrom(s, i, "a", blank, "", Missing) ==
            Content("", Says(Meant(image), blank), i + |TagText("img", image)| + 4)
  {
    hide NextTag, CloseAt, Past, StartsAt, Lower, ImageLabel;
    var e := i + |TagText("img", image)|;
    LowerSame("img");
    TagReads(s, i, "img", image);
    CloseReads(s, e);
    SaysIs(Meant(image), blank);
    AtParts(s, i, "<", "img" + (AttrsText(image) + ">"));
    AtParts(s, i + 1, "img", AttrsText(image) + ">");
    assert s[i] == "<"[0] && s[i + 1] == "img"[0];
    PastIs(s, i, Class.Text, i);
    NotInert(s, i);
    NotClose(s, i);
    ClosedContent(s, e, "", Says(Meant(image), blank), blank);
    assert AfterTag(s, NextTag(s, i)) == e;
  }

  lemma NotClose(s: string, i: nat)
    requires i + 1 < |s| && s[i + 1] == 'i'
    ensures CloseAt(s, i, "a") != i
  {
    hide StartsAt;
    NotAt(Lower(s), i, "</a", 1);
    assert "</" + "a" == "</a";
  }

  /** One tag that may give a link, and where the scan goes on after it. */
  lemma TagStep(s: string, i: nat, name: string, attrs: seq<Attr>, e: nat, blank: string -> bool)
    requires i <= |s| && NextTag(s, i) == Scan(PageText.Tag(name, false, false, attrs), i, e)
    requires name == "a" || name == "area" || name == "link"
    ensures e <= |s|
    ensures var c := if name == "a" then ContentFrom(s, e, "a", blank, "", Missing) else Content("", Missing, e);
            var href := ValueOf(attrs, "href");
            c.end <= |s| && CandidatesFrom(s, i, blank) ==
              if href.Missing? then CandidatesFrom(s, e, blank)
              else [Candidate(i, href.text, c.text, c.image, attrs)] + CandidatesFrom(s, c.end, blank)
  {
    hide NextTag, ContentFrom, Attribute, ValueOf;
    ValueIs(attrs, "href");
    var none: seq<Candidate> := [];
    assert none + CandidatesFrom(s, e, blank) == CandidatesFrom(s, e, blank);
  }

  /** One stretch is read as the link it gives, and the scan goes on behind it. */
  lemma StretchReads(s: string, i: nat, w: Stretch, blank: string -> bool)
    requires Sound(w) && At(s, i, StretchText(w))
    ensures i + |StretchText(w)| <= |s|
    ensures CandidatesFrom(s, i, blank) == LinkOf(w, i, blank) + CandidatesFrom(s, i + |StretchText(w)|, blank)
  {
    hide At, NextTag, ContentFrom, TagText, Lower, CandidatesFrom, Meant, ValueOf;
    AtEnd(s, i, StretchText(w));
    match w {
      case Prose(text) => ProseReads(s, i, text, blank);
      case Single(name, attrs) =>
        TagReads(s, i, name, attrs);
        LowerSame(name);
        TagStep(s, i, name, Meant(attrs), i + |TagText(name, attrs)|, blank);
      case Labelled(attrs, words) => LabelledReads(s, i, attrs, words, blank);
      case Pictured(attrs, image) => PicturedReads(s, i, attrs, image, blank);
      case Hidden(name, attrs, inside) => HiddenReads(s, i, name, attrs, inside, blank);
      case Comment(inside) => CommentReads(s, i, inside, blank);
      case Declaration(mark, inside) => DeclarationReads(s, i, mark, inside, blank);
    }
  }

  /** Whatever stands inside such an element, no link is read of it. */
  lemma HiddenReads(s: string, i: nat, name: string, attrs: seq<Quoted>, inside: string, blank: string -> bool)
    requires Sound(Hidden(name, attrs, inside)) && At(s, i, StretchText(Hidden(name, attrs, inside)))
    ensures CandidatesFrom(s, i, blank) == CandidatesFrom(s, i + |StretchText(Hidden(name, attrs, inside))|, blank)
  {
    hide At, NextTag, TagText, Lower, AfterClose, Meant, CandidatesFrom;
    var tail := inside + ("</" + (name + ">"));
    AtParts(s, i, TagText(name, attrs), tail);
    var e := i + |TagText(name, attrs)|;
    LowerSame(name);
    TagReads(s, i, name, attrs);
    AtEnd(s, e, tail);
    HiddenClose(s, e, name, inside);
    HiddenStep(s, i, name, Meant(attrs), e, blank);
  }

  /** A tag whose inside is not read as markup, and where the scan goes on. */
  lemma HiddenStep(s: string, i: nat, name: string, attrs: seq<Attr>, e: nat, blank: string -> bool)
    requires i <= |s| && NextTag(s, i) == Scan(PageText.Tag(name, false, false, attrs), i, e)
    requires name == "script" || name == "style" || name == "noscript" || name == "template"
    ensures e <= |s| && CandidatesFrom(s, i, blank) == CandidatesFrom(s, AfterClose(s, e, name), blank)
  {
    hide NextTag, AfterClose;
    var none: seq<Candidate> := [];
    var rest := CandidatesFrom(s, AfterClose(s, e, name), blank);
    assert none + rest == rest;
  }

  lemma HiddenClose(s: string, e: nat, name: string, inside: string)
    requires name == "script" || name == "style" || name == "noscript" || name == "template"
    requires forall n | 0 <= n < |inside| :: !StartsAt(Lower(inside + ("</" + (name + ">"))), n, "</" + name)
    requires At(s, e, inside + ("</" + (name + ">")))
    ensures e <= |s| && AfterClose(s, e, name) == e + |inside| + |name| + 3
  {
    hide At, NextTag, CloseAt;
    var close := e + |inside|;
    AtParts(s, e, inside, "</" + (name + ">"));
    HiddenFound(s, e, name, inside);
    AtParts(s, close, "</", name + ">");
    AtParts(s, close + 2, name, ">");
    AtChar(s, close, "</", 0);
    AtChar(s, close, "</", 1);
    AtChar(s, close + 2 + |name|, ">", 0);
    NamePlain(s, close + 2, name);
    BareTag(s, close, close + 2, close + 2 + |name|, true);
  }

  lemma NamePlain(s: string, i: nat, name: string)
    requires name == "script" || name == "style" || name == "noscript" || name == "template"
    requires At(s, i, name) && i + |name| < |s| && s[i + |name|] == '>'
    ensures PlainName(s, i, i + |name|)
  {
    hide At;
    forall n | i <= n < i + |name|
      ensures Is(Name, s[n])
    {
      AtChar(s, i, name, n - i);
      assert name[n - i] in name;
    }
  }

  /** The close tag is found where it stands, and not before. */
  lemma HiddenFound(s: string, e: nat, name: string, inside: string)
    requires name == "script" || name == "style" || name == "noscript" || name == "template"
    requires forall n | 0 <= n < |inside| :: !StartsAt(Lower(inside + ("</" + (name + ">"))), n, "</" + name)
    requires At(s, e, inside + ("</" + (name + ">")))
    ensures e <= |s| && CloseAt(s, e, name) == e + |inside| < |s|
  {
    hide Lower, StartsAt, At;
    var tail := inside + ("</" + (name + ">"));
    var close, needle := e + |inside|, "</" + name;
    AtEnd(s, e, tail);
    LowerTail(s, e, tail);
    forall n | e <= n < close
      ensures !StartsAt(Lower(s), n, needle)
    {
      Shifted(Lower(s), e, Lower(tail), n - e, needle);
    }
    AtParts(s, e, inside, "</" + (name + ">"));
    AtParts(s, close, needle, ">");
    assert "</" + (name + ">") == needle + ">";
    NeedleLow(name);
    AtSlice(s, close, needle);
    LowerAt(s, close, needle);
    FindIs(Lower(s), e, needle, close);
  }

  lemma NeedleLow(name: string)
    requires name == "script" || name == "style" || name == "noscript" || name == "template"
    ensures forall n | 0 <= n < |"</" + name| :: LowerChar(("</" + name)[n]) == ("</" + name)[n]
  {
  }

  lemma LowerTail(s: string, e: nat, tail: string)
    requires At(s, e, tail)
    ensures At(Lower(s), e, Lower(tail))
  {
  }

  lemma Shifted(s: string, e: nat, tail: string, n: nat, part: string)
    requires At(s, e, tail) && n + |part| <= |tail|
    ensures StartsAt(s, e + n, part) <==> StartsAt(tail, n, part)
  {
    AtEnd(s, e, tail);
    var x, y := s[e + n..e + n + |part|], tail[n..n + |part|];
    forall k | 0 <= k < |part|
      ensures x[k] == y[k]
    {
      AtChar(s, e, tail, n + k);
    }
    assert x == y;
  }

  /** What stands in a comment is no markup. */
  lemma CommentReads(s: string, i: nat, inside: string, blank: string -> bool)
    requires OnlyAtEnd("<!--" + (inside + "-->"), "-->") && At(s, i, "<!--" + (inside + "-->"))
    ensures i + |inside| + 7 <= |s| && CandidatesFrom(s, i, blank) == CandidatesFrom(s, i + |inside| + 7, blank)
  {
    hide At, NextTag, StartsAt, CandidatesFrom;
    var all := "<!--" + (inside + "-->");
    AtEnd(s, i, all);
    AtParts(s, i, "<!--", inside + "-->");
    AtParts(s, i + 4, inside, "-->");
    forall n | i <= n < i + |inside| + 4
      ensures !StartsAt(s, n, "-->")
    {
      Shifted(s, i, all, n - i, "-->");
    }
    StandsAt(s, i + |inside| + 4, "-->");
    FindIs(s, i, "-->", i + |inside| + 4);
    StandsAt(s, i, "<!--");
    AtChar(s, i, "<!--", 0);
    InertStep(s, i, i + |inside| + 7, blank);
  }

  lemma StandsAt(s: string, i: nat, t: string)
    requires At(s, i, t)
    ensures StartsAt(s, i, t)
  {
    AtSlice(s, i, t);
  }

  /** Something that is passed over ends where it is said to. */
  lemma InertStep(s: string, i: nat, e: nat, blank: string -> bool)
    requires i < e <= |s| && s[i] == '<' && PastInert(s, i) == e
    ensures CandidatesFrom(s, i, blank) == CandidatesFrom(s, e, blank)
  {
    hide PastInert;
    PastIs(s, i, Class.Text, i);
    assert NextTag(s, i) == NextTag(s, e);
  }

  /** Nor is what stands in a doctype or a processing instruction. */
  lemma DeclarationReads(s: string, i: nat, mark: char, inside: string, blank: string -> bool)
    requires (mark == '!' || mark == '?') && '>' !in inside && !(mark == '!' && "--" <= inside)
    requires At(s, i, "<" + ([mark] + (inside + ">")))
    ensures i + |inside| + 3 <= |s| && CandidatesFrom(s, i, blank) == CandidatesFrom(s, i + |inside| + 3, blank)
  {
    hide At, NextTag, StartsAt, CandidatesFrom;
    var all := "<" + ([mark] + (inside + ">"));
    AtEnd(s, i, all);
    AtParts(s, i, "<", [mark] + (inside + ">"));
    AtParts(s, i + 1, [mark], inside + ">");
    AtParts(s, i + 2, inside, ">");
    var e := i + |inside| + 2;
    AtChar(s, i, "<", 0);
    AtChar(s, i + 1, [mark], 0);
    forall n | i <= n < e
      ensures !StartsAt(s, n, ">")
    {
      NoEnd(s, i, mark, inside, n);
    }
    StandsAt(s, e, ">");
    FindIs(s, i, ">", e);
    DeclarationMark(s, i, mark, inside);
    InertStep(s, i, e + 1, blank);
  }

  lemma NoEnd(s: string, i: nat, mark: char, inside: string, n: nat)
    requires i <= n < i + |inside| + 2 && (mark == '!' || mark == '?') && '>' !in inside
    requires At(s, i, "<" + ([mark] + (inside + ">")))
    ensures !StartsAt(s, n, ">")
  {
    hide At, StartsAt;
    var all := "<" + ([mark] + (inside + ">"));
    AtChar(s, i, all, n - i);
    assert all[n - i] == if n == i then '<' else if n == i + 1 then mark else inside[n - i - 2];
    NotAt(s, n, ">", 0);
  }

  lemma DeclarationMark(s: string, i: nat, mark: char, inside: string)
    requires (mark == '!' || mark == '?') && !(mark == '!' && "--" <= inside)
    requires At(s, i, "<" + ([mark] + (inside + ">")))
    ensures !StartsAt(s, i, "<!--") && (StartsAt(s, i, "<!") || StartsAt(s, i, "<?"))
  {
    hide At;
    var all := "<" + ([mark] + (inside + ">"));
    AtEnd(s, i, all);
    AtChar(s, i, all, 0);
    AtChar(s, i, all, 1);
    assert s[i..i + 2] == ['<', mark];
    var k := if mark == '?' then 1 else if all[2] != '-' then 2 else 3;
    if k >= 2 {
      AtChar(s, i, all, 2);
      Dashes(inside, mark);
    }
    if k == 3 {
      AtChar(s, i, all, 3);
    }
    NotAt(s, i, "<!--", k);
  }

  lemma Dashes(inside: string, mark: char)
    ensures var all := "<" + ([mark] + (inside + ">"));
            |all| >= 3 && (all[2] == '-' ==> |all| >= 4 && (all[3] == '-' ==> "--" <= inside))
  {
    var all := "<" + ([mark] + (inside + ">"));
    if inside != "" {
      assert all[2] == inside[0];
      assert all[3] == if |inside| == 1 then '>' else inside[1];
    }
  }

  lemma ProseReads(s: string, i: nat, text: string, blank: string -> bool)
    requires '<' !in text && At(s, i, text)
    ensures CandidatesFrom(s, i, blank) == CandidatesFrom(s, i + |text|, blank)
  {
    hide NextTag, CandidatesFrom;
    forall n | i <= n < i + |text|
      ensures s[n] != '<'
    {
      var k := n - i;
      assert s[i + k] == text[k] && text[k] in text;
    }
    TextPassed(s, i, i + |text|, blank);
  }

  lemma LabelledReads(s: string, i: nat, attrs: seq<Quoted>, words: string, blank: string -> bool)
    requires WritableAll(attrs) && '<' !in words && At(s, i, StretchText(Labelled(attrs, words)))
    ensures var w := Labelled(attrs, words);
            CandidatesFrom(s, i, blank) == LinkOf(w, i, blank) + CandidatesFrom(s, i + |StretchText(w)|, blank)
  {
    hide At, NextTag, ContentFrom, TagText, Lower, CandidatesFrom, Meant, ValueOf;
    AtParts(s, i, TagText("a", attrs), words + "</a>");
    var e := i + |TagText("a", attrs)|;
    AtParts(s, e, words, "</a>");
    LowerSame("a");
    TagReads(s, i, "a", attrs);
    TagStep(s, i, "a", Meant(attrs), e, blank);
    var c := LabelInside(s, e, words, blank);
    ProseReads(s, e, words, blank);
    ClosePassed(s, e + |words|, blank);
  }

  lemma PicturedReads(s: string, i: nat, attrs: seq<Quoted>, image: seq<Quoted>, blank: string -> bool)
    requires WritableAll(attrs) && WritableAll(image) && At(s, i, StretchText(Pictured(attrs, image)))
    ensures var w := Pictured(attrs, image);
            CandidatesFrom(s, i, blank) == LinkOf(w, i, blank) + CandidatesFrom(s, i + |StretchText(w)|, blank)
  {
    hide At, NextTag, ContentFrom, TagText, Lower, CandidatesFrom, Meant, ValueOf, Says;
    AtParts(s, i, TagText("a", attrs), TagText("img", image) + "</a>");
    var e := i + |TagText("a", attrs)|;
    AtParts(s, e, TagText("img", image), "</a>");
    LowerSame("a");
    TagReads(s, i, "a", attrs);
    TagStep(s, i, "a", Meant(attrs), e, blank);
    PictureInside(s, e, image, blank);
    ImagePassed(s, e, image, blank);
    ClosePassed(s, e + |TagText("img", image)|, blank);
  }

  /** An image gives no link of its own. */
  lemma ImagePassed(s: string, i: nat, image: seq<Quoted>, blank: string -> bool)
    requires WritableAll(image) && At(s, i, TagText("img", image))
    ensures CandidatesFrom(s, i, blank) == CandidatesFrom(s, i + |TagText("img", image)|, blank)
  {
    hide At, NextTag, TagText, Lower;
    LowerSame("img");
    TagReads(s, i, "img", image);
    AtEnd(s, i, TagText("img", image));
    var none: seq<Candidate> := [];
    var e := i + |TagText("img", image)|;
    assert none + CandidatesFrom(s, e, blank) == CandidatesFrom(s, e, blank);
  }

  /** A page of such stretches gives exactly their links, in order, each with
      its address, words, image and attributes. */
  lemma {:induction false} PageReads(s: string, i: nat, page: seq<Stretch>, blank: string -> bool)
    requires (forall w <- page :: Sound(w)) && At(s, i, PageOf(page)) && i + |PageOf(page)| == |s|
    ensures CandidatesFrom(s, i, blank) == LinksOf(page, i, blank)
    decreases |page|
  {
    hide At, NextTag, StretchText, LinkOf, CandidatesFrom;
    AtEnd(s, i, PageOf(page));
    if page == [] {
      NothingThere(s, blank);
    } else {
      var first, rest := page[0], page[1..];
      assert first in page && forall w <- rest :: w in page;
      AtParts(s, i, StretchText(first), PageOf(rest));
      StretchReads(s, i, first, blank);
      PageReads(s, i + |StretchText(first)|, rest, blank);
    }
  }

  lemma NothingThere(s: string, blank: string -> bool)
    ensures CandidatesFrom(s, |s|, blank) == []
  {
  }
}
