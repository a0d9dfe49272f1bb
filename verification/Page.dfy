/** Finding the links on a page: a cursor that moves forward over the markup,
    the anchors it comes to, and the torrent links among them. */
module Page {
  import opened Letters
  import opened PageText

  /** A forward-only scan over the markup. */
  class Cursor {
    const s: string
    var i: nat

    ghost predicate Valid()
      reads this
    {
      i <= |s|
    }

    constructor (s: string)
      ensures Valid() && this.s == s && i == 0
    {
      this.s := s;
      i := 0;
    }

    method Skip(k: Class)
      requires Valid()
      modifies this
      ensures Valid() && i == Past(s, old(i), k)
    {
      while i < |s| && Is(k, s[i])
        invariant old(i) <= i <= |s| && Past(s, i, k) == Past(s, old(i), k)
      {
        i := i + 1;
      }
    }

    method ReadValue() returns (value: string)
      requires Valid()
      modifies this
      ensures Valid() && (value, i) == ValueAt(s, old(i))
    {
      if i < |s| && (s[i] == '"' || s[i] == '\'') {
        var quote := s[i];
        i := i + 1;
        var from := i;
        Skip(Within(quote));
        value := s[from..i];
        if i < |s| {
          i := i + 1;
        }
      } else {
        var from := i;
        Skip(Unquoted);
        value := s[from..i];
      }
    }

    /** What comes next inside a tag. */
    method ReadPiece() returns (piece: Piece)
      requires Valid()
      modifies this
      ensures Valid() && piece == PieceAt(s, old(i)) && i == piece.end
    {
      hide Past, ValueAt, Is, Lower;
      Skip(Space);
      if i == |s| {
        return Stop(i);
      }
      if s[i] == '>' {
        i := i + 1;
        return Stop(i);
      }
      if s[i] == '/' {
        i := i + 1;
        return Slash(i);
      }
      var start := i;
      Skip(AttrName);
      if i == start {
        i := i + 1;
        return NoName(i);
      }
      var name := Lower(s[start..i]);
      Skip(Space);
      if i == |s| || s[i] != '=' {
        return One(Attr(name, ""), i);
      }
      i := i + 1;
      Skip(Space);
      var value := ReadValue();
      piece := One(Attr(name, value), i);
    }

    method ReadAttrs() returns (attrs: seq<Attr>, selfClosing: bool)
      requires Valid()
      modifies this
      ensures Valid() && i >= old(i)
      ensures Attrs(attrs, selfClosing, i) == AttrsFrom(s, old(i), [], false)
    {
      hide PieceAt;
      ghost var begin, all := i, AttrsFrom(s, i, [], false);
      attrs := [];
      selfClosing := false;
      while true
        invariant begin <= i <= |s|
        invariant AttrsFrom(s, i, attrs, selfClosing) == all
        decreases |s| - i
      {
        var piece := ReadPiece();
        match piece {
          case Stop(_) => break;
          case Slash(_) => selfClosing := true;
          case NoName(_) =>
          case One(attr, _) => attrs := attrs + [attr];
        }
      }
    }

    /** What the `<` under the cursor opens. */
    method ReadMark() returns (mark: Mark)
      requires Valid() && i < |s| && s[i] == '<'
      modifies this
      ensures Valid() && mark == MarkAt(s, old(i))
      ensures i == if mark.Passed? then mark.end else mark.scan.end
    {
      hide Past, AttrsFrom, Is, Lower, PastInert;
      var start, inert := i, PastInert(s, i);
      if inert > i {
        i := inert;
        return Passed(i);
      }
      i := i + 1;
      var closing := i < |s| && s[i] == '/';
      if closing {
        i := i + 1;
      }
      var from := i;
      Skip(Name);
      if i == from {
        return Passed(i);
      }
      var name := Lower(s[from..i]);
      var attrs, selfClosing := ReadAttrs();
      mark := Opened(Scan(Tag(name, closing, selfClosing, attrs), start, i));
    }

    method Next() returns (scan: Scan)
      requires Valid()
      modifies this
      ensures Valid() && i >= old(i) && scan == NextTag(s, old(i)) && i == AfterTag(s, scan)
      ensures scan.Scan? ==> i > old(i)
    {
      hide Past, MarkAt;
      ghost var begin, all := i, NextTag(s, i);
      while true
        invariant begin <= i <= |s| && NextTag(s, i) == all
        decreases |s| - i
      {
        Skip(Text);
        if i == |s| {
          return NoTag;
        }
        var mark := ReadMark();
        if mark.Opened? {
          return mark.scan;
        }
      }
    }

    method SkipToClose(name: string)
      requires Valid()
      modifies this
      ensures Valid() && i >= old(i) && i == AfterClose(s, old(i), name)
    {
      var close := CloseAt(s, i, name);
      if close < |s| {
        i := close;
        var _ := Next();
      } else {
        i := |s|;
      }
    }

    method ContentUntilClose(name: string, blank: string -> bool) returns (text: string, image: Value)
      requires Valid()
      modifies this
      ensures Valid() && i >= old(i)
      ensures Content(text, image, i) == ContentFrom(s, old(i), name, blank, "", Missing)
    {
      hide Past, CloseAt, NextTag, ImageLabel, StartsAt;
      ghost var begin, all := i, ContentFrom(s, i, name, blank, "", Missing);
      text, image := "", Missing;
      while i < |s|
        invariant begin <= i <= |s|
        invariant ContentFrom(s, i, name, blank, text, image) == all
        decreases |s| - i
      {
        var close, next := CloseAt(s, i, name), Past(s, i, Class.Text);
        if close == i {
          var _ := Next();
          break;
        } else if next == i {
          if StartsAt(s, i, "<!--") {
            i := Capped(Find(s, i, "-->") + 3, s);
          } else {
            var inner := Next();
            if inner.Scan? && image.Missing? {
              image := ImageLabel(inner.tag, blank);
            }
          }
        } else if next == |s| {
          text := text + s[i..];
          i := |s|;
          break;
        } else {
          var end := if close < next then close else next;
          text := text + s[i..end];
          i := end;
        }
        if |text| > TEXT_LIMIT {
          break;
        }
      }
    }
  }

  // --- The anchors of a page ---------------------------------------------------------------

  predicate Raw(name: string) {
    name == "script" || name == "style" || name == "noscript" || name == "template"
  }

  predicate Linking(name: string) {
    name == "a" || name == "area" || name == "link"
  }

  /** An element the scan skips over the inside of. */
  predicate Skipped(tag: Tag) {
    !tag.closing && Raw(tag.name) && !tag.selfClosing
  }

  /** An element that gives a link. */
  predicate Links(tag: Tag) {
    !tag.closing && Linking(tag.name) && Attribute(tag.attrs, "href").Given?
  }

  /** A link as found: where its tag starts, its attributes, and for an `a` the
      text and image label inside it. */
  datatype Candidate = Candidate(start: nat, href: string, text: string, image: Value, attrs: seq<Attr>)

  /** What is inside an element that gives a link, and where the scan goes on. */
  function Inside(s: string, scan: Scan, blank: string -> bool): (c: Content)
    requires scan.Scan? && scan.end <= |s|
    ensures scan.end <= c.end <= |s|
  {
    if scan.tag.name == "a" && !scan.tag.selfClosing
    then ContentFrom(s, scan.end, "a", blank, "", Missing)
    else Content("", Missing, scan.end)
  }

  /** Where the scan goes on after a tag. */
  function Resume(s: string, scan: Scan, blank: string -> bool): (j: nat)
    requires scan.Scan? && scan.end <= |s|
    ensures scan.end <= j <= |s|
  {
    if Skipped(scan.tag) then AfterClose(s, scan.end, scan.tag.name)
    else if Links(scan.tag) then Inside(s, scan, blank).end
    else scan.end
  }

  /** The tags the scan stops at, in order. */
  function Visits(s: string, i: nat, blank: string -> bool): (visits: seq<Scan>)
    requires i <= |s|
    ensures forall k | 0 <= k < |visits| :: visits[k].Scan? && visits[k].end <= |s|
    decreases |s| - i
  {
    var scan := NextTag(s, i);
    if scan.NoTag? then [] else [scan] + Visits(s, Resume(s, scan, blank), blank)
  }

  function CandidateOf(s: string, scan: Scan, blank: string -> bool): Candidate
    requires scan.Scan? && scan.end <= |s| && Links(scan.tag)
  {
    var c := Inside(s, scan, blank);
    Candidate(scan.start, Attribute(scan.tag.attrs, "href").text, c.text, c.image, scan.tag.attrs)
  }

  function CandidatesFrom(s: string, i: nat, blank: string -> bool): seq<Candidate>
    requires i <= |s|
    decreases |s| - i
  {
    var scan := NextTag(s, i);
    if scan.NoTag? then []
    else
      (if Links(scan.tag) then [CandidateOf(s, scan, blank)] else [])
      + CandidatesFrom(s, Resume(s, scan, blank), blank)
  }

  lemma CandidatesNext(s: string, i: nat, blank: string -> bool, out: seq<Candidate>)
    requires i <= |s|
    ensures var scan := NextTag(s, i);
            if scan.NoTag? then out + CandidatesFrom(s, i, blank) == out
            else
              var rest := CandidatesFrom(s, Resume(s, scan, blank), blank);
              out + CandidatesFrom(s, i, blank)
              == if Links(scan.tag) then (out + [CandidateOf(s, scan, blank)]) + rest else out + rest
  {
    hide NextTag, Resume, CandidateOf, Links;
  }

  /** Every `href` of an `a`, `area` or `link`. `blank` says whether a label
      decodes to nothing. */
  method Anchors(s: string, blank: string -> bool) returns (out: seq<Candidate>)
    ensures out == CandidatesFrom(s, 0, blank)
  {
    hide NextTag, ContentFrom, CloseAt, AfterClose, CandidatesFrom, Attribute;
    var cursor := new Cursor(s);
    out := [];
    ghost var all := CandidatesFrom(s, 0, blank);
    while true
      invariant cursor.Valid() && cursor.s == s && fresh(cursor)
      invariant all == out + CandidatesFrom(s, cursor.i, blank)
      decreases |s| - cursor.i
    {
      CandidatesNext(s, cursor.i, blank, out);
      var scan := cursor.Next();
      if scan.NoTag? {
        break;
      }
      var tag := scan.tag;
      if tag.closing {
        continue;
      }
      if Raw(tag.name) && !tag.selfClosing {
        assert !Linking(tag.name);
        cursor.SkipToClose(tag.name);
      } else if Linking(tag.name) {
        var href := Attribute(tag.attrs, "href");
        if href.Missing? {
          continue;
        }
        var text, image := "", Missing;
        if tag.name == "a" && !tag.selfClosing {
          text, image := cursor.ContentUntilClose("a", blank);
        }
        out := out + [Candidate(scan.start, href.text, text, image, tag.attrs)];
      }
    }
  }
}
