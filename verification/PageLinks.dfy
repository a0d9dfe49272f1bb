/** What the links of a page are: never inside an element the scan skips, each
    address once, where it first occurs. */
module PageLinks {
  import opened Letters
  import opened PageText
  import opened Page
  import opened Distinct

  // --- Where links are not ---------------------------------------------------------------

  /** Every link found lies ahead of where the scan started. */
  lemma {:induction false} CandidatesAhead(s: string, i: nat, blank: string -> bool)
    requires i <= |s|
    ensures forall c <- CandidatesFrom(s, i, blank) :: i <= c.start
    decreases |s| - i
  {
    hide NextTag, Inside, AfterClose, Links, Skipped;
    var scan := NextTag(s, i);
    if scan.Scan? {
      CandidatesAhead(s, Resume(s, scan, blank), blank);
    }
  }

  lemma VisitsNext(s: string, i: nat, blank: string -> bool)
    requires i <= |s|
    ensures var scan, visits := NextTag(s, i), Visits(s, i, blank);
            if scan.NoTag? then visits == []
            else visits != [] && visits[0] == scan && visits[1..] == Visits(s, Resume(s, scan, blank), blank)
  {
    hide NextTag, Resume;
  }

  lemma {:induction false} VisitsAhead(s: string, i: nat, blank: string -> bool, a: nat)
    requires i <= |s| && a < |Visits(s, i, blank)|
    ensures var v := Visits(s, i, blank)[a]; v.Scan? && i <= v.start < v.end <= |s|
    decreases |s| - i
  {
    hide NextTag, Resume, Visits;
    VisitsNext(s, i, blank);
    if a > 0 {
      VisitsAhead(s, Resume(s, NextTag(s, i), blank), blank, a - 1);
    }
  }

  /** The tags the scan stops at come in order, each past where the scan
      resumed after every one before it. */
  lemma {:induction false} VisitsForward(s: string, i: nat, blank: string -> bool, a: nat, b: nat)
    requires i <= |s| && a < b < |Visits(s, i, blank)|
    ensures var v, w := Visits(s, i, blank)[a], Visits(s, i, blank)[b];
            v.Scan? && v.end <= |s| && w.Scan? && Resume(s, v, blank) <= w.start
    decreases |s| - i
  {
    hide NextTag, Resume, Visits;
    VisitsNext(s, i, blank);
    VisitsAhead(s, i, blank, a);
    VisitsAhead(s, i, blank, b);
    var next := Resume(s, NextTag(s, i), blank);
    if a > 0 {
      VisitsForward(s, next, blank, a - 1, b - 1);
    } else {
      VisitsAhead(s, next, blank, b - 1);
    }
  }

  /** No link is taken from inside an element the scan skips: none starts
      between the end of its tag and the first close tag of its name. */
  lemma {:induction false} NoLinkInSkipped(s: string, i: nat, blank: string -> bool, k: nat, c: Candidate)
    requires i <= |s| && k < |Visits(s, i, blank)| && Skipped(Visits(s, i, blank)[k].tag)
    requires c in CandidatesFrom(s, i, blank)
    ensures var v := Visits(s, i, blank)[k];
            v.Scan? && v.end <= |s| && !(v.end <= c.start < CloseAt(s, v.end, v.tag.name))
    decreases |s| - i
  {
    hide NextTag, Visits, Resume, CloseAt, CandidateOf, Skipped, Links;
    VisitsNext(s, i, blank);
    VisitsAhead(s, i, blank, k);
    var scan, v := NextTag(s, i), Visits(s, i, blank)[k];
    var next := Resume(s, scan, blank);
    if c in CandidatesFrom(s, next, blank) {
      if k == 0 {
        SkippedPast(s, scan, blank);
        CandidatesAhead(s, next, blank);
      } else {
        NoLinkInSkipped(s, next, blank, k - 1, c);
      }
    } else {
      CandidateStarts(s, scan, blank);
      if k > 0 {
        VisitsForward(s, i, blank, 0, k);
      }
    }
  }

  lemma SkippedPast(s: string, scan: Scan, blank: string -> bool)
    requires scan.Scan? && scan.end <= |s| && Skipped(scan.tag)
    ensures CloseAt(s, scan.end, scan.tag.name) <= Resume(s, scan, blank)
  {
    hide CloseAt;
  }

  lemma CandidateStarts(s: string, scan: Scan, blank: string -> bool)
    requires scan.Scan? && scan.end <= |s| && Links(scan.tag)
    ensures CandidateOf(s, scan, blank).start == scan.start
  {
    hide Inside;
  }

  // --- Inside an anchor -------------------------------------------------------------------------

  /** The tags read over inside an element's content, with `n` characters of
      text collected so far. */
  function ReadTags(s: string, i: nat, name: string, n: nat): seq<Scan>
    requires i <= |s|
    decreases |s| - i
  {
    if i == |s| || n > TEXT_LIMIT then []
    else
      var close, open := CloseAt(s, i, name), Past(s, i, Class.Text);
      if close == i then []
      else if open == i then
        if StartsAt(s, i, "<!--") then ReadTags(s, Capped(Find(s, i, "-->") + 3, s), name, n)
        else
          var inner := NextTag(s, i);
          (if inner.Scan? then [inner] else []) + ReadTags(s, AfterTag(s, inner), name, n)
      else if open == |s| then []
      else
        var end := if close < open then close else open;
        ReadTags(s, end, name, n + (end - i))
  }

  /** Where the reading of a content pauses to look for the close tag: between
      its tags, comments and stretches of text, and last where it is left. */
  function Pauses(s: string, i: nat, name: string, n: nat): (ps: seq<nat>)
    requires i <= |s|
    ensures |ps| > 0 && forall p <- ps :: i <= p <= |s|
    decreases |s| - i
  {
    if i == |s| || n > TEXT_LIMIT then [i]
    else
      var close, open := CloseAt(s, i, name), Past(s, i, Class.Text);
      if close == i then [i]
      else if open == i then
        var next := if StartsAt(s, i, "<!--") then Capped(Find(s, i, "-->") + 3, s) else AfterTag(s, NextTag(s, i));
        [i] + Pauses(s, next, name, n)
      else if open == |s| then [i, |s|]
      else
        var end := if close < open then close else open;
        [i] + Pauses(s, end, name, n + (end - i))
  }

  predicate Closes(s: string, p: nat, name: string) {
    p < |s| && StartsAt(Lower(s), p, "</" + name)
  }

  /** A content is left at the first pause that stands at something like its
      close tag, and then past it, unless the markup ends or enough text is
      collected before. */
  predicate LeftBecause(s: string, i: nat, name: string, n: nat, c: Content)
    requires i <= |s|
  {
    var ps := Pauses(s, i, name, n);
    var p := ps[|ps| - 1];
    && (forall k | 0 <= k < |ps| - 1 :: !Closes(s, ps[k], name))
    && if p == |s| then c.end == |s|
       else if |c.text| > TEXT_LIMIT then c.end == p
       else Closes(s, p, name) && c.end == AfterTag(s, NextTag(s, p))
  }

  lemma ClosesIff(s: string, i: nat, name: string)
    requires i <= |s|
    ensures Closes(s, i, name) <==> i < |s| && CloseAt(s, i, name) == i
  {
  }

  lemma PauseFirst(s: string, i: nat, name: string, n: nat, c: Content, m: nat, j: nat)
    requires i < |s| && j <= |s| && !Closes(s, i, name)
    requires Pauses(s, i, name, n) == [i] + Pauses(s, j, name, m) && LeftBecause(s, j, name, m, c)
    ensures LeftBecause(s, i, name, n, c)
  {
    hide Closes, Pauses;
  }

  lemma PauseLast(s: string, i: nat, name: string, blank: string -> bool, text: string, image: Value)
    requires i <= |s|
    requires i == |s| || |text| > TEXT_LIMIT || CloseAt(s, i, name) == i || Past(s, i, Class.Text) == |s|
    ensures LeftBecause(s, i, name, |text|, Limited(s, i, name, blank, text, image))
  {
    hide CloseAt, NextTag, Past, Find, ImageLabel, Lower, StartsAt, Closes;
    ClosesIff(s, i, name);
  }

  /** One round of the reading, when it does not stop. */
  lemma ContentNext(s: string, i: nat, name: string, blank: string -> bool, text: string, image: Value)
    returns (next: nat, more: string, shown: Value)
    requires i < |s| && |text| <= TEXT_LIMIT && CloseAt(s, i, name) != i && Past(s, i, Class.Text) < |s|
    ensures i < next <= |s|
    ensures Limited(s, i, name, blank, text, image) == Limited(s, next, name, blank, more, shown)
    ensures Pauses(s, i, name, |text|) == [i] + Pauses(s, next, name, |more|)
  {
    hide CloseAt, NextTag, Past, Find, ImageLabel, StartsAt;
    var close, open := CloseAt(s, i, name), Past(s, i, Class.Text);
    if open == i {
      more := text;
      if StartsAt(s, i, "<!--") {
        next, shown := Capped(Find(s, i, "-->") + 3, s), image;
      } else {
        var inner := NextTag(s, i);
        next := AfterTag(s, inner);
        shown := if image.Missing? && inner.Scan? then ImageLabel(inner.tag, blank) else image;
      }
    } else {
      next, shown := if close < open then close else open, image;
      more := text + s[i..next];
    }
  }

  lemma {:induction false} ContentLeft(
      s: string, i: nat, name: string, blank: string -> bool, text: string, image: Value)
    requires i <= |s|
    ensures LeftBecause(s, i, name, |text|, Limited(s, i, name, blank, text, image))
    decreases |s| - i
  {
    hide *;
    if i == |s| || |text| > TEXT_LIMIT || CloseAt(s, i, name) == i || Past(s, i, Class.Text) == |s| {
      PauseLast(s, i, name, blank, text, image);
    } else {
      var next, more, shown := ContentNext(s, i, name, blank, text, image);
      ContentLeft(s, next, name, blank, more, shown);
      ClosesIff(s, i, name);
      PauseFirst(s, i, name, |text|, Limited(s, i, name, blank, text, image), |more|, next);
    }
  }

  /** The tags read over lie between the start of the content and its end. */
  lemma {:induction false} ReadWithin(
      s: string, i: nat, name: string, blank: string -> bool, text: string, image: Value)
    requires i <= |s|
    ensures forall t <- ReadTags(s, i, name, |text|) ::
              t.Scan? && i <= t.start < t.end <= Limited(s, i, name, blank, text, image).end
    decreases |s| - i
  {
    hide CloseAt, NextTag, Past, Find, ImageLabel, StartsAt;
    if i < |s| && |text| <= TEXT_LIMIT {
      var close, open := CloseAt(s, i, name), Past(s, i, Class.Text);
      if close == i {
      } else if open == i {
        if StartsAt(s, i, "<!--") {
          ReadWithin(s, Capped(Find(s, i, "-->") + 3, s), name, blank, text, image);
        } else {
          var inner := NextTag(s, i);
          var shown := if image.Missing? && inner.Scan? then ImageLabel(inner.tag, blank) else image;
          ReadWithin(s, AfterTag(s, inner), name, blank, text, shown);
        }
      } else if open < |s| {
        var end := if close < open then close else open;
        ReadWithin(s, end, name, blank, text + s[i..end], image);
      }
    }
  }

  /** The links found after a tag are those found from where the scan resumed
      after it. */
  lemma {:induction false} CandidatesAfter(s: string, i: nat, blank: string -> bool, k: nat, c: Candidate)
    requires i <= |s| && k < |Visits(s, i, blank)|
    ensures var v := Visits(s, i, blank)[k];
            && v.Scan? && v.end <= |s|
            && (c in CandidatesFrom(s, Resume(s, v, blank), blank) <==>
                  c in CandidatesFrom(s, i, blank) && c.start > v.start)
    decreases |s| - i
  {
    hide NextTag, Visits, Resume, CandidateOf, Links;
    VisitsNext(s, i, blank);
    VisitsAhead(s, i, blank, k);
    var scan := NextTag(s, i);
    var next := Resume(s, scan, blank);
    if Links(scan.tag) {
      CandidateStarts(s, scan, blank);
    }
    CandidatesAhead(s, next, blank);
    if k > 0 {
      VisitsForward(s, i, blank, 0, k);
      CandidatesAfter(s, next, blank, k - 1, c);
      CandidatesAhead(s, Resume(s, Visits(s, i, blank)[k], blank), blank);
    }
  }

  /** An anchor whose content is read. */
  predicate Anchor(v: Scan) {
    v.Scan? && Links(v.tag) && v.tag.name == "a" && !v.tag.selfClosing
  }

  /** Where a tag read over inside an anchor stands, and why the anchor is
      left. */
  lemma InnerPlace(s: string, blank: string -> bool, v: Scan, t: Scan)
    requires Anchor(v) && v.end <= |s| && t in ReadTags(s, v.end, "a", 0)
    ensures t.Scan? && v.end <= t.start < t.end <= Resume(s, v, blank) <= |s|
    ensures LeftBecause(s, v.end, "a", 0, Inside(s, v, blank)) && Inside(s, v, blank).end == Resume(s, v, blank)
  {
    hide ContentFrom, ReadTags, LeftBecause;
    assert !Raw("a") && !Skipped(v.tag);
    assert Inside(s, v, blank) == Limited(s, v.end, "a", blank, "", Missing);
    ReadWithin(s, v.end, "a", blank, "", Missing);
    ContentLeft(s, v.end, "a", blank, "", Missing);
  }

  /** A tag read over inside an anchor has a link inside its element, up to the
      first close tag of its name, exactly when the anchor is left before that
      close tag and a link follows before it. */
  lemma InnerLinkIff(s: string, blank: string -> bool, k: nat, t: Scan)
    requires k < |Visits(s, 0, blank)| && Anchor(Visits(s, 0, blank)[k])
    requires t in ReadTags(s, Visits(s, 0, blank)[k].end, "a", 0)
    ensures t.Scan? && t.end <= |s|
    ensures var v, close := Visits(s, 0, blank)[k], CloseAt(s, t.end, t.tag.name);
            (exists c <- CandidatesFrom(s, 0, blank) :: t.end <= c.start < close) <==>
              (&& Resume(s, v, blank) < close
               && exists c <- CandidatesFrom(s, Resume(s, v, blank), blank) :: c.start < close)
  {
    hide NextTag, CloseAt, ContentFrom, ReadTags, LeftBecause, Resume, Inside;
    var v := Visits(s, 0, blank)[k];
    VisitsAhead(s, 0, blank, k);
    InnerPlace(s, blank, v, t);
    var close := CloseAt(s, t.end, t.tag.name);
    if c :| c in CandidatesFrom(s, 0, blank) && t.end <= c.start < close {
      LinkAfter(s, blank, k, c);
      assert c in CandidatesFrom(s, Resume(s, v, blank), blank);
    }
    if c :| c in CandidatesFrom(s, Resume(s, v, blank), blank) && c.start < close {
      LinkAfter(s, blank, k, c);
      assert c in CandidatesFrom(s, 0, blank);
    }
  }

  lemma LinkAfter(s: string, blank: string -> bool, k: nat, c: Candidate)
    requires k < |Visits(s, 0, blank)|
    ensures var v := Visits(s, 0, blank)[k];
            && (c in CandidatesFrom(s, Resume(s, v, blank), blank) ==>
                  c in CandidatesFrom(s, 0, blank) && Resume(s, v, blank) <= c.start)
            && (c in CandidatesFrom(s, 0, blank) && v.start < c.start ==>
                  c in CandidatesFrom(s, Resume(s, v, blank), blank))
  {
    hide Visits, Resume, CandidatesFrom;
    CandidatesAfter(s, 0, blank, k, c);
    CandidatesAhead(s, Resume(s, Visits(s, 0, blank)[k], blank), blank);
  }

  // --- Each address once ---------------------------------------------------------------------

  /** What resolving and classifying a candidate comes to. */
  datatype Resolved = NotALink | Address(url: string)

  datatype PageLink = PageLink(url: string, candidate: Candidate)

  /** The addresses of all candidates that are links, repeats and all. */
  function Addresses(found: seq<Candidate>, resolve: Candidate -> Resolved): seq<string> {
    if found == [] then []
    else
      var last := resolve(found[|found| - 1]);
      Addresses(found[..|found| - 1], resolve) + if last.Address? then [last.url] else []
  }

  function Urls(links: seq<PageLink>): (urls: seq<string>)
    ensures |urls| == |links| && forall i | 0 <= i < |urls| :: urls[i] == links[i].url
  {
    seq(|links|, i requires 0 <= i < |links| => links[i].url)
  }

  /** Every link on a page, in document order, each address once. */
  method ExtractLinks(s: string, blank: string -> bool, resolve: Candidate -> Resolved) returns (out: seq<PageLink>)
    ensures Urls(out) == Firsts(Addresses(CandidatesFrom(s, 0, blank), resolve))
    ensures forall l <- out :: l.candidate in CandidatesFrom(s, 0, blank) && resolve(l.candidate) == Address(l.url)
  {
    hide CandidatesFrom, Firsts, Addresses;
    var found := Anchors(s, blank);
    var seen: seq<string> := [];
    out := [];
    NoAddresses(found, resolve);
    for i := 0 to |found|
      invariant seen == Urls(out) && seen == Firsts(Addresses(found[..i], resolve))
      invariant forall l <- out :: l.candidate in found && resolve(l.candidate) == Address(l.url)
    {
      AddressNext(found, i, resolve);
      var resolved := resolve(found[i]);
      if resolved.NotALink? {
        continue;
      }
      if resolved.url in seen {
        continue;
      }
      seen := seen + [resolved.url];
      out := out + [PageLink(resolved.url, found[i])];
    }
    assert found[..|found|] == found;
  }

  lemma NoAddresses(found: seq<Candidate>, resolve: Candidate -> Resolved)
    ensures Firsts(Addresses(found[..0], resolve)) == []
  {
  }

  lemma AddressNext(found: seq<Candidate>, i: nat, resolve: Candidate -> Resolved)
    requires i < |found|
    ensures var before, here := Firsts(Addresses(found[..i], resolve)), resolve(found[i]);
            Firsts(Addresses(found[..i + 1], resolve))
            == if here.Address? && here.url !in before then before + [here.url] else before
  {
    hide Firsts;
    assert found[..i + 1][..i] == found[..i];
    var all := Addresses(found[..i], resolve);
    if resolve(found[i]).Address? {
      FirstsAdd(all, resolve(found[i]).url);
    } else {
      assert all + [] == all;
    }
  }

  /** The addresses listed are all different, are all there are, and stand in
      the order in which they first occur on the page. */
  lemma LinksInOrder(all: seq<string>)
    ensures NoRepeats(Firsts(all))
    ensures forall url :: url in Firsts(all) <==> url in all
    ensures forall i, j | 0 <= i < j < |Firsts(all)| ::
              && Firsts(all)[i] in all && Firsts(all)[j] in all
              && FirstAt(all, Firsts(all)[i]) < FirstAt(all, Firsts(all)[j])
  {
    hide Firsts, FirstAt;
    FirstsNoRepeats(all);
    forall url ensures url in Firsts(all) <==> url in all {
      FirstsMember(all, url);
    }
    forall i, j | 0 <= i < j < |Firsts(all)|
      ensures Firsts(all)[i] in all && Firsts(all)[j] in all
      ensures FirstAt(all, Firsts(all)[i]) < FirstAt(all, Firsts(all)[j]) {
      FirstsInOrder(all, i, j);
    }
  }

  // --- A link inside an element the scan does not stop at ---------------------------------------

  /** A style element inside an anchor, with an anchor of its own inside. */
  const NESTED: string := "<a href=x><style></a><a href=y></style>"

  lemma {:induction false} PastIs(s: string, i: nat, k: Class, j: nat)
    requires i <= j < |s| && !Is(k, s[j]) && forall n | i <= n < j :: Is(k, s[n])
    ensures Past(s, i, k) == j
    decreases j - i
  {
    if i < j {
      PastIs(s, i + 1, k, j);
    }
  }

  predicate PlainName(s: string, from: nat, to: nat) {
    from < to < |s| && !Is(Name, s[to]) && forall n | from <= n < to :: Is(Name, s[n])
  }

  lemma NotInert(s: string, i: nat)
    requires i + 1 < |s| && s[i] == '<' && s[i + 1] != '!' && s[i + 1] != '?'
    ensures PastInert(s, i) == i && !StartsAt(s, i, "<!--")
  {
    assert !StartsAt(s, i, "<!") by {
      assert i + 2 <= |s| ==> s[i..i + 2][1] == s[i + 1];
    }
    assert !StartsAt(s, i, "<?") by {
      assert i + 2 <= |s| ==> s[i..i + 2][1] == s[i + 1];
    }
    assert !StartsAt(s, i, "<!--") by {
      assert i + 4 <= |s| ==> s[i..i + 4][1] == s[i + 1];
    }
  }

  /** A tag with no attributes. */
  lemma BareTag(s: string, i: nat, from: nat, to: nat, closing: bool)
    requires i < |s| && s[i] == '<' && PlainName(s, from, to) && s[to] == '>'
    requires from == i + (if closing then 2 else 1) && (closing <==> s[i + 1] == '/')
    ensures NextTag(s, i) == Scan(Tag(Lower(s[from..to]), closing, false, []), i, to + 1)
  {
    hide Past, Lower, StartsAt, PastInert;
    NotInert(s, i);
    PastIs(s, i, Class.Text, i);
    PastIs(s, from, Name, to);
    PastIs(s, to, Space, to);
  }

  /** An anchor with an unquoted address of one character. */
  predicate ShortAnchorAt(s: string, i: nat) {
    && i + 10 <= |s| && s[i] == '<' && s[i + 1] == 'a' && s[i + 2] == ' ' && s[i + 3] == 'h' && s[i + 4] == 'r'
    && s[i + 5] == 'e' && s[i + 6] == 'f' && s[i + 7] == '=' && Is(Name, s[i + 8]) && s[i + 9] == '>'
  }

  lemma ShortAnchor(s: string, i: nat)
    requires ShortAnchorAt(s, i)
    ensures NextTag(s, i) == Scan(Tag("a", false, false, [Attr("href", [s[i + 8]])]), i, i + 10)
  {
    hide Past, Lower, StartsAt, PastInert;
    NotInert(s, i);
    PastIs(s, i, Class.Text, i);
    PastIs(s, i + 1, Name, i + 2);
    HrefPiece(s, i);
    assert s[i + 1..i + 2] == "a";
    LowerSame("a");
    PastIs(s, i + 9, Space, i + 9);
    assert PieceAt(s, i + 9) == Stop(i + 10);
    OneAttribute(s, i + 2, Attr("href", [s[i + 8]]), i + 9, i + 10);
    assert MarkAt(s, i) == Opened(Scan(Tag("a", false, false, [Attr("href", [s[i + 8]])]), i, i + 10)) by {
      hide PieceAt, AttrsFrom;
    }
  }

  lemma OneAttribute(s: string, i: nat, attr: Attr, j: nat, end: nat)
    requires i <= j <= |s| && PieceAt(s, i) == One(attr, j) && PieceAt(s, j) == Stop(end)
    ensures AttrsFrom(s, i, [], false) == Attrs([attr], false, end)
  {
    hide PieceAt;
    assert AttrsFrom(s, j, [attr], false) == Attrs([attr], false, end);
    var none: seq<Attr> := [];
    assert none + [attr] == [attr];
  }

  lemma HrefPiece(s: string, i: nat)
    requires ShortAnchorAt(s, i)
    ensures PieceAt(s, i + 2) == One(Attr("href", [s[i + 8]]), i + 9)
  {
    hide Past, Lower;
    PastIs(s, i + 2, Space, i + 3);
    PastIs(s, i + 3, AttrName, i + 7);
    PastIs(s, i + 7, Space, i + 7);
    PastIs(s, i + 8, Space, i + 8);
    PastIs(s, i + 8, Unquoted, i + 9);
    assert s[i + 3..i + 7] == "href";
    LowerSame("href");
    assert s[i + 8..i + 9] == [s[i + 8]];
  }

  lemma {:induction false} FindIs(s: string, i: nat, part: string, j: nat)
    requires part != "" && i <= j < |s| && StartsAt(s, j, part) && forall n | i <= n < j :: !StartsAt(s, n, part)
    ensures Find(s, i, part) == j
    decreases j - i
  {
    if i < j {
      FindIs(s, i + 1, part, j);
    }
  }

  lemma NotAt(s: string, n: nat, part: string, k: nat)
    requires k < |part| && (n + k < |s| ==> s[n + k] != part[k])
    ensures !StartsAt(s, n, part)
  {
    if n + |part| <= |s| {
      assert s[n..n + |part|][k] == s[n + k];
    }
  }

  /** The close tag of the name stands at `j`, and nothing like one before. */
  predicate ClosesAt(s: string, i: nat, name: string, j: nat) {
    && i <= j < |s| && StartsAt(Lower(s), j, "</" + name)
    && forall n | i <= n < j :: LowerChar(s[n]) != '<' || (n + 1 < |s| && LowerChar(s[n + 1]) != '/')
  }

  lemma CloseIs(s: string, i: nat, name: string, j: nat)
    requires ClosesAt(s, i, name, j)
    ensures CloseAt(s, i, name) == j
  {
    hide LowerChar;
    forall n | i <= n < j ensures !StartsAt(Lower(s), n, "</" + name) {
      NotAt(Lower(s), n, "</" + name, if LowerChar(s[n]) != '<' then 0 else 1);
    }
    FindIs(Lower(s), i, "</" + name, j);
  }

  lemma NestedFirst()
    ensures |NESTED| == 39
    ensures NextTag(NESTED, 0) == Scan(Tag("a", false, false, [Attr("href", "x")]), 0, 10)
  {
    hide NextTag;
    assert [NESTED[8]] == "x";
    ShortAnchor(NESTED, 0);
  }

  lemma NestedSecond()
    ensures |NESTED| == 39
    ensures NextTag(NESTED, 21) == Scan(Tag("a", false, false, [Attr("href", "y")]), 21, 31)
  {
    hide NextTag;
    assert [NESTED[29]] == "y";
    ShortAnchor(NESTED, 21);
  }

  lemma NestedStyle()
    ensures NextTag(NESTED, 10) == Scan(Tag("style", false, false, []), 10, 17)
  {
    hide NextTag, Lower;
    StyleName();
    BareTag(NESTED, 10, 11, 16, false);
  }

  lemma StyleName()
    ensures |NESTED| == 39 && Lower(NESTED[11..16]) == "style"
  {
    hide Lower;
    SliceIs(NESTED, 11, "style");
    LowerSame("style");
  }

  lemma NestedEnd()
    ensures NextTag(NESTED, 17) == Scan(Tag("a", true, false, []), 17, 21)
  {
    hide NextTag, Lower;
    BareTag(NESTED, 17, 19, 20, true);
    assert Lower(NESTED[19..20]) == "a";
  }

  lemma SliceIs(s: string, i: nat, part: string)
    requires i + |part| <= |s| && forall n | 0 <= n < |part| :: s[i + n] == part[n]
    ensures s[i..i + |part|] == part
  {
  }

  lemma LowerSame(part: string)
    requires forall n | 0 <= n < |part| :: LowerChar(part[n]) == part[n]
    ensures Lower(part) == part
  {
  }

  lemma LowerAt(s: string, i: nat, part: string)
    requires i + |part| <= |s| && s[i..i + |part|] == part
    requires forall n | 0 <= n < |part| :: LowerChar(part[n]) == part[n]
    ensures StartsAt(Lower(s), i, part)
  {
    hide LowerChar, Lower;
    forall n | 0 <= n < |part| ensures Lower(s)[i..i + |part|][n] == part[n] {
      assert s[i..i + |part|][n] == s[i + n];
    }
  }

  lemma AnchorCloses(i: nat)
    requires i == 10 || i == 17
    ensures |NESTED| == 39 && CloseAt(NESTED, i, "a") == 17
  {
    hide CloseAt, Lower;
    SliceIs(NESTED, 17, "</a");
    LowerAt(NESTED, 17, "</a");
    assert "</" + "a" == "</a";
    CloseIs(NESTED, i, "a", 17);
  }

  lemma StyleCloses()
    ensures |NESTED| == 39 && CloseAt(NESTED, 17, "style") == 31
  {
    hide Lower;
    SliceIs(NESTED, 31, "</style");
    assert "</" + "style" == "</style";
    LowerAt(NESTED, 31, "</style");
    forall n | 17 <= n < 31 ensures !StartsAt(Lower(NESTED), n, "</style") {
      NotAt(Lower(NESTED), n, "</style", if n == 17 then 2 else if n == 21 then 1 else 0);
    }
    FindIs(Lower(NESTED), 17, "</style", 31);
  }

  /** The scan does not stop at tags inside an anchor, and leaves the anchor at
      the first thing like its close tag: a link inside a style element inside
      an anchor is returned. */
  lemma LinkInNested(blank: string -> bool)
    ensures NextTag(NESTED, 10).Scan? && Skipped(NextTag(NESTED, 10).tag)
    ensures NextTag(NESTED, 10).end == 17 && CloseAt(NESTED, 17, "style") == 31
    ensures exists c :: c in CandidatesFrom(NESTED, 0, blank) && c.href == "y" && 17 <= c.start < 31
  {
    hide NextTag, CloseAt, Resume, ContentFrom, CandidatesFrom;
    NestedFirst();
    NestedSecond();
    NestedStyle();
    StyleCloses();
    NestedResume(blank);
    var second := NextTag(NESTED, 21);
    var c := CandidateOf(NESTED, second, blank);
    var none: seq<Candidate> := [];
    CandidatesNext(NESTED, 0, blank, none);
    CandidatesNext(NESTED, 21, blank, none);
    assert none + CandidatesFrom(NESTED, 21, blank) == CandidatesFrom(NESTED, 21, blank);
    assert c in none + CandidatesFrom(NESTED, 21, blank);
    assert none + CandidatesFrom(NESTED, 0, blank) == CandidatesFrom(NESTED, 0, blank);
    assert c in none + CandidatesFrom(NESTED, 0, blank);
    CandidateStarts(NESTED, second, blank);
  }

  lemma NestedResume(blank: string -> bool)
    ensures |NESTED| == 39 && NextTag(NESTED, 0).Scan? && Resume(NESTED, NextTag(NESTED, 0), blank) == 21
  {
    hide NextTag, ContentFrom;
    NestedFirst();
    NestedSecond();
    NestedInside(blank);
  }

  lemma NestedInside(blank: string -> bool)
    ensures |NESTED| == 39 && ContentFrom(NESTED, 10, "a", blank, "", Missing).end == 21
  {
    hide NextTag, CloseAt, Past;
    NestedFirst();
    NestedSecond();
    NestedStyle();
    NestedEnd();
    AnchorCloses(10);
    AnchorCloses(17);
    PastIs(NESTED, 10, Class.Text, 10);
    NotInert(NESTED, 10);
    assert ContentFrom(NESTED, 17, "a", blank, "", Missing).end == 21;
  }

  /** An anchor around a style element with much text before the anchor in it. */
  function LongPage(fill: string): string {
    "<a href=x><style>" + fill + "<a href=y></style></a>"
  }

  lemma LongPageShape(fill: string)
    ensures var s, n := LongPage(fill), |fill|;
            && |s| == n + 39 && ShortAnchorAt(s, 0) && ShortAnchorAt(s, n + 17) && s[n + 25] == 'y'
            && s[10] == '<' && PlainName(s, 11, 16) && s[16] == '>' && s[11] == 's'
            && s[11..16] == "style"
            && s[n + 27..n + 34] == "</style" && s[n + 27] == '<' && s[n + 28] == '/' && s[n + 29] == 's'
            && s[n + 35..n + 38] == "</a"
            && (forall k | 0 <= k < n :: s[17 + k] == fill[k])
            && (forall k | n + 18 <= k < n + 27 :: s[k] != '<')
            && (forall k | n + 30 <= k < n + 35 :: s[k] != '<')
  {
    var s, n, head, tail := LongPage(fill), |fill|, "<a href=x><style>", "<a href=y></style></a>";
    hide LongPage;
    LongParts(fill, head, tail);
    LongTail(s, n + 17, tail);
    LongHead(s, head);
  }

  lemma LongParts(fill: string, head: string, tail: string)
    requires head == "<a href=x><style>" && tail == "<a href=y></style></a>"
    ensures LongPage(fill) == head + fill + tail && |head| == 17 && |tail| == 22
    ensures forall k | 0 <= k < 17 :: LongPage(fill)[k] == head[k]
    ensures forall k | 0 <= k < |fill| :: LongPage(fill)[17 + k] == fill[k]
  {
  }

  lemma LongHead(s: string, head: string)
    requires head == "<a href=x><style>" && |s| >= 17 && forall k | 0 <= k < 17 :: s[k] == head[k]
    ensures ShortAnchorAt(s, 0) && s[10] == '<' && PlainName(s, 11, 16) && s[16] == '>' && s[11] == 's'
    ensures s[11..16] == "style"
  {
    SliceIs(s, 11, "style");
  }

  lemma LongTail(s: string, at: nat, tail: string)
    requires tail == "<a href=y></style></a>" && at + 22 <= |s| && s[at..at + 22] == tail
    ensures ShortAnchorAt(s, at) && s[at + 8] == 'y'
    ensures s[at + 10..at + 17] == "</style" && s[at + 10] == '<' && s[at + 11] == '/' && s[at + 12] == 's'
    ensures s[at + 18..at + 21] == "</a"
    ensures (forall k | at + 1 <= k < at + 10 :: s[k] != '<') && forall k | at + 13 <= k < at + 18 :: s[k] != '<'
  {
    assert forall k | 0 <= k < 22 :: s[at + k] == tail[k];
    SliceIs(s, at + 10, "</style");
    SliceIs(s, at + 18, "</a");
    forall k | at + 1 <= k < at + 10 ensures s[k] != '<' {
      assert s[k] == tail[k - at];
    }
    forall k | at + 13 <= k < at + 18 ensures s[k] != '<' {
      assert s[k] == tail[k - at];
    }
  }

  /** With more text in front of it than is collected, and no markup in it, the
      style element is still open when the anchor is left: the anchor in it is
      returned, although the style element closes before the outer anchor. */
  lemma LinkPastLimit(fill: string, blank: string -> bool)
    requires |fill| > TEXT_LIMIT && '<' !in fill
    ensures var s, n := LongPage(fill), |fill|;
            && |s| == n + 39 && NextTag(s, 10) == Scan(Tag("style", false, false, []), 10, 17)
            && CloseAt(s, 17, "style") == n + 27 < CloseAt(s, 10, "a")
            && exists c <- CandidatesFrom(s, 0, blank) :: c.href == "y" && c.start == n + 17
  {
    hide NextTag, CloseAt, Resume, ContentFrom, CandidatesFrom, LongPage;
    var s, n := LongPage(fill), |fill|;
    LongPageShape(fill);
    ShortAnchor(s, 0);
    ShortAnchor(s, n + 17);
    LongStyle(fill);
    LongCloses(fill);
    LongInside(fill, blank);
    LongResume(fill, blank);
    var second := NextTag(s, n + 17);
    var c := CandidateOf(s, second, blank);
    var none: seq<Candidate> := [];
    assert [s[n + 25]] == "y";
    CandidatesNext(s, 0, blank, none);
    CandidatesNext(s, n + 17, blank, none);
    assert none + CandidatesFrom(s, n + 17, blank) == CandidatesFrom(s, n + 17, blank);
    assert c in none + CandidatesFrom(s, n + 17, blank);
    assert none + CandidatesFrom(s, 0, blank) == CandidatesFrom(s, 0, blank);
    assert c in none + CandidatesFrom(s, 0, blank);
    CandidateStarts(s, second, blank);
  }

  lemma LongStyle(fill: string)
    ensures |LongPage(fill)| == |fill| + 39
    ensures NextTag(LongPage(fill), 10) == Scan(Tag("style", false, false, []), 10, 17)
  {
    hide NextTag, Lower, LongPage;
    LongPageShape(fill);
    BareTag(LongPage(fill), 10, 11, 16, false);
    LowerSame("style");
  }

  /** Nothing in the text or in the anchor after it looks like a close tag. */
  lemma LongCloses(fill: string)
    requires '<' !in fill
    ensures |LongPage(fill)| == |fill| + 39
    ensures CloseAt(LongPage(fill), 17, "style") == |fill| + 27 < CloseAt(LongPage(fill), 10, "a")
  {
    hide Lower, LongPage;
    LongPageShape(fill);
    var s, n := LongPage(fill), |fill|;
    assert "</" + "style" == "</style" && "</" + "a" == "</a";
    LowerAt(s, n + 27, "</style");
    forall k | 17 <= k < n + 27 ensures !StartsAt(Lower(s), k, "</style") {
      assert k < n + 17 ==> s[k] == fill[k - 17] && fill[k - 17] in fill;
      NotAt(Lower(s), k, "</style", if k == n + 17 then 1 else 0);
    }
    FindIs(Lower(s), 17, "</style", n + 27);
    forall k | 10 <= k <= n + 27 ensures !StartsAt(Lower(s), k, "</a") {
      assert 17 <= k < n + 17 ==> s[k] == fill[k - 17] && fill[k - 17] in fill;
      NotAt(Lower(s), k, "</a", if k == n + 27 then 2 else if k == 10 || k == n + 17 then 1 else 0);
    }
  }

  lemma LongInside(fill: string, blank: string -> bool)
    requires |fill| > TEXT_LIMIT && '<' !in fill
    ensures |LongPage(fill)| == |fill| + 39
    ensures ContentFrom(LongPage(fill), 10, "a", blank, "", Missing).end == |fill| + 17
  {
    hide NextTag, CloseAt, Past, LongPage;
    LongPageShape(fill);
    LongStyle(fill);
    LongCloses(fill);
    var s, n := LongPage(fill), |fill|;
    PastIs(s, 10, Class.Text, 10);
    NotInert(s, 10);
    forall k | 17 <= k < n + 17 ensures Is(Class.Text, s[k]) {
      assert s[k] == fill[k - 17] && fill[k - 17] in fill;
    }
    PastIs(s, 17, Class.Text, n + 17);
    LaterClose(s, 10, 17, "a", n + 27);
    assert ContentFrom(s, 17, "a", blank, "", Missing).end == n + 17;
  }

  /** A close tag that is not there from one position on is not there from a
      later one. */
  lemma LaterClose(s: string, i: nat, j: nat, name: string, past: nat)
    requires i <= j <= past < |s| && past < CloseAt(s, i, name)
    ensures past < CloseAt(s, j, name)
  {
    hide CloseAt;
    assert forall k | j <= k <= past :: !StartsAt(Lower(s), k, "</" + name);
  }

  lemma LongResume(fill: string, blank: string -> bool)
    requires |fill| > TEXT_LIMIT && '<' !in fill
    ensures |LongPage(fill)| == |fill| + 39 && NextTag(LongPage(fill), 0).Scan?
    ensures Resume(LongPage(fill), NextTag(LongPage(fill), 0), blank) == |fill| + 17
  {
    hide NextTag, ContentFrom, LongPage;
    LongPageShape(fill);
    ShortAnchor(LongPage(fill), 0);
    LongInside(fill, blank);
  }
}
