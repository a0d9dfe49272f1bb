/** What the elements of a Metalink document mean, written out (RFC 5854, and
    the version 3 it follows), and a document read by that meaning alone. */
module MetalinkValues {
  import opened Metalink
  import opened MetalinkTree
  import PathText

  // --- Letters and numbers -------------------------------------------------------------

  /** The text is the lower-case one, in any case. */
  predicate AnyCase(s: string, lower: string) {
    && |s| == |lower|
    && forall i | 0 <= i < |s| :: s[i] == lower[i] || ('a' <= lower[i] <= 'z' && s[i] as int == lower[i] as int - 32)
  }

  predicate Spoken(url: string) {
    || (|url| >= 7 && AnyCase(url[..7], "http://"))
    || (|url| >= 8 && AnyCase(url[..8], "https://"))
  }

  /** The text with its ASCII letters lowered. */
  function Lowered(s: string): (t: string)
    ensures |t| == |s|
    ensures forall i | 0 <= i < |s| :: t[i] == if 'A' <= s[i] <= 'Z' then (s[i] as int + 32) as char else s[i]
  {
    seq(|s|, i requires 0 <= i < |s| => if 'A' <= s[i] <= 'Z' then (s[i] as int + 32) as char else s[i])
  }

  /** The text without its dashes. */
  function Undashed(s: string): string {
    if s == "" then "" else Undashed(s[..|s| - 1]) + if s[|s| - 1] == '-' then "" else [s[|s| - 1]]
  }

  lemma LoweredIs(s: string)
    ensures Letters.Lower(s) == Lowered(s)
  {
  }

  lemma AnyCaseIff(s: string, lower: string)
    requires forall c <- lower :: !('A' <= c <= 'Z')
    ensures AnyCase(s, lower) <==> Letters.Lower(s) == lower
  {
    if Letters.Lower(s) == lower {
      forall i | 0 <= i < |s|
        ensures s[i] == lower[i] || ('a' <= lower[i] <= 'z' && s[i] as int == lower[i] as int - 32)
      {
        assert Letters.Lower(s)[i] == lower[i];
      }
    }
    if AnyCase(s, lower) {
      forall i | 0 <= i < |s|
        ensures Letters.Lower(s)[i] == lower[i]
      {
        assert lower[i] in lower;
      }
    }
  }

  lemma StartsIff(s: string, lower: string)
    requires forall c <- lower :: !('A' <= c <= 'Z')
    ensures lower <= Letters.Lower(s) <==> |s| >= |lower| && AnyCase(s[..|lower|], lower)
  {
    if |s| >= |lower| {
      AnyCaseIff(s[..|lower|], lower);
      assert Letters.Lower(s[..|lower|]) == Letters.Lower(s)[..|lower|];
    }
  }

  lemma SpokenIff(url: string)
    ensures Spoken(url) <==> "http://" <= Letters.Lower(url) || "https://" <= Letters.Lower(url)
  {
    StartsIff(url, "http://");
    StartsIff(url, "https://");
  }

  lemma {:induction false} UndashedJoin(a: string, b: string)
    ensures Undashed(a + b) == Undashed(a) + Undashed(b)
    decreases |b|
  {
    if b == "" {
      assert a + b == a;
    } else {
      assert (a + b)[..|a + b| - 1] == a + b[..|b| - 1];
      UndashedJoin(a, b[..|b| - 1]);
    }
  }

  lemma {:induction false} UndashedIs(s: string)
    ensures WithoutDashes(s) == Undashed(s)
  {
    if s != "" {
      UndashedIs(s[1..]);
      UndashedJoin([s[0]], s[1..]);
      assert s == [s[0]] + s[1..] && [s[0]][..0] == "";
    }
  }

  // --- Attributes ------------------------------------------------------------------------

  function Text0(tag: Tag, key: string): string {
    if key in tag.attrs then tag.attrs[key] else ""
  }

  function Optional(tag: Tag, key: string): OptText {
    if key in tag.attrs then SomeText(tag.attrs[key]) else NoText
  }

  /** The attribute is there and spells the number. */
  predicate Spells(tag: Tag, key: string, n: nat) {
    n <= 0xFFFF_FFFF && key in tag.attrs && tag.attrs[key] == PathText.Decimal(n)
  }

  /** The attribute is not there, or is no number of 32 bits. */
  predicate SpellsNone(tag: Tag, key: string) {
    key in tag.attrs ==> Text.ParseUnsigned(tag.attrs[key], 0xFFFF_FFFF).Bad?
  }

  /** An address carries its priority; one with only a preference gets what is
      left to a hundred, since there higher is better. */
  ghost predicate PriorityIs(tag: Tag, p: OptNat) {
    && (forall n: nat | Spells(tag, "priority", n) :: p == SomeNumber(n))
    && (SpellsNone(tag, "priority") ==>
          && (forall n: nat | Spells(tag, "preference", n) :: p == SomeNumber(if n <= 100 then 100 - n else 0))
          && (SpellsNone(tag, "preference") ==> p == NoNumber))
  }

  lemma PriorityReads(tag: Tag)
    ensures PriorityIs(tag, PriorityOf(tag))
  {
    forall n: nat | n <= 0xFFFF_FFFF
      ensures Text.ParseUnsigned(PathText.Decimal(n), 0xFFFF_FFFF) == Text.Number(n)
    {
      Text.ParseDecimal(n, 0xFFFF_FFFF);
    }
  }

  /** Version 3 says so in an attribute or by its namespace. */
  lemma VersionReads(tag: Tag)
    ensures DetectVersion(tag) == V3 <==>
            || (|Text0(tag, "version")| > 0 && Text0(tag, "version")[0] == '3')
            || exists a: string, b: string :: Text0(tag, "xmlns") == a + "metalinker.org" + b
  {
    var version, ns := Text0(tag, "version"), Text0(tag, "xmlns");
    assert "3" <= version <==> |version| > 0 && version[0] == '3';
    ContainsIff(ns, "metalinker.org");
    if "xmlns" !in tag.attrs {
      forall a: string, b: string
        ensures ns != a + "metalinker.org" + b
      {
        assert |a + "metalinker.org" + b| >= 14;
      }
    }
  }

  lemma ContainsIff(s: string, part: string)
    ensures Contains(s, part) <==> exists a: string, b: string :: s == a + part + b
  {
    if i :| 0 <= i <= |s| && part <= s[i..] {
      assert s == s[..i] + part + s[i + |part|..];
    }
    if a: string, b: string :| s == a + part + b {
      assert s[|a|..] == part + b;
    }
  }

  // --- Elements ----------------------------------------------------------------------------

  /** What a file becomes when one of its elements says a text. */
  function Said(file: File, tag: Tag, inPieces: bool, text: string): File {
    if tag.name == "size" then file.(size := SizeOf(text))
    else if tag.name == "hash" then
      var algorithm := Undashed(Lowered(Text0(tag, "type")));
      if inPieces || "piece" in tag.attrs || algorithm == "" || text == "" then file
      else file.(checksums := file.checksums + [Checksum(algorithm, Lowered(text))])
    else if text == "" then file
    else
      var mirror := Mirror(text, PriorityOf(tag), Optional(tag, "location"));
      if tag.name == "url" then
        if AnyCase(Text0(tag, "type"), "bittorrent") then file.(torrents := file.torrents + [mirror])
        else if Spoken(text) then file.(mirrors := file.mirrors + [mirror])
        else file.(unsupported := file.unsupported + [text])
      else if tag.name == "metaurl" && AnyCase(Text0(tag, "mediatype"), "torrent")
      then file.(torrents := file.torrents + [mirror])
      else file
  }

  function SizeOf(text: string): OptNat {
    var n := Text.ParseUnsigned(text, 0xFFFF_FFFF_FFFF_FFFF);
    if n.Bad? then NoNumber else SomeNumber(n.value)
  }

  predicate ValueName(name: string) {
    name == "size" || name == "hash" || name == "url" || name == "metaurl"
  }

  lemma ApplySays(file: File, tag: Tag, inPieces: bool, text: string)
    requires ValueName(tag.name)
    ensures IsValue(tag) && Apply(file, PendingOf(tag, inPieces), text) == Said(file, tag, inPieces, text)
  {
    hide PriorityOf, Undashed, WithoutDashes, AnyCase, Spoken, Lowered;
    LoweredIs(Text0(tag, "type"));
    LoweredIs(text);
    UndashedIs(Lowered(Text0(tag, "type")));
    AnyCaseIff(Text0(tag, "type"), "bittorrent");
    AnyCaseIff(Text0(tag, "mediatype"), "torrent");
    SpokenIff(text);
  }

  /** An element and its text, as the loop takes them: the file opened last
      becomes what the element says, and nothing else changes. */
  lemma ElementSays(s: State, tag: Tag, text: string)
    requires ValueName(tag.name)
    ensures var n := |s.files|;
            Next(Next(Running(s), Start(tag)), Event.Words(text)) == Running(s.(
              files := if n == 0 then s.files
                       else s.files[n - 1 := Said(s.files[n - 1], tag, s.piecesAt.OpenAt?, text)],
              pending := Idle, depth := s.depth + 1))
  {
    hide PendingOf, Apply, Said;
    if s.files != [] {
      ApplySays(s.files[|s.files| - 1], tag, s.piecesAt.OpenAt?, text);
    }
  }

  // --- Documents --------------------------------------------------------------------------

  function Opened(tag: Tag): File {
    File(Text0(tag, "name"), NoNumber, [], [], [], [])
  }

  function SaidLast(files: seq<File>, tag: Tag, inPieces: bool, text: string): seq<File> {
    if files == [] then []
    else files[..|files| - 1] + [Said(files[|files| - 1], tag, inPieces, text)]
  }

  /** The files of a document, by what its elements mean. */
  function ReadFiles(m: Markup, files: seq<File>, inPieces: bool): seq<File> {
    match m
    case Nothing => files
    case Element(tag, inside, after) =>
      var next :=
        if ValueName(tag.name) then if inside.Words? then SaidLast(files, tag, inPieces, inside.text) else files
        else ReadFiles(inside, if tag.name == "file" then files + [Opened(tag)] else files,
                       inPieces || tag.name == "pieces");
      ReadFiles(after, next, inPieces)
    case Void(tag, after) => ReadFiles(after, if tag.name == "file" then files + [Opened(tag)] else files, inPieces)
    case Words(_, after) => ReadFiles(after, files, inPieces)
    case Noise(after) => ReadFiles(after, files, inPieces)
  }

  /** The loop's walk of a document reads its files so. */
  lemma {:induction false} WalkReads(m: Markup, c: Collected, inPieces: bool)
    requires Simple(m) && c.pending.Idle?
    ensures var w := Walk(m, c, inPieces); w.pending.Idle? && w.files == ReadFiles(m, c.files, inPieces)
    decreases m
  {
    hide PendingOf, Apply, Said, DetectVersion;
    match m {
      case Nothing =>
      case Element(tag, inside, after) =>
        var open := OpenTag(c, tag, inPieces);
        if IsValue(tag) {
          ValueReads(c, tag, inside, inPieces);
        } else {
          WalkReads(inside, open, inPieces || tag.name == "pieces");
        }
        var walked := Walk(inside, open, inPieces || tag.name == "pieces").(pending := Idle);
        WalkReads(after, walked, inPieces);
      case Void(tag, after) => WalkReads(after, VoidTag(c, tag), inPieces);
      case Words(text, after) =>
        IdleText(c.files, text);
        WalkReads(after, c, inPieces);
      case Noise(after) => WalkReads(after, c, inPieces);
    }
  }

  lemma ValueReads(c: Collected, tag: Tag, inside: Markup, inPieces: bool)
    requires IsValue(tag) && (inside.Nothing? || (inside.Words? && inside.after.Nothing?))
    ensures Walk(inside, OpenTag(c, tag, inPieces), inPieces || tag.name == "pieces").files
         == if inside.Words? then SaidLast(c.files, tag, inPieces, inside.text) else c.files
  {
    hide PendingOf, Apply, Said;
    if inside.Words? && c.files != [] {
      ApplySays(c.files[|c.files| - 1], tag, inPieces, inside.text);
    }
  }

  /** A document whose values hold one text each parses to the files its
      elements mean. */
  lemma ParseReads(m: Markup)
    requires Simple(m)
    ensures var r := Finish(Ran(Events(m))); r.Document? ==> r.files == ReadFiles(m, [], false)
  {
    hide Walk, ReadFiles, Simple;
    ParseIsWalk(m);
    WalkReads(m, EMPTY, false);
  }
}
