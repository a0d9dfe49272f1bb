/** The sidecar of a resume cache: what the payload looked like when its
    bitfield was taken, as a flat text file. */
module Resume {
  import opened PathText
  import opened Text

  datatype Entry = Entry(path: string, length: nat, modified: int)

  datatype Fingerprint = Fingerprint(totalLength: nat, pieces: nat, files: seq<Entry>)

  datatype Reading = Unreadable | Reading(fingerprint: Fingerprint)

  /** Every number fits its width. */
  predicate Sized(f: Fingerprint) {
    f.totalLength <= U64_MAX && f.pieces <= U32_MAX && forall e <- f.files :: SizedEntry(e)
  }

  predicate SizedEntry(e: Entry) {
    e.length <= U64_MAX && -1 - I64_MAX <= e.modified <= I64_MAX
  }

  // --- Writing ------------------------------------------------------------------------

  function EntryLine(e: Entry): string {
    "file " + (Decimal(e.length) + " " + (SignedText(e.modified) + " " + e.path))
  }

  function EntryLines(files: seq<Entry>): string {
    if files == [] then "" else EntryLine(files[0]) + "\n" + EntryLines(files[1..])
  }

  function TotalLine(f: Fingerprint): string {
    "total_length " + Decimal(f.totalLength)
  }

  function PiecesLine(f: Fingerprint): string {
    "pieces " + Decimal(f.pieces)
  }

  function Rendered(f: Fingerprint): string {
    "bit-cli-resume 1" + "\n" + (TotalLine(f) + "\n" + (PiecesLine(f) + "\n" + EntryLines(f.files)))
  }

  method Render(f: Fingerprint) returns (out: string)
    ensures out == Rendered(f)
  {
    hide Decimal, EntryLine;
    out := "bit-cli-resume 1" + "\n";
    out := out + TotalLine(f) + "\n";
    out := out + PiecesLine(f) + "\n";
    ghost var head := out;
    for i := 0 to |f.files|
      invariant head + EntryLines(f.files) == out + EntryLines(f.files[i..])
    {
      assert f.files[i..][0] == f.files[i] && f.files[i..][1..] == f.files[i + 1..];
      out := out + EntryLine(f.files[i]) + "\n";
    }
    JoinThree("bit-cli-resume 1", TotalLine(f), PiecesLine(f), EntryLines(f.files));
  }

  lemma JoinThree(a: string, b: string, c: string, rest: string)
    ensures a + "\n" + b + "\n" + c + "\n" + rest == a + "\n" + (b + "\n" + (c + "\n" + rest))
  {
  }

  // --- Reading ------------------------------------------------------------------------

  function WithoutReturn(line: string): string {
    if line != "" && line[|line| - 1] == '\r' then line[..|line| - 1] else line
  }

  /** The lines of a text. A carriage return before a line feed is dropped. */
  function Lines(text: string): seq<string>
    decreases |text|
  {
    if text == "" then []
    else
      match SplitOnce(text, '\n')
      case Uncut => [text]
      case Halves(line, rest) => [WithoutReturn(line)] + Lines(rest)
  }

  datatype EntryRead = BadEntry | EntryRead(entry: Entry)

  function ParseEntry(line: string): EntryRead {
    var body := StripPrefix(line, "file ");
    if body.NoMatch? then BadEntry
    else
      var first := SplitOnce(body.text, ' ');
      if first.Uncut? then BadEntry
      else
        var second := SplitOnce(first.right, ' ');
        if second.Uncut? then BadEntry
        else
          var length, modified := ParseUnsigned(first.left, U64_MAX), ParseSigned(second.left, I64_MAX);
          if length.Bad? || modified.Bad? then BadEntry
          else EntryRead(Entry(second.right, length.value, modified.value))
  }

  datatype EntriesRead = BadEntries | EntriesRead(files: seq<Entry>)

  /** One entry a line; empty lines are skipped. */
  function ParseEntries(lines: seq<string>): EntriesRead {
    if lines == [] then EntriesRead([])
    else if lines[0] == "" then ParseEntries(lines[1..])
    else
      var first, rest := ParseEntry(lines[0]), ParseEntries(lines[1..]);
      if first.BadEntry? || rest.BadEntries? then BadEntries else EntriesRead([first.entry] + rest.files)
  }

  function ParseNumber(line: string, prefix: string, max: nat): (n: Parsed)
    ensures n.Number? ==> 0 <= n.value <= max
  {
    var rest := StripPrefix(line, prefix);
    if rest.NoMatch? then Bad else ParseUnsigned(rest.text, max)
  }

  function ParsedLines(lines: seq<string>): Reading {
    if |lines| < 3 || lines[0] != "bit-cli-resume 1" then Unreadable
    else
      var total := ParseNumber(lines[1], "total_length ", U64_MAX);
      var pieces := ParseNumber(lines[2], "pieces ", U32_MAX);
      if total.Bad? || pieces.Bad? then Unreadable
      else
        match ParseEntries(lines[3..])
        case BadEntries => Unreadable
        case EntriesRead(files) => Reading(Fingerprint(total.value, pieces.value, files))
  }

  method Parse(text: string) returns (r: Reading)
    ensures r == ParsedLines(Lines(text))
  {
    hide ParseEntry, ParseNumber;
    var lines := Lines(text);
    if |lines| == 0 || lines[0] != "bit-cli-resume 1" || |lines| < 2 {
      return Unreadable;
    }
    var total := ParseNumber(lines[1], "total_length ", U64_MAX);
    if total.Bad? || |lines| < 3 {
      return Unreadable;
    }
    var pieces := ParseNumber(lines[2], "pieces ", U32_MAX);
    if pieces.Bad? {
      return Unreadable;
    }
    var files: seq<Entry> := [];
    for i := 3 to |lines|
      invariant ParseEntries(lines[3..]) == match ParseEntries(lines[i..])
                                            case BadEntries => BadEntries
                                            case EntriesRead(rest) => EntriesRead(files + rest)
    {
      assert lines[i..][0] == lines[i] && lines[i..][1..] == lines[i + 1..];
      if lines[i] == "" {
        continue;
      }
      var entry := ParseEntry(lines[i]);
      if entry.BadEntry? {
        return Unreadable;
      }
      files := files + [entry.entry];
    }
    r := Reading(Fingerprint(total.value, pieces.value, files));
  }

  // --- The round trip -----------------------------------------------------------------

  /** The path with one trailing carriage return dropped. */
  function Returned(e: Entry): Entry {
    e.(path := WithoutReturn(e.path))
  }

  function AllReturned(files: seq<Entry>): seq<Entry> {
    if files == [] then [] else [Returned(files[0])] + AllReturned(files[1..])
  }

  lemma LinesNext(line: string, rest: string)
    requires '\n' !in line
    ensures Lines(line + "\n" + rest) == [WithoutReturn(line)] + Lines(rest)
  {
    SplitOnceJoin(line, '\n', rest);
  }

  /** Dropping the return from a line drops it from the path at its end. */
  lemma ReturnFromPath(e: Entry)
    ensures WithoutReturn(EntryLine(e)) == EntryLine(Returned(e))
  {
    hide Decimal, SignedText;
    var head := "file " + (Decimal(e.length) + " " + (SignedText(e.modified) + " "));
    assert EntryLine(e) == head + e.path;
    assert EntryLine(Returned(e)) == head + WithoutReturn(e.path);
    if e.path == "" {
      assert EntryLine(e) == head && head[|head| - 1] == ' ';
    } else {
      assert (head + e.path)[..|head| + |e.path| - 1] == head + e.path[..|e.path| - 1];
    }
  }

  lemma EntryReads(e: Entry)
    requires SizedEntry(e)
    ensures EntryLine(e) != "" && ParseEntry(EntryLine(e)) == EntryRead(e)
  {
    hide Decimal, ParseUnsigned, ParseSigned;
    var length, modified := Decimal(e.length), SignedText(e.modified);
    StripPrefixJoin("file ", length + " " + (modified + " " + e.path));
    assert ' ' !in length && ' ' !in modified;
    SplitOnceJoin(length, ' ', modified + " " + e.path);
    SplitOnceJoin(modified, ' ', e.path);
    ParseDecimal(e.length, U64_MAX);
    ParseSignedText(e.modified, I64_MAX);
  }

  lemma EntryPlain(e: Entry)
    requires '\n' !in e.path
    ensures '\n' !in EntryLine(e)
  {
    hide Decimal, SignedText;
  }

  lemma {:induction false} EntriesRoundTrip(files: seq<Entry>)
    requires forall e <- files :: SizedEntry(e) && '\n' !in e.path
    ensures ParseEntries(Lines(EntryLines(files))) == EntriesRead(AllReturned(files))
  {
    hide EntryLine, ParseEntry;
    if files != [] {
      var e := files[0];
      assert e in files;
      EntryPlain(e);
      LinesNext(EntryLine(e), EntryLines(files[1..]));
      ReturnFromPath(e);
      EntryReads(Returned(e));
      EntriesRoundTrip(files[1..]);
    }
  }

  lemma NumberLine(prefix: string, n: nat, max: nat)
    requires n <= max && '\n' !in prefix
    ensures var line := prefix + Decimal(n);
            '\n' !in line && WithoutReturn(line) == line && ParseNumber(line, prefix, max) == Number(n)
  {
    hide ParseUnsigned;
    var d := Decimal(n);
    StripPrefixJoin(prefix, d);
    ParseDecimal(n, max);
    assert (prefix + d)[|prefix| + |d| - 1] == d[|d| - 1] && d[|d| - 1] in d;
  }

  /** What a rendered fingerprint reads back as, when no path holds a line feed. */
  lemma RenderedReads(f: Fingerprint)
    requires Sized(f) && forall e <- f.files :: '\n' !in e.path
    ensures ParsedLines(Lines(Rendered(f))) == Reading(f.(files := AllReturned(f.files)))
  {
    hide Decimal, EntryLines, ParseNumber, Lines, WithoutReturn, ParseEntries;
    NumberLine("total_length ", f.totalLength, U64_MAX);
    NumberLine("pieces ", f.pieces, U32_MAX);
    LinesNext(PiecesLine(f), EntryLines(f.files));
    LinesNext(TotalLine(f), PiecesLine(f) + "\n" + EntryLines(f.files));
    HeaderLine();
    LinesNext("bit-cli-resume 1", TotalLine(f) + "\n" + (PiecesLine(f) + "\n" + EntryLines(f.files)));
    EntriesRoundTrip(f.files);
    var lines := Lines(EntryLines(f.files));
    assert Lines(Rendered(f)) == ["bit-cli-resume 1"] + ([TotalLine(f)] + ([PiecesLine(f)] + lines));
    assert (["bit-cli-resume 1"] + ([TotalLine(f)] + ([PiecesLine(f)] + lines)))[3..] == lines;
  }

  lemma HeaderLine()
    ensures '\n' !in "bit-cli-resume 1" && WithoutReturn("bit-cli-resume 1") == "bit-cli-resume 1"
  {
  }

  /** A path that survives the file: no line feed, and no return at its end. */
  predicate Survives(path: string) {
    '\n' !in path && WithoutReturn(path) == path
  }

  /** Reading undoes writing for exactly the fingerprints whose paths hold no
      line feed and do not end in a carriage return. */
  lemma RoundTripIff(f: Fingerprint)
    requires Sized(f)
    ensures ParsedLines(Lines(Rendered(f))) == Reading(f) <==> forall e <- f.files :: Survives(e.path)
  {
    hide Rendered, Lines, ParsedLines, WithoutReturn;
    if (forall e <- f.files :: '\n' !in e.path) {
      RenderedReads(f);
      AllReturnedIff(f.files);
    } else {
      var e :| e in f.files && '\n' in e.path;
      ReadPaths(Rendered(f));
    }
  }

  lemma {:induction false} AllReturnedIff(files: seq<Entry>)
    ensures |AllReturned(files)| == |files|
    ensures AllReturned(files) == files <==> forall e <- files :: WithoutReturn(e.path) == e.path
  {
    hide WithoutReturn;
    if files != [] {
      AllReturnedIff(files[1..]);
      assert files == [files[0]] + files[1..];
    }
  }

  lemma {:induction false} LinesPlain(text: string)
    ensures forall line <- Lines(text) :: '\n' !in line
    decreases |text|
  {
    if text != "" {
      var h := SplitOnce(text, '\n');
      if h.Halves? {
        LinesPlain(h.right);
        assert '\n' !in WithoutReturn(h.left);
      }
    }
  }

  lemma ParsedPath(line: string)
    requires '\n' !in line && ParseEntry(line).EntryRead?
    ensures '\n' !in ParseEntry(line).entry.path
  {
    hide ParseUnsigned, ParseSigned;
    var body := StripPrefix(line, "file ").text;
    var first := SplitOnce(body, ' ');
    var second := SplitOnce(first.right, ' ');
    forall c | c in second.right ensures c in line {
      assert c in first.right && c in body;
    }
  }

  lemma {:induction false} ParsedPaths(lines: seq<string>)
    requires forall line <- lines :: '\n' !in line
    requires ParseEntries(lines).EntriesRead?
    ensures forall e <- ParseEntries(lines).files :: '\n' !in e.path
  {
    hide ParseEntry;
    if lines != [] {
      assert lines[0] in lines;
      ParsedPaths(lines[1..]);
      if lines[0] != "" {
        ParsedPath(lines[0]);
      }
    }
  }

  /** No path read from a sidecar holds a line feed. */
  lemma ReadPaths(text: string)
    ensures var r := ParsedLines(Lines(text));
            r.Reading? ==> forall e <- r.fingerprint.files :: '\n' !in e.path
  {
    hide ParseEntries, ParseNumber, Lines;
    LinesPlain(text);
    if ParsedLines(Lines(text)).Reading? {
      ParsedPaths(Lines(text)[3..]);
    }
  }

  /** Two fingerprints that survive are told apart by their text. */
  lemma RenderInjective(f: Fingerprint, g: Fingerprint)
    requires Sized(f) && Sized(g) && Rendered(f) == Rendered(g)
    requires forall e <- f.files :: Survives(e.path)
    requires forall e <- g.files :: Survives(e.path)
    ensures f == g
  {
    hide Rendered, Lines, ParsedLines, Survives;
    RoundTripIff(f);
    RoundTripIff(g);
  }

  // --- What is refused ----------------------------------------------------------------

  /** The line is an entry: two numbers and a path, each behind one space. */
  predicate EntryText(line: string, length: string, modified: string, path: string) {
    && line == "file " + length + " " + modified + " " + path
    && ' ' !in length && ' ' !in modified
    && ParseUnsigned(length, 0xFFFF_FFFF_FFFF_FFFF).Number?
    && ParseSigned(modified, 0x7FFF_FFFF_FFFF_FFFF).Number?
  }

  /** A line is read exactly when it is an entry, and then as what it says. */
  lemma EntryIff(line: string)
    ensures ParseEntry(line).EntryRead? <==>
            exists length: string, modified: string, path: string :: EntryText(line, length, modified, path)
  {
    hide EntryText;
    if ParseEntry(line).EntryRead? {
      var length, modified, path := EntryParts(line);
      assert EntryText(line, length, modified, path);
    }
    if length: string, modified: string, path: string :| EntryText(line, length, modified, path) {
      EntryOf(line, length, modified, path);
    }
  }

  lemma EntryParts(line: string) returns (length: string, modified: string, path: string)
    requires ParseEntry(line).EntryRead?
    ensures EntryText(line, length, modified, path)
  {
    hide ParseUnsigned, ParseSigned;
    var body := StripPrefix(line, "file ");
    var first := SplitOnce(body.text, ' ');
    var second := SplitOnce(first.right, ' ');
    length, modified, path := first.left, second.left, second.right;
    FileLine(length, modified, path);
  }

  lemma FileLine(length: string, modified: string, path: string)
    ensures "file " + (length + [' '] + (modified + [' '] + path)) == "file " + length + " " + modified + " " + path
  {
  }

  lemma EntryOf(line: string, length: string, modified: string, path: string)
    requires EntryText(line, length, modified, path)
    ensures ParseEntry(line) == EntryRead(Entry(path, ParseUnsigned(length, 0xFFFF_FFFF_FFFF_FFFF).value,
                                                ParseSigned(modified, 0x7FFF_FFFF_FFFF_FFFF).value))
  {
    hide ParseUnsigned, ParseSigned, SplitOnce;
    var body := length + [' '] + (modified + [' '] + path);
    FileLine(length, modified, path);
    StripPrefixJoin("file ", body);
    SplitOnceJoin(length, ' ', modified + [' '] + path);
    SplitOnceJoin(modified, ' ', path);
  }

  lemma {:induction false} EntriesIff(lines: seq<string>)
    ensures ParseEntries(lines).EntriesRead? <==> forall line <- lines :: line != "" ==> ParseEntry(line).EntryRead?
  {
    hide ParseEntry;
    if lines != [] {
      assert lines == [lines[0]] + lines[1..];
      EntriesIff(lines[1..]);
    }
  }

  /** A sidecar is read exactly when its three first lines are the header and
      the two totals, and every other line is empty or an entry. */
  lemma ReadIff(lines: seq<string>)
    ensures ParsedLines(lines).Reading? <==>
            && |lines| >= 3 && lines[0] == "bit-cli-resume 1"
            && (exists n: string :: lines[1] == "total_length " + n && ParseUnsigned(n, 0xFFFF_FFFF_FFFF_FFFF).Number?)
            && (exists n: string :: lines[2] == "pieces " + n && ParseUnsigned(n, 0xFFFF_FFFF).Number?)
            && forall line <- lines[3..] :: line != "" ==> ParseEntry(line).EntryRead?
  {
    hide ParseEntry, ParseUnsigned, ParseNumber, ParseEntries;
    if |lines| >= 3 {
      EntriesIff(lines[3..]);
      NumberIff(lines[1], "total_length ", 0xFFFF_FFFF_FFFF_FFFF);
      NumberIff(lines[2], "pieces ", 0xFFFF_FFFF);
    }
  }

  lemma NumberIff(line: string, prefix: string, max: nat)
    ensures ParseNumber(line, prefix, max).Number? <==>
            exists n: string :: line == prefix + n && ParseUnsigned(n, max).Number?
  {
    hide ParseUnsigned;
    if prefix <= line {
      assert line == prefix + line[|prefix|..];
    }
    forall n: string | line == prefix + n
      ensures line[|prefix|..] == n
    {
    }
  }
}
