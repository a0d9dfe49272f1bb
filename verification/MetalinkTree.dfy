/** What one pass over a Metalink's events amounts to: a recursive walk of the
    document, for every document, and refusal of every document cut short. */
module MetalinkTree {
  import opened Letters
  import opened Metalink

  /** A run of siblings: an element with what is inside it, an empty element,
      text, or something the reader passes over. */
  datatype Markup =
    | Nothing
    | Element(tag: Tag, inside: Markup, after: Markup)
    | Void(tag: Tag, after: Markup)
    | Words(text: string, after: Markup)
    | Noise(after: Markup)

  /** The events a document spells. */
  function Events(m: Markup): seq<Event> {
    match m
    case Nothing => []
    case Element(tag, inside, after) => [Start(tag)] + Events(inside) + [End] + Events(after)
    case Void(tag, after) => [Empty(tag)] + Events(after)
    case Words(text, after) => [Event.Words(text)] + Events(after)
    case Noise(after) => [Other] + Events(after)
  }

  // --- Where the loop stands -------------------------------------------------------------

  lemma RanAdd(events: seq<Event>, e: Event)
    ensures Ran(events + [e]) == Next(Ran(events), e)
  {
    assert (events + [e])[..|events|] == events;
  }

  function NamesAfter(names: seq<string>, e: Event): seq<string> {
    if e.Start? then names + [e.tag.name]
    else if e.End? && names != [] then names[..|names| - 1]
    else names
  }

  /** The names of the elements open after some events, outermost first. */
  function OpenNames(events: seq<Event>): seq<string> {
    if events == [] then [] else NamesAfter(OpenNames(events[..|events| - 1]), events[|events| - 1])
  }

  /** Every element is closed after it was opened: what the reader's check of
      end names guarantees. */
  predicate Nested(events: seq<Event>) {
    events == [] ||
    (Nested(events[..|events| - 1]) && (events[|events| - 1].End? ==> OpenNames(events[..|events| - 1]) != []))
  }

  /** The depth of the outermost open `pieces`. */
  function OutermostPieces(names: seq<string>): PiecesAt {
    if names == [] then Closed
    else
      var outer := OutermostPieces(names[..|names| - 1]);
      if outer.OpenAt? then outer else if names[|names| - 1] == "pieces" then OpenAt(|names|) else Closed
  }

  lemma {:induction false} OutermostIs(names: seq<string>)
    ensures var at := OutermostPieces(names);
            && (at.Closed? <==> "pieces" !in names)
            && (at.OpenAt? ==> 1 <= at.depth <= |names| && names[at.depth - 1] == "pieces"
                               && "pieces" !in names[..at.depth - 1])
  {
    if names != [] {
      var outer := names[..|names| - 1];
      OutermostIs(outer);
      assert names == outer + [names[|names| - 1]];
      var at := OutermostPieces(outer);
      if at.OpenAt? {
        assert outer[..at.depth - 1] == names[..at.depth - 1];
      }
    }
  }

  lemma PopPieces(names: seq<string>)
    requires names != []
    ensures OutermostPieces(names[..|names| - 1])
         == if OutermostPieces(names) == OpenAt(|names|) then Closed else OutermostPieces(names)
  {
    OutermostIs(names[..|names| - 1]);
  }

  lemma StepNesting(s: State, names: seq<string>, e: Event)
    requires s.depth == |names| && s.piecesAt == OutermostPieces(names)
    requires Step(s, e).Running? && (e.End? ==> names != [])
    ensures var t, after := Step(s, e).state, NamesAfter(names, e);
            t.depth == |after| && t.piecesAt == OutermostPieces(after)
  {
    hide DetectVersion, NewFile, PendingOf, ApplyLast;
    if e.Start? {
      assert (names + [e.tag.name])[..|names|] == names;
    } else if e.End? {
      PopPieces(names);
    }
  }

  /** Over any nested events that do not stop the loop, the depth counts the
      open elements and `piecesAt` is the depth of the outermost open `pieces`. */
  lemma {:induction false} DepthIsNesting(events: seq<Event>)
    requires Nested(events) && Ran(events).Running?
    ensures var s, names := Ran(events).state, OpenNames(events);
            s.depth == |names| && s.piecesAt == OutermostPieces(names)
  {
    hide Step, OutermostPieces, NamesAfter;
    if events == [] {
      NoneOpen();
    } else {
      var before, e := events[..|events| - 1], events[|events| - 1];
      DepthIsNesting(before);
      StepNesting(Ran(before).state, OpenNames(before), e);
    }
  }

  lemma NoneOpen()
    ensures OutermostPieces([]) == Closed
  {
  }

  /** A document is refused as truncated when its events end with elements
      open, and only then; the refusal says how many. */
  lemma TruncatedIff(events: seq<Event>, n: int)
    requires Nested(events)
    ensures Finish(Ran(events)) == Refused(Truncated(n))
            <==> Ran(events).Running? && OpenNames(events) != [] && n == |OpenNames(events)|
  {
    hide Ran, OpenNames, Nested;
    if Ran(events).Running? {
      DepthIsNesting(events);
    } else {
      StopsAre(events);
    }
  }

  lemma {:induction false} StopsAre(events: seq<Event>)
    requires Ran(events).Stopped?
    ensures Ran(events).why == Undecodable || Ran(events).why == NotXml
  {
    hide DetectVersion, NewFile, PendingOf, ApplyLast;
    if events != [] && Ran(events[..|events| - 1]).Stopped? {
      StopsAre(events[..|events| - 1]);
    }
  }

  // --- The walk ------------------------------------------------------------------------------

  datatype Collected = Collected(version: Seen, files: seq<File>, pending: Pending)

  function OpenTag(c: Collected, tag: Tag, inPieces: bool): Collected {
    if tag.name == "metalink" then c.(version := Seen(DetectVersion(tag)))
    else if tag.name == "file" then c.(files := c.files + [NewFile(tag)])
    else if IsValue(tag) then c.(pending := PendingOf(tag, inPieces))
    else c
  }

  function VoidTag(c: Collected, tag: Tag): Collected {
    if IsValue(tag) then c.(pending := Idle) else OpenTag(c, tag, false).(pending := Idle)
  }

  /** A walk of the tree: no depth and no counters, only whether some ancestor
      is a `pieces`. */
  function Walk(m: Markup, c: Collected, inPieces: bool): Collected {
    match m
    case Nothing => c
    case Element(tag, inside, after) =>
      var walked := Walk(inside, OpenTag(c, tag, inPieces), inPieces || tag.name == "pieces");
      Walk(after, walked.(pending := Idle), inPieces)
    case Void(tag, after) => Walk(after, VoidTag(c, tag), inPieces)
    case Words(text, after) =>
      Walk(after, c.(files := ApplyLast(c.files, c.pending, text), pending := Idle), inPieces)
    case Noise(after) => Walk(after, c, inPieces)
  }

  function Gathered(s: State): Collected {
    Collected(s.version, s.files, s.pending)
  }

  function With(s: State, c: Collected): State {
    s.(version := c.version, files := c.files, pending := c.pending)
  }

  lemma Regroup(a: seq<Event>, b: seq<Event>, c: seq<Event>)
    ensures a + (b + c) == (a + b) + c
  {
  }

  /** The loop over a document's events does what the walk does, and leaves the
      depth and the open `pieces` as they were. */
  lemma {:induction false} StreamIsWalk(before: seq<Event>, s: State, m: Markup)
    requires Ran(before) == Running(s) && (s.piecesAt.OpenAt? ==> s.piecesAt.depth <= s.depth)
    ensures Ran(before + Events(m)) == Running(With(s, Walk(m, Gathered(s), s.piecesAt.OpenAt?)))
    decreases m
  {
    hide Ran, DetectVersion, NewFile, PendingOf, ApplyLast;
    match m {
      case Nothing =>
        assert before + [] == before;
      case Element(tag, inside, after) =>
        var started := StartStep(s, tag);
        var inner := before + [Start(tag)];
        RanAdd(before, Start(tag));
        StreamIsWalk(inner, started, inside);
        var walked := With(started, Walk(inside, Gathered(started), started.piecesAt.OpenAt?));
        RanAdd(inner + Events(inside), End);
        var closed := EndStep(walked);
        StreamIsWalk(inner + Events(inside) + [End], closed, after);
        ElementEvents(before, m);
      case Void(tag, after) =>
        RanAdd(before, Empty(tag));
        StreamIsWalk(before + [Empty(tag)], EmptyStep(s, tag), after);
        Regroup(before, [Empty(tag)], Events(after));
      case Words(text, after) =>
        RanAdd(before, Event.Words(text));
        var told := s.(files := ApplyLast(s.files, s.pending, text), pending := Idle);
        StreamIsWalk(before + [Event.Words(text)], told, after);
        Regroup(before, [Event.Words(text)], Events(after));
      case Noise(after) =>
        RanAdd(before, Other);
        StreamIsWalk(before + [Other], s, after);
        Regroup(before, [Other], Events(after));
    }
  }

  lemma ElementEvents(before: seq<Event>, m: Markup)
    requires m.Element?
    ensures before + Events(m) == before + [Start(m.tag)] + Events(m.inside) + [End] + Events(m.after)
  {
  }

  const EMPTY := Collected(NotSeen, [], Idle)

  /** A whole document parses to what walking it collects. */
  lemma ParseIsWalk(m: Markup)
    ensures var c := Walk(m, EMPTY, false);
            Finish(Ran(Events(m))) ==
              if c.version.NotSeen? then Refused(NoMetalink)
              else if c.files == [] then Refused(NoFiles)
              else Document(c.version.version, c.files)
  {
    hide Walk;
    StreamIsWalk([], INITIAL, m);
    assert [] + Events(m) == Events(m);
  }

  // --- Documents cut short -----------------------------------------------------------------

  lemma {:induction false} NestedPrefix(events: seq<Event>, k: nat)
    requires Nested(events) && k <= |events|
    ensures Nested(events[..k])
    decreases |events|
  {
    if k == |events| {
      assert events[..k] == events;
    } else {
      NestedPrefix(events[..|events| - 1], k);
      assert events[..|events| - 1][..k] == events[..k];
    }
  }

  lemma NestedAdd(events: seq<Event>, e: Event)
    requires Nested(events) && (e.End? ==> OpenNames(events) != [])
    ensures Nested(events + [e])
    ensures OpenNames(events + [e]) == NamesAfter(OpenNames(events), e)
  {
    assert (events + [e])[..|events|] == events;
  }

  /** A document's events are nested and leave nothing open. */
  lemma {:induction false} DocumentNested(before: seq<Event>, m: Markup)
    requires Nested(before)
    ensures Nested(before + Events(m)) && OpenNames(before + Events(m)) == OpenNames(before)
    decreases m
  {
    hide OpenNames, Nested;
    match m {
      case Nothing =>
        assert before + [] == before;
      case Element(tag, inside, after) =>
        var inner := before + [Start(tag)];
        NestedAdd(before, Start(tag));
        DocumentNested(inner, inside);
        NestedAdd(inner + Events(inside), End);
        DocumentNested(inner + Events(inside) + [End], after);
        ElementEvents(before, m);
      case Void(tag, after) =>
        NestedAdd(before, Empty(tag));
        DocumentNested(before + [Empty(tag)], after);
        Regroup(before, [Empty(tag)], Events(after));
      case Words(text, after) =>
        NestedAdd(before, Event.Words(text));
        DocumentNested(before + [Event.Words(text)], after);
        Regroup(before, [Event.Words(text)], Events(after));
      case Noise(after) =>
        NestedAdd(before, Other);
        DocumentNested(before + [Other], after);
        Regroup(before, [Other], Events(after));
    }
  }

  predicate Readable(events: seq<Event>) {
    forall e <- events :: !e.Garbled? && !e.Broken?
  }

  lemma {:induction false} ReadableRuns(events: seq<Event>)
    requires Readable(events)
    ensures Ran(events).Running?
  {
    hide DetectVersion, NewFile, PendingOf, ApplyLast;
    if events != [] {
      assert events[|events| - 1] in events;
      ReadableRuns(events[..|events| - 1]);
    }
  }

  lemma {:induction false} DocumentReadable(m: Markup)
    ensures Readable(Events(m))
    decreases m
  {
    match m {
      case Nothing =>
      case Element(_, inside, after) =>
        DocumentReadable(inside);
        DocumentReadable(after);
      case Void(_, after) => DocumentReadable(after);
      case Words(_, after) => DocumentReadable(after);
      case Noise(after) => DocumentReadable(after);
    }
  }

  /** A document that stops anywhere inside an element is refused as
      truncated, with the count of elements left open; one that stops outside
      every element is not. */
  lemma CutShortIff(m: Markup, k: nat)
    requires k <= |Events(m)|
    ensures var cut := Events(m)[..k];
            var names := OpenNames(cut);
            if names == [] then Finish(Ran(cut)).Document? || Finish(Ran(cut)).why in {NoMetalink, NoFiles}
            else Finish(Ran(cut)) == Refused(Truncated(|names|))
  {
    hide Events, OpenNames, Ran, Nested;
    var cut := Events(m)[..k];
    NothingNested();
    DocumentNested([], m);
    assert [] + Events(m) == Events(m);
    NestedPrefix(Events(m), k);
    DocumentReadable(m);
    assert forall e | e in cut :: e in Events(m);
    ReadableRuns(cut);
    DepthIsNesting(cut);
  }

  lemma NothingNested()
    ensures Nested([])
  {
  }

  // --- Documents whose values hold one text ------------------------------------------------------

  /** Every value element holds one text or nothing. */
  predicate Simple(m: Markup) {
    match m
    case Nothing => true
    case Element(tag, inside, after) =>
      (if IsValue(tag) then inside.Nothing? || (inside.Words? && inside.after.Nothing?) else Simple(inside))
      && Simple(after)
    case Void(_, after) => Simple(after)
    case Words(_, after) => Simple(after)
    case Noise(after) => Simple(after)
  }

  /** What a document says, in document order. */
  datatype Fact = Declares(version: Version) | Opens(file: File) | Says(what: Pending, value: string)

  function TagFacts(tag: Tag): seq<Fact> {
    if tag.name == "metalink" then [Declares(DetectVersion(tag))]
    else if tag.name == "file" then [Opens(NewFile(tag))]
    else []
  }

  function Facts(m: Markup, inPieces: bool): seq<Fact> {
    match m
    case Nothing => []
    case Element(tag, inside, after) =>
      (if !IsValue(tag) then TagFacts(tag) + Facts(inside, inPieces || tag.name == "pieces")
       else if inside.Words? then [Says(PendingOf(tag, inPieces), inside.text)]
       else [])
      + Facts(after, inPieces)
    case Void(tag, after) => TagFacts(tag) + Facts(after, inPieces)
    case Words(_, after) => Facts(after, inPieces)
    case Noise(after) => Facts(after, inPieces)
  }

  function Told(c: Collected, fact: Fact): Collected {
    match fact
    case Declares(version) => c.(version := Seen(version))
    case Opens(file) => c.(files := c.files + [file])
    case Says(what, value) => c.(files := ApplyLast(c.files, what, value))
  }

  /** The facts taken in order, each value going to the file opened last. */
  function Tell(c: Collected, facts: seq<Fact>): Collected
    decreases |facts|
  {
    if facts == [] then c else Tell(Told(c, facts[0]), facts[1..])
  }

  lemma {:induction false} TellJoin(c: Collected, a: seq<Fact>, b: seq<Fact>)
    ensures Tell(c, a + b) == Tell(Tell(c, a), b)
    decreases |a|
  {
    hide Told;
    if a == [] {
      assert a + b == b;
    } else {
      assert (a + b)[1..] == a[1..] + b;
      TellJoin(Told(c, a[0]), a[1..], b);
    }
  }

  lemma {:induction false} TellIdle(c: Collected, facts: seq<Fact>)
    ensures Tell(c, facts).pending == c.pending
    decreases |facts|
  {
    if facts != [] {
      TellIdle(Told(c, facts[0]), facts[1..]);
    }
  }

  lemma TellOne(c: Collected, fact: Fact)
    ensures Tell(c, [fact]) == Told(c, fact)
  {
  }

  lemma IdleText(files: seq<File>, text: string)
    ensures ApplyLast(files, Idle, text) == files
  {
  }

  /** When every value element holds one text, the walk collects the facts of
      the document, text anywhere else being passed over. */
  lemma {:induction false} WalkTells(m: Markup, c: Collected, inPieces: bool)
    requires Simple(m) && c.pending.Idle?
    ensures Walk(m, c, inPieces) == Tell(c, Facts(m, inPieces))
    decreases m
  {
    hide DetectVersion, NewFile, PendingOf, ApplyLast, Tell;
    match m {
      case Nothing => TellNothing(c);
      case Element(tag, inside, after) =>
        ElementTells(m, c, inPieces);
        var head := ElementFacts(m, inPieces);
        TellIdle(c, head);
        WalkTells(after, Tell(c, head), inPieces);
        TellJoin(c, head, Facts(after, inPieces));
      case Void(tag, after) =>
        TagTells(c, tag);
        WalkTells(after, VoidTag(c, tag), inPieces);
        TellJoin(c, TagFacts(tag), Facts(after, inPieces));
      case Words(text, after) =>
        IdleText(c.files, text);
        WalkTells(after, c, inPieces);
      case Noise(after) => WalkTells(after, c, inPieces);
    }
  }

  lemma TellNothing(c: Collected)
    ensures Tell(c, []) == c
  {
  }

  function ElementFacts(m: Markup, inPieces: bool): seq<Fact>
    requires m.Element?
  {
    if !IsValue(m.tag) then TagFacts(m.tag) + Facts(m.inside, inPieces || m.tag.name == "pieces")
    else if m.inside.Words? then [Says(PendingOf(m.tag, inPieces), m.inside.text)]
    else []
  }

  lemma TagTells(c: Collected, tag: Tag)
    requires c.pending.Idle?
    ensures VoidTag(c, tag) == Tell(c, TagFacts(tag))
    ensures !IsValue(tag) ==> forall inPieces :: OpenTag(c, tag, inPieces) == Tell(c, TagFacts(tag))
  {
    hide DetectVersion, NewFile, PendingOf;
    TellNothing(c);
    if tag.name == "metalink" {
      TellOne(c, Declares(DetectVersion(tag)));
    } else if tag.name == "file" {
      TellOne(c, Opens(NewFile(tag)));
    }
  }

  lemma {:induction false} ElementTells(m: Markup, c: Collected, inPieces: bool)
    requires m.Element? && Simple(m) && c.pending.Idle?
    ensures Walk(m.inside, OpenTag(c, m.tag, inPieces), inPieces || m.tag.name == "pieces").(pending := Idle)
         == Tell(c, ElementFacts(m, inPieces))
    decreases m, 0
  {
    hide DetectVersion, NewFile, PendingOf, ApplyLast, Tell;
    var tag, inner := m.tag, inPieces || m.tag.name == "pieces";
    if !IsValue(tag) {
      TagTells(c, tag);
      TellIdle(c, TagFacts(tag));
      WalkTells(m.inside, Tell(c, TagFacts(tag)), inner);
      TellIdle(Tell(c, TagFacts(tag)), Facts(m.inside, inner));
      TellJoin(c, TagFacts(tag), Facts(m.inside, inner));
    } else if m.inside.Words? {
      TellOne(c, Says(PendingOf(tag, inPieces), m.inside.text));
    } else {
      TellNothing(c);
    }
  }

  // --- What one file collects -------------------------------------------------------------------

  /** The checksums some facts speak of, in order. */
  function Checksums(facts: seq<Fact>): seq<Checksum>
    decreases |facts|
  {
    if facts == [] then [] else ChecksumOf(facts[0]) + Checksums(facts[1..])
  }

  function ChecksumOf(fact: Fact): seq<Checksum> {
    if fact.Says? && fact.what.HashOf? && fact.value != "" && WithoutDashes(Lower(fact.what.algorithm)) != ""
    then [Checksum(WithoutDashes(Lower(fact.what.algorithm)), Lower(fact.value))]
    else []
  }

  /** The addresses some facts give: torrents, or mirrors with a scheme that is
      spoken here. */
  function Addresses(facts: seq<Fact>, torrents: bool): seq<Mirror>
    decreases |facts|
  {
    if facts == [] then [] else AddressOf(facts[0], torrents) + Addresses(facts[1..], torrents)
  }

  function AddressOf(fact: Fact, torrents: bool): seq<Mirror> {
    if fact.Says? && fact.what.Url? && fact.value != "" && fact.what.torrent == torrents
       && (torrents || (!fact.what.meta && ("http://" <= Lower(fact.value) || "https://" <= Lower(fact.value))))
    then [Mirror(fact.value, fact.what.priority, fact.what.location)]
    else []
  }

  /** The last size some facts give, or the one before them. */
  function SizeAfter(size: OptNat, facts: seq<Fact>): OptNat
    decreases |facts|
  {
    if facts == [] then size else SizeAfter(SizeOf(size, facts[0]), facts[1..])
  }

  function SizeOf(size: OptNat, fact: Fact): OptNat {
    if fact.Says? && fact.what.Size? then NumberOf(SomeText(fact.value), Text.U64_MAX) else size
  }

  /** The addresses with a scheme that is not spoken here. */
  function Unspoken(facts: seq<Fact>): seq<string>
    decreases |facts|
  {
    if facts == [] then [] else UnspokenOf(facts[0]) + Unspoken(facts[1..])
  }

  function UnspokenOf(fact: Fact): seq<string> {
    if fact.Says? && fact.what.Url? && fact.value != "" && !fact.what.torrent && !fact.what.meta
       && !("http://" <= Lower(fact.value)) && !("https://" <= Lower(fact.value))
    then [fact.value]
    else []
  }

  /** A file with what some facts say of it. */
  function Filled(file: File, facts: seq<Fact>): File {
    File(file.name, SizeAfter(file.size, facts), file.checksums + Checksums(facts),
         file.mirrors + Addresses(facts, false),
         file.torrents + Addresses(facts, true), file.unsupported + Unspoken(facts))
  }

  /** The facts up to the next file belong to the file opened last: it collects
      exactly their checksums, torrents and mirrors, and their last size. */
  lemma {:induction false} FileCollects(c: Collected, facts: seq<Fact>)
    requires c.files != [] && forall fact <- facts :: !fact.Opens?
    ensures Tell(c, facts).files == c.files[..|c.files| - 1] + [Filled(c.files[|c.files| - 1], facts)]
    decreases |facts|
  {
    hide Told, Filled;
    var n := |c.files| - 1;
    if facts == [] {
      FilledNone(c.files[n]);
    } else {
      assert facts[0] in facts;
      var told := Told(c, facts[0]);
      ToldFile(c, facts[0]);
      FileCollects(told, facts[1..]);
      FilledNext(c.files[n], facts);
      assert told.files[..n] == c.files[..n];
    }
  }

  lemma FilledNone(file: File)
    ensures Filled(file, []) == file
  {
    assert file.checksums + [] == file.checksums && file.unsupported + [] == file.unsupported;
    assert file.torrents + [] == file.torrents && file.mirrors + [] == file.mirrors;
  }

  lemma FilledNext(file: File, facts: seq<Fact>)
    requires facts != []
    ensures Filled(file, facts) == Filled(Filled(file, [facts[0]]), facts[1..])
  {
    hide ChecksumOf, AddressOf, SizeOf, UnspokenOf;
    var first, rest := facts[0], facts[1..];
    OneFact(file, first);
    assert file.checksums + (ChecksumOf(first) + Checksums(rest))
        == (file.checksums + ChecksumOf(first)) + Checksums(rest);
    assert file.torrents + (AddressOf(first, true) + Addresses(rest, true))
        == (file.torrents + AddressOf(first, true)) + Addresses(rest, true);
    assert file.mirrors + (AddressOf(first, false) + Addresses(rest, false))
        == (file.mirrors + AddressOf(first, false)) + Addresses(rest, false);
    assert file.unsupported + (UnspokenOf(first) + Unspoken(rest))
        == (file.unsupported + UnspokenOf(first)) + Unspoken(rest);
  }

  lemma NothingSaid()
    ensures Checksums([]) == [] && Unspoken([]) == [] && Addresses([], true) == [] && Addresses([], false) == []
    ensures forall size :: SizeAfter(size, []) == size
  {
  }

  lemma OneFact(file: File, fact: Fact)
    ensures Filled(file, [fact]) ==
            File(file.name, SizeOf(file.size, fact), file.checksums + ChecksumOf(fact),
                 file.mirrors + AddressOf(fact, false), file.torrents + AddressOf(fact, true),
                 file.unsupported + UnspokenOf(fact))
  {
    hide ChecksumOf, AddressOf, SizeOf, UnspokenOf;
    assert [fact][1..] == [];
    NothingSaid();
    assert Checksums([fact]) == ChecksumOf(fact) + [] && Unspoken([fact]) == UnspokenOf(fact) + [];
    assert Addresses([fact], true) == AddressOf(fact, true) + [];
    assert Addresses([fact], false) == AddressOf(fact, false) + [];
    assert SizeAfter(file.size, [fact]) == SizeOf(file.size, fact);
  }

  /** What one fact does to the file opened last. */
  lemma ToldFile(c: Collected, fact: Fact)
    requires c.files != [] && !fact.Opens?
    ensures var n := |c.files| - 1;
            Told(c, fact).files == c.files[..n] + [Filled(c.files[n], [fact])]
  {
    hide NumberOf, Lower, WithoutDashes, Filled;
    var n := |c.files| - 1;
    OneFact(c.files[n], fact);
    AppliedFile(c.files[n], fact);
    assert c.files == c.files[..n] + [c.files[n]];
    assert forall file :: c.files[n := file] == c.files[..n] + [file];
  }

  lemma AppliedFile(file: File, fact: Fact)
    ensures (if fact.Says? then Apply(file, fact.what, fact.value) else file) ==
            File(file.name, SizeOf(file.size, fact), file.checksums + ChecksumOf(fact),
                 file.mirrors + AddressOf(fact, false), file.torrents + AddressOf(fact, true),
                 file.unsupported + UnspokenOf(fact))
  {
    hide NumberOf, Lower, WithoutDashes;
  }

  // --- The whole document -----------------------------------------------------------------------

  /** The facts before the next file opens. */
  function Own(facts: seq<Fact>): (own: seq<Fact>)
    ensures own <= facts && forall fact <- own :: !fact.Opens?
    decreases |facts|
  {
    if facts == [] || facts[0].Opens? then [] else [facts[0]] + Own(facts[1..])
  }

  /** The files of a document, each with exactly the facts between its opening
      and the next. */
  function FilesOf(facts: seq<Fact>): seq<File>
    decreases |facts|
  {
    if facts == [] then []
    else if facts[0].Opens? then [Filled(facts[0].file, Own(facts[1..]))] + FilesOf(facts[1..])
    else FilesOf(facts[1..])
  }

  lemma {:induction false} FilesPastOwn(facts: seq<Fact>)
    ensures FilesOf(facts[|Own(facts)|..]) == FilesOf(facts)
    decreases |facts|
  {
    if facts != [] && !facts[0].Opens? {
      FilesPastOwn(facts[1..]);
      assert facts[|Own(facts)|..] == facts[1..][|Own(facts[1..])|..];
    }
  }

  lemma {:induction false} OwnEnds(facts: seq<Fact>)
    ensures |Own(facts)| < |facts| ==> facts[|Own(facts)|].Opens?
    decreases |facts|
  {
    if facts != [] && !facts[0].Opens? {
      OwnEnds(facts[1..]);
    }
  }

  /** Told some facts, the file opened last gets its own and the rest open
      files of theirs. */
  lemma {:induction false} TellFiles(c: Collected, facts: seq<Fact>)
    requires c.files != []
    ensures var n := |c.files| - 1;
            Tell(c, facts).files == c.files[..n] + [Filled(c.files[n], Own(facts))] + FilesOf(facts)
    decreases |facts|
  {
    hide Filled, FilesOf, Own;
    var own := Own(facts);
    var rest := facts[|own|..];
    assert facts == own + rest;
    TellJoin(c, own, rest);
    FileCollects(c, own);
    FilesPastOwn(facts);
    OwnEnds(facts);
    if rest == [] {
      NoFilesLeft();
    } else {
      var told := Tell(c, own);
      var next := Told(told, rest[0]);
      TellFiles(next, rest[1..]);
      FirstFile(rest);
      assert next.files[..|next.files| - 1] == told.files;
    }
  }

  lemma NoFilesLeft()
    ensures FilesOf([]) == []
  {
  }

  lemma FirstFile(facts: seq<Fact>)
    requires facts != [] && facts[0].Opens?
    ensures FilesOf(facts) == [Filled(facts[0].file, Own(facts[1..]))] + FilesOf(facts[1..])
  {
  }

  /** From nothing, the files collected are the files of the facts: what stands
      before the first file is dropped. */
  lemma {:induction false} FilesTold(c: Collected, facts: seq<Fact>)
    requires c.files == []
    ensures Tell(c, facts).files == FilesOf(facts)
    decreases |facts|
  {
    hide Filled, Own;
    if facts != [] {
      var next := Told(c, facts[0]);
      if facts[0].Opens? {
        TellFiles(next, facts[1..]);
        assert next.files[..0] == [];
      } else {
        FilesTold(next, facts[1..]);
      }
    }
  }

  /** A document whose values hold one text parses to its files, each with
      exactly what stands between its opening and the next. */
  lemma ParsedFiles(m: Markup)
    requires Simple(m)
    ensures var r := Finish(Ran(Events(m))); r.Document? ==> r.files == FilesOf(Facts(m, false))
    ensures Finish(Ran(Events(m))) == Refused(NoFiles) ==> FilesOf(Facts(m, false)) == []
  {
    hide Walk, Simple, Facts, FilesOf, Tell;
    ParseIsWalk(m);
    WalkTells(m, EMPTY, false);
    FilesTold(EMPTY, Facts(m, false));
  }

  // --- Piece hashes ------------------------------------------------------------------------------

  /** The same checksums on every file that was there, and none on the files
      opened since. */
  predicate NoNewChecksums(before: seq<File>, after: seq<File>) {
    && |before| <= |after|
    && forall k | 0 <= k < |after| :: after[k].checksums == if k < |before| then before[k].checksums else []
  }

  lemma AppliedChecksums(files: seq<File>, what: Pending, value: string)
    requires !what.HashOf?
    ensures NoNewChecksums(files, ApplyLast(files, what, value))
  {
    hide NumberOf, Lower;
  }

  lemma NoNewAgain(a: seq<File>, b: seq<File>, c: seq<File>)
    requires NoNewChecksums(a, b) && NoNewChecksums(b, c)
    ensures NoNewChecksums(a, c)
  {
  }

  lemma OpenedChecksums(c: Collected, tag: Tag)
    requires !c.pending.HashOf?
    ensures var open := OpenTag(c, tag, true); NoNewChecksums(c.files, open.files) && !open.pending.HashOf?
    ensures var void := VoidTag(c, tag); NoNewChecksums(c.files, void.files) && !void.pending.HashOf?
  {
    hide DetectVersion, PriorityOf, Lower;
  }

  /** No hash inside `pieces`, at any depth below it and in any document,
      becomes a checksum. */
  lemma {:induction false} NoPieceHash(m: Markup, c: Collected)
    requires !c.pending.HashOf?
    ensures NoNewChecksums(c.files, Walk(m, c, true).files) && !Walk(m, c, true).pending.HashOf?
    decreases m
  {
    hide NoNewChecksums, OpenTag, VoidTag, ApplyLast;
    match m {
      case Nothing =>
        AppliedChecksums(c.files, Idle, "");
        IdleText(c.files, "");
      case Element(tag, inside, after) =>
        var open := OpenTag(c, tag, true);
        OpenedChecksums(c, tag);
        NoPieceHash(inside, open);
        var walked := Walk(inside, open, true).(pending := Idle);
        NoPieceHash(after, walked);
        NoNewAgain(c.files, open.files, walked.files);
        NoNewAgain(c.files, walked.files, Walk(m, c, true).files);
      case Void(tag, after) =>
        OpenedChecksums(c, tag);
        NoPieceHash(after, VoidTag(c, tag));
        NoNewAgain(c.files, VoidTag(c, tag).files, Walk(m, c, true).files);
      case Words(text, after) =>
        AppliedChecksums(c.files, c.pending, text);
        var applied := c.(files := ApplyLast(c.files, c.pending, text), pending := Idle);
        NoPieceHash(after, applied);
        NoNewAgain(c.files, applied.files, Walk(m, c, true).files);
      case Noise(after) => NoPieceHash(after, c);
    }
  }
}
