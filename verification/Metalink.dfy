/** Reading a Metalink document (RFC 5854) in one pass over its XML events,
    against a recursive walk of the tree the events spell. Text comes decoded
    and trimmed; a tag is its local name and its attributes by local name. */
module Metalink {
  import opened Letters
  import Text

  datatype Tag = Tag(name: string, attrs: map<string, string>)

  datatype OptText = NoText | SomeText(text: string)

  datatype OptNat = NoNumber | SomeNumber(value: nat)

  function Attribute(tag: Tag, key: string): OptText {
    if key in tag.attrs then SomeText(tag.attrs[key]) else NoText
  }

  function OrEmpty(t: OptText): string {
    if t.SomeText? then t.text else ""
  }

  /** What the reader hands over, one at a time; the end of the list is the end
      of the document. `Garbled` is text that does not decode, `Broken` is what
      is not XML. */
  datatype Event = Empty(tag: Tag) | Start(tag: Tag) | Words(text: string) | Garbled | End | Other | Broken

  datatype Version = V3 | V4

  datatype Seen = NotSeen | Seen(version: Version)

  datatype Checksum = Checksum(algorithm: string, value: string)

  datatype Mirror = Mirror(url: string, priority: OptNat, location: OptText)

  datatype File = File(name: string, size: OptNat, checksums: seq<Checksum>, mirrors: seq<Mirror>,
                       torrents: seq<Mirror>, unsupported: seq<string>)

  /** What the text of the element now open should become. */
  datatype Pending =
    | Idle
    | Size
    | HashOf(algorithm: string)
    | Url(priority: OptNat, location: OptText, torrent: bool, meta: bool)
    | Ignore

  datatype PiecesAt = Closed | OpenAt(depth: int)

  datatype State = State(version: Seen, files: seq<File>, pending: Pending, depth: int, piecesAt: PiecesAt)

  datatype Refusal = NotXml | Truncated(open: int) | Undecodable | NoMetalink | NoFiles

  datatype Result = Refused(why: Refusal) | Document(version: Version, files: seq<File>)

  datatype Progress = Stopped(why: Refusal) | Running(state: State)

  // --- What a tag says -------------------------------------------------------------------

  function WithoutDashes(s: string): string {
    if s == "" then "" else (if s[0] == '-' then "" else [s[0]]) + WithoutDashes(s[1..])
  }

  predicate Contains(s: string, part: string) {
    exists i | 0 <= i <= |s| :: part <= s[i..]
  }

  function DetectVersion(tag: Tag): Version {
    var declared, ns := Attribute(tag, "version"), Attribute(tag, "xmlns");
    if declared.SomeText? && "3" <= declared.text then V3
    else if ns.SomeText? && Contains(ns.text, "metalinker.org") then V3
    else V4
  }

  function NumberOf(t: OptText, max: nat): OptNat {
    if t.NoText? then NoNumber
    else
      var n := Text.ParseUnsigned(t.text, max);
      if n.Bad? then NoNumber else SomeNumber(n.value)
  }

  function PriorityOf(tag: Tag): OptNat {
    var priority := NumberOf(Attribute(tag, "priority"), Text.U32_MAX);
    var preference := NumberOf(Attribute(tag, "preference"), Text.U32_MAX);
    if priority.SomeNumber? then priority
    else if preference.NoNumber? then NoNumber
    else SomeNumber(if preference.value < 100 then 100 - preference.value else 0)
  }

  function NewFile(tag: Tag): File {
    File(OrEmpty(Attribute(tag, "name")), NoNumber, [], [], [], [])
  }

  predicate IsValue(tag: Tag) {
    tag.name == "size" || tag.name == "hash" || tag.name == "url" || tag.name == "metaurl"
  }

  /** What the text of a value element becomes. A hash inside `pieces`, or one
      marked with a piece number, is read and dropped. */
  function PendingOf(tag: Tag, inPieces: bool): Pending
    requires IsValue(tag)
  {
    if tag.name == "size" then Size
    else if tag.name == "hash" then
      if inPieces || Attribute(tag, "piece").SomeText? then Ignore else HashOf(OrEmpty(Attribute(tag, "type")))
    else if tag.name == "url" then
      Url(PriorityOf(tag), Attribute(tag, "location"), Lower(OrEmpty(Attribute(tag, "type"))) == "bittorrent", false)
    else
      Url(PriorityOf(tag), Attribute(tag, "location"), Lower(OrEmpty(Attribute(tag, "mediatype"))) == "torrent", true)
  }

  function Apply(file: File, what: Pending, value: string): File {
    match what
    case Idle => file
    case Ignore => file
    case Size => file.(size := NumberOf(SomeText(value), Text.U64_MAX))
    case HashOf(named) =>
      var algorithm := WithoutDashes(Lower(named));
      if algorithm == "" || value == "" then file
      else file.(checksums := file.checksums + [Checksum(algorithm, Lower(value))])
    case Url(priority, location, torrent, meta) =>
      if value == "" then file
      else if torrent then file.(torrents := file.torrents + [Mirror(value, priority, location)])
      else if meta then file
      else if "http://" <= Lower(value) || "https://" <= Lower(value)
      then file.(mirrors := file.mirrors + [Mirror(value, priority, location)])
      else file.(unsupported := file.unsupported + [value])
  }

  function ApplyLast(files: seq<File>, what: Pending, value: string): seq<File> {
    if files == [] then files
    else files[|files| - 1 := Apply(files[|files| - 1], what, value)]
  }

  // --- The event loop ----------------------------------------------------------------------

  const INITIAL := State(NotSeen, [], Idle, 0, Closed)

  function StartStep(s: State, tag: Tag): State {
    var depth := s.depth + 1;
    if tag.name == "metalink" then s.(version := Seen(DetectVersion(tag)), depth := depth)
    else if tag.name == "file" then s.(files := s.files + [NewFile(tag)], depth := depth)
    else if tag.name == "pieces" then
      s.(piecesAt := if s.piecesAt.OpenAt? then s.piecesAt else OpenAt(depth), depth := depth)
    else if IsValue(tag) then s.(pending := PendingOf(tag, s.piecesAt.OpenAt?), depth := depth)
    else s.(depth := depth)
  }

  function EmptyStep(s: State, tag: Tag): State {
    if tag.name == "metalink" then s.(version := Seen(DetectVersion(tag)), pending := Idle)
    else if tag.name == "file" then s.(files := s.files + [NewFile(tag)], pending := Idle)
    else s.(pending := Idle)
  }

  function EndStep(s: State): State {
    s.(piecesAt := if s.piecesAt == OpenAt(s.depth) then Closed else s.piecesAt, depth := s.depth - 1, pending := Idle)
  }

  function Step(s: State, e: Event): Progress {
    match e
    case Empty(tag) => Running(EmptyStep(s, tag))
    case Start(tag) => Running(StartStep(s, tag))
    case Words(text) => Running(s.(files := ApplyLast(s.files, s.pending, text), pending := Idle))
    case Garbled => if s.pending.Idle? then Running(s) else Stopped(Undecodable)
    case End => Running(EndStep(s))
    case Other => Running(s)
    case Broken => Stopped(NotXml)
  }

  function Next(p: Progress, e: Event): Progress {
    if p.Stopped? then p else Step(p.state, e)
  }

  /** Where the loop stands after some events. */
  function Ran(events: seq<Event>): Progress {
    if events == [] then Running(INITIAL) else Next(Ran(events[..|events| - 1]), events[|events| - 1])
  }

  function Finish(p: Progress): Result {
    if p.Stopped? then Refused(p.why)
    else if p.state.depth > 0 then Refused(Truncated(p.state.depth))
    else if p.state.version.NotSeen? then Refused(NoMetalink)
    else if p.state.files == [] then Refused(NoFiles)
    else Document(p.state.version.version, p.state.files)
  }

  lemma RanNext(events: seq<Event>, i: nat)
    requires i < |events|
    ensures Ran(events[..i + 1]) == Next(Ran(events[..i]), events[i])
  {
    assert events[..i + 1][..i] == events[..i];
  }

  lemma {:induction false} RanStopped(events: seq<Event>, i: nat)
    requires i <= |events| && Ran(events[..i]).Stopped?
    ensures Ran(events) == Ran(events[..i])
    decreases |events| - i
  {
    if i < |events| {
      RanNext(events, i);
      RanStopped(events, i + 1);
    } else {
      assert events[..i] == events;
    }
  }

  /** One pass over the events. */
  method Parse(events: seq<Event>) returns (r: Result)
    ensures r == Finish(Ran(events))
  {
    hide DetectVersion, PendingOf, Ran;
    var version: Seen, files: seq<File>, pending: Pending := NotSeen, [], Idle;
    var depth, piecesAt := 0, Closed;
    Begin(events);
    for i := 0 to |events|
      invariant Ran(events[..i]) == Running(State(version, files, pending, depth, piecesAt))
    {
      RanNext(events, i);
      ghost var before := State(version, files, pending, depth, piecesAt);
      match events[i] {
        case Empty(tag) =>
          if tag.name == "metalink" {
            version := Seen(DetectVersion(tag));
          } else if tag.name == "file" {
            files := files + [NewFile(tag)];
          }
          pending := Idle;
        case Start(tag) =>
          depth := depth + 1;
          if tag.name == "metalink" {
            version := Seen(DetectVersion(tag));
          } else if tag.name == "file" {
            files := files + [NewFile(tag)];
          } else if tag.name == "pieces" {
            if piecesAt == Closed {
              piecesAt := OpenAt(depth);
            }
          } else if IsValue(tag) {
            pending := PendingOf(tag, piecesAt != Closed);
          }
        case Words(text) =>
          if pending == Idle {
            continue;
          }
          var what := pending;
          pending := Idle;
          if |files| > 0 {
            files := files[|files| - 1 := Apply(files[|files| - 1], what, text)];
          }
        case Garbled =>
          if pending != Idle {
            RanStopped(events, i + 1);
            return Refused(Undecodable);
          }
        case End =>
          if piecesAt == OpenAt(depth) {
            piecesAt := Closed;
          }
          depth := depth - 1;
          pending := Idle;
        case Other =>
        case Broken =>
          RanStopped(events, i + 1);
          return Refused(NotXml);
      }
    }
    assert events[..|events|] == events;
    if depth > 0 {
      return Refused(Truncated(depth));
    }
    if version == NotSeen {
      return Refused(NoMetalink);
    }
    if |files| == 0 {
      return Refused(NoFiles);
    }
    r := Document(version.version, files);
  }

  lemma Begin(events: seq<Event>)
    ensures Ran(events[..0]) == Running(INITIAL)
  {
  }
}
