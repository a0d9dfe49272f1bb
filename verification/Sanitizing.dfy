/** Making one path component safe to write on any platform. */
module Sanitizing {
  import opened Letters
  import opened PathText

  const MAX_COMPONENT: nat := 255

  /** Device names Windows resolves before it looks at the filesystem. */
  const RESERVED: seq<string> := [
    "CON", "PRN", "AUX", "NUL", "COM1", "COM2", "COM3", "COM4", "COM5", "COM6", "COM7", "COM8",
    "COM9", "COM0", "LPT1", "LPT2", "LPT3", "LPT4", "LPT5", "LPT6", "LPT7", "LPT8", "LPT9", "LPT0"]

  /** Why a path was changed. */
  datatype Reason =
    | Requested
    | Escape
    | ReservedName
    | IllegalCharacter
    | TrailingDotOrSpace
    | TooLong
    | Empty
    | DroppedComponent
    | CaseCollision
    | DuplicatePath

  predicate Illegal(c: char) {
    c in {'<', '>', ':', '\"', '|', '?', '*'} || c as int < 0x20 || 0x7F <= c as int <= 0x9F || c == '\\'
  }

  predicate DotOrSpace(c: char) {
    c == '.' || c == ' '
  }

  predicate EqIgnoreCase(a: string, b: string) {
    |a| == |b| && forall i | 0 <= i < |a| :: LowerChar(a[i]) == LowerChar(b[i])
  }

  /** Everything before the first dot. */
  function FirstStem(name: string): (stem: string)
    ensures |stem| <= |name|
  {
    if name == "" || name[0] == '.' then "" else [name[0]] + FirstStem(name[1..])
  }

  predicate IsDevice(stem: string) {
    exists r <- RESERVED :: EqIgnoreCase(stem, r)
  }

  predicate IsReserved(name: string) {
    IsDevice(FirstStem(name))
  }

  predicate AsciiLetter(c: char) {
    'A' <= c <= 'Z' || 'a' <= c <= 'z'
  }

  /** Whether a component would be read as something other than a plain name. */
  predicate IsEscape(c: string) {
    || c == ".."
    || (|c| >= 2 && AsciiLetter(c[0]) && c[1] == ':')
    || (c != "" && c[0] == '\\')
  }

  function Replaced(s: string): string {
    if s == "" then "" else [if Illegal(s[0]) then '_' else s[0]] + Replaced(s[1..])
  }

  function Underscores(n: nat): string {
    if n == 0 then "" else "_" + Underscores(n - 1)
  }

  predicate OnlyDotsAndSpaces(s: string) {
    forall c <- s :: DotOrSpace(c)
  }

  function TrimEnd(s: string): string {
    if s != "" && DotOrSpace(s[|s| - 1]) then TrimEnd(s[..|s| - 1]) else s
  }

  /** The replacement character goes on the stem, so the extension survives. */
  function MarkStem(name: string): string {
    FirstStem(name) + "_" + name[|FirstStem(name)|..]
  }

  /** Where the last dot is, or -1. */
  function LastDot(name: string): (d: int)
    ensures -1 <= d < |name|
    ensures d >= 0 ==> name[d] == '.'
    ensures forall i | d < i < |name| :: name[i] != '.'
  {
    if name == "" then -1
    else if name[|name| - 1] == '.' then |name| - 1
    else LastDot(name[..|name| - 1])
  }

  /** The extension with its dot, and nothing when the tail is not one. */
  function Extension(name: string): string {
    var d := LastDot(name);
    if d >= 0 && name[d + 1..] != "" && Bytes(name[d + 1..]) <= 16 then name[d..] else ""
  }

  function Stem(name: string): string {
    name[..ExtensionAt(name)]
  }

  function ExtensionAt(name: string): (n: nat)
    ensures n <= |name|
    ensures name[n..] == Extension(name)
  {
    if Extension(name) == "" then |name| else LastDot(name)
  }

  function Room(taken: nat): nat {
    if taken < MAX_COMPONENT then MAX_COMPONENT - taken else 0
  }

  function Truncate(name: string): string {
    Cut(Stem(name), Room(Bytes(Extension(name)))) + Extension(name)
  }

  // --- The component, stage by stage ------------------------------------------

  function Filled(c: string): string {
    var out := Replaced(c);
    if NamesNothing(out) then Underscores(|out|) else out
  }

  function Marked(c: string): string {
    var out := TrimEnd(Filled(c));
    if IsReserved(out) then MarkStem(out) else out
  }

  function Shortened(c: string): string {
    var out := Marked(c);
    if Bytes(out) > MAX_COMPONENT then Truncate(out) else out
  }

  /** One path component made safe. */
  function Sanitize(c: string): string {
    if Shortened(c) == "" then "_" else Shortened(c)
  }

  function When(b: bool, r: Reason): set<Reason> {
    if b then {r} else {}
  }

  predicate AnyIllegal(s: string) {
    exists i | 0 <= i < |s| :: Illegal(s[i])
  }

  predicate NamesNothing(s: string) {
    s != "" && OnlyDotsAndSpaces(s)
  }

  /** Every rule that applied to it. */
  function Reasons(c: string): set<Reason> {
    EarlyReasons(c)
    + When(IsReserved(TrimEnd(Filled(c))), ReservedName)
    + When(Bytes(Marked(c)) > MAX_COMPONENT, TooLong)
    + When(Shortened(c) == "", Empty)
  }

  function EarlyReasons(c: string): set<Reason> {
    When(IsEscape(c), Escape)
    + When(AnyIllegal(c), IllegalCharacter)
    + When(NamesNothing(Replaced(c)) || TrimEnd(Filled(c)) != Filled(c), TrailingDotOrSpace)
  }

  lemma ReplacedNext(c: string, i: nat, out: string)
    requires i < |c|
    ensures out + Replaced(c[i..]) == (out + [if Illegal(c[i]) then '_' else c[i]]) + Replaced(c[i + 1..])
  {
    assert c[i..][1..] == c[i + 1..];
  }

  method ReplaceIllegal(c: string) returns (out: string, found: bool)
    ensures out == Replaced(c) && found == AnyIllegal(c)
  {
    out, found := "", false;
    for i := 0 to |c|
      invariant Replaced(c) == out + Replaced(c[i..])
      invariant found ==> AnyIllegal(c)
      invariant !found ==> forall k | 0 <= k < i :: !Illegal(c[k])
    {
      ReplacedNext(c, i, out);
      if Illegal(c[i]) {
        found := true;
        out := out + ['_'];
      } else {
        out := out + [c[i]];
      }
    }
  }

  /** The stages in place, over one string. */
  method SanitizeComponent(c: string) returns (out: string, reasons: set<Reason>)
    ensures out == Sanitize(c) && reasons == Reasons(c)
  {
    hide IsReserved, MarkStem, Stem, Extension, Cut, Filled, TrimEnd, EarlyReasons, Bytes;
    var early;
    out, early := FillAndTrim(c);
    var reserved := IsReserved(out);
    if reserved {
      out := MarkStem(out);
    }
    assert out == Marked(c);
    var long := Bytes(out) > MAX_COMPONENT;
    if long {
      var cut := CutAt(Stem(out), Room(Bytes(Extension(out))));
      out := cut + Extension(out);
    }
    assert out == Shortened(c);
    reasons := early + When(reserved, ReservedName) + When(long, TooLong) + When(out == "", Empty);
    if out == "" {
      out := "_";
    }
  }

  /** The first stages: what must not appear, and what must not end it. */
  method FillAndTrim(c: string) returns (out: string, reasons: set<Reason>)
    ensures out == TrimEnd(Filled(c)) && reasons == EarlyReasons(c)
  {
    var replaced, found := ReplaceIllegal(c);
    out := replaced;
    reasons := When(IsEscape(c), Escape) + When(found, IllegalCharacter);
    if out != "" && OnlyDotsAndSpaces(out) {
      reasons := reasons + {TrailingDotOrSpace};
      out := Underscores(|out|);
    }
    assert out == Filled(c);
    var trimmed := TrimEnd(out);
    if trimmed != out {
      reasons := reasons + {TrailingDotOrSpace};
      out := trimmed;
    }
  }
}
