/** What a planned name and its reasons are, written out: the names that are
    avoided, the suffix a collision adds, and which reason is given when. */
module PathRenames {
  import opened PathText
  import opened Sanitizing
  import opened PathSafety
  import opened SanitizeNames
  import opened PathPlan
  import opened PathTheorems

  // --- Every planned name ---------------------------------------------------------

  /** No component of a planned path names a device, whatever follows its first
      dot, or has a character that a file name may not have. */
  lemma AllPathsNamed(fold: string -> string, paths: seq<string>, overrides: Overrides,
                      n: nat, component: string, stem: string, rest: string)
    requires FoldLaw(fold) && |paths| <= 0xFFFF_FFFF && PlanAll(fold, paths, overrides).Plan?
    requires n < |PlanAll(fold, paths, overrides).disk|
    requires component in Split(PlanAll(fold, paths, overrides).disk[n]) && Parted(component, stem, rest)
    ensures !Device(Upper(stem))
    ensures forall c <- component :: !Forbidden(c) && c != '/'
    ensures component != "" && component != "." && component != ".." && Bytes(component) <= 255
  {
    hide PlanAll, FoldLaw, Device, Forbidden, Safe;
    AllPathsSafe(fold, paths, overrides);
    var p := PlanAll(fold, paths, overrides);
    assert p.disk[n] in p.disk;
    SafeIs(component, stem, rest);
  }

  // --- The suffix a collision adds ---------------------------------------------------

  /** The last dot of a name with a short tail behind it. */
  lemma ExtensionIs(stem: string, tail: string)
    requires '.' !in tail && tail != "" && Bytes(tail) <= 16
    ensures Extension(stem + "." + tail) == "." + tail && Stem(stem + "." + tail) == stem
  {
    var name := stem + "." + tail;
    LastDotIs(name, |stem|);
    assert name[|stem| + 1..] == tail && name[|stem|..] == "." + tail && name[..|stem|] == stem;
  }

  lemma {:induction false} LastDotIs(name: string, d: nat)
    requires d < |name| && name[d] == '.' && forall i | d < i < |name| :: name[i] != '.'
    ensures LastDot(name) == d
    decreases |name|
  {
    if d < |name| - 1 {
      LastDotIs(name[..|name| - 1], d);
    }
  }

  /** A name without a dot has no extension. */
  lemma NoExtensionIs(name: string)
    requires '.' !in name
    ensures Extension(name) == "" && Stem(name) == name
  {
  }

  /** The n-th attempt, with the suffix between the stem and the extension. */
  lemma AttemptIs(parents: seq<string>, last: string, index: nat, n: nat)
    requires n > 0
    ensures var room := Room(Bytes(Suffix(n)) + Bytes(Extension(last)));
            Candidate(parents + [last], index, n)
            == Join(parents + [Cut(Stem(last), room) + Suffix(n) + Extension(last)])
  {
    hide Cut, Bytes, Stem, Extension, Room, Suffix, Join;
    var parts := parents + [last];
    assert parts[..|parts| - 1] == parents && parts[|parts| - 1] == last;
  }

  /** The n-th attempt of a name with an extension: the number goes between the
      stem and the extension, and what there is no room for is cut from the
      stem. */
  lemma AttemptKeepsExtension(parents: seq<string>, stem: string, tail: string, index: nat, n: nat)
    requires '.' !in tail && tail != "" && Bytes(tail) <= 16 && n > 0
    ensures var suffix := "-" + Decimal(n) + "." + tail;
            var room := if Bytes(suffix) < 255 then 255 - Bytes(suffix) else 0;
            Candidate(parents + [stem + "." + tail], index, n) == Join(parents + [Cut(stem, room) + suffix])
  {
    hide Cut, Decimal, Bytes, Extension, Stem, Join, Candidate;
    AttemptIs(parents, stem + "." + tail, index, n);
    ExtensionIs(stem, tail);
    SuffixParts(Decimal(n), tail);
    RoomFor(Suffix(n), "." + tail);
    Grouped(Cut(stem, Room(Bytes(Suffix(n)) + Bytes("." + tail))), Suffix(n), "." + tail);
  }

  lemma RoomFor(a: string, b: string)
    ensures Room(Bytes(a) + Bytes(b)) == if Bytes(a + b) < 255 then 255 - Bytes(a + b) else 0
  {
    BytesAppend(a, b);
  }

  lemma SuffixParts(digits: string, tail: string)
    ensures ("-" + digits) + ("." + tail) == "-" + digits + "." + tail
  {
  }

  lemma Grouped(a: string, b: string, c: string)
    ensures a + b + c == a + (b + c)
  {
  }

  /** The n-th attempt of a name without one. */
  lemma AttemptAppends(parents: seq<string>, name: string, index: nat, n: nat)
    requires '.' !in name && n > 0
    ensures var suffix := "-" + Decimal(n);
            var room := if Bytes(suffix) < 255 then 255 - Bytes(suffix) else 0;
            Candidate(parents + [name], index, n) == Join(parents + [Cut(name, room) + suffix])
  {
    hide Cut, Decimal, Bytes, Extension, Stem, Join, Candidate;
    AttemptIs(parents, name, index, n);
    NoExtensionIs(name);
    RoomFor(Suffix(n), "");
    Grouped(Cut(name, Room(Bytes(Suffix(n)) + Bytes(""))), Suffix(n), "");
    Unchanged(Suffix(n));
  }

  lemma Unchanged(s: string)
    ensures s + "" == s
  {
  }

  /** A clean name that is too long keeps its extension, and of its stem what
      there is room for. */
  lemma LongNameKeepsExtension(stem: string, tail: string, first: string, rest: string)
    requires SanitizeNames.Clean(stem + "." + tail) && Parted(stem + "." + tail, first, rest) && !Device(Upper(first))
    requires '.' !in tail && Bytes(tail) <= 16 && Bytes(stem + "." + tail) > 255
    ensures Sanitize(stem + "." + tail) == Cut(stem, 255 - Bytes("." + tail)) + ("." + tail)
  {
    hide Cut, Bytes, Extension, Stem, Device, Filled, TrimEnd, FirstStem;
    var name := stem + "." + tail;
    CleanTail(stem, tail);
    CleanFilled(name);
    StemIs(name, first, rest);
    DeviceIff(first);
    ExtensionIs(stem, tail);
    BytesAppend(".", tail);
    OneByte();
    assert Marked(name) == name && Shortened(name) == Truncate(name);
    assert Truncate(name)[|Truncate(name)| - 1] == tail[|tail| - 1];
  }

  lemma CleanTail(stem: string, tail: string)
    requires SanitizeNames.Clean(stem + "." + tail)
    ensures tail != ""
  {
    DotLast(stem, tail);
  }

  lemma DotLast(stem: string, tail: string)
    ensures var name := stem + "." + tail; tail == "" ==> name[|name| - 1] == '.'
  {
  }

  lemma OneByte()
    ensures Bytes(".") == 1
  {
  }

  // --- The components of a path ---------------------------------------------------------

  /** The components of a path are its own, in order, each sanitised, without
      those that are empty or a dot. */
  lemma {:induction false} ComponentsAre(a: seq<string>, b: seq<string>, c: string)
    ensures Components(a + b) == Components(a) + Components(b)
    ensures Components([c]) == if c == "" || c == "." then [] else [Sanitize(c)]
    decreases |a|
  {
    hide Sanitize;
    assert [c][1..] == [];
    if a == [] {
      assert a + b == b && Components(a) + Components(b) == Components(b);
    } else {
      assert (a + b)[1..] == a[1..] + b;
      ComponentsAre(a[1..], b, c);
    }
  }

  /** The path a file is given when nobody has it. */
  lemma FirstChoiceIs(paths: seq<string>, overrides: Overrides, n: nat)
    requires n < |paths|
    ensures var parts := Components(Split(if n in overrides then overrides[n] else paths[n]));
            Candidate(Asks(paths, overrides)[n].parts, n, 0)
            == if parts == [] then "file-" + Decimal(n) else Join(parts)
  {
    hide Split, Components, Decimal, Join;
  }

  // --- The reason a collision gives ---------------------------------------------------

  /** The reasons a file brings with it, in terms of the path it asks for. */
  lemma AskReasonsIff(paths: seq<string>, overrides: Overrides, n: nat, reason: Reason)
    requires n < |paths|
    ensures var wanted := if n in overrides then overrides[n] else paths[n];
            && Asks(paths, overrides)[n].wanted == wanted
            && (reason in Asks(paths, overrides)[n].reasons <==>
                  || (reason == Requested && n in overrides)
                  || (reason == DroppedComponent && "" in Split(wanted))
                  || (reason == Reason.Empty && forall c <- Split(wanted) :: c == "" || c == ".")
                  || exists c <- Split(wanted) :: c != "" && c != "." && reason in Reasons(c))
  {
    hide Reasons, Sanitize, Split;
    var raw := Split(Wanted(paths, overrides, n));
    ComponentReasonsIff(raw, reason);
    ComponentsNone(raw);
  }

  lemma {:induction false} ComponentReasonsIff(raw: seq<string>, reason: Reason)
    ensures reason in ComponentReasons(raw) <==> exists c <- raw :: c != "" && c != "." && reason in Reasons(c)
  {
    hide Reasons;
    if raw != [] {
      ComponentReasonsIff(raw[1..], reason);
      assert raw == [raw[0]] + raw[1..];
      if c :| c in raw && c != "" && c != "." && reason in Reasons(c) {
        assert c == raw[0] || c in raw[1..];
      }
      if c :| c in raw[1..] && c != "" && c != "." && reason in Reasons(c) {
        assert c in raw;
      }
      assert raw[0] in raw;
    }
  }

  lemma {:induction false} ComponentsNone(raw: seq<string>)
    ensures Components(raw) == [] <==> forall c <- raw :: c == "" || c == "."
  {
    hide Sanitize;
    if raw != [] {
      ComponentsNone(raw[1..]);
      assert raw == [raw[0]] + raw[1..];
      assert raw[0] in raw && forall c <- raw[1..] :: c in raw;
    }
  }

  lemma NoClashYet(c: string)
    ensures DuplicatePath !in Reasons(c) && CaseCollision !in Reasons(c)
  {
    hide IsReserved, Marked, Shortened, Bytes, Filled, TrimEnd, IsEscape;
  }

  lemma AskNamesNoClash(paths: seq<string>, overrides: Overrides, n: nat)
    requires n < |paths|
    ensures var reasons := Asks(paths, overrides)[n].reasons; DuplicatePath !in reasons && CaseCollision !in reasons
  {
    hide Asks, Split, Reasons;
    AskReasonsIff(paths, overrides, n, DuplicatePath);
    AskReasonsIff(paths, overrides, n, CaseCollision);
    forall c: string
      ensures DuplicatePath !in Reasons(c) && CaseCollision !in Reasons(c)
    {
      NoClashYet(c);
    }
  }

  /** The file that has the name tried last before the free one. */
  ghost predicate Holds(fold: string -> string, asks: seq<Ask>, n: nat, a: nat, j: nat)
    requires FoldLaw(fold) && n < |asks| && PlanTo(fold, asks, n).Plan?
  {
    j < n && a > 0 && fold(PlanTo(fold, asks, n).disk[j]) == fold(Candidate(asks[n].parts, n, a - 1))
  }

  /** How the reasons of a rename come about. */
  lemma RenameReasons(fold: string -> string, asks: seq<Ask>, n: nat, r: Rename) returns (a: nat, holder: Holder)
    requires FoldLaw(fold) && n < |asks|
    requires PlanTo(fold, asks, n).Plan? && PlanTo(fold, asks, n + 1).Plan?
    requires r in PlanTo(fold, asks, n + 1).renames && r.index == n
    ensures r.diskPath == Candidate(asks[n].parts, n, a)
    ensures if a == 0 then holder == Nobody else holder.HeldBy? && Holds(fold, asks, n, a, holder.file)
    ensures holder.HeldBy? ==> holder.file < |asks|
    ensures r.reasons == WithClash(asks[n].reasons, holder,
                                   holder.HeldBy? && asks[holder.file].wanted == asks[n].wanted)
  {
    hide FoldLaw, PlanTo, Candidate, Settled, Settles, WithClash;
    StuckIff(fold, asks, n);
    RenamesExact(fold, asks, n);
    PlanClaims(fold, asks, n);
    PlanNext(fold, asks, n);
    var name;
    a, name := PlanStep(fold, asks, n);
    var before, after := PlanTo(fold, asks, n), PlanTo(fold, asks, n + 1);
    LastRename(before, after, r);
    holder := LastHolder(fold, before.claimed, asks[n].parts, n, a);
    if a > 0 {
      assert fold(Candidate(asks[n].parts, n, a - 1)) in before.claimed;
    }
  }

  lemma HoldsOnce(fold: string -> string, asks: seq<Ask>, n: nat, a: nat, j: nat, k: nat)
    requires FoldLaw(fold) && n < |asks| && PlanTo(fold, asks, n).Plan?
    requires Holds(fold, asks, n, a, j) && Holds(fold, asks, n, a, k)
    ensures j == k
  {
    hide FoldLaw, PlanTo, Candidate;
    PlanClaims(fold, asks, n);
  }

  /** A rename gives a collision as a reason exactly when the first choice was
      taken: a duplicate when the file in the way asked for the same path, a
      case collision when it asked for another one. All its other reasons are
      those the file brought with it. */
  lemma ClashIff(fold: string -> string, paths: seq<string>, overrides: Overrides, n: nat, r: Rename) returns (a: nat)
    requires FoldLaw(fold) && n < |paths|
    requires PlanTo(fold, Asks(paths, overrides), n).Plan? && PlanTo(fold, Asks(paths, overrides), n + 1).Plan?
    requires r in PlanTo(fold, Asks(paths, overrides), n + 1).renames && r.index == n
    ensures var asks := Asks(paths, overrides);
            && r.diskPath == Candidate(asks[n].parts, n, a)
            && (a > 0 <==> exists j: nat :: Holds(fold, asks, n, a, j))
            && (DuplicatePath in r.reasons <==>
                  exists j: nat :: Holds(fold, asks, n, a, j) && asks[j].wanted == asks[n].wanted)
            && (CaseCollision in r.reasons <==>
                  exists j: nat :: Holds(fold, asks, n, a, j) && asks[j].wanted != asks[n].wanted)
            && r.reasons - {DuplicatePath, CaseCollision} == asks[n].reasons
  {
    hide FoldLaw, PlanTo, Candidate, Asks, AskFor, Holds;
    var asks := Asks(paths, overrides);
    AskNamesNoClash(paths, overrides, n);
    var holder;
    a, holder := RenameReasons(fold, asks, n, r);
    forall j: nat | Holds(fold, asks, n, a, j)
      ensures a > 0 && j < n && holder == HeldBy(j)
    {
      HoldsSome(fold, asks, n, a, j);
      HoldsOnce(fold, asks, n, a, j, holder.file);
    }
  }

  lemma HoldsSome(fold: string -> string, asks: seq<Ask>, n: nat, a: nat, j: nat)
    requires FoldLaw(fold) && n < |asks| && PlanTo(fold, asks, n).Plan? && Holds(fold, asks, n, a, j)
    ensures a > 0 && j < n
  {
  }
}
