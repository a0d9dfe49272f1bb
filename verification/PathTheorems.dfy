/** What a finished plan guarantees, for every list of paths and every choice
    of the caller's. */
module PathTheorems {
  import opened Letters
  import opened PathText
  import opened Sanitizing
  import opened PathSafety
  import opened PathPlan

  // --- When planning ends --------------------------------------------------------

  /** Earlier files keep their place as later ones are planned. */
  lemma {:induction false} PlanGrows(fold: string -> string, asks: seq<Ask>, m: nat, n: nat)
    requires FoldLaw(fold) && m <= n <= |asks| && PlanTo(fold, asks, n).Plan?
    ensures PlanTo(fold, asks, m).Plan?
    ensures PlanTo(fold, asks, m).disk == PlanTo(fold, asks, n).disk[..m]
    decreases n
  {
    hide PlanTo, FoldLaw;
    if m < n {
      GrowStep(fold, asks, n - 1);
      PlanGrows(fold, asks, m, n - 1);
      assert PlanTo(fold, asks, n).disk[..n - 1][..m] == PlanTo(fold, asks, n).disk[..m];
    } else {
      assert PlanTo(fold, asks, n).disk[..n] == PlanTo(fold, asks, n).disk;
    }
  }

  lemma GrowStep(fold: string -> string, asks: seq<Ask>, n: nat)
    requires FoldLaw(fold) && n < |asks| && PlanTo(fold, asks, n + 1).Plan?
    ensures PlanTo(fold, asks, n).Plan? && PlanTo(fold, asks, n + 1).disk[..n] == PlanTo(fold, asks, n).disk
  {
    hide FoldLaw, Settled, Candidate, LastHolder, WithClash;
  }

  /** The claims are exactly the folded names placed so far. */
  lemma {:induction false} PlanClaims(fold: string -> string, asks: seq<Ask>, n: nat)
    requires FoldLaw(fold) && n <= |asks| && PlanTo(fold, asks, n).Plan?
    ensures var p := PlanTo(fold, asks, n);
            && (forall j | 0 <= j < n :: fold(p.disk[j]) in p.claimed && p.claimed[fold(p.disk[j])] == j)
            && (forall s | s in p.claimed :: fold(p.disk[p.claimed[s]]) == s)
            && |p.claimed| == n
  {
    hide FoldLaw, Candidate, LastHolder, WithClash, FileName;
    if n > 0 {
      PlanClaims(fold, asks, n - 1);
    }
  }

  /** No two planned paths collide, even where case does not count. */
  lemma AllDistinct(fold: string -> string, paths: seq<string>, overrides: Overrides)
    requires FoldLaw(fold)
    ensures var p := PlanAll(fold, paths, overrides);
            p.Plan? ==>
              && |p.disk| == |paths|
              && forall i, j | 0 <= i < j < |paths| :: fold(p.disk[i]) != fold(p.disk[j])
  {
    if PlanAll(fold, paths, overrides).Plan? {
      PlanClaims(fold, Asks(paths, overrides), |paths|);
    }
  }

  /** One step of a plan that goes on: the file is placed after at most one
      failed attempt more than there are names before it. */
  lemma PlanStep(fold: string -> string, asks: seq<Ask>, n: nat) returns (a: nat, name: string)
    requires FoldLaw(fold) && n < |asks| && PlanTo(fold, asks, n).Plan?
    requires Settles(fold, PlanTo(fold, asks, n).claimed, asks[n].parts, n)
    ensures var before := PlanTo(fold, asks, n);
            && a == Settled(fold, before.claimed, asks[n].parts, n) && name == Candidate(asks[n].parts, n, a)
            && fold(name) !in before.claimed && a <= n + 1
            && (fold(Candidate(asks[n].parts, n, 0)) !in before.claimed ==> a == 0)
    ensures var before, after := PlanTo(fold, asks, n), PlanTo(fold, asks, n + 1);
            && after.Plan? && after.claimed == before.claimed[fold(name) := n] && after.disk == before.disk + [name]
            && (name == asks[n].path ==> after.renames == before.renames)
            && (name != asks[n].path ==>
                  && |after.renames| == |before.renames| + 1 && after.renames[..|before.renames|] == before.renames
                  && var last := after.renames[|before.renames|];
                     && last.index == n && last.torrentPath == asks[n].path && last.diskPath == name
                     && (if a == 0 then last.reasons == asks[n].reasons else last.reasons != {}))
  {
    hide FoldLaw, Settled, Candidate;
    PlanNext(fold, asks, n);
    PlanClaims(fold, asks, n);
    a := Settled(fold, PlanTo(fold, asks, n).claimed, asks[n].parts, n);
    name := Candidate(asks[n].parts, n, a);
  }

  /** Every attempt of the search for a file's name finds it claimed. */
  ghost predicate StuckAt(fold: string -> string, asks: seq<Ask>, i: nat)
    requires FoldLaw(fold) && i < |asks|
  {
    var p := PlanTo(fold, asks, i);
    p.Plan? && forall a: nat :: fold(Candidate(asks[i].parts, i, a)) in p.claimed
  }

  /** A file without a surviving component whose index name an earlier file
      has. */
  ghost predicate IndexTaken(fold: string -> string, asks: seq<Ask>, i: nat)
    requires FoldLaw(fold) && i < |asks|
  {
    var p := PlanTo(fold, asks, i);
    asks[i].parts == [] && p.Plan? && exists j | 0 <= j < i :: fold(p.disk[j]) == fold(FileName(i))
  }

  /** A search runs into nothing but claimed names exactly for such a file. */
  lemma StuckIff(fold: string -> string, asks: seq<Ask>, i: nat)
    requires FoldLaw(fold) && i < |asks| && PlanTo(fold, asks, i).Plan?
    ensures StuckAt(fold, asks, i) <==> IndexTaken(fold, asks, i)
    ensures StuckAt(fold, asks, i) <==> !Settles(fold, PlanTo(fold, asks, i).claimed, asks[i].parts, i)
    ensures StuckAt(fold, asks, i) <==> PlanTo(fold, asks, i + 1).NeverEnds?
  {
    hide FoldLaw, FileName, Candidate;
    PlanClaims(fold, asks, i);
    PlanNext(fold, asks, i);
    var p := PlanTo(fold, asks, i);
    SettlesIff(fold, p.claimed, asks[i].parts, i);
    if fold(FileName(i)) in p.claimed {
      var j := p.claimed[fold(FileName(i))];
      assert fold(p.disk[j]) == fold(FileName(i));
    }
  }

  /** Planning ends exactly when no search is stuck, which is when no file
      without a surviving component finds its index name taken. */
  lemma {:induction false} PlanEndsIff(fold: string -> string, asks: seq<Ask>, n: nat)
    requires FoldLaw(fold) && n <= |asks|
    ensures PlanTo(fold, asks, n).Plan? <==> forall i | 0 <= i < n :: !StuckAt(fold, asks, i)
    ensures PlanTo(fold, asks, n).Plan? <==> forall i | 0 <= i < n :: !IndexTaken(fold, asks, i)
  {
    hide StuckAt, IndexTaken, PlaceFile, Settles, FoldLaw;
    if n > 0 {
      PlanEndsIff(fold, asks, n - 1);
      if PlanTo(fold, asks, n - 1).Plan? {
        StuckIff(fold, asks, n - 1);
      }
    }
  }

  /** Where every path keeps a component, every plan ends. */
  lemma PlanEnds(fold: string -> string, asks: seq<Ask>, n: nat)
    requires FoldLaw(fold) && n <= |asks|
    requires forall i | 0 <= i < n :: asks[i].parts != []
    ensures PlanTo(fold, asks, n).Plan?
  {
    hide PlanTo, Settles, FoldLaw;
    PlanEndsIff(fold, asks, n);
  }

  /** Two files are enough for a search whose every attempt is taken. */
  lemma NeverEndsExample(fold: string -> string)
    requires FoldLaw(fold)
    ensures StuckAt(fold, Asks(["file-1", ""], map[]), 1)
    ensures PlanAll(fold, ["file-1", ""], map[]) == NeverEnds(1)
  {
    hide FoldLaw, Candidate, StuckAt, PlanTo, Safe, SolidEnd;
    var paths := ["file-1", ""];
    var asks := Asks(paths, map[]);
    FileNameSafe(1);
    FileNameOne();
    NamedAsk(paths, 0);
    assert Split("") == [""];
    assert asks[1] == AskFor(paths, map[], 1) && asks[1].parts == [];
    FirstGetsItsName(fold, asks, FileName(1));
  }

  lemma FileNameOne()
    ensures FileName(1) == "file-1"
  {
    assert Decimal(1) == "1";
  }

  /** A safe name that ends well is asked for as it is. */
  lemma NamedAsk(paths: seq<string>, i: nat)
    requires i < |paths| && Safe(paths[i]) && SolidEnd(paths[i])
    ensures Asks(paths, map[])[i].parts == [paths[i]]
  {
    hide Sanitize, ComponentReasons;
    SanitizeFixed(paths[i]);
    SplitJoin([paths[i]]);
    assert Join([paths[i]]) == paths[i];
    ComponentsOne(paths[i]);
  }

  lemma ComponentsOne(c: string)
    requires c != "" && c != "." && Sanitize(c) == c
    ensures Components([c]) == [c]
  {
    assert [c][1..] == [];
  }

  lemma FirstGetsItsName(fold: string -> string, asks: seq<Ask>, name: string)
    requires FoldLaw(fold) && |asks| == 2
    requires asks[0].parts == [name] && asks[1].parts == [] && name == FileName(1)
    ensures PlanTo(fold, asks, 2) == NeverEnds(1) && StuckAt(fold, asks, 1)
  {
    hide FoldLaw;
    PlanEnds(fold, asks, 1);
    assert PlanTo(fold, asks, 0) == Plan(map[], [], []);
    assert Candidate([name], 0, 0) == name;
    PlanNext(fold, asks, 0);
    var disk := PlanTo(fold, asks, 1).disk;
    assert disk == [name] && fold(disk[0]) == fold(FileName(1));
    StuckIff(fold, asks, 1);
    PlanNext(fold, asks, 1);
  }

  // --- Safety ------------------------------------------------------------------------

  ghost predicate AllSafe(parts: seq<string>) {
    forall c <- parts :: Safe(c)
  }

  lemma FileNameSafe(index: nat)
    requires index <= 0xFFFF_FFFF
    ensures Safe(FileName(index)) && SolidEnd(FileName(index))
  {
    hide IsDevice, Decimal;
    var name := FileName(index);
    DecimalShort(index);
    BytesAppend("file-", Decimal(index));
    assert forall i | 0 <= i < 5 :: "file-"[i] as int < 0x80;
    PlainBytes("file-");
    assert forall c <- Decimal(index) :: !Illegal(c) && c != '/' && c != '.';
    assert Plain("file-");
    PlainParts("file-", Decimal(index));
    assert name[4] == '-' && name + "" == name;
    StemNotReserved(name, "");
    PlainNotEscape(name);
    assert name[|name| - 1] == Decimal(index)[|Decimal(index)| - 1] && name[|name| - 1] in Decimal(index);
  }

  lemma {:induction false} ComponentsSafe(raw: seq<string>)
    requires forall c <- raw :: '/' !in c
    ensures AllSafe(Components(raw))
  {
    if raw != [] {
      assert raw == [raw[0]] + raw[1..];
      ComponentsSafe(raw[1..]);
      if raw[0] != "" && raw[0] != "." {
        SanitizeSafe(raw[0]);
      }
    }
  }

  lemma RenamedShape(last: string, attempt: nat) returns (cut: string)
    requires attempt <= 0xFFFF_FFFF
    ensures Renamed(last, attempt) == (cut + Suffix(attempt)) + Extension(last)
    ensures cut <= Stem(last) && Bytes(Renamed(last, attempt)) <= MAX_COMPONENT
  {
    hide Cut, LastDot;
    var ext, mid := Extension(last), Suffix(attempt);
    var room := Room(Bytes(mid) + Bytes(ext));
    cut := Cut(Stem(last), room);
    SuffixShape(attempt);
    ExtensionShape(last);
    CutLongest(Stem(last), room);
    BytesAppend(cut + mid, ext);
    BytesAppend(cut, mid);
  }

  /** The suffix a collision adds leaves a safe name, and a better end. */
  lemma RenamedSafe(last: string, attempt: nat)
    requires Safe(last) && attempt <= 0xFFFF_FFFF
    ensures Safe(Renamed(last, attempt))
    ensures SolidEnd(last) ==> SolidEnd(Renamed(last, attempt))
  {
    hide IsDevice, Renamed, LastDot, Bytes, Suffix;
    var ext, mid := Extension(last), Suffix(attempt);
    var cut := RenamedShape(last, attempt);
    SuffixShape(attempt);
    CutNotReserved(last, cut, mid);
    CutPlain(last, cut);
    PlainParts(cut, mid);
    PlainParts(cut + mid, ext);
    assert '-' in (cut + mid) + ext;
    PlainNotEscape((cut + mid) + ext);
    ExtensionShape(last);
    if SolidEnd(last) {
      RenamedEnd(last, cut + mid, ext);
    }
  }

  /** An end in front of an extension matters only when there is none. */
  lemma RenamedEnd(last: string, head: string, ext: string)
    requires SolidEnd(head) && SolidEnd(last)
    requires ext != "" ==> ext[|ext| - 1] == last[|last| - 1]
    ensures SolidEnd(head + ext)
  {
    var name := head + ext;
    assert ext == "" ==> name == head;
  }

  lemma SuffixShape(attempt: nat)
    requires attempt <= 0xFFFF_FFFF
    ensures var mid := Suffix(attempt);
            Bytes(mid) <= 11 && Plain(mid) && '.' !in mid && '-' in mid && SolidEnd(mid)
  {
    DecimalShort(attempt);
    BytesAppend("-", Decimal(attempt));
    assert Bytes("-") == 1;
    assert forall c <- Decimal(attempt) :: !Illegal(c) && c != '/' && c != '.';
    PlainParts("-", Decimal(attempt));
    var mid := Suffix(attempt);
    assert mid[0] == '-' && mid[|mid| - 1] == Decimal(attempt)[|Decimal(attempt)| - 1];
    assert Decimal(attempt)[|Decimal(attempt)| - 1] in Decimal(attempt);
  }

  /** The components of the name tried at some attempt. */
  function Tried(parts: seq<string>, index: nat, attempt: nat): seq<string> {
    if parts == [] then [FileName(index)]
    else if attempt == 0 then parts
    else parts[..|parts| - 1] + [Renamed(parts[|parts| - 1], attempt)]
  }

  lemma SafePlain(c: string)
    requires Safe(c)
    ensures '/' !in c
  {
  }

  lemma CandidateSafe(parts: seq<string>, index: nat, attempt: nat)
    requires AllSafe(parts) && index <= 0xFFFF_FFFF && attempt <= 0xFFFF_FFFF
    ensures AllSafe(Tried(parts, index, attempt))
    ensures Split(Candidate(parts, index, attempt)) == Tried(parts, index, attempt)
  {
    hide FileName;
    var tried := Tried(parts, index, attempt);
    if parts == [] {
      FileNameSafe(index);
    } else if attempt > 0 {
      RenamedSafe(parts[|parts| - 1], attempt);
    }
    forall c <- tried
      ensures '/' !in c
    {
      SafePlain(c);
    }
    assert Join([FileName(index)]) == FileName(index);
    SplitJoin(tried);
  }

  ghost predicate SafeAsks(asks: seq<Ask>) {
    |asks| <= 0xFFFF_FFFF && forall ask <- asks :: AllSafe(ask.parts)
  }

  lemma AsksSafe(paths: seq<string>, overrides: Overrides)
    requires |paths| <= 0xFFFF_FFFF
    ensures SafeAsks(Asks(paths, overrides))
  {
    forall i | 0 <= i < |paths|
      ensures AllSafe(Asks(paths, overrides)[i].parts)
    {
      ComponentsSafe(Split(Wanted(paths, overrides, i)));
    }
  }

  /** What stands at place `n` of a plan. */
  lemma PlacedAt(fold: string -> string, asks: seq<Ask>, n: nat) returns (a: nat)
    requires FoldLaw(fold) && n < |asks| && PlanTo(fold, asks, |asks|).Plan?
    ensures PlanTo(fold, asks, n).Plan? && PlanTo(fold, asks, n + 1).Plan?
    ensures Settles(fold, PlanTo(fold, asks, n).claimed, asks[n].parts, n)
    ensures a == Settled(fold, PlanTo(fold, asks, n).claimed, asks[n].parts, n) && a <= |asks|
    ensures PlanTo(fold, asks, |asks|).disk[n] == Candidate(asks[n].parts, n, a)
  {
    hide FoldLaw, PlanTo, Candidate, Settles, Settled;
    PlanGrows(fold, asks, n, |asks|);
    PlanGrows(fold, asks, n + 1, |asks|);
    PlanClaims(fold, asks, n);
    StuckIff(fold, asks, n);
    var name;
    a, name := PlanStep(fold, asks, n);
    assert PlanTo(fold, asks, |asks|).disk[..n + 1][n] == name;
  }

  lemma PlacedSafe(fold: string -> string, asks: seq<Ask>, n: nat) returns (a: nat)
    requires FoldLaw(fold) && n < |asks| && PlanTo(fold, asks, |asks|).Plan? && SafeAsks(asks)
    ensures var name := PlanTo(fold, asks, |asks|).disk[n];
            a <= 0xFFFF_FFFF && Split(name) == Tried(asks[n].parts, n, a) && AllSafe(Split(name))
  {
    a := PlacedAt(fold, asks, n);
    assert asks[n] in asks;
    CandidateSafe(asks[n].parts, n, a);
  }

  /** Every component of every planned path is safe, whatever the torrent says
      and whatever the caller asked for. */
  lemma AllPathsSafe(fold: string -> string, paths: seq<string>, overrides: Overrides)
    requires FoldLaw(fold) && |paths| <= 0xFFFF_FFFF
    ensures var p := PlanAll(fold, paths, overrides);
            p.Plan? ==> forall name <- p.disk :: AllSafe(Split(name))
  {
    var asks := Asks(paths, overrides);
    var p := PlanAll(fold, paths, overrides);
    AsksSafe(paths, overrides);
    if p.Plan? {
      forall n | 0 <= n < |p.disk|
        ensures AllSafe(Split(p.disk[n]))
      {
        var a := PlacedSafe(fold, asks, n);
      }
    }
  }

  // --- Renames ------------------------------------------------------------------------

  /** Only files that moved are reported, in order, each with both its names. */
  lemma {:induction false} RenamesExact(fold: string -> string, asks: seq<Ask>, n: nat)
    requires FoldLaw(fold) && n <= |asks| && PlanTo(fold, asks, n).Plan?
    ensures var p := PlanTo(fold, asks, n);
            && (forall r <- p.renames ::
                  r.index < n && r.torrentPath == asks[r.index].path && r.diskPath == p.disk[r.index]
                  && r.torrentPath != r.diskPath)
            && (forall i | 0 <= i < n && p.disk[i] != asks[i].path :: exists r <- p.renames :: r.index == i)
            && (forall x, y | 0 <= x < y < |p.renames| :: p.renames[x].index < p.renames[y].index)
  {
    hide Candidate, PlaceFile, Settled;
    if n > 0 {
      PlanGrows(fold, asks, n - 1, n);
      StuckIff(fold, asks, n - 1);
      RenamesExact(fold, asks, n - 1);
      var a, name := PlanStep(fold, asks, n - 1);
      RenamesNext(asks, n, PlanTo(fold, asks, n - 1), PlanTo(fold, asks, n));
    }
  }

  lemma RenamesNext(asks: seq<Ask>, n: nat, before: Plan, p: Plan)
    requires 0 < n <= |asks| && before.Plan? && p.Plan? && |before.disk| == n - 1 && |p.disk| == n
    requires forall r <- before.renames ::
               r.index < n - 1 && r.torrentPath == asks[r.index].path && r.diskPath == before.disk[r.index]
               && r.torrentPath != r.diskPath
    requires forall i | 0 <= i < n - 1 && before.disk[i] != asks[i].path :: exists r <- before.renames :: r.index == i
    requires forall x, y | 0 <= x < y < |before.renames| :: before.renames[x].index < before.renames[y].index
    requires p.disk[..n - 1] == before.disk
    requires p.disk[n - 1] == asks[n - 1].path ==> p.renames == before.renames
    requires p.disk[n - 1] != asks[n - 1].path ==>
               && |p.renames| == |before.renames| + 1 && p.renames[..|before.renames|] == before.renames
               && var last := p.renames[|before.renames|];
                  last.index == n - 1 && last.torrentPath == asks[n - 1].path && last.diskPath == p.disk[n - 1]
    ensures forall r <- p.renames ::
              r.index < n && r.torrentPath == asks[r.index].path && r.diskPath == p.disk[r.index]
              && r.torrentPath != r.diskPath
    ensures forall i | 0 <= i < n && p.disk[i] != asks[i].path :: exists r <- p.renames :: r.index == i
    ensures forall x, y | 0 <= x < y < |p.renames| :: p.renames[x].index < p.renames[y].index
  {
    assert forall i | 0 <= i < n - 1 :: p.disk[i] == before.disk[i];
    if p.disk[n - 1] != asks[n - 1].path {
      var last := p.renames[|before.renames|];
      assert p.renames == before.renames + [last];
      assert last in p.renames;
      assert forall x | 0 <= x < |before.renames| :: before.renames[x] in before.renames;
    }
    assert forall r <- before.renames :: r in p.renames;
  }

  /** A component nothing was said about was not changed. */
  lemma NoReasonNoChange(c: string)
    requires Reasons(c) == {}
    ensures Sanitize(c) == c
  {
    assert Escape !in Reasons(c) && IllegalCharacter !in Reasons(c) && TrailingDotOrSpace !in Reasons(c);
    assert ReservedName !in Reasons(c) && TooLong !in Reasons(c) && Empty !in Reasons(c);
    assert !AnyIllegal(c);
    ReplacedSame(c);
  }

  lemma {:induction false} ReplacedSame(s: string)
    requires forall i | 0 <= i < |s| :: !Illegal(s[i])
    ensures Replaced(s) == s
  {
    if s != "" {
      ReplacedSame(s[1..]);
    }
  }

  function WithoutDots(raw: seq<string>): seq<string> {
    if raw == [] then []
    else if raw[0] == "." then WithoutDots(raw[1..])
    else [raw[0]] + WithoutDots(raw[1..])
  }

  lemma {:induction false} UnchangedComponents(raw: seq<string>)
    requires "" !in raw && ComponentReasons(raw) == {}
    ensures Components(raw) == WithoutDots(raw)
  {
    hide Sanitize, Reasons;
    if raw != [] {
      assert raw[0] in raw && forall c | c in raw[1..] :: c in raw;
      if raw[0] != "." {
        NoUnion(Reasons(raw[0]), ComponentReasons(raw[1..]));
        NoReasonNoChange(raw[0]);
      }
      UnchangedComponents(raw[1..]);
    }
  }

  lemma NoUnion(a: set<Reason>, b: set<Reason>)
    requires a + b == {}
    ensures a == {} && b == {}
  {
    assert a <= a + b && b <= a + b;
  }

  /** The only change made without a reason is dropping `.` components. */
  lemma ReasonlessPlacement(fold: string -> string, paths: seq<string>, overrides: Overrides, n: nat, r: Rename)
    requires FoldLaw(fold) && n < |paths| && PlanTo(fold, Asks(paths, overrides), n + 1).Plan?
    requires r in PlanTo(fold, Asks(paths, overrides), n + 1).renames && r.index == n && r.reasons == {}
    ensures n !in overrides
    ensures PlanTo(fold, Asks(paths, overrides), n + 1).disk[n] == Join(WithoutDots(Split(paths[n])))
  {
    var asks := Asks(paths, overrides);
    PlanGrows(fold, asks, n, n + 1);
    StuckIff(fold, asks, n);
    RenamesExact(fold, asks, n);
    var a, name := PlanStep(fold, asks, n);
    LastRename(PlanTo(fold, asks, n), PlanTo(fold, asks, n + 1), r);
    assert a == 0 && asks[n].reasons == {};
    var raw := Split(Wanted(paths, overrides, n));
    NoReasonParts(paths, overrides, n);
    UnchangedComponents(raw);
  }

  /** A path nothing is said about although `.` components were dropped. */
  predicate OnlyDotsDropped(paths: seq<string>, overrides: Overrides, n: nat)
    requires n < |paths|
  {
    var raw := Split(paths[n]);
    && n !in overrides && "" !in raw && ComponentReasons(raw) == {}
    && "." in raw && WithoutDots(raw) != []
  }

  lemma {:induction false} WithoutDotsShape(raw: seq<string>)
    ensures "." !in WithoutDots(raw)
    ensures forall c <- WithoutDots(raw) :: c in raw
    ensures "." !in raw ==> WithoutDots(raw) == raw
  {
    if raw != [] {
      assert raw == [raw[0]] + raw[1..];
      WithoutDotsShape(raw[1..]);
    }
  }

  /** Dropping `.` components changes a path exactly when it has one. */
  lemma DotsMatter(path: string)
    requires WithoutDots(Split(path)) != []
    ensures Join(WithoutDots(Split(path))) != path <==> "." in Split(path)
  {
    var raw := Split(path);
    WithoutDotsShape(raw);
    JoinSplit(path);
    if Join(WithoutDots(raw)) == path {
      JoinInjective(WithoutDots(raw), raw);
    }
  }

  /** A rename is reported without a reason exactly when `.` components are all
      there was to drop and nobody has the name that leaves. */
  lemma ReasonlessIff(fold: string -> string, paths: seq<string>, overrides: Overrides, n: nat)
    requires FoldLaw(fold) && n < |paths|
    requires PlanTo(fold, Asks(paths, overrides), n).Plan? && PlanTo(fold, Asks(paths, overrides), n + 1).Plan?
    ensures (exists r <- PlanTo(fold, Asks(paths, overrides), n + 1).renames :: r.index == n && r.reasons == {}) <==>
            && OnlyDotsDropped(paths, overrides, n)
            && fold(Join(WithoutDots(Split(paths[n])))) !in PlanTo(fold, Asks(paths, overrides), n).claimed
  {
    hide FoldLaw, PlanTo, OnlyDotsDropped, Join;
    var after := PlanTo(fold, Asks(paths, overrides), n + 1);
    if r :| r in after.renames && r.index == n && r.reasons == {} {
      ReasonlessOnly(fold, paths, overrides, n, r);
    }
    if OnlyDotsDropped(paths, overrides, n)
       && fold(Join(WithoutDots(Split(paths[n])))) !in PlanTo(fold, Asks(paths, overrides), n).claimed {
      var r := ReasonlessThere(fold, paths, overrides, n);
    }
  }

  lemma ReasonlessOnly(fold: string -> string, paths: seq<string>, overrides: Overrides, n: nat, r: Rename)
    requires FoldLaw(fold) && n < |paths|
    requires PlanTo(fold, Asks(paths, overrides), n).Plan? && PlanTo(fold, Asks(paths, overrides), n + 1).Plan?
    requires r in PlanTo(fold, Asks(paths, overrides), n + 1).renames && r.index == n && r.reasons == {}
    ensures OnlyDotsDropped(paths, overrides, n)
    ensures fold(Join(WithoutDots(Split(paths[n])))) !in PlanTo(fold, Asks(paths, overrides), n).claimed
  {
    hide FoldLaw, PlanTo, Candidate, Settled, Settles, OnlyDotsDropped, Join, AskFor;
    var asks := Asks(paths, overrides);
    StuckIff(fold, asks, n);
    RenamesExact(fold, asks, n);
    AskSays(paths, overrides, n);
    var a, name := PlanStep(fold, asks, n);
    LastRename(PlanTo(fold, asks, n), PlanTo(fold, asks, n + 1), r);
    FirstJoins(asks[n].parts, n);
    ReasonlessAsk(paths, overrides, n);
  }

  lemma ReasonlessThere(fold: string -> string, paths: seq<string>, overrides: Overrides, n: nat) returns (r: Rename)
    requires FoldLaw(fold) && n < |paths| && OnlyDotsDropped(paths, overrides, n)
    requires PlanTo(fold, Asks(paths, overrides), n).Plan? && PlanTo(fold, Asks(paths, overrides), n + 1).Plan?
    requires fold(Join(WithoutDots(Split(paths[n])))) !in PlanTo(fold, Asks(paths, overrides), n).claimed
    ensures r in PlanTo(fold, Asks(paths, overrides), n + 1).renames && r.index == n && r.reasons == {}
  {
    hide FoldLaw, PlanTo, Candidate, Settled, Settles, OnlyDotsDropped, Join, AskFor;
    var asks := Asks(paths, overrides);
    StuckIff(fold, asks, n);
    UnreportedAsk(paths, overrides, n);
    OwnFirst(asks[n].parts, n);
    var a, name := PlanStep(fold, asks, n);
    var before, after := PlanTo(fold, asks, n), PlanTo(fold, asks, n + 1);
    r := after.renames[|before.renames|];
    assert r in after.renames;
  }

  lemma FirstJoins(parts: seq<string>, index: nat)
    ensures parts != [] ==> Candidate(parts, index, 0) == Join(parts)
  {
  }

  lemma ReasonlessAsk(paths: seq<string>, overrides: Overrides, n: nat)
    requires n < |paths| && Asks(paths, overrides)[n].reasons == {}
    requires Asks(paths, overrides)[n].parts != [] ==> Join(Asks(paths, overrides)[n].parts) != paths[n]
    ensures OnlyDotsDropped(paths, overrides, n)
    ensures Asks(paths, overrides)[n].parts == WithoutDots(Split(paths[n])) != []
  {
    NoReasonParts(paths, overrides, n);
    UnchangedComponents(Split(paths[n]));
    DotsMatter(paths[n]);
  }

  lemma UnreportedAsk(paths: seq<string>, overrides: Overrides, n: nat)
    requires n < |paths| && OnlyDotsDropped(paths, overrides, n)
    ensures var ask := Asks(paths, overrides)[n];
            && ask.reasons == {} && ask.parts == WithoutDots(Split(paths[n])) != []
            && ask.path == paths[n] != Join(ask.parts)
  {
    UnchangedComponents(Split(paths[n]));
    DotsMatter(paths[n]);
  }

  /** One path is enough. */
  lemma ReasonlessExample(fold: string -> string)
    requires FoldLaw(fold)
    ensures PlanAll(fold, ["./a"], map[]).Plan?
    ensures PlanAll(fold, ["./a"], map[]).renames == [Rename(0, "./a", "a", {})]
  {
    hide FoldLaw, Candidate, Settled, Settles;
    var paths := ["./a"];
    var asks := Asks(paths, map[]);
    DotSlashA();
    assert PlanTo(fold, asks, 0) == Plan(map[], [], []);
    UnreportedAsk(paths, map[], 0);
    PlanEnds(fold, asks, 1);
    StuckIff(fold, asks, 0);
    OwnFirst(asks[0].parts, 0);
    var a, name := PlanStep(fold, asks, 0);
    assert name == "a";
  }

  lemma DotSlashA()
    ensures Split("./a") == [".", "a"] && WithoutDots([".", "a"]) == ["a"] && Join(["a"]) == "a"
    ensures OnlyDotsDropped(["./a"], map[], 0)
  {
    var parts := [".", "a"];
    assert parts[1..] == ["a"] && Join(["a"]) == "a";
    assert Join(parts) == "." + "/" + "a" == "./a";
    SplitJoin(parts);
    assert [".", "a"][1..] == ["a"] && ["a"][1..] == [];
    assert Safe("a") by {
      PlainNotEscape("a");
      assert "a" + "" == "a";
      LetterSafe();
    }
    SanitizeFixed("a");
  }

  lemma LetterSafe()
    ensures Plain("a") && Bytes("a") == 1 && !IsReserved("a")
  {
    assert FirstStem("a") == "a";
    if IsDevice("a") {
      DeviceShape("a");
    }
  }

  lemma LastRename(before: Plan, after: Plan, r: Rename)
    requires before.Plan? && after.Plan? && r in after.renames
    requires forall x <- before.renames :: x.index != r.index
    requires after.renames == before.renames
             || (|after.renames| == |before.renames| + 1 && after.renames[..|before.renames|] == before.renames)
    ensures |after.renames| == |before.renames| + 1 && r == after.renames[|before.renames|]
  {
    forall k | 0 <= k < |before.renames|
      ensures after.renames[k].index != r.index
    {
      assert before.renames[k] in before.renames && after.renames[..|before.renames|][k] == after.renames[k];
    }
  }

  lemma NoReasonParts(paths: seq<string>, overrides: Overrides, n: nat)
    requires n < |paths| && AskFor(paths, overrides, n).reasons == {}
    ensures n !in overrides
    ensures var raw := Split(Wanted(paths, overrides, n));
            "" !in raw && ComponentReasons(raw) == {} && Components(raw) != []
  {
    var reasons := AskFor(paths, overrides, n).reasons;
    assert Requested !in reasons && DroppedComponent !in reasons && Empty !in reasons;
    forall x | x in ComponentReasons(Split(Wanted(paths, overrides, n)))
      ensures x in reasons
    {
    }
  }

  // --- Planning twice ------------------------------------------------------------------

  ghost predicate AllSolid(disk: seq<string>) {
    forall p <- disk :: forall c <- Split(p) :: SolidEnd(c)
  }

  lemma {:induction false} ComponentsCount(raw: seq<string>)
    requires AllSafe(raw)
    ensures |Components(raw)| == |raw|
  {
    hide Sanitize;
    if raw != [] {
      assert raw == [raw[0]] + raw[1..] && Safe(raw[0]);
      ComponentsCount(raw[1..]);
    }
  }

  lemma {:induction false} ComponentAt(raw: seq<string>, i: nat)
    requires AllSafe(raw) && i < |raw|
    ensures i < |Components(raw)| && Components(raw)[i] == Sanitize(raw[i])
  {
    hide Sanitize;
    assert raw == [raw[0]] + raw[1..] && Safe(raw[0]);
    if i > 0 {
      ComponentAt(raw[1..], i - 1);
    }
  }

  lemma SolidIff(s: string)
    requires Safe(s)
    ensures Sanitize(s) == s <==> SolidEnd(s)
    ensures SolidEnd(Sanitize(s)) && Safe(Sanitize(s))
  {
    SanitizeSafe(s);
    if SolidEnd(s) {
      SanitizeFixed(s);
    } else {
      SanitizeTrims(s);
      MarkedShorter(s);
    }
  }

  /** A safe path is its own first choice exactly when it ends well. */
  lemma OwnChoice(path: string)
    requires AllSafe(Split(path))
    ensures (forall c <- Split(path) :: SolidEnd(c)) ==> Components(Split(path)) == Split(path)
    ensures Components(Split(path)) != []
  {
    var raw := Split(path);
    ComponentsCount(raw);
    if forall c <- raw :: SolidEnd(c) {
      forall i | 0 <= i < |raw|
        ensures Components(raw)[i] == raw[i]
      {
        assert raw[i] in raw;
        ComponentAt(raw, i);
        SolidIff(raw[i]);
      }
    }
  }

  lemma OwnFirst(parts: seq<string>, index: nat)
    requires parts != []
    ensures Candidate(parts, index, 0) == Join(parts)
  {
  }

  ghost predicate OwnSoFar(fold: string -> string, asks: seq<Ask>, n: nat)
    requires FoldLaw(fold) && n <= |asks|
  {
    var p := PlanTo(fold, asks, n);
    p.Plan? && p.renames == [] && forall i | 0 <= i < n :: p.disk[i] == asks[i].path
  }

  /** Files that ask for free names of their own get them, with no report. */
  lemma {:induction false} OwnNames(fold: string -> string, asks: seq<Ask>, n: nat)
    requires FoldLaw(fold) && n <= |asks|
    requires forall ask <- asks :: ask.parts != [] && Join(ask.parts) == ask.path
    requires forall i, j | 0 <= i < j < |asks| :: fold(asks[i].path) != fold(asks[j].path)
    ensures OwnSoFar(fold, asks, n)
  {
    hide FoldLaw, Join, Asks;
    if n > 0 {
      OwnNames(fold, asks, n - 1);
      OwnNext(fold, asks, n - 1);
    }
  }

  lemma OwnNext(fold: string -> string, asks: seq<Ask>, n: nat)
    requires FoldLaw(fold) && n < |asks| && OwnSoFar(fold, asks, n)
    requires asks[n].parts != [] && Join(asks[n].parts) == asks[n].path
    requires forall i | 0 <= i < n :: fold(asks[i].path) != fold(asks[n].path)
    ensures OwnSoFar(fold, asks, n + 1)
  {
    hide PlanTo, Candidate, Settled, Join;
    PlanClaims(fold, asks, n);
    var before := PlanTo(fold, asks, n);
    OwnFirst(asks[n].parts, n);
    forall s | s in before.claimed
      ensures s != fold(asks[n].path)
    {
      assert s == fold(asks[before.claimed[s]].path);
    }
    var a, name := PlanStep(fold, asks, n);
  }

  /** A tried name that is the path it came from ends well throughout. */
  lemma TriedSolid(raw: seq<string>, index: nat, a: nat)
    requires AllSafe(raw) && raw != [] && a <= 0xFFFF_FFFF
    requires raw == Tried(Components(raw), index, a)
    ensures forall c <- raw :: SolidEnd(c)
  {
    hide IsDevice, Sanitize, Renamed;
    var parts := Components(raw);
    ComponentsCount(raw);
    forall i | 0 <= i < |raw|
      ensures SolidEnd(raw[i])
    {
      assert raw[i] in raw;
      ComponentAt(raw, i);
      SolidIff(raw[i]);
      if a > 0 && i == |raw| - 1 {
        RenamedSafe(parts[i], a);
      }
    }
  }

  /** Planning what was planned changes nothing and reports nothing, exactly
      when no planned component ends in a dot or a space. */
  lemma ReplanIff(fold: string -> string, paths: seq<string>, overrides: Overrides)
    requires FoldLaw(fold) && |paths| <= 0xFFFF_FFFF && PlanAll(fold, paths, overrides).Plan?
    ensures var disk := PlanAll(fold, paths, overrides).disk;
            var again := PlanAll(fold, disk, map[]);
            again.Plan? && again.disk == disk && again.renames == [] <==> AllSolid(disk)
  {
    var disk := PlanAll(fold, paths, overrides).disk;
    AllDistinct(fold, paths, overrides);
    AllPathsSafe(fold, paths, overrides);
    if AllSolid(disk) {
      SolidReplans(fold, disk);
    }
    var again := PlanAll(fold, disk, map[]);
    if again.Plan? && again.disk == disk {
      ReplansSolid(fold, disk);
    }
  }

  lemma SolidReplans(fold: string -> string, disk: seq<string>)
    requires FoldLaw(fold) && AllSolid(disk)
    requires forall name <- disk :: AllSafe(Split(name))
    requires forall i, j | 0 <= i < j < |disk| :: fold(disk[i]) != fold(disk[j])
    ensures var again := PlanAll(fold, disk, map[]); again.Plan? && again.disk == disk && again.renames == []
  {
    var asks := Asks(disk, map[]);
    forall i | 0 <= i < |asks|
      ensures asks[i].path == disk[i] && asks[i].parts != [] && Join(asks[i].parts) == disk[i]
    {
      assert disk[i] in disk;
      OwnChoice(disk[i]);
      JoinSplit(disk[i]);
    }
    OwnNames(fold, asks, |asks|);
  }

  lemma ReplansSolid(fold: string -> string, disk: seq<string>)
    requires FoldLaw(fold) && |disk| <= 0xFFFF_FFFF
    requires forall name <- disk :: AllSafe(Split(name))
    requires PlanAll(fold, disk, map[]).Plan? && PlanAll(fold, disk, map[]).disk == disk
    ensures AllSolid(disk)
  {
    var asks := Asks(disk, map[]);
    AsksSafe(disk, map[]);
    forall n | 0 <= n < |disk|
      ensures forall c <- Split(disk[n]) :: SolidEnd(c)
    {
      var a := PlacedSafe(fold, asks, n);
      assert disk[n] in disk;
      TriedSolid(Split(disk[n]), n, a);
    }
  }

  /** Whether a path needs no component cut for length. */
  ghost predicate FitsUncut(raw: seq<string>) {
    forall c <- raw :: c != "" && c != "." ==> Bytes(Marked(c)) <= MAX_COMPONENT
  }

  lemma {:induction false} UncutSolid(raw: seq<string>)
    requires FitsUncut(raw) && forall c <- raw :: '/' !in c
    ensures forall c <- Components(raw) :: SolidEnd(c)
  {
    if raw != [] {
      assert raw == [raw[0]] + raw[1..];
      UncutSolid(raw[1..]);
      if raw[0] != "" && raw[0] != "." {
        SanitizeSafe(raw[0]);
      }
    }
  }

  lemma TriedStaysSolid(parts: seq<string>, index: nat, a: nat)
    requires AllSafe(parts) && index <= 0xFFFF_FFFF && a <= 0xFFFF_FFFF
    requires forall c <- parts :: SolidEnd(c)
    ensures forall c <- Tried(parts, index, a) :: SolidEnd(c)
  {
    if parts == [] {
      FileNameSafe(index);
    } else if a > 0 {
      RenamedSafe(parts[|parts| - 1], a);
    }
  }

  /** Where nothing was too long, planning is a fixed point, collision suffixes
      and all. */
  lemma UncutReplans(fold: string -> string, paths: seq<string>, overrides: Overrides)
    requires FoldLaw(fold) && |paths| <= 0xFFFF_FFFF && PlanAll(fold, paths, overrides).Plan?
    requires forall n | 0 <= n < |paths| :: FitsUncut(Split(Wanted(paths, overrides, n)))
    ensures var disk := PlanAll(fold, paths, overrides).disk;
            var again := PlanAll(fold, disk, map[]);
            again.Plan? && again.disk == disk && again.renames == []
  {
    var asks := Asks(paths, overrides);
    var disk := PlanAll(fold, paths, overrides).disk;
    AsksSafe(paths, overrides);
    forall n | 0 <= n < |disk|
      ensures forall c <- Split(disk[n]) :: SolidEnd(c)
    {
      var a := PlacedSafe(fold, asks, n);
      UncutSolid(Split(Wanted(paths, overrides, n)));
      assert asks[n] in asks;
      TriedStaysSolid(asks[n].parts, n, a);
    }
    ReplanIff(fold, paths, overrides);
  }

  function Repeat(c: char, n: nat): string {
    if n == 0 then "" else [c] + Repeat(c, n - 1)
  }

  lemma {:induction false} RepeatShape(c: char, n: nat)
    ensures |Repeat(c, n)| == n && forall x <- Repeat(c, n) :: x == c
    ensures Bytes(Repeat(c, n)) == n * Width(c)
  {
    if n > 0 {
      RepeatShape(c, n - 1);
    }
  }

  /** Trimming comes before cutting: wherever the cut falls right behind a dot
      or a space, the component ends in it, and does not stay as it is. */
  lemma CutLeavesDot(head: string, tail: string)
    requires Plain(head + tail) && !IsReserved(head + tail)
    requires Bytes(head) == MAX_COMPONENT && !SolidEnd(head)
    requires SolidEnd(tail) && '.' !in tail && Bytes(tail) > 16
    ensures Sanitize(head + tail) == head && Sanitize(head) != head
  {
    hide IsDevice, Marked, Truncate, FirstStem, Cut, Extension;
    var long := head + tail;
    BytesAppend(head, tail);
    LongUntouched(long);
    NoExtension(head, tail);
    TruncatePlain(long);
    CutBack(head, tail, MAX_COMPONENT);
    PlainParts(head, tail);
    SanitizeTrims(head);
  }

  lemma LongUntouched(long: string)
    requires Plain(long) && !IsReserved(long) && SolidEnd(long)
    ensures Marked(long) == long
  {
    forall i | 0 <= i < |long|
      ensures !Illegal(long[i])
    {
      assert long[i] in long;
    }
    ReplacedSame(long);
    assert long[|long| - 1] in long;
    TrimEndSolid(long);
  }

  lemma {:induction false} DotInHead(head: string, tail: string)
    requires '.' !in tail
    ensures LastDot(head + tail) == LastDot(head)
    decreases |tail|
  {
    if tail == "" {
      assert head + tail == head;
    } else {
      var shorter, last := tail[..|tail| - 1], tail[|tail| - 1];
      assert last in tail && (head + tail)[|head + tail| - 1] == last;
      assert (head + tail)[..|head + tail| - 1] == head + shorter;
      DotInHead(head, shorter);
    }
  }

  lemma NoExtension(head: string, tail: string)
    requires '.' !in tail && Bytes(tail) > 16
    ensures Extension(head + tail) == ""
  {
    hide LastDot, Bytes, Extension;
    var d := LastDot(head + tail);
    DotInHead(head, tail);
    if d >= 0 {
      assert (head + tail)[d + 1..] == head[d + 1..] + tail;
      BytesAppend(head[d + 1..], tail);
    }
    ExtensionNone(head + tail);
  }

  lemma ExtensionNone(name: string)
    requires LastDot(name) >= 0 ==> Bytes(name[LastDot(name) + 1..]) > 16
    ensures Extension(name) == ""
  {
    hide LastDot, Bytes;
  }

  lemma CutBack(head: string, tail: string, limit: nat)
    requires Bytes(head) == limit
    ensures Cut(head + tail, limit) == head
  {
    hide Cut;
    var long := head + tail;
    var cut := Cut(long, limit);
    CutLongest(long, limit);
    assert long[..|head|] == head && long[..|cut|] == cut;
    PrefixOrder(long, |cut|, |head|);
  }

  /** One such component. */
  lemma CutLeavesDotExample(n: nat, m: nat)
    requires n == 254 && m == 20
    ensures var head := Repeat('a', n) + "."; Sanitize(head + Repeat('b', m)) == head && Sanitize(head) != head
  {
    hide IsDevice, Sanitize, Repeat, FirstStem;
    var head, tail := Repeat('a', n) + ".", Repeat('b', m);
    RepeatShape('a', n);
    RepeatShape('b', m);
    BytesAppend(Repeat('a', n), ".");
    assert Bytes(".") == 1;
    PlainParts(Repeat('a', n), ".");
    PlainParts(head, tail);
    assert tail[|tail| - 1] in tail;
    assert head + tail == Repeat('a', n) + ("." + tail);
    StemNotReserved(Repeat('a', n), "." + tail);
    CutLeavesDot(head, tail);
  }

  // --- Folding ------------------------------------------------------------------------

  function FoldAscii(s: string): string {
    if s == "" then "" else [LowerChar(s[0])] + FoldAscii(s[1..])
  }

  lemma {:induction false} FoldAsciiAppend(a: string, b: string)
    ensures FoldAscii(a + b) == FoldAscii(a) + FoldAscii(b)
  {
    if a == "" {
      assert a + b == b;
    } else {
      assert (a + b)[1..] == a[1..] + b;
      FoldAsciiAppend(a[1..], b);
    }
  }

  lemma {:induction false} FoldAsciiDigits(s: string)
    requires forall i | 0 <= i < |s| :: s[i] == '-' || 0x30 <= s[i] as int <= 0x39
    ensures FoldAscii(s) == s
  {
    if s != "" {
      FoldAsciiDigits(s[1..]);
    }
  }

  /** Folding letter by letter obeys the law the planner relies on. */
  lemma FoldAsciiLawful()
    ensures FoldLaw(FoldAscii)
  {
    forall p: string, n: nat, e: string | e == "" || e[0] == '.'
      ensures FoldAscii(p + Suffix(n) + e) == FoldAscii(p) + Suffix(n) + FoldAscii(e)
    {
      FoldAsciiAppend(p + Suffix(n), e);
      FoldAsciiAppend(p, Suffix(n));
      forall i | 0 <= i < |Suffix(n)|
        ensures Suffix(n)[i] == '-' || 0x30 <= Suffix(n)[i] as int <= 0x39
      {
        assert i > 0 ==> Suffix(n)[i] == Decimal(n)[i - 1] && Decimal(n)[i - 1] in Decimal(n);
      }
      FoldAsciiDigits(Suffix(n));
    }
  }
}
