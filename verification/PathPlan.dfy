/** Planning where every file of a torrent is written: sanitised, and renamed
    until no two names collide even where case does not count. */
module PathPlan {
  import opened PathText
  import opened Sanitizing

  function Suffix(n: nat): string {
    "-" + Decimal(n)
  }

  /** What case folding owes the planner: it leaves a numeric suffix alone, and
      folds what stands before it and the extension behind it apart. */
  ghost predicate FoldLaw(fold: string -> string) {
    forall p: string, n: nat, e: string ::
      (e == "" || e[0] == '.') ==> fold(p + Suffix(n) + e) == fold(p) + Suffix(n) + fold(e)
  }

  /** The components that carry a name, made safe. */
  function Components(raw: seq<string>): (parts: seq<string>)
    ensures |parts| <= |raw|
  {
    if raw == [] then []
    else if raw[0] == "" || raw[0] == "." then Components(raw[1..])
    else [Sanitize(raw[0])] + Components(raw[1..])
  }

  function ComponentReasons(raw: seq<string>): set<Reason> {
    if raw == [] then {}
    else if raw[0] == "" || raw[0] == "." then ComponentReasons(raw[1..])
    else Reasons(raw[0]) + ComponentReasons(raw[1..])
  }

  function FileName(index: nat): string {
    "file-" + Decimal(index)
  }

  function FirstChoice(parts: seq<string>, index: nat): string {
    if parts == [] then FileName(index) else Join(parts)
  }

  /** The suffix goes on the stem of the last component, and the room for it
      comes out of that stem. */
  function Renamed(last: string, attempt: nat): string {
    var room := Room(Bytes(Suffix(attempt)) + Bytes(Extension(last)));
    Cut(Stem(last), room) + Suffix(attempt) + Extension(last)
  }

  function Disambiguate(parts: seq<string>, index: nat, attempt: nat): string {
    if parts == [] then FileName(index)
    else Join(parts[..|parts| - 1] + [Renamed(parts[|parts| - 1], attempt)])
  }

  /** The name tried first, and after each collision. */
  function Candidate(parts: seq<string>, index: nat, attempt: nat): string {
    if attempt == 0 then FirstChoice(parts, index) else Disambiguate(parts, index, attempt)
  }

  // --- Distinct attempts, distinct names ------------------------------------------

  function Parents(parts: seq<string>): string
    requires parts != []
  {
    if |parts| == 1 then "" else Join(parts[..|parts| - 1]) + "/"
  }

  lemma {:induction false} JoinLast(parts: seq<string>, last: string)
    requires parts != []
    ensures Join(parts[..|parts| - 1] + [last]) == Parents(parts) + last
  {
    var all := parts[..|parts| - 1] + [last];
    if |parts| == 1 {
      assert all == [last];
    } else {
      assert all[1..] == parts[1..][..|parts| - 2] + [last];
      JoinLast(parts[1..], last);
      assert parts[..|parts| - 1][1..] == parts[1..][..|parts| - 2];
      if |parts| == 2 {
        assert parts[..1] == [parts[0]];
      }
    }
  }

  lemma LastHyphen(x: string, d: string, y: string, e: string)
    requires x + "-" + d == y + "-" + e && '-' !in d && '-' !in e
    ensures d == e
  {
    var s := x + "-" + d;
    if |x| < |y| {
      HyphenIn(s, x, d, |y|);
    } else if |y| < |x| {
      HyphenIn(s, y, e, |x|);
    } else {
      assert d == s[|x| + 1..] && e == s[|y| + 1..];
    }
  }

  lemma HyphenIn(s: string, x: string, d: string, at: nat)
    requires s == x + "-" + d && |x| < at < |s| && s[at] == '-'
    ensures '-' in d
  {
    assert d[at - |x| - 1] == s[at];
  }

  lemma SuffixCancels(x: string, a: nat, y: string, b: nat, e: string)
    requires x + Suffix(a) + e == y + Suffix(b) + e
    ensures a == b
  {
    var s, t := x + Suffix(a), y + Suffix(b);
    assert (s + e)[..|s|] == s && (t + e)[..|t|] == t;
    assert s == x + "-" + Decimal(a) && t == y + "-" + Decimal(b);
    LastHyphen(x, Decimal(a), y, Decimal(b));
    DecimalInjective(a, b);
  }

  /** Where there is a component to rename, every attempt folds to a different
      name, however much of the stem was cut away to make room. */
  lemma AttemptsDiffer(fold: string -> string, parts: seq<string>, index: nat, a: nat, b: nat)
    requires FoldLaw(fold) && parts != []
    requires fold(Disambiguate(parts, index, a)) == fold(Disambiguate(parts, index, b))
    ensures a == b
  {
    var last := parts[|parts| - 1];
    var e := Extension(last);
    DisambiguateFolds(fold, parts, index, a);
    DisambiguateFolds(fold, parts, index, b);
    SuffixCancels(fold(Kept(parts, a)), a, fold(Kept(parts, b)), b, fold(e));
  }

  /** What a renamed path keeps in front of its suffix. */
  function Kept(parts: seq<string>, attempt: nat): string
    requires parts != []
  {
    var last := parts[|parts| - 1];
    Parents(parts) + Cut(Stem(last), Room(Bytes(Suffix(attempt)) + Bytes(Extension(last))))
  }

  lemma Regroup(p: string, c: string, m: string, e: string)
    ensures p + (c + m + e) == (p + c) + m + e
  {
  }

  lemma DisambiguateShape(parts: seq<string>, index: nat, attempt: nat)
    requires parts != []
    ensures Disambiguate(parts, index, attempt)
            == Kept(parts, attempt) + Suffix(attempt) + Extension(parts[|parts| - 1])
  {
    var last := parts[|parts| - 1];
    JoinLast(parts, Renamed(last, attempt));
    var cut := Cut(Stem(last), Room(Bytes(Suffix(attempt)) + Bytes(Extension(last))));
    Regroup(Parents(parts), cut, Suffix(attempt), Extension(last));
  }

  lemma DisambiguateFolds(fold: string -> string, parts: seq<string>, index: nat, attempt: nat)
    requires FoldLaw(fold) && parts != []
    ensures fold(Disambiguate(parts, index, attempt)) ==
            fold(Kept(parts, attempt)) + Suffix(attempt) + fold(Extension(parts[|parts| - 1]))
  {
    DisambiguateShape(parts, index, attempt);
    var e := Extension(parts[|parts| - 1]);
    assert e == "" || e[0] == '.';
  }

  ghost predicate AllTaken(fold: string -> string, names: set<string>, parts: seq<string>, index: nat, attempt: nat) {
    forall k | 1 <= k < attempt :: fold(Disambiguate(parts, index, k)) in names
  }

  /** The names the attempts so far ran into. */
  lemma {:induction false} TakenNames(
      fold: string -> string, names: set<string>, parts: seq<string>, index: nat, attempt: nat)
    returns (hit: set<string>)
    requires FoldLaw(fold) && parts != [] && attempt >= 1
    requires AllTaken(fold, names, parts, index, attempt)
    ensures hit <= names && |hit| == attempt - 1
    ensures forall s <- hit :: exists k | 1 <= k < attempt :: s == fold(Disambiguate(parts, index, k))
  {
    hide FoldLaw, Disambiguate;
    if attempt == 1 {
      hit := {};
    } else {
      var before := TakenNames(fold, names, parts, index, attempt - 1);
      var next := fold(Disambiguate(parts, index, attempt - 1));
      if next in before {
        var k :| 1 <= k < attempt - 1 && next == fold(Disambiguate(parts, index, k));
        AttemptsDiffer(fold, parts, index, k, attempt - 1);
      }
      hit := before + {next};
    }
  }

  /** The pigeonhole: as many attempts failed as names were claimed, at most. */
  lemma AttemptsBounded(fold: string -> string, names: set<string>, parts: seq<string>, index: nat, attempt: nat)
    requires FoldLaw(fold) && parts != [] && attempt >= 1
    requires AllTaken(fold, names, parts, index, attempt)
    ensures attempt - 1 <= |names|
  {
    var hit := TakenNames(fold, names, parts, index, attempt);
    SubsetSize(hit, names);
  }

  lemma {:induction false} SubsetSize(a: set<string>, b: set<string>)
    requires a <= b
    ensures |a| <= |b|
    decreases a
  {
    if x :| x in a {
      SubsetSize(a - {x}, b - {x});
    }
  }

  ghost function Left(names: set<string>, attempt: nat): nat {
    if attempt <= |names| + 1 then |names| + 2 - attempt else 0
  }

  /** A failed attempt leaves fewer to come. */
  lemma AttemptFailed(fold: string -> string, names: set<string>, parts: seq<string>, index: nat, attempt: nat)
    requires FoldLaw(fold) && parts != []
    requires AllTaken(fold, names, parts, index, attempt)
    requires fold(Candidate(parts, index, attempt)) in names
    ensures AllTaken(fold, names, parts, index, attempt + 1)
    ensures attempt <= |names| && Left(names, attempt + 1) < Left(names, attempt)
  {
    AttemptsBounded(fold, names, parts, index, attempt + 1);
  }

  /** The first attempt whose name nobody has, from a given one on. */
  function FreeAttempt(
      fold: string -> string, names: set<string>, parts: seq<string>, index: nat, attempt: nat): (a: nat)
    requires FoldLaw(fold) && parts != []
    requires AllTaken(fold, names, parts, index, attempt)
    ensures a >= attempt && (a == attempt || a <= |names| + 1)
    ensures fold(Candidate(parts, index, a)) !in names
    ensures forall k | attempt <= k < a :: fold(Candidate(parts, index, k)) in names
    decreases Left(names, attempt)
  {
    if fold(Candidate(parts, index, attempt)) !in names then attempt
    else
      AttemptFailed(fold, names, parts, index, attempt);
      FreeAttempt(fold, names, parts, index, attempt + 1)
  }

  // --- The plan ------------------------------------------------------------------------

  /** One file whose on-disk path is not the path in the torrent. */
  datatype Rename = Rename(index: nat, torrentPath: string, diskPath: string, reasons: set<Reason>)

  /** The plan so far, or the file whose search for a free name never ends. */
  datatype Plan =
    | Plan(claimed: map<string, nat>, disk: seq<string>, renames: seq<Rename>)
    | NeverEnds(index: nat)

  type Overrides = map<nat, string>

  /** What one file asks for: the torrent's path and the one wanted, the safe
      components of the latter, and why those differ from it. */
  datatype Ask = Ask(path: string, wanted: string, parts: seq<string>, reasons: set<Reason>)

  /** The path a file asks for: the caller's where there is one. */
  function Wanted(paths: seq<string>, overrides: Overrides, index: nat): string
    requires index < |paths|
  {
    if index in overrides then overrides[index] else paths[index]
  }

  function AskFor(paths: seq<string>, overrides: Overrides, index: nat): Ask
    requires index < |paths|
  {
    var raw := Split(Wanted(paths, overrides, index));
    var parts := Components(raw);
    var reasons := When(index in overrides, Requested) + When("" in raw, DroppedComponent)
                   + ComponentReasons(raw) + When(parts == [], Empty);
    Ask(paths[index], Wanted(paths, overrides, index), parts, reasons)
  }

  function Asks(paths: seq<string>, overrides: Overrides): (asks: seq<Ask>)
    ensures |asks| == |paths|
    ensures forall i | 0 <= i < |paths| :: asks[i] == AskFor(paths, overrides, i)
  {
    seq(|paths|, i requires 0 <= i < |paths| => AskFor(paths, overrides, i))
  }

  /** Some attempt of the search finds a name nobody has claimed. */
  ghost predicate Settles(fold: string -> string, claimed: map<string, nat>, parts: seq<string>, index: nat) {
    exists a: nat :: fold(Candidate(parts, index, a)) !in claimed
  }

  /** The search goes on for ever exactly when no component survived and the
      index name is claimed: it then tries that one name again and again. */
  lemma SettlesIff(fold: string -> string, claimed: map<string, nat>, parts: seq<string>, index: nat)
    requires FoldLaw(fold)
    ensures Settles(fold, claimed, parts, index) <==> parts != [] || fold(FileName(index)) !in claimed
  {
    if parts == [] {
      assert forall a: nat :: Candidate(parts, index, a) == FileName(index);
      assert fold(FileName(index)) !in claimed ==> fold(Candidate(parts, index, 0)) !in claimed;
    } else {
      var a := FreeAttempt(fold, claimed.Keys, parts, index, 0);
      assert fold(Candidate(parts, index, a)) !in claimed;
    }
  }

  ghost function Settled(fold: string -> string, claimed: map<string, nat>, parts: seq<string>, index: nat): (a: nat)
    requires FoldLaw(fold) && Settles(fold, claimed, parts, index)
    ensures fold(Candidate(parts, index, a)) !in claimed
    ensures forall k | 0 <= k < a :: fold(Candidate(parts, index, k)) in claimed
    ensures a <= |claimed| + 1
  {
    SettlesIff(fold, claimed, parts, index);
    SettledFirst(fold, claimed, parts, index);
    if parts == [] then 0 else FreeAttempt(fold, claimed.Keys, parts, index, 0)
  }

  lemma SettledFirst(fold: string -> string, claimed: map<string, nat>, parts: seq<string>, index: nat)
    requires FoldLaw(fold) && Settles(fold, claimed, parts, index)
    ensures var a := if parts == [] then 0 else FreeAttempt(fold, claimed.Keys, parts, index, 0);
            && fold(Candidate(parts, index, a)) !in claimed
            && (forall k | 0 <= k < a :: fold(Candidate(parts, index, k)) in claimed)
            && a <= |claimed| + 1
  {
    hide FreeAttempt, Disambiguate, FoldLaw;
    SettlesIff(fold, claimed, parts, index);
    assert |claimed.Keys| == |claimed|;
  }

  ghost predicate ClaimedFrom(claimed: map<string, nat>, n: nat) {
    forall s | s in claimed :: claimed[s] < n
  }

  /** The file that had the name tried last before the free one. */
  datatype Holder = Nobody | HeldBy(file: nat)

  function LastHolder(
      fold: string -> string, claimed: map<string, nat>, parts: seq<string>, index: nat, a: nat): (h: Holder)
    requires a > 0 ==> fold(Candidate(parts, index, a - 1)) in claimed
    ensures h.HeldBy? ==> exists s :: s in claimed && claimed[s] == h.file
  {
    if a == 0 then Nobody else HeldBy(claimed[fold(Candidate(parts, index, a - 1))])
  }

  /** Two files that ask for the same path are duplicates, whether the ask came
      from the torrent or from the caller. */
  function WithClash(reasons: set<Reason>, holder: Holder, sameAsk: bool): set<Reason> {
    if holder == Nobody then reasons else reasons + {if sameAsk then DuplicatePath else CaseCollision}
  }

  /** One more file placed under the name it got. */
  function Placed(fold: string -> string, p: Plan, index: nat, path: string, name: string, reasons: set<Reason>): Plan
    requires p.Plan?
  {
    Plan(p.claimed[fold(name) := index], p.disk + [name],
         if name != path then p.renames + [Rename(index, path, name, reasons)] else p.renames)
  }

  ghost function PlaceFile(fold: string -> string, asks: seq<Ask>, p: Plan, index: nat): Plan
    requires FoldLaw(fold) && index < |asks| && p.Plan? && ClaimedFrom(p.claimed, index)
  {
    var ask := asks[index];
    if !Settles(fold, p.claimed, ask.parts, index) then NeverEnds(index)
    else
      var a := Settled(fold, p.claimed, ask.parts, index);
      var holder := LastHolder(fold, p.claimed, ask.parts, index, a);
      var sameAsk := holder.HeldBy? && asks[holder.file].wanted == ask.wanted;
      Placed(fold, p, index, ask.path, Candidate(ask.parts, index, a), WithClash(ask.reasons, holder, sameAsk))
  }

  /** The plan for the first `n` files. */
  ghost function PlanTo(fold: string -> string, asks: seq<Ask>, n: nat): (p: Plan)
    requires FoldLaw(fold) && n <= |asks|
    ensures p.Plan? ==> ClaimedFrom(p.claimed, n) && |p.disk| == n
  {
    if n == 0 then Plan(map[], [], [])
    else
      var before := PlanTo(fold, asks, n - 1);
      if before.NeverEnds? then before else PlaceFile(fold, asks, before, n - 1)
  }

  /** The plan for every path, with the caller's choices. */
  ghost function PlanAll(fold: string -> string, paths: seq<string>, overrides: Overrides): Plan
    requires FoldLaw(fold)
  {
    PlanTo(fold, Asks(paths, overrides), |paths|)
  }

  lemma SanitizeNext(parts: seq<string>, reasons: set<Reason>, raw: seq<string>, i: nat)
    requires i < |raw|
    ensures raw[i] == "" || raw[i] == "." ==>
              Components(raw[i..]) == Components(raw[i + 1..])
              && ComponentReasons(raw[i..]) == ComponentReasons(raw[i + 1..])
    ensures raw[i] != "" && raw[i] != "." ==>
              && parts + Components(raw[i..]) == (parts + [Sanitize(raw[i])]) + Components(raw[i + 1..])
              && reasons + ComponentReasons(raw[i..]) == (reasons + Reasons(raw[i])) + ComponentReasons(raw[i + 1..])
  {
    assert raw[i..][0] == raw[i] && raw[i..][1..] == raw[i + 1..];
  }

  method SanitizeAll(raw: seq<string>) returns (parts: seq<string>, reasons: set<Reason>)
    ensures parts == Components(raw) && reasons == ComponentReasons(raw)
  {
    parts, reasons := [], {};
    for i := 0 to |raw|
      invariant Components(raw) == parts + Components(raw[i..])
      invariant ComponentReasons(raw) == reasons + ComponentReasons(raw[i..])
    {
      SanitizeNext(parts, reasons, raw, i);
      if raw[i] != "" && raw[i] != "." {
        var out, why := SanitizeComponent(raw[i]);
        parts, reasons := parts + [out], reasons + why;
      }
    }
  }

  /** Try one name after another until one is free. */
  method FreeName(fold: string -> string, claimed: map<string, nat>, parts: seq<string>, index: nat)
    returns (candidate: string, holder: Holder)
    requires FoldLaw(fold) && Settles(fold, claimed, parts, index)
    ensures var a := Settled(fold, claimed, parts, index);
            candidate == Candidate(parts, index, a) && holder == LastHolder(fold, claimed, parts, index, a)
  {
    hide FoldLaw, Settles, Settled, Candidate;
    candidate := Candidate(parts, index, 0);
    holder := Nobody;
    var attempt := 1;
    ghost var free := Settled(fold, claimed, parts, index);
    while fold(candidate) in claimed
      invariant 1 <= attempt <= free + 1 && candidate == Candidate(parts, index, attempt - 1)
      invariant holder == LastHolder(fold, claimed, parts, index, attempt - 1)
      decreases free + 1 - attempt
    {
      holder := HeldBy(claimed[fold(candidate)]);
      candidate := Candidate(parts, index, attempt);
      attempt := attempt + 1;
    }
  }

  /** What a file asks for, sanitised, and why that differs. */
  method PartsOf(paths: seq<string>, overrides: Overrides, index: nat)
    returns (parts: seq<string>, reasons: set<Reason>)
    requires index < |paths|
    ensures parts == AskFor(paths, overrides, index).parts && reasons == AskFor(paths, overrides, index).reasons
  {
    var raw := Split(Wanted(paths, overrides, index));
    var why;
    parts, why := SanitizeAll(raw);
    reasons := When(index in overrides, Requested) + When("" in raw, DroppedComponent) + why + When(parts == [], Empty);
  }

  lemma {:induction false} StaysStuck(fold: string -> string, asks: seq<Ask>, index: nat, m: nat, n: nat)
    requires FoldLaw(fold) && m <= n <= |asks|
    requires PlanTo(fold, asks, m) == NeverEnds(index)
    ensures PlanTo(fold, asks, n) == NeverEnds(index)
    decreases n
  {
    if n > m {
      StaysStuck(fold, asks, index, m, n - 1);
    }
  }

  lemma PlanNext(fold: string -> string, asks: seq<Ask>, n: nat)
    requires FoldLaw(fold) && n < |asks| && PlanTo(fold, asks, n).Plan?
    ensures PlanTo(fold, asks, n + 1) == PlaceFile(fold, asks, PlanTo(fold, asks, n), n)
  {
  }

  lemma AskSays(paths: seq<string>, overrides: Overrides, i: nat)
    requires i < |paths|
    ensures Asks(paths, overrides)[i].path == paths[i]
    ensures Asks(paths, overrides)[i].wanted == Wanted(paths, overrides, i)
  {
  }

  lemma PlanNone(fold: string -> string, asks: seq<Ask>)
    requires FoldLaw(fold)
    ensures PlanTo(fold, asks, 0) == Plan(map[], [], [])
  {
  }

  /** Plan every file, in order: the first to claim a name keeps it. */
  method PlanWith(fold: string -> string, paths: seq<string>, overrides: Overrides) returns (p: Plan)
    requires FoldLaw(fold)
    ensures p == PlanAll(fold, paths, overrides)
  {
    hide FoldLaw, Candidate, Settled, Settles, LastHolder, WithClash, AskFor, FileName, PlanTo;
    var claimed: map<string, nat> := map[];
    var disk: seq<string>, renames: seq<Rename> := [], [];
    ghost var asks := Asks(paths, overrides);
    PlanNone(fold, asks);
    for index := 0 to |paths|
      invariant PlanTo(fold, asks, index) == Plan(claimed, disk, renames)
    {
      PlanNext(fold, asks, index);
      ghost var before := PlanTo(fold, asks, index);
      var parts, reasons := PartsOf(paths, overrides, index);
      SettlesIff(fold, claimed, parts, index);
      if parts == [] && fold(FileName(index)) in claimed {
        // No attempt is free, so the search that stands here would not end.
        StaysStuck(fold, asks, index, index + 1, |paths|);
        return NeverEnds(index);
      }
      var candidate, holder := FreeName(fold, claimed, parts, index);
      assert holder.HeldBy? ==> holder.file < index;
      forall i | 0 <= i <= index ensures asks[i].wanted == Wanted(paths, overrides, i) && asks[i].path == paths[i] {
        AskSays(paths, overrides, i);
      }
      var sameAsk := holder.HeldBy? && Wanted(paths, overrides, holder.file) == Wanted(paths, overrides, index);
      var why := WithClash(reasons, holder, sameAsk);
      assert PlanTo(fold, asks, index + 1) == Placed(fold, before, index, paths[index], candidate, why);
      if candidate != paths[index] {
        renames := renames + [Rename(index, paths[index], candidate, why)];
      }
      claimed := claimed[fold(candidate) := index];
      disk := disk + [candidate];
    }
    p := Plan(claimed, disk, renames);
  }
}
