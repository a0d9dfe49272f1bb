/** Many threads at once: the buffer changes under its lock, and the runs taken
    out of it reach the device later, one at a time and in any order. */
module StorageInterleaving {
  import opened Device
  import opened Coalescing
  import CoalescingOrder
  import opened StorageSpec
  import StorageDownload

  /** Bytes and operations so far: accepted from the session, written to the
      device, and dropped with a file that was removed. */
  datatype Ledger = Ledger(accepted: nat, written: nat, discarded: nat, slices: nat, ops: nat, dropped: nat)

  /** What is on the device, held in the buffer, and in flight between them,
      with every slice accepted, every run landed and every read answered so
      far. */
  datatype System = System(disk: Disk, held: seq<Run>, flight: seq<Run>, seen: seq<Run>, landed: seq<Run>,
                           answers: seq<Answer>, ledger: Ledger)

  datatype Action =
    | Append(w: Run)
    | Take(claim: Claim)
    | TakeAll
    | Land(index: nat)
    | Discard(file: nat)
    | Observe(file: nat, at: nat, len: nat)

  predicate Enabled(s: System, a: Action) {
    match a
    case Append(w) => w.bytes != []
    case Land(i) => i < |s.flight|
    case _ => true
  }

  function Accepted(l: Ledger, w: Run): Ledger {
    l.(accepted := l.accepted + |w.bytes|, slices := l.slices + 1)
  }

  /** The device half of a read: all of the range or nothing. */
  function Observed(d: Disk, f: nat, at: nat, len: nat): Answer {
    if f !in d then Failed(NotCreated)
    else if len != 0 && at + len > |d[f]| then Failed(EndOfFile)
    else Ok(if len == 0 then [] else d[f][at..at + len])
  }

  function Next(s: System, a: Action): System
    requires Enabled(s, a)
  {
    match a
    case Append(w) =>
      var t := s.(seen := s.seen + [w], ledger := Accepted(s.ledger, w));
      if PassesThrough(w) then t.(flight := s.flight + [w])
      else
        var (held, displaced) := Hold(s.held, w);
        t.(held := held, flight := s.flight + displaced)
    case Take(c) =>
      s.(held := Left(s.held, c), flight := s.flight + Taken(s.held, c))
    case TakeAll =>
      s.(held := [], flight := s.flight + s.held)
    case Land(i) =>
      var r := s.flight[i];
      s.(disk := Put(s.disk, r), flight := s.flight[..i] + s.flight[i + 1..], landed := s.landed + [r],
         ledger := s.ledger.(written := s.ledger.written + |r.bytes|, ops := s.ledger.ops + 1))
    case Discard(f) =>
      var gone := Taken(s.held, OfFile(f));
      s.(disk := s.disk - {f}, held := Left(s.held, OfFile(f)),
         ledger := s.ledger.(discarded := s.ledger.discarded + Weight(gone), dropped := s.ledger.dropped + |gone|))
    case Observe(f, at, len) =>
      s.(answers := s.answers + [Observed(s.disk, f, at, len)])
  }

  ghost predicate Runs(s: System, actions: seq<Action>, t: System)
    decreases |actions|
  {
    if actions == [] then s == t
    else Enabled(s, actions[0]) && Runs(Next(s, actions[0]), actions[1..], t)
  }

  // --- Conservation ----------------------------------------------------------------

  /** Every byte is in exactly one place, and no slice costs more than one
      operation. */
  ghost predicate Conserved(s: System) {
    && Bounded(s.held) && NonEmpty(s.flight)
    && s.ledger.accepted == s.ledger.written + Weight(s.held) + Weight(s.flight) + s.ledger.discarded
    && s.ledger.ops + |s.held| + |s.flight| + s.ledger.dropped <= s.ledger.slices
  }

  lemma LandedWeight(flight: seq<Run>, i: nat)
    requires i < |flight|
    ensures Weight(flight) == Weight(flight[..i] + flight[i + 1..]) + |flight[i].bytes|
  {
    assert flight == flight[..i] + ([flight[i]] + flight[i + 1..]);
    WeightAppend(flight[..i], [flight[i]] + flight[i + 1..]);
    WeightAppend([flight[i]], flight[i + 1..]);
    WeightAppend(flight[..i], flight[i + 1..]);
  }

  lemma NextConserves(s: System, a: Action)
    requires Conserved(s) && Enabled(s, a)
    ensures Conserved(Next(s, a))
  {
    match a
    case Append(w) =>
      if PassesThrough(w) {
        WeightAppend(s.flight, [w]);
      } else {
        HoldBounded(s.held, w);
        HoldWeighs(s.held, w);
        CoalescingOrder.HoldIff(s.disk, s.held, w);
        WeightAppend(s.flight, Hold(s.held, w).1);
      }
    case Take(c) =>
      TakenMembers(s.held, c);
      TakenDisjoint(s.held, c);
      TakenWeight(s.held, c);
      WeightAppend(s.flight, Taken(s.held, c));
    case TakeAll =>
      WeightAppend(s.flight, s.held);
    case Land(i) =>
      LandedWeight(s.flight, i);
    case Discard(f) =>
      TakenMembers(s.held, OfFile(f));
      TakenDisjoint(s.held, OfFile(f));
      TakenWeight(s.held, OfFile(f));
    case Observe(_, _, _) =>
  }

  /** Conservation over every interleaving. */
  lemma {:induction false} RunsConserve(s: System, actions: seq<Action>, t: System)
    requires Conserved(s) && Runs(s, actions, t)
    ensures Conserved(t)
    decreases |actions|
  {
    if actions != [] {
      NextConserves(s, actions[0]);
      RunsConserve(Next(s, actions[0]), actions[1..], t);
    }
  }

  lemma {:induction false} RunsWeigh(runs: seq<Run>)
    requires forall r <- runs :: |r.bytes| < WRITE_REGION
    ensures Weight(runs) <= |runs| * (WRITE_REGION - 1)
  {
    if runs != [] {
      RunsWeigh(runs[1..]);
    }
  }

  /** The memory the buffer can take, however many files and threads there are. */
  lemma HeldIsSmall(s: System, actions: seq<Action>, t: System)
    requires Conserved(s) && Runs(s, actions, t)
    ensures Weight(t.held) <= WRITE_RUNS * (WRITE_REGION - 1)
  {
    RunsConserve(s, actions, t);
    RunsWeigh(t.held);
  }

  // --- Nothing accepted is lost ------------------------------------------------------

  ghost predicate OnDevice(s: System, payload: Disk, f: nat, i: nat) {
    f in payload && i < |payload[f]| && i < |Content(s.disk, f)| && s.disk[f][i] == payload[f][i]
  }

  /** Every position of the file ever accepted is on the device, held, or in
      flight. */
  ghost predicate Kept(s: System, payload: Disk, f: nat) {
    && StorageDownload.AllSlices(payload, s.held)
    && StorageDownload.AllSlices(payload, s.flight)
    && forall i: nat | CoveredBy(s.seen, f, i) ::
         OnDevice(s, payload, f, i) || CoveredBy(s.held, f, i) || CoveredBy(s.flight, f, i)
  }

  /** A step of a download that does not remove the file: the slices are the
      payload's. Other files come and go. */
  ghost predicate Harmless(payload: Disk, f: nat, a: Action) {
    a != Discard(f) && (a.Append? ==> StorageDownload.SliceOf(payload, a.w))
  }

  lemma AppendKeeps(s: System, payload: Disk, f: nat, w: Run)
    requires Bounded(s.held) && Kept(s, payload, f) && StorageDownload.SliceOf(payload, w) && w.bytes != []
    ensures Kept(Next(s, Append(w)), payload, f)
  {
    hide Hold;
    var t := Next(s, Append(w));
    if !PassesThrough(w) {
      StorageDownload.HoldSlices(payload, s.held, w);
      DisplacedSlices(payload, s.held, w);
    }
    forall i: nat | CoveredBy(t.seen, f, i)
      ensures OnDevice(t, payload, f, i) || CoveredBy(t.held, f, i) || CoveredBy(t.flight, f, i)
    {
      CoveredSplit(s.seen, [w], f, i);
      var out := if PassesThrough(w) then [w] else Hold(s.held, w).1;
      CoveredSplit(s.flight, out, f, i);
      if w.Covers(f, i) || CoveredBy(s.held, f, i) {
        if PassesThrough(w) {
          assert w.Covers(f, i) ==> w in [w];
        } else {
          HoldCovers(s.held, w, f, i);
        }
      } else {
        assert OnDevice(s, payload, f, i) ==> OnDevice(t, payload, f, i);
      }
    }
  }

  lemma DisplacedSlices(payload: Disk, runs: seq<Run>, w: Run)
    requires StorageDownload.AllSlices(payload, runs) && StorageDownload.SliceOf(payload, w)
    ensures StorageDownload.AllSlices(payload, Hold(runs, w).1)
  {
    ScanOrigin(runs, w, false);
    forall y <- Hold(runs, w).1
      ensures StorageDownload.SliceOf(payload, y)
    {
      if y !in runs {
        var e :| e in runs && Extends(e, w) && y == Extend(e, w);
        StorageDownload.ExtendSlice(payload, e, w);
      }
    }
  }

  lemma TakeKeeps(s: System, payload: Disk, f: nat, c: Claim)
    requires Kept(s, payload, f)
    ensures Kept(Next(s, Take(c)), payload, f)
  {
    var t := Next(s, Take(c));
    TakenMembers(s.held, c);
    forall i: nat | CoveredBy(t.seen, f, i)
      ensures OnDevice(t, payload, f, i) || CoveredBy(t.held, f, i) || CoveredBy(t.flight, f, i)
    {
      CoveredSplit(s.flight, Taken(s.held, c), f, i);
      assert OnDevice(s, payload, f, i) ==> OnDevice(t, payload, f, i);
      if CoveredBy(s.held, f, i) {
        var r :| r in s.held && r.Covers(f, i);
        assert r in Taken(s.held, c) || r in Left(s.held, c);
      }
    }
  }

  lemma LandKeeps(s: System, payload: Disk, f: nat, n: nat)
    requires Kept(s, payload, f) && n < |s.flight|
    ensures Kept(Next(s, Land(n)), payload, f)
  {
    var t := Next(s, Land(n));
    var r := s.flight[n];
    assert StorageDownload.SliceOf(payload, r);
    forall i: nat | CoveredBy(t.seen, f, i)
      ensures OnDevice(t, payload, f, i) || CoveredBy(t.held, f, i) || CoveredBy(t.flight, f, i)
    {
      if r.Covers(f, i) {
        PutReads(s.disk, r, i);
      } else if CoveredBy(s.flight, f, i) {
        var x :| x in s.flight && x.Covers(f, i);
        assert s.flight == s.flight[..n] + [r] + s.flight[n + 1..];
        assert x in t.flight;
      } else {
        assert OnDevice(s, payload, f, i) ==> OnDevice(t, payload, f, i);
      }
    }
  }

  /** The removal of another file. */
  lemma DiscardKeeps(s: System, payload: Disk, f: nat, g: nat)
    requires Kept(s, payload, f) && g != f
    ensures Kept(Next(s, Discard(g)), payload, f)
  {
    var t := Next(s, Discard(g));
    TakenMembers(s.held, OfFile(g));
    forall i: nat | CoveredBy(t.seen, f, i)
      ensures OnDevice(t, payload, f, i) || CoveredBy(t.held, f, i) || CoveredBy(t.flight, f, i)
    {
      assert OnDevice(s, payload, f, i) ==> OnDevice(t, payload, f, i);
      if CoveredBy(s.held, f, i) {
        var r :| r in s.held && r.Covers(f, i);
        assert r in Left(s.held, OfFile(g));
      }
    }
  }

  lemma NextKeeps(s: System, payload: Disk, f: nat, a: Action)
    requires Conserved(s) && Kept(s, payload, f) && Enabled(s, a) && Harmless(payload, f, a)
    ensures Kept(Next(s, a), payload, f)
  {
    match a
    case Append(w) => AppendKeeps(s, payload, f, w);
    case Take(c) => TakeKeeps(s, payload, f, c);
    case TakeAll =>
      var t := Next(s, a);
      forall i: nat | CoveredBy(t.seen, f, i)
        ensures OnDevice(t, payload, f, i) || CoveredBy(t.held, f, i) || CoveredBy(t.flight, f, i)
      {
        CoveredSplit(s.flight, s.held, f, i);
        assert OnDevice(s, payload, f, i) ==> OnDevice(t, payload, f, i);
      }
    case Land(n) => LandKeeps(s, payload, f, n);
    case Discard(g) => DiscardKeeps(s, payload, f, g);
    case Observe(_, _, _) =>
      var t := Next(s, a);
      forall i: nat | CoveredBy(t.seen, f, i)
        ensures OnDevice(t, payload, f, i) || CoveredBy(t.held, f, i) || CoveredBy(t.flight, f, i)
      {
        assert OnDevice(s, payload, f, i) ==> OnDevice(t, payload, f, i);
      }
  }

  lemma {:induction false} RunsKeep(s: System, payload: Disk, f: nat, actions: seq<Action>, t: System)
    requires Conserved(s) && Kept(s, payload, f) && Runs(s, actions, t)
    requires forall a <- actions :: Harmless(payload, f, a)
    ensures Conserved(t) && Kept(t, payload, f)
    decreases |actions|
  {
    hide Conserved, Kept, Harmless, Next;
    if actions != [] {
      assert actions[0] in actions;
      NextConserves(s, actions[0]);
      NextKeeps(s, payload, f, actions[0]);
      RunsKeep(Next(s, actions[0]), payload, f, actions[1..], t);
    }
  }

  /** A range that was accepted and that no run still holds or carries is the
      payload on the device. */
  lemma QuietObserved(t: System, payload: Disk, f: nat, at: nat, len: nat)
    requires Kept(t, payload, f)
    requires len > 0 && forall i: nat | at <= i < at + len :: CoveredBy(t.seen, f, i)
    requires forall r <- t.held + t.flight :: !r.Overlaps(f, at, len)
    ensures f in payload && at + len <= |payload[f]|
    ensures Observed(t.disk, f, at, len) == Ok(payload[f][at..at + len])
  {
    forall i: nat | at <= i < at + len
      ensures OnDevice(t, payload, f, i)
    {
      assert CoveredBy(t.seen, f, i);
      QuietPosition(t.held, t.flight, f, at, len, i);
    }
    AllThere(t, payload, f, at, len);
  }

  lemma QuietPosition(held: seq<Run>, flight: seq<Run>, f: nat, at: nat, len: nat, i: nat)
    requires at <= i < at + len
    requires forall r <- held + flight :: !r.Overlaps(f, at, len)
    ensures !CoveredBy(held, f, i) && !CoveredBy(flight, f, i)
  {
    forall r <- held + flight
      ensures !r.Covers(f, i)
    {
    }
    assert forall r <- held :: r in held + flight;
    assert forall r <- flight :: r in held + flight;
  }

  // --- Where each accepted byte is ----------------------------------------------------

  /** How many of the runs hold a position. */
  function Count(runs: seq<Run>, f: nat, i: nat): nat {
    if runs == [] then 0 else (if runs[0].Covers(f, i) then 1 else 0) + Count(runs[1..], f, i)
  }

  lemma {:induction false} CountAppend(xs: seq<Run>, ys: seq<Run>, f: nat, i: nat)
    ensures Count(xs + ys, f, i) == Count(xs, f, i) + Count(ys, f, i)
  {
    if xs == [] {
      assert xs + ys == ys;
    } else {
      assert (xs + ys)[1..] == xs[1..] + ys;
      CountAppend(xs[1..], ys, f, i);
    }
  }

  lemma {:induction false} CountIff(runs: seq<Run>, f: nat, i: nat)
    ensures Count(runs, f, i) > 0 <==> CoveredBy(runs, f, i)
  {
    if runs != [] {
      assert runs == [runs[0]] + runs[1..];
      CoveredSplit([runs[0]], runs[1..], f, i);
      CountIff(runs[1..], f, i);
    }
  }

  lemma {:induction false} CountTaken(runs: seq<Run>, c: Claim, f: nat, i: nat)
    ensures Count(Taken(runs, c), f, i) + Count(Left(runs, c), f, i) == Count(runs, f, i)
  {
    if runs != [] {
      assert runs == [runs[0]] + runs[1..];
      TakenStep(runs[0], runs[1..], c);
      CountTaken(runs[1..], c, f, i);
      CountAppend([runs[0]], Taken(runs[1..], c), f, i);
      CountAppend([runs[0]], Left(runs[1..], c), f, i);
    }
  }

  lemma {:induction false} ScanCounts(runs: seq<Run>, w: Run, extended: bool, f: nat, i: nat)
    ensures var s := Scan(runs, w, extended);
            Count(s.kept, f, i) + Count(s.out, f, i)
            == Count(runs, f, i) + (if s.extended && !extended && w.Covers(f, i) then 1 else 0)
    decreases |runs|
  {
    if runs != [] {
      var e := extended || Extends(runs[0], w);
      var x := if Extends(runs[0], w) && !extended then Extend(runs[0], w) else runs[0];
      var s := Scan(runs[1..], w, e);
      ScanOrigin(runs[1..], w, e);
      ScanCounts(runs[1..], w, e, f, i);
      CountAppend([x], s.kept, f, i);
      CountAppend([x], s.out, f, i);
    }
  }

  lemma HoldCounts(runs: seq<Run>, w: Run, f: nat, i: nat)
    ensures var (held, out) := Hold(runs, w);
            Count(held, f, i) + Count(out, f, i) == Count(runs, f, i) + Count([w], f, i)
  {
    var s := Scan(runs, w, false);
    ScanCounts(runs, w, false, f, i);
    if !s.extended {
      var e := Excess(|s.kept|);
      assert s.kept == s.kept[..e] + s.kept[e..];
      CountAppend(s.kept[..e], s.kept[e..], f, i);
      CountAppend(s.out, s.kept[..e], f, i);
      CountAppend(s.kept[e..], [w], f, i);
    }
  }

  /** Every acceptance of the position is in one place: held, in flight or
      landed. */
  predicate Placed(s: System, f: nat, i: nat) {
    Count(s.seen, f, i) == Count(s.held, f, i) + Count(s.flight, f, i) + Count(s.landed, f, i)
  }

  lemma NextPlaces(s: System, a: Action, f: nat, i: nat)
    requires Enabled(s, a) && a != Discard(f) && Placed(s, f, i)
    ensures Placed(Next(s, a), f, i)
  {
    hide Hold;
    match a
    case Append(w) =>
      CountAppend(s.seen, [w], f, i);
      if PassesThrough(w) {
        CountAppend(s.flight, [w], f, i);
      } else {
        HoldCounts(s.held, w, f, i);
        CountAppend(s.flight, Hold(s.held, w).1, f, i);
      }
    case Take(c) =>
      CountTaken(s.held, c, f, i);
      CountAppend(s.flight, Taken(s.held, c), f, i);
    case TakeAll =>
      CountAppend(s.flight, s.held, f, i);
    case Land(n) =>
      var r := s.flight[n];
      assert s.flight == s.flight[..n] + ([r] + s.flight[n + 1..]);
      CountAppend(s.flight[..n], [r] + s.flight[n + 1..], f, i);
      CountAppend([r], s.flight[n + 1..], f, i);
      CountAppend(s.flight[..n], s.flight[n + 1..], f, i);
      CountAppend(s.landed, [r], f, i);
    case Discard(g) =>
      CountTaken(s.held, OfFile(g), f, i);
      TakenMembers(s.held, OfFile(g));
      CountIff(Taken(s.held, OfFile(g)), f, i);
    case Observe(_, _, _) =>
  }

  lemma {:induction false} RunsPlace(s: System, actions: seq<Action>, t: System, f: nat, i: nat)
    requires Runs(s, actions, t) && Discard(f) !in actions && Placed(s, f, i)
    ensures Placed(t, f, i)
    decreases |actions|
  {
    hide Next, Placed;
    if actions != [] {
      NextPlaces(s, actions[0], f, i);
      RunsPlace(Next(s, actions[0]), actions[1..], t, f, i);
    }
  }

  /** A position accepted once has landed exactly when it is neither held nor
      in flight, and it is never in two places. */
  lemma LandedIff(s: System, actions: seq<Action>, t: System, f: nat, i: nat)
    requires Runs(s, actions, t) && Discard(f) !in actions && Placed(s, f, i)
    requires Count(t.seen, f, i) == 1
    ensures CoveredBy(t.landed, f, i) <==> !CoveredBy(t.held, f, i) && !CoveredBy(t.flight, f, i)
    ensures !(CoveredBy(t.held, f, i) && CoveredBy(t.flight, f, i))
  {
    RunsPlace(s, actions, t, f, i);
    CountIff(t.landed, f, i);
    CountIff(t.held, f, i);
    CountIff(t.flight, f, i);
  }

  // --- Reads between the steps of other threads ------------------------------------------

  /** What a device has at a position, the hole before a later write included. */
  function ByteAt(d: Disk, f: nat, i: nat): byte {
    if i < |Content(d, f)| then Content(d, f)[i] else 0
  }

  /** Where nothing has landed, the device has what it had. */
  lemma {:induction false} RunsUntouched(s: System, actions: seq<Action>, t: System, f: nat, i: nat)
    requires Runs(s, actions, t) && Discard(f) !in actions
    requires !CoveredBy(t.landed, f, i)
    ensures !CoveredBy(s.landed, f, i) && ByteAt(t.disk, f, i) == ByteAt(s.disk, f, i)
    decreases |actions|
  {
    if actions != [] {
      var a, next := actions[0], Next(s, actions[0]);
      RunsUntouched(next, actions[1..], t, f, i);
      if a.Land? {
        var r := s.flight[a.index];
        CoveredSplit(s.landed, [r], f, i);
        assert r in [r];
      }
    }
  }

  /** The steps of one read: take what touches the range, land it, look. */
  function ReadActions(s: System, f: nat, at: nat, len: nat): seq<Action> {
    var c := Touching(f, at, len);
    [Take(c)] + Lands(|s.flight|, |Taken(s.held, c)|) + [Observe(f, at, len)]
  }

  function Lands(index: nat, n: nat): seq<Action> {
    if n == 0 then [] else [Land(index)] + Lands(index, n - 1)
  }

  lemma {:induction false} RunsAppend(s: System, xs: seq<Action>, t: System, ys: seq<Action>, u: System)
    requires Runs(s, xs, t) && Runs(t, ys, u)
    ensures Runs(s, xs + ys, u)
    decreases |xs|
  {
    if xs == [] {
      assert xs + ys == ys;
    } else {
      assert (xs + ys)[1..] == xs[1..] + ys;
      RunsAppend(Next(s, xs[0]), xs[1..], t, ys, u);
    }
  }

  lemma {:induction false} LandsAll(s: System, carried: seq<Run>, runs: seq<Run>) returns (t: System)
    requires s.flight == carried + runs
    ensures Runs(s, Lands(|carried|, |runs|), t)
    ensures t.disk == Overlay(s.disk, runs) && t.held == s.held && t.flight == carried && t.seen == s.seen
    ensures t.landed == s.landed + runs && t.answers == s.answers
    decreases |runs|
  {
    hide Put, Next;
    if runs == [] {
      return s;
    }
    var next := LandsOne(s, carried, runs);
    t := LandsAll(next, carried, runs[1..]);
    assert runs == [runs[0]] + runs[1..];
    assert Lands(|carried|, |runs|)[1..] == Lands(|carried|, |runs| - 1);
  }

  lemma LandsOne(s: System, carried: seq<Run>, runs: seq<Run>) returns (next: System)
    requires s.flight == carried + runs && runs != []
    ensures Enabled(s, Land(|carried|)) && next == Next(s, Land(|carried|))
    ensures next.disk == Put(s.disk, runs[0]) && next.flight == carried + runs[1..] && next.held == s.held
    ensures next.seen == s.seen && next.landed == s.landed + [runs[0]] && next.answers == s.answers
  {
    var n := |carried|;
    next := Next(s, Land(n));
    assert s.flight[n] == runs[0] && s.flight[..n] == carried && s.flight[n + 1..] == runs[1..];
  }

  /** One read, from its first step to its answer, with nobody in between. */
  lemma ReadRuns(t: System, f: nat, at: nat, len: nat) returns (u: System)
    ensures Runs(t, ReadActions(t, f, at, len), u)
    ensures var c := Touching(f, at, len);
            && u.disk == Overlay(t.disk, Taken(t.held, c)) && u.held == Left(t.held, c)
            && u.flight == t.flight && u.seen == t.seen && u.landed == t.landed + Taken(t.held, c)
    ensures u.answers == t.answers + [Observed(u.disk, f, at, len)]
  {
    var c := Touching(f, at, len);
    var first := Next(t, Take(c));
    var landed := LandsAll(first, t.flight, Taken(t.held, c));
    u := Next(landed, Observe(f, at, len));
    var lands, look := Lands(|t.flight|, |Taken(t.held, c)|), [Observe(f, at, len)];
    assert look[1..] == [] && Runs(landed, look, u);
    RunsAppend(first, lands, landed, look, u);
    assert [Take(c)] + lands + look == [Take(c)] + (lands + look);
    assert ([Take(c)] + (lands + look))[1..] == lands + look;
  }

  lemma LandsHarmless(payload: Disk, f: nat, index: nat, n: nat)
    ensures forall a <- Lands(index, n) :: Harmless(payload, f, a)
  {
  }

  lemma ReadHarmless(t: System, payload: Disk, f: nat, at: nat, len: nat)
    ensures forall a <- ReadActions(t, f, at, len) :: Harmless(payload, f, a)
    ensures Discard(f) !in ReadActions(t, f, at, len)
  {
    LandsHarmless(payload, f, |t.flight|, |Taken(t.held, Touching(f, at, len))|);
  }

  /** What has landed of a download is on the device, and stays there. */
  lemma {:induction false} RunsLand(s: System, payload: Disk, f: nat, actions: seq<Action>, t: System, i: nat)
    requires Conserved(s) && Kept(s, payload, f) && Runs(s, actions, t)
    requires forall a <- actions :: Harmless(payload, f, a)
    requires CoveredBy(s.landed, f, i) ==> OnDevice(s, payload, f, i)
    ensures CoveredBy(t.landed, f, i) ==> OnDevice(t, payload, f, i)
    decreases |actions|
  {
    hide Conserved, Kept, Harmless, Next;
    if actions != [] {
      assert actions[0] in actions;
      NextConserves(s, actions[0]);
      NextKeeps(s, payload, f, actions[0]);
      NextLands(s, payload, f, actions[0], i);
      RunsLand(Next(s, actions[0]), payload, f, actions[1..], t, i);
    }
  }

  lemma NextLands(s: System, payload: Disk, f: nat, a: Action, i: nat)
    requires Kept(s, payload, f) && Enabled(s, a) && Harmless(payload, f, a)
    requires CoveredBy(s.landed, f, i) ==> OnDevice(s, payload, f, i)
    ensures CoveredBy(Next(s, a).landed, f, i) ==> OnDevice(Next(s, a), payload, f, i)
  {
    hide Hold, Overlay, CoveredBy, Put;
    if a.Land? {
      LandsThere(s, payload, f, a.index, i);
    }
  }

  lemma LandsThere(s: System, payload: Disk, f: nat, n: nat, i: nat)
    requires StorageDownload.AllSlices(payload, s.flight) && n < |s.flight|
    requires CoveredBy(s.landed, f, i) ==> OnDevice(s, payload, f, i)
    ensures CoveredBy(Next(s, Land(n)).landed, f, i) ==> OnDevice(Next(s, Land(n)), payload, f, i)
  {
    var r := s.flight[n];
    assert StorageDownload.SliceOf(payload, r);
    CoveredSplit(s.landed, [r], f, i);
    if r.Covers(f, i) {
      PutReads(s.disk, r, i);
    }
  }

  /** The payload's bytes are not what the device had, and nothing has landed
      there. */
  ghost predicate Fresh(s: System, payload: Disk, f: nat, at: nat, len: nat) {
    && f in payload && at + len <= |payload[f]|
    && forall i: nat | at <= i < at + len :: payload[f][i] != ByteAt(s.disk, f, i) && !CoveredBy(s.landed, f, i)
  }

  /** A byte that has not landed is not what a look at the device finds. */
  lemma Missed(s: System, payload: Disk, actions: seq<Action>, t: System, f: nat, at: nat, len: nat, i: nat)
    requires Runs(s, actions, t) && Discard(f) !in actions && Fresh(s, payload, f, at, len)
    requires at <= i < at + len && !CoveredBy(t.landed, f, i)
    ensures Observed(t.disk, f, at, len) != Ok(payload[f][at..at + len])
  {
    hide Runs;
    RunsUntouched(s, actions, t, f, i);
    if Observed(t.disk, f, at, len).Ok? {
      assert Observed(t.disk, f, at, len).value[i - at] == ByteAt(t.disk, f, i);
      assert payload[f][at..at + len][i - at] == payload[f][i];
    }
  }

  lemma NeverDiscards(payload: Disk, f: nat, actions: seq<Action>)
    requires forall a <- actions :: Harmless(payload, f, a)
    ensures Discard(f) !in actions
  {
  }

  lemma AllThere(t: System, payload: Disk, f: nat, at: nat, len: nat)
    requires len > 0 && forall i: nat | at <= i < at + len :: OnDevice(t, payload, f, i)
    ensures f in payload && at + len <= |payload[f]|
    ensures Observed(t.disk, f, at, len) == Ok(payload[f][at..at + len])
  {
    assert OnDevice(t, payload, f, at + len - 1);
    var x, y := Content(t.disk, f)[at..at + len], payload[f][at..at + len];
    forall k | 0 <= k < len
      ensures x[k] == y[k]
    {
      assert OnDevice(t, payload, f, at + k);
    }
  }

  /** Whatever steps of whatever threads came before, a look at the device
      finds the payload exactly when every position of the range has landed. */
  lemma ObserveIff(s: System, payload: Disk, actions: seq<Action>, t: System, f: nat, at: nat, len: nat)
    requires Conserved(s) && Kept(s, payload, f) && Runs(s, actions, t)
    requires forall a <- actions :: Harmless(payload, f, a)
    requires len > 0 && Fresh(s, payload, f, at, len)
    ensures Observed(t.disk, f, at, len) == Ok(payload[f][at..at + len])
            <==> forall i: nat | at <= i < at + len :: CoveredBy(t.landed, f, i)
  {
    hide Conserved, Kept, Runs, Harmless, Observed, CoveredBy, OnDevice;
    if i: nat :| at <= i < at + len && !CoveredBy(t.landed, f, i) {
      NeverDiscards(payload, f, actions);
      Missed(s, payload, actions, t, f, at, len, i);
    } else {
      forall i: nat | at <= i < at + len
        ensures OnDevice(t, payload, f, i)
      {
        RunsLand(s, payload, f, actions, t, i);
      }
      AllThere(t, payload, f, at, len);
    }
  }

  /** The exact condition of a read that misses nothing, its own flush
      included: every position of the range has landed or is held. */
  lemma ReadIff(s: System, payload: Disk, actions: seq<Action>, t: System, f: nat, at: nat, len: nat)
    returns (u: System)
    requires Conserved(s) && Kept(s, payload, f) && Runs(s, actions, t)
    requires forall a <- actions :: Harmless(payload, f, a)
    requires len > 0 && Fresh(s, payload, f, at, len)
    ensures Runs(t, ReadActions(t, f, at, len), u)
    ensures u.answers == t.answers + [Ok(payload[f][at..at + len])]
            <==> forall i: nat | at <= i < at + len :: CoveredBy(t.landed, f, i) || CoveredBy(t.held, f, i)
  {
    hide Conserved, Kept, Fresh, Runs, Harmless, Observed, ReadActions, CoveredBy;
    u := ReadRuns(t, f, at, len);
    ReadHarmless(t, payload, f, at, len);
    RunsAppend(s, actions, t, ReadActions(t, f, at, len), u);
    ObserveIff(s, payload, actions + ReadActions(t, f, at, len), u, f, at, len);
    assert u.answers[|t.answers|] == Observed(u.disk, f, at, len);
    forall i: nat | at <= i < at + len
      ensures CoveredBy(u.landed, f, i) <==> CoveredBy(t.landed, f, i) || CoveredBy(t.held, f, i)
    {
      CoveredSplit(t.landed, Taken(t.held, Touching(f, at, len)), f, i);
      TouchingCovers(t.held, f, at, len, i);
    }
  }

  /** What a read takes holds every byte of its range that is held. */
  lemma TouchingCovers(runs: seq<Run>, f: nat, at: nat, len: nat, i: nat)
    requires at <= i < at + len
    ensures CoveredBy(Taken(runs, Touching(f, at, len)), f, i) <==> CoveredBy(runs, f, i)
  {
    TakenMembers(runs, Touching(f, at, len));
    if r :| r in runs && r.Covers(f, i) {
      assert r in Taken(runs, Touching(f, at, len));
    }
  }

  lemma OverlapCovers(runs: seq<Run>, f: nat, at: nat, len: nat)
    requires NonEmpty(runs) && len > 0
    ensures (forall r <- runs :: !r.Overlaps(f, at, len))
            <==> forall i: nat | at <= i < at + len :: !CoveredBy(runs, f, i)
  {
    if r :| r in runs && r.Overlaps(f, at, len) {
      var i := if r.offset < at then at else r.offset;
      assert r.Covers(f, i) && CoveredBy(runs, f, i);
    }
    forall r, i: nat | r in runs && at <= i < at + len
      ensures r.Covers(f, i) ==> r.Overlaps(f, at, len)
    {
    }
  }

  /** Where every position was accepted once, that is to say that no run in
      flight touches the range: held runs never matter to a read. A look at
      the device alone needs that no run holds a byte of it either. */
  lemma OnceIff(s: System, actions: seq<Action>, t: System, f: nat, at: nat, len: nat)
    requires Conserved(s) && Runs(s, actions, t) && Discard(f) !in actions
    requires len > 0 && forall i: nat | at <= i < at + len :: Placed(s, f, i) && Count(t.seen, f, i) == 1
    ensures (forall i: nat | at <= i < at + len :: CoveredBy(t.landed, f, i) || CoveredBy(t.held, f, i))
            <==> forall r <- t.flight :: !r.Overlaps(f, at, len)
    ensures (forall i: nat | at <= i < at + len :: CoveredBy(t.landed, f, i))
            <==> forall r <- t.held + t.flight :: !r.Overlaps(f, at, len)
  {
    hide Placed, Runs, CoveredBy, Run.Overlaps;
    RunsConserve(s, actions, t);
    OverlapCovers(t.flight, f, at, len);
    OverlapCovers(t.held + t.flight, f, at, len);
    forall i: nat | at <= i < at + len
      ensures CoveredBy(t.landed, f, i) <==> !CoveredBy(t.held, f, i) && !CoveredBy(t.flight, f, i)
      ensures CoveredBy(t.landed, f, i) || CoveredBy(t.held, f, i) <==> !CoveredBy(t.flight, f, i)
      ensures CoveredBy(t.held + t.flight, f, i) <==> CoveredBy(t.held, f, i) || CoveredBy(t.flight, f, i)
    {
      assert Placed(s, f, i);
      LandedIff(s, actions, t, f, i);
      CoveredSplit(t.held, t.flight, f, i);
    }
  }

  /** However the threads of one download interleave, a read of a range that
      was accepted misses nothing when no run in flight touches it. */
  lemma QuietRangeReads(s: System, payload: Disk, actions: seq<Action>, t: System, f: nat, at: nat, len: nat)
    returns (u: System)
    requires Conserved(s) && Kept(s, payload, f) && Runs(s, actions, t)
    requires forall a <- actions :: Harmless(payload, f, a)
    requires len > 0 && forall i: nat | at <= i < at + len :: Count(t.seen, f, i) > 0
    requires forall r <- t.flight :: !r.Overlaps(f, at, len)
    ensures f in payload && at + len <= |payload[f]| && Runs(t, ReadActions(t, f, at, len), u)
    ensures u.answers == t.answers + [Ok(payload[f][at..at + len])]
  {
    hide Conserved, Next, Runs;
    u := ReadRuns(t, f, at, len);
    RunsKeep(s, payload, f, actions, t);
    ReadHarmless(t, payload, f, at, len);
    RunsKeep(t, payload, f, ReadActions(t, f, at, len), u);
    TakenMembers(t.held, Touching(f, at, len));
    forall i: nat | at <= i < at + len
      ensures CoveredBy(u.seen, f, i)
    {
      CountIff(t.seen, f, i);
    }
    QuietObserved(u, payload, f, at, len);
  }

  /** The comments promise more. Between the moment another thread takes a run
      out and the moment it writes it, a read finds the byte in neither place
      it looks, and answers with what was there before. */
  lemma InFlightByteIsMissed()
    ensures var start := System(map[0 := [0]], [], [], [], [], [], Ledger(0, 0, 0, 0, 0, 0));
            exists t: System, u: System ::
              && Runs(start, [Append(Run(0, 0, [7])), TakeAll], t)
              && Runs(t, ReadActions(t, 0, 0, 1), u) && u.answers == [Ok([0])]
  {
    var start := System(map[0 := [0]], [], [], [], [], [], Ledger(0, 0, 0, 0, 0, 0));
    var w := Run(0, 0, [7]);
    var one := Next(start, Append(w));
    var two := Next(one, TakeAll);
    var actions := [Append(w), TakeAll];
    assert actions[1..] == [TakeAll] && [TakeAll][1..] == [];
    assert Runs(two, [], two) && Runs(one, [TakeAll], two) && Runs(start, actions, two);
    var u := ReadRuns(two, 0, 0, 1);
    assert two.held == [] && two.disk == map[0 := [0]];
    assert Observed(u.disk, 0, 0, 1) == Ok([0]);
  }
}
