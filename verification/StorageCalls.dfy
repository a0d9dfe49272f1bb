/** Every write call against plain files, refused ones and vectored ones too:
    exactly when it does to the contents what it would do to plain files. */
module StorageCalls {
  import opened Device
  import opened Coalescing
  import opened CoalescingOrder
  import opened StorageSpec
  import opened StorageInvariant
  import opened StorageRefinement

  // --- A refused write and the run it pushes out ------------------------------

  lemma {:induction false} LiveAppend(st: State, xs: seq<Run>, ys: seq<Run>)
    ensures Live(st, xs + ys) == Live(st, xs) + Live(st, ys)
  {
    if xs == [] {
      assert xs + ys == ys;
    } else {
      assert (xs + ys)[1..] == xs[1..] + ys;
      LiveAppend(st, xs[1..], ys);
    }
  }

  lemma {:induction false} LiveDisjoint(st: State, runs: seq<Run>)
    requires Disjoint(runs)
    ensures Disjoint(Live(st, runs))
  {
    if runs != [] {
      var r, rest := runs[0], runs[1..];
      assert runs == [r] + rest;
      DisjointCons(r, rest);
      LiveDisjoint(st, rest);
      RefusalIff(st, rest);
      DisjointCons(r, Live(st, rest));
    }
  }

  /** Buffering a write for a file that cannot hold data neither moves nor
      changes a run of a file that can. */
  lemma {:induction false} ScanLive(st: State, runs: seq<Run>, w: Run, extended: bool)
    requires !st.Usable(w.file)
    ensures var s := Scan(runs, w, extended); Live(st, s.kept) == Live(st, runs) && Live(st, s.out) == []
    decreases |runs|
  {
    if runs != [] {
      var r, rest := runs[0], runs[1..];
      var e := extended || Extends(r, w);
      ScanLive(st, rest, w, e);
      var s := Scan(rest, w, e);
      var x := if Extends(r, w) && !extended then Extend(r, w) else r;
      LiveAppend(st, [x], s.kept);
      LiveAppend(st, [x], s.out);
    }
  }

  /** Every place is taken, and the write neither joins nor revises a run. */
  predicate Crowded(runs: seq<Run>, w: Run) {
    |runs| >= WRITE_RUNS && forall r <- runs :: !Extends(r, w) && !r.Overlaps(w.file, w.offset, |w.bytes|)
  }

  /** What a refused write pushes out and nobody writes: the oldest run, when
      there is no place left and its file can hold data. */
  function Lost(st: State, w: Run): seq<Run> {
    if !PassesThrough(w) && Crowded(st.held, w) && st.Usable(st.held[0].file) then [st.held[0]] else []
  }

  lemma LiveNone(st: State, w: Run)
    requires !st.Usable(w.file)
    ensures Live(st, [w]) == []
  {
  }

  /** A write that displaces runs it does not touch displaces one, the oldest. */
  lemma HoldCrowded(runs: seq<Run>, w: Run)
    requires |runs| <= WRITE_RUNS
    ensures var s := Scan(runs, w, false);
            Hold(runs, w) == if Crowded(runs, w) then (runs[1..] + [w], [runs[0]])
                             else if s.extended then (s.kept, s.out)
                             else (s.kept + [w], s.out)
  {
    hide Scan, Extends, Run.Overlaps;
    ScanUntouched(runs, w);
    ScanOrigin(runs, w, false);
    var s := Scan(runs, w, false);
    if Crowded(runs, w) {
      assert s.kept[..1] == [runs[0]] && [] + [runs[0]] == [runs[0]];
    } else {
      assert !s.extended ==> Excess(|s.kept|) == 0;
      assert s.out + s.kept[..0] == s.out && s.kept[0..] == s.kept;
    }
  }

  /** The runs of a refused write's displacement that could have been written:
      exactly the lost one, the oldest of all that are held. */
  lemma LostFirst(st: State, w: Run)
    requires Bounded(st.held) && !st.Usable(w.file) && !PassesThrough(w)
    ensures Live(st, Hold(st.held, w).1) == Lost(st, w)
    ensures Live(st, st.held) == Lost(st, w) + Live(st, Hold(st.held, w).0)
  {
    hide Scan, Live, Crowded, Hold;
    var s := Scan(st.held, w, false);
    ScanLive(st, st.held, w, false);
    HoldCrowded(st.held, w);
    LiveNone(st, w);
    LiveAppend(st, s.kept, [w]);
    if Crowded(st.held, w) {
      CrowdedAny(st.held, w);
      FirstLive(st, [st.held[0]]);
      assert st.held == [st.held[0]] + st.held[1..];
      LiveAppend(st, [st.held[0]], st.held[1..]);
      LiveAppend(st, st.held[1..], [w]);
    }
  }

  lemma CrowdedAny(runs: seq<Run>, w: Run)
    ensures Crowded(runs, w) ==> runs != []
  {
  }

  lemma FirstLive(st: State, runs: seq<Run>)
    requires |runs| <= 1
    ensures Live(st, runs) == if runs != [] && st.Usable(runs[0].file) then runs else []
  {
  }

  /** The files already have the bytes of the run where the run has them. */
  predicate Redundant(files: Disk, r: Run) {
    r.file in files && r.End() <= |files[r.file]| && files[r.file][r.offset..r.End()] == r.bytes
  }

  lemma RedundantIff(files: Disk, r: Run)
    requires r.bytes != []
    ensures Put(files, r) == files <==> Redundant(files, r)
  {
    if Put(files, r) == files {
      assert files[r.file] == WriteAt(Content(files, r.file), r.offset, r.bytes);
    }
    if Redundant(files, r) {
      var x, y := files[r.file], Put(files, r)[r.file];
      forall i | 0 <= i < |y|
        ensures x[i] == y[i]
      {
        if r.offset <= i < r.End() {
          assert files[r.file][r.offset..r.End()][i - r.offset] == r.bytes[i - r.offset];
        }
      }
      assert x == y;
    }
  }

  /** A refused write changes nothing but for the run it pushes out: put back,
      that run gives the old contents. */
  lemma RefusedView(st: State, w: Run)
    requires Coherent(st) && w.bytes != [] && !st.Usable(w.file)
    ensures View(st) == Overlay(View(Accept(st, w).0), Lost(st, w))
    ensures NonEmpty(Lost(st, w)) && |Lost(st, w)| <= 1
  {
    hide Hold, Files, Put, Coherent;
    if !PassesThrough(w) {
      RefusedKeeps(st, w);
      BoundedOf(st);
      LostFirst(st, w);
      var held := Hold(st.held, w).0;
      var lost, rest := Lost(st, w), Live(st, held);
      LiveLost(st, lost, rest);
      FilesOverlay(st, st.disk, st.disk, st.held);
      FilesOverlay(st, st.disk, st.disk, held);
      SameFiles(st, st.(held := held), Overlay(st.disk, held));
      if lost != [] {
        var r := lost[0];
        assert lost == [r] && (lost + rest)[0] == r && (lost + rest)[1..] == rest;
        PutPastOverlay(st.disk, r, rest);
        FilesPut(st, Overlay(st.disk, rest), r);
        OverlayOne(View(Accept(st, w).0), r);
      } else {
        assert lost + rest == rest;
      }
    }
  }

  lemma LiveLost(st: State, lost: seq<Run>, rest: seq<Run>)
    requires Bounded(st.held) && Live(st, st.held) == lost + rest
    ensures NonEmpty(lost) && NonEmpty(rest) && (forall r <- lost :: st.Usable(r.file))
    ensures lost != [] ==> forall x <- rest :: Agree(lost[0], x)
  {
    hide Disjoint, Live;
    RefusalIff(st, st.held);
    LiveDisjoint(st, st.held);
    assert forall r <- lost :: r in lost + rest;
    assert forall r <- rest :: r in lost + rest;
    if lost != [] {
      FirstApart(lost, rest);
    }
  }

  lemma FirstApart(lost: seq<Run>, rest: seq<Run>)
    requires Disjoint(lost + rest) && lost != []
    ensures forall x <- rest :: Agree(lost[0], x)
  {
    hide Disjoint;
    assert lost + rest == [lost[0]] + (lost[1..] + rest);
    DisjointCons(lost[0], lost[1..] + rest);
    forall x <- rest
      ensures Agree(lost[0], x)
    {
      assert x in lost[1..] + rest;
    }
  }

  /** The run a refused write would push out adds nothing to the device and
      the other held runs. */
  predicate Spared(st: State, w: Run) {
    forall r <- Lost(st, w) :: Redundant(Files(st, Overlay(st.disk, st.held[1..])), r)
  }

  /** With a run lost, what is left are the others. */
  lemma LostRest(st: State, w: Run)
    requires Coherent(st) && w.bytes != [] && !st.Usable(w.file) && Lost(st, w) != []
    ensures st.held != [] && Lost(st, w) == [st.held[0]]
    ensures View(Accept(st, w).0) == Files(st, Overlay(st.disk, st.held[1..]))
  {
    hide Hold, Files, Overlay, Coherent, Crowded;
    RefusedKeeps(st, w);
    BoundedOf(st);
    LostFirst(st, w);
    var held := Hold(st.held, w).0;
    assert Live(st, st.held) == [st.held[0]] + Live(st, st.held[1..]);
    assert Live(st, st.held)[1..] == Live(st, held) == Live(st, st.held[1..]);
    FilesOverlay(st, st.disk, st.disk, held);
    FilesOverlay(st, st.disk, st.disk, st.held[1..]);
    SameFiles(st, st.(held := held), Overlay(st.disk, held));
  }

  /** A refused write leaves the contents alone exactly when no run is lost but
      one that added nothing. */
  lemma RefusedIff(st: State, w: Run)
    requires Coherent(st) && w.bytes != [] && !st.Usable(w.file)
    ensures View(Accept(st, w).0) == View(st) <==> Spared(st, w)
  {
    hide View, Accept, Lost, Coherent, Files;
    RefusedView(st, w);
    if Lost(st, w) != [] {
      LostRest(st, w);
      var r := st.held[0];
      OverlayOne(View(Accept(st, w).0), r);
      RedundantIff(View(Accept(st, w).0), r);
    }
  }

  // --- Any write --------------------------------------------------------------

  /** A write to a file that cannot hold data leaves plain files alone. */
  function PlainWrite(data: set<nat>, files: Disk, w: Run): Disk {
    if w.file in data && w.bytes != [] then Put(files, w) else files
  }

  /** No older byte lands over a newer one, and none is lost. */
  ghost predicate FaithfulWrite(st: State, w: Run) {
    w.bytes == [] || if st.Usable(w.file) then Faithful(st.held, w) else Spared(st, w)
  }

  /** Last write wins, for every write in every state a session can reach. */
  lemma WriteIff(st: State, w: Run)
    requires Coherent(st)
    ensures View(AcceptSlice(st, w).0) == PlainWrite(DataFiles(st), View(st), w) <==> FaithfulWrite(st, w)
  {
    if w.bytes != [] {
      if st.Usable(w.file) {
        AcceptIff(st, w);
      } else {
        RefusedIff(st, w);
      }
    }
  }

  // --- Vectored writes ----------------------------------------------------------

  /** The second slice meets the buffer the first one leaves; it is not
      written once the first is refused, be it for its own file or for a run it
      displaced. */
  ghost predicate FaithfulSlices(st: State, f: nat, at: nat, b0: seq<byte>, b1: seq<byte>) {
    var w0, w1 := Run(f, at, b0), Run(f, at + |b0|, b1);
    if b0 == [] then FaithfulWrite(st, w1)
    else
      && FaithfulWrite(st, w0)
      && (st.Usable(f) && b1 != [] ==>
            if AcceptAnswer(st, w0).Refused? then Redundant(View(st), w1)
            else Faithful(Accept(Called(st), w0).0.held, w1))
  }

  lemma SameOutsideBoth(a: Disk, b: Disk, x: Run, c: Disk, y: Run)
    requires SameOutside(a, b, x)
    requires SameOutside(c, Put(a, y), y) && c == Put(b, y)
    requires x.file == y.file && x.End() == y.offset && y.bytes != []
    requires x.file in a && x.End() <= |a[x.file]|
    ensures a == b
  {
    forall f | f in a.Keys
      ensures a[f] == b[f]
    {
      assert SameBytesOutside(a[f], b[f], x, f);
      if f == x.file {
        assert SameBytesOutside(c[f], Put(a, y)[f], y, f);
        forall i: nat | i < |a[f]|
          ensures a[f][i] == b[f][i]
        {
          if x.Covers(f, i) {
            assert c[f][i] == Put(a, y)[f][i] == a[f][i];
          }
        }
      }
    }
  }

  /** The device after the first slice, and the one that would be right. */
  lemma FirstSlice(st: State, w: Run) returns (one: State)
    requires Coherent(st) && st.Usable(w.file) && w.bytes != []
    ensures one == Accept(Called(st), w).0 && Coherent(one) && one.Usable(w.file)
    ensures Accept(Called(st), w).1 == AcceptAnswer(Called(st), w)
    ensures View(one) == Put(View(st), w) <==> Faithful(st.held, w)
    ensures SameOutside(View(one), Put(View(st), w), w)
    ensures w.file in View(one) && w.End() <= |View(one)[w.file]|
  {
    hide Accept, Faithful, Coherent, View, Files, Overlay, Hold, WriteAt;
    CalledKeeps(st);
    AcceptKeeps(Called(st), w);
    AcceptIff(Called(st), w);
    AcceptConfined(Called(st), w);
    CalledView(st);
    one := Accept(Called(st), w).0;
    assert SameBytesOutside(View(one)[w.file], Put(View(st), w)[w.file], w, w.file);
  }

  lemma CalledView(st: State)
    ensures View(Called(st)) == View(st)
  {
    SameFiles(Called(st), st, Overlay(st.disk, st.held));
  }

  lemma CalledIff(st: State, w: Run)
    requires Coherent(st)
    ensures View(AcceptSlice(Called(st), w).0) == PlainWrite(DataFiles(st), View(st), w) <==> FaithfulWrite(st, w)
  {
    hide AcceptSlice, Put, Faithful, Coherent, Spared, Files, Overlay;
    CalledKeeps(st);
    WriteIff(Called(st), w);
    CalledView(st);
    CalledSpared(st, w);
  }

  /** A vectored write is one write of both slices, exactly when both slices
      are faithful and the second is reached. */
  lemma WriteVectoredIff(st: State, f: nat, at: nat, b0: seq<byte>, b1: seq<byte>)
    requires Coherent(st)
    ensures View(WriteVectored(st, f, at, b0, b1).0) == PlainWrite(DataFiles(st), View(st), Run(f, at, b0 + b1))
            <==> FaithfulSlices(st, f, at, b0, b1)
  {
    hide Accept, Put, Faithful, Coherent, Spared, View;
    if b0 == [] {
      assert b0 + b1 == b1;
      CalledIff(st, Run(f, at, b1));
    } else if b1 == [] {
      assert b0 + b1 == b0;
      CalledIff(st, Run(f, at, b0));
    } else if st.Usable(f) {
      VectoredBoth(st, Run(f, at, b0), Run(f, at + |b0|, b1));
    } else {
      CalledIff(st, Run(f, at, b0));
      CalledKeeps(st);
      AcceptKeeps(Called(st), Run(f, at, b0));
    }
  }

  lemma CalledSpared(st: State, w: Run)
    ensures Spared(Called(st), w) <==> Spared(st, w)
  {
    hide Overlay, Redundant;
    if Lost(st, w) != [] {
      SameFiles(Called(st), st, Overlay(st.disk, st.held[1..]));
    }
  }

  lemma VectoredBoth(st: State, w0: Run, w1: Run)
    requires Coherent(st) && st.Usable(w0.file)
    requires w0.bytes != [] && w1.bytes != [] && w0.file == w1.file && w0.End() == w1.offset
    ensures View(WriteVectored(st, w0.file, w0.offset, w0.bytes, w1.bytes).0)
            == Put(View(st), Run(w0.file, w0.offset, w0.bytes + w1.bytes))
            <==> FaithfulSlices(st, w0.file, w0.offset, w0.bytes, w1.bytes)
  {
    hide Accept, Put, Faithful, Coherent, View, SameOutside, AcceptAnswer;
    var one := FirstSlice(st, w0);
    PutJoin(View(st), w0, w1);
    CalledAnswer(st, w0);
    if AcceptAnswer(st, w0).Refused? {
      CutShort(View(one), Put(View(st), w0), w0, w1);
      RedundantPast(View(st), View(one), w0, w1);
    } else {
      VectoredSecond(View(st), one, w0, w1);
    }
  }

  /** The first slice has no part in whether the second adds anything. */
  lemma RedundantPast(files: Disk, one: Disk, w0: Run, w1: Run)
    requires w0.bytes != [] && w1.bytes != [] && w0.file == w1.file && w0.End() == w1.offset
    requires SameOutside(one, Put(files, w0), w0) && w0.file in one
    ensures Redundant(one, w1) <==> Redundant(files, w1)
  {
    var x, y := one[w1.file], Content(files, w1.file);
    assert SameBytesOutside(x, Put(files, w0)[w1.file], w0, w1.file);
    assert w1.End() <= |x| <==> w1.End() <= |y|;
    if w1.End() <= |y| {
      var a, b := x[w1.offset..w1.End()], y[w1.offset..w1.End()];
      forall i | 0 <= i < |a|
        ensures a[i] == b[i]
      {
        assert !w0.Covers(w1.file, w1.offset + i);
      }
      assert a == b;
    }
  }

  /** The second slice was never written. */
  lemma CutShort(one: Disk, plain: Disk, w0: Run, w1: Run)
    requires w0.bytes != [] && w1.bytes != [] && w0.file == w1.file && w0.End() == w1.offset
    requires SameOutside(one, plain, w0) && w0.file in one && w0.End() <= |one[w0.file]|
    ensures one == Put(plain, w1) <==> one == plain && Redundant(one, w1)
  {
    RedundantIff(one, w1);
    if one == Put(plain, w1) {
      assert SameBytesOutside(one[w0.file], plain[w0.file], w0, w0.file);
      forall f | f in one.Keys
        ensures SameBytesOutside(one[f], Put(one, w1)[f], w1, f)
      {
      }
      SameOutsideBoth(one, plain, w0, one, w1);
    }
  }

  lemma VectoredSecond(files: Disk, one: State, w0: Run, w1: Run)
    requires Coherent(one) && one.Usable(w1.file)
    requires w0.bytes != [] && w1.bytes != [] && w0.file == w1.file && w0.End() == w1.offset
    requires SameOutside(View(one), Put(files, w0), w0)
    requires w0.file in View(one) && w0.End() <= |View(one)[w0.file]|
    ensures View(Accept(one, w1).0) == Put(Put(files, w0), w1)
            <==> View(one) == Put(files, w0) && Faithful(one.held, w1)
  {
    hide Accept, View, Put, SameOutside, Coherent;
    AcceptIff(one, w1);
    AcceptConfined(one, w1);
    var two := View(Accept(one, w1).0);
    if two == Put(Put(files, w0), w1) {
      SameOutsideBoth(View(one), Put(files, w0), w0, two, w1);
    }
  }

  // --- What a refused write can do ------------------------------------------------

  /** A refused write leaves its run behind, and a later write that pushes it
      out hears of the refusal although its own bytes are taken. */
  lemma BorrowedRefusal(st: State, w: Run)
    requires Coherent(st) && Crowded(st.held, w) && !st.Usable(st.held[0].file)
    requires 0 < |w.bytes| < WRITE_REGION && st.Usable(w.file)
    ensures Accept(st, w).1 == Refusal(st, st.held[0].file) && Accept(st, w).1.Refused?
    ensures View(Accept(st, w).0) == Put(View(st), w)
  {
    ScanUntouched(st.held, w);
    NoneBehind(st.held, w);
    AcceptIff(st, w);
    AcceptKeeps(st, w);
    assert Hold(st.held, w).1 == [st.held[0]];
  }

  /** A vectored write that hears of it leaves its second slice unwritten. */
  lemma CutShortWrite(st: State, f: nat, at: nat, b0: seq<byte>, b1: seq<byte>)
    requires Coherent(st) && Crowded(st.held, Run(f, at, b0)) && !st.Usable(st.held[0].file)
    requires 0 < |b0| < WRITE_REGION && st.Usable(f)
    ensures var (out, r) := WriteVectored(st, f, at, b0, b1);
            r == Unwritten(Refusal(st, st.held[0].file).error) && View(out) == Put(View(st), Run(f, at, b0))
  {
    hide Accept, Coherent, View, Crowded;
    CalledKeeps(st);
    CalledView(st);
    BorrowedRefusal(Called(st), Run(f, at, b0));
  }

  /** Eight runs of one byte with gaps between them. */
  function EightRuns(oldest: Run): seq<Run> {
    [oldest, Run(0, 2, [1]), Run(0, 4, [1]), Run(0, 6, [1]), Run(0, 8, [1]), Run(0, 10, [1]), Run(0, 12, [1]),
     Run(0, 14, [1])]
  }

  /** A storage of two files with a padding file between them, and no place
      left. */
  function Full(oldest: Run): State {
    State(2, map[0 := [0], 2 := []], EightRuns(oldest), [0, 2],
          [Slot(true, Writable), Slot(false, Closed), Slot(true, Writable)], Tally(0, 0, 0, 0, 0))
  }

  lemma FullCoherent(oldest: Run) returns (st: State)
    requires |oldest.bytes| == 1 && (oldest.file == 1 || oldest == Run(0, 0, [1]))
    ensures st == Full(oldest) && Coherent(st)
    ensures st.disk == map[0 := [0], 2 := []] && |st.held| == WRITE_RUNS && st.held[0] == oldest
    ensures st.Usable(0) && Refusal(st, 1) == Refused(HoldsNoData) && st.Usable(2)
    ensures forall k | 1 <= k < |st.held| :: st.held[k].file == 0 && st.held[k].offset >= 2
  {
    hide Disjoint, EightRuns;
    st := Full(oldest);
    EightDisjoint(oldest);
    FullTracked(oldest);
  }

  lemma FullTracked(oldest: Run)
    ensures Tracked(Full(oldest)) && Full(oldest).held == EightRuns(oldest)
  {
    hide EightRuns;
  }

  lemma EightDisjoint(oldest: Run)
    requires |oldest.bytes| == 1 && (oldest.file == 1 || oldest == Run(0, 0, [1]))
    ensures var runs := EightRuns(oldest);
            && Bounded(runs) && |runs| == WRITE_RUNS && runs[0] == oldest
            && (forall k | 1 <= k < |runs| :: runs[k].file == 0 && runs[k].offset >= 2)
            && forall r <- runs :: r.file == 0 || r == oldest
  {
    var runs := EightRuns(oldest);
    assert forall k | 1 <= k < |runs| :: runs[k] == Run(0, 2 * k, [1]);
    hide EightRuns;
    assert Disjoint(runs);
  }

  /** One byte refused for a padding file, and an older byte of another file is
      gone. */
  lemma LostRunExample()
    ensures var st, w := Full(Run(0, 0, [1])), Run(1, 0, [9]);
            Coherent(st) && Accept(st, w).1.Refused? && View(Accept(st, w).0) != View(st)
  {
    hide Full, EightRuns, Coherent, Overlay, Hold, View, Files;
    var r, w := Run(0, 0, [1]), Run(1, 0, [9]);
    var st := FullCoherent(r);
    BoundedOf(st);
    RefusedIff(st, w);
    RefusedKeeps(st, w);
    NotRedundant(st, r);
    assert Lost(st, w) == [r];
  }

  lemma NotRedundant(st: State, r: Run)
    requires NonEmpty(st.held) && st.held != [] && r == Run(0, 0, [1]) && Content(st.disk, 0) == [0]
    requires forall k | 1 <= k < |st.held| :: st.held[k].offset >= 2
    ensures !Redundant(Files(st, Overlay(st.disk, st.held[1..])), r)
  {
    hide Overlay;
    OverlayMiss(st.disk, st.held[1..], 0, 0);
    assert r.bytes[0] == 1;
  }

  /** A byte taken, and answered with the refusal of the padding byte it pushed
      out; with a second byte behind it, that one is left. */
  lemma BorrowedRefusalExample()
    ensures var st, w := Full(Run(1, 0, [9])), Run(2, 0, [5]);
            && Coherent(st) && Accept(st, w).1 == Refused(HoldsNoData) && View(Accept(st, w).0) == Put(View(st), w)
            && WriteVectored(st, 2, 0, [5], [6]).1 == Unwritten(HoldsNoData)
            && View(WriteVectored(st, 2, 0, [5], [6]).0) != Put(View(st), Run(2, 0, [5, 6]))
  {
    hide Full, EightRuns, Coherent, Overlay, Accept, WriteVectored;
    var w := Run(2, 0, [5]);
    var st := FullCoherent(Run(1, 0, [9]));
    BoundedOf(st);
    BorrowedRefusal(st, w);
    CutShortWrite(st, 2, 0, [5], [6]);
    OverlayReach(st.disk, st.held, 2, 1);
    assert |Put(View(st), w)[2]| == 1 && |Put(View(st), Run(2, 0, [5, 6]))[2]| == 2;
  }
}
