/** What a read, a flush and a removal answer and leave, against the view. */
module StorageReads {
  import opened Device
  import opened Coalescing
  import opened StorageSpec
  import opened StorageInvariant
  import opened StorageRefinement

  // --- Reads -----------------------------------------------------------------

  /** The position is inside the device file, or inside a held run. */
  ghost predicate Reached(st: State, f: nat, i: nat) {
    i < |Content(st.disk, f)| || CoveredBy(st.held, f, i)
  }

  ghost predicate Reaches(st: State, f: nat, at: nat, len: nat) {
    len == 0 || Reached(st, f, at + len - 1)
  }

  lemma {:induction false} EvictContent(st: State, victims: seq<nat>, f: nat)
    requires f !in victims
    ensures Content(Evict(st, victims).disk, f) == Content(st.disk, f)
    decreases |victims|
  {
    if victims != [] {
      var v := victims[0];
      assert victims == [v] + victims[1..];
      TakenMembers(st.held, OfFile(v));
      OverlayElsewhere(st.disk, Taken(st.held, OfFile(v)), f);
      EvictContent(SetMode(FlushFile(st, v), v, Closed), victims[1..], f);
    }
  }

  lemma {:induction false} OverlayElsewhere(d: Disk, runs: seq<Run>, f: nat)
    requires forall r <- runs :: r.file != f
    ensures Content(Overlay(d, runs), f) == Content(d, f)
    decreases |runs|
  {
    if runs != [] {
      OverlayElsewhere(Put(d, runs[0]), runs[1..], f);
    }
  }

  /** Opening for a read shows the reader the device file as it was. */
  lemma OpenForRead(st: State, f: nat)
    requires Coherent(st) && st.Usable(f)
    ensures var (out, there) := EnsureOpen(st, f, ReadIt);
            && SamePaths(out, st) && View(out) == View(st) && there == (f in st.disk)
            && Content(out.disk, f) == Content(st.disk, f)
            && (forall r <- out.held :: r in st.held)
            && Bounded(out.held)
  {
    EnsureOpenKeeps(st, f, ReadIt);
    if NeedsOpening(st, f, ReadIt) {
      OpeningTracked(st, f, ReadIt);
      var ordered := st.(order := Survivors(st, f));
      EvictView(ordered, Victims(st, f), []);
      EvictContent(ordered, Victims(st, f), f);
      SameFiles(EnsureOpen(st, f, ReadIt).0, st, Overlay(st.disk, st.held));
    }
  }

  /** Everything that touches the range is on the device before the read, and
      a file that cannot hold data has nothing to put there. */
  lemma FlushOverlapping(st: State, c: Claim) returns (out: State)
    requires Coherent(st)
    ensures WriteAll(st.(held := Left(st.held, c)), Taken(st.held, c)) == (out, FirstRefusal(st, Taken(st.held, c)))
    ensures Coherent(out) && SamePaths(out, st) && View(out) == View(st)
    ensures out.held == Left(st.held, c) && out.slots == st.slots && out.order == st.order && out.cap == st.cap
    ensures out.disk == Overlay(st.disk, Live(st, Taken(st.held, c)))
  {
    hide Coherent, Files, Overlay;
    var taken := Taken(st.held, c);
    LeftKeeps(st, c);
    TakenReady(st, c);
    var kept := st.(held := Left(st.held, c));
    WriteAllKeeps(kept, taken);
    WriteAllOpen(kept, taken);
    SameRefusals(kept, st, taken);
    BoundedOf(st);
    TakenFirst(st.disk, st.held, c);
    out := WriteAll(kept, taken).0;
    FilesOverlay(st, st.disk, st.disk, taken);
    FilesOverlay(st, Overlay(st.disk, Live(st, taken)), Overlay(st.disk, taken), kept.held);
    SameFiles(out, st, Overlay(out.disk, out.held));
  }

  lemma LandOne(st: State, r: Run, rest: seq<Run>)
    ensures Land(Land(st, [r]), rest) == Land(st, [r] + rest)
  {
    OverlayOne(st.disk, r);
    assert ([r] + rest)[1..] == rest;
    assert Weight([r]) == |r.bytes|;
  }

  /** Runs whose files have their handles are written with nothing evicted,
      the others are refused and leave no trace. */
  lemma {:induction false} WriteAllOpen(st: State, runs: seq<Run>)
    requires AllWritable(st, runs)
    ensures WriteAll(st, runs) == (Land(st, Live(st, runs)), FirstRefusal(st, runs))
    decreases |runs|
  {
    if runs != [] {
      var r, rest := runs[0], runs[1..];
      assert runs == [r] + rest;
      if st.Usable(r.file) {
        var next := Land(st, [r]);
        LandOne(st, r, Live(st, rest));
        WriteAllOpen(next, rest);
        SameRefusals(next, st, rest);
      } else {
        assert Live(st, runs) == Live(st, rest);
        WriteAllOpen(st, rest);
      }
    }
  }

  lemma TakenReady(st: State, c: Claim)
    requires Coherent(st)
    ensures AllWritable(st, Taken(st.held, c))
    ensures AllWritable(st.(held := Left(st.held, c)), Taken(st.held, c))
  {
    TakenMembers(st.held, c);
    HeldUsable(st);
  }

  lemma TakenReach(st: State, f: nat, at: nat, len: nat)
    requires Coherent(st) && len > 0 && st.Usable(f)
    ensures var taken := Live(st, Taken(st.held, Touching(f, at, len)));
            at + len <= |Content(Overlay(st.disk, taken), f)| <==> Reaches(st, f, at, len)
  {
    var c := Touching(f, at, len);
    TakenMembers(st.held, c);
    RefusalIff(st, Taken(st.held, c));
    OverlayReach(st.disk, Taken(st.held, c), f, at + len);
    if r :| r in st.held && r.Covers(f, at + len - 1) {
      assert r in Taken(st.held, c);
    }
  }

  /** A read never changes the contents, and answers exactly when the file
      exists and the range reaches no further than what was written. The answer
      is then that of the contents. */
  lemma ReadExact(st: State, f: nat, at: nat, len: nat)
    requires Coherent(st)
    ensures View(Read(st, f, at, len).0) == View(st)
    ensures Read(st, f, at, len).1.Ok? <==> f in View(st) && Reaches(st, f, at, len)
    ensures var r := Read(st, f, at, len).1;
            r.Ok? && len > 0 ==> at + len <= |View(st)[f]| && r.value == View(st)[f][at..at + len]
    ensures var r := Read(st, f, at, len).1; r.Ok? && len == 0 ==> r.value == []
  {
    hide Coherent, Files, Overlay, WriteAll, EnsureOpen, Reaches;
    var c := Touching(f, at, len);
    var flushed := FlushOverlapping(st, c);
    TakenAnswer(st, c);
    ViewKeys(st, f);
    ViewKeys(flushed, f);
    if st.Usable(f) {
      OpenForRead(flushed, f);
      var ready := EnsureOpen(flushed, f, ReadIt).0;
      SameFiles(Read(st, f, at, len).0, ready, Overlay(ready.disk, ready.held));
      if len > 0 {
        TakenReach(st, f, at, len);
        if at + len <= |Content(ready.disk, f)| {
          TakenMembers(st.held, c);
          RangeOnDevice(ready, f, at, len);
        }
      } else {
        assert Reaches(st, f, at, 0) by {
          EmptyReaches(st, f, at);
        }
      }
    }
  }

  lemma EmptyReaches(st: State, f: nat, at: nat)
    ensures Reaches(st, f, at, 0)
  {
  }

  /** What is taken for a read is refused exactly when the read is. */
  lemma TakenAnswer(st: State, c: Claim)
    ensures FirstRefusal(st, Taken(st.held, c)).Refused? ==> !st.Usable(c.file)
  {
    TakenMembers(st.held, c);
    RefusalIff(st, Taken(st.held, c));
  }

  /** With no held run touching the range, the device and the contents agree
      on it. */
  lemma RangeOnDevice(st: State, f: nat, at: nat, len: nat)
    requires Bounded(st.held) && st.Usable(f) && len > 0 && at + len <= |Content(st.disk, f)|
    requires forall r <- st.held :: !r.Overlaps(f, at, len)
    ensures at + len <= |Content(View(st), f)|
    ensures Content(View(st), f)[at..at + len] == Content(st.disk, f)[at..at + len]
  {
    var seen := Overlay(st.disk, st.held);
    OverlayReach(st.disk, st.held, f, at + len);
    forall i: nat | at <= i < at + len
      ensures Content(seen, f)[i] == Content(st.disk, f)[i]
    {
      OverlayMiss(st.disk, st.held, f, i);
    }
    OverlayGrows(st.disk, st.held);
    assert Content(View(st), f) == Content(seen, f);
  }

  lemma ViewKeys(st: State, f: nat)
    requires Coherent(st)
    ensures f in View(st) <==> st.Usable(f) && f in st.disk
  {
    HeldUsable(st);
    OverlayKeys(st.disk, st.held, f);
  }

  /** A range past the device but short of a held run further on is a hole the
      view reads as zeros and the device refuses. */
  lemma HoleIsRefused()
    ensures var st := State(1, map[0 := []], [Run(0, 100, [7])], [0], [Slot(true, Writable)], Tally(0, 0, 0, 0, 0));
            Coherent(st) && |View(st)[0]| == 101 && Read(st, 0, 50, 1).1.Failed?
  {
    var r := Run(0, 100, [7]);
    var st := State(1, map[0 := []], [r], [0], [Slot(true, Writable)], Tally(0, 0, 0, 0, 0));
    assert st.held[0] == r;
    assert Coherent(st);
    OverlayOne(st.disk, r);
    ReadExact(st, 0, 50, 1);
  }

  // --- Flushes and removals ---------------------------------------------------

  /** After a flush nothing is held, and the files have what device and held
      runs had together. Every run that can be written is, also past one that
      is refused, and the first refusal is the answer. */
  lemma FlushAllView(st: State)
    requires Coherent(st)
    ensures var (out, r) := FlushAll(st);
            && Coherent(out) && SamePaths(out, st) && out.held == []
            && Files(out, out.disk) == View(st) && View(out) == View(st)
            && out.disk == Overlay(st.disk, Live(st, st.held))
            && r == FirstRefusal(st, st.held)
  {
    hide Coherent, Files, Overlay;
    FlushAllKeeps(st);
    AllTaken(st);
    var kept := st.(held := []);
    WriteAllOpen(kept, st.held);
    SameRefusals(kept, st, st.held);
    var out := FlushAll(st).0;
    FilesOverlay(st, st.disk, st.disk, st.held);
    SameFiles(out, st, out.disk);
    OverlayNone(out.disk);
  }

  lemma OverlayNone(d: Disk)
    ensures Overlay(d, []) == d
  {
  }

  lemma AllTaken(st: State)
    requires Coherent(st)
    ensures AllWritable(st, st.held) && AllWritable(st.(held := []), st.held)
  {
    HeldUsable(st);
  }

  /** A removal takes the file out of the contents, held bytes and all, and no
      other file changes. */
  lemma RemoveView(st: State, f: nat)
    requires Coherent(st)
    ensures View(Remove(st, f).0) == View(st) - {f}
  {
    hide Coherent, Overlay, Left;
    if st.Usable(f) {
      OverlayRemove(st.disk, st.held, f);
      SameFiles(Remove(st, f).0, st, Overlay(st.disk, st.held) - {f});
    }
  }
}
