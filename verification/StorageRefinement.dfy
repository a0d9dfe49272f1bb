/** The storage behaves like one plain byte string per file, written last
    write wins: exactly when, call by call, and over whole sequences. */
module StorageRefinement {
  import opened Device
  import opened Coalescing
  import opened CoalescingOrder
  import opened StorageSpec
  import opened StorageInvariant

  /** The view once some runs already taken out of the buffer have landed. */
  function Pending(st: State, runs: seq<Run>): Disk {
    Overlay(Overlay(st.disk, runs), st.held)
  }

  // --- The files that can hold data --------------------------------------------

  lemma FilesPut(st: State, d: Disk, r: Run)
    ensures Files(st, Put(d, r)) == if st.Usable(r.file) then Put(Files(st, d), r) else Files(st, d)
  {
  }

  /** What lands in a file that cannot hold data is not seen. */
  lemma {:induction false} FilesOverlay(st: State, a: Disk, b: Disk, runs: seq<Run>)
    requires Files(st, a) == Files(st, b)
    ensures Files(st, Overlay(a, runs)) == Files(st, Overlay(b, runs))
    ensures Files(st, Overlay(a, Live(st, runs))) == Files(st, Overlay(b, runs))
    decreases |runs|
  {
    hide Put, Files;
    if runs != [] {
      var r := runs[0];
      FilesPut(st, a, r);
      FilesPut(st, b, r);
      if st.Usable(r.file) {
        assert Live(st, runs)[0] == r && Live(st, runs)[1..] == Live(st, runs[1..]);
        FilesOverlay(st, Put(a, r), Put(b, r), runs[1..]);
      } else {
        assert Live(st, runs) == Live(st, runs[1..]);
        FilesOverlay(st, Put(a, r), Put(b, r), runs[1..]);
        FilesOverlay(st, a, Put(b, r), runs[1..]);
      }
    }
  }

  /** Two devices that differ inside a write to a file that can hold data look
      different exactly when they are. */
  lemma FilesTell(st: State, a: Disk, b: Disk, w: Run)
    requires st.Usable(w.file) && SameOutside(a, b, w)
    ensures Files(st, a) == Files(st, b) <==> a == b
    ensures SameOutside(Files(st, a), Files(st, b), w)
  {
    assert forall f | f in a :: SameBytesOutside(a[f], b[f], w, f);
    if Files(st, a) == Files(st, b) {
      forall f | f in a ensures a[f] == b[f] {
        if f == w.file {
          assert Files(st, a)[f] == Files(st, b)[f];
        }
      }
    }
  }

  lemma FlushFileView(st: State, f: nat, runs: seq<Run>)
    requires Bounded(st.held) && NonEmpty(runs)
    requires forall x <- runs, y <- st.held :: y.file == f ==> Agree(x, y)
    ensures Pending(FlushFile(st, f), runs) == Pending(st, runs)
  {
    var c := OfFile(f);
    var taken, left := Taken(st.held, c), Left(st.held, c);
    TakenMembers(st.held, c);
    TakenFirst(Overlay(st.disk, runs), st.held, c);
    forall y <- taken, x <- runs
      ensures Agree(y, x)
    {
      assert Agree(x, y);
    }
    OverlayCommute(st.disk, taken, runs);
  }

  lemma {:induction false} EvictView(st: State, victims: seq<nat>, runs: seq<Run>)
    requires Bounded(st.held) && NonEmpty(runs)
    requires forall x <- runs, y <- st.held :: y.file in victims ==> Agree(x, y)
    ensures Pending(Evict(st, victims), runs) == Pending(st, runs)
    decreases |victims|
  {
    if victims != [] {
      var v := victims[0];
      assert victims == [v] + victims[1..];
      FlushFileView(st, v, runs);
      LeftBounded(st.held, OfFile(v));
      EvictView(SetMode(FlushFile(st, v), v, Closed), victims[1..], runs);
    }
  }

  /** Opening a file for writing moves held bytes to the device and brings the
      file into existence. It changes nothing else a reader could see. */
  lemma OpeningView(st: State, f: nat, runs: seq<Run>)
    requires Tracked(st) && Bounded(st.held) && st.Usable(f) && NonEmpty(runs)
    requires forall x <- runs, y <- st.held :: y.file != f ==> Agree(x, y)
    ensures Pending(EnsureOpen(st, f, WriteIt).0, runs) == Create(Pending(st, runs), f)
  {
    if NeedsOpening(st, f, WriteIt) {
      OpeningTracked(st, f, WriteIt);
      OpeningEffect(st, f, WriteIt);
      var evicted := Evict(st.(order := Survivors(st, f)), Victims(st, f));
      EvictEffect(st.(order := Survivors(st, f)), Victims(st, f));
      EvictView(st.(order := Survivors(st, f)), Victims(st, f), runs);
      OverlayCreate(evicted.disk, runs, f);
      OverlayCreate(Overlay(evicted.disk, runs), evicted.held, f);
    } else {
      assert st.IsOpen(f);
      OverlayGrows(st.disk, runs);
      OverlayGrows(Overlay(st.disk, runs), st.held);
    }
  }

  /** A run taken out may contradict a held one only while every file written
      so far has its handle, so that nothing is evicted in between. */
  ghost predicate Clear(st: State, runs: seq<Run>) {
    forall j: nat, y | j < |runs| && y in st.held :: Agree(runs[j], y) || Ready(st, runs, j)
  }

  ghost predicate Ready(st: State, runs: seq<Run>, j: nat)
    requires j < |runs|
  {
    forall i | 0 <= i <= j :: st.IsWritable(runs[i].file)
  }

  lemma ReadyFirst(st: State, runs: seq<Run>, j: nat)
    requires j < |runs|
    ensures Ready(st, runs, j) ==> st.IsWritable(runs[0].file)
  {
  }

  lemma OverlayOne(d: Disk, r: Run)
    ensures Overlay(d, [r]) == Put(d, r)
  {
    assert [r][1..] == [];
  }

  lemma LandStep(st: State, runs: seq<Run>)
    requires runs != []
    ensures Pending(Land(st, [runs[0]]), runs[1..]) == Pending(st, runs)
  {
    OverlayOne(st.disk, runs[0]);
  }

  /** Every file that can hold data is there when one of the runs is its. */
  ghost predicate AllThere(st: State, runs: seq<Run>) {
    forall r <- runs :: st.Usable(r.file) ==> r.file in st.disk
  }

  /** Opening the file of the first taken run disturbs none of them. */
  lemma OpenFirst(st: State, runs: seq<Run>) returns (open: State)
    requires Coherent(st) && NonEmpty(runs) && Clear(st, runs) && runs != []
    requires AllThere(st, runs) && st.Usable(runs[0].file)
    ensures open == EnsureOpen(st, runs[0].file, WriteIt).0
    ensures Coherent(open) && SamePaths(open, st) && open.disk.Keys >= st.disk.Keys
    ensures Pending(open, runs) == Pending(st, runs)
    ensures Clear(open, runs[1..])
  {
    var r := runs[0];
    assert r in runs;
    OpenedForWriting(st, r.file);
    open := EnsureOpen(st, r.file, WriteIt).0;
    if st.IsWritable(r.file) {
      assert open == st;
      forall j: nat, y | j < |runs[1..]| && y in open.held
        ensures Agree(runs[1..][j], y) || Ready(open, runs[1..], j)
      {
        if !Agree(runs[j + 1], y) {
          assert Ready(st, runs, j + 1);
          assert forall i | 0 <= i <= j :: runs[1..][i] == runs[i + 1];
        }
      }
    } else {
      AllAgree(st, runs);
      OpeningView(st, r.file, runs);
      OverlayGrows(st.disk, runs);
      OverlayGrows(Overlay(st.disk, runs), st.held);
    }
  }

  /** With the first run's handle gone, no run contradicts a held one. */
  lemma AllAgree(st: State, runs: seq<Run>)
    requires Clear(st, runs) && runs != [] && !st.IsWritable(runs[0].file)
    ensures forall j, y | 0 <= j < |runs| && y in st.held :: Agree(runs[j], y)
  {
    forall j: nat, y | j < |runs| && y in st.held
      ensures Agree(runs[j], y)
    {
      ReadyFirst(st, runs, j);
    }
  }

  /** Writing the taken runs out, evictions and refusals and all, puts those
      that can be written under the held bytes and moves nothing else. */
  lemma {:induction false} WriteAllView(st: State, runs: seq<Run>)
    requires Coherent(st) && NonEmpty(runs) && Clear(st, runs) && AllThere(st, runs)
    ensures View(WriteAll(st, runs).0) == Files(st, Pending(st, runs))
    decreases |runs|
  {
    hide Coherent, Clear, Files;
    if runs != [] {
      var r := runs[0];
      assert r in runs;
      if st.Usable(r.file) {
        var open := OpenFirst(st, runs);
        LandStep(open, runs);
        LandsNext(st, open, runs);
        WriteAllView(Land(open, [r]), runs[1..]);
        SameFiles(st, Land(open, [r]), Pending(st, runs));
      } else {
        SkipsNext(st, runs);
        WriteAllView(st, runs[1..]);
        FilesPut(st, st.disk, r);
        FilesOverlay(st, Put(st.disk, r), st.disk, runs[1..]);
        FilesOverlay(st, Overlay(st.disk, runs), Overlay(st.disk, runs[1..]), st.held);
      }
    }
  }

  lemma SameFiles(a: State, b: State, d: Disk)
    requires SamePaths(a, b)
    ensures Files(a, d) == Files(b, d)
  {
  }

  lemma LandsNext(st: State, open: State, runs: seq<Run>)
    requires runs != [] && Coherent(open) && SamePaths(open, st) && open.disk.Keys >= st.disk.Keys
    requires NonEmpty(runs) && Clear(open, runs[1..]) && AllThere(st, runs)
    ensures var next := Land(open, [runs[0]]);
            && Coherent(next) && SamePaths(next, st) && NonEmpty(runs[1..]) && Clear(next, runs[1..])
            && AllThere(next, runs[1..])
  {
    hide Overlay, Agree;
    OverlayGrows(open.disk, [runs[0]]);
    assert forall r <- runs[1..] :: r in runs;
    LandsCoherent(open, runs[0]);
    LandsClear(open, runs);
  }

  lemma LandsCoherent(st: State, r: Run)
    requires Coherent(st)
    ensures Coherent(Land(st, [r]))
  {
    OverlayGrows(st.disk, [r]);
  }

  lemma LandsClear(st: State, runs: seq<Run>)
    requires runs != [] && Clear(st, runs[1..])
    ensures Clear(Land(st, [runs[0]]), runs[1..])
  {
    var next := Land(st, [runs[0]]);
    forall j: nat, y | j < |runs[1..]| && y in next.held
      ensures Agree(runs[1..][j], y) || Ready(next, runs[1..], j)
    {
      assert Ready(st, runs[1..], j) ==> Ready(next, runs[1..], j);
    }
  }

  lemma WritableUsable(st: State, f: nat)
    requires Coherent(st)
    ensures st.IsWritable(f) ==> st.Usable(f)
  {
    assert st.IsWritable(f) ==> st.IsOpen(f);
  }

  lemma SkipsNext(st: State, runs: seq<Run>)
    requires runs != [] && Coherent(st) && !st.Usable(runs[0].file)
    requires NonEmpty(runs) && Clear(st, runs) && AllThere(st, runs)
    ensures NonEmpty(runs[1..]) && Clear(st, runs[1..]) && AllThere(st, runs[1..])
  {
    assert forall r <- runs[1..] :: r in runs;
    WritableUsable(st, runs[0].file);
    AllAgree(st, runs);
  }

  /** What a buffered write displaces goes out in a safe order: first the runs
      of its own file, then runs nothing held contradicts. */
  lemma HoldClear(runs: seq<Run>, w: Run)
    requires Bounded(runs) && w.bytes != []
    ensures var (held, out) := Hold(runs, w);
            forall j, y | 0 <= j < |out| && y in held ::
              Agree(out[j], y) || forall i | 0 <= i <= j :: out[i].file == w.file
  {
    var s := Scan(runs, w, false);
    var (held, out) := Hold(runs, w);
    ScanOwnFile(runs, w, false);
    if !s.extended {
      ScanUnextended(runs, w, false);
      ScanApart(runs, w, false);
      var e := Excess(|s.kept|);
      forall j, y | 0 <= j < |out| && y in held
        ensures Agree(out[j], y) || forall i | 0 <= i <= j :: out[i].file == w.file
      {
        if j < |s.out| {
          assert forall i | 0 <= i <= j :: out[i] == s.out[i];
        } else {
          var k := j - |s.out|;
          assert out[j] == s.kept[k] && s.kept[k] in s.kept;
          if y in s.kept[e..] {
            var n :| e <= n < |s.kept| && s.kept[n] == y;
            assert Apart(s.kept[k], s.kept[n]);
          }
        }
      }
    }
  }

  lemma {:induction false} ScanOwnFile(runs: seq<Run>, w: Run, extended: bool)
    ensures forall x <- Scan(runs, w, extended).out :: x.file == w.file
    decreases |runs|
  {
    if runs != [] {
      ScanOwnFile(runs[1..], w, extended || Extends(runs[0], w));
    }
  }

  lemma PutCreated(d: Disk, w: Run)
    ensures Put(Create(d, w.file), w) == Put(d, w)
  {
  }

  /** A buffered write up to the point where its file is open. */
  lemma BufferedOpens(st: State, w: Run) returns (open: State, out: seq<Run>)
    requires Coherent(st) && w.bytes != [] && !PassesThrough(w) && st.Usable(w.file)
    ensures out == Hold(st.held, w).1 && open == EnsureOpen(st.(held := Hold(st.held, w).0), w.file, WriteIt).0
    ensures Coherent(open) && SamePaths(open, st) && NonEmpty(out) && Clear(open, out) && AllThere(open, out)
    ensures Pending(open, out) == Create(Pending(st.(held := Hold(st.held, w).0), out), w.file)
  {
    hide Hold, Overlay;
    var held := Hold(st.held, w).0;
    out := Hold(st.held, w).1;
    var buffered := st.(held := held);
    HoldBounded(st.held, w);
    HoldApart(st.held, w);
    HoldClear(st.held, w);
    HoldIff(st.disk, st.held, w);
    HeldUsable(st);
    assert forall x <- out :: x in out + held;
    assert forall x <- held :: x in out + held;
    OpenedForWriting(buffered, w.file);
    OpeningView(buffered, w.file, out);
    open := EnsureOpen(buffered, w.file, WriteIt).0;
    assert open.IsOpen(w.file);
  }

  lemma BufferedReady(st: State, w: Run)
    requires Coherent(st) && w.bytes != [] && !PassesThrough(w) && st.Usable(w.file)
    ensures Coherent(EnsureOpen(st.(held := Hold(st.held, w).0), w.file, WriteIt).0)
  {
    var open, out := BufferedOpens(st, w);
  }

  /** A buffered write from start to finish: what it displaced goes under what
      is held afterwards. */
  lemma BufferedView(st: State, w: Run)
    requires Coherent(st) && w.bytes != [] && !PassesThrough(w) && st.Usable(w.file)
    ensures var (held, out) := Hold(st.held, w);
            && NonEmpty(held) && NonEmpty(out)
            && View(Accept(st, w).0) == Files(st, Overlay(Overlay(Create(st.disk, w.file), out), held))
  {
    hide Hold, Clear, AllThere, Coherent, Files;
    var open, out := BufferedOpens(st, w);
    WriteAllView(open, out);
    BufferedDone(st, w);
    HoldIffBounded(st, w);
    OverlayCreate(st.disk, out, w.file);
    OverlayCreate(Overlay(st.disk, out), Hold(st.held, w).0, w.file);
    SameFiles(st, open, Pending(open, out));
  }

  lemma BufferedDone(st: State, w: Run)
    requires w.bytes != [] && !PassesThrough(w) && st.Usable(w.file)
    ensures var (held, displaced) := Hold(st.held, w);
            Accept(st, w).0 == WriteAll(EnsureOpen(st.(held := held), w.file, WriteIt).0, displaced).0
  {
    hide Hold, WriteAll, EnsureOpen;
  }

  lemma HoldIffBounded(st: State, w: Run)
    requires Coherent(st) && w.bytes != []
    ensures NonEmpty(Hold(st.held, w).0) && NonEmpty(Hold(st.held, w).1) && NonEmpty(st.held) && Disjoint(st.held)
  {
    HoldIff(st.disk, st.held, w);
  }

  /** The view with a write put on top, and the device the write would leave. */
  lemma PutView(st: State, w: Run)
    requires Coherent(st) && w.bytes != [] && st.Usable(w.file)
    ensures Put(View(st), w) == Files(st, Put(Overlay(Create(st.disk, w.file), st.held), w))
  {
    HoldIffBounded(st, w);
    OverlayCreate(st.disk, st.held, w.file);
    PutCreated(Overlay(st.disk, st.held), w);
    FilesPut(st, Overlay(st.disk, st.held), w);
  }

  /** A small write: the view gains it on top exactly when it is faithful, and
      in every case differs from that only inside the write. */
  lemma BufferedIff(st: State, w: Run)
    requires Coherent(st) && w.bytes != [] && !PassesThrough(w) && st.Usable(w.file)
    ensures View(Accept(st, w).0) == Put(View(st), w) <==> Faithful(st.held, w)
    ensures SameOutside(View(Accept(st, w).0), Put(View(st), w), w)
  {
    hide Hold, Coherent, Accept, View, Files, Overlay, Put;
    BufferedView(st, w);
    PutView(st, w);
    BoundedOf(st);
    HoldIff(Create(st.disk, w.file), st.held, w);
    var (held, out) := Hold(st.held, w);
    var was := Create(st.disk, w.file);
    FilesTell(st, Overlay(Overlay(was, out), held), Put(Overlay(was, st.held), w), w);
    FaithfulSmall(st, w);
  }

  lemma BoundedOf(st: State)
    requires Coherent(st)
    ensures Bounded(st.held) && NonEmpty(st.held) && Disjoint(st.held)
  {
  }

  lemma FaithfulSmall(st: State, w: Run)
    requires !PassesThrough(w)
    ensures Faithful(st.held, w) <==> forall r <- BehindFilled(st.held, w) :: Agree(w, r)
  {
  }

  /** A large write: it goes under every byte still held for its file. */
  lemma PassThroughIff(st: State, w: Run)
    requires Coherent(st) && PassesThrough(w) && st.Usable(w.file)
    ensures View(Accept(st, w).0) == Put(View(st), w) <==> Faithful(st.held, w)
    ensures SameOutside(View(Accept(st, w).0), Put(View(st), w), w)
  {
    hide Agree, Overlay, Put, Files, EnsureOpen, Coherent, SameOutside;
    var open := PassedOpens(st, w);
    LateIff(open.disk, open.held, w);
    LateOutside(open.disk, open.held, w);
    PutCreated(Overlay(st.disk, st.held), w);
    FilesPut(st, Overlay(st.disk, st.held), w);
    FilesTell(st, Overlay(Put(open.disk, w), open.held), Put(Overlay(open.disk, open.held), w), w);
    StillHeld(st, w);
  }

  lemma PassedOpens(st: State, w: Run) returns (open: State)
    requires Coherent(st) && PassesThrough(w) && st.Usable(w.file)
    ensures open == EnsureOpen(st, w.file, WriteIt).0
    ensures NonEmpty(open.held) && Disjoint(open.held)
    ensures Overlay(open.disk, open.held) == Create(Overlay(st.disk, st.held), w.file)
    ensures View(Accept(st, w).0) == Files(st, Overlay(Put(open.disk, w), open.held))
  {
    hide Agree, EnsureOpen;
    OpenedForWriting(st, w.file);
    OpeningView(st, w.file, []);
    open := EnsureOpen(st, w.file, WriteIt).0;
    OverlayOne(open.disk, w);
    BoundedOf(open);
    SameFiles(st, open, Overlay(Put(open.disk, w), open.held));
  }

  lemma StillHeld(st: State, w: Run)
    requires Coherent(st) && st.Usable(w.file)
    ensures (forall r <- EnsureOpen(st, w.file, WriteIt).0.held :: Agree(w, r)) <==> forall r <- st.held :: Agree(w, r)
  {
    EnsureOpenKeeps(st, w.file, WriteIt);
    forall r <- st.held
      ensures Agree(w, r) || r in EnsureOpen(st, w.file, WriteIt).0.held
    {
    }
  }

  /** The exact condition of last write wins, for every accepted write. */
  lemma AcceptIff(st: State, w: Run)
    requires Coherent(st) && w.bytes != [] && st.Usable(w.file)
    ensures View(Accept(st, w).0) == Put(View(st), w) <==> Faithful(st.held, w)
  {
    if PassesThrough(w) {
      PassThroughIff(st, w);
    } else {
      BufferedIff(st, w);
    }
  }

  /** Whatever order it lands in, a write never harms a byte outside itself. */
  lemma AcceptConfined(st: State, w: Run)
    requires Coherent(st) && w.bytes != [] && st.Usable(w.file)
    ensures SameOutside(View(Accept(st, w).0), Put(View(st), w), w)
  {
    if PassesThrough(w) {
      PassThroughIff(st, w);
    } else {
      BufferedIff(st, w);
    }
  }
}
