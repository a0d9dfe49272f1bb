/** The cache invariant: what every storage operation keeps. */
module StorageInvariant {
  import opened Device
  import opened Coalescing
  import CoalescingOrder
  import opened OpenFiles
  import opened StorageSpec

  lemma {:induction false} OverlayGrows(d: Disk, runs: seq<Run>)
    ensures Overlay(d, runs).Keys >= d.Keys
    decreases |runs|
  {
    if runs != [] {
      OverlayGrows(Put(d, runs[0]), runs[1..]);
    }
  }

  lemma LeftBounded(runs: seq<Run>, c: Claim)
    requires Bounded(runs)
    ensures Bounded(Left(runs, c)) && Disjoint(Taken(runs, c))
    ensures |Left(runs, c)| <= |runs|
    ensures forall r :: r in Left(runs, c) <==> r in runs && !c.Takes(r)
    ensures forall r :: r in Taken(runs, c) <==> r in runs && c.Takes(r)
  {
    TakenMembers(runs, c);
    TakenDisjoint(runs, c);
    TakenWeight(runs, c);
  }

  /** One file closed, its held runs written first. */
  lemma EvictOne(st: State, v: nat) returns (next: State)
    requires Bounded(st.held)
    ensures next == SetMode(FlushFile(st, v), v, Closed)
    ensures next.cap == st.cap && next.order == st.order && |next.slots| == |st.slots|
    ensures forall f | 0 <= f < |st.slots| ::
              next.slots[f] == if f == v then st.slots[f].(mode := Closed) else st.slots[f]
    ensures next.disk.Keys >= st.disk.Keys
    ensures Bounded(next.held) && |next.held| <= |st.held|
    ensures forall r :: r in next.held <==> r in st.held && r.file != v
  {
    hide Overlay, Disjoint, Taken, Left;
    LeftBounded(st.held, OfFile(v));
    OverlayGrows(st.disk, Taken(st.held, OfFile(v)));
    next := SetMode(FlushFile(st, v), v, Closed);
  }

  /** What eviction closes, what it leaves alone, and what it stops holding. */
  lemma {:induction false} EvictEffect(st: State, victims: seq<nat>)
    requires Bounded(st.held)
    ensures var out := Evict(st, victims);
            && |out.slots| == |st.slots| && out.cap == st.cap && out.order == st.order
            && (forall f | 0 <= f < |st.slots| ::
                  out.slots[f] == if f in victims then st.slots[f].(mode := Closed) else st.slots[f])
            && out.disk.Keys >= st.disk.Keys
            && Bounded(out.held)
            && |out.held| <= |st.held|
            && (forall r :: r in out.held <==> r in st.held && r.file !in victims)
    decreases |victims|
  {
    if victims != [] {
      hide FlushFile, Bounded, SetMode;
      var v := victims[0];
      assert victims == [v] + victims[1..];
      var next := EvictOne(st, v);
      EvictEffect(next, victims[1..]);
    }
  }

  /** The runs that go out, file by file. */
  function Evicted(runs: seq<Run>, victims: seq<nat>): seq<Run>
    decreases |victims|
  {
    if victims == [] then []
    else Taken(runs, OfFile(victims[0])) + Evicted(Left(runs, OfFile(victims[0])), victims[1..])
  }

  /** Eviction writes exactly the held runs of the files it closes, each file's
      before it is closed. */
  lemma {:induction false} EvictLands(st: State, victims: seq<nat>)
    requires Bounded(st.held)
    ensures NonEmpty(Evicted(st.held, victims))
    ensures Evict(st, victims).disk == Overlay(st.disk, Evicted(st.held, victims))
    ensures forall r :: r in Evicted(st.held, victims) <==> r in st.held && r.file in victims
    decreases |victims|
  {
    if victims != [] {
      var c := OfFile(victims[0]);
      assert victims == [victims[0]] + victims[1..];
      LeftBounded(st.held, c);
      EvictLands(SetMode(FlushFile(st, victims[0]), victims[0], Closed), victims[1..]);
      OverlayAppend(st.disk, Taken(st.held, c), Evicted(Left(st.held, c), victims[1..]));
    }
  }

  predicate NeedsOpening(st: State, f: nat, intent: Intent) {
    st.Usable(f) && !st.slots[f].Enough(intent) && (intent == WriteIt || f in st.disk)
  }

  /** The state after a file had to be opened, field by field. */
  lemma OpeningEffect(st: State, f: nat, intent: Intent)
    requires Tracked(st) && Bounded(st.held) && NeedsOpening(st, f, intent)
    ensures var (out, there) := EnsureOpen(st, f, intent);
            && there && out.cap == st.cap && out.order == Survivors(st, f)
            && |out.slots| == |st.slots|
            && (forall g | 0 <= g < |st.slots| ::
                  out.slots[g] == if g == f then Slot(true, if intent == WriteIt then Writable else ReadOnly)
                                  else if g in Victims(st, f) then st.slots[g].(mode := Closed)
                                  else st.slots[g])
            && out.disk.Keys >= st.disk.Keys && f in out.disk
            && Bounded(out.held)
            && |out.held| <= |st.held|
            && (forall r :: r in out.held <==> r in st.held && r.file !in Victims(st, f))
  {
    OpenedBounds(st.order, f, st.cap);
    EvictEffect(st.(order := Survivors(st, f)), Victims(st, f));
  }

  lemma OpeningTracked(st: State, f: nat, intent: Intent)
    requires Tracked(st) && Bounded(st.held) && NeedsOpening(st, f, intent)
    ensures Tracked(EnsureOpen(st, f, intent).0)
    ensures f !in Victims(st, f)
  {
    OpeningEffect(st, f, intent);
    OpenedBounds(st.order, f, st.cap);
    var out := EnsureOpen(st, f, intent).0;
    forall g: nat
      ensures g in out.order <==> out.IsOpen(g)
      ensures out.IsOpen(g) ==> out.slots[g].hasPath && g in out.disk
    {
      assert g in st.order <==> st.IsOpen(g);
      assert g in Survivors(st, f) <==> (g in st.order || g == f) && g !in Victims(st, f);
    }
  }

  /** Opening keeps the order, the slots and the held runs in step. */
  lemma EnsureOpenKeeps(st: State, f: nat, intent: Intent)
    requires Tracked(st) && Bounded(st.held) && BackedBut(st, f) && st.Usable(f)
    ensures var (out, there) := EnsureOpen(st, f, intent);
            && Tracked(out) && Bounded(out.held) && BackedBut(out, f)
            && |out.slots| == |st.slots|
            && (forall g | 0 <= g < |st.slots| :: out.slots[g].hasPath == st.slots[g].hasPath)
            && out.disk.Keys >= st.disk.Keys
            && (there ==> out.slots[f].Enough(intent))
            && (there <==> intent == WriteIt || f in st.disk)
    ensures var held := EnsureOpen(st, f, intent).0.held;
            && |held| <= |st.held|
            && (forall r <- held :: r in st.held)
            && (forall r <- st.held :: r.file == f ==> r in held)
  {
    if NeedsOpening(st, f, intent) {
      OpeningEffect(st, f, intent);
      OpeningTracked(st, f, intent);
    }
  }

  /** Once the file is open for writing, no run is left without a handle. */
  lemma OpenedForWriting(st: State, f: nat)
    requires Tracked(st) && Bounded(st.held) && BackedBut(st, f) && st.Usable(f)
    ensures var out := EnsureOpen(st, f, WriteIt).0;
            && Coherent(out) && SamePaths(out, st) && out.IsWritable(f)
            && out.disk.Keys >= st.disk.Keys
            && |out.held| <= |st.held|
            && (forall x <- out.held :: x in st.held)
  {
    EnsureOpenKeeps(st, f, WriteIt);
    var out := EnsureOpen(st, f, WriteIt).0;
    forall r <- out.held
      ensures !out.Usable(r.file) || out.IsWritable(r.file)
    {
    }
  }

  lemma BackedUsable(st: State, f: nat)
    requires Tracked(st) && BackedBut(st, f)
    ensures forall r <- st.held :: r.file == f || (st.Usable(r.file) <==> st.IsWritable(r.file))
  {
    forall r <- st.held
      ensures r.file == f || (st.Usable(r.file) <==> st.IsWritable(r.file))
    {
      assert st.IsWritable(r.file) ==> st.IsOpen(r.file);
    }
  }

  /** The files about to close can take their held runs. */
  lemma VictimsReady(st: State, f: nat)
    requires Tracked(st) && BackedBut(st, f) && st.Usable(f)
    ensures f !in Victims(st, f)
    ensures forall v <- Victims(st, f) :: st.IsOpen(v)
    ensures forall r <- st.held :: r.file in Victims(st, f) ==> st.IsWritable(r.file) && st.Usable(r.file)
  {
    BackedUsable(st, f);
    OpenedBounds(st.order, f, st.cap);
    WithoutMembers(st.order, f);
    assert forall v <- Pushed(st.order, f) :: v == f || st.IsOpen(v);
  }

  lemma WriteAllNext(st: State, runs: seq<Run>, i: nat)
    requires i < |runs|
    ensures var next := WriteThrough(st, runs[i]);
            && WriteAll(st, runs[i..]).0 == WriteAll(next.0, runs[i + 1..]).0
            && WriteAll(st, runs[i..]).1 == if next.1.Refused? then next.1 else WriteAll(next.0, runs[i + 1..]).1
  {
    assert runs[i..][0] == runs[i] && runs[i..][1..] == runs[i + 1..];
  }

  ghost predicate AllUsable(st: State, runs: seq<Run>) {
    forall r <- runs :: st.Usable(r.file)
  }

  /** Every run that can be written at all has its handle. */
  ghost predicate AllWritable(st: State, runs: seq<Run>) {
    forall r <- runs :: st.Usable(r.file) ==> st.IsWritable(r.file)
  }

  /** Writing one taken run leaves the others as they were: each still has its
      handle, or the state is still sound. */
  lemma WritingStep(st: State, runs: seq<Run>, i: nat)
    requires i < |runs|
    requires AllWritable(st, runs) || Coherent(st)
    ensures AllWritable(st, runs) && st.Usable(runs[i].file) ==> st.IsWritable(runs[i].file)
    ensures var next := WriteThrough(st, runs[i]);
            && next.1 == Refusal(st, runs[i].file)
            && (AllWritable(st, runs) ==> AllWritable(next.0, runs))
            && (Coherent(st) ==> Coherent(next.0))
            && WriteAll(st, runs[i..]).0 == WriteAll(next.0, runs[i + 1..]).0
            && WriteAll(st, runs[i..]).1 == if next.1.Refused? then next.1 else WriteAll(next.0, runs[i + 1..]).1
  {
    assert runs[i] in runs;
    WriteThroughKeeps(st, runs[i]);
    WriteAllNext(st, runs, i);
  }

  /** One run written out: through a handle it has, or from a sound state; or
      refused, and nothing changes. */
  lemma WriteThroughKeeps(st: State, r: Run)
    requires st.Usable(r.file) ==> st.IsWritable(r.file) || Coherent(st)
    ensures var next := WriteThrough(st, r).0;
            && SamePaths(next, st) && WriteThrough(st, r).1 == Refusal(st, r.file)
            && (!st.Usable(r.file) ==> next == st)
            && (st.Usable(r.file) && st.IsWritable(r.file) ==> next == Land(st, [r]))
            && (Coherent(st) ==> Coherent(next))
  {
    if Coherent(st) && st.Usable(r.file) {
      OpenedForWriting(st, r.file);
      OverlayGrows(EnsureOpen(st, r.file, WriteIt).0.disk, [r]);
    }
  }

  ghost predicate SamePaths(a: State, b: State) {
    |a.slots| == |b.slots| && forall g | 0 <= g < |a.slots| :: a.slots[g].hasPath == b.slots[g].hasPath
  }

  lemma {:induction false} SameRefusals(a: State, b: State, runs: seq<Run>)
    requires SamePaths(a, b)
    ensures FirstRefusal(a, runs) == FirstRefusal(b, runs) && Live(a, runs) == Live(b, runs)
  {
    if runs != [] {
      SameRefusals(a, b, runs[1..]);
    }
  }

  /** Nothing is refused exactly when every run's file can hold data. */
  lemma {:induction false} RefusalIff(st: State, runs: seq<Run>)
    ensures FirstRefusal(st, runs).Done? <==> AllUsable(st, runs)
    ensures FirstRefusal(st, runs).Done? <==> Live(st, runs) == runs
    ensures forall r :: r in Live(st, runs) <==> r in runs && st.Usable(r.file)
    ensures |Live(st, runs)| <= |runs|
  {
    if runs != [] {
      assert runs == [runs[0]] + runs[1..];
      RefusalIff(st, runs[1..]);
    }
  }

  /** Writing taken runs keeps the whole invariant; the outcome is the first
      refusal there is. */
  lemma {:induction false} WriteAllKeeps(st: State, runs: seq<Run>)
    requires Coherent(st)
    ensures var (out, r) := WriteAll(st, runs);
            && Coherent(out) && r == FirstRefusal(st, runs) && SamePaths(out, st)
            && out.disk.Keys >= st.disk.Keys
            && |out.held| <= |st.held|
            && (forall x <- out.held :: x in st.held)
    decreases |runs|
  {
    if runs != [] {
      var r := runs[0];
      var next := WriteThrough(st, r).0;
      WriteThroughKeeps(st, r);
      if st.Usable(r.file) {
        OpenedForWriting(st, r.file);
        OverlayGrows(EnsureOpen(st, r.file, WriteIt).0.disk, [r]);
      }
      WriteAllKeeps(next, runs[1..]);
      SameRefusals(next, st, runs[1..]);
    }
  }

  lemma HeldUsable(st: State)
    requires Coherent(st)
    ensures forall r <- st.held :: st.Usable(r.file) ==> st.IsWritable(r.file) && r.file in st.disk
  {
    forall r <- st.held
      ensures st.Usable(r.file) ==> st.IsWritable(r.file) && r.file in st.disk
    {
      assert st.IsWritable(r.file) ==> st.IsOpen(r.file);
    }
  }

  /** What a write answers: its own refusal, or that of a run it displaced. */
  function AcceptAnswer(st: State, w: Run): Outcome {
    if PassesThrough(w) || Refusal(st, w.file).Refused? then Refusal(st, w.file)
    else FirstRefusal(st, Hold(st.held, w).1)
  }

  /** Every write keeps the invariant, refused or not. */
  lemma AcceptKeeps(st: State, w: Run)
    requires Coherent(st) && w.bytes != []
    ensures var (out, r) := Accept(st, w);
            Coherent(out) && SamePaths(out, st) && r == AcceptAnswer(st, w)
  {
    hide Hold, WriteAll, PassesThrough, Coherent, Accept;
    if PassesThrough(w) {
      PassedKeeps(st, w);
    } else if st.Usable(w.file) {
      BufferedKeeps(st, w);
    } else {
      RefusedKeeps(st, w);
    }
  }

  lemma PassedKeeps(st: State, w: Run)
    requires Coherent(st) && w.bytes != [] && PassesThrough(w)
    ensures var (out, r) := Accept(st, w);
            && Coherent(out) && r == Refusal(st, w.file) && SamePaths(out, st)
            && (forall x <- out.held :: x in st.held)
  {
    hide Hold, WriteAll, PassesThrough;
    WriteThroughKeeps(st, w);
    if st.Usable(w.file) {
      OpenedForWriting(st, w.file);
    }
  }

  lemma RefusedKeeps(st: State, w: Run)
    requires Coherent(st) && w.bytes != [] && !PassesThrough(w) && !st.Usable(w.file)
    ensures Accept(st, w) == (st.(held := Hold(st.held, w).0), Refusal(st, w.file))
    ensures Coherent(Accept(st, w).0)
  {
    HoldBounded(st.held, w);
    CoalescingOrder.HoldApart(st.held, w);
    forall y <- Hold(st.held, w).0
      ensures !st.Usable(y.file) || st.IsWritable(y.file)
    {
      assert y in Hold(st.held, w).1 + Hold(st.held, w).0;
    }
  }

  lemma BufferedKeeps(st: State, w: Run)
    requires Coherent(st) && w.bytes != [] && !PassesThrough(w) && st.Usable(w.file)
    ensures var (out, r) := Accept(st, w);
            && Coherent(out) && SamePaths(out, st) && r == FirstRefusal(st, Hold(st.held, w).1)
            && (forall x <- out.held :: x in Hold(st.held, w).0)
  {
    hide Hold;
    var (held, displaced) := Hold(st.held, w);
    var buffered := st.(held := held);
    HoldBounded(st.held, w);
    CoalescingOrder.HoldApart(st.held, w);
    assert forall x <- held :: x in displaced + held;
    OpenedForWriting(buffered, w.file);
    var open := EnsureOpen(buffered, w.file, WriteIt).0;
    WriteAllKeeps(open, displaced);
    SameRefusals(open, st, displaced);
  }

  /** From a state with nothing left behind, a write leaves a run behind
      exactly when its file cannot hold data and it is small enough to be
      buffered before that is looked at; and it succeeds exactly when its file
      can hold data. */
  lemma AcceptCleanIff(st: State, w: Run)
    requires Coherent(st) && Clean(st) && w.bytes != []
    ensures var (out, r) := Accept(st, w);
            && (Clean(out) <==> st.Usable(w.file) || PassesThrough(w))
            && (r.Done? <==> st.Usable(w.file))
  {
    hide WriteAll, PassesThrough, Tracked, Accept, Hold;
    AcceptKeeps(st, w);
    if PassesThrough(w) {
      PassedKeeps(st, w);
    } else {
      CoalescingOrder.HoldApart(st.held, w);
      var (held, displaced) := Hold(st.held, w);
      assert forall x <- displaced :: x in displaced + held;
      assert forall x <- held :: x in displaced + held;
      if st.Usable(w.file) {
        BufferedKeeps(st, w);
        RefusalIff(st, displaced);
      } else {
        RefusedKeeps(st, w);
        RefusedHeld(st, w);
      }
    }
  }

  lemma RefusedHeld(st: State, w: Run)
    requires Clean(st) && !st.Usable(w.file)
    ensures w in Hold(st.held, w).0
  {
    ScanForeign(st.held, w);
  }

  /** A write to a file none of the held runs belongs to starts its own run. */
  lemma {:induction false} ScanForeign(runs: seq<Run>, w: Run)
    requires forall r <- runs :: r.file != w.file
    ensures Scan(runs, w, false) == Scanned(runs, [], false)
    decreases |runs|
  {
    if runs != [] {
      assert runs == [runs[0]] + runs[1..];
      ScanForeign(runs[1..], w);
    }
  }

  /** The cost of buffering before looking: with every place taken, a small
      write that is refused still pushes out the oldest run, and nobody writes
      it. */
  lemma RefusedWriteLosesOldest(st: State, w: Run)
    requires Coherent(st) && Clean(st) && |st.held| == WRITE_RUNS
    requires 0 < |w.bytes| < WRITE_REGION && !st.Usable(w.file)
    ensures Accept(st, w).1.Refused?
    ensures Accept(st, w).0 == st.(held := st.held[1..] + [w])
  {
    ScanForeign(st.held, w);
  }

  lemma AcceptSliceKeeps(st: State, w: Run) returns (next: State)
    requires Coherent(st)
    ensures AcceptSlice(st, w).0 == next && Coherent(next) && SamePaths(next, st)
    ensures Clean(st) && st.Usable(w.file) ==> Clean(next) && AcceptSlice(st, w).1.Done?
  {
    if w.bytes != [] {
      AcceptKeeps(st, w);
      if Clean(st) {
        AcceptCleanIff(st, w);
      }
    }
    next := AcceptSlice(st, w).0;
  }

  lemma WriteVectoredKeeps(st: State, f: nat, at: nat, b0: seq<byte>, b1: seq<byte>)
    requires Coherent(st)
    ensures var (out, r) := WriteVectored(st, f, at, b0, b1);
            && Coherent(out) && SamePaths(out, st)
            && (Clean(st) && st.Usable(f) ==> Clean(out) && r == Wrote(|b0| + |b1|))
  {
    hide AcceptSlice, Coherent, Clean;
    if b0 != [] || b1 != [] {
      CalledKeeps(st);
      var one := AcceptSliceKeeps(Called(st), Run(f, at, b0));
      var two := AcceptSliceKeeps(one, Run(f, at + |b0|, b1));
    }
  }

  lemma CalledKeeps(st: State)
    ensures Coherent(st) ==> Coherent(Called(st))
    ensures Clean(st) ==> Clean(Called(st))
  {
  }

  lemma CalledAnswer(st: State, w: Run)
    ensures AcceptAnswer(Called(st), w) == AcceptAnswer(st, w)
  {
    SameRefusals(Called(st), st, Hold(st.held, w).1);
  }

  /** A read keeps the invariant, and so do a flush and a removal. */
  lemma ReadKeeps(st: State, f: nat, at: nat, len: nat)
    requires Coherent(st)
    ensures Coherent(Read(st, f, at, len).0) && SamePaths(Read(st, f, at, len).0, st)
    ensures Clean(st) ==> Clean(Read(st, f, at, len).0)
  {
    hide WriteAll, Fetch, Coherent, Tracked;
    var c := Touching(f, at, len);
    LeftKeeps(st, c);
    var kept := st.(held := Left(st.held, c));
    WriteAllKeeps(kept, Taken(st.held, c));
    var flushed := WriteAll(kept, Taken(st.held, c)).0;
    FetchKeeps(flushed, f, at, len);
  }

  lemma LeftKeeps(st: State, c: Claim)
    requires Coherent(st)
    ensures var kept := st.(held := Left(st.held, c));
            Coherent(kept) && SamePaths(kept, st) && forall r <- kept.held :: r in st.held
  {
    LeftBounded(st.held, c);
  }

  lemma FetchKeeps(st: State, f: nat, at: nat, len: nat)
    requires Coherent(st)
    ensures var out := Fetch(st, f, at, len).0;
            Coherent(out) && SamePaths(out, st) && forall r <- out.held :: r in st.held
  {
    if st.Usable(f) {
      EnsureOpenKeeps(st, f, ReadIt);
      var open := EnsureOpen(st, f, ReadIt).0;
      forall r <- open.held
        ensures !open.Usable(r.file) || open.IsWritable(r.file)
      {
        assert r in st.held;
        if open.Usable(r.file) && r.file == f {
          assert st.slots[f].Enough(ReadIt);
        }
      }
    }
  }

  lemma FlushAllKeeps(st: State)
    requires Coherent(st)
    ensures Coherent(FlushAll(st).0) && FlushAll(st).1 == FirstRefusal(st, st.held) && FlushAll(st).0.held == []
    ensures SamePaths(FlushAll(st).0, st)
  {
    var kept := st.(held := []);
    WriteAllKeeps(kept, st.held);
    SameRefusals(kept, st, st.held);
  }

  lemma RemoveKeeps(st: State, f: nat)
    requires Coherent(st)
    ensures Coherent(Remove(st, f).0) && SamePaths(Remove(st, f).0, st)
  {
    if st.Usable(f) {
      LeftBounded(st.held, OfFile(f));
      WithoutMembers(st.order, f);
      WithoutNoDuplicates(st.order, f);
      var out := Remove(st, f).0;
      forall g: nat
        ensures g in out.order <==> out.IsOpen(g)
        ensures out.IsOpen(g) ==> out.slots[g].hasPath && g in out.disk
      {
        assert g in st.order <==> st.IsOpen(g);
      }
    }
  }

  /** The instance that gave its handles and runs away has nothing to write,
      so dropping it writes nothing. */
  lemma VacatedDropsNothing(st: State)
    requires Coherent(st)
    ensures Coherent(Vacated(st)) && FlushAll(Vacated(st)).0 == Vacated(st)
    ensures View(Vacated(st)) == Files(st, st.disk)
  {
    var out := Vacated(st);
    assert forall f: nat :: f !in out.order && !out.IsOpen(f);
    assert out.(held := []) == out;
  }
}
