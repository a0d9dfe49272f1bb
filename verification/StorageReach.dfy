/** A position once written stays reached: every later call leaves it on the
    device or in a held run, but for a removal of its file and a refused write
    that pushes its run out. */
module StorageReach {
  import opened Device
  import opened Coalescing
  import opened StorageSpec
  import opened StorageInvariant
  import opened StorageRefinement
  import opened StorageCalls
  import opened StorageReads

  lemma PutReach(d: Disk, r: Run, f: nat, i: nat)
    requires r.bytes != []
    ensures i < |Content(Put(d, r), f)| <==> i < |Content(d, f)| || (r.file == f && i < r.End())
  {
  }

  lemma FlushFileReached(st: State, v: nat, f: nat, i: nat)
    requires Bounded(st.held) && Reached(st, f, i)
    ensures Reached(FlushFile(st, v), f, i)
  {
    var c := OfFile(v);
    LeftBounded(st.held, c);
    OverlayReach(st.disk, Taken(st.held, c), f, i + 1);
    if CoveredBy(st.held, f, i) {
      var r :| r in st.held && r.Covers(f, i);
      assert r in Taken(st.held, c) || r in Left(st.held, c);
    }
  }

  lemma {:induction false} EvictReached(st: State, victims: seq<nat>, f: nat, i: nat)
    requires Bounded(st.held) && Reached(st, f, i)
    ensures Reached(Evict(st, victims), f, i)
    decreases |victims|
  {
    if victims != [] {
      var v := victims[0];
      FlushFileReached(st, v, f, i);
      LeftBounded(st.held, OfFile(v));
      EvictReached(SetMode(FlushFile(st, v), v, Closed), victims[1..], f, i);
    }
  }

  /** Opening a file, evictions and all, keeps every position reached. */
  lemma OpenReached(st: State, g: nat, intent: Intent, f: nat, i: nat)
    requires Bounded(st.held) && Reached(st, f, i)
    ensures Reached(EnsureOpen(st, g, intent).0, f, i)
  {
    EvictReached(st.(order := Survivors(st, g)), Victims(st, g), f, i);
  }

  lemma WriteThroughReached(st: State, r: Run, f: nat, i: nat)
    requires Coherent(st) && r.bytes != [] && (Reached(st, f, i) || (st.Usable(f) && r.Covers(f, i)))
    ensures Reached(WriteThrough(st, r).0, f, i)
  {
    if st.Usable(r.file) {
      var open := EnsureOpen(st, r.file, WriteIt).0;
      OverlayOne(open.disk, r);
      PutReach(open.disk, r, f, i);
      if Reached(st, f, i) {
        OpenReached(st, r.file, WriteIt, f, i);
      }
    }
  }

  lemma {:induction false} WriteAllReached(st: State, runs: seq<Run>, f: nat, i: nat)
    requires Coherent(st) && NonEmpty(runs) && (Reached(st, f, i) || (st.Usable(f) && CoveredBy(runs, f, i)))
    ensures Reached(WriteAll(st, runs).0, f, i)
    decreases |runs|
  {
    hide Coherent, WriteThrough, Reached;
    if runs != [] {
      assert runs == [runs[0]] + runs[1..];
      CoveredSplit([runs[0]], runs[1..], f, i);
      var next := WriteThrough(st, runs[0]).0;
      WriteThroughKeeps(st, runs[0]);
      if Reached(st, f, i) || (st.Usable(f) && runs[0].Covers(f, i)) {
        WriteThroughReached(st, runs[0], f, i);
      }
      WriteAllReached(next, runs[1..], f, i);
    }
  }

  /** A write that is taken reaches its own range and keeps the others. */
  lemma TakenReached(st: State, w: Run, f: nat, i: nat)
    requires Coherent(st) && w.bytes != [] && st.Usable(w.file) && st.Usable(f)
    requires Reached(st, f, i) || w.Covers(f, i)
    ensures Reached(Accept(st, w).0, f, i)
  {
    hide Coherent, WriteAll, WriteThrough, EnsureOpen, Hold;
    if PassesThrough(w) {
      WriteThroughReached(st, w, f, i);
    } else {
      var buffered := st.(held := Hold(st.held, w).0);
      var open, out := BufferedOpens(st, w);
      if CoveredBy(st.held, f, i) || w.Covers(f, i) {
        HoldCovers(st.held, w, f, i);
      }
      BufferedBounds(st, w);
      if Reached(buffered, f, i) {
        OpenReached(buffered, w.file, WriteIt, f, i);
      }
      WriteAllReached(open, out, f, i);
      BufferedDone(st, w);
    }
  }

  lemma BufferedBounds(st: State, w: Run)
    requires Coherent(st) && w.bytes != [] && !PassesThrough(w)
    ensures Bounded(Hold(st.held, w).0)
  {
    HoldBounded(st.held, w);
  }

  /** A write that is refused keeps what it does not push out. */
  lemma RefusedReached(st: State, w: Run, f: nat, i: nat)
    requires Coherent(st) && w.bytes != [] && !st.Usable(w.file) && st.Usable(f)
    requires Reached(st, f, i) && !CoveredBy(Lost(st, w), f, i)
    ensures Reached(Accept(st, w).0, f, i)
  {
    hide Coherent, Hold;
    if !PassesThrough(w) {
      RefusedKeeps(st, w);
      if CoveredBy(st.held, f, i) {
        HoldCovers(st.held, w, f, i);
        BoundedOf(st);
        LostCovers(st, w, f, i);
      }
    }
  }

  lemma LostCovers(st: State, w: Run, f: nat, i: nat)
    requires Bounded(st.held) && !PassesThrough(w) && !st.Usable(w.file) && st.Usable(f)
    ensures CoveredBy(Hold(st.held, w).1, f, i) ==> CoveredBy(Lost(st, w), f, i)
  {
    hide Hold, Lost;
    LostFirst(st, w);
    RefusalIff(st, Hold(st.held, w).1);
  }

  /** What a write does not push out of reach. */
  ghost predicate SparesAt(st: State, w: Run, f: nat, i: nat) {
    w.bytes == [] || st.Usable(w.file) || !CoveredBy(Lost(st, w), f, i)
  }

  lemma SliceReached(st: State, w: Run, f: nat, i: nat)
    requires Coherent(st) && st.Usable(f)
    requires (Reached(st, f, i) && SparesAt(st, w, f, i)) || (st.Usable(w.file) && w.Covers(f, i))
    ensures Reached(AcceptSlice(st, w).0, f, i)
  {
    if w.bytes != [] {
      if st.Usable(w.file) {
        TakenReached(st, w, f, i);
      } else {
        RefusedReached(st, w, f, i);
      }
    }
  }

  lemma FlushedReached(st: State, c: Claim, f: nat, i: nat) returns (out: State)
    requires Coherent(st) && st.Usable(f) && Reached(st, f, i)
    ensures out == WriteAll(st.(held := Left(st.held, c)), Taken(st.held, c)).0
    ensures Coherent(out) && Reached(out, f, i)
  {
    hide Coherent, WriteAll, Overlay;
    out := FlushOverlapping(st, c);
    BoundedOf(st);
    TakenMembers(st.held, c);
    RefusalIff(st, Taken(st.held, c));
    OverlayReach(st.disk, Live(st, Taken(st.held, c)), f, i + 1);
    if CoveredBy(st.held, f, i) {
      var r :| r in st.held && r.Covers(f, i);
      assert r in Live(st, Taken(st.held, c)) || r in out.held;
    }
  }

  lemma ReadReached(st: State, g: nat, at: nat, len: nat, f: nat, i: nat)
    requires Coherent(st) && st.Usable(f) && Reached(st, f, i)
    ensures Reached(Read(st, g, at, len).0, f, i)
  {
    hide Coherent, EnsureOpen, WriteAll;
    var flushed := FlushedReached(st, Touching(g, at, len), f, i);
    BoundedOf(flushed);
    OpenReached(flushed, g, ReadIt, f, i);
  }

  lemma FlushAllReached(st: State, f: nat, i: nat)
    requires Coherent(st) && st.Usable(f) && Reached(st, f, i)
    ensures Reached(FlushAll(st).0, f, i)
  {
    FlushAllView(st);
    RefusalIff(st, st.held);
    OverlayReach(st.disk, Live(st, st.held), f, i + 1);
    if CoveredBy(st.held, f, i) {
      var r :| r in st.held && r.Covers(f, i);
      assert r in Live(st, st.held);
    }
  }

  lemma RemoveReached(st: State, g: nat, f: nat, i: nat)
    requires g != f && Reached(st, f, i)
    ensures Reached(Remove(st, g).0, f, i)
  {
    TakenMembers(st.held, OfFile(g));
    if CoveredBy(st.held, f, i) {
      var r :| r in st.held && r.Covers(f, i);
      assert r in Left(st.held, OfFile(g));
    }
  }
}
