/** What each call answers, and what it counts, told from the state before it. */
module StorageAnswers {
  import opened Device
  import opened Coalescing
  import opened StorageSpec
  import opened StorageInvariant
  import opened StorageReads
  import opened StorageSequences

  // --- Answers --------------------------------------------------------------------------

  /** The refusal heard of is that of the first run whose file cannot hold
      data. */
  lemma {:induction false} FirstRefusalIs(st: State, runs: seq<Run>, k: nat)
    requires k < |runs| && !st.Usable(runs[k].file)
    requires forall i | 0 <= i < k :: st.Usable(runs[i].file)
    ensures FirstRefusal(st, runs) == Refused(if runs[k].file >= |st.slots| then NoSuchFile else HoldsNoData)
    decreases |runs|
  {
    if k > 0 {
      assert runs[1..][k - 1] == runs[k] && st.Usable(runs[0].file);
      forall i | 0 <= i < k - 1
        ensures st.Usable(runs[1..][i].file)
      {
        assert runs[1..][i] == runs[i + 1];
      }
      FirstRefusalIs(st, runs[1..], k - 1);
    }
  }

  /** What a write answers: nothing to write is done, whatever the file; a file
      that does not exist or cannot hold data is refused; anything else is done
      while no refused run is in the way. */
  lemma WriteAnswers(st: State, w: Run)
    requires Coherent(st)
    ensures var r := Write(st, w).1;
            if w.bytes == [] then r == Done
            else if w.file >= |st.slots| then r == Refused(NoSuchFile)
            else if !st.slots[w.file].hasPath then r == Refused(HoldsNoData)
            else Clean(st) ==> r == Done
  {
    hide Accept, Coherent, Hold;
    if w.bytes != [] {
      CalledKeeps(st);
      AcceptKeeps(Called(st), w);
      if st.Usable(w.file) && Clean(st) {
        AcceptCleanIff(Called(st), w);
      }
    }
  }

  /** What a read answers: the bytes, or which of four things is in the way. */
  lemma ReadAnswers(st: State, f: nat, at: nat, len: nat)
    requires Coherent(st)
    ensures var r := Read(st, f, at, len).1;
            if f >= |st.slots| then r == Failed(NoSuchFile)
            else if !st.slots[f].hasPath then r == Failed(HoldsNoData)
            else if f !in st.disk then r == Failed(NotCreated)
            else if !Reaches(st, f, at, len) then r == Failed(EndOfFile)
            else r.Ok? && |r.value| == len
  {
    hide Coherent, WriteAll, EnsureOpen, Overlay, View, Reaches;
    var c := Touching(f, at, len);
    ReadExact(st, f, at, len);
    ViewKeys(st, f);
    var flushed := FlushOverlapping(st, c);
    TakenAnswer(st, c);
    if st.Usable(f) {
      OpenForRead(flushed, f);
      ViewKeys(flushed, f);
    } else {
      TakenRefusal(st, c);
    }
  }

  lemma TakenRefusal(st: State, c: Claim)
    ensures var r := FirstRefusal(st, Taken(st.held, c)); r.Refused? ==> r == Refusal(st, c.file)
  {
    TakenMembers(st.held, c);
    OneFileRefusal(st, Taken(st.held, c), c.file);
  }

  lemma {:induction false} OneFileRefusal(st: State, runs: seq<Run>, f: nat)
    requires forall r <- runs :: r.file == f
    ensures FirstRefusal(st, runs).Refused? ==> FirstRefusal(st, runs) == Refusal(st, f)
  {
    if runs != [] {
      assert runs == [runs[0]] + runs[1..];
      OneFileRefusal(st, runs[1..], f);
    }
  }

  /** A removal is done for every file there is, padding included. */
  lemma RemoveAnswers(st: State, f: nat)
    ensures Remove(st, f).1 == if f >= |st.slots| then Refused(NoSuchFile) else Done
  {
  }

  // --- Calls and reads counted ---------------------------------------------------------------

  /** What a tally says of calls and of reads. */
  function Asked(st: State): (nat, nat, nat) {
    (st.tally.writeCalls, st.tally.readOps, st.tally.readBytes)
  }

  lemma {:induction false} EvictAsks(st: State, victims: seq<nat>)
    ensures Asked(Evict(st, victims)) == Asked(st)
    decreases |victims|
  {
    if victims != [] {
      EvictAsks(SetMode(FlushFile(st, victims[0]), victims[0], Closed), victims[1..]);
    }
  }

  lemma OpenAsks(st: State, f: nat, intent: Intent)
    ensures Asked(EnsureOpen(st, f, intent).0) == Asked(st)
  {
    EvictAsks(st.(order := Survivors(st, f)), Victims(st, f));
  }

  lemma {:induction false} WriteAllAsks(st: State, runs: seq<Run>)
    ensures Asked(WriteAll(st, runs).0) == Asked(st)
    decreases |runs|
  {
    if runs != [] {
      OpenAsks(st, runs[0].file, WriteIt);
      WriteAllAsks(WriteThrough(st, runs[0]).0, runs[1..]);
    }
  }

  lemma SliceAsks(st: State, w: Run)
    ensures Asked(AcceptSlice(st, w).0) == Asked(st)
  {
    hide WriteAll, Hold, EnsureOpen;
    OpenAsks(st, w.file, WriteIt);
    var buffered := st.(held := Hold(st.held, w).0);
    OpenAsks(buffered, w.file, WriteIt);
    WriteAllAsks(EnsureOpen(buffered, w.file, WriteIt).0, Hold(st.held, w).1);
  }

  lemma ReadAsks(st: State, f: nat, at: nat, len: nat)
    ensures var out := Read(st, f, at, len);
            out.0.tally.writeCalls == st.tally.writeCalls
            && out.0.tally.readOps == st.tally.readOps + (if out.1.Ok? then 1 else 0)
            && out.0.tally.readBytes == st.tally.readBytes + if out.1.Ok? then len else 0
  {
    hide WriteAll, EnsureOpen;
    var c := Touching(f, at, len);
    var kept := st.(held := Left(st.held, c));
    WriteAllAsks(kept, Taken(st.held, c));
    OpenAsks(WriteAll(kept, Taken(st.held, c)).0, f, ReadIt);
  }

  /** Every write call with a byte in it counts once, however many slices it
      has and whether or not it is refused; every read that is answered counts
      with its length; nothing else counts as either. */
  lemma StepAsks(st: State, op: Op)
    ensures var next := Step(st, op);
            var answered := op.ReadOp? && Read(st, op.file, op.at, op.len).1.Ok?;
            && next.tally.writeCalls == st.tally.writeCalls
               + (if (op.WriteOp? && op.w.bytes != []) || (op.VectoredOp? && op.b0 + op.b1 != []) then 1 else 0)
            && next.tally.readOps == st.tally.readOps + (if answered then 1 else 0)
            && next.tally.readBytes == st.tally.readBytes + if answered then op.len else 0
  {
    hide AcceptSlice, Read, WriteAll;
    match op
    case WriteOp(w) =>
      SliceAsks(Called(st), w);
      WriteIs(st, w);
    case VectoredOp(f, at, b0, b1) =>
      SliceAsks(Called(st), Run(f, at, b0));
      SliceAsks(AcceptSlice(Called(st), Run(f, at, b0)).0, Run(f, at + |b0|, b1));
    case ReadOp(f, at, len) =>
      ReadAsks(st, f, at, len);
    case FlushOp =>
      WriteAllAsks(st.(held := []), st.held);
    case RemoveOp(f) =>
  }

  lemma WriteIs(st: State, w: Run)
    ensures w.bytes != [] ==> Write(st, w).0 == AcceptSlice(Called(st), w).0
  {
  }
}
