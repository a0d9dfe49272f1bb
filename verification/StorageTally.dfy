/** What the storage counts: every byte offered is written once, or still held,
    or dropped, with a file that was removed or by a refusal. */
module StorageTally {
  import opened Device
  import opened Coalescing
  import opened CoalescingOrder
  import opened StorageSpec
  import opened StorageInvariant
  import opened StorageRefinement
  import opened StorageSequences
  import opened StorageDownload

  /** Bytes written or still to be written. */
  function Bytes(st: State): nat {
    st.tally.writeBytes + Weight(st.held)
  }

  /** Operations made, and those the held runs will take. */
  function Ops(st: State): nat {
    st.tally.writeOps + |st.held|
  }

  lemma FlushFileCounts(st: State, f: nat)
    ensures Bytes(FlushFile(st, f)) == Bytes(st) && Ops(FlushFile(st, f)) == Ops(st)
  {
    TakenWeight(st.held, OfFile(f));
  }

  lemma {:induction false} EvictCounts(st: State, victims: seq<nat>)
    ensures Bytes(Evict(st, victims)) == Bytes(st) && Ops(Evict(st, victims)) == Ops(st)
    decreases |victims|
  {
    if victims != [] {
      FlushFileCounts(st, victims[0]);
      EvictCounts(SetMode(FlushFile(st, victims[0]), victims[0], Closed), victims[1..]);
    }
  }

  lemma OpenCounts(st: State, f: nat, intent: Intent)
    ensures Bytes(EnsureOpen(st, f, intent).0) == Bytes(st) && Ops(EnsureOpen(st, f, intent).0) == Ops(st)
  {
    EvictCounts(st.(order := Survivors(st, f)), Victims(st, f));
  }

  lemma WriteThroughCounts(st: State, r: Run)
    requires Coherent(st) && st.Usable(r.file)
    ensures var out := WriteThrough(st, r).0; Bytes(out) == Bytes(st) + |r.bytes| && Ops(out) == Ops(st) + 1
  {
    OpenCounts(st, r.file, WriteIt);
    assert Weight([r]) == |r.bytes|;
  }

  /** The runs whose file cannot hold data. */
  function Dead(st: State, runs: seq<Run>): seq<Run> {
    if runs == [] then [] else (if st.Usable(runs[0].file) then [] else [runs[0]]) + Dead(st, runs[1..])
  }

  lemma {:induction false} DeadSame(a: State, b: State, runs: seq<Run>)
    requires SamePaths(a, b)
    ensures Dead(a, runs) == Dead(b, runs)
  {
    if runs != [] {
      DeadSame(a, b, runs[1..]);
    }
  }

  lemma {:induction false} NoneDead(st: State, runs: seq<Run>)
    requires AllUsable(st, runs)
    ensures Dead(st, runs) == []
  {
    if runs != [] {
      assert runs == [runs[0]] + runs[1..];
      NoneDead(st, runs[1..]);
    }
  }

  /** Runs that can be written are written once each, whatever is evicted on
      the way; the others are gone. */
  lemma {:induction false} WriteAllCounts(st: State, runs: seq<Run>)
    requires Coherent(st)
    ensures var out, dead := WriteAll(st, runs).0, Dead(st, runs);
            && Bytes(out) + Weight(dead) == Bytes(st) + Weight(runs)
            && Ops(out) + |dead| == Ops(st) + |runs|
    decreases |runs|
  {
    hide Coherent, WriteThrough, Bytes, Ops;
    if runs != [] {
      var r, next := runs[0], WriteThrough(st, runs[0]).0;
      WriteThroughKeeps(st, r);
      DeadSame(next, st, runs[1..]);
      WriteAllCounts(next, runs[1..]);
      if st.Usable(r.file) {
        WriteThroughCounts(st, r);
        assert Dead(st, runs) == Dead(st, runs[1..]);
      } else {
        WeightAppend([r], Dead(st, runs[1..]));
        assert Weight([r]) == |r.bytes|;
      }
    }
  }

  /** What one slice drops: itself, when it is too large to be held and its
      file cannot hold data; of what it displaces all that nobody writes. */
  function SliceDrops(st: State, w: Run): seq<Run> {
    if w.bytes == [] then []
    else if PassesThrough(w) then if st.Usable(w.file) then [] else [w]
    else if st.Usable(w.file) then Dead(st, Hold(st.held, w).1) else Hold(st.held, w).1
  }

  lemma SliceAdds(st: State, w: Run)
    requires Coherent(st) && w.bytes != [] && !PassesThrough(w)
    ensures var out, gone := Accept(st, w).0, SliceDrops(st, w);
            && Bytes(out) + Weight(gone) == Bytes(st) + |w.bytes|
            && Ops(out) + |gone| <= Ops(st) + 1
  {
    hide Coherent, Hold, EnsureOpen, WriteThrough, PassesThrough;
    HoldWeighs(st.held, w);
    if st.Usable(w.file) {
      var open, out := BufferedOpens(st, w);
      OpenCounts(st.(held := Hold(st.held, w).0), w.file, WriteIt);
      DeadSame(open, st, out);
      WriteAllCounts(open, out);
      BufferedDone(st, w);
    } else {
      RefusedKeeps(st, w);
    }
  }

  /** One slice adds its bytes but for what it drops, and at most one
      operation. */
  lemma SliceCounts(st: State, w: Run)
    requires Coherent(st)
    ensures var out, gone := AcceptSlice(st, w).0, SliceDrops(st, w);
            && Bytes(out) + Weight(gone) == Bytes(st) + |w.bytes|
            && Ops(out) + |gone| <= Ops(st) + if w.bytes == [] then 0 else 1
  {
    hide Coherent, Hold, EnsureOpen;
    if w.bytes != [] {
      if !PassesThrough(w) {
        SliceAdds(st, w);
      } else if st.Usable(w.file) {
        WriteThroughCounts(st, w);
      } else {
        assert Weight([w]) == |w.bytes|;
      }
    }
  }

  /** What a call offers, and in how many slices. */
  function Offered(op: Op): nat {
    match op
    case WriteOp(w) => |w.bytes|
    case VectoredOp(_, _, b0, b1) => |b0| + |b1|
    case _ => 0
  }

  function Slices(op: Op): nat {
    match op
    case WriteOp(w) => if w.bytes == [] then 0 else 1
    case VectoredOp(_, _, b0, b1) => (if b0 == [] then 0 else 1) + (if b1 == [] then 0 else 1)
    case _ => 0
  }

  /** What the second slice drops: all of itself, when it is not reached. */
  function SecondDrops(met: State, first: Outcome, w: Run): seq<Run> {
    if first.Done? then SliceDrops(met, w) else if w.bytes == [] then [] else [w]
  }

  /** What a call drops instead of writing: the held runs of a file it removes,
      and on the way of a write, a read or a flush whatever is refused. */
  function Dropped(st: State, op: Op): seq<Run> {
    match op
    case WriteOp(w) => SliceDrops(Called(st), w)
    case VectoredOp(f, at, b0, b1) =>
      var (one, first) := AcceptSlice(Called(st), Run(f, at, b0));
      SliceDrops(Called(st), Run(f, at, b0)) + SecondDrops(one, first, Run(f, at + |b0|, b1))
    case ReadOp(f, at, len) => Dead(st, Taken(st.held, Touching(f, at, len)))
    case FlushOp => Dead(st, st.held)
    case RemoveOp(f) => if st.Usable(f) then Taken(st.held, OfFile(f)) else []
  }

  lemma ReadCounts(st: State, f: nat, at: nat, len: nat)
    requires Coherent(st)
    ensures var out, gone := Read(st, f, at, len).0, Dropped(st, ReadOp(f, at, len));
            Bytes(out) + Weight(gone) == Bytes(st) && Ops(out) + |gone| == Ops(st)
  {
    hide Coherent, WriteAll, EnsureOpen;
    var c := Touching(f, at, len);
    LeftKeeps(st, c);
    TakenWeight(st.held, c);
    var kept := st.(held := Left(st.held, c));
    DeadSame(kept, st, Taken(st.held, c));
    WriteAllCounts(kept, Taken(st.held, c));
    OpenCounts(WriteAll(kept, Taken(st.held, c)).0, f, ReadIt);
  }

  lemma FlushCounts(st: State)
    requires Coherent(st)
    ensures var out, gone := FlushAll(st).0, Dead(st, st.held);
            Bytes(out) + Weight(gone) == Bytes(st) && Ops(out) + |gone| == Ops(st)
  {
    var kept := st.(held := []);
    DeadSame(kept, st, st.held);
    WriteAllCounts(kept, st.held);
  }

  lemma VectoredCounts(st: State, f: nat, at: nat, b0: seq<byte>, b1: seq<byte>)
    requires Coherent(st)
    ensures var out, op := WriteVectored(st, f, at, b0, b1).0, VectoredOp(f, at, b0, b1);
            && Bytes(out) + Weight(Dropped(st, op)) == Bytes(st) + Offered(op)
            && Ops(out) + |Dropped(st, op)| <= Ops(st) + Slices(op)
  {
    hide Coherent, AcceptSlice, SliceDrops;
    var w0, w1 := Run(f, at, b0), Run(f, at + |b0|, b1);
    CalledKeeps(st);
    SliceCounts(Called(st), w0);
    var one := AcceptSliceKeeps(Called(st), w0);
    var first := AcceptSlice(Called(st), w0).1;
    SliceCounts(one, w1);
    WeightAppend(SliceDrops(Called(st), w0), SecondDrops(one, first, w1));
    assert Weight([w1]) == |b1|;
    NoSlice(Called(st), w0);
    NoSlice(one, w1);
  }

  lemma NoSlice(st: State, w: Run)
    ensures w.bytes == [] ==> AcceptSlice(st, w) == (st, Done) && SliceDrops(st, w) == []
  {
  }

  /** Conservation, call by call, on the storage itself. */
  lemma StepCounts(st: State, op: Op)
    requires Coherent(st)
    ensures Bytes(Step(st, op)) + Weight(Dropped(st, op)) == Bytes(st) + Offered(op)
    ensures Ops(Step(st, op)) + |Dropped(st, op)| <= Ops(st) + Slices(op)
  {
    hide Coherent, AcceptSlice, Read, FlushAll, WriteVectored;
    match op
    case WriteOp(w) =>
      CalledKeeps(st);
      SliceCounts(Called(st), w);
      WriteCounts(st, w);
    case VectoredOp(f, at, b0, b1) =>
      VectoredCounts(st, f, at, b0, b1);
    case ReadOp(f, at, len) =>
      ReadCounts(st, f, at, len);
    case FlushOp =>
      FlushCounts(st);
    case RemoveOp(f) =>
      TakenWeight(st.held, OfFile(f));
  }

  lemma WriteCounts(st: State, w: Run)
    ensures var a, b := Write(st, w).0, AcceptSlice(Called(st), w).0; Bytes(a) == Bytes(b) && Ops(a) == Ops(b)
  {
    SliceHeld(st, w);
  }

  // --- Whole sessions -------------------------------------------------------------

  function AllOffered(ops: seq<Op>): nat {
    if ops == [] then 0 else Offered(ops[0]) + AllOffered(ops[1..])
  }

  function AllSliced(ops: seq<Op>): nat {
    if ops == [] then 0 else Slices(ops[0]) + AllSliced(ops[1..])
  }

  /** What a session drops, its flush at the end included. */
  function AllDropped(st: State, ops: seq<Op>): seq<Run>
    decreases |ops|
  {
    if ops == [] then Dead(st, st.held) else Dropped(st, ops[0]) + AllDropped(Step(st, ops[0]), ops[1..])
  }

  /** Any session at all, run to its flush, has written every byte it was given
      exactly once but for those it dropped, and not more often than it was
      given slices. */
  lemma {:induction false} SessionCounts(st: State, ops: seq<Op>)
    requires Coherent(st)
    ensures var out, gone := FlushAll(Play(st, ops)).0, AllDropped(st, ops);
            && out.held == []
            && out.tally.writeBytes + Weight(gone) == Bytes(st) + AllOffered(ops)
            && out.tally.writeOps + |gone| <= Ops(st) + AllSliced(ops)
    decreases |ops|
  {
    hide Coherent, Step, Dropped;
    if ops == [] {
      FlushCounts(st);
      FlushAllKeeps(st);
    } else {
      StepCounts(st, ops[0]);
      StepKeeps(st, ops[0]);
      SessionCounts(Step(st, ops[0]), ops[1..]);
      WeightAppend(Dropped(st, ops[0]), AllDropped(Step(st, ops[0]), ops[1..]));
    }
  }

  lemma DisplacedUsable(st: State, w: Run)
    requires Coherent(st) && Clean(st) && w.bytes != [] && !PassesThrough(w) && st.Usable(w.file)
    ensures AllUsable(st, Hold(st.held, w).1)
  {
    HoldApart(st.held, w);
    var (held, out) := Hold(st.held, w);
    assert forall x <- out :: x in out + held;
  }

  /** With nothing left behind, a slice for a file that can hold data drops
      nothing. */
  lemma CleanSlice(st: State, w: Run)
    requires Coherent(st) && Clean(st) && st.Usable(w.file)
    ensures SliceDrops(st, w) == [] && AcceptSlice(st, w).1.Done? && Clean(AcceptSlice(st, w).0)
  {
    hide Coherent, Clean, Hold;
    var next := AcceptSliceKeeps(st, w);
    if w.bytes != [] && !PassesThrough(w) {
      DisplacedUsable(st, w);
      NoneDead(st, Hold(st.held, w).1);
    }
  }

  lemma CleanStep(st: State, op: Op)
    requires Coherent(st) && Clean(st) && Named(st, op) && !op.RemoveOp?
    ensures Dropped(st, op) == [] && Clean(Step(st, op))
  {
    hide Coherent, AcceptSlice, SliceDrops, Read, FlushAll, WriteVectored;
    match op
    case WriteOp(w) =>
      CalledKeeps(st);
      CleanSlice(Called(st), w);
      SliceHeld(st, w);
    case VectoredOp(f, at, b0, b1) =>
      CalledKeeps(st);
      CleanSlice(Called(st), Run(f, at, b0));
      var one := AcceptSliceKeeps(Called(st), Run(f, at, b0));
      CleanSlice(one, Run(f, at + |b0|, b1));
      WriteVectoredKeeps(st, f, at, b0, b1);
    case ReadOp(f, at, len) =>
      ReadKeeps(st, f, at, len);
      TakenMembers(st.held, Touching(f, at, len));
      NoneDead(st, Taken(st.held, Touching(f, at, len)));
    case FlushOp =>
      FlushAllKeeps(st);
      NoneDead(st, st.held);
  }

  /** A session with nothing refused and nothing removed drops nothing: it
      writes every byte it was given exactly once. */
  lemma {:induction false} CleanSession(st: State, ops: seq<Op>)
    requires Coherent(st) && Clean(st)
    requires forall op <- ops :: Named(st, op) && !op.RemoveOp?
    ensures AllDropped(st, ops) == []
    ensures FlushAll(Play(st, ops)).0.tally.writeBytes == Bytes(st) + AllOffered(ops)
    decreases |ops|
  {
    SessionCounts(st, ops);
    hide Coherent, Clean, Step, Named, Dropped;
    if ops == [] {
      AllClean(st);
    } else {
      assert ops[0] in ops;
      CleanStep(st, ops[0]);
      StepKeeps(st, ops[0]);
      NamedNext(st, Step(st, ops[0]), ops);
      CleanSession(Step(st, ops[0]), ops[1..]);
    }
  }

  lemma AllClean(st: State)
    requires Clean(st)
    ensures Dead(st, st.held) == []
  {
    NoneDead(st, st.held);
  }
}
