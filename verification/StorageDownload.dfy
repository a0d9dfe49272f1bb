/** A download: every write is a slice of one payload. */
module StorageDownload {
  import opened Device
  import opened Coalescing
  import opened CoalescingOrder
  import opened StorageSpec
  import opened StorageInvariant
  import opened StorageRefinement
  import opened StorageCalls
  import opened StorageReads
  import opened StorageSequences

  /** A call that changes a file names one that can hold data. */
  predicate Named(st: State, op: Op) {
    match op
    case WriteOp(w) => st.Usable(w.file)
    case VectoredOp(f, _, _, _) => st.Usable(f)
    case RemoveOp(f) => st.Usable(f)
    case _ => true
  }

  lemma SamePathsNamed(a: State, b: State, op: Op)
    requires SamePaths(a, b)
    ensures Named(a, op) == Named(b, op)
  {
  }

  /** The run holds a slice of one fixed payload. */
  ghost predicate SliceOf(payload: Disk, r: Run) {
    r.file in payload && r.End() <= |payload[r.file]| && r.bytes == payload[r.file][r.offset..r.End()]
  }

  ghost predicate AllSlices(payload: Disk, runs: seq<Run>) {
    forall r <- runs :: SliceOf(payload, r)
  }

  ghost predicate PayloadOp(payload: Disk, op: Op) {
    match op
    case WriteOp(w) => SliceOf(payload, w)
    case VectoredOp(f, at, b0, b1) => SliceOf(payload, Run(f, at, b0)) && SliceOf(payload, Run(f, at + |b0|, b1))
    case _ => true
  }

  lemma SlicesAgree(payload: Disk, a: Run, b: Run)
    requires SliceOf(payload, a) && SliceOf(payload, b)
    ensures Agree(a, b)
  {
    if a.file == b.file {
      forall i: nat | a.Covers(a.file, i) && b.Covers(a.file, i)
        ensures a.bytes[i - a.offset] == b.bytes[i - b.offset]
      {
        assert a.bytes[i - a.offset] == payload[a.file][i];
        assert b.bytes[i - b.offset] == payload[a.file][i];
      }
    }
  }

  lemma SlicesFaithful(payload: Disk, runs: seq<Run>, w: Run)
    requires AllSlices(payload, runs) && SliceOf(payload, w)
    ensures Faithful(runs, w)
  {
    LateMembers(runs, w);
    forall r <- Late(runs, w)
      ensures Agree(w, r)
    {
      SlicesAgree(payload, w, r);
    }
  }

  lemma ExtendSlice(payload: Disk, e: Run, w: Run)
    requires SliceOf(payload, e) && SliceOf(payload, w) && Extends(e, w)
    ensures SliceOf(payload, Extend(e, w))
  {
    var whole := payload[e.file];
    assert whole[e.offset..w.End()] == whole[e.offset..e.End()] + whole[w.offset..w.End()];
  }

  lemma HoldSlices(payload: Disk, runs: seq<Run>, w: Run)
    requires AllSlices(payload, runs) && SliceOf(payload, w)
    ensures AllSlices(payload, Hold(runs, w).0)
  {
    ScanOrigin(runs, w, false);
    forall y <- Hold(runs, w).0
      ensures SliceOf(payload, y)
    {
      if y !in runs && y != w {
        var e :| e in runs && Extends(e, w) && y == Extend(e, w);
        ExtendSlice(payload, e, w);
      }
    }
  }

  lemma AcceptSlicesHeld(payload: Disk, st: State, w: Run)
    requires Coherent(st) && st.Usable(w.file) && AllSlices(payload, st.held) && SliceOf(payload, w)
    requires w.bytes != []
    ensures AllSlices(payload, Accept(st, w).0.held)
  {
    if PassesThrough(w) {
      EnsureOpenKeeps(st, w.file, WriteIt);
    } else {
      HoldSlices(payload, st.held, w);
      var open, out := BufferedOpens(st, w);
      HoldBounded(st.held, w);
      HoldApart(st.held, w);
      EnsureOpenKeeps(st.(held := Hold(st.held, w).0), w.file, WriteIt);
      WriteAllKeeps(open, out);
    }
  }

  lemma SliceStep(payload: Disk, st: State, w: Run) returns (next: State)
    requires Coherent(st) && Clean(st) && st.Usable(w.file) && AllSlices(payload, st.held) && SliceOf(payload, w)
    ensures AcceptSlice(st, w) == (next, Done)
    ensures Coherent(next) && Clean(next) && SamePaths(next, st) && AllSlices(payload, next.held)
    ensures FaithfulWrite(st, w)
  {
    hide Accept, Coherent, Clean;
    SlicesFaithful(payload, st.held, w);
    if w.bytes != [] {
      AcceptSlicesHeld(payload, st, w);
    }
    next := AcceptSliceKeeps(st, w);
  }

  lemma VectoredSlices(payload: Disk, st: State, f: nat, at: nat, b0: seq<byte>, b1: seq<byte>)
    requires Coherent(st) && Clean(st) && st.Usable(f) && AllSlices(payload, st.held)
    requires SliceOf(payload, Run(f, at, b0)) && SliceOf(payload, Run(f, at + |b0|, b1))
    ensures FaithfulSlices(st, f, at, b0, b1) && AcceptSlice(Called(st), Run(f, at, b0)).1.Done?
    ensures AllSlices(payload, WriteVectored(st, f, at, b0, b1).0.held)
  {
    hide AcceptSlice, Coherent, Clean;
    var w0, w1 := Run(f, at, b0), Run(f, at + |b0|, b1);
    CalledKeeps(st);
    var one := SliceStep(payload, Called(st), w0);
    var two := SliceStep(payload, one, w1);
    SlicesFaithful(payload, st.held, w0);
    SlicesFaithful(payload, st.held, w1);
    SlicesFaithful(payload, one.held, w1);
    if b0 != [] {
      SliceAnswer(st, w0);
    }
  }

  lemma SliceAnswer(st: State, w: Run)
    requires Coherent(st) && w.bytes != []
    ensures AcceptSlice(Called(st), w) == (Accept(Called(st), w).0, AcceptAnswer(st, w))
  {
    hide Accept, Coherent;
    CalledKeeps(st);
    CalledAnswer(st, w);
    AcceptKeeps(Called(st), w);
  }

  lemma ReadSlices(payload: Disk, st: State, f: nat, at: nat, len: nat)
    requires Coherent(st) && AllSlices(payload, st.held)
    ensures AllSlices(payload, Read(st, f, at, len).0.held)
  {
    hide Coherent, WriteAll;
    var flushed := FlushOverlapping(st, Touching(f, at, len));
    TakenMembers(st.held, Touching(f, at, len));
    FetchKeeps(flushed, f, at, len);
  }

  /** One call of a download: faithful, taken, and no run left behind. */
  lemma StepSlices(payload: Disk, st: State, op: Op)
    requires Coherent(st) && Clean(st) && Named(st, op) && AllSlices(payload, st.held) && PayloadOp(payload, op)
    ensures FaithfulOp(st, op) && AllSlices(payload, Step(st, op).held) && Clean(Step(st, op))
  {
    hide Coherent, AcceptSlice, Read, WriteVectored;
    match op
    case WriteOp(w) =>
      CalledKeeps(st);
      var next := SliceStep(payload, Called(st), w);
      SlicesFaithful(payload, st.held, w);
      SliceHeld(st, w);
    case VectoredOp(f, at, b0, b1) =>
      VectoredSlices(payload, st, f, at, b0, b1);
      WriteVectoredKeeps(st, f, at, b0, b1);
    case ReadOp(f, at, len) =>
      ReadSlices(payload, st, f, at, len);
      ReadKeeps(st, f, at, len);
    case FlushOp =>
      FlushAllKeeps(st);
    case RemoveOp(f) =>
      TakenMembers(st.held, OfFile(f));
  }

  lemma SliceHeld(st: State, w: Run)
    ensures Write(st, w).0.held == AcceptSlice(Called(st), w).0.held
    ensures Clean(AcceptSlice(Called(st), w).0) ==> Clean(Write(st, w).0)
  {
  }

  /** A session that writes nothing but slices of one payload, in any order,
      any number of times and any sizes, is always faithful. */
  lemma {:induction false} PayloadPlay(payload: Disk, st: State, ops: seq<Op>)
    requires Coherent(st) && Clean(st) && AllSlices(payload, st.held)
    requires forall op <- ops :: Named(st, op) && PayloadOp(payload, op)
    ensures FaithfulPlay(st, ops)
    ensures View(Play(st, ops)) == PlainPlay(DataFiles(st), View(st), ops)
    decreases |ops|
  {
    hide Coherent, Clean, Step, View, PlainStep, PayloadOp, FaithfulOp, Named;
    if ops != [] {
      StepSlices(payload, st, ops[0]);
      StepKeeps(st, ops[0]);
      StepIff(st, ops[0]);
      var next := Step(st, ops[0]);
      NamedNext(st, next, ops);
      PayloadPlay(payload, next, ops[1..]);
    }
  }

  lemma NamedNext(st: State, next: State, ops: seq<Op>)
    requires ops != [] && SamePaths(next, st) && forall op <- ops :: Named(st, op)
    ensures forall op <- ops[1..] :: op in ops && Named(next, op)
  {
    forall op <- ops[1..]
      ensures op in ops && Named(next, op)
    {
      SamePathsNamed(next, st, op);
    }
  }

  // --- What a download reads back -----------------------------------------------

  /** The call writes the position. */
  predicate Puts(op: Op, f: nat, i: nat) {
    match op
    case WriteOp(w) => w.Covers(f, i)
    case VectoredOp(g, at, b0, b1) => Run(g, at, b0 + b1).Covers(f, i)
    case _ => false
  }

  /** Some call writes the position, and no later one removes its file. */
  predicate PutSinceRemoved(ops: seq<Op>, f: nat, i: nat)
    decreases |ops|
  {
    ops != [] && ((Puts(ops[0], f, i) && RemoveOp(f) !in ops[1..]) || PutSinceRemoved(ops[1..], f, i))
  }

  lemma NamedSpares(payload: Disk, st: State, op: Op, f: nat, i: nat)
    requires Coherent(st) && Clean(st) && Named(st, op) && AllSlices(payload, st.held) && PayloadOp(payload, op)
    ensures op != RemoveOp(f) ==> Spares(st, op, f, i)
    ensures Puts(op, f, i) ==> Writes(st, op, f, i)
  {
    hide Coherent, Clean, AcceptSlice;
    if op.VectoredOp? {
      VectoredSlices(payload, st, op.file, op.at, op.b0, op.b1);
    }
  }

  lemma {:induction false} StaysSpared(payload: Disk, st: State, ops: seq<Op>, f: nat, i: nat)
    requires Coherent(st) && Clean(st) && AllSlices(payload, st.held)
    requires forall op <- ops :: Named(st, op) && PayloadOp(payload, op)
    requires RemoveOp(f) !in ops
    ensures SparedSince(st, ops, f, i)
    decreases |ops|
  {
    hide Coherent, Clean, Step, PayloadOp, Named, Spares, Puts, Writes;
    if ops != [] {
      NamedSpares(payload, st, ops[0], f, i);
      StepSlices(payload, st, ops[0]);
      StepKeeps(st, ops[0]);
      NamedNext(st, Step(st, ops[0]), ops);
      StaysSpared(payload, Step(st, ops[0]), ops[1..], f, i);
    }
  }

  lemma {:induction false} PutIsWritten(payload: Disk, st: State, ops: seq<Op>, f: nat, i: nat)
    requires Coherent(st) && Clean(st) && AllSlices(payload, st.held)
    requires forall op <- ops :: Named(st, op) && PayloadOp(payload, op)
    requires PutSinceRemoved(ops, f, i)
    ensures WrittenSince(st, ops, f, i)
    decreases |ops|
  {
    hide Coherent, Clean, Step, PayloadOp, Named, Spares, Puts, Writes;
    var next := Step(st, ops[0]);
    NamedSpares(payload, st, ops[0], f, i);
    StepSlices(payload, st, ops[0]);
    StepKeeps(st, ops[0]);
    NamedNext(st, next, ops);
    if Puts(ops[0], f, i) && RemoveOp(f) !in ops[1..] {
      StaysSpared(payload, next, ops[1..], f, i);
    } else {
      PutIsWritten(payload, next, ops[1..], f, i);
    }
  }

  /** The plain files have the payload's byte at the position. */
  predicate Has(files: Disk, payload: Disk, f: nat, i: nat) {
    f in files && f in payload && i < |files[f]| && i < |payload[f]| && files[f][i] == payload[f][i]
  }

  lemma PutHas(files: Disk, payload: Disk, w: Run, f: nat, i: nat)
    requires SliceOf(payload, w) && (w.Covers(f, i) || Has(files, payload, f, i))
    ensures Has(Put(files, w), payload, f, i)
  {
    if w.Covers(f, i) {
      PutReads(files, w, i);
    }
  }

  lemma StepHas(data: set<nat>, files: Disk, payload: Disk, op: Op, f: nat, i: nat)
    requires PayloadOp(payload, op) && f in data
    requires Puts(op, f, i) || (Has(files, payload, f, i) && op != RemoveOp(f))
    ensures Has(PlainStep(data, files, op), payload, f, i)
  {
    match op
    case WriteOp(w) => PutHas(files, payload, w, f, i);
    case VectoredOp(g, at, b0, b1) =>
      var whole := Run(g, at, b0 + b1);
      assert SliceOf(payload, whole) by {
        assert payload[g][at..whole.End()] == payload[g][at..at + |b0|] + payload[g][at + |b0|..whole.End()];
      }
      PutHas(files, payload, whole, f, i);
    case _ =>
  }

  lemma {:induction false} PlayHas(data: set<nat>, files: Disk, payload: Disk, ops: seq<Op>, f: nat, i: nat)
    requires f in data && forall op <- ops :: PayloadOp(payload, op)
    requires PutSinceRemoved(ops, f, i) || (Has(files, payload, f, i) && RemoveOp(f) !in ops)
    ensures Has(PlainPlay(data, files, ops), payload, f, i)
    decreases |ops|
  {
    hide PayloadOp, Has, Puts, PlainStep;
    if ops != [] {
      if Puts(ops[0], f, i) || (Has(files, payload, f, i) && ops[0] != RemoveOp(f)) {
        StepHas(data, files, payload, ops[0], f, i);
      }
      PlayHas(data, PlainStep(data, files, ops[0]), payload, ops[1..], f, i);
    }
  }

  /** A download reads back what it wrote: a range whose every position was
      written, and whose file was not removed since, is answered with the
      payload, whatever else was written, read, flushed or removed. */
  lemma DownloadReads(payload: Disk, st: State, ops: seq<Op>, f: nat, at: nat, len: nat)
    requires Coherent(st) && Clean(st) && AllSlices(payload, st.held)
    requires forall op <- ops :: Named(st, op) && PayloadOp(payload, op)
    requires st.Usable(f) && len > 0 && forall i: nat | at <= i < at + len :: PutSinceRemoved(ops, f, i)
    ensures f in payload && at + len <= |payload[f]|
    ensures Read(Play(st, ops), f, at, len).1 == Ok(payload[f][at..at + len])
  {
    hide Coherent, Clean, View, Read, Play, PlainPlay, PayloadOp, Named, PutSinceRemoved;
    var files := PlainPlay(DataFiles(st), View(st), ops);
    PayloadPlay(payload, st, ops);
    PutIsWritten(payload, st, ops, f, at + len - 1);
    ReadAfterPlay(st, ops, f, at, len);
    forall i: nat | at <= i < at + len
      ensures Has(files, payload, f, i)
    {
      PlayHas(DataFiles(st), View(st), payload, ops, f, i);
    }
    assert Has(files, payload, f, at + len - 1);
    SameRange(files, payload, f, at, len);
  }

  lemma SameRange(files: Disk, payload: Disk, f: nat, at: nat, len: nat)
    requires f in files && f in payload && at + len <= |files[f]| && at + len <= |payload[f]|
    requires forall i: nat | at <= i < at + len :: Has(files, payload, f, i)
    ensures files[f][at..at + len] == payload[f][at..at + len]
  {
    var x, y := files[f][at..at + len], payload[f][at..at + len];
    forall k | 0 <= k < len
      ensures x[k] == y[k]
    {
      assert Has(files, payload, f, at + k);
    }
  }
}
