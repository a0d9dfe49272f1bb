/** Whole sequences of calls: the storage against one byte string per file. */
module StorageSequences {
  import opened Device
  import opened Coalescing
  import opened CoalescingOrder
  import opened StorageSpec
  import opened StorageInvariant
  import opened StorageRefinement
  import opened StorageCalls
  import opened StorageReads
  import opened StorageReach
  import opened Storage

  datatype Op =
    | WriteOp(w: Run)
    | VectoredOp(file: nat, at: nat, b0: seq<byte>, b1: seq<byte>)
    | ReadOp(file: nat, at: nat, len: nat)
    | FlushOp
    | RemoveOp(file: nat)

  function Step(st: State, op: Op): State {
    match op
    case WriteOp(w) => Write(st, w).0
    case VectoredOp(f, at, b0, b1) => WriteVectored(st, f, at, b0, b1).0
    case ReadOp(f, at, len) => Read(st, f, at, len).0
    case FlushOp => FlushAll(st).0
    case RemoveOp(f) => Remove(st, f).0
  }

  /** The same call on plain files, with no buffer and no handles: of the calls
      that name a file, those on a file that can hold data. */
  function PlainStep(data: set<nat>, files: Disk, op: Op): Disk {
    match op
    case WriteOp(w) => PlainWrite(data, files, w)
    case VectoredOp(f, at, b0, b1) => PlainWrite(data, files, Run(f, at, b0 + b1))
    case ReadOp(_, _, _) => files
    case FlushOp => files
    case RemoveOp(f) => if f in data then files - {f} else files
  }

  function Play(st: State, ops: seq<Op>): State
    decreases |ops|
  {
    if ops == [] then st else Play(Step(st, ops[0]), ops[1..])
  }

  function PlainPlay(data: set<nat>, files: Disk, ops: seq<Op>): Disk
    decreases |ops|
  {
    if ops == [] then files else PlainPlay(data, PlainStep(data, files, ops[0]), ops[1..])
  }

  /** No older byte lands over a newer one during this call, and none is lost. */
  ghost predicate FaithfulOp(st: State, op: Op) {
    match op
    case WriteOp(w) => FaithfulWrite(st, w)
    case VectoredOp(f, at, b0, b1) => FaithfulSlices(st, f, at, b0, b1)
    case _ => true
  }

  ghost predicate FaithfulPlay(st: State, ops: seq<Op>)
    decreases |ops|
  {
    ops == [] || (FaithfulOp(st, ops[0]) && FaithfulPlay(Step(st, ops[0]), ops[1..]))
  }

  /** Every call, refused or not, keeps the invariant. */
  lemma StepKeeps(st: State, op: Op)
    requires Coherent(st)
    ensures Coherent(Step(st, op)) && SamePaths(Step(st, op), st)
    ensures DataFiles(Step(st, op)) == DataFiles(st)
  {
    hide Coherent, View, Accept, Read, WriteVectored, FlushAll, Remove;
    match op
    case WriteOp(w) =>
      if w.bytes != [] {
        CalledKeeps(st);
        AcceptKeeps(Called(st), w);
      }
    case VectoredOp(f, at, b0, b1) =>
      WriteVectoredKeeps(st, f, at, b0, b1);
    case ReadOp(f, at, len) =>
      ReadKeeps(st, f, at, len);
    case FlushOp =>
      FlushAllKeeps(st);
    case RemoveOp(f) =>
      RemoveKeeps(st, f);
  }

  /** One call does to the contents what it does to plain files exactly when it
      is faithful. */
  lemma StepIff(st: State, op: Op)
    requires Coherent(st)
    ensures View(Step(st, op)) == PlainStep(DataFiles(st), View(st), op) <==> FaithfulOp(st, op)
  {
    hide Coherent, View, Accept, Read, WriteVectored, FlushAll, Remove, FaithfulWrite, FaithfulSlices;
    match op
    case WriteOp(w) =>
      CalledIff(st, w);
      WriteIsSlice(st, w);
    case VectoredOp(f, at, b0, b1) =>
      WriteVectoredIff(st, f, at, b0, b1);
    case ReadOp(f, at, len) =>
      ReadExact(st, f, at, len);
    case FlushOp =>
      FlushAllView(st);
    case RemoveOp(f) =>
      RemoveView(st, f);
      RemoveNothing(st, f);
  }

  lemma WriteIsSlice(st: State, w: Run)
    ensures View(Write(st, w).0) == View(AcceptSlice(Called(st), w).0)
  {
    CalledView(st);
  }

  lemma RemoveNothing(st: State, f: nat)
    ensures !st.Usable(f) ==> View(st) - {f} == View(st)
  {
  }

  /** Over every sequence of calls the contents are the plain files. */
  lemma {:induction false} PlayRefines(st: State, ops: seq<Op>)
    requires Coherent(st) && FaithfulPlay(st, ops)
    ensures View(Play(st, ops)) == PlainPlay(DataFiles(st), View(st), ops)
    decreases |ops|
  {
    hide Step, Coherent, View, FaithfulOp, PlainStep;
    if ops != [] {
      StepIff(st, ops[0]);
      StepKeeps(st, ops[0]);
      PlayRefines(Step(st, ops[0]), ops[1..]);
    }
  }

  lemma {:induction false} PlayKeeps(st: State, ops: seq<Op>)
    requires Coherent(st)
    ensures Coherent(Play(st, ops)) && SamePaths(Play(st, ops), st)
    decreases |ops|
  {
    hide Step, Coherent;
    if ops != [] {
      StepKeeps(st, ops[0]);
      PlayKeeps(Step(st, ops[0]), ops[1..]);
    }
  }

  // --- What was written is read ---------------------------------------------------

  /** The call puts a byte at the position, and is not cut short before it. */
  predicate Writes(st: State, op: Op, f: nat, i: nat) {
    match op
    case WriteOp(w) => w.Covers(f, i)
    case VectoredOp(g, at, b0, b1) =>
      || Run(g, at, b0).Covers(f, i)
      || (Run(g, at + |b0|, b1).Covers(f, i) && AcceptSlice(Called(st), Run(g, at, b0)).1.Done?)
    case _ => false
  }

  /** The call neither removes the file nor pushes out, refused, a run that
      holds the position. */
  ghost predicate Spares(st: State, op: Op, f: nat, i: nat) {
    match op
    case WriteOp(w) => SparesAt(st, w, f, i)
    case VectoredOp(g, at, b0, b1) => SparesAt(st, Run(g, at, if b0 != [] then b0 else b1), f, i)
    case RemoveOp(g) => g != f
    case _ => true
  }

  lemma CalledReached(st: State, w: Run, f: nat, i: nat)
    ensures Reached(Called(st), f, i) <==> Reached(st, f, i)
    ensures SparesAt(Called(st), w, f, i) <==> SparesAt(st, w, f, i)
  {
    SameRefusals(Called(st), st, Hold(st.held, w).1);
  }

  lemma VectoredReached(st: State, g: nat, at: nat, b0: seq<byte>, b1: seq<byte>, f: nat, i: nat)
    requires Coherent(st) && st.Usable(f)
    requires var op := VectoredOp(g, at, b0, b1); Writes(st, op, f, i) || (Reached(st, f, i) && Spares(st, op, f, i))
    ensures Reached(WriteVectored(st, g, at, b0, b1).0, f, i)
  {
    hide AcceptSlice, Coherent, SparesAt, Reached;
    if b0 != [] || b1 != [] {
      var w0, w1 := Run(g, at, b0), Run(g, at + |b0|, b1);
      CalledKeeps(st);
      CalledReached(st, w0, f, i);
      CalledReached(st, w1, f, i);
      SparesTaken(st, w0, f, i);
      if w0.Covers(f, i) || Reached(st, f, i) {
        SliceReached(Called(st), w0, f, i);
      }
      var one := AcceptSliceKeeps(Called(st), w0);
      SliceNone(Called(st), w0);
      SparesTaken(one, w1, f, i);
      if AcceptSlice(Called(st), w0).1.Done? && (w1.Covers(f, i) || Reached(one, f, i)) {
        SliceRefused(Called(st), w0);
        SliceReached(one, w1, f, i);
      }
    }
  }

  lemma SparesTaken(st: State, w: Run, f: nat, i: nat)
    ensures st.Usable(w.file) || w.bytes == [] ==> SparesAt(st, w, f, i)
  {
  }

  lemma SliceNone(st: State, w: Run)
    ensures w.bytes == [] ==> AcceptSlice(st, w) == (st, Done)
  {
  }

  /** A slice that is taken names a file that can hold data. */
  lemma SliceRefused(st: State, w: Run)
    requires Coherent(st)
    ensures AcceptSlice(st, w).1.Done? && w.bytes != [] ==> st.Usable(w.file)
  {
    if w.bytes != [] {
      AcceptKeeps(st, w);
    }
  }

  /** A position is reached by the call that writes it, and stays reached
      through every call that spares it. */
  lemma StepReached(st: State, op: Op, f: nat, i: nat)
    requires Coherent(st) && st.Usable(f)
    requires Writes(st, op, f, i) || (Reached(st, f, i) && Spares(st, op, f, i))
    ensures Reached(Step(st, op), f, i)
  {
    hide Coherent, AcceptSlice, Reached, SparesAt, WriteVectored, Read, FlushAll, Remove;
    match op
    case WriteOp(w) =>
      CalledKeeps(st);
      CalledReached(st, w, f, i);
      SliceReached(Called(st), w, f, i);
      SliceIsWrite(st, w, f, i);
    case VectoredOp(g, at, b0, b1) =>
      VectoredReached(st, g, at, b0, b1, f, i);
    case ReadOp(g, at, len) =>
      ReadReached(st, g, at, len, f, i);
    case FlushOp =>
      FlushAllReached(st, f, i);
    case RemoveOp(g) =>
      RemoveReached(st, g, f, i);
  }

  lemma SliceIsWrite(st: State, w: Run, f: nat, i: nat)
    ensures Reached(Write(st, w).0, f, i) <==> Reached(AcceptSlice(Called(st), w).0, f, i)
  {
  }

  /** The position was written, and every call since has spared it. */
  ghost predicate WrittenSince(st: State, ops: seq<Op>, f: nat, i: nat)
    decreases |ops|
  {
    && ops != []
    && var next := Step(st, ops[0]);
       || (Writes(st, ops[0], f, i) && SparedSince(next, ops[1..], f, i))
       || WrittenSince(next, ops[1..], f, i)
  }

  ghost predicate SparedSince(st: State, ops: seq<Op>, f: nat, i: nat)
    decreases |ops|
  {
    ops == [] || (Spares(st, ops[0], f, i) && SparedSince(Step(st, ops[0]), ops[1..], f, i))
  }

  lemma {:induction false} SparedReached(st: State, ops: seq<Op>, f: nat, i: nat)
    requires Coherent(st) && st.Usable(f) && Reached(st, f, i) && SparedSince(st, ops, f, i)
    ensures Reached(Play(st, ops), f, i)
    decreases |ops|
  {
    hide Coherent, Step, Spares, Reached;
    if ops != [] {
      StepReached(st, ops[0], f, i);
      StepKeeps(st, ops[0]);
      SparedReached(Step(st, ops[0]), ops[1..], f, i);
    }
  }

  lemma {:induction false} WrittenReached(st: State, ops: seq<Op>, f: nat, i: nat)
    requires Coherent(st) && st.Usable(f) && WrittenSince(st, ops, f, i)
    ensures Reached(Play(st, ops), f, i)
    decreases |ops|
  {
    hide Coherent, Step, Spares, Reached, Writes;
    var next := Step(st, ops[0]);
    StepKeeps(st, ops[0]);
    if Writes(st, ops[0], f, i) && SparedSince(next, ops[1..], f, i) {
      StepReached(st, ops[0], f, i);
      SparedReached(next, ops[1..], f, i);
    } else {
      WrittenReached(next, ops[1..], f, i);
    }
  }

  /** A read at the end of any faithful sequence: when it answers, it answers
      with the plain files; and it answers whenever the last byte it asks for
      was written and has not gone since. */
  lemma ReadAfterPlay(st: State, ops: seq<Op>, f: nat, at: nat, len: nat)
    requires Coherent(st) && FaithfulPlay(st, ops) && len > 0
    ensures var files := PlainPlay(DataFiles(st), View(st), ops);
            var r := Read(Play(st, ops), f, at, len).1;
            && (r.Ok? ==> f in files && at + len <= |files[f]| && r.value == files[f][at..at + len])
            && (st.Usable(f) && WrittenSince(st, ops, f, at + len - 1) ==> r.Ok?)
  {
    hide Coherent, View, Read, Play, PlainPlay, Reached, WrittenSince;
    var end := Play(st, ops);
    PlayRefines(st, ops);
    PlayKeeps(st, ops);
    ReadExact(end, f, at, len);
    if st.Usable(f) && WrittenSince(st, ops, f, at + len - 1) {
      WrittenReached(st, ops, f, at + len - 1);
      ReachedThere(end, f, at + len - 1);
    }
  }

  /** A reached position is one of a file that exists. */
  lemma ReachedThere(st: State, f: nat, i: nat)
    requires Coherent(st) && st.Usable(f) && Reached(st, f, i)
    ensures f in View(st)
  {
    ViewKeys(st, f);
    HeldUsable(st);
  }

  // --- Where last write wins fails ----------------------------------------------

  /** A write of the region size overtakes a byte that is still held. */
  lemma PassThroughCounterexample()
    ensures var st := State(1, map[0 := []], [Run(0, 0, [1])], [0], [Slot(true, Writable)], Tally(0, 0, 0, 0, 0));
            var w := Run(0, 0, seq(WRITE_REGION, _ => 2));
            Coherent(st) && View(Accept(st, w).0) != Put(View(st), w)
  {
    var r := Run(0, 0, [1]);
    var st := State(1, map[0 := []], [r], [0], [Slot(true, Writable)], Tally(0, 0, 0, 0, 0));
    var w := Run(0, 0, seq(WRITE_REGION, _ => 2));
    assert Coherent(st);
    assert r in Late(st.held, w) && w.Covers(0, 0) && r.Covers(0, 0);
    assert !Agree(w, r);
    AcceptIff(st, w);
  }

  /** A write that fills its run overtakes a run held behind it. */
  lemma FilledRunCounterexample()
    ensures var first := Run(0, 0, seq(WRITE_REGION - 1, _ => 1));
            var behind := Run(0, WRITE_REGION, [1]);
            var st := State(1, map[0 := []], [first, behind], [0], [Slot(true, Writable)], Tally(0, 0, 0, 0, 0));
            var w := Run(0, WRITE_REGION - 1, [2, 2]);
            Coherent(st) && View(Accept(st, w).0) != Put(View(st), w)
  {
    var first := Run(0, 0, seq(WRITE_REGION - 1, _ => 1));
    var behind := Run(0, WRITE_REGION, [1]);
    var st := State(1, map[0 := []], [first, behind], [0], [Slot(true, Writable)], Tally(0, 0, 0, 0, 0));
    var w := Run(0, WRITE_REGION - 1, [2, 2]);
    assert Coherent(st);
    assert st.held[1..] == [behind];
    assert behind in Late(st.held, w) && w.Covers(0, WRITE_REGION) && behind.Covers(0, WRITE_REGION);
    assert !Agree(w, behind);
    AcceptIff(st, w);
  }

  // --- The storage in place -------------------------------------------------------

  /** One call on the storage object. */
  method Perform(store: SafeStorage, op: Op)
    requires store.Valid()
    modifies store.Repr()
    ensures store.State() == Step(old(store.State()), op) && store.Valid()
  {
    StepKeeps(store.State(), op);
    match op
    case WriteOp(w) =>
      var _ := store.PwriteAll(w.file, w.offset, w.bytes);
    case VectoredOp(f, at, b0, b1) =>
      var _ := store.PwriteAllVectored(f, at, b0, b1);
    case ReadOp(f, at, len) =>
      var _ := store.PreadExact(f, at, len);
    case FlushOp =>
      var _ := store.FlushAll();
    case RemoveOp(f) =>
      var _ := store.RemoveFile(f);
  }

  /** A whole session on the storage object, refused calls and all, ends with
      the device holding what plain last-write-wins files would. */
  method Session(store: SafeStorage, ops: seq<Op>)
    requires store.Valid() && FaithfulPlay(store.State(), ops)
    modifies store.Repr()
    ensures store.Valid() && store.coalesce.runs == []
    ensures store.OnDevice() == PlainPlay(old(DataFiles(store.State())), old(View(store.State())), ops)
  {
    ghost var was := store.State();
    PlayRefines(was, ops);
    for i := 0 to |ops|
      invariant store.Valid()
      invariant Play(was, ops) == Play(store.State(), ops[i..])
    {
      assert ops[i..][0] == ops[i] && ops[i..][1..] == ops[i + 1..];
      Perform(store, ops[i]);
    }
    store.Drop();
  }
}
