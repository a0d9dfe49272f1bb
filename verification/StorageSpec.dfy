/** What each storage operation does to the whole state, as functions of the
    state before it, and the invariant those functions keep. */
module StorageSpec {
  import opened Device
  import opened Coalescing
  import opened OpenFiles

  /** Why a file is being opened, and therefore how. */
  datatype Intent = ReadIt | WriteIt

  datatype Mode = Closed | ReadOnly | Writable

  /** A payload file's slot. A padding file has no path and is never opened. */
  datatype Slot = Slot(hasPath: bool, mode: Mode) {

    predicate Enough(intent: Intent) {
      match intent
      case ReadIt => mode != Closed
      case WriteIt => mode == Writable
    }
  }

  datatype Tally = Tally(writeCalls: nat, writeOps: nat, writeBytes: nat, readOps: nat, readBytes: nat)

  datatype Error = NoSuchFile | HoldsNoData | NotCreated | EndOfFile

  datatype Outcome = Done | Refused(error: Error)

  datatype Written = Wrote(bytes: nat) | Unwritten(error: Error)

  datatype Answer = Ok(value: seq<byte>) | Failed(error: Error)

  datatype State = State(cap: nat, disk: Disk, held: seq<Run>, order: seq<nat>, slots: seq<Slot>, tally: Tally) {

    predicate Usable(f: nat) {
      f < |slots| && slots[f].hasPath
    }

    predicate IsOpen(f: nat) {
      f < |slots| && slots[f].mode != Closed
    }

    predicate IsWritable(f: nat) {
      f < |slots| && slots[f].mode == Writable
    }
  }

  /** The files that can hold data. */
  function DataFiles(st: State): set<nat> {
    set f: nat | f < |st.slots| && st.slots[f].hasPath
  }

  /** What is on a device in the files that can hold data. */
  function Files(st: State, d: Disk): Disk {
    map f | f in d && st.Usable(f) :: d[f]
  }

  /** What a reader that waited for every held byte would find in the files
      that can hold data. */
  function View(st: State): Disk {
    Files(st, Overlay(st.disk, st.held))
  }

  /** The open order is exactly the open slots, without duplicates and inside
      the cap, and an open file exists. */
  ghost predicate Tracked(st: State) {
    && |st.order| <= st.cap && st.cap >= 1 && NoDuplicates(st.order)
    && (forall f: nat :: f in st.order <==> st.IsOpen(f))
    && (forall f: nat :: st.IsOpen(f) ==> st.slots[f].hasPath && f in st.disk)
  }

  /** A run whose handle is gone is a run nothing can write. Every file that
      can hold data and has held runs has a writable handle, but for the one
      being opened. A refused write can leave a run of another file behind. */
  ghost predicate BackedBut(st: State, x: nat) {
    forall r <- st.held :: r.file == x || !st.Usable(r.file) || st.IsWritable(r.file)
  }

  ghost predicate Backed(st: State) {
    forall r <- st.held :: !st.Usable(r.file) || st.IsWritable(r.file)
  }

  ghost predicate Coherent(st: State) {
    Tracked(st) && Bounded(st.held) && Backed(st)
  }

  /** No refused write has left a run behind. */
  ghost predicate Clean(st: State) {
    forall r <- st.held :: st.Usable(r.file)
  }

  // --- The operations -----------------------------------------------------

  function Counted(t: Tally, runs: seq<Run>): Tally {
    t.(writeOps := t.writeOps + |runs|, writeBytes := t.writeBytes + Weight(runs))
  }

  /** Runs written through handles that are already open. */
  function Land(st: State, runs: seq<Run>): State {
    st.(disk := Overlay(st.disk, runs), tally := Counted(st.tally, runs))
  }

  function SetMode(st: State, f: nat, m: Mode): State {
    if f < |st.slots| then st.(slots := st.slots[f := st.slots[f].(mode := m)]) else st
  }

  /** Every held run for one file, on the device. */
  function FlushFile(st: State, f: nat): State {
    Land(st, Taken(st.held, OfFile(f))).(held := Left(st.held, OfFile(f)))
  }

  function Evict(st: State, victims: seq<nat>): State
    decreases |victims|
  {
    if victims == [] then st
    else Evict(SetMode(FlushFile(st, victims[0]), victims[0], Closed), victims[1..])
  }

  function Reopen(st: State, f: nat, intent: Intent): State {
    match intent
    case ReadIt => SetMode(st, f, ReadOnly)
    case WriteIt => SetMode(st, f, Writable).(disk := Create(st.disk, f))
  }

  /** The files that close so that `f` can open, and the order then. */
  function Victims(st: State, f: nat): seq<nat> {
    Pushed(st.order, f)[..Over(|Pushed(st.order, f)|, st.cap)]
  }

  function Survivors(st: State, f: nat): seq<nat> {
    Pushed(st.order, f)[Over(|Pushed(st.order, f)|, st.cap)..]
  }

  /** Make sure one file is open, for at least what the caller needs. The
      answer is false for a read of a file that does not exist. */
  function EnsureOpen(st: State, f: nat, intent: Intent): (State, bool) {
    if f >= |st.slots| then (st, false)
    else if st.slots[f].Enough(intent) then (st, true)
    else if intent == ReadIt && f !in st.disk then (st, false)
    else (Reopen(Evict(st.(order := Survivors(st, f)), Victims(st, f)), f, intent), true)
  }

  /** Whether the file can hold data at all, and why not. */
  function Refusal(st: State, f: nat): Outcome {
    if f >= |st.slots| then Refused(NoSuchFile)
    else if !st.slots[f].hasPath then Refused(HoldsNoData)
    else Done
  }

  function WriteThrough(st: State, r: Run): (State, Outcome) {
    var refusal := Refusal(st, r.file);
    if refusal.Refused? then (st, refusal)
    else (Land(EnsureOpen(st, r.file, WriteIt).0, [r]), refusal)
  }

  /** What the first of some runs to be refused is refused for. */
  function FirstRefusal(st: State, runs: seq<Run>): Outcome {
    if runs == [] then Done
    else if Refusal(st, runs[0].file).Refused? then Refusal(st, runs[0].file)
    else FirstRefusal(st, runs[1..])
  }

  /** The runs whose file can hold data. */
  function Live(st: State, runs: seq<Run>): seq<Run> {
    if runs == [] then [] else (if st.Usable(runs[0].file) then [runs[0]] else []) + Live(st, runs[1..])
  }

  /** Runs written in the order they were taken. Every one is attempted, and
      the first failure is what the caller hears about. */
  function WriteAll(st: State, runs: seq<Run>): (State, Outcome)
    decreases |runs|
  {
    if runs == [] then (st, Done)
    else
      var (first, r) := WriteThrough(st, runs[0]);
      var (last, rest) := WriteAll(first, runs[1..]);
      (last, if r.Refused? then r else rest)
  }

  /** Take one write into the buffer, or straight to the device. A small write
      is buffered before the file it names is looked at. */
  function Accept(st: State, w: Run): (State, Outcome) {
    if PassesThrough(w) then WriteThrough(st, w)
    else
      var (held, displaced) := Hold(st.held, w);
      var buffered := st.(held := held);
      var refusal := Refusal(st, w.file);
      if refusal.Refused? then (buffered, refusal)
      else WriteAll(EnsureOpen(buffered, w.file, WriteIt).0, displaced)
  }

  function AcceptSlice(st: State, w: Run): (State, Outcome) {
    if w.bytes == [] then (st, Done) else Accept(st, w)
  }

  function Called(st: State): State {
    st.(tally := st.tally.(writeCalls := st.tally.writeCalls + 1))
  }

  /** A write of no bytes is not a write, and opens nothing. */
  function Write(st: State, w: Run): (State, Outcome) {
    if w.bytes == [] then (st, Done) else Accept(Called(st), w)
  }

  /** Two adjacent slices, one after the other through the same buffer. */
  function WriteVectored(st: State, f: nat, at: nat, b0: seq<byte>, b1: seq<byte>): (State, Written) {
    if b0 == [] && b1 == [] then (st, Wrote(0))
    else
      var (one, r0) := AcceptSlice(Called(st), Run(f, at, b0));
      if r0.Refused? then (one, Unwritten(r0.error))
      else
        var (two, r1) := AcceptSlice(one, Run(f, at + |b0|, b1));
        (two, if r1.Refused? then Unwritten(r1.error) else Wrote(|b0| + |b1|))
  }

  /** A positioned read through an open handle: all of it or nothing. */
  function Fetch(st: State, f: nat, at: nat, len: nat): (State, Answer) {
    var refusal := Refusal(st, f);
    if refusal.Refused? then (st, Failed(refusal.error))
    else
      var (ready, there) := EnsureOpen(st, f, ReadIt);
      var content := Content(ready.disk, f);
      if !there then (ready, Failed(NotCreated))
      else if len != 0 && at + len > |content| then (ready, Failed(EndOfFile))
      else
        var t := ready.tally.(readOps := ready.tally.readOps + 1, readBytes := ready.tally.readBytes + len);
        (ready.(tally := t), Ok(if len == 0 then [] else content[at..at + len]))
  }

  /** Flush what overlaps the range, then read it from the device. */
  function Read(st: State, f: nat, at: nat, len: nat): (State, Answer) {
    var c := Touching(f, at, len);
    var (flushed, r) := WriteAll(st.(held := Left(st.held, c)), Taken(st.held, c));
    if r.Refused? then (flushed, Failed(r.error)) else Fetch(flushed, f, at, len)
  }

  function FlushAll(st: State): (State, Outcome) {
    WriteAll(st.(held := []), st.held)
  }

  /** Held bytes are dropped rather than flushed: the file is about to go. */
  function Remove(st: State, f: nat): (State, Outcome) {
    var refusal := Refusal(st, f);
    if refusal == Refused(HoldsNoData) then (st, Done)
    else if refusal.Refused? then (st, refusal)
    else
      (SetMode(st, f, Closed).(held := Left(st.held, OfFile(f)),
                               order := Without(st.order, f),
                               disk := st.disk - {f}), refusal)
  }

  /** What is left behind when the handles and the held runs move out. */
  function Vacated(st: State): State {
    st.(held := [], order := [],
        slots := seq(|st.slots|, i requires 0 <= i < |st.slots| => st.slots[i].(mode := Closed)))
  }
}
