/** The storage itself: slots, open order, held runs and device, changed in
    place, each method proved to compute its function in StorageSpec. */
module Storage {
  import opened Device
  import opened Coalescing
  import opened OpenFiles
  import opened StorageSpec
  import Spec = StorageSpec
  import opened StorageInvariant
  import opened StorageReads

  /** The payload directory, shared by every instance that writes to it. */
  class Files {
    var content: Disk

    constructor (content: Disk)
      ensures this.content == content
    {
      this.content := content;
    }
  }

  class Metrics {
    var writeCalls: nat
    var writeOps: nat
    var writeBytes: nat
    var readOps: nat
    var readBytes: nat

    constructor ()
      ensures Counts() == Tally(0, 0, 0, 0, 0)
    {
      writeCalls, writeOps, writeBytes, readOps, readBytes := 0, 0, 0, 0, 0;
    }

    function Counts(): Tally
      reads this
    {
      Tally(writeCalls, writeOps, writeBytes, readOps, readBytes)
    }
  }

  /** What the caller hears about is the first refusal there is. */
  lemma FirstHeard(st: State, runs: seq<Run>, sound: bool)
    requires if sound then Coherent(st) else AllWritable(st, runs)
    ensures WriteAll(st, runs).1 == FirstRefusal(st, runs)
  {
    if sound {
      WriteAllKeeps(st, runs);
    } else {
      WriteAllOpen(st, runs);
    }
  }

  class SafeStorage {
    const files: Files
    const metrics: Metrics
    const coalesce: Coalescer
    const open: OpenSet
    var slots: seq<Slot>

    ghost function Repr(): set<object> {
      {this, files, metrics, coalesce, open}
    }

    ghost function State(): State
      reads Repr()
    {
      Spec.State.State(open.cap, files.content, coalesce.runs, open.order, slots, metrics.Counts())
    }

    ghost predicate Valid()
      reads Repr()
    {
      Coherent(State())
    }

    /** What is on the device in the files that can hold data. */
    ghost function OnDevice(): Disk
      reads Repr()
    {
      Spec.Files(State(), files.content)
    }

    /** A storage with every slot closed and nothing held. */
    constructor (files: Files, metrics: Metrics, hasPath: seq<bool>, cap: nat)
      ensures Valid() && fresh(coalesce) && fresh(open)
      ensures this.files == files && this.metrics == metrics
      ensures State() == Spec.State.State(if cap == 0 then 1 else cap, files.content, [], [],
                                          seq(|hasPath|, i requires 0 <= i < |hasPath| => Slot(hasPath[i], Closed)),
                                          metrics.Counts())
    {
      this.files := files;
      this.metrics := metrics;
      coalesce := new Coalescer();
      open := new OpenSet(cap);
      slots := seq(|hasPath|, i requires 0 <= i < |hasPath| => Slot(hasPath[i], Closed));
    }

    /** An instance taking over handles, order and runs from another. */
    constructor Over(files: Files, metrics: Metrics, coalesce: Coalescer, open: OpenSet, slots: seq<Slot>)
      ensures this.files == files && this.metrics == metrics
      ensures this.coalesce == coalesce && this.open == open && this.slots == slots
    {
      this.files := files;
      this.metrics := metrics;
      this.coalesce := coalesce;
      this.open := open;
      this.slots := slots;
    }

    /** Make sure one file is open. Eviction writes the victims' held runs
        through handles that are still open, so the calls nested in it find
        their file open and return at the first test. */
    method EnsureOpen(f: nat, intent: Intent) returns (there: bool)
      requires State().Usable(f)
      requires slots[f].Enough(intent) || (Tracked(State()) && Bounded(coalesce.runs) && BackedBut(State(), f))
      modifies Repr()
      ensures State() == Spec.EnsureOpen(old(State()), f, intent).0
      ensures there == Spec.EnsureOpen(old(State()), f, intent).1
      decreases if slots[f].Enough(intent) then 0 else 1, 0
    {
      ghost var was := State();
      if slots[f].Enough(intent) {
        return true;
      }
      if intent == ReadIt && f !in files.content {
        return false;
      }
      VictimsReady(was, f);
      var evict := open.Opened(f);
      CloseAll(evict, f);
      EvictEffect(was.(order := Survivors(was, f)), evict);
      assert State() == Evict(was.(order := Survivors(was, f)), Victims(was, f));
      slots := slots[f := slots[f].(mode := if intent == WriteIt then Writable else ReadOnly)];
      if intent == WriteIt {
        files.content := Create(files.content, f);
      }
      there := true;
    }

    /** Close the files that make room for `opening`: each one's held runs go to
        the device first, through the handle that is about to be closed. */
    method CloseAll(evict: seq<nat>, opening: nat)
      requires opening !in evict && forall v <- evict :: v < |slots|
      requires forall r <- coalesce.runs :: r.file in evict ==> State().IsWritable(r.file) && State().Usable(r.file)
      modifies Repr()
      ensures State() == Evict(old(State()), evict)
      decreases 0, 4
    {
      ghost var was := State();
      for i := 0 to |evict|
        invariant Evict(State(), evict[i..]) == Evict(was, evict)
        invariant |slots| == |was.slots|
        invariant forall r <- coalesce.runs :: r.file in evict ==> State().IsWritable(r.file) && State().Usable(r.file)
      {
        var victim := evict[i];
        ghost var before := State();
        assert victim in evict && evict[i..][0] == victim && evict[i..][1..] == evict[i + 1..];
        if victim != opening {
          TakenMembers(before.held, OfFile(victim));
          FlushFile(victim);
          assert slots == before.slots && coalesce.runs == Left(before.held, OfFile(victim));
          slots := slots[victim := slots[victim].(mode := Closed)];
        }
        assert State() == SetMode(Spec.FlushFile(before, victim), victim, Closed);
      }
    }

    /** Push every held run for one file to the device. */
    method FlushFile(f: nat)
      requires forall r <- coalesce.runs :: r.file == f ==> State().IsWritable(f) && State().Usable(f)
      modifies Repr()
      ensures State() == Spec.FlushFile(old(State()), f)
      decreases 0, 3
    {
      ghost var was := State();
      TakenMembers(coalesce.runs, OfFile(f));
      var taken := coalesce.TakeFile(f);
      ghost var left := State();
      RefusalIff(left, taken);
      WriteAllOpen(left, taken);
      var r := FlushRuns(taken, false);
    }

    /** Put held runs on the device, in the order they were taken: from a sound
        state, or through handles that are all open already. Every one is
        attempted even when an earlier one is refused. */
    method FlushRuns(runs: seq<Run>, ghost sound: bool) returns (first: Outcome)
      requires if sound then Valid() else AllWritable(State(), runs)
      modifies Repr()
      ensures State() == WriteAll(old(State()), runs).0 && first == WriteAll(old(State()), runs).1
      ensures first == FirstRefusal(old(State()), runs)
      decreases if sound then 1 else 0, 2
    {
      ghost var was := State();
      FirstHeard(was, runs, sound);
      first := Done;
      for i := 0 to |runs|
        invariant WriteAll(was, runs).0 == WriteAll(State(), runs[i..]).0
        invariant WriteAll(was, runs).1 == if first.Refused? then first else WriteAll(State(), runs[i..]).1
        invariant if sound then Valid() else AllWritable(State(), runs)
      {
        WritingStep(State(), runs, i);
        var outcome := WriteThrough(runs[i]);
        if outcome.Refused? && first.Done? {
          first := outcome;
        }
      }
    }

    /** One positioned write, counted. */
    method WriteThrough(w: Run) returns (outcome: Outcome)
      requires State().Usable(w.file) ==>
                 || slots[w.file].Enough(WriteIt)
                 || (Tracked(State()) && Bounded(coalesce.runs) && BackedBut(State(), w.file))
      modifies Repr()
      ensures State() == Spec.WriteThrough(old(State()), w).0 && outcome == Spec.WriteThrough(old(State()), w).1
      decreases if State().Usable(w.file) && !State().IsWritable(w.file) then 1 else 0, 1
    {
      if w.file >= |slots| {
        return Refused(NoSuchFile);
      }
      if !slots[w.file].hasPath {
        return Refused(HoldsNoData);
      }
      var there := EnsureOpen(w.file, WriteIt);
      StorageRefinement.OverlayOne(files.content, w);
      files.content := Put(files.content, w);
      metrics.writeOps := metrics.writeOps + 1;
      metrics.writeBytes := metrics.writeBytes + |w.bytes|;
      assert Weight([w]) == |w.bytes|;
      outcome := Done;
    }

    /** Take one write into the buffer, or straight to the device. */
    method Accept(w: Run) returns (outcome: Outcome)
      requires Valid() && w.bytes != []
      modifies Repr()
      ensures State() == Spec.Accept(old(State()), w).0 && outcome == Spec.Accept(old(State()), w).1
      ensures Valid() && outcome == AcceptAnswer(old(State()), w)
    {
      ghost var was := State();
      AcceptKeeps(was, w);
      var a := coalesce.Append(w.file, w.offset, w.bytes);
      match a
      case PassThrough =>
        outcome := WriteThrough(w);
      case Held(displaced) =>
        outcome := EnsureWritable(was, w);
        if outcome.Refused? {
          return;
        }
        StorageRefinement.BufferedReady(was, w);
        outcome := FlushRuns(displaced, true);
    }

    /** The half of a buffered write that is not buffering: the file exists and
        is open for writing afterwards. */
    method EnsureWritable(ghost was: State, w: Run) returns (outcome: Outcome)
      requires Coherent(was) && w.bytes != [] && !PassesThrough(w)
      requires State() == was.(held := Hold(was.held, w).0)
      modifies Repr()
      ensures outcome == Refusal(was, w.file)
      ensures State() == if outcome.Refused? then old(State()) else Spec.EnsureOpen(old(State()), w.file, WriteIt).0
    {
      if w.file >= |slots| {
        return Refused(NoSuchFile);
      }
      if !slots[w.file].hasPath {
        return Refused(HoldsNoData);
      }
      HoldBounded(was.held, w);
      CoalescingOrder.HoldApart(was.held, w);
      var there := EnsureOpen(w.file, WriteIt);
      outcome := Done;
    }

    method PwriteAll(f: nat, offset: nat, buf: seq<byte>) returns (outcome: Outcome)
      requires Valid()
      modifies Repr()
      ensures var w := Run(f, offset, buf);
              State() == Spec.Write(old(State()), w).0 && outcome == Spec.Write(old(State()), w).1
      ensures Valid() && outcome == if buf == [] then Done else AcceptAnswer(old(State()), Run(f, offset, buf))
    {
      hide Spec.Accept, AcceptAnswer, Coherent;
      if buf == [] {
        return Done;
      }
      ghost var w := Run(f, offset, buf);
      CalledKeeps(State());
      CalledAnswer(State(), w);
      metrics.writeCalls := metrics.writeCalls + 1;
      outcome := Accept(Run(f, offset, buf));
    }

    method PwriteAllVectored(f: nat, offset: nat, b0: seq<byte>, b1: seq<byte>) returns (r: Written)
      requires Valid()
      modifies Repr()
      ensures State() == Spec.WriteVectored(old(State()), f, offset, b0, b1).0
      ensures r == Spec.WriteVectored(old(State()), f, offset, b0, b1).1
      ensures Valid()
    {
      hide Spec.AcceptSlice;
      if b0 == [] && b1 == [] {
        return Wrote(0);
      }
      ghost var was := Called(State());
      metrics.writeCalls := metrics.writeCalls + 1;
      var first := AcceptSlice(Run(f, offset, b0));
      ghost var one := State();
      assert Spec.AcceptSlice(was, Run(f, offset, b0)).0 == one;
      if first.Refused? {
        return Unwritten(first.error);
      }
      var second := AcceptSlice(Run(f, offset + |b0|, b1));
      assert Spec.AcceptSlice(one, Run(f, offset + |b0|, b1)).0 == State();
      r := if second.Refused? then Unwritten(second.error) else Wrote(|b0| + |b1|);
    }

    method AcceptSlice(w: Run) returns (outcome: Outcome)
      requires Valid()
      modifies Repr()
      ensures State() == Spec.AcceptSlice(old(State()), w).0 && outcome == Spec.AcceptSlice(old(State()), w).1
      ensures Valid()
    {
      if w.bytes == [] {
        return Done;
      }
      outcome := Accept(w);
    }

    /** Flush what overlaps the range, then read it from the device. */
    method PreadExact(f: nat, offset: nat, len: nat) returns (r: Answer)
      requires Valid()
      modifies Repr()
      ensures State() == Spec.Read(old(State()), f, offset, len).0
      ensures r == Spec.Read(old(State()), f, offset, len).1
      ensures Valid() && View(State()) == old(View(State()))
    {
      hide Spec.Fetch, Coherent, View, Reaches;
      ghost var was := State();
      ReadKeeps(was, f, offset, len);
      ReadExact(was, f, offset, len);
      ghost var flushed := FlushOverlapping(was, Touching(f, offset, len));
      TakenReady(was, Touching(f, offset, len));
      var taken := coalesce.TakeOverlapping(f, offset, len);
      var outcome := FlushRuns(taken, false);
      if outcome.Refused? {
        return Failed(outcome.error);
      }
      r := Fetch(f, offset, len);
    }

    /** One positioned read, counted. */
    method Fetch(f: nat, offset: nat, len: nat) returns (r: Answer)
      requires Valid()
      modifies Repr()
      ensures State() == Spec.Fetch(old(State()), f, offset, len).0
      ensures r == Spec.Fetch(old(State()), f, offset, len).1
    {
      if f >= |slots| {
        return Failed(NoSuchFile);
      }
      if !slots[f].hasPath {
        return Failed(HoldsNoData);
      }
      var there := EnsureOpen(f, ReadIt);
      if !there {
        return Failed(NotCreated);
      }
      var content := Content(files.content, f);
      if len != 0 && offset + len > |content| {
        return Failed(EndOfFile);
      }
      metrics.readOps := metrics.readOps + 1;
      metrics.readBytes := metrics.readBytes + len;
      r := Ok(if len == 0 then [] else content[offset..offset + len]);
    }

    /** Push every held run to the device. */
    method FlushAll() returns (outcome: Outcome)
      requires Valid()
      modifies Repr()
      ensures State() == Spec.FlushAll(old(State())).0 && outcome == Spec.FlushAll(old(State())).1
      ensures Valid() && coalesce.runs == [] && outcome == FirstRefusal(old(State()), old(coalesce.runs))
      ensures OnDevice() == old(View(State()))
      ensures files.content == Overlay(old(files.content), Live(old(State()), old(coalesce.runs)))
    {
      ghost var was := State();
      FlushAllView(was);
      AllTaken(was);
      var held := coalesce.TakeAll();
      outcome := FlushRuns(held, false);
    }

    method RemoveFile(f: nat) returns (outcome: Outcome)
      requires Valid()
      modifies Repr()
      ensures State() == Spec.Remove(old(State()), f).0 && outcome == Spec.Remove(old(State()), f).1
      ensures Valid()
    {
      RemoveKeeps(State(), f);
      if f >= |slots| {
        return Refused(NoSuchFile);
      }
      if !slots[f].hasPath {
        return Done;
      }
      var dropped := coalesce.TakeFile(f);
      slots := slots[f := slots[f].(mode := Closed)];
      open.Close(f);
      files.content := files.content - {f};
      outcome := Done;
    }

    /** Move the handles, the open order and the held runs to a new instance.
        Nothing is left behind for this one to write. */
    method Take() returns (other: SafeStorage)
      requires Valid()
      modifies Repr()
      ensures other.files == files && other.metrics == metrics
      ensures fresh(other) && fresh(other.coalesce) && fresh(other.open)
      ensures other.State() == old(State()) && other.Valid()
      ensures State() == Vacated(old(State())) && Valid()
    {
      ghost var was := State();
      VacatedDropsNothing(was);
      var taken := slots;
      slots := seq(|taken|, i requires 0 <= i < |taken| => taken[i].(mode := Closed));
      var moved := new OpenSet(open.cap);
      moved.order := open.order;
      open.order := [];
      var held := coalesce.TakeAll();
      var runs := new Coalescer();
      runs.runs := held;
      other := new SafeStorage.Over(files, metrics, runs, moved, taken);
    }

    /** The last resort: what is still held goes to the device. */
    method Drop()
      requires Valid()
      modifies Repr()
      ensures Valid() && coalesce.runs == [] && OnDevice() == old(View(State()))
      ensures files.content == Overlay(old(files.content), Live(old(State()), old(coalesce.runs)))
      ensures old(coalesce.runs) == [] ==> State() == old(State())
    {
      ghost var was := State();
      FlushAllView(was);
      AllTaken(was);
      var held := coalesce.TakeAll();
      if held == [] {
        return;
      }
      var outcome := FlushRuns(held, false);
    }
  }
}
