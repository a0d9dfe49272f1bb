/** What the buffer is for: a stream of small adjacent writes costs as many
    operations as it has regions, not as many as it has writes. */
module StorageStream {
  import opened Device
  import opened Coalescing
  import opened StorageSpec
  import opened StorageInvariant
  import opened StorageReads
  import opened StorageSequences

  /** One write after the other, each from where the one before it ended. */
  function Adjacent(f: nat, at: nat, parts: seq<seq<byte>>): seq<Op>
    decreases |parts|
  {
    if parts == [] then [] else [WriteOp(Run(f, at, parts[0]))] + Adjacent(f, at + |parts[0]|, parts[1..])
  }

  function Total(parts: seq<seq<byte>>): nat {
    if parts == [] then 0 else |parts[0]| + Total(parts[1..])
  }

  predicate Small(parts: seq<seq<byte>>) {
    forall p <- parts :: 0 < |p| < 1024 * 1024
  }

  /** Nothing is held but what the stream has brought since its last full run. */
  ghost predicate Streaming(st: State, f: nat, at: nat) {
    && Coherent(st) && st.Usable(f)
    && (st.held == [] || (|st.held| == 1 && st.held[0].file == f && st.held[0].End() == at && st.IsWritable(f)))
  }

  lemma {:induction false} EvictQuiet(st: State, victims: seq<nat>)
    requires forall r <- st.held :: r.file !in victims
    ensures Evict(st, victims).held == st.held && Evict(st, victims).tally == st.tally
    decreases |victims|
  {
    if victims != [] {
      var v := victims[0];
      TakenMembers(st.held, OfFile(v));
      TakenNone(st.held, OfFile(v));
      assert victims == [v] + victims[1..];
      assert Land(st, []).tally == st.tally;
      EvictQuiet(SetMode(FlushFile(st, v), v, Closed), victims[1..]);
    }
  }

  lemma {:induction false} TakenNone(runs: seq<Run>, c: Claim)
    requires forall r <- runs :: !c.Takes(r)
    ensures Taken(runs, c) == [] && Left(runs, c) == runs
  {
    if runs != [] {
      assert runs == [runs[0]] + runs[1..];
      TakenNone(runs[1..], c);
    }
  }

  /** What one write of the stream does to the buffer and the count. */
  lemma StreamStep(st: State, f: nat, at: nat, p: seq<byte>) returns (next: State)
    requires Streaming(st, f, at) && 0 < |p| < 1024 * 1024
    ensures next == Step(st, WriteOp(Run(f, at, p))) && Streaming(next, f, at + |p|)
    ensures var n := Weight(st.held) + |p|;
            if n < 1024 * 1024 then Weight(next.held) == n && next.tally.writeOps == st.tally.writeOps
            else next.held == [] && next.tally.writeOps == st.tally.writeOps + 1
  {
    var w, called := Run(f, at, p), Called(st);
    CalledKeeps(st);
    StepKeeps(st, WriteOp(w));
    next := Step(st, WriteOp(w));
    StreamHold(st, f, at, p);
    var (held, out) := Hold(st.held, w);
    var buffered := called.(held := held);
    StreamOpens(called, w);
    var open := EnsureOpen(buffered, f, WriteIt).0;
    assert next == WriteAll(open, out).0;
    if out == [] {
      assert next == open && next.held == held;
      assert Weight(held) == |held[0].bytes|;
    } else {
      WriteOne(open, out[0]);
      assert out == [out[0]] && held == [];
    }
    if st.held != [] {
      assert Weight(st.held) == |st.held[0].bytes|;
    }
  }

  lemma WriteOne(st: State, r: Run)
    requires st.Usable(r.file) && st.IsWritable(r.file)
    ensures WriteAll(st, [r]).0 == Land(st, [r])
    ensures Land(st, [r]).tally.writeOps == st.tally.writeOps + 1 && Land(st, [r]).held == st.held
  {
    assert [r][1..] == [];
  }

  /** The held run is joined, or the write starts one. */
  lemma StreamHold(st: State, f: nat, at: nat, p: seq<byte>)
    requires Streaming(st, f, at) && 0 < |p| < 1024 * 1024
    ensures var before := if st.held == [] then [] else st.held[0].bytes;
            var all := [Run(f, at - |before|, before + p)];
            Hold(st.held, Run(f, at, p)) == if |before| + |p| < 1024 * 1024 then (all, []) else ([], all)
  {
    var w := Run(f, at, p);
    if st.held != [] {
      var r := st.held[0];
      assert st.held == [r];
      HoldJoins(st.held, w, 0);
      var (held, out) := Hold(st.held, w);
      OnlyOne(held, out, Run(f, r.offset, r.bytes + p));
    } else {
      HoldStarts(st.held, w);
      var (held, out) := Hold(st.held, w);
      assert held == [w] && out == [] && [] + p == p;
    }
  }

  lemma OnlyOne(held: seq<Run>, out: seq<Run>, r: Run)
    requires |held| + |out| == 1
    ensures r in held ==> held == [r] && out == []
    ensures r in out ==> held == [] && out == [r]
  {
  }

  lemma StreamOpens(st: State, w: Run)
    requires Streaming(st, w.file, w.offset) && 0 < |w.bytes| < 1024 * 1024
    ensures var open := EnsureOpen(st.(held := Hold(st.held, w).0), w.file, WriteIt).0;
            && open.held == Hold(st.held, w).0 && open.tally == st.tally && open.IsWritable(w.file)
            && open.Usable(w.file)
  {
    StreamHold(st, w.file, w.offset, w.bytes);
    var buffered := st.(held := Hold(st.held, w).0);
    assert !PassesThrough(w);
    HoldBounded(st.held, w);
    OpenQuiet(buffered, w.file);
  }

  /** With nothing held but runs of its own, opening a file costs no
      operation. */
  lemma OpenQuiet(st: State, f: nat)
    requires Tracked(st) && Bounded(st.held) && st.Usable(f) && forall r <- st.held :: r.file == f
    ensures var out := EnsureOpen(st, f, WriteIt).0;
            out.held == st.held && out.tally == st.tally && out.IsWritable(f) && out.Usable(f)
  {
    if !st.slots[f].Enough(WriteIt) {
      OpeningTracked(st, f, WriteIt);
      EvictQuiet(st.(order := Survivors(st, f)), Victims(st, f));
    }
    EnsureOpenKeeps(st, f, WriteIt);
  }

  /** The operations of a stream and the flush behind it: every one but the
      last writes a full region, and there is one as soon as there is a byte. */
  lemma {:induction false} StreamCosts(st: State, f: nat, at: nat, parts: seq<seq<byte>>)
    requires Streaming(st, f, at) && Small(parts)
    ensures var n := FlushAll(Play(st, Adjacent(f, at, parts))).0.tally.writeOps - st.tally.writeOps;
            var bytes := Weight(st.held) + Total(parts);
            && (bytes > 0 <==> n >= 1) && n >= 0
            && (n > 0 ==> (n - 1) * (1024 * 1024) < bytes)
    decreases |parts|
  {
    hide Streaming, FlushAll, Step, Small;
    if parts == [] {
      FlushStream(st, f, at);
    } else {
      SmallParts(parts);
      var next := StreamStep(st, f, at, parts[0]);
      StreamCosts(next, f, at + |parts[0]|, parts[1..]);
      var ops := Adjacent(f, at, parts);
      assert ops[0] == WriteOp(Run(f, at, parts[0])) && ops[1..] == Adjacent(f, at + |parts[0]|, parts[1..]);
    }
  }

  /** A stream no longer than a region, into an empty buffer, is one operation,
      however many writes it comes in. */
  lemma StreamIsOneWrite(st: State, f: nat, at: nat, parts: seq<seq<byte>>)
    requires Coherent(st) && st.Usable(f) && st.held == []
    requires parts != [] && Total(parts) <= 1024 * 1024 && Small(parts)
    ensures FlushAll(Play(st, Adjacent(f, at, parts))).0.tally.writeOps == st.tally.writeOps + 1
  {
    hide Step, FlushAll, Play, Adjacent;
    SmallParts(parts);
    assert Streaming(st, f, at) && Weight(st.held) == 0;
    hide Streaming, Weight, Coherent, Small;
    StreamCosts(st, f, at, parts);
  }

  lemma SmallParts(parts: seq<seq<byte>>)
    requires Small(parts) && parts != []
    ensures 0 < |parts[0]| < 1024 * 1024 && Small(parts[1..])
  {
    assert parts[0] in parts;
    assert forall p <- parts[1..] :: p in parts;
  }

  lemma FlushStream(st: State, f: nat, at: nat)
    requires Streaming(st, f, at)
    ensures FlushAll(st).0.tally.writeOps == st.tally.writeOps + |st.held|
    ensures (st.held == [] <==> Weight(st.held) == 0) && |st.held| <= 1
  {
    AllTaken(st);
    var kept := st.(held := []);
    WriteAllOpen(kept, st.held);
    if st.held != [] {
      assert st.held == [st.held[0]];
      assert Live(kept, st.held) == st.held;
    }
  }
}
