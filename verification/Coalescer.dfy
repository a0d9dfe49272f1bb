/** The write-combining buffer: runs held back so that a stream of small
    writes becomes one operation on the device. */
module Coalescing {
  import opened Device

  const WRITE_REGION: nat := 1024 * 1024
  const WRITE_RUNS: nat := 8

  /** What every operation on the buffer keeps. */
  ghost predicate Bounded(runs: seq<Run>) {
    && |runs| <= WRITE_RUNS
    && (forall r <- runs :: 0 < |r.bytes| < WRITE_REGION)
    && Disjoint(runs)
  }

  predicate Extends(r: Run, w: Run) {
    r.file == w.file && r.End() == w.offset
  }

  function Extend(r: Run, w: Run): Run {
    r.(bytes := r.bytes + w.bytes)
  }

  /** What one pass over the held runs leaves held, sends out, and whether the
      new bytes found a run to join. */
  datatype Scanned = Scanned(kept: seq<Run>, out: seq<Run>, extended: bool)

  function Scan(runs: seq<Run>, w: Run, extended: bool): Scanned
    decreases |runs|
  {
    if runs == [] then Scanned([], [], extended)
    else
      var r, rest := runs[0], runs[1..];
      if Extends(r, w) && !extended then
        var s := Scan(rest, w, true);
        if |r.bytes + w.bytes| >= WRITE_REGION
        then s.(out := [Extend(r, w)] + s.out)
        else s.(kept := [Extend(r, w)] + s.kept)
      else
        var s := Scan(rest, w, extended);
        if r.Overlaps(w.file, w.offset, |w.bytes|)
        then s.(out := [r] + s.out)
        else s.(kept := [r] + s.kept)
  }

  /** A scan continued from what the part before it kept and sent out. */
  function After(kept: seq<Run>, out: seq<Run>, s: Scanned): Scanned {
    Scanned(kept + s.kept, out + s.out, s.extended)
  }

  lemma AfterStep(kept: seq<Run>, out: seq<Run>, r: Run, rest: seq<Run>, w: Run, extended: bool)
    ensures After(kept, out, Scan([r] + rest, w, extended)) ==
            if Extends(r, w) && !extended then
              if |r.bytes + w.bytes| >= WRITE_REGION
              then After(kept, out + [Extend(r, w)], Scan(rest, w, true))
              else After(kept + [Extend(r, w)], out, Scan(rest, w, true))
            else if r.Overlaps(w.file, w.offset, |w.bytes|)
            then After(kept, out + [r], Scan(rest, w, extended))
            else After(kept + [r], out, Scan(rest, w, extended))
  {
    assert ([r] + rest)[1..] == rest;
  }

  /** How many of the oldest runs go to make room for one more. */
  function Excess(n: nat): nat {
    if n >= WRITE_RUNS then n - WRITE_RUNS + 1 else 0
  }

  /** The buffer after it has taken a small write: what is held, and what was
      displaced and has to go to the device, in that order. */
  function Hold(runs: seq<Run>, w: Run): (seq<Run>, seq<Run>) {
    var s := Scan(runs, w, false);
    if s.extended then (s.kept, s.out)
    else
      var excess := Excess(|s.kept|);
      (s.kept[excess..] + [w], s.out + s.kept[..excess])
  }

  predicate PassesThrough(w: Run) {
    |w.bytes| >= WRITE_REGION
  }

  datatype Append = Held(displaced: seq<Run>) | PassThrough

  /** The first run of the file that ends at the offset. */
  predicate FirstEndingAt(runs: seq<Run>, fileId: nat, offset: nat, i: nat) {
    && i < |runs| && runs[i].file == fileId && runs[i].offset + |runs[i].bytes| == offset
    && forall j | 0 <= j < i :: !(runs[j].file == fileId && runs[j].offset + |runs[j].bytes| == offset)
  }

  class Coalescer {
    var runs: seq<Run>

    constructor ()
      ensures runs == []
    {
      runs := [];
    }

    /** Take `buf` into a run, and name whatever that displaced. */
    method Append(fileId: nat, offset: nat, buf: seq<byte>) returns (a: Append)
      modifies this
      ensures var w := Run(fileId, offset, buf);
              if PassesThrough(w) then a == PassThrough && runs == old(runs)
              else a.Held? && (runs, a.displaced) == Hold(old(runs), w)
      ensures a.PassThrough? <==> |buf| >= 1024 * 1024
      ensures forall i: nat | a.Held? && FirstEndingAt(old(runs), fileId, offset, i) ::
                var joined := Run(fileId, old(runs)[i].offset, old(runs)[i].bytes + buf);
                && |runs| + |a.displaced| == |old(runs)|
                && if |joined.bytes| < 1024 * 1024 then joined in runs else joined in a.displaced
    {
      if |buf| >= WRITE_REGION {
        return PassThrough;
      }
      var out, extended := Join(fileId, offset, buf);
      if !extended {
        ghost var kept, sent, n := runs, out, 0;
        while |runs| >= WRITE_RUNS
          invariant 0 <= n <= Excess(|kept|) && runs == kept[n..] && out == sent + kept[..n]
        {
          out := out + [runs[0]];
          runs := runs[1..];
          n := n + 1;
        }
        runs := runs + [Run(fileId, offset, buf)];
      }
      a := Held(out);
      forall i: nat | FirstEndingAt(old(runs), fileId, offset, i)
        ensures var joined := Run(fileId, old(runs)[i].offset, old(runs)[i].bytes + buf);
                && |runs| + |out| == |old(runs)|
                && if |joined.bytes| < 1024 * 1024 then joined in runs else joined in out
      {
        HoldJoins(old(runs), Run(fileId, offset, buf), i);
      }
    }

    /** The scan over the held runs: extend the one `buf` continues, and take
        out every one it revises or fills. */
    method Join(fileId: nat, offset: nat, buf: seq<byte>) returns (out: seq<Run>, extended: bool)
      modifies this
      ensures Scanned(runs, out, extended) == Scan(old(runs), Run(fileId, offset, buf), false)
    {
      ghost var w := Run(fileId, offset, buf);
      ghost var kept, rest := [], runs;
      out := [];
      extended := false;
      var index := 0;
      while index < |runs|
        invariant runs == kept + rest && |kept| == index
        invariant Scan(old(runs), w, false) == After(kept, out, Scan(rest, w, extended))
        decreases |rest|
      {
        var run := runs[index];
        assert rest == [run] + rest[1..];
        rest := rest[1..];
        Around(kept, run, Extend(run, w), rest);
        AfterStep(kept, out, run, rest, w, extended);
        if run.file == fileId && run.End() == offset && !extended {
          run := run.(bytes := run.bytes + buf);
          extended := true;
          if |run.bytes| >= WRITE_REGION {
            out := out + [run];
            runs := runs[..index] + runs[index + 1..];
            continue;
          }
          runs := runs[index := run];
        } else if run.Overlaps(fileId, offset, |buf|) {
          out := out + [run];
          runs := runs[..index] + runs[index + 1..];
          continue;
        }
        kept := kept + [run];
        index := index + 1;
      }
      assert runs == kept && rest == [];
    }

    /** Take every run holding a byte of `[offset, offset + len)` in one file. */
    method TakeOverlapping(fileId: nat, offset: nat, len: nat) returns (out: seq<Run>)
      modifies this
      ensures out == Taken(old(runs), Touching(fileId, offset, len))
      ensures runs == Left(old(runs), Touching(fileId, offset, len))
    {
      ghost var c := Touching(fileId, offset, len);
      ghost var kept, rest := [], runs;
      out := [];
      var index := 0;
      while index < |runs|
        invariant runs == kept + rest && |kept| == index
        invariant Taken(old(runs), c) == out + Taken(rest, c)
        invariant Left(old(runs), c) == kept + Left(rest, c)
        decreases |runs| - index
      {
        ghost var r := rest[0];
        assert rest == [r] + rest[1..];
        rest := rest[1..];
        Around(kept, r, r, rest);
        TakenNext(kept, out, r, rest, c);
        if runs[index].Overlaps(fileId, offset, len) {
          out := out + [runs[index]];
          runs := runs[..index] + runs[index + 1..];
        } else {
          kept := kept + [r];
          index := index + 1;
        }
      }
      assert rest == [];
    }

    /** Take every run for one file, whether or not it overlaps anything. */
    method TakeFile(fileId: nat) returns (out: seq<Run>)
      modifies this
      ensures out == Taken(old(runs), OfFile(fileId))
      ensures runs == Left(old(runs), OfFile(fileId))
    {
      ghost var c := OfFile(fileId);
      ghost var kept, rest := [], runs;
      out := [];
      var index := 0;
      while index < |runs|
        invariant runs == kept + rest && |kept| == index
        invariant Taken(old(runs), c) == out + Taken(rest, c)
        invariant Left(old(runs), c) == kept + Left(rest, c)
        decreases |runs| - index
      {
        ghost var r := rest[0];
        assert rest == [r] + rest[1..];
        rest := rest[1..];
        Around(kept, r, r, rest);
        TakenNext(kept, out, r, rest, c);
        if runs[index].file == fileId {
          out := out + [runs[index]];
          runs := runs[..index] + runs[index + 1..];
        } else {
          kept := kept + [r];
          index := index + 1;
        }
      }
      assert rest == [];
    }

    /** Take everything. */
    method TakeAll() returns (out: seq<Run>)
      modifies this
      ensures out == old(runs) && runs == []
    {
      out := runs;
      runs := [];
    }

    /** Bytes held right now. */
    method Buffered() returns (n: nat)
      ensures n == Weight(runs)
    {
      n := 0;
      for i := 0 to |runs|
        invariant Weight(runs) == n + Weight(runs[i..])
      {
        n := n + |runs[i].bytes|;
      }
    }
  }

  // --- What the buffer keeps ------------------------------------------------

  /** A write that touches none of the held runs, and extends at most one. */
  lemma OneRunExtends(runs: seq<Run>, w: Run, i: nat, j: nat)
    requires Bounded(runs)
    requires i < j < |runs|
    ensures !(Extends(runs[i], w) && Extends(runs[j], w))
  {
    assert Apart(runs[i], runs[j]);
  }

  /** A held run with the new bytes joined to its end. */
  ghost predicate Joined(runs: seq<Run>, w: Run, y: Run) {
    exists e <- runs :: Extends(e, w) && y == Extend(e, w)
  }

  lemma JoinedApart(r: Run, rest: seq<Run>, w: Run, y: Run)
    requires Joined(rest, w, y) && w.bytes != [] && r.bytes != []
    requires forall x <- rest :: Apart(r, x)
    requires !r.Overlaps(w.file, w.offset, |w.bytes|)
    ensures Apart(r, y)
  {
  }

  /** Where the runs a scan keeps and sends out come from. */
  lemma {:induction false} ScanOrigin(runs: seq<Run>, w: Run, extended: bool)
    ensures var s := Scan(runs, w, extended);
            && (forall y <- s.kept ::
                  (y in runs && !y.Overlaps(w.file, w.offset, |w.bytes|)) || (!extended && Joined(runs, w, y)))
            && (forall x <- s.out :: x in runs || (!extended && Joined(runs, w, x)))
            && |s.kept| + |s.out| == |runs|
            && Weight(s.kept) + Weight(s.out) == Weight(runs) + (if s.extended && !extended then |w.bytes| else 0)
            && (extended ==> s.extended)
    decreases |runs|
  {
    if runs != [] {
      assert runs == [runs[0]] + runs[1..];
      ScanOrigin(runs[1..], w, extended || Extends(runs[0], w));
    }
  }

  /** A scan keeps disjoint runs, and what it sends out stays clear of what it
      keeps for every other file. */
  lemma {:induction false} ScanApart(runs: seq<Run>, w: Run, extended: bool)
    requires NonEmpty(runs) && Disjoint(runs) && w.bytes != []
    ensures var s := Scan(runs, w, extended);
            && Disjoint(s.kept)
            && forall x <- s.out, y <- s.kept :: y.file != w.file ==> Apart(x, y)
    decreases |runs|
  {
    if runs != [] {
      var r, rest := runs[0], runs[1..];
      assert runs == [r] + rest;
      DisjointCons(r, rest);
      var e := extended || Extends(r, w);
      ScanApart(rest, w, e);
      ScanOrigin(rest, w, e);
      var s := Scan(rest, w, e);
      if Extends(r, w) && !extended {
        DisjointCons(Extend(r, w), s.kept);
      } else if !r.Overlaps(w.file, w.offset, |w.bytes|) {
        forall y <- s.kept
          ensures Apart(r, y)
        {
          if y !in rest {
            JoinedApart(r, rest, w, y);
          }
        }
        DisjointCons(r, s.kept);
      }
    }
  }

  /** Every bound the buffer promises survives a write. */
  lemma HoldBounded(runs: seq<Run>, w: Run)
    requires Bounded(runs) && 0 < |w.bytes| < WRITE_REGION
    ensures Bounded(Hold(runs, w).0)
  {
    ScanOrigin(runs, w, false);
    ScanApart(runs, w, false);
    ScanSizes(runs, w, false);
    var s := Scan(runs, w, false);
    if !s.extended {
      ScanUnextended(runs, w, false);
      var e := Excess(|s.kept|);
      var held := s.kept[e..] + [w];
      forall i, j | 0 <= i < j < |held|
        ensures Apart(held[i], held[j])
      {
        assert held[i] == s.kept[e + i] && held[i] in s.kept;
        assert held[i].bytes != [];
        if j < |held| - 1 {
          assert Apart(s.kept[e + i], s.kept[e + j]);
        }
      }
    }
  }

  lemma {:induction false} ScanUnextended(runs: seq<Run>, w: Run, extended: bool)
    requires Scan(runs, w, extended).extended == extended
    ensures var s := Scan(runs, w, extended);
            && (forall y <- s.kept :: y in runs && !y.Overlaps(w.file, w.offset, |w.bytes|))
            && forall x <- s.out :: x in runs
    decreases |runs|
  {
    if runs != [] {
      assert runs == [runs[0]] + runs[1..];
      ScanOrigin(runs[1..], w, extended || Extends(runs[0], w));
      ScanUnextended(runs[1..], w, extended);
    }
  }

  /** A run that reaches the region size is sent out, so none is held. */
  lemma {:induction false} ScanSizes(runs: seq<Run>, w: Run, extended: bool)
    requires forall r <- runs :: 0 < |r.bytes| < WRITE_REGION
    requires w.bytes != []
    ensures var s := Scan(runs, w, extended);
            && (forall y <- s.kept :: 0 < |y.bytes| < WRITE_REGION)
            && NonEmpty(s.out)
    decreases |runs|
  {
    if runs != [] {
      assert runs == [runs[0]] + runs[1..];
      ScanSizes(runs[1..], w, extended || Extends(runs[0], w));
    }
  }

  /** A write keeps every position covered, in the buffer or on its way out. */
  lemma HoldCovers(runs: seq<Run>, w: Run, f: nat, i: nat)
    requires CoveredBy(runs, f, i) || w.Covers(f, i)
    ensures CoveredBy(Hold(runs, w).0, f, i) || CoveredBy(Hold(runs, w).1, f, i)
  {
    var s := Scan(runs, w, false);
    ScanCovers(runs, w, false, f, i);
    if !s.extended {
      var e := Excess(|s.kept|);
      var (held, out) := Hold(runs, w);
      assert w in held;
      if CoveredBy(s.kept, f, i) {
        var r :| r in s.kept && r.Covers(f, i);
        assert s.kept == s.kept[..e] + s.kept[e..];
        assert r in out || r in held;
      }
    }
  }

  lemma {:induction false} ScanCovers(runs: seq<Run>, w: Run, extended: bool, f: nat, i: nat)
    ensures var s := Scan(runs, w, extended);
            && (CoveredBy(runs, f, i) ==> CoveredBy(s.kept, f, i) || CoveredBy(s.out, f, i))
            && (w.Covers(f, i) && s.extended && !extended ==> CoveredBy(s.kept, f, i) || CoveredBy(s.out, f, i))
    decreases |runs|
  {
    if runs != [] {
      var r, rest := runs[0], runs[1..];
      assert runs == [r] + rest;
      var e := extended || Extends(r, w);
      ScanCovers(rest, w, e, f, i);
      var s, t := Scan(runs, w, extended), Scan(rest, w, e);
      assert forall x <- t.kept :: x in s.kept;
      assert forall x <- t.out :: x in s.out;
      if Extends(r, w) && !extended {
        assert Extend(r, w) in s.kept || Extend(r, w) in s.out;
      } else {
        assert r in s.kept || r in s.out;
      }
    }
  }

  /** A write moves its bytes into the buffer and out of it, and makes at most
      one run more. */
  lemma HoldWeighs(runs: seq<Run>, w: Run)
    ensures var (held, out) := Hold(runs, w);
            && Weight(held) + Weight(out) == Weight(runs) + |w.bytes|
            && |held| + |out| <= |runs| + 1
  {
    ScanOrigin(runs, w, false);
    var s := Scan(runs, w, false);
    if !s.extended {
      var e := Excess(|s.kept|);
      assert s.kept == s.kept[..e] + s.kept[e..];
      WeightAppend(s.kept[..e], s.kept[e..]);
      WeightAppend(s.out, s.kept[..e]);
      WeightAppend(s.kept[e..], [w]);
    }
  }

  // --- What becomes of each run ------------------------------------------------

  /** The first run the write continues is joined, and goes out when it fills. */
  lemma {:induction false} ScanJoins(runs: seq<Run>, w: Run, i: nat)
    requires FirstEndingAt(runs, w.file, w.offset, i)
    ensures var s, joined := Scan(runs, w, false), Run(w.file, runs[i].offset, runs[i].bytes + w.bytes);
            s.extended && if |joined.bytes| < 1024 * 1024 then joined in s.kept else joined in s.out
    decreases |runs|
  {
    if i == 0 {
      ScanOrigin(runs[1..], w, true);
    } else {
      var rest := runs[1..];
      assert rest[i - 1] == runs[i] && !Extends(runs[0], w);
      forall j | 0 <= j < i - 1
        ensures !(rest[j].file == w.file && rest[j].offset + |rest[j].bytes| == w.offset)
      {
        assert rest[j] == runs[j + 1];
      }
      ScanJoins(rest, w, i - 1);
    }
  }

  /** A run the write does not continue goes out when they share a byte, and
      stays otherwise. */
  lemma {:induction false} ScanOther(runs: seq<Run>, w: Run, extended: bool, i: nat)
    requires i < |runs| && !(runs[i].file == w.file && runs[i].offset + |runs[i].bytes| == w.offset)
    ensures var s, r := Scan(runs, w, extended), runs[i];
            if r.file == w.file && r.offset < w.offset + |w.bytes| && w.offset < r.offset + |r.bytes|
            then r in s.out else r in s.kept
    decreases |runs|
  {
    if i > 0 {
      assert runs[1..][i - 1] == runs[i];
      ScanOther(runs[1..], w, extended || Extends(runs[0], w), i - 1);
    }
  }

  lemma {:induction false} ScanJoinsNone(runs: seq<Run>, w: Run)
    requires forall r <- runs :: !(r.file == w.file && r.offset + |r.bytes| == w.offset)
    ensures !Scan(runs, w, false).extended
    decreases |runs|
  {
    if runs != [] {
      assert runs == [runs[0]] + runs[1..];
      ScanJoinsNone(runs[1..], w);
    }
  }

  /** A scan leaves all as it was exactly when the write touches no run. */
  lemma {:induction false} ScanUntouched(runs: seq<Run>, w: Run)
    ensures var s := Scan(runs, w, false);
            && (s.out == [] && !s.extended
                <==> forall r <- runs :: !Extends(r, w) && !r.Overlaps(w.file, w.offset, |w.bytes|))
            && (s.out == [] && !s.extended ==> s.kept == runs)
    decreases |runs|
  {
    if runs != [] {
      assert runs == [runs[0]] + runs[1..];
      if Extends(runs[0], w) {
        ScanOrigin(runs[1..], w, true);
      } else {
        ScanUntouched(runs[1..], w);
      }
    }
  }

  /** The purpose of the buffer: a small write that continues a held run is
      joined to it, and no run is added. A run that fills goes out in one piece. */
  lemma HoldJoins(runs: seq<Run>, w: Run, i: nat)
    requires FirstEndingAt(runs, w.file, w.offset, i)
    ensures var (held, out) := Hold(runs, w);
            var joined := Run(w.file, runs[i].offset, runs[i].bytes + w.bytes);
            |held| + |out| == |runs| && if |joined.bytes| < 1024 * 1024 then joined in held else joined in out
  {
    hide Scan;
    ScanJoins(runs, w, i);
    ScanOrigin(runs, w, false);
  }

  /** A write that continues no run starts one, the newest. */
  lemma HoldStarts(runs: seq<Run>, w: Run)
    requires forall r <- runs :: !(r.file == w.file && r.offset + |r.bytes| == w.offset)
    ensures var (held, out) := Hold(runs, w);
            held != [] && held[|held| - 1] == w && |held| + |out| == |runs| + 1
  {
    hide Scan;
    ScanJoinsNone(runs, w);
    ScanOrigin(runs, w, false);
  }

  /** Every other run goes out exactly when the write shares a byte with it, or
      when it is the oldest of eight that the write has nothing to do with. */
  lemma HoldLeaves(runs: seq<Run>, w: Run, i: nat)
    requires |runs| <= 8 && w.bytes != []
    requires i < |runs| && !(runs[i].file == w.file && runs[i].offset + |runs[i].bytes| == w.offset)
    ensures var (held, out) := Hold(runs, w); var r := runs[i];
            if r.file == w.file && r.offset < w.offset + |w.bytes| && w.offset < r.offset + |r.bytes| then r in out
            else if i == 0 && |runs| == 8 && NothingToDoWith(runs, w) then out == [r] && held == runs[1..] + [w]
            else r in held
  {
    hide Scan, Extends;
    var s := Scan(runs, w, false);
    ScanOther(runs, w, false, i);
    ScanOrigin(runs, w, false);
    ScanUntouched(runs, w);
    UntouchedIff(runs, w);
    if |s.kept| == 8 && !s.extended {
      assert s.out == [] && s.kept == runs;
      assert i > 0 ==> runs[1..][i - 1] == runs[i];
    }
    assert s.kept[0..] == s.kept;
  }

  /** The write neither continues a run nor shares a byte with one. */
  predicate NothingToDoWith(runs: seq<Run>, w: Run) {
    forall r <- runs :: r.file == w.file ==> w.offset + |w.bytes| <= r.offset || r.offset + |r.bytes| < w.offset
  }

  lemma UntouchedIff(runs: seq<Run>, w: Run)
    requires w.bytes != []
    ensures NothingToDoWith(runs, w)
            <==> forall r <- runs :: !Extends(r, w) && !r.Overlaps(w.file, w.offset, |w.bytes|)
  {
    forall r <- runs
      ensures (r.file == w.file ==> w.offset + |w.bytes| <= r.offset || r.offset + |r.bytes| < w.offset)
              <==> !Extends(r, w) && !r.Overlaps(w.file, w.offset, |w.bytes|)
    {
    }
  }
}
