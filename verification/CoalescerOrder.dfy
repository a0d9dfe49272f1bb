/** In which order a small write and the runs already held reach the device,
    and when that order is the one the writes were made in. */
module CoalescingOrder {
  import opened Device
  import opened Coalescing

  /** The held runs behind the one a write fills up. */
  function BehindFilled(runs: seq<Run>, w: Run): seq<Run> {
    if runs == [] then []
    else if Extends(runs[0], w) then
      if |runs[0].bytes + w.bytes| >= WRITE_REGION then runs[1..] else []
    else BehindFilled(runs[1..], w)
  }

  /** The older runs whose bytes reach the device after the bytes of `w`. */
  function Late(runs: seq<Run>, w: Run): seq<Run> {
    if PassesThrough(w) then runs else BehindFilled(runs, w)
  }

  /** No byte of `w` is contradicted by an older byte that lands after it. */
  ghost predicate Faithful(runs: seq<Run>, w: Run) {
    forall r <- Late(runs, w) :: Agree(w, r)
  }

  lemma {:induction false} LateMembers(runs: seq<Run>, w: Run)
    ensures forall r <- Late(runs, w) :: r in runs
  {
    if runs != [] && !PassesThrough(w) {
      assert runs == [runs[0]] + runs[1..];
      LateMembers(runs[1..], w);
    }
  }

  /** Once the new bytes have a run, the rest of the scan only moves the runs
      they overlap ahead of the others. */
  lemma {:induction false} ScanRest(d: Disk, runs: seq<Run>, w: Run, extended: bool)
    requires NonEmpty(runs) && Disjoint(runs)
    requires Scan(runs, w, extended).extended == extended
    ensures var s := Scan(runs, w, extended);
            && NonEmpty(s.out) && NonEmpty(s.kept)
            && Overlay(Overlay(d, s.out), s.kept) == Overlay(d, runs)
    decreases |runs|
  {
    if runs != [] {
      var r, rest := runs[0], runs[1..];
      assert runs == [r] + rest;
      DisjointCons(r, rest);
      ScanOrigin(rest, w, extended || Extends(r, w));
      ScanUnextended(rest, w, extended);
      ScanRest(Put(d, r), rest, w, extended);
      if !r.Overlaps(w.file, w.offset, |w.bytes|) {
        PutPastOverlay(d, r, Scan(rest, w, extended).out);
      }
    }
  }

  /** The new bytes join a run that stays held: they land last. */
  lemma JoinKept(d: Disk, r: Run, rest: seq<Run>, w: Run)
    requires NonEmpty([r] + rest) && Disjoint([r] + rest) && w.bytes != [] && Extends(r, w)
    ensures var s := Scan(rest, w, true);
            && NonEmpty(s.out) && NonEmpty(s.kept)
            && Overlay(Put(Overlay(d, s.out), Extend(r, w)), s.kept) == Put(Overlay(Put(d, r), rest), w)
  {
    DisjointCons(r, rest);
    assert forall x <- rest :: x in [r] + rest;
    ScanUnextendedAfter(rest, w);
    ScanUnextended(rest, w, true);
    ScanRest(Put(d, r), rest, w, true);
    var s := Scan(rest, w, true);
    PutPastOverlay(d, r, s.out);
    var x := Overlay(d, s.out);
    PutJoin(x, r, w);
    PutPastOverlay(Put(x, r), w, s.kept);
  }

  lemma {:induction false} ScanUnextendedAfter(runs: seq<Run>, w: Run)
    ensures Scan(runs, w, true).extended
    decreases |runs|
  {
    if runs != [] {
      ScanUnextendedAfter(runs[1..], w);
    }
  }

  /** The new bytes fill their run: it lands ahead of the runs behind it. */
  lemma JoinFilled(d: Disk, r: Run, rest: seq<Run>, w: Run)
    requires NonEmpty([r] + rest) && Disjoint([r] + rest) && w.bytes != [] && Extends(r, w)
    ensures var s := Scan(rest, w, true);
            && NonEmpty(s.out) && NonEmpty(s.kept)
            && (Overlay(Overlay(Put(d, Extend(r, w)), s.out), s.kept) == Put(Overlay(Put(d, r), rest), w)
                <==> forall x <- rest :: Agree(w, x))
            && SameOutside(Overlay(Overlay(Put(d, Extend(r, w)), s.out), s.kept), Put(Overlay(Put(d, r), rest), w), w)
  {
    DisjointCons(r, rest);
    assert forall x <- rest :: x in [r] + rest;
    ScanUnextendedAfter(rest, w);
    ScanRest(Put(d, Extend(r, w)), rest, w, true);
    PutJoin(d, r, w);
    LateIff(Put(d, r), rest, w);
    LateOutside(Put(d, r), rest, w);
  }

  lemma {:induction false} ScanIff(d: Disk, runs: seq<Run>, w: Run)
    requires NonEmpty(runs) && Disjoint(runs) && w.bytes != []
    requires Scan(runs, w, false).extended
    ensures var s := Scan(runs, w, false);
            && NonEmpty(s.out) && NonEmpty(s.kept)
            && (Overlay(Overlay(d, s.out), s.kept) == Put(Overlay(d, runs), w)
                <==> forall r <- BehindFilled(runs, w) :: Agree(w, r))
            && SameOutside(Overlay(Overlay(d, s.out), s.kept), Put(Overlay(d, runs), w), w)
    decreases |runs|
  {
    var r, rest := runs[0], runs[1..];
    assert runs == [r] + rest;
    DisjointCons(r, rest);
    if Extends(r, w) {
      if |r.bytes + w.bytes| >= WRITE_REGION {
        JoinFilled(d, r, rest, w);
      } else {
        JoinKept(d, r, rest, w);
      }
    } else {
      ScanIff(Put(d, r), rest, w);
      if !r.Overlaps(w.file, w.offset, |w.bytes|) {
        var s := Scan(rest, w, false);
        ScanOrigin(rest, w, false);
        forall x <- s.out
          ensures Agree(r, x)
        {
          if x !in rest {
            JoinedApart(r, rest, w, x);
          }
        }
        PutPastOverlay(d, r, s.out);
      }
    }
  }

  lemma {:induction false} NoneBehind(runs: seq<Run>, w: Run)
    requires !Scan(runs, w, false).extended
    ensures BehindFilled(runs, w) == []
    decreases |runs|
  {
    if runs != [] {
      if Extends(runs[0], w) {
        ScanUnextendedAfter(runs[1..], w);
      } else {
        NoneBehind(runs[1..], w);
      }
    }
  }

  /** Holding a small write, and landing what it displaced, leaves the last
      write on top exactly when it is faithful. */
  lemma HoldIff(d: Disk, runs: seq<Run>, w: Run)
    requires Bounded(runs) && w.bytes != []
    ensures var (held, out) := Hold(runs, w);
            && NonEmpty(out) && NonEmpty(held)
            && (Overlay(Overlay(d, out), held) == Put(Overlay(d, runs), w)
                <==> forall r <- BehindFilled(runs, w) :: Agree(w, r))
            && SameOutside(Overlay(Overlay(d, out), held), Put(Overlay(d, runs), w), w)
  {
    hide Scan, Overlay, BehindFilled, SameOutside, Agree;
    if Scan(runs, w, false).extended {
      ScanIff(d, runs, w);
    } else {
      NoneBehind(runs, w);
      HoldNew(d, runs, w);
      SameOutsideSelf(Put(Overlay(d, runs), w), w);
    }
  }

  /** The new bytes start a run of their own: they land last. */
  lemma HoldNew(d: Disk, runs: seq<Run>, w: Run)
    requires NonEmpty(runs) && Disjoint(runs) && w.bytes != [] && !Scan(runs, w, false).extended
    ensures var (held, out) := Hold(runs, w);
            && NonEmpty(out) && NonEmpty(held)
            && Overlay(Overlay(d, out), held) == Put(Overlay(d, runs), w)
  {
    hide Scan, Put;
    var s := Scan(runs, w, false);
    ScanRest(d, runs, w, false);
    var e := Excess(|s.kept|);
    var out := s.out + s.kept[..e];
    assert s.kept == s.kept[..e] + s.kept[e..];
    OverlayAppend(d, s.out, s.kept[..e]);
    OverlayAppend(Overlay(d, s.out), s.kept[..e], s.kept[e..]);
    OverlayAppend(Overlay(d, out), s.kept[e..], [w]);
    assert [w][1..] == [];
  }

  lemma SameOutsideSelf(d: Disk, w: Run)
    ensures SameOutside(d, d, w)
  {
  }

  /** What a write displaces never holds a byte of a run still held for
      another file, so evicting that file first changes nothing. */
  lemma HoldApart(runs: seq<Run>, w: Run)
    requires Bounded(runs) && w.bytes != []
    ensures var (held, out) := Hold(runs, w);
            && (forall x <- out, y <- held :: y.file != w.file ==> Apart(x, y))
            && (forall x <- out + held :: x.file == w.file || x in runs)
  {
    ScanOrigin(runs, w, false);
    ScanApart(runs, w, false);
    var s := Scan(runs, w, false);
    if !s.extended {
      ScanUnextended(runs, w, false);
      var e := Excess(|s.kept|);
      forall x <- s.kept[..e], y <- s.kept[e..]
        ensures Apart(x, y)
      {
        var i :| 0 <= i < e && s.kept[i] == x;
        var j :| e <= j < |s.kept| && s.kept[j] == y;
        assert Apart(s.kept[i], s.kept[j]);
      }
    }
  }
}
