/** The device under the storage: one byte string per payload file, and the
    algebra of positioned writes to it. */
module Device {

  newtype byte = x: int | 0 <= x < 256

  /** The files that exist, by index, with what a reader of each one finds. */
  type Disk = map<nat, seq<byte>>

  /** One contiguous run of bytes, and where it belongs. */
  datatype Run = Run(file: nat, offset: nat, bytes: seq<byte>) {

    /** The byte after the last one. */
    function End(): nat {
      offset + |bytes|
    }

    predicate Overlaps(fileId: nat, at: nat, len: nat) {
      file == fileId && offset < at + len && at < End()
    }

    predicate Covers(fileId: nat, i: nat) {
      file == fileId && offset <= i < End()
    }
  }

  predicate Apart(a: Run, b: Run) {
    a.file != b.file || a.End() <= b.offset || b.End() <= a.offset
  }

  /** Wherever both runs hold a byte, they hold the same one. */
  ghost predicate Agree(a: Run, b: Run) {
    a.file == b.file ==>
      forall i: nat :: a.Covers(a.file, i) && b.Covers(a.file, i) ==>
                         a.bytes[i - a.offset] == b.bytes[i - b.offset]
  }

  ghost predicate Disjoint(runs: seq<Run>) {
    forall i, j :: 0 <= i < j < |runs| ==> Apart(runs[i], runs[j])
  }

  /** A positioned write: the gap it leaves past the old end reads as zero. */
  function WriteAt(s: seq<byte>, at: nat, b: seq<byte>): (r: seq<byte>)
    ensures b == [] ==> r == s
    ensures b != [] ==> |r| == if |s| < at + |b| then at + |b| else |s|
    ensures forall i :: 0 <= i < |r| ==>
                          r[i] == if at <= i < at + |b| then b[i - at] else if i < |s| then s[i] else 0
  {
    if b == [] then s
    else
      var padded := if |s| < at then s + seq(at - |s|, _ => 0) else s;
      padded[..at] + b + (if at + |b| < |padded| then padded[at + |b|..] else [])
  }

  function Content(d: Disk, file: nat): seq<byte> {
    if file in d then d[file] else []
  }

  function Put(d: Disk, r: Run): Disk {
    d[r.file := WriteAt(Content(d, r.file), r.offset, r.bytes)]
  }

  /** Opening a file for writing brings it into existence, empty. */
  function Create(d: Disk, file: nat): Disk {
    if file in d then d else d[file := []]
  }

  ghost predicate NonEmpty(runs: seq<Run>) {
    forall r <- runs :: r.bytes != []
  }

  /** The runs written one after the other. */
  function Overlay(d: Disk, runs: seq<Run>): Disk
    decreases |runs|
  {
    if runs == [] then d else Overlay(Put(d, runs[0]), runs[1..])
  }

  /** Some run holds the byte. */
  ghost predicate CoveredBy(runs: seq<Run>, f: nat, i: nat) {
    exists r <- runs :: r.Covers(f, i)
  }

  function Weight(runs: seq<Run>): nat {
    if runs == [] then 0 else |runs[0].bytes| + Weight(runs[1..])
  }

  // --- Positioned writes commute when they agree -------------------------

  lemma WriteCommute(s: seq<byte>, a: Run, b: Run)
    requires a.bytes != [] && b.bytes != [] && a.file == b.file && Agree(a, b)
    ensures WriteAt(WriteAt(s, a.offset, a.bytes), b.offset, b.bytes)
         == WriteAt(WriteAt(s, b.offset, b.bytes), a.offset, a.bytes)
  {
    var x := WriteAt(WriteAt(s, a.offset, a.bytes), b.offset, b.bytes);
    var y := WriteAt(WriteAt(s, b.offset, b.bytes), a.offset, a.bytes);
    assert |x| == |y|;
    forall i | 0 <= i < |x|
      ensures x[i] == y[i]
    {
      if a.Covers(a.file, i) && b.Covers(a.file, i) {
        assert a.bytes[i - a.offset] == b.bytes[i - b.offset];
      }
    }
  }

  lemma PutCommute(d: Disk, a: Run, b: Run)
    requires a.bytes != [] && b.bytes != [] && Agree(a, b)
    ensures Put(Put(d, a), b) == Put(Put(d, b), a)
  {
    if a.file == b.file {
      WriteCommute(Content(d, a.file), a, b);
    }
  }

  lemma WriteJoin(s: seq<byte>, at: nat, x: seq<byte>, y: seq<byte>)
    requires x != [] && y != []
    ensures WriteAt(WriteAt(s, at, x), at + |x|, y) == WriteAt(s, at, x + y)
  {
    var one := WriteAt(WriteAt(s, at, x), at + |x|, y);
    var two := WriteAt(s, at, x + y);
    assert |one| == |two|;
    assert forall i | 0 <= i < |one| :: one[i] == two[i];
  }

  /** Two adjacent writes are one write of the joined bytes. */
  lemma PutJoin(d: Disk, a: Run, b: Run)
    requires a.bytes != [] && b.bytes != [] && a.file == b.file && a.End() == b.offset
    ensures Put(Put(d, a), b) == Put(d, a.(bytes := a.bytes + b.bytes))
  {
    WriteJoin(Content(d, a.file), a.offset, a.bytes, b.bytes);
  }

  lemma PutCreate(d: Disk, r: Run, file: nat)
    requires r.bytes != []
    ensures Put(Create(d, file), r) == Create(Put(d, r), file)
  {
  }

  lemma {:induction false} OverlayAppend(d: Disk, xs: seq<Run>, ys: seq<Run>)
    requires NonEmpty(xs) && NonEmpty(ys)
    ensures NonEmpty(xs + ys) && Overlay(d, xs + ys) == Overlay(Overlay(d, xs), ys)
    decreases |xs|
  {
    if xs == [] {
      assert xs + ys == ys;
    } else {
      assert (xs + ys)[1..] == xs[1..] + ys;
      OverlayAppend(Put(d, xs[0]), xs[1..], ys);
    }
  }

  lemma {:induction false} OverlayCreate(d: Disk, runs: seq<Run>, file: nat)
    requires NonEmpty(runs)
    ensures Overlay(Create(d, file), runs) == Create(Overlay(d, runs), file)
    decreases |runs|
  {
    if runs != [] {
      PutCreate(d, runs[0], file);
      OverlayCreate(Put(d, runs[0]), runs[1..], file);
    }
  }

  lemma {:induction false} PutPastOverlay(d: Disk, r: Run, runs: seq<Run>)
    requires r.bytes != [] && NonEmpty(runs)
    requires forall x <- runs :: Agree(r, x)
    ensures Overlay(Put(d, r), runs) == Put(Overlay(d, runs), r)
    decreases |runs|
  {
    if runs != [] {
      PutCommute(d, r, runs[0]);
      PutPastOverlay(Put(d, runs[0]), r, runs[1..]);
    }
  }

  /** Two groups of writes that agree may land in either order. */
  lemma {:induction false} OverlayCommute(d: Disk, xs: seq<Run>, ys: seq<Run>)
    requires NonEmpty(xs) && NonEmpty(ys)
    requires forall x <- xs, y <- ys :: Agree(x, y)
    ensures Overlay(Overlay(d, xs), ys) == Overlay(Overlay(d, ys), xs)
    decreases |xs|
  {
    if xs != [] {
      OverlayCommute(Put(d, xs[0]), xs[1..], ys);
      PutPastOverlay(d, xs[0], ys);
    }
  }

  // --- What a reader of the overlay finds ---------------------------------

  /** A position none of the runs holds reads as it did before them. */
  lemma {:induction false} OverlayMiss(d: Disk, runs: seq<Run>, file: nat, i: nat)
    requires NonEmpty(runs)
    requires forall r <- runs :: !r.Covers(file, i)
    requires i < |Content(d, file)|
    ensures i < |Content(Overlay(d, runs), file)|
    ensures Content(Overlay(d, runs), file)[i] == Content(d, file)[i]
    decreases |runs|
  {
    if runs != [] {
      assert !runs[0].Covers(file, i);
      OverlayMiss(Put(d, runs[0]), runs[1..], file, i);
    }
  }

  /** A position exactly one of several disjoint runs holds reads as that run. */
  lemma {:induction false} OverlayHit(d: Disk, runs: seq<Run>, r: Run, i: nat)
    requires NonEmpty(runs) && Disjoint(runs)
    requires r in runs && r.Covers(r.file, i)
    ensures i < |Content(Overlay(d, runs), r.file)|
    ensures Content(Overlay(d, runs), r.file)[i] == r.bytes[i - r.offset]
    decreases |runs|
  {
    if runs[0] == r {
      forall x <- runs[1..]
        ensures !x.Covers(r.file, i)
      {
        assert Apart(runs[0], x);
      }
      OverlayMiss(Put(d, r), runs[1..], r.file, i);
    } else {
      OverlayHit(Put(d, runs[0]), runs[1..], r, i);
    }
  }

  lemma PutReads(d: Disk, w: Run, i: nat)
    requires w.Covers(w.file, i)
    ensures i < |Content(Put(d, w), w.file)|
    ensures Content(Put(d, w), w.file)[i] == w.bytes[i - w.offset]
  {
  }

  lemma LateConflict(d: Disk, runs: seq<Run>, w: Run, r: Run)
    requires NonEmpty(runs) && Disjoint(runs)
    requires r in runs && !Agree(w, r)
    ensures Overlay(Put(d, w), runs) != Put(Overlay(d, runs), w)
  {
    var i: nat :| w.Covers(w.file, i) && r.Covers(w.file, i) && w.bytes[i - w.offset] != r.bytes[i - r.offset];
    OverlayHit(Put(d, w), runs, r, i);
    PutReads(Overlay(d, runs), w, i);
  }

  /** Writing w before the runs instead of after them gives the same files
      exactly when no run holds a byte that contradicts it. */
  lemma LateIff(d: Disk, runs: seq<Run>, w: Run)
    requires NonEmpty(runs) && Disjoint(runs) && w.bytes != []
    ensures Overlay(Put(d, w), runs) == Put(Overlay(d, runs), w) <==> forall r <- runs :: Agree(w, r)
  {
    if r :| r in runs && !Agree(w, r) {
      LateConflict(d, runs, w, r);
    } else {
      PutPastOverlay(d, w, runs);
    }
  }

  // --- What a misplaced write can damage -------------------------------------

  /** The same files with the same lengths, and the same bytes wherever `w`
      does not reach. */
  ghost predicate SameOutside(a: Disk, b: Disk, w: Run) {
    && a.Keys == b.Keys
    && forall f | f in a.Keys :: SameBytesOutside(a[f], b[f], w, f)
  }

  ghost predicate SameBytesOutside(x: seq<byte>, y: seq<byte>, w: Run, f: nat) {
    |x| == |y| && forall i: nat | i < |x| && !w.Covers(f, i) :: x[i] == y[i]
  }

  lemma SameOutsidePut(a: Disk, b: Disk, w: Run, r: Run)
    requires SameOutside(a, b, w)
    ensures SameOutside(Put(a, r), Put(b, r), w)
  {
    assert SameBytesOutside(Content(a, r.file), Content(b, r.file), w, r.file);
    assert SameBytesOutside(Put(a, r)[r.file], Put(b, r)[r.file], w, r.file);
  }

  lemma {:induction false} SameOutsideOverlay(a: Disk, b: Disk, w: Run, runs: seq<Run>)
    requires SameOutside(a, b, w)
    ensures SameOutside(Overlay(a, runs), Overlay(b, runs), w)
    decreases |runs|
  {
    if runs != [] {
      SameOutsidePut(a, b, w, runs[0]);
      SameOutsideOverlay(Put(a, runs[0]), Put(b, runs[0]), w, runs[1..]);
    }
  }

  lemma WriteSwap(s: seq<byte>, r: Run, w: Run)
    requires r.bytes != [] && w.bytes != []
    ensures SameBytesOutside(WriteAt(WriteAt(s, w.offset, w.bytes), r.offset, r.bytes),
                             WriteAt(WriteAt(s, r.offset, r.bytes), w.offset, w.bytes), w, w.file)
  {
    var one := WriteAt(WriteAt(s, w.offset, w.bytes), r.offset, r.bytes);
    var two := WriteAt(WriteAt(s, r.offset, r.bytes), w.offset, w.bytes);
    assert |one| == |two|;
    forall i: nat | i < |one| && !w.Covers(w.file, i)
      ensures one[i] == two[i]
    {
    }
  }

  lemma SwapOutside(d: Disk, r: Run, w: Run)
    requires r.bytes != [] && w.bytes != []
    ensures SameOutside(Put(Put(d, w), r), Put(Put(d, r), w), w)
  {
    if r.file == w.file {
      WriteSwap(Content(d, w.file), r, w);
      assert Put(Put(d, w), r).Keys == Put(Put(d, r), w).Keys;
    } else {
      PutCommute(d, w, r);
    }
  }

  /** Writing w too early can only matter inside the range of w. */
  lemma {:induction false} LateOutside(d: Disk, runs: seq<Run>, w: Run)
    requires NonEmpty(runs) && w.bytes != []
    ensures SameOutside(Overlay(Put(d, w), runs), Put(Overlay(d, runs), w), w)
    decreases |runs|
  {
    if runs != [] {
      SwapOutside(d, runs[0], w);
      SameOutsideOverlay(Put(Put(d, w), runs[0]), Put(Put(d, runs[0]), w), w, runs[1..]);
      LateOutside(Put(d, runs[0]), runs[1..], w);
    }
  }

  /** How far the runs reach into a file. */
  lemma {:induction false} OverlayReach(d: Disk, runs: seq<Run>, file: nat, n: nat)
    requires NonEmpty(runs)
    ensures n <= |Content(Overlay(d, runs), file)| <==>
            n <= |Content(d, file)| || exists r <- runs :: r.file == file && n <= r.End()
    decreases |runs|
  {
    if runs != [] {
      assert runs == [runs[0]] + runs[1..];
      OverlayReach(Put(d, runs[0]), runs[1..], file, n);
    }
  }

  lemma PutRemove(d: Disk, r: Run, file: nat)
    ensures Put(d, r) - {file} == if r.file == file then d - {file} else Put(d - {file}, r)
  {
  }

  lemma {:induction false} OverlayRemove(d: Disk, runs: seq<Run>, file: nat)
    ensures Overlay(d - {file}, Left(runs, OfFile(file))) == Overlay(d, runs) - {file}
    decreases |runs|
  {
    if runs != [] {
      var r, rest := runs[0], runs[1..];
      assert runs == [r] + rest;
      TakenStep(r, rest, OfFile(file));
      PutRemove(d, r, file);
      OverlayRemove(Put(d, r), rest, file);
      if r.file != file {
        assert ([r] + Left(rest, OfFile(file)))[1..] == Left(rest, OfFile(file));
      }
    }
  }

  lemma {:induction false} OverlayKeys(d: Disk, runs: seq<Run>, file: nat)
    requires NonEmpty(runs)
    ensures file in Overlay(d, runs) <==> file in d || exists r <- runs :: r.file == file
    decreases |runs|
  {
    if runs != [] {
      OverlayKeys(Put(d, runs[0]), runs[1..], file);
      assert runs == [runs[0]] + runs[1..];
    }
  }

  lemma CoveredSplit(xs: seq<Run>, ys: seq<Run>, f: nat, i: nat)
    ensures CoveredBy(xs + ys, f, i) <==> CoveredBy(xs, f, i) || CoveredBy(ys, f, i)
  {
    if CoveredBy(xs, f, i) {
      var r :| r in xs && r.Covers(f, i);
      assert r in xs + ys;
    }
    if CoveredBy(ys, f, i) {
      var r :| r in ys && r.Covers(f, i);
      assert r in xs + ys;
    }
  }

  lemma {:induction false} WeightAppend(xs: seq<Run>, ys: seq<Run>)
    ensures Weight(xs + ys) == Weight(xs) + Weight(ys)
  {
    if xs == [] {
      assert xs + ys == ys;
    } else {
      assert (xs + ys)[1..] == xs[1..] + ys;
      WeightAppend(xs[1..], ys);
    }
  }

  // --- Taking some of the runs out ----------------------------------------

  /** Which runs a caller takes: a whole file's, or those touching a range. */
  datatype Claim = OfFile(file: nat) | Touching(file: nat, at: nat, len: nat) {

    predicate Takes(r: Run) {
      match this
      case OfFile(f) => r.file == f
      case Touching(f, at, len) => r.Overlaps(f, at, len)
    }
  }

  function Taken(runs: seq<Run>, c: Claim): seq<Run> {
    if runs == [] then []
    else (if c.Takes(runs[0]) then [runs[0]] else []) + Taken(runs[1..], c)
  }

  function Left(runs: seq<Run>, c: Claim): seq<Run> {
    if runs == [] then []
    else (if c.Takes(runs[0]) then [] else [runs[0]]) + Left(runs[1..], c)
  }

  lemma TakenStep(r: Run, rest: seq<Run>, c: Claim)
    ensures Taken([r] + rest, c) == if c.Takes(r) then [r] + Taken(rest, c) else Taken(rest, c)
    ensures Left([r] + rest, c) == if c.Takes(r) then Left(rest, c) else [r] + Left(rest, c)
  {
    assert ([r] + rest)[1..] == rest;
  }

  /** Removing or replacing the element after a prefix, as an in-place scan
      does. */
  lemma Around<T>(kept: seq<T>, r: T, x: T, rest: seq<T>)
    ensures var all := kept + ([r] + rest);
            && all[|kept|] == r
            && all == (kept + [r]) + rest
            && all[..|kept|] + all[|kept| + 1..] == kept + rest
            && all[|kept| := x] == (kept + [x]) + rest
  {
  }

  /** One step of a scan that takes some runs and leaves the others. */
  lemma TakenNext(kept: seq<Run>, out: seq<Run>, r: Run, rest: seq<Run>, c: Claim)
    ensures out + Taken([r] + rest, c) ==
            if c.Takes(r) then (out + [r]) + Taken(rest, c) else out + Taken(rest, c)
    ensures kept + Left([r] + rest, c) ==
            if c.Takes(r) then kept + Left(rest, c) else (kept + [r]) + Left(rest, c)
  {
    TakenStep(r, rest, c);
  }

  lemma {:induction false} TakenMembers(runs: seq<Run>, c: Claim)
    ensures forall r :: r in Taken(runs, c) <==> r in runs && c.Takes(r)
    ensures forall r :: r in Left(runs, c) <==> r in runs && !c.Takes(r)
  {
    if runs != [] {
      assert runs == [runs[0]] + runs[1..];
      TakenStep(runs[0], runs[1..], c);
      TakenMembers(runs[1..], c);
    }
  }

  lemma DisjointCons(r: Run, rest: seq<Run>)
    ensures Disjoint([r] + rest) <==> Disjoint(rest) && forall x <- rest :: Apart(r, x)
  {
    var all := [r] + rest;
    if Disjoint(all) {
      forall x <- rest
        ensures Apart(r, x)
      {
        var j :| 0 <= j < |rest| && rest[j] == x;
        assert Apart(all[0], all[j + 1]);
      }
      forall i, j | 0 <= i < j < |rest|
        ensures Apart(rest[i], rest[j])
      {
        assert Apart(all[i + 1], all[j + 1]);
      }
    }
  }

  lemma {:induction false} TakenDisjoint(runs: seq<Run>, c: Claim)
    requires Disjoint(runs)
    ensures Disjoint(Taken(runs, c)) && Disjoint(Left(runs, c))
  {
    if runs != [] {
      var r, rest := runs[0], runs[1..];
      assert runs == [r] + rest;
      TakenStep(r, rest, c);
      DisjointCons(r, rest);
      TakenDisjoint(rest, c);
      TakenMembers(rest, c);
      if c.Takes(r) {
        DisjointCons(r, Taken(rest, c));
      } else {
        DisjointCons(r, Left(rest, c));
      }
    }
  }

  lemma DisjointAgree(runs: seq<Run>, x: Run, y: Run, c: Claim)
    requires Disjoint(runs)
    requires x in runs && c.Takes(x) && y in runs && !c.Takes(y)
    ensures Apart(x, y) && Agree(x, y)
  {
    var i :| 0 <= i < |runs| && runs[i] == x;
    var j :| 0 <= j < |runs| && runs[j] == y;
    assert Apart(runs[if i < j then i else j], runs[if i < j then j else i]);
  }

  /** Landing the taken runs first and the rest later loses nothing. */
  lemma {:induction false} TakenFirst(d: Disk, runs: seq<Run>, c: Claim)
    requires NonEmpty(runs) && Disjoint(runs)
    ensures NonEmpty(Taken(runs, c)) && NonEmpty(Left(runs, c))
    ensures Overlay(Overlay(d, Taken(runs, c)), Left(runs, c)) == Overlay(d, runs)
    decreases |runs|
  {
    if runs != [] {
      var r, rest := runs[0], runs[1..];
      assert runs == [r] + rest;
      TakenStep(r, rest, c);
      TakenMembers(rest, c);
      TakenFirst(Put(d, r), rest, c);
      if !c.Takes(r) {
        forall x <- Taken(rest, c)
          ensures Agree(r, x)
        {
          DisjointAgree(runs, x, r, c);
        }
        PutPastOverlay(d, r, Taken(rest, c));
      }
    }
  }

  lemma {:induction false} TakenWeight(runs: seq<Run>, c: Claim)
    ensures Weight(Taken(runs, c)) + Weight(Left(runs, c)) == Weight(runs)
    ensures |Taken(runs, c)| + |Left(runs, c)| == |runs|
  {
    if runs != [] {
      assert runs == [runs[0]] + runs[1..];
      TakenStep(runs[0], runs[1..], c);
      TakenWeight(runs[1..], c);
    }
  }
}
