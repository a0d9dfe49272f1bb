/** Pieces over a layout: which pieces a selection of files needs, and what
    those pieces write into the files that were not selected. */
module Pieces {
  import opened Spans
  import opened Layouts

  const U32: nat := 0x1_0000_0000

  /** The width of a piece index: a cast keeps the low 32 bits. */
  function AsU32(n: nat): (r: nat)
    ensures r < U32 && (n < U32 ==> r == n)
  {
    n % U32
  }

  function DivCeil(a: nat, b: nat): nat
    requires b > 0
  {
    (a + b - 1) / b
  }

  function PieceCount(l: Layout): nat {
    if l.pieceLength == 0 then 0 else AsU32(DivCeil(l.total, l.pieceLength))
  }

  /** Every piece index of the torrent has a 32-bit number. */
  predicate PiecesFit(l: Layout) {
    l.pieceLength > 0 ==> DivCeil(l.total, l.pieceLength) < U32
  }

  /** The bytes a piece occupies; an empty range past the end. */
  function PieceRange(l: Layout, piece: nat): Range {
    if piece >= PieceCount(l) then Range(0, 0)
    else Range(piece * l.pieceLength, Lesser(piece * l.pieceLength + l.pieceLength, l.total))
  }

  /** The piece indices a byte range touches. */
  function PiecesOverlapping(l: Layout, r: Range): Range {
    if l.pieceLength == 0 || r.start >= r.end then Range(0, 0)
    else
      var last := AsU32((r.end - 1) / l.pieceLength);
      Range(AsU32(r.start / l.pieceLength), Lesser(if last + 1 < U32 then last + 1 else last, PieceCount(l)))
  }

  function FileRange(f: LayoutFile): Range {
    Range(f.offset, f.End())
  }

  // --- Division ------------------------------------------------------------------

  lemma DivBounds(b: nat, p: nat)
    requires p > 0
    ensures (b / p) * p <= b < (b / p) * p + p
  {
    assert b == p * (b / p) + b % p;
  }

  lemma MulStep(a: nat, b: nat, p: nat)
    ensures a < b ==> a * p + p <= b * p
    ensures a <= b ==> a * p <= b * p
  {
    if a < b {
      MulLe(a + 1, b, p);
      assert (a + 1) * p == a * p + p;
    }
    if a <= b {
      MulLe(a, b, p);
    }
  }

  lemma DivIs(b: nat, p: nat, k: nat)
    requires p > 0 && k * p <= b < k * p + p
    ensures b / p == k
  {
    DivBounds(b, p);
    MulStep(b / p, k, p);
    MulStep(k, b / p, p);
  }

  lemma MulLe(a: nat, b: nat, p: nat)
    requires a <= b
    ensures a * p <= b * p
  {
  }

  lemma DivMono(a: nat, b: nat, p: nat)
    requires p > 0 && a <= b
    ensures a / p <= b / p
  {
    DivBounds(a, p);
    DivBounds(b, p);
    MulStep(b / p, a / p, p);
  }

  /** A byte of the payload lies in a piece that exists. */
  lemma PieceExists(l: Layout, b: nat)
    requires l.pieceLength > 0 && PiecesFit(l) && b < l.total
    ensures b / l.pieceLength < PieceCount(l)
    ensures Within(PieceRange(l, b / l.pieceLength), b)
  {
    var p := l.pieceLength;
    DivBounds(b, p);
    DivMono(b + p, l.total + p - 1, p);
    DivIs(b + p, p, b / p + 1);
  }

  /** The piece exists and is that of some byte of the range. */
  ghost predicate Touches(l: Layout, r: Range, piece: nat)
    requires l.pieceLength > 0
  {
    piece < PieceCount(l) && exists b: nat :: Within(r, b) && b / l.pieceLength == piece
  }

  lemma TouchesIff(l: Layout, r: Range, piece: nat)
    requires l.pieceLength > 0 && r.start < r.end
    ensures Touches(l, r, piece)
            <==> piece < PieceCount(l) && r.start / l.pieceLength <= piece <= (r.end - 1) / l.pieceLength
  {
    hide PieceCount;
    var p := l.pieceLength;
    if r.start / p <= piece <= (r.end - 1) / p {
      var b := ByteIn(r.start, r.end, p, piece);
      assert Within(r, b);
    }
    if b: nat :| Within(r, b) && b / p == piece {
      DivMono(r.start, b, p);
      DivMono(b, r.end - 1, p);
    }
  }

  /** A byte between two others, in a piece between theirs. */
  lemma ByteIn(start: nat, end: nat, p: nat, piece: nat) returns (b: nat)
    requires p > 0 && start < end && start / p <= piece <= (end - 1) / p
    ensures start <= b < end && b / p == piece
  {
    DivBounds(start, p);
    DivBounds(end - 1, p);
    b := ByteBetween(start, end, p, start / p, (end - 1) / p, piece);
    DivIs(b, p, piece);
  }

  lemma ByteBetween(start: nat, end: nat, p: nat, first: nat, last: nat, piece: nat) returns (b: nat)
    requires start < end && first * p <= start < first * p + p && last * p < end && first <= piece <= last
    ensures start <= b < end && piece * p <= b < piece * p + p
  {
    MulLe(piece, last, p);
    if first == piece {
      assert first * p == piece * p;
      b := start;
    } else {
      MulStep(first, piece, p);
      b := piece * p;
    }
  }

  /** A range inside the payload touches exactly the pieces of its bytes. */
  lemma OverlapIff(l: Layout, r: Range, piece: nat)
    requires l.pieceLength > 0 && PiecesFit(l) && r.start < r.end <= l.total
    ensures Within(PiecesOverlapping(l, r), piece) <==> r.start / l.pieceLength <= piece <= (r.end - 1) / l.pieceLength
    ensures Within(PiecesOverlapping(l, r), piece) <==> exists b: nat :: Within(r, b) && b / l.pieceLength == piece
  {
    hide Touches, PiecesOverlapping, PieceCount, PieceRange, PiecesFit;
    PieceExists(l, r.start);
    PieceExists(l, r.end - 1);
    DivMono(r.start, r.end - 1, l.pieceLength);
    OverlapEnds(l, r);
    TouchesIff(l, r, piece);
    BytePieces(l, r, piece);
  }

  lemma OverlapEnds(l: Layout, r: Range)
    requires l.pieceLength > 0 && PiecesFit(l) && r.start < r.end
    requires r.start / l.pieceLength <= (r.end - 1) / l.pieceLength < PieceCount(l)
    ensures PiecesOverlapping(l, r) == Range(r.start / l.pieceLength, (r.end - 1) / l.pieceLength + 1)
  {
    hide AsU32, DivCeil;
  }

  lemma BytePieces(l: Layout, r: Range, piece: nat)
    requires l.pieceLength > 0 && PiecesFit(l) && r.start < r.end <= l.total
    ensures Touches(l, r, piece) <==> exists b: nat :: Within(r, b) && b / l.pieceLength == piece
  {
    hide PieceCount, PieceRange, PiecesFit;
    if b: nat :| Within(r, b) && b / l.pieceLength == piece {
      PieceExists(l, b);
    }
  }

  /** The cast of a piece number to 32 bits has not moved an end of the range
      to where pieces are. */
  predicate CastKeeps(l: Layout, r: Range)
    requires l.pieceLength > 0 && r.start < r.end
  {
    var first, last := r.start / l.pieceLength, (r.end - 1) / l.pieceLength;
    if first < PieceCount(l) then last < U32 || AsU32(last) + 1 >= PieceCount(l)
    else AsU32(first) >= Lesser(AsU32(last) + 1, PieceCount(l))
  }

  /** Any range at all: the pieces are those that exist and hold a byte of it,
      exactly when the cast keeps the ends. */
  lemma OverlapExact(l: Layout, r: Range)
    requires l.pieceLength > 0 && PiecesFit(l) && r.start < r.end
    ensures (forall piece: nat :: Within(PiecesOverlapping(l, r), piece) <==> Touches(l, r, piece)) <==> CastKeeps(l, r)
  {
    var first, last, n := r.start / l.pieceLength, (r.end - 1) / l.pieceLength, PieceCount(l);
    DivMono(r.start, r.end - 1, l.pieceLength);
    forall piece: nat
      ensures Touches(l, r, piece) <==> piece < n && first <= piece <= last
    {
      TouchesIff(l, r, piece);
    }
    var found := PiecesOverlapping(l, r);
    if !CastKeeps(l, r) {
      var missed := if first < n then n - 1 else found.start;
      assert Within(found, missed) != Touches(l, r, missed);
    }
  }

  /** The cast does cut a range that runs far past the payload. */
  lemma CastCuts()
    ensures var l := Layout([LayoutFile(0, 10)], 1, 10); var r := Range(5, U32 + 1);
            Tiled(l) && !CastKeeps(l, r) && Touches(l, r, 7) && !Within(PiecesOverlapping(l, r), 7)
  {
    TouchesIff(Layout([LayoutFile(0, 10)], 1, 10), Range(5, U32 + 1), 7);
  }

  // --- What a selection needs -------------------------------------------------------

  predicate NeededBy(l: Layout, i: nat, piece: nat) {
    i < |l.files| && l.files[i].length > 0 && Within(PiecesOverlapping(l, FileRange(l.files[i])), piece)
  }

  /** Some selected file needs the piece. Indices outside the file list are
      ignored. */
  predicate Wanted(l: Layout, selected: seq<nat>, piece: nat) {
    exists i <- selected :: NeededBy(l, i, piece)
  }

  ghost predicate NeedsExactly(l: Layout, selected: seq<nat>, needed: set<nat>) {
    forall piece: nat :: piece in needed <==> Wanted(l, selected, piece)
  }

  function Indices(r: Range): (s: seq<nat>)
    ensures forall piece: nat :: piece in s <==> Within(r, piece)
  {
    var s: seq<nat> := seq(if r.start < r.end then r.end - r.start else 0, i requires i >= 0 => r.start + i);
    assert forall piece: nat :: Within(r, piece) ==> s[piece - r.start] == piece;
    s
  }

  predicate Ascending(s: seq<nat>) {
    forall i, j :: 0 <= i < j < |s| ==> s[i] <= s[j]
  }

  predicate Increasing(s: seq<nat>) {
    forall i, j :: 0 <= i < j < |s| ==> s[i] < s[j]
  }

  function Insert(x: nat, s: seq<nat>): (r: seq<nat>)
    ensures multiset(r) == multiset{x} + multiset(s)
  {
    if s == [] || x <= s[0] then [x] + s
    else
      assert s == [s[0]] + s[1..];
      [s[0]] + Insert(x, s[1..])
  }

  lemma AscendingCons(x: nat, s: seq<nat>)
    requires Ascending(s) && forall k | 0 <= k < |s| :: x <= s[k]
    ensures Ascending([x] + s)
    ensures Increasing(s) && (forall k | 0 <= k < |s| :: x < s[k]) ==> Increasing([x] + s)
  {
    var r := [x] + s;
    assert forall k | 0 < k < |r| :: r[k] == s[k - 1];
  }

  lemma {:induction false} InsertAscending(x: nat, s: seq<nat>)
    requires Ascending(s)
    ensures Ascending(Insert(x, s))
  {
    if s != [] && x > s[0] {
      InsertAscending(x, s[1..]);
      var rest := Insert(x, s[1..]);
      forall k | 0 <= k < |rest|
        ensures s[0] <= rest[k]
      {
        assert rest[k] in multiset(rest);
        if rest[k] != x {
          assert rest[k] in s[1..];
        }
      }
      AscendingCons(s[0], rest);
    }
  }

  function Sorted(s: seq<nat>): (r: seq<nat>)
    ensures Ascending(r) && multiset(r) == multiset(s)
  {
    if s == [] then []
    else
      InsertAscending(s[0], Sorted(s[1..]));
      assert s == [s[0]] + s[1..];
      Insert(s[0], Sorted(s[1..]))
  }

  /** Of neighbours that are equal, one. */
  function Dedup(s: seq<nat>): seq<nat> {
    if |s| < 2 then s else if s[0] == s[1] then Dedup(s[1..]) else [s[0]] + Dedup(s[1..])
  }

  lemma {:induction false} DedupIncreasing(s: seq<nat>)
    requires Ascending(s)
    ensures Increasing(Dedup(s)) && forall x :: x in Dedup(s) <==> x in s
  {
    if |s| >= 2 {
      DedupIncreasing(s[1..]);
      assert s == [s[0]] + s[1..];
      if s[0] != s[1] {
        var rest := Dedup(s[1..]);
        forall k | 0 <= k < |rest|
          ensures s[0] < rest[k]
        {
          assert rest[k] in s[1..];
        }
        AscendingCons(s[0], rest);
      }
    }
  }

  lemma SortedMembers(s: seq<nat>, x: nat)
    ensures x in Sorted(s) <==> x in s
  {
    assert x in multiset(Sorted(s)) <==> x in multiset(s);
  }

  /** The pieces a selection of files needs: in order, each once. */
  method PiecesForSelection(l: Layout, selected: seq<nat>) returns (out: seq<nat>)
    ensures Increasing(out) && NeedsExactly(l, selected, set piece <- out)
  {
    hide NeededBy, Wanted, PiecesOverlapping, Indices;
    out := [];
    assert forall piece: nat :: piece in out <==> Wanted(l, selected[..0], piece) by {
      NothingWanted(l);
      assert selected[..0] == [];
    }
    for k := 0 to |selected|
      invariant forall piece: nat :: piece in out <==> Wanted(l, selected[..k], piece)
    {
      var i := selected[k];
      assert selected[..k + 1] == selected[..k] + [i];
      ghost var before := out;
      if i < |l.files| && l.files[i].length > 0 {
        out := out + Indices(PiecesOverlapping(l, FileRange(l.files[i])));
      }
      forall piece: nat ensures piece in out <==> Wanted(l, selected[..k + 1], piece) {
        WantedNext(l, selected[..k], i, piece);
      }
    }
    assert selected[..|selected|] == selected;
    forall piece: nat ensures piece in Dedup(Sorted(out)) <==> piece in out {
      DedupIncreasing(Sorted(out));
      SortedMembers(out, piece);
    }
    DedupIncreasing(Sorted(out));
    out := Dedup(Sorted(out));
  }

  lemma NothingWanted(l: Layout)
    ensures forall piece :: !Wanted(l, [], piece)
  {
  }

  lemma WantedNext(l: Layout, selected: seq<nat>, i: nat, piece: nat)
    ensures Wanted(l, selected + [i], piece) <==> (Wanted(l, selected, piece)
        || (i < |l.files| && l.files[i].length > 0 && piece in Indices(PiecesOverlapping(l, FileRange(l.files[i])))))
  {
    hide PiecesOverlapping;
    assert Wanted(l, selected + [i], piece) <==> Wanted(l, selected, piece) || NeededBy(l, i, piece) by {
      hide NeededBy;
      if Wanted(l, selected + [i], piece) {
        var x :| x in selected + [i] && NeededBy(l, x, piece);
      }
      if Wanted(l, selected, piece) {
        var x :| x in selected && NeededBy(l, x, piece);
        assert x in selected + [i];
      }
      assert i in selected + [i];
    }
  }

  /** A piece is needed when a selected file holds even one byte of it. */
  lemma NeededIff(l: Layout, i: nat, piece: nat)
    requires Tiled(l) && PiecesFit(l) && l.pieceLength > 0 && i < |l.files|
    ensures NeededBy(l, i, piece) <==>
            exists b: nat :: Within(FileRange(l.files[i]), b) && b / l.pieceLength == piece
  {
    TiledTotal(l, i);
    if l.files[i].length > 0 {
      OverlapIff(l, FileRange(l.files[i]), piece);
    }
  }

  // --- What it spills -----------------------------------------------------------------

  /** An unselected file a boundary piece writes into. */
  datatype Spill = Spill(file: nat, bytes: nat, writtenTo: nat, length: nat)

  function Greater(a: nat, b: nat): nat {
    if a < b then b else a
  }

  /** The part of a file inside one piece, when the piece is needed. */
  function SpillPart(l: Layout, needed: set<nat>, f: LayoutFile, piece: nat): Range {
    var r := PieceRange(l, piece);
    if piece in needed then Range(Greater(r.start, f.offset), Lesser(r.end, f.End())) else Range(0, 0)
  }

  function PartBytes(r: Range): nat {
    if r.start < r.end then r.end - r.start else 0
  }

  function PartEnd(r: Range, f: LayoutFile): nat {
    if r.start < r.end && f.offset <= r.end then r.end - f.offset else 0
  }

  function Ends(l: Layout, f: LayoutFile): (nat, nat) {
    var pieces := PiecesOverlapping(l, FileRange(f));
    (pieces.start, if pieces.end == 0 then 0 else pieces.end - 1)
  }

  function SpillOf(l: Layout, needed: set<nat>, i: nat): Spill
    requires i < |l.files|
  {
    var f := l.files[i];
    var (first, last) := Ends(l, f);
    var a := SpillPart(l, needed, f, first);
    var b := if last != first then SpillPart(l, needed, f, last) else Range(0, 0);
    Spill(i, PartBytes(a) + PartBytes(b), Greater(PartEnd(a, f), PartEnd(b, f)), f.length)
  }

  function Chosen(selected: seq<nat>): set<nat> {
    set i | i in selected
  }

  function SpillsFrom(l: Layout, chosen: set<nat>, needed: set<nat>, i: nat): seq<Spill>
    requires i <= |l.files|
    decreases |l.files| - i
  {
    if i == |l.files| then []
    else
      var spill := SpillOf(l, needed, i);
      (if i !in chosen && l.files[i].length > 0 && spill.bytes > 0 then [spill] else [])
      + SpillsFrom(l, chosen, needed, i + 1)
  }

  /** What the first and last piece of one file write into it. */
  method FileSpill(l: Layout, needed: set<nat>, i: nat) returns (spill: Spill)
    requires i < |l.files|
    ensures spill == SpillOf(l, needed, i)
  {
    hide PiecesOverlapping, PieceRange;
    var file := l.files[i];
    var overlap := PiecesOverlapping(l, FileRange(file));
    var first := overlap.start;
    var last := if overlap.end == 0 then 0 else overlap.end - 1;
    var candidates := if last != first then [first, last] else [first];
    var bytes, writtenTo := 0, 0;
    ghost var a := SpillPart(l, needed, file, first);
    ghost var b := if last != first then SpillPart(l, needed, file, last) else Range(0, 0);
    for k := 0 to |candidates|
      invariant 0 <= bytes && 0 <= writtenTo
      invariant bytes == (if k > 0 then PartBytes(a) else 0) + (if k > 1 then PartBytes(b) else 0)
      invariant writtenTo == Greater(if k > 0 then PartEnd(a, file) else 0, if k > 1 then PartEnd(b, file) else 0)
    {
      var piece := candidates[k];
      if piece !in needed {
        continue;
      }
      var range := PieceRange(l, piece);
      var start := Greater(range.start, file.offset);
      var end := Lesser(range.end, file.End());
      if start >= end {
        continue;
      }
      bytes := bytes + (end - start);
      writtenTo := Greater(writtenTo, end - file.offset);
    }
    spill := Spill(i, bytes, writtenTo, file.length);
  }

  lemma SpillsJoin(out: seq<Spill>, spills: seq<Spill>, rest: seq<Spill>)
    ensures out + (spills + rest) == (out + spills) + rest
    ensures out + ([] + rest) == out + rest
  {
  }

  /** What a selection writes into the files it did not select, looking only at
      the first and last piece of each. */
  method SelectionSpill(l: Layout, selected: seq<nat>) returns (out: seq<Spill>, ghost needed: set<nat>)
    ensures NeedsExactly(l, selected, needed)
    ensures out == SpillsFrom(l, Chosen(selected), needed, 0)
  {
    hide SpillOf, NeedsExactly, Chosen;
    var chosen := Chosen(selected);
    var pieces := PiecesForSelection(l, selected);
    needed := set piece <- pieces;
    var wanted := set piece <- pieces;
    out := [];
    for i := 0 to |l.files|
      invariant SpillsFrom(l, chosen, needed, 0) == out + SpillsFrom(l, chosen, needed, i)
    {
      SpillsJoin(out, [SpillOf(l, needed, i)], SpillsFrom(l, chosen, needed, i + 1));
      if i in chosen || l.files[i].length == 0 {
        continue;
      }
      var spill := FileSpill(l, wanted, i);
      if spill.bytes > 0 {
        out := out + [spill];
      }
    }
  }

  /** How many bytes of a stretch lie in needed pieces. */
  function NeededBytes(pieceLength: nat, needed: set<nat>, lo: nat, hi: nat): nat
    requires pieceLength > 0
    decreases hi
  {
    if hi <= lo then 0
    else NeededBytes(pieceLength, needed, lo, hi - 1) + if (hi - 1) / pieceLength in needed then 1 else 0
  }

  lemma {:induction false} NeededSplit(p: nat, needed: set<nat>, lo: nat, mid: nat, hi: nat)
    requires p > 0 && lo <= mid <= hi
    ensures NeededBytes(p, needed, lo, hi) == NeededBytes(p, needed, lo, mid) + NeededBytes(p, needed, mid, hi)
    decreases hi
  {
    if mid < hi {
      NeededSplit(p, needed, lo, mid, hi - 1);
    }
  }

  /** A stretch inside one piece counts in full or not at all. */
  lemma {:induction false} NeededUniform(p: nat, needed: set<nat>, lo: nat, hi: nat, all: bool)
    requires p > 0 && lo <= hi
    requires forall b: nat | lo <= b < hi :: (b / p in needed) == all
    ensures NeededBytes(p, needed, lo, hi) == if all then hi - lo else 0
    decreases hi
  {
    if lo < hi {
      NeededUniform(p, needed, lo, hi - 1, all);
      assert ((hi - 1) / p in needed) == all;
    }
  }

  lemma NeededBounds(l: Layout, i: nat, piece: nat)
    ensures NeededBy(l, i, piece) ==> i < |l.files|
  {
  }

  /** A piece strictly between a file's first and last lies inside the file, so
      no other file needs it. */
  lemma MiddleNotNeeded(l: Layout, i: nat, j: nat, b: nat)
    requires Tiled(l) && PiecesFit(l) && l.pieceLength > 0 && i < |l.files| && i != j
    requires var f := l.files[i];
             f.length > 0 && f.offset / l.pieceLength < b / l.pieceLength < (f.End() - 1) / l.pieceLength
    ensures !NeededBy(l, j, b / l.pieceLength)
  {
    hide PiecesOverlapping, PiecesFit;
    var p, piece := l.pieceLength, b / l.pieceLength;
    if NeededBy(l, j, piece) {
      NeededBounds(l, j, piece);
      NeededIff(l, j, piece);
      var c: nat :| Within(FileRange(l.files[j]), c) && c / p == piece;
      MiddleInside(l.files[i], p, c);
      FileAtIff(l, c, i);
      FileAtIff(l, c, j);
    }
  }

  lemma MiddleInside(f: LayoutFile, p: nat, c: nat)
    requires p > 0 && f.length > 0 && f.offset / p < c / p < (f.End() - 1) / p
    ensures f.offset <= c < f.End()
  {
    DivBounds(c, p);
    DivBounds(f.offset, p);
    DivBounds(f.End() - 1, p);
    MulStep(f.offset / p, c / p, p);
    MulStep(c / p, (f.End() - 1) / p, p);
  }

  /** A file's first and last piece. */
  lemma EndsAre(l: Layout, i: nat)
    requires Tiled(l) && PiecesFit(l) && l.pieceLength > 0 && i < |l.files| && l.files[i].length > 0
    ensures var f, p := l.files[i], l.pieceLength;
            Ends(l, f) == (f.offset / p, (f.End() - 1) / p) && f.offset / p <= (f.End() - 1) / p < PieceCount(l)
  {
    var f := l.files[i];
    TiledTotal(l, i);
    PieceExists(l, f.offset);
    PieceExists(l, f.End() - 1);
    DivMono(f.offset, f.End() - 1, l.pieceLength);
  }

  /** The bytes of a stretch that lies in one piece. */
  lemma OnePiece(p: nat, needed: set<nat>, lo: nat, hi: nat, piece: nat)
    requires p > 0 && piece * p <= lo <= hi <= piece * p + p
    ensures NeededBytes(p, needed, lo, hi) == if piece in needed then hi - lo else 0
    ensures forall b: nat | lo <= b < hi :: b / p == piece
  {
    forall b: nat | lo <= b < hi ensures b / p == piece {
      DivIs(b, p, piece);
    }
    NeededUniform(p, needed, lo, hi, piece in needed);
  }

  /** No byte of a stretch counts when no piece it touches is needed. */
  lemma NoPiece(p: nat, needed: set<nat>, lo: nat, hi: nat, from: nat, to: nat)
    requires p > 0 && from * p <= lo <= hi <= to * p
    requires forall piece | from <= piece < to :: piece !in needed
    ensures NeededBytes(p, needed, lo, hi) == 0
    ensures forall b: nat | lo <= b < hi :: b / p !in needed
  {
    forall b: nat | lo <= b < hi ensures b / p !in needed {
      DivBounds(b, p);
      MulStep(b / p, from, p);
      MulStep(to, b / p, p);
    }
    NeededUniform(p, needed, lo, hi, false);
  }

  /** One past the last byte of a stretch that lies in a needed piece. */
  predicate OnePast(p: nat, needed: set<nat>, lo: nat, hi: nat, w: nat)
    requires p > 0
  {
    && w <= Greater(hi, lo) - lo
    && (forall b: nat | lo <= b < hi && b / p in needed :: b < lo + w)
    && (w > 0 ==> (lo + w - 1) / p in needed)
  }

  /** What the first and last piece of a file hold of it. */
  lemma SpillIs(l: Layout, needed: set<nat>, i: nat)
    requires Tiled(l) && PiecesFit(l) && l.pieceLength > 0 && i < |l.files| && l.files[i].length > 0
    ensures var f, p, spill := l.files[i], l.pieceLength, SpillOf(l, needed, i);
            var first, last := f.offset / p, (f.End() - 1) / p;
            if first == last then
              spill.bytes == spill.writtenTo == if first in needed then f.length else 0
            else
              var head, tail := first * p + p - f.offset, f.End() - last * p;
              && spill.bytes == (if first in needed then head else 0) + (if last in needed then tail else 0)
              && spill.writtenTo == if last in needed then f.length else if first in needed then head else 0
  {
    hide PieceCount, PiecesFit, PiecesOverlapping, Tiled;
    var f, p := l.files[i], l.pieceLength;
    var first, last := f.offset / p, (f.End() - 1) / p;
    TiledTotal(l, i);
    EndsAre(l, i);
    DivBounds(f.offset, p);
    DivBounds(f.End() - 1, p);
    MulStep(first, last, p);
  }

  /** The two ends of a file account for every byte of it in a needed piece,
      when no piece strictly between them is needed. */
  lemma EndsSuffice(l: Layout, needed: set<nat>, i: nat)
    requires Tiled(l) && PiecesFit(l) && l.pieceLength > 0 && i < |l.files| && l.files[i].length > 0
    requires var f, p := l.files[i], l.pieceLength;
             forall piece | f.offset / p < piece < (f.End() - 1) / p :: piece !in needed
    ensures var f, p, spill := l.files[i], l.pieceLength, SpillOf(l, needed, i);
            && spill.bytes == NeededBytes(p, needed, f.offset, f.End())
            && OnePast(p, needed, f.offset, f.End(), spill.writtenTo)
  {
    hide NeededBytes, PieceCount, PiecesFit, PiecesOverlapping, Tiled, SpillOf, OnePast;
    var f, p := l.files[i], l.pieceLength;
    var first, last := f.offset / p, (f.End() - 1) / p;
    SpillIs(l, needed, i);
    EndsAre(l, i);
    DivBounds(f.offset, p);
    DivBounds(f.End() - 1, p);
    var spill := SpillOf(l, needed, i);
    EndsCount(p, needed, f.offset, f.End(), first, last, spill.bytes, spill.writtenTo);
  }

  lemma EndsCount(p: nat, needed: set<nat>, lo: nat, hi: nat, first: nat, last: nat, bytes: nat, past: nat)
    requires p > 0 && lo < hi && first * p <= lo < first * p + p && last * p < hi <= last * p + p && first <= last
    requires forall piece | first < piece < last :: piece !in needed
    requires if first == last then bytes == past == if first in needed then hi - lo else 0
             else
               var head, tail := first * p + p - lo, hi - last * p;
               && bytes == (if first in needed then head else 0) + (if last in needed then tail else 0)
               && past == if last in needed then hi - lo else if first in needed then head else 0
    ensures bytes == NeededBytes(p, needed, lo, hi) && OnePast(p, needed, lo, hi, past)
  {
    hide NeededBytes;
    if first == last {
      OnePiece(p, needed, lo, hi, first);
    } else {
      MulStep(first, last, p);
      assert (first + 1) * p == first * p + p;
      ThreeParts(p, needed, lo, hi, first, last, (first + 1) * p, last * p);
    }
  }

  /** A stretch over several pieces of which only the first and last may be
      needed. */
  lemma ThreeParts(p: nat, needed: set<nat>, lo: nat, hi: nat, first: nat, last: nat, low: nat, high: nat)
    requires p > 0 && first < last && low == (first + 1) * p && high == last * p
    requires first * p <= lo < low == first * p + p && low <= high < hi <= high + p
    requires forall piece | first < piece < last :: piece !in needed
    ensures NeededBytes(p, needed, lo, hi)
         == (if first in needed then low - lo else 0) + (if last in needed then hi - high else 0)
    ensures OnePast(p, needed, lo, hi, if last in needed then hi - lo else if first in needed then low - lo else 0)
  {
    hide NeededBytes;
    OnePiece(p, needed, lo, low, first);
    NoPiece(p, needed, low, high, first + 1, last);
    OnePiece(p, needed, high, hi, last);
    NeededSplit(p, needed, lo, low, high);
    NeededSplit(p, needed, lo, high, hi);
  }

  /** Looking at two pieces a file, the spill is exact: the count of the file's
      bytes in needed pieces, and one past the last of them. */
  lemma SpillExact(l: Layout, selected: seq<nat>, needed: set<nat>, i: nat)
    requires Tiled(l) && PiecesFit(l) && l.pieceLength > 0 && NeedsExactly(l, selected, needed)
    requires i < |l.files| && i !in selected && l.files[i].length > 0
    ensures var f, p, spill := l.files[i], l.pieceLength, SpillOf(l, needed, i);
            && spill.bytes == NeededBytes(p, needed, f.offset, f.End())
            && OnePast(p, needed, f.offset, f.End(), spill.writtenTo)
  {
    var f, p := l.files[i], l.pieceLength;
    forall piece | f.offset / p < piece < (f.End() - 1) / p ensures piece !in needed {
      if piece in needed {
        var j :| j in selected && NeededBy(l, j, piece);
        DivIs(piece * p, p, piece);
        MiddleNotNeeded(l, i, j, piece * p);
      }
    }
    EndsSuffice(l, needed, i);
  }

  lemma {:induction false} NeededPositive(p: nat, needed: set<nat>, lo: nat, hi: nat)
    requires p > 0
    ensures NeededBytes(p, needed, lo, hi) > 0 <==> exists b: nat :: Within(Range(lo, hi), b) && b / p in needed
    decreases hi
  {
    if lo < hi {
      NeededPositive(p, needed, lo, hi - 1);
      if (hi - 1) / p in needed {
        assert Within(Range(lo, hi), hi - 1);
      }
    }
  }

  predicate InOrder(spills: seq<Spill>, from: nat) {
    && (forall k | 0 <= k < |spills| :: spills[k].file >= from)
    && forall k, n | 0 <= k < n < |spills| :: spills[k].file < spills[n].file
  }

  lemma FirstSpill(x: Spill, rest: seq<Spill>, from: nat)
    requires x.file == from && InOrder(rest, from + 1)
    ensures InOrder([x] + rest, from)
  {
    SpillPlaces(x, rest);
  }

  lemma SpillPlaces(x: Spill, rest: seq<Spill>)
    ensures |[x] + rest| == 1 + |rest|
    ensures forall k {:trigger ([x] + rest)[k]} | 0 <= k < 1 + |rest| ::
              ([x] + rest)[k] == if k == 0 then x else rest[k - 1]
  {
  }

  lemma LaterSpills(rest: seq<Spill>, from: nat)
    requires InOrder(rest, from + 1)
    ensures InOrder([] + rest, from)
  {
    assert [] + rest == rest;
  }

  /** Each file is listed at most once, in the order of the torrent. */
  lemma {:induction false} SpillsInOrder(l: Layout, chosen: set<nat>, needed: set<nat>, from: nat)
    requires from <= |l.files|
    ensures InOrder(SpillsFrom(l, chosen, needed, from), from)
    decreases |l.files| - from
  {
    hide SpillOf, InOrder;
    if from < |l.files| {
      SpillsInOrder(l, chosen, needed, from + 1);
      SpillFile(l, needed, from);
      FirstSpill(SpillOf(l, needed, from), SpillsFrom(l, chosen, needed, from + 1), from);
      LaterSpills(SpillsFrom(l, chosen, needed, from + 1), from);
    } else {
      NoSpills(from);
    }
  }

  lemma NoSpills(from: nat)
    ensures InOrder([], from)
  {
  }

  /** Where a file's spill stands in the list, if it is there. */
  lemma {:induction false} SpillsIff(l: Layout, chosen: set<nat>, needed: set<nat>, from: nat, spill: Spill)
    requires from <= |l.files|
    ensures spill in SpillsFrom(l, chosen, needed, from) <==>
            && from <= spill.file < |l.files| && spill.file !in chosen && l.files[spill.file].length > 0
            && spill.bytes > 0 && spill == SpillOf(l, needed, spill.file)
    decreases |l.files| - from
  {
    hide SpillOf;
    if from < |l.files| {
      SpillsIff(l, chosen, needed, from + 1, spill);
      assert SpillOf(l, needed, from).file == from by {
        SpillFile(l, needed, from);
      }
    }
  }

  lemma SpillFile(l: Layout, needed: set<nat>, i: nat)
    requires i < |l.files|
    ensures SpillOf(l, needed, i).file == i && SpillOf(l, needed, i).length == l.files[i].length
  {
  }

  /** A byte of one file and a byte of a selected one lie in the same piece. */
  predicate Shares(l: Layout, selected: seq<nat>, i: nat, j: nat, b: nat, c: nat)
    requires i < |l.files| && l.pieceLength > 0
  {
    && j in selected && j < |l.files| && b / l.pieceLength == c / l.pieceLength
    && Within(FileRange(l.files[i]), b) && Within(FileRange(l.files[j]), c)
  }

  lemma SharedByte(l: Layout, selected: seq<nat>, needed: set<nat>, i: nat, b: nat) returns (j: nat, c: nat)
    requires Tiled(l) && PiecesFit(l) && l.pieceLength > 0 && NeedsExactly(l, selected, needed) && i < |l.files|
    requires Within(FileRange(l.files[i]), b) && b / l.pieceLength in needed
    ensures Shares(l, selected, i, j, b, c)
  {
    hide Tiled, PiecesFit, NeededBy;
    var piece := b / l.pieceLength;
    assert Wanted(l, selected, piece);
    j :| j in selected && NeededBy(l, j, piece);
    NeededBounds(l, j, piece);
    NeededIff(l, j, piece);
    c :| Within(FileRange(l.files[j]), c) && c / l.pieceLength == piece;
  }

  lemma SharedNeeded(l: Layout, selected: seq<nat>, needed: set<nat>, i: nat, j: nat, b: nat, c: nat)
    requires Tiled(l) && PiecesFit(l) && l.pieceLength > 0 && NeedsExactly(l, selected, needed) && i < |l.files|
    requires Shares(l, selected, i, j, b, c)
    ensures Within(FileRange(l.files[i]), b) && b / l.pieceLength in needed
  {
    hide Tiled, PiecesFit, NeededBy;
    NeededIff(l, j, b / l.pieceLength);
    assert Wanted(l, selected, b / l.pieceLength);
  }

  lemma SharesIff(l: Layout, selected: seq<nat>, needed: set<nat>, i: nat)
    requires Tiled(l) && PiecesFit(l) && l.pieceLength > 0 && NeedsExactly(l, selected, needed) && i < |l.files|
    ensures (exists b: nat :: Within(FileRange(l.files[i]), b) && b / l.pieceLength in needed) <==>
            exists j: nat, b: nat, c: nat :: Shares(l, selected, i, j, b, c)
  {
    hide Tiled, PiecesFit, NeededBy, NeedsExactly, Shares;
    if b: nat :| Within(FileRange(l.files[i]), b) && b / l.pieceLength in needed {
      var j, c := SharedByte(l, selected, needed, i, b);
    }
    if j: nat, b: nat, c: nat :| Shares(l, selected, i, j, b, c) {
      SharedNeeded(l, selected, needed, i, j, b, c);
    }
  }

  /** A file is listed exactly when it was not selected and holds a byte of a
      piece some selected file also holds a byte of. */
  lemma ListedIff(l: Layout, selected: seq<nat>, needed: set<nat>, i: nat)
    requires Tiled(l) && PiecesFit(l) && l.pieceLength > 0 && NeedsExactly(l, selected, needed) && i < |l.files|
    ensures (exists spill <- SpillsFrom(l, Chosen(selected), needed, 0) :: spill.file == i) <==>
            && i !in selected
            && exists j: nat, b: nat, c: nat :: Shares(l, selected, i, j, b, c)
  {
    hide SpillOf, PiecesFit, Tiled;
    var f, p := l.files[i], l.pieceLength;
    var spill := SpillOf(l, needed, i);
    SpillFile(l, needed, i);
    SpillsIff(l, Chosen(selected), needed, 0, spill);
    forall other | other in SpillsFrom(l, Chosen(selected), needed, 0) && other.file == i ensures other == spill {
      SpillsIff(l, Chosen(selected), needed, 0, other);
    }
    if i !in selected && f.length > 0 {
      SpillExact(l, selected, needed, i);
      NeededPositive(p, needed, f.offset, f.End());
      SharesIff(l, selected, needed, i);
    }
  }
}
