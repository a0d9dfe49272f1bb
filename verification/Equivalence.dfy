/** Deciding from piece hashes alone whether two torrents hold the same file. */
module Equivalence {
  import opened Device
  import opened Layouts
  import opened Pieces

  type Hash = seq<byte>

  datatype Evidence = PieceHashes | LengthOnly

  datatype Match = Match(index: nat, otherIndex: nat, length: nat, evidence: Evidence,
                         piecesCompared: nat, bytesProven: nat)

  /** The three ends of a comparison. `Panics` is the remainder by a piece
      length of zero. */
  datatype Verdict = Different | Panics | Matched(found: Match)

  datatype Whole = NoPiece | Whole(start: nat, end: nat, offset: nat)

  /** Whole pieces lying inside a file, and where in the file the first starts. */
  function WholePieces(l: Layout, index: nat): (w: Whole)
    ensures w.Whole? ==> w.start < U32 && w.end < U32
  {
    if index >= |l.files| || l.pieceLength == 0 then NoPiece
    else
      var file := l.files[index];
      var start, end := DivCeil(file.offset, l.pieceLength), file.End() / l.pieceLength;
      if end <= start then NoPiece
      else
        CeilBounds(file.offset, l.pieceLength);
        Whole(AsU32(start), AsU32(end), start * l.pieceLength - file.offset)
  }

  lemma CeilBounds(a: nat, p: nat)
    requires p > 0
    ensures a <= DivCeil(a, p) * p < a + p
  {
    DivBounds(a + p - 1, p);
  }

  /** Subtraction at the width of a piece index. */
  function Minus32(a: nat, b: nat): nat
    requires a < U32 && b < U32
  {
    AsU32(a + U32 - b)
  }

  datatype HashVerdict = SameHashes | OtherHashes | HashMissing

  /** Compare the hashes of two runs of pieces, from a step on. */
  function CompareHashes(left: seq<Hash>, a: nat, right: seq<Hash>, b: nat, step: nat, count: nat): HashVerdict
    requires step <= count
    decreases count - step
  {
    var x, y := AsU32(a + step), AsU32(b + step);
    if step == count then SameHashes
    else if x >= |left| || y >= |right| then HashMissing
    else if left[x] != right[y] then OtherHashes
    else CompareHashes(left, a, right, b, step + 1, count)
  }

  function Candidate(left: Layout, i: nat, j: nat): Match
    requires i < |left.files|
  {
    Match(i, j, left.files[i].length, LengthOnly, 0, 0)
  }

  function Proof(left: Layout, i: nat, j: nat, count: nat): Match
    requires i < |left.files|
  {
    Candidate(left, i, j).(evidence := PieceHashes, piecesCompared := count, bytesProven := count * left.pieceLength)
  }

  /** The comparison of two files as a function of the metadata. */
  function Compared(left: Layout, lh: seq<Hash>, i: nat, right: Layout, rh: seq<Hash>, j: nat): Verdict {
    if i >= |left.files| || j >= |right.files| || left.files[i].length != right.files[j].length then Different
    else if left.pieceLength != right.pieceLength then Matched(Candidate(left, i, j))
    else if left.pieceLength == 0 then Panics
    else if left.files[i].offset % left.pieceLength != right.files[j].offset % left.pieceLength
    then Matched(Candidate(left, i, j))
    else
      var a, b := WholePieces(left, i), WholePieces(right, j);
      if a.NoPiece? || b.NoPiece? then Matched(Candidate(left, i, j))
      else
        var count := Lesser(Minus32(a.end, a.start), Minus32(b.end, b.start));
        if count == 0 then Matched(Candidate(left, i, j))
        else
          match CompareHashes(lh, a.start, rh, b.start, 0, count)
          case OtherHashes => Different
          case HashMissing => Matched(Candidate(left, i, j))
          case SameHashes =>
            Matched(Proof(left, i, j, count))
  }

  method Compare(left: Layout, lh: seq<Hash>, i: nat, right: Layout, rh: seq<Hash>, j: nat) returns (v: Verdict)
    ensures v == Compared(left, lh, i, right, rh, j)
  {
    hide WholePieces, Minus32, AsU32;
    if i >= |left.files| || j >= |right.files| || left.files[i].length != right.files[j].length {
      return Different;
    }
    var candidate := Candidate(left, i, j);
    if left.pieceLength != right.pieceLength {
      return Matched(candidate);
    }
    var piece := left.pieceLength;
    if piece == 0 {
      return Panics;
    }
    if left.files[i].offset % piece != right.files[j].offset % piece {
      return Matched(candidate);
    }
    var a, b := WholePieces(left, i), WholePieces(right, j);
    if a.NoPiece? || b.NoPiece? {
      return Matched(candidate);
    }
    var count := Lesser(Minus32(a.end, a.start), Minus32(b.end, b.start));
    if count == 0 {
      return Matched(candidate);
    }
    for step := 0 to count
      invariant CompareHashes(lh, a.start, rh, b.start, 0, count)
                == CompareHashes(lh, a.start, rh, b.start, step, count)
    {
      var x, y := AsU32(a.start + step), AsU32(b.start + step);
      if x >= |lh| || y >= |rh| {
        return Matched(candidate);
      } else if lh[x] != rh[y] {
        return Different;
      }
    }
    v := Matched(candidate.(evidence := PieceHashes, piecesCompared := count, bytesProven := count * piece));
  }

  // --- Which pieces a file holds whole ----------------------------------------------

  predicate InsideFile(l: Layout, i: nat, piece: nat)
    requires i < |l.files|
  {
    l.files[i].offset <= piece * l.pieceLength && piece * l.pieceLength + l.pieceLength <= l.files[i].End()
  }

  /** The whole pieces are all the pieces lying inside the file. */
  lemma WholePiecesIff(l: Layout, i: nat, piece: nat)
    requires Tiled(l) && PiecesFit(l) && l.pieceLength > 0 && i < |l.files|
    ensures var w := WholePieces(l, i);
            InsideFile(l, i, piece) <==> w.Whole? && w.start <= piece < w.end
  {
    hide Tiled, PiecesFit, DivCeil;
    var f, p := l.files[i], l.pieceLength;
    WholeIs(l, i);
    WithinBy(f.offset, f.End(), p, piece);
  }

  /** A piece lies inside a stretch when it lies between the stretch's ends,
      the first rounded up and the second down. */
  lemma WithinBy(from: nat, to: nat, p: nat, piece: nat)
    requires p > 0
    ensures from <= piece * p && piece * p + p <= to <==> DivCeil(from, p) <= piece < to / p
  {
    var start, end := DivCeil(from, p), to / p;
    CeilBounds(from, p);
    DivBounds(to, p);
    MulStep(start, piece, p);
    MulStep(piece, start, p);
    MulStep(piece, end, p);
    MulStep(end, piece, p);
  }

  lemma WholeIs(l: Layout, i: nat)
    requires Tiled(l) && PiecesFit(l) && l.pieceLength > 0 && i < |l.files|
    ensures var f, p, w := l.files[i], l.pieceLength, WholePieces(l, i);
            var start, end := DivCeil(f.offset, p), f.End() / p;
            && f.End() <= l.total && start < U32 && end <= PieceCount(l) < U32
            && start * p >= f.offset
            && (end <= start ==> w == NoPiece)
            && (end > start ==> w.Whole? && w.start == start && w.end == end && w.offset == w.start * p - f.offset)
  {
    TiledTotal(l, i);
    WholeCount(l, l.files[i].End());
    CeilSmall(l, l.files[i].offset);
    CeilBounds(l.files[i].offset, l.pieceLength);
  }

  /** Together the whole pieces miss less than two pieces of the file. */
  lemma WholePiecesCover(l: Layout, i: nat)
    requires Tiled(l) && PiecesFit(l) && l.pieceLength > 0 && i < |l.files| && WholePieces(l, i).Whole?
    ensures var w := WholePieces(l, i);
            && w.start < w.end <= PieceCount(l) < U32 && w.offset < l.pieceLength
            && l.files[i].offset + w.offset == w.start * l.pieceLength
            && w.offset + (w.end - w.start) * l.pieceLength <= l.files[i].length
            && l.files[i].length < (w.end - w.start) * l.pieceLength + 2 * l.pieceLength
  {
    hide Tiled, PiecesFit, PieceCount, DivCeil, WholePieces;
    WholeIs(l, i);
    var f, w := l.files[i], WholePieces(l, i);
    WholeEnds(f.offset, f.End(), w.start, w.end, l.pieceLength);
    CoverBounds(f.offset, f.End(), w.start, w.end, l.pieceLength);
  }

  lemma WholeEnds(o: nat, e: nat, start: nat, end: nat, p: nat)
    requires p > 0 && start == DivCeil(o, p) && end == e / p
    ensures o <= start * p < o + p && end * p <= e < end * p + p
  {
    CeilBounds(o, p);
    DivBounds(e, p);
  }

  lemma CoverBounds(o: nat, e: nat, start: nat, end: nat, p: nat)
    requires start < end && o <= start * p < o + p && end * p <= e < end * p + p
    ensures start * p + (end - start) * p <= e < o + (end - start) * p + 2 * p
  {
    Distribute(start, end - start, p);
  }

  lemma WholeCount(l: Layout, e: nat)
    requires PiecesFit(l) && l.pieceLength > 0 && e <= l.total
    ensures e / l.pieceLength <= PieceCount(l) == DivCeil(l.total, l.pieceLength) < U32
  {
    DivMono(e, l.total + l.pieceLength - 1, l.pieceLength);
  }

  /** Files of one length whose offsets agree modulo the piece length hold the
      same number of whole pieces, from the same place in the file. */
  lemma SameCover(left: Layout, i: nat, right: Layout, j: nat)
    requires Tiled(left) && PiecesFit(left) && i < |left.files|
    requires Tiled(right) && PiecesFit(right) && j < |right.files|
    requires left.pieceLength == right.pieceLength > 0 && left.files[i].length == right.files[j].length
    requires left.files[i].offset % left.pieceLength == right.files[j].offset % left.pieceLength
    ensures var a, b := WholePieces(left, i), WholePieces(right, j);
            && (a.Whole? <==> b.Whole?)
            && (a.Whole? ==> a.offset == b.offset && a.end - a.start == b.end - b.start)
  {
    hide Tiled, PiecesFit;
    var p := left.pieceLength;
    var a, b := left.files[i], right.files[j];
    WholeIs(left, i);
    WholeIs(right, j);
    Aligned(a.offset, a.length, p);
    Aligned(b.offset, b.length, p);
  }

  lemma CeilSmall(l: Layout, o: nat)
    requires PiecesFit(l) && l.pieceLength > 0 && o <= l.total
    ensures DivCeil(o, l.pieceLength) < U32
  {
    DivMono(o + l.pieceLength - 1, l.total + l.pieceLength - 1, l.pieceLength);
  }

  lemma DivShift(q: nat, x: nat, p: nat)
    requires p > 0
    ensures (q * p + x) / p == q + x / p
  {
    DivBounds(x, p);
    Distribute(q, x / p, p);
    DivIs(q * p + x, p, q + x / p);
  }

  lemma Distribute(a: nat, b: nat, p: nat)
    ensures (a + b) * p == a * p + b * p
  {
  }

  /** Where a file's whole pieces lie depends on its offset only through the
      remainder. */
  lemma Aligned(o: nat, len: nat, p: nat)
    requires p > 0
    ensures var q, r, carry := o / p, o % p, if o % p > 0 then 1 else 0;
            && DivCeil(o, p) == q + carry
            && (o + len) / p == q + (r + len) / p
            && DivCeil(o, p) * p - o == carry * p - r
  {
    var q, r := o / p, o % p;
    var carry := if r > 0 then 1 else 0;
    assert o == q * p + r;
    DivShift(q, r + len, p);
    DivShift(q, r + p - 1, p);
    DivIs(r + p - 1, p, carry);
    Distribute(q, carry, p);
  }

  // --- What a verdict proves -----------------------------------------------------------

  function PieceBytes(l: Layout, payload: seq<byte>, piece: nat): seq<byte>
    requires |payload| == l.total
  {
    var r := PieceRange(l, piece);
    if r.start <= r.end <= |payload| then payload[r.start..r.end] else []
  }

  /** Each hash listed is the hash of its piece. */
  ghost predicate Truthful(digest: seq<byte> -> Hash, l: Layout, payload: seq<byte>, hashes: seq<Hash>) {
    && |payload| == l.total
    && forall k | 0 <= k < |hashes| && k < PieceCount(l) :: hashes[k] == digest(PieceBytes(l, payload, k))
  }

  /** No piece of one payload collides with a different piece of the other. */
  ghost predicate NoCollision(digest: seq<byte> -> Hash, left: Layout, p: seq<byte>, right: Layout, q: seq<byte>) {
    && |p| == left.total && |q| == right.total
    && forall i, j :: digest(PieceBytes(left, p, i)) == digest(PieceBytes(right, q, j))
                      ==> PieceBytes(left, p, i) == PieceBytes(right, q, j)
  }

  function FileBytes(l: Layout, payload: seq<byte>, i: nat): seq<byte>
    requires Tiled(l) && |payload| == l.total && i < |l.files|
  {
    TiledTotal(l, i);
    payload[l.files[i].offset..l.files[i].End()]
  }

  /** The two files agree on a stretch. */
  predicate Agreed(x: seq<byte>, y: seq<byte>, from: int, to: int) {
    0 <= from <= to <= |x| && to <= |y| && x[from..to] == y[from..to]
  }

  /** A whole piece is a stretch of its file. */
  lemma PieceOfFile(l: Layout, payload: seq<byte>, i: nat, k: nat)
    requires Tiled(l) && PiecesFit(l) && l.pieceLength > 0 && i < |l.files| && |payload| == l.total
    requires InsideFile(l, i, k)
    ensures var at := k * l.pieceLength - l.files[i].offset;
            && 0 <= at <= at + l.pieceLength <= |FileBytes(l, payload, i)| && k < PieceCount(l)
            && PieceBytes(l, payload, k) == FileBytes(l, payload, i)[at..at + l.pieceLength]
  {
    hide Tiled, PiecesFit;
    var p, f := l.pieceLength, l.files[i];
    TiledTotal(l, i);
    DivIs(k * p, p, k);
    PieceExists(l, k * p);
    SliceSlice(payload, f.offset, f.End(), k * p - f.offset, k * p - f.offset + p);
  }

  predicate PieceAgreed(x: seq<byte>, y: seq<byte>, from: nat, p: nat, k: nat) {
    Agreed(x, y, from + k * p, from + k * p + p)
  }

  lemma {:induction false} AgreedPieces(x: seq<byte>, y: seq<byte>, from: nat, p: nat, count: nat)
    requires |x| == |y| && from + count * p <= |x|
    ensures Agreed(x, y, from, from + count * p) <==> forall k: nat | k < count :: PieceAgreed(x, y, from, p, k)
    decreases count
  {
    hide Agreed;
    if count == 0 {
      EmptyAgrees(x, y, from);
    } else {
      StretchInside(from, count - 1, count, p, |x|);
      Distribute(count - 1, 1, p);
      AgreedPieces(x, y, from, p, count - 1);
      AgreedSplit(x, y, from, from + (count - 1) * p, from + count * p);
      assert PieceAgreed(x, y, from, p, count - 1)
        <==> Agreed(x, y, from + (count - 1) * p, from + (count - 1) * p + p);
    }
  }

  lemma EmptyAgrees(x: seq<byte>, y: seq<byte>, from: nat)
    requires from <= |x| == |y|
    ensures Agreed(x, y, from, from)
  {
  }

  lemma AgreedSplit(x: seq<byte>, y: seq<byte>, from: int, mid: int, to: int)
    requires |x| == |y| && 0 <= from <= mid <= to <= |x|
    ensures Agreed(x, y, from, to) <==> Agreed(x, y, from, mid) && Agreed(x, y, mid, to)
  {
    SliceJoin(x, from, mid, to);
    SliceJoin(y, from, mid, to);
    if Agreed(x, y, from, to) {
      SliceSlice(x, from, to, 0, mid - from);
      SliceSlice(y, from, to, 0, mid - from);
      SliceSlice(x, from, to, mid - from, to - from);
      SliceSlice(y, from, to, mid - from, to - from);
    }
  }

  predicate SameHashAt(lh: seq<Hash>, a: nat, rh: seq<Hash>, b: nat, k: nat) {
    a + k < |lh| && b + k < |rh| && lh[a + k] == rh[b + k]
  }

  predicate OtherHashAt(lh: seq<Hash>, a: nat, rh: seq<Hash>, b: nat, k: nat) {
    a + k < |lh| && b + k < |rh| && lh[a + k] != rh[b + k]
  }

  lemma {:induction false} HashesIff(lh: seq<Hash>, a: nat, rh: seq<Hash>, b: nat, step: nat, count: nat)
    requires step <= count && a + count <= U32 && b + count <= U32
    ensures var v := CompareHashes(lh, a, rh, b, step, count);
            && (v.SameHashes? <==> forall k: nat | step <= k < count :: SameHashAt(lh, a, rh, b, k))
            && (v.OtherHashes? ==> exists k: nat | step <= k < count :: OtherHashAt(lh, a, rh, b, k))
            && (v.HashMissing? ==> |lh| < a + count || |rh| < b + count)
    decreases count - step
  {
    if step < count {
      HashesIff(lh, a, rh, b, step + 1, count);
      assert SameHashAt(lh, a, rh, b, step) <==> a + step < |lh| && b + step < |rh| && lh[a + step] == rh[b + step];
      assert OtherHashAt(lh, a, rh, b, step) <==> a + step < |lh| && b + step < |rh| && lh[a + step] != rh[b + step];
    }
  }

  /** The two files of a comparison that reaches their hashes. */
  predicate Comparable(left: Layout, i: nat, right: Layout, j: nat) {
    && i < |left.files| && j < |right.files| && left.files[i].length == right.files[j].length
    && left.pieceLength == right.pieceLength > 0
    && left.files[i].offset % left.pieceLength == right.files[j].offset % left.pieceLength
    && WholePieces(left, i).Whole?
  }

  predicate Shaped(left: Layout, right: Layout) {
    Tiled(left) && PiecesFit(left) && Tiled(right) && PiecesFit(right)
  }

  /** The shape of every verdict: both counts of whole pieces are equal, so
      taking the smaller one decides nothing. */
  lemma ComparedIs(left: Layout, lh: seq<Hash>, i: nat, right: Layout, rh: seq<Hash>, j: nat)
    requires Shaped(left, right) && Comparable(left, i, right, j)
    ensures var a, b, v := WholePieces(left, i), WholePieces(right, j), Compared(left, lh, i, right, rh, j);
            && b.Whole? && a.start < a.end <= U32 && b.end <= U32 && a.end - a.start == b.end - b.start
            && var hashes := CompareHashes(lh, a.start, rh, b.start, 0, a.end - a.start);
               v == match hashes
                    case OtherHashes => Different
                    case HashMissing => Matched(Candidate(left, i, j))
                    case SameHashes =>
                      Matched(Proof(left, i, j, a.end - a.start))
  {
    hide CompareHashes, WholePieces, Tiled, PiecesFit, PieceCount, Minus32;
    SameCover(left, i, right, j);
    WholePiecesCover(left, i);
    WholePiecesCover(right, j);
    var a, b := WholePieces(left, i), WholePieces(right, j);
    MinusIs(a.end, a.start);
    MinusIs(b.end, b.start);
  }

  lemma StretchInside(from: nat, k: nat, count: nat, p: nat, to: nat)
    requires k < count && from + count * p <= to
    ensures 0 <= from + k * p && from + k * p + p <= to
  {
    MulStep(k, count, p);
  }

  lemma MinusIs(a: nat, b: nat)
    requires b <= a < U32
    ensures Minus32(a, b) == a - b
  {
  }

  predicate Proved(v: Verdict) {
    v.Matched? && v.found.evidence.PieceHashes?
  }

  lemma ProvedComparable(left: Layout, lh: seq<Hash>, i: nat, right: Layout, rh: seq<Hash>, j: nat)
    ensures Proved(Compared(left, lh, i, right, rh, j)) ==> Comparable(left, i, right, j)
    ensures i < |left.files| && j < |right.files| && Compared(left, lh, i, right, rh, j).Different?
            ==> left.files[i].length != right.files[j].length || Comparable(left, i, right, j)
  {
    hide WholePieces, CompareHashes, Minus32;
  }

  /** One compared pair of pieces: equal bytes have equal hashes. */
  lemma PairAgrees(digest: seq<byte> -> Hash, left: Layout, p: seq<byte>, lh: seq<Hash>, i: nat,
                   right: Layout, q: seq<byte>, rh: seq<Hash>, j: nat, k: nat)
    requires Shaped(left, right) && Comparable(left, i, right, j)
    requires Truthful(digest, left, p, lh) && Truthful(digest, right, q, rh)
    requires var a := WholePieces(left, i); k < a.end - a.start
    ensures var a, b := WholePieces(left, i), WholePieces(right, j);
            var x, y := FileBytes(left, p, i), FileBytes(right, q, j);
            var at := a.offset + k * left.pieceLength;
            && b.Whole?
            && (OtherHashAt(lh, a.start, rh, b.start, k) ==> !Agreed(x, y, at, at + left.pieceLength))
            && (SameHashAt(lh, a.start, rh, b.start, k) && NoCollision(digest, left, p, right, q)
                ==> Agreed(x, y, at, at + left.pieceLength))
            && (Agreed(x, y, at, at + left.pieceLength) && a.start + k < |lh| && b.start + k < |rh|
                ==> SameHashAt(lh, a.start, rh, b.start, k))
  {
    hide WholePieces, Tiled, PiecesFit, PieceBytes, FileBytes, PieceCount;
    SameCover(left, i, right, j);
    var a, b := WholePieces(left, i), WholePieces(right, j);
    WholePiecesCover(left, i);
    WholePiecesCover(right, j);
    WholePiecesIff(left, i, a.start + k);
    WholePiecesIff(right, j, b.start + k);
    PieceOfFile(left, p, i, a.start + k);
    PieceOfFile(right, q, j, b.start + k);
    Distribute(a.start, k, left.pieceLength);
    Distribute(b.start, k, left.pieceLength);
  }

  /** A proof by piece hashes proves: from the same place in both files, every
      byte the whole pieces cover is the same, and less than two pieces of the
      file are left uncovered. */
  lemma ProofIsSound(digest: seq<byte> -> Hash, left: Layout, p: seq<byte>, lh: seq<Hash>, i: nat,
                     right: Layout, q: seq<byte>, rh: seq<Hash>, j: nat)
    requires Shaped(left, right)
    requires Truthful(digest, left, p, lh) && Truthful(digest, right, q, rh) && NoCollision(digest, left, p, right, q)
    requires Proved(Compared(left, lh, i, right, rh, j))
    ensures Comparable(left, i, right, j)
    ensures var a, m := WholePieces(left, i), Compared(left, lh, i, right, rh, j).found;
            && m.piecesCompared > 0 && m.bytesProven <= m.length < m.bytesProven + 2 * left.pieceLength
            && a.offset + m.bytesProven <= m.length
            && Agreed(FileBytes(left, p, i), FileBytes(right, q, j), a.offset, a.offset + m.bytesProven)
  {
    hide WholePieces, Tiled, PiecesFit, FileBytes, CompareHashes, NoCollision, Agreed;
    hide Compared, SameHashAt, OtherHashAt;
    ProvedComparable(left, lh, i, right, rh, j);
    var a, b := WholePieces(left, i), WholePieces(right, j);
    var x, y := FileBytes(left, p, i), FileBytes(right, q, j);
    ComparedIs(left, lh, i, right, rh, j);
    var count := a.end - a.start;
    HashesIff(lh, a.start, rh, b.start, 0, count);
    WholePiecesCover(left, i);
    FileSized(left, p, i);
    FileSized(right, q, j);
    forall k: nat | k < count ensures PieceAgreed(x, y, a.offset, left.pieceLength, k) {
      PairAgrees(digest, left, p, lh, i, right, q, rh, j, k);
      assert SameHashAt(lh, a.start, rh, b.start, k);
    }
    AgreedPieces(x, y, a.offset, left.pieceLength, count);
  }

  lemma FileSized(l: Layout, payload: seq<byte>, i: nat)
    requires Tiled(l) && |payload| == l.total && i < |l.files|
    ensures |FileBytes(l, payload, i)| == l.files[i].length
  {
    TiledTotal(l, i);
  }

  /** Two existing files of one length are ruled out only when their bytes
      differ, collisions or not. */
  lemma RuledOutDiffers(digest: seq<byte> -> Hash, left: Layout, p: seq<byte>, lh: seq<Hash>, i: nat,
                        right: Layout, q: seq<byte>, rh: seq<Hash>, j: nat)
    requires Shaped(left, right)
    requires Truthful(digest, left, p, lh) && Truthful(digest, right, q, rh)
    requires i < |left.files| && j < |right.files| && Compared(left, lh, i, right, rh, j).Different?
    ensures FileBytes(left, p, i) != FileBytes(right, q, j)
  {
    hide WholePieces, PieceCount, Tiled, PiecesFit, FileBytes, CompareHashes, Agreed, Compared, SameHashAt, OtherHashAt;
    ProvedComparable(left, lh, i, right, rh, j);
    FileSized(left, p, i);
    FileSized(right, q, j);
    if left.files[i].length == right.files[j].length {
      var a, b := WholePieces(left, i), WholePieces(right, j);
      ComparedIs(left, lh, i, right, rh, j);
      HashesIff(lh, a.start, rh, b.start, 0, a.end - a.start);
      var k: nat :| k < a.end - a.start && OtherHashAt(lh, a.start, rh, b.start, k);
      PairAgrees(digest, left, p, lh, i, right, q, rh, j, k);
      WholePiecesCover(left, i);
      StretchInside(a.offset, k, a.end - a.start, left.pieceLength, left.files[i].length);
      var at := a.offset + k * left.pieceLength;
      SameAgrees(FileBytes(left, p, i), FileBytes(right, q, j), at, at + left.pieceLength);
    }
  }

  lemma SameAgrees(x: seq<byte>, y: seq<byte>, from: int, to: int)
    requires 0 <= from <= to <= |x|
    ensures x == y ==> Agreed(x, y, from, to)
  {
  }

  /** With complete hash lists and no collision, a proof is given exactly when
      there is one to give: the pieces line up and the bytes they cover agree. */
  lemma ProofIff(digest: seq<byte> -> Hash, left: Layout, p: seq<byte>, lh: seq<Hash>, i: nat,
                 right: Layout, q: seq<byte>, rh: seq<Hash>, j: nat)
    requires Shaped(left, right)
    requires Truthful(digest, left, p, lh) && Truthful(digest, right, q, rh) && NoCollision(digest, left, p, right, q)
    requires |lh| == PieceCount(left) && |rh| == PieceCount(right)
    ensures var a, v := WholePieces(left, i), Compared(left, lh, i, right, rh, j);
            Proved(v) <==>
              (Comparable(left, i, right, j)
               && Agreed(FileBytes(left, p, i), FileBytes(right, q, j), a.offset,
                         a.offset + (a.end - a.start) * left.pieceLength))
  {
    hide WholePieces, Tiled, PiecesFit, FileBytes, CompareHashes, NoCollision, Agreed;
    hide PieceCount, Compared, SameHashAt, OtherHashAt;
    var a, b, v := WholePieces(left, i), WholePieces(right, j), Compared(left, lh, i, right, rh, j);
    ProvedComparable(left, lh, i, right, rh, j);
    if Proved(v) {
      ProofIsSound(digest, left, p, lh, i, right, q, rh, j);
      ComparedIs(left, lh, i, right, rh, j);
    }
    if Comparable(left, i, right, j) {
      var x, y, count := FileBytes(left, p, i), FileBytes(right, q, j), a.end - a.start;
      ComparedIs(left, lh, i, right, rh, j);
      HashesIff(lh, a.start, rh, b.start, 0, count);
      WholePiecesCover(left, i);
      WholePiecesCover(right, j);
      FileSized(left, p, i);
      FileSized(right, q, j);
      AgreedPieces(x, y, a.offset, left.pieceLength, count);
      if Agreed(x, y, a.offset, a.offset + count * left.pieceLength) {
        forall k: nat | k < count ensures SameHashAt(lh, a.start, rh, b.start, k) {
          assert PieceAgreed(x, y, a.offset, left.pieceLength, k);
          PairAgrees(digest, left, p, lh, i, right, q, rh, j, k);
        }
      }
    }
  }

  /** The comparison panics on two files of one length in two torrents of
      piece length zero, and nowhere else. */
  lemma PanicsIff(left: Layout, lh: seq<Hash>, i: nat, right: Layout, rh: seq<Hash>, j: nat)
    ensures Compared(left, lh, i, right, rh, j).Panics? <==>
            && i < |left.files| && j < |right.files| && left.files[i].length == right.files[j].length
            && left.pieceLength == 0 && right.pieceLength == 0
  {
  }

  // --- Every verdict from the metadata ---------------------------------------------------

  /** A piece inside each of two files, at the same place of both. */
  predicate Lined(left: Layout, i: nat, right: Layout, j: nat, x: nat, y: nat) {
    && i < |left.files| && j < |right.files| && left.pieceLength == right.pieceLength > 0
    && InsideFile(left, i, x) && InsideFile(right, j, y)
    && x * left.pieceLength - left.files[i].offset == y * right.pieceLength - right.files[j].offset
  }

  predicate SameHash(lh: seq<Hash>, rh: seq<Hash>, x: nat, y: nat) {
    x < |lh| && y < |rh| && lh[x] == rh[y]
  }

  predicate OtherHash(lh: seq<Hash>, rh: seq<Hash>, x: nat, y: nat) {
    x < |lh| && y < |rh| && lh[x] != rh[y]
  }

  /** Every pair of pieces that line up has one hash, and there is a pair. */
  ghost predicate HashesAgree(left: Layout, lh: seq<Hash>, i: nat, right: Layout, rh: seq<Hash>, j: nat) {
    && (exists x: nat, y: nat :: Lined(left, i, right, j, x, y))
    && forall x: nat, y: nat | Lined(left, i, right, j, x, y) :: SameHash(lh, rh, x, y)
  }

  /** Some pair differs, and every pair before it is there and the same. */
  ghost predicate HashesDiffer(left: Layout, lh: seq<Hash>, i: nat, right: Layout, rh: seq<Hash>, j: nat) {
    exists x: nat, y: nat :: DifferAt(left, lh, i, right, rh, j, x, y)
  }

  ghost predicate DifferAt(
      left: Layout, lh: seq<Hash>, i: nat, right: Layout, rh: seq<Hash>, j: nat, x: nat, y: nat)
  {
    && Lined(left, i, right, j, x, y) && OtherHash(lh, rh, x, y)
    && forall u: nat, v: nat | Lined(left, i, right, j, u, v) && u < x :: SameHash(lh, rh, u, v)
  }

  /** Files with a pair of pieces that line up are files the comparison takes
      to their hashes, when they are of one length. */
  lemma LinedComparable(left: Layout, i: nat, right: Layout, j: nat, x: nat, y: nat)
    requires Shaped(left, right) && Lined(left, i, right, j, x, y)
    requires left.files[i].length == right.files[j].length
    ensures Comparable(left, i, right, j)
  {
    hide Tiled, PiecesFit, WholePieces;
    WholePiecesIff(left, i, x);
    var p := left.pieceLength;
    SameRemainder(left.files[i].offset, right.files[j].offset, p, x, y);
  }

  lemma SameRemainder(a: nat, b: nat, p: nat, x: nat, y: nat)
    requires p > 0 && x * p - a == y * p - b
    ensures a % p == b % p
  {
    if x >= y {
      Distribute(x - y, y, p);
      Shifted(a, b, p, x - y);
    } else {
      Distribute(y - x, x, p);
      Shifted(b, a, p, y - x);
    }
  }

  lemma Shifted(a: nat, b: nat, p: nat, d: nat)
    requires p > 0 && a == d * p + b
    ensures a % p == b % p
  {
    DivShift(d, b, p);
    Distribute(d, b / p, p);
    Remainder(a, p);
    Remainder(b, p);
  }

  lemma Remainder(a: nat, p: nat)
    requires p > 0
    ensures a % p == a - (a / p) * p
  {
    assert a == p * (a / p) + a % p;
  }

  /** In files that are compared, the pairs are the k-th whole piece of each. */
  lemma LinedIff(left: Layout, i: nat, right: Layout, j: nat, x: nat, y: nat)
    requires Shaped(left, right) && Comparable(left, i, right, j)
    ensures var a, b := WholePieces(left, i), WholePieces(right, j);
            && b.Whole? && a.start < a.end
            && (Lined(left, i, right, j, x, y) <==> a.start <= x < a.end && x - a.start == y - b.start)
  {
    hide Tiled, PiecesFit, WholePieces, PieceCount;
    SameCover(left, i, right, j);
    WholePiecesCover(left, i);
    WholePiecesCover(right, j);
    WholePiecesIff(left, i, x);
    WholePiecesIff(right, j, y);
    var a, b := WholePieces(left, i), WholePieces(right, j);
    SamePlace(left.files[i].offset, right.files[j].offset, left.pieceLength, x, y, a.start, b.start);
  }

  lemma SamePlace(o: nat, q: nat, p: nat, x: nat, y: nat, a: nat, b: nat)
    requires p > 0 && a * p - o == b * p - q
    ensures x * p - o == y * p - q <==> x - a == y - b
  {
    assert (x - a) * p == x * p - a * p && (y - b) * p == y * p - b * p;
    if (x - a) * p == (y - b) * p {
      assert ((x - a) - (y - b)) * p == 0;
    }
  }

  lemma {:induction false} FirstOther(lh: seq<Hash>, a: nat, rh: seq<Hash>, b: nat, step: nat, count: nat)
    requires step <= count && a + count <= U32 && b + count <= U32
    ensures CompareHashes(lh, a, rh, b, step, count).OtherHashes? <==>
            exists k: nat | step <= k < count :: OtherHashAt(lh, a, rh, b, k) && AllSame(lh, a, rh, b, step, k)
    decreases count - step
  {
    if step < count {
      FirstOther(lh, a, rh, b, step + 1, count);
      hide OtherHashAt, SameHashAt;
      OneHash(lh, a, rh, b, step, count);
      if k: nat :| step + 1 <= k < count && OtherHashAt(lh, a, rh, b, k) && AllSame(lh, a, rh, b, step + 1, k) {
        assert SameHashAt(lh, a, rh, b, step) ==> AllSame(lh, a, rh, b, step, k);
      }
      if k: nat :| step < k < count && OtherHashAt(lh, a, rh, b, k) && AllSame(lh, a, rh, b, step, k) {
        assert SameHashAt(lh, a, rh, b, step) && AllSame(lh, a, rh, b, step + 1, k);
      }
      assert AllSame(lh, a, rh, b, step, step);
    }
  }

  ghost predicate AllSame(lh: seq<Hash>, a: nat, rh: seq<Hash>, b: nat, from: nat, to: nat) {
    forall k: nat | from <= k < to :: SameHashAt(lh, a, rh, b, k)
  }

  lemma OneHash(lh: seq<Hash>, a: nat, rh: seq<Hash>, b: nat, step: nat, count: nat)
    requires step < count && a + count <= U32 && b + count <= U32
    ensures !(SameHashAt(lh, a, rh, b, step) && OtherHashAt(lh, a, rh, b, step))
    ensures CompareHashes(lh, a, rh, b, step, count) ==
            if OtherHashAt(lh, a, rh, b, step) then OtherHashes
            else if SameHashAt(lh, a, rh, b, step) then CompareHashes(lh, a, rh, b, step + 1, count)
            else HashMissing
  {
  }

  /** The first pieces of the pairs are a stretch of that many. */
  ghost predicate Stretch(left: Layout, i: nat, right: Layout, j: nat, n: nat) {
    exists first: nat :: StretchFrom(left, i, right, j, first, n)
  }

  ghost predicate StretchFrom(left: Layout, i: nat, right: Layout, j: nat, first: nat, n: nat) {
    forall x: nat :: Paired(left, i, right, j, x) <==> first <= x < first + n
  }

  ghost predicate Paired(left: Layout, i: nat, right: Layout, j: nat, x: nat) {
    exists y: nat :: Lined(left, i, right, j, x, y)
  }

  /** The hashes of the k-th pairs are the hashes of the pairs. */
  lemma PairHashes(left: Layout, lh: seq<Hash>, i: nat, right: Layout, rh: seq<Hash>, j: nat)
    requires Shaped(left, right) && Comparable(left, i, right, j)
    ensures var a, b := WholePieces(left, i), WholePieces(right, j);
            && b.Whole? && a.start < a.end <= U32 && b.end <= U32 && b.end - b.start == a.end - a.start
            && (HashesAgree(left, lh, i, right, rh, j) <==> AllSame(lh, a.start, rh, b.start, 0, a.end - a.start))
            && (HashesDiffer(left, lh, i, right, rh, j) <==>
                exists k: nat | 0 <= k < a.end - a.start ::
                  OtherHashAt(lh, a.start, rh, b.start, k) && AllSame(lh, a.start, rh, b.start, 0, k))
            && Stretch(left, i, right, j, a.end - a.start)
  {
    hide Tiled, PiecesFit, WholePieces, PieceCount, Lined, Comparable, HashesAgree, HashesDiffer, Stretch;
    var a, b := PairSteps(left, i, right, j);
    PairsAgree(left, lh, i, right, rh, j, a.start, b.start, a.end - a.start);
    PairsDiffer(left, lh, i, right, rh, j, a.start, b.start, a.end - a.start);
    PairStretch(left, i, right, j, a.start, b.start, a.end - a.start);
  }

  lemma PairSteps(left: Layout, i: nat, right: Layout, j: nat) returns (a: Whole, b: Whole)
    requires Shaped(left, right) && Comparable(left, i, right, j)
    ensures a == WholePieces(left, i) && b == WholePieces(right, j) && a.Whole? && b.Whole?
    ensures a.start < a.end <= U32 && b.end <= U32 && b.end >= b.start && b.end - b.start == a.end - a.start
    ensures InSteps(left, i, right, j, a.start, b.start, a.end - a.start)
  {
    hide Tiled, PiecesFit, WholePieces, PieceCount, Lined;
    SameCover(left, i, right, j);
    WholePiecesCover(left, i);
    WholePiecesCover(right, j);
    a, b := WholePieces(left, i), WholePieces(right, j);
    forall x: nat, y: nat
      ensures Lined(left, i, right, j, x, y)
              <==> a.start <= x < a.start + (a.end - a.start) && x - a.start == y - b.start
    {
      LinedIff(left, i, right, j, x, y);
    }
  }

  lemma PairStretch(left: Layout, i: nat, right: Layout, j: nat, a: nat, b: nat, n: nat)
    requires InSteps(left, i, right, j, a, b, n)
    ensures Stretch(left, i, right, j, n)
  {
    hide Lined;
    forall x: nat
      ensures Paired(left, i, right, j, x) <==> a <= x < a + n
    {
      if a <= x < a + n {
        assert Lined(left, i, right, j, x, b + (x - a));
      }
    }
    assert StretchFrom(left, i, right, j, a, n);
  }

  /** The pairs are those of two starts, a number of steps on. */
  ghost predicate InSteps(left: Layout, i: nat, right: Layout, j: nat, a: nat, b: nat, n: nat) {
    forall x: nat, y: nat :: Lined(left, i, right, j, x, y) <==> a <= x < a + n && x - a == y - b
  }

  lemma PairsAgree(left: Layout, lh: seq<Hash>, i: nat, right: Layout, rh: seq<Hash>, j: nat, a: nat, b: nat, n: nat)
    requires InSteps(left, i, right, j, a, b, n) && n > 0
    ensures HashesAgree(left, lh, i, right, rh, j) <==> AllSame(lh, a, rh, b, 0, n)
  {
    hide Lined;
    assert Lined(left, i, right, j, a, b);
    if HashesAgree(left, lh, i, right, rh, j) {
      forall k: nat | 0 <= k < n
        ensures SameHashAt(lh, a, rh, b, k)
      {
        assert Lined(left, i, right, j, a + k, b + k);
        assert SameHash(lh, rh, a + k, b + k);
      }
    }
    if AllSame(lh, a, rh, b, 0, n) {
      forall x: nat, y: nat | Lined(left, i, right, j, x, y)
        ensures SameHash(lh, rh, x, y)
      {
        assert SameHashAt(lh, a, rh, b, x - a);
      }
    }
  }

  lemma PairsDiffer(left: Layout, lh: seq<Hash>, i: nat, right: Layout, rh: seq<Hash>, j: nat, a: nat, b: nat, n: nat)
    requires InSteps(left, i, right, j, a, b, n)
    ensures HashesDiffer(left, lh, i, right, rh, j) <==>
            exists k: nat | 0 <= k < n :: OtherHashAt(lh, a, rh, b, k) && AllSame(lh, a, rh, b, 0, k)
  {
    hide Lined;
    if x: nat, y: nat :| DifferAt(left, lh, i, right, rh, j, x, y) {
      var k := x - a;
      assert OtherHashAt(lh, a, rh, b, k);
      forall m: nat | 0 <= m < k
        ensures SameHashAt(lh, a, rh, b, m)
      {
        assert Lined(left, i, right, j, a + m, b + m);
        assert SameHash(lh, rh, a + m, b + m);
      }
      assert AllSame(lh, a, rh, b, 0, k);
    }
    if k: nat :| 0 <= k < n && OtherHashAt(lh, a, rh, b, k) && AllSame(lh, a, rh, b, 0, k) {
      assert Lined(left, i, right, j, a + k, b + k) && OtherHash(lh, rh, a + k, b + k);
      forall u: nat, v: nat | Lined(left, i, right, j, u, v) && u < a + k
        ensures SameHash(lh, rh, u, v)
      {
        assert SameHashAt(lh, a, rh, b, u - a);
      }
      assert DifferAt(left, lh, i, right, rh, j, a + k, b + k);
    }
  }

  /** What a match says: which files, their length, and how it is known. */
  ghost predicate Says(left: Layout, lh: seq<Hash>, right: Layout, rh: seq<Hash>, m: Match) {
    && m.index < |left.files| && m.otherIndex < |right.files|
    && m.length == left.files[m.index].length == right.files[m.otherIndex].length
    && !HashesDiffer(left, lh, m.index, right, rh, m.otherIndex)
    && if HashesAgree(left, lh, m.index, right, rh, m.otherIndex)
       then m.evidence.PieceHashes? && Stretch(left, m.index, right, m.otherIndex, m.piecesCompared)
            && m.bytesProven == m.piecesCompared * left.pieceLength
       else m.evidence.LengthOnly? && m.piecesCompared == 0 && m.bytesProven == 0
  }

  /** What is reported of every match: it says what is so, of a file that
      holds data. */
  ghost predicate Reported(left: Layout, lh: seq<Hash>, right: Layout, rh: seq<Hash>, m: Match) {
    Says(left, lh, right, rh, m) && left.files[m.index].length > 0
  }

  /** Every verdict on two files, from the metadata alone. */
  lemma VerdictIs(left: Layout, lh: seq<Hash>, i: nat, right: Layout, rh: seq<Hash>, j: nat)
    requires Shaped(left, right)
    ensures var v := Compared(left, lh, i, right, rh, j);
            && (v.Different? <==> i >= |left.files| || j >= |right.files|
                                  || left.files[i].length != right.files[j].length
                                  || HashesDiffer(left, lh, i, right, rh, j))
            && (v.Matched? ==> v.found.index == i && v.found.otherIndex == j && Says(left, lh, right, rh, v.found))
  {
    hide Tiled, PiecesFit, WholePieces, PieceCount, CompareHashes, Compared, HashesAgree, HashesDiffer, Stretch;
    if i < |left.files| && j < |right.files| && left.files[i].length == right.files[j].length {
      if Comparable(left, i, right, j) {
        ComparedIs(left, lh, i, right, rh, j);
        PairHashes(left, lh, i, right, rh, j);
        var a, b := WholePieces(left, i), WholePieces(right, j);
        FirstOther(lh, a.start, rh, b.start, 0, a.end - a.start);
        HashesIff(lh, a.start, rh, b.start, 0, a.end - a.start);
      } else {
        NoneLined(left, lh, i, right, rh, j);
        NotCompared(left, lh, i, right, rh, j);
      }
    } else {
      NotCompared(left, lh, i, right, rh, j);
    }
  }

  lemma NoneLined(left: Layout, lh: seq<Hash>, i: nat, right: Layout, rh: seq<Hash>, j: nat)
    requires Shaped(left, right) && i < |left.files| && j < |right.files|
    requires left.files[i].length == right.files[j].length && !Comparable(left, i, right, j)
    ensures !HashesAgree(left, lh, i, right, rh, j) && !HashesDiffer(left, lh, i, right, rh, j)
  {
    hide Tiled, PiecesFit, WholePieces;
    forall x: nat, y: nat
      ensures !Lined(left, i, right, j, x, y)
    {
      NotLined(left, i, right, j, x, y);
    }
  }

  lemma NotLined(left: Layout, i: nat, right: Layout, j: nat, x: nat, y: nat)
    requires Shaped(left, right) && i < |left.files| && j < |right.files|
    requires left.files[i].length == right.files[j].length
    ensures Lined(left, i, right, j, x, y) ==> Comparable(left, i, right, j)
  {
    if Lined(left, i, right, j, x, y) {
      LinedComparable(left, i, right, j, x, y);
    }
  }

  lemma NotCompared(left: Layout, lh: seq<Hash>, i: nat, right: Layout, rh: seq<Hash>, j: nat)
    ensures var v := Compared(left, lh, i, right, rh, j);
            if i >= |left.files| || j >= |right.files| || left.files[i].length != right.files[j].length
            then v == Different
            else if !Comparable(left, i, right, j) then v.Panics? || v == Matched(Candidate(left, i, j))
            else true
  {
    hide WholePieces, CompareHashes, Minus32;
  }

  // --- Every match between two torrents ---------------------------------------------------

  /** A file that holds data, matched. */
  predicate Listed(left: Layout, lh: seq<Hash>, right: Layout, rh: seq<Hash>, m: Match) {
    && m.index < |left.files| && left.files[m.index].length > 0
    && Compared(left, lh, m.index, right, rh, m.otherIndex) == Matched(m)
  }

  lemma StretchOnce(left: Layout, i: nat, right: Layout, j: nat, m: nat, n: nat)
    requires Stretch(left, i, right, j, m) && Stretch(left, i, right, j, n)
    requires exists x: nat, y: nat :: Lined(left, i, right, j, x, y)
    ensures m == n
  {
    hide Lined;
    var x: nat, y: nat :| Lined(left, i, right, j, x, y);
    var a: nat :| StretchFrom(left, i, right, j, a, m);
    var b: nat :| StretchFrom(left, i, right, j, b, n);
    assert Paired(left, i, right, j, x);
    assert Paired(left, i, right, j, a) && Paired(left, i, right, j, b);
    assert Paired(left, i, right, j, a + m - 1) && Paired(left, i, right, j, b + n - 1);
    assert !Paired(left, i, right, j, a + m) && !Paired(left, i, right, j, b + n);
  }

  /** A match is listed exactly when what it says is so. */
  lemma ListedIff(left: Layout, lh: seq<Hash>, right: Layout, rh: seq<Hash>, m: Match)
    requires Shaped(left, right) && !Compared(left, lh, m.index, right, rh, m.otherIndex).Panics?
    ensures Listed(left, lh, right, rh, m) <==>
            Reported(left, lh, right, rh, m)
  {
    hide Compared, HashesAgree, HashesDiffer, Stretch, Tiled, PiecesFit;
    VerdictIs(left, lh, m.index, right, rh, m.otherIndex);
    if Says(left, lh, right, rh, m) {
      var found := Compared(left, lh, m.index, right, rh, m.otherIndex).found;
      if HashesAgree(left, lh, m.index, right, rh, m.otherIndex) {
        AgreeingPair(left, lh, m.index, right, rh, m.otherIndex);
        StretchOnce(left, m.index, right, m.otherIndex, m.piecesCompared, found.piecesCompared);
      }
    }
  }

  lemma AgreeingPair(left: Layout, lh: seq<Hash>, i: nat, right: Layout, rh: seq<Hash>, j: nat)
    requires HashesAgree(left, lh, i, right, rh, j)
    ensures exists x: nat, y: nat :: Lined(left, i, right, j, x, y)
  {
  }

  /** Without a panic the list is told by what its matches say. */
  lemma ListIs(left: Layout, lh: seq<Hash>, right: Layout, rh: seq<Hash>, out: seq<Match>)
    requires forall m :: m in out <==> Listed(left, lh, right, rh, m)
    requires !exists i: nat, j: nat | i < |left.files| && j < |right.files| ::
               left.files[i].length > 0 && Compared(left, lh, i, right, rh, j).Panics?
    ensures Shaped(left, right) ==> forall m :: m in out <==> Reported(left, lh, right, rh, m)
  {
    hide Compared, Reported, Tiled, PiecesFit;
    forall m | Shaped(left, right)
      ensures m in out <==> Reported(left, lh, right, rh, m)
    {
      ReportedWhere(left, lh, right, rh, m);
      if Reported(left, lh, right, rh, m) || Listed(left, lh, right, rh, m) {
        MatchedWhere(left, lh, m.index, right, rh, m.otherIndex);
        ListedIff(left, lh, right, rh, m);
      }
    }
  }

  lemma ReportedWhere(left: Layout, lh: seq<Hash>, right: Layout, rh: seq<Hash>, m: Match)
    ensures Reported(left, lh, right, rh, m) ==>
              m.index < |left.files| && m.otherIndex < |right.files| && left.files[m.index].length > 0
  {
  }

  predicate Before(m: Match, i: nat, j: nat) {
    m.index < i || (m.index == i && m.otherIndex < j)
  }

  lemma MatchedWhere(left: Layout, lh: seq<Hash>, i: nat, right: Layout, rh: seq<Hash>, j: nat)
    ensures var v := Compared(left, lh, i, right, rh, j);
            v.Matched? ==> v.found.index == i < |left.files| && v.found.otherIndex == j < |right.files|
  {
    hide WholePieces, CompareHashes, Minus32;
  }

  /** Every match, one entry a pair, left file first; empty files are left out.
      Stopped by the first comparison that panics. */
  method Matches(left: Layout, lh: seq<Hash>, right: Layout, rh: seq<Hash>) returns (out: seq<Match>, panicked: bool)
    ensures panicked <==> exists i: nat, j: nat | i < |left.files| && j < |right.files| ::
              left.files[i].length > 0 && Compared(left, lh, i, right, rh, j).Panics?
    ensures !panicked ==> forall m :: m in out <==> Listed(left, lh, right, rh, m)
    ensures !panicked && Shaped(left, right) ==>
              forall m :: m in out <==> Reported(left, lh, right, rh, m)
    ensures forall k, n | 0 <= k < n < |out| :: Before(out[k], out[n].index, out[n].otherIndex)
  {
    hide Compared, Reported, Shaped;
    out := [];
    for i := 0 to |left.files|
      invariant forall m :: m in out <==> Listed(left, lh, right, rh, m) && Before(m, i, 0)
      invariant forall k, n | 0 <= k < n < |out| :: Before(out[k], out[n].index, out[n].otherIndex)
      invariant forall a: nat, b: nat | a < i && b < |right.files| ::
                  !(left.files[a].length > 0 && Compared(left, lh, a, right, rh, b).Panics?)
    {
      for j := 0 to |right.files|
        invariant forall m :: m in out <==> Listed(left, lh, right, rh, m) && Before(m, i, j)
        invariant forall k, n | 0 <= k < n < |out| :: Before(out[k], out[n].index, out[n].otherIndex)
        invariant forall a: nat, b: nat | (a < i && b < |right.files|) || (a == i && b < j) ::
                    !(left.files[a].length > 0 && Compared(left, lh, a, right, rh, b).Panics?)
      {
        ghost var before := out;
        forall m | Listed(left, lh, right, rh, m) && m.index == i && m.otherIndex == j
          ensures Compared(left, lh, i, right, rh, j) == Matched(m) {
        }
        MatchedWhere(left, lh, i, right, rh, j);
        if left.files[i].length == 0 {
          continue;
        }
        var v := Compare(left, lh, i, right, rh, j);
        if v.Panics? {
          return out, true;
        }
        if v.Matched? {
          assert Listed(left, lh, right, rh, v.found);
          out := out + [v.found];
        }
        forall m ensures m in out <==> Listed(left, lh, right, rh, m) && Before(m, i, j + 1) {
          MatchedWhere(left, lh, m.index, right, rh, m.otherIndex);
        }
      }
      forall m ensures Listed(left, lh, right, rh, m) && Before(m, i + 1, 0)
                       <==> Listed(left, lh, right, rh, m) && Before(m, i, |right.files|) {
        MatchedWhere(left, lh, m.index, right, rh, m.otherIndex);
      }
    }
    forall m ensures Listed(left, lh, right, rh, m) ==> Before(m, |left.files|, 0) {
    }
    panicked := false;
    ListIs(left, lh, right, rh, out);
  }
}
