/** The shape of a torrent: files laid end to end over one linear payload, cut
    into pieces of one length. */
module Layouts {
  import opened Device
  import opened Spans

  datatype LayoutFile = LayoutFile(offset: nat, length: nat) {
    function End(): nat {
      offset + length
    }
  }

  datatype Layout = Layout(files: seq<LayoutFile>, pieceLength: nat, total: nat)

  /** Where the first `n` files end. */
  function EndOf(files: seq<LayoutFile>, n: nat): nat
    requires n <= |files|
  {
    if n == 0 then 0 else files[n - 1].End()
  }

  /** Each file starts where the one before it ends. */
  predicate Tiled(l: Layout) {
    && (forall i {:trigger EndOf(l.files, i)} | 0 <= i < |l.files| :: l.files[i].offset == EndOf(l.files, i))
    && l.total == EndOf(l.files, |l.files|)
  }

  method FromLengths(pieceLength: nat, lengths: seq<nat>) returns (l: Layout)
    ensures Tiled(l) && l.pieceLength == pieceLength
    ensures |l.files| == |lengths| && forall i | 0 <= i < |lengths| :: l.files[i].length == lengths[i]
  {
    var offset, files := 0, [];
    for i := 0 to |lengths|
      invariant |files| == i && offset == EndOf(files, i)
      invariant forall k | 0 <= k < i :: files[k].length == lengths[k] && files[k].offset == EndOf(files, k)
    {
      ghost var before := files;
      files := files + [LayoutFile(offset, lengths[i])];
      offset := offset + lengths[i];
      assert forall k | 0 <= k <= i :: EndOf(files, k) == EndOf(before, k);
    }
    l := Layout(files, pieceLength, offset);
  }

  lemma {:induction false} TiledOrder(l: Layout, i: nat, j: nat)
    requires Tiled(l) && i < j < |l.files|
    ensures l.files[i].End() <= l.files[j].offset
    ensures l.files[j].End() <= l.total
    decreases |l.files| - i, j
  {
    assert l.files[j].offset == EndOf(l.files, j);
    if i + 1 < j {
      TiledOrder(l, i, j - 1);
    }
    TiledTotal(l, j);
  }

  lemma {:induction false} TiledTotal(l: Layout, i: nat)
    requires Tiled(l) && i < |l.files|
    ensures l.files[i].End() <= l.total
    decreases |l.files| - i
  {
    if i + 1 < |l.files| {
      assert l.files[i + 1].offset == EndOf(l.files, i + 1);
      TiledTotal(l, i + 1);
    }
  }

  // --- Splitting a range by file -------------------------------------------------

  datatype FileSlice = FileSlice(file: nat, offset: nat, length: nat)

  /** Past every file that ends at or before the position. */
  function FirstPast(files: seq<LayoutFile>, pos: nat): (n: nat)
    ensures n <= |files|
    ensures forall i | 0 <= i < n :: files[i].End() <= pos
    ensures n < |files| ==> files[n].End() > pos
  {
    if files == [] || files[0].End() > pos then 0 else 1 + FirstPast(files[1..], pos)
  }

  /** Index of the file holding a byte, or -1. */
  function FileAt(l: Layout, offset: nat): (n: int)
    ensures -1 <= n < |l.files|
  {
    var n := FirstPast(l.files, offset);
    if n < |l.files| && l.files[n].offset <= offset && l.files[n].length > 0 then n else -1
  }

  /** The file the search lands on is the one and only file with that byte. */
  lemma FileAtIff(l: Layout, offset: nat, i: nat)
    requires Tiled(l) && i < |l.files|
    ensures FileAt(l, offset) == i <==> l.files[i].offset <= offset < l.files[i].End()
    ensures FileAt(l, offset) >= 0 <==> offset < l.total
  {
    var n := FirstPast(l.files, offset);
    if n < |l.files| {
      assert l.files[n].offset == EndOf(l.files, n);
      TiledTotal(l, n);
      if n < i {
        TiledOrder(l, n, i);
      } else if i < n {
        TiledOrder(l, i, n);
      }
    }
  }

  function Lesser(a: nat, b: nat): nat {
    if a < b then a else b
  }

  /** The position lies in the file, or the file is empty and stands there. */
  predicate Stands(l: Layout, pos: nat, index: nat) {
    index < |l.files| ==>
      var file := l.files[index];
      file.offset <= pos && (pos < file.End() || (file.length == 0 && pos == file.offset))
  }

  /** The per-file slices of a range, from a position in a file on. */
  function SplitFrom(l: Layout, pos: nat, end: nat, index: nat): seq<FileSlice>
    requires Tiled(l) && index <= |l.files| && (pos < end ==> Stands(l, pos, index))
    decreases |l.files| - index
  {
    if pos >= end || index == |l.files| then []
    else
      var file := l.files[index];
      StandsNext(l, pos, index);
      if file.length == 0 then SplitFrom(l, pos, end, index + 1)
      else
        var take := Lesser(file.length - (pos - file.offset), end - pos);
        [FileSlice(index, pos - file.offset, take)] + SplitFrom(l, pos + take, end, index + 1)
  }

  lemma FirstStands(l: Layout, pos: nat)
    requires Tiled(l)
    ensures Stands(l, pos, FirstPast(l.files, pos))
  {
    var n := FirstPast(l.files, pos);
    if n < |l.files| {
      assert l.files[n].offset == EndOf(l.files, n);
    }
  }

  lemma StandsNext(l: Layout, pos: nat, index: nat)
    requires Tiled(l) && index < |l.files| && Stands(l, pos, index)
    ensures l.files[index].length == 0 ==> Stands(l, pos, index + 1)
    ensures l.files[index].length > 0 ==> Stands(l, l.files[index].End(), index + 1)
  {
    if index + 1 < |l.files| {
      assert l.files[index + 1].offset == EndOf(l.files, index + 1);
    }
  }

  function Split(l: Layout, r: Range): seq<FileSlice>
    requires Tiled(l)
  {
    FirstStands(l, r.start);
    SplitFrom(l, r.start, Lesser(r.end, l.total), FirstPast(l.files, r.start))
  }

  /** Split a range into per-file slices, in torrent order. A range past the
      end of the payload is truncated. */
  method SplitByFile(l: Layout, r: Range) returns (out: seq<FileSlice>)
    requires Tiled(l)
    ensures out == Split(l, r)
  {
    hide Stands, SplitFrom, EndOf, Tiled;
    var end := Lesser(r.end, l.total);
    var pos := r.start;
    FirstStands(l, pos);
    var index := FirstPast(l.files, pos);
    out := [];
    while pos < end && index < |l.files|
      invariant 0 <= pos && 0 <= index <= |l.files| && (pos < end ==> Stands(l, pos, index))
      invariant Split(l, r) == out + SplitFrom(l, pos, end, index)
      decreases |l.files| - index
    {
      var file := l.files[index];
      SplitStep(l, pos, end, index);
      if file.length > 0 {
        var offsetInFile := pos - file.offset;
        var take := Lesser(file.length - offsetInFile, end - pos);
        SplitNext(out, FileSlice(index, offsetInFile, take), SplitFrom(l, pos + take, end, index + 1));
        out := out + [FileSlice(index, offsetInFile, take)];
        pos := pos + take;
      }
      index := index + 1;
    }
    SplitDone(l, pos, end, index);
  }

  lemma SplitDone(l: Layout, pos: nat, end: nat, index: nat)
    requires Tiled(l) && index <= |l.files| && (pos >= end || index == |l.files|)
    ensures SplitFrom(l, pos, end, index) == []
  {
  }

  /** One round of the walk. */
  lemma SplitStep(l: Layout, pos: nat, end: nat, index: nat)
    requires Tiled(l) && pos < end && index < |l.files| && Stands(l, pos, index)
    ensures l.files[index].length == 0 ==>
              Stands(l, pos, index + 1) && SplitFrom(l, pos, end, index) == SplitFrom(l, pos, end, index + 1)
    ensures l.files[index].length > 0 ==>
              var file := l.files[index];
              && file.offset <= pos < file.End()
              && var take := Lesser(file.length - (pos - file.offset), end - pos);
                 && (pos + take < end ==> Stands(l, pos + take, index + 1))
                 && SplitFrom(l, pos, end, index)
                    == [FileSlice(index, pos - file.offset, take)] + SplitFrom(l, pos + take, end, index + 1)
  {
    StandsNext(l, pos, index);
  }

  lemma SplitNext(out: seq<FileSlice>, s: FileSlice, rest: seq<FileSlice>)
    ensures out + ([s] + rest) == (out + [s]) + rest
  {
  }

  function Linear(l: Layout, s: FileSlice): nat
    requires s.file < |l.files|
  {
    l.files[s.file].offset + s.offset
  }

  /** Non-empty slices, each inside its file, end to end from one linear
      position to another, through files in order. */
  ghost predicate Tiles(l: Layout, slices: seq<FileSlice>, pos: nat, end: nat)
    decreases |slices|
  {
    if slices == [] then pos == end
    else
      var s := slices[0];
      && s.file < |l.files| && s.length > 0 && s.offset + s.length <= l.files[s.file].length
      && Linear(l, s) == pos
      && (|slices| > 1 ==> s.file < slices[1].file)
      && Tiles(l, slices[1..], pos + s.length, end)
  }

  lemma TilesAdd(l: Layout, s: FileSlice, rest: seq<FileSlice>, pos: nat, end: nat)
    requires s.file < |l.files| && s.length > 0 && s.offset + s.length <= l.files[s.file].length && Linear(l, s) == pos
    requires Tiles(l, rest, pos + s.length, end) && forall x <- rest :: x.file > s.file
    ensures Tiles(l, [s] + rest, pos, end)
  {
    assert ([s] + rest)[1..] == rest;
    if rest != [] {
      assert rest[0] in rest;
    }
  }

  lemma {:induction false} SplitFromTiles(l: Layout, pos: nat, end: nat, index: nat)
    requires Tiled(l) && index <= |l.files| && pos <= end <= l.total
    requires pos < end ==> Stands(l, pos, index) && index < |l.files|
    ensures Tiles(l, SplitFrom(l, pos, end, index), pos, end)
    ensures forall s <- SplitFrom(l, pos, end, index) :: s.file >= index
    decreases |l.files| - index
  {
    hide Tiled, Tiles;
    if pos == end {
      NoTiles(l, pos);
    } else {
      var file := l.files[index];
      StandsNext(l, pos, index);
      NextFile(l, index);
      if file.length == 0 {
        SplitFromTiles(l, pos, end, index + 1);
      } else {
        var take := Lesser(file.length - (pos - file.offset), end - pos);
        SplitFromTiles(l, pos + take, end, index + 1);
        var rest := SplitFrom(l, pos + take, end, index + 1);
        TilesAdd(l, FileSlice(index, pos - file.offset, take), rest, pos, end);
      }
    }
  }

  lemma NoTiles(l: Layout, pos: nat)
    ensures Tiles(l, [], pos, pos)
  {
  }

  lemma NextFile(l: Layout, index: nat)
    requires Tiled(l) && index < |l.files|
    ensures l.files[index].End() <= l.total
    ensures index + 1 == |l.files| ==> l.files[index].End() == l.total
  {
    TiledTotal(l, index);
    assert l.total == EndOf(l.files, |l.files|);
  }

  /** A split covers exactly the range clipped to the payload. */
  lemma SplitTiles(l: Layout, r: Range)
    requires Tiled(l)
    ensures var end := Lesser(r.end, l.total);
            if r.start < end then Tiles(l, Split(l, r), r.start, end) else Split(l, r) == []
  {
    var end := Lesser(r.end, l.total);
    if r.start < end {
      FirstStands(l, r.start);
      FileAtExists(l, r.start);
      SplitFromTiles(l, r.start, end, FirstPast(l.files, r.start));
    }
  }

  lemma FileAtExists(l: Layout, pos: nat)
    requires Tiled(l) && pos < l.total
    ensures FirstPast(l.files, pos) < |l.files|
  {
    assert l.total == EndOf(l.files, |l.files|);
  }

  // --- Reading a range back ---------------------------------------------------------

  datatype OnDisk = Missing | Present(bytes: seq<byte>)

  datatype Bytes = Unreadable | Bytes(bytes: seq<byte>)

  function ReadSlice(disk: seq<OnDisk>, s: FileSlice): Bytes {
    if s.file >= |disk| || disk[s.file].Missing? || s.offset + s.length > |disk[s.file].bytes| then Unreadable
    else Bytes(disk[s.file].bytes[s.offset..s.offset + s.length])
  }

  function ReadSlices(disk: seq<OnDisk>, slices: seq<FileSlice>): Bytes {
    if slices == [] then Bytes([])
    else
      var first, rest := ReadSlice(disk, slices[0]), ReadSlices(disk, slices[1..]);
      if first.Unreadable? || rest.Unreadable? then Unreadable else Bytes(first.bytes + rest.bytes)
  }

  /** Read a range back from the files it crosses: all of it, or nothing. */
  method ReadRange(l: Layout, disk: seq<OnDisk>, r: Range) returns (out: Bytes)
    requires Tiled(l)
    ensures out == if r.end < r.start then Unreadable
                   else
                     var read := ReadSlices(disk, Split(l, r));
                     if read.Bytes? && |read.bytes| == r.end - r.start then read else Unreadable
  {
    if r.end < r.start {
      return Unreadable;
    }
    var slices := SplitByFile(l, r);
    var bytes := [];
    for i := 0 to |slices|
      invariant ReadSlices(disk, slices) ==
                if ReadSlices(disk, slices[i..]).Unreadable? then Unreadable
                else Bytes(bytes + ReadSlices(disk, slices[i..]).bytes)
    {
      assert slices[i..][0] == slices[i] && slices[i..][1..] == slices[i + 1..];
      var read := ReadSlice(disk, slices[i]);
      if read.Unreadable? {
        return Unreadable;
      }
      bytes := bytes + read.bytes;
    }
    out := if |bytes| == r.end - r.start then Bytes(bytes) else Unreadable;
  }

  /** Every file that holds data is there, and as long as it should be. */
  predicate Intact(l: Layout, disk: seq<OnDisk>) {
    |disk| == |l.files| &&
    forall i | 0 <= i < |disk| && l.files[i].length > 0 :: disk[i].Present? && l.files[i].length <= |disk[i].bytes|
  }

  function FilePart(l: Layout, disk: seq<OnDisk>, i: nat): (part: seq<byte>)
    requires Intact(l, disk) && i < |disk|
    ensures |part| == l.files[i].length
  {
    if l.files[i].length == 0 then [] else disk[i].bytes[..l.files[i].length]
  }

  /** The concatenated payload of the first `n` files. */
  function Payload(l: Layout, disk: seq<OnDisk>, n: nat): (p: seq<byte>)
    requires Intact(l, disk) && n <= |disk|
  {
    if n == 0 then [] else Payload(l, disk, n - 1) + FilePart(l, disk, n - 1)
  }

  lemma {:induction false} PayloadLength(l: Layout, disk: seq<OnDisk>, n: nat)
    requires Tiled(l) && Intact(l, disk) && n <= |disk|
    ensures |Payload(l, disk, n)| == EndOf(l.files, n)
  {
    if n > 0 {
      PayloadLength(l, disk, n - 1);
      assert l.files[n - 1].offset == EndOf(l.files, n - 1);
    }
  }

  lemma SliceHead(p: seq<byte>, q: seq<byte>, a: nat, b: nat)
    requires a <= b <= |p|
    ensures (p + q)[a..b] == p[a..b]
  {
  }

  lemma SliceTail(p: seq<byte>, q: seq<byte>)
    ensures (p + q)[|p|..|p| + |q|] == q
  {
  }

  lemma SliceSlice(s: seq<byte>, a: nat, b: nat, c: nat, d: nat)
    requires a <= b <= |s| && c <= d <= b - a
    ensures s[a..b][c..d] == s[a + c..a + d]
  {
    var x, y := s[a..b][c..d], s[a + c..a + d];
    assert forall i | 0 <= i < d - c :: x[i] == s[a..b][c + i] == s[a + c + i] == y[i];
  }

  lemma SliceJoin(s: seq<byte>, a: nat, b: nat, c: nat)
    requires a <= b <= c <= |s|
    ensures s[a..c] == s[a..b] + s[b..c]
  {
  }

  lemma LastFile(l: Layout, disk: seq<OnDisk>, n: nat) returns (head: seq<byte>, last: seq<byte>)
    requires Tiled(l) && Intact(l, disk) && 0 < n <= |disk|
    ensures head == Payload(l, disk, n - 1) && last == FilePart(l, disk, n - 1)
    ensures Payload(l, disk, n) == head + last
    ensures |head| == l.files[n - 1].offset && |head + last| == l.files[n - 1].End()
  {
    hide FilePart;
    head, last := Payload(l, disk, n - 1), FilePart(l, disk, n - 1);
    PayloadLength(l, disk, n - 1);
    assert l.files[n - 1].offset == EndOf(l.files, n - 1);
  }

  /** Where each file's bytes stand in the payload. */
  lemma {:induction false} PayloadAt(l: Layout, disk: seq<OnDisk>, n: nat, i: nat)
    requires Tiled(l) && Intact(l, disk) && i < n <= |disk|
    ensures l.files[i].End() <= |Payload(l, disk, n)|
    ensures Payload(l, disk, n)[l.files[i].offset..l.files[i].End()] == FilePart(l, disk, i)
    decreases n
  {
    hide FilePart, Payload, EndOf;
    var head, last := LastFile(l, disk, n);
    if i < n - 1 {
      PayloadAt(l, disk, n - 1, i);
      SliceHead(head, last, l.files[i].offset, l.files[i].End());
    } else {
      SliceTail(head, last);
    }
  }

  /** One slice read from its file is its stretch of the payload. */
  lemma SliceRead(l: Layout, disk: seq<OnDisk>, s: FileSlice)
    requires Tiled(l) && Intact(l, disk) && s.file < |l.files|
    requires s.length > 0 && s.offset + s.length <= l.files[s.file].length
    ensures var payload := Payload(l, disk, |disk|);
            var at := Linear(l, s);
            at + s.length <= |payload| && ReadSlice(disk, s) == Bytes(payload[at..at + s.length])
  {
    hide Payload;
    var payload, file := Payload(l, disk, |disk|), l.files[s.file];
    PayloadAt(l, disk, |disk|, s.file);
    SliceSlice(payload, file.offset, file.End(), s.offset, s.offset + s.length);
    SliceSlice(disk[s.file].bytes, 0, file.length, s.offset, s.offset + s.length);
  }

  lemma {:induction false} TilesRead(l: Layout, disk: seq<OnDisk>, slices: seq<FileSlice>, pos: nat, end: nat)
    requires Tiled(l) && Intact(l, disk) && Tiles(l, slices, pos, end) && pos <= end <= l.total
    ensures var payload := Payload(l, disk, |disk|);
            |payload| == l.total && ReadSlices(disk, slices) == Bytes(payload[pos..end])
    decreases |slices|
  {
    hide Payload, ReadSlice;
    PayloadLength(l, disk, |disk|);
    var payload := Payload(l, disk, |disk|);
    if slices == [] {
      assert payload[pos..end] == [];
    } else {
      var s := slices[0];
      TilesEnd(l, slices[1..], pos + s.length, end);
      TilesRead(l, disk, slices[1..], pos + s.length, end);
      SliceRead(l, disk, s);
      SliceJoin(payload, pos, pos + s.length, end);
    }
  }

  lemma {:induction false} TilesEnd(l: Layout, slices: seq<FileSlice>, pos: nat, end: nat)
    requires Tiles(l, slices, pos, end)
    ensures pos <= end
    decreases |slices|
  {
    if slices != [] {
      TilesEnd(l, slices[1..], pos + slices[0].length, end);
    }
  }

  /** What a range read answers over intact files. */
  function ReadAnswer(l: Layout, disk: seq<OnDisk>, r: Range): Bytes
    requires Tiled(l) && Intact(l, disk)
  {
    if r.start > r.end || (r.start < r.end && r.end > l.total) then Unreadable
    else if r.start == r.end then Bytes([])
    else
      PayloadLength(l, disk, |disk|);
      Bytes(Payload(l, disk, |disk|)[r.start..r.end])
  }

  /** Over intact files a range reads as that slice of the payload, and as
      nothing when it runs past the end. */
  lemma ReadIsPayload(l: Layout, disk: seq<OnDisk>, r: Range)
    requires Tiled(l) && Intact(l, disk) && r.start <= r.end
    ensures var read := ReadSlices(disk, Split(l, r));
            ReadAnswer(l, disk, r) == if read.Bytes? && |read.bytes| == r.end - r.start then read else Unreadable
  {
    var end := Lesser(r.end, l.total);
    SplitTiles(l, r);
    if r.start < end {
      TilesRead(l, disk, Split(l, r), r.start, end);
    }
  }
}
