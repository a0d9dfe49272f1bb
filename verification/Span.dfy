/** Byte-range algebra over a torrent's linear payload. */
module Spans {

  /** A half-open range of byte positions. */
  datatype Range = Range(start: nat, end: nat)

  predicate Within(r: Range, x: nat) {
    r.start <= x < r.end
  }

  predicate In(spans: seq<Range>, x: nat) {
    exists i :: 0 <= i < |spans| && Within(spans[i], x)
  }

  /** Non-empty, in order, and with a gap between each and the next. */
  predicate Canonical(spans: seq<Range>) {
    && (forall i | 0 <= i < |spans| :: spans[i].start < spans[i].end)
    && (forall i, j | 0 <= i < j < |spans| :: spans[i].end < spans[j].start)
  }

  lemma InAppend(a: seq<Range>, r: Range, x: nat)
    ensures In(a + [r], x) <==> In(a, x) || Within(r, x)
  {
    if In(a, x) {
      var i :| 0 <= i < |a| && Within(a[i], x);
      assert (a + [r])[i] == a[i];
    }
    if Within(r, x) {
      assert (a + [r])[|a|] == r;
    }
  }

  lemma InEmpty()
    ensures forall x: nat :: !In([], x)
  {
  }

  lemma InAt(spans: seq<Range>, i: nat, x: nat)
    requires i < |spans|
    ensures Within(spans[i], x) ==> In(spans, x)
  {
  }

  lemma InSplit(spans: seq<Range>, n: nat, x: nat)
    requires n <= |spans|
    ensures In(spans, x) <==> In(spans[..n], x) || In(spans[n..], x)
  {
    if In(spans, x) {
      var i :| 0 <= i < |spans| && Within(spans[i], x);
      if i < n {
        assert spans[..n][i] == spans[i];
      } else {
        assert spans[n..][i - n] == spans[i];
      }
    }
    if In(spans[..n], x) {
      var i :| 0 <= i < n && Within(spans[..n][i], x);
      assert Within(spans[i], x);
    }
    if In(spans[n..], x) {
      var i :| 0 <= i < |spans| - n && Within(spans[n..][i], x);
      assert Within(spans[n + i], x);
    }
  }

  // --- Building ---------------------------------------------------------------

  predicate KeyLe(a: Range, b: Range) {
    a.start < b.start || (a.start == b.start && a.end <= b.end)
  }

  predicate SortedByKey(spans: seq<Range>) {
    forall i, j | 0 <= i < j < |spans| :: KeyLe(spans[i], spans[j])
  }

  function Insert(r: Range, spans: seq<Range>): (out: seq<Range>)
    ensures multiset(out) == multiset(spans) + multiset{r}
  {
    if spans == [] then [r]
    else if KeyLe(r, spans[0]) then
      assert multiset([r] + spans) == multiset(spans) + multiset{r};
      [r] + spans
    else
      assert spans == [spans[0]] + spans[1..];
      [spans[0]] + Insert(r, spans[1..])
  }

  lemma {:induction false} InsertSorted(r: Range, spans: seq<Range>)
    requires SortedByKey(spans)
    ensures SortedByKey(Insert(r, spans))
  {
    if spans != [] && !KeyLe(r, spans[0]) {
      var rest := Insert(r, spans[1..]);
      InsertSorted(r, spans[1..]);
      forall x | x in rest
        ensures KeyLe(spans[0], x)
      {
        assert x in multiset(rest);
        if x != r {
          assert x in multiset(spans[1..]);
          var i :| 0 <= i < |spans| - 1 && spans[1..][i] == x;
        }
      }
    }
  }

  /** The library's sort on `(start, end)`: in order, and nothing added or lost. */
  function SortByKey(spans: seq<Range>): (out: seq<Range>)
    ensures SortedByKey(out) && multiset(out) == multiset(spans)
  {
    if spans == [] then []
    else
      assert spans == [spans[0]] + spans[1..];
      InsertSorted(spans[0], SortByKey(spans[1..]));
      Insert(spans[0], SortByKey(spans[1..]))
  }

  function NonEmptyRanges(spans: seq<Range>): (out: seq<Range>)
    ensures forall r :: r in out <==> r in spans && r.start < r.end
  {
    if spans == [] then []
    else
      assert spans == [spans[0]] + spans[1..];
      (if spans[0].start < spans[0].end then [spans[0]] else []) + NonEmptyRanges(spans[1..])
  }

  lemma SameMembers(a: seq<Range>, b: seq<Range>, x: nat)
    requires forall r: Range :: r in a <==> r in b && r.start < r.end
    ensures In(a, x) <==> In(b, x)
  {
    if In(a, x) {
      var i :| 0 <= i < |a| && Within(a[i], x);
      var j :| 0 <= j < |b| && b[j] == a[i];
    }
    if In(b, x) {
      var i :| 0 <= i < |b| && Within(b[i], x);
      var j :| 0 <= j < |a| && a[j] == b[i];
    }
  }

  /** Build from any ranges: sorted, and touching ones coalesced. */
  method FromRanges(ranges: seq<Range>) returns (out: seq<Range>)
    ensures Canonical(out)
    ensures forall x: nat :: In(out, x) <==> In(ranges, x)
  {
    hide In;
    var spans := SortByKey(NonEmptyRanges(ranges));
    forall r: Range
      ensures r in spans <==> r in ranges && r.start < r.end
    {
      assert r in multiset(spans) <==> r in multiset(NonEmptyRanges(ranges));
    }
    out := Coalesce(spans);
    forall x: nat
      ensures In(out, x) <==> In(ranges, x)
    {
      SameMembers(spans, ranges, x);
    }
  }

  lemma CanonicalNone()
    ensures Canonical([])
  {
  }

  lemma CanonicalStep(spans: seq<Range>, n: nat)
    requires Canonical(spans) && n < |spans|
    ensures spans[n].start < spans[n].end && (n + 1 < |spans| ==> spans[n].end < spans[n + 1].start < spans[n + 1].end)
  {
  }

  lemma CanonicalAdd(out: seq<Range>, span: Range)
    requires Canonical(out) && span.start < span.end && (out != [] ==> out[|out| - 1].end < span.start)
    ensures Canonical(out + [span])
  {
  }

  lemma CanonicalWiden(out: seq<Range>, widened: Range)
    requires Canonical(out) && out != []
    requires widened.start == out[|out| - 1].start && widened.end >= out[|out| - 1].end
    ensures Canonical(out[..|out| - 1] + [widened])
  {
  }

  /** One pass over sorted spans, joining each to the last where they touch. */
  method Coalesce(spans: seq<Range>) returns (out: seq<Range>)
    requires SortedByKey(spans) && forall r <- spans :: r.start < r.end
    ensures Canonical(out)
    ensures forall x: nat :: In(out, x) <==> In(spans, x)
  {
    hide In, Canonical;
    out := [];
    CanonicalNone();
    for i := 0 to |spans|
      invariant Canonical(out)
      invariant out != [] ==> i > 0 && out[|out| - 1].start <= spans[i - 1].start
      invariant i > 0 ==> out != []
      invariant forall x: nat :: In(out, x) <==> In(spans[..i], x)
    {
      var span := spans[i];
      assert spans[..i + 1] == spans[..i] + [span] && span in spans;
      assert i > 0 ==> KeyLe(spans[i - 1], span);
      ghost var before := out;
      if out != [] && span.start <= out[|out| - 1].end {
        var last := out[|out| - 1];
        var widened := Range(last.start, if last.end < span.end then span.end else last.end);
        CanonicalWiden(out, widened);
        out := out[..|out| - 1] + [widened];
        assert before == before[..|before| - 1] + [last];
        forall x: nat
          ensures In(out, x) <==> In(spans[..i + 1], x)
        {
          InAppend(before[..|before| - 1], last, x);
          InAppend(before[..|before| - 1], widened, x);
          InAppend(spans[..i], span, x);
        }
      } else {
        CanonicalAdd(out, span);
        out := out + [span];
        forall x: nat
          ensures In(out, x) <==> In(spans[..i + 1], x)
        {
          InAppend(before, span, x);
          InAppend(spans[..i], span, x);
        }
      }
    }
    assert spans[..|spans|] == spans;
  }

  // --- Looking up -----------------------------------------------------------------

  /** Where the binary search lands: past every span that ends at or before
      the position. */
  function PartitionPoint(spans: seq<Range>, at: nat): (n: nat)
    ensures n <= |spans|
    ensures forall i | 0 <= i < n :: spans[i].end <= at
    ensures n < |spans| ==> spans[n].end > at
  {
    if spans == [] || spans[0].end > at then 0
    else 1 + PartitionPoint(spans[1..], at)
  }

  /** Index of the span holding a position, or -1. */
  function IndexOf(spans: seq<Range>, at: nat): (n: int)
    requires Canonical(spans)
    ensures -1 <= n < |spans|
    ensures n >= 0 ==> Within(spans[n], at)
    ensures n < 0 <==> !In(spans, at)
  {
    var n := PartitionPoint(spans, at);
    if n < |spans| && spans[n].start <= at then n else -1
  }

  /** Whether the whole of a range falls inside the set. An empty range is
      trivially contained. */
  predicate ContainsRange(spans: seq<Range>, r: Range)
    requires Canonical(spans)
  {
    if r.start >= r.end then true
    else
      var n := IndexOf(spans, r.start);
      n >= 0 && spans[n].end >= r.end
  }

  /** One lookup decides about every byte of the range. */
  lemma ContainsRangeIff(spans: seq<Range>, r: Range)
    requires Canonical(spans)
    ensures ContainsRange(spans, r) <==> forall x: nat | Within(r, x) :: In(spans, x)
  {
    if r.start < r.end {
      var n := IndexOf(spans, r.start);
      if ContainsRange(spans, r) {
        forall x: nat | Within(r, x)
          ensures In(spans, x)
        {
          assert Within(spans[n], x);
        }
      } else if n < 0 {
        assert Within(r, r.start) && !In(spans, r.start);
      } else {
        var x := spans[n].end;
        assert Within(r, x);
        forall i | 0 <= i < |spans|
          ensures !Within(spans[i], x)
        {
        }
      }
    }
  }

  // --- Union, intersection, difference ------------------------------------------------

  method Union(a: seq<Range>, b: seq<Range>) returns (out: seq<Range>)
    ensures Canonical(out)
    ensures forall x: nat :: In(out, x) <==> In(a, x) || In(b, x)
  {
    out := FromRanges(a + b);
    forall x: nat
      ensures In(a + b, x) <==> In(a, x) || In(b, x)
    {
      InSplit(a + b, |a|, x);
      assert (a + b)[..|a|] == a && (a + b)[|a|..] == b;
    }
  }

  /** Every position left in `a` from `i` on, and in `b` from `j` on. */
  ghost predicate BothFrom(a: seq<Range>, i: nat, b: seq<Range>, j: nat, x: nat)
    requires i <= |a| && j <= |b|
  {
    In(a[i..], x) && In(b[j..], x)
  }

  /** A walk over both sets at once. */
  method Intersection(a: seq<Range>, b: seq<Range>) returns (out: seq<Range>)
    requires Canonical(a) && Canonical(b)
    ensures Canonical(out)
    ensures forall x: nat :: In(out, x) <==> In(a, x) && In(b, x)
  {
    hide In;
    InEmpty();
    out := [];
    var i, j := 0, 0;
    while i < |a| && j < |b|
      invariant 0 <= i <= |a| && 0 <= j <= |b|
      invariant Canonical(out)
      invariant out != [] && i < |a| && j < |b| ==>
                  out[|out| - 1].end < a[i].start || out[|out| - 1].end < b[j].start
      invariant forall x: nat :: (In(a, x) && In(b, x)) <==> (In(out, x) || BothFrom(a, i, b, j, x))
      decreases |a| + |b| - i - j
    {
      var left, right := a[i], b[j];
      var start := if left.start < right.start then right.start else left.start;
      var end := if left.end < right.end then left.end else right.end;
      ghost var before := out;
      if start < end {
        out := out + [Range(start, end)];
      }
      forall x: nat
        ensures In(out, x) <==> In(before, x) || start <= x < end
      {
        InAppend(before, Range(start, end), x);
      }
      if left.end < right.end {
        forall x: nat
          ensures BothFrom(a, i, b, j, x) <==> BothFrom(a, i + 1, b, j, x) || start <= x < end
        {
          AdvanceLeft(a, i, b, j, x);
        }
        i := i + 1;
      } else {
        forall x: nat
          ensures BothFrom(a, i, b, j, x) <==> BothFrom(a, i, b, j + 1, x) || start <= x < end
        {
          AdvanceLeft(b, j, a, i, x);
        }
        j := j + 1;
      }
    }
    assert a[|a|..] == [] && b[|b|..] == [];
    assert a[0..] == a && b[0..] == b;
  }

  /** Dropping the span that ends first loses only what it shares with the
      other set's current span. */
  lemma AdvanceLeft(a: seq<Range>, i: nat, b: seq<Range>, j: nat, x: nat)
    requires Canonical(a) && Canonical(b) && i < |a| && j < |b| && a[i].end <= b[j].end
    ensures BothFrom(a, i, b, j, x) <==>
            BothFrom(a, i + 1, b, j, x) || (Within(a[i], x) && Within(b[j], x))
  {
    InSplit(a[i..], 1, x);
    assert a[i..][..1] == [a[i]] && a[i..][1..] == a[i + 1..];
    InSplit(b[j..], 1, x);
    assert b[j..][..1] == [b[j]] && b[j..][1..] == b[j + 1..];
    assert In([a[i]], x) <==> Within(a[i], x) by {
      assert [a[i]][0] == a[i];
    }
    assert In([b[j]], x) <==> Within(b[j], x) by {
      assert [b[j]][0] == b[j];
    }
    if Within(a[i], x) && In(b[j + 1..], x) {
      var k :| 0 <= k < |b| - j - 1 && Within(b[j + 1..][k], x);
      assert b[j].end < b[j + 1 + k].start;
    }
  }

  /** Everything in one set and not in the other. */
  method Difference(a: seq<Range>, b: seq<Range>) returns (out: seq<Range>)
    requires Canonical(a) && Canonical(b)
    ensures Canonical(out)
    ensures forall x: nat :: In(out, x) <==> In(a, x) && !In(b, x)
  {
    hide In;
    out := [];
    InEmpty();
    for i := 0 to |a|
      invariant Canonical(out)
      invariant out != [] ==> i > 0 && out[|out| - 1].end <= a[i - 1].end
      invariant forall x: nat :: In(out, x) <==> In(a[..i], x) && !In(b, x)
    {
      ghost var before := out;
      var parts := Outside(a[i], b);
      out := out + parts;
      forall x: nat
        ensures In(out, x) <==> In(a[..i + 1], x) && !In(b, x)
      {
        DifferenceNext(before, parts, a, i, x);
      }
    }
    assert a[..|a|] == a;
  }

  /** Between two neighbours of a canonical set nothing is covered. */
  lemma GapFree(b: seq<Range>, n: nat, lo: nat, hi: nat, x: nat)
    requires Canonical(b) && n <= |b|
    requires n > 0 ==> b[n - 1].end <= lo
    requires n < |b| ==> hi <= b[n].start
    ensures lo <= x < hi ==> !In(b, x)
  {
    if lo <= x < hi {
      forall i | 0 <= i < |b|
        ensures !Within(b[i], x)
      {
      }
    }
  }

  lemma DifferenceNext(before: seq<Range>, parts: seq<Range>, a: seq<Range>, i: nat, x: nat)
    requires i < |a|
    ensures In(before + parts, x) <==> In(before, x) || In(parts, x)
    ensures In(a[..i + 1], x) <==> In(a[..i], x) || Within(a[i], x)
  {
    hide In;
    InSplit(before + parts, |before|, x);
    assert (before + parts)[..|before|] == before && (before + parts)[|before|..] == parts;
    assert a[..i + 1] == a[..i] + [a[i]];
    InAppend(a[..i], a[i], x);
  }

  lemma OutsideStep(before: seq<Range>, b: seq<Range>, n: nat, was: nat, x: nat)
    requires Canonical(b) && n < |b| && (n > 0 ==> b[n - 1].end <= was)
    ensures b[n].start > was ==> (In(before + [Range(was, b[n].start)], x) <==> In(before, x) || was <= x < b[n].start)
    ensures was <= x < b[n].start ==> !In(b, x)
    ensures b[n].start <= x < b[n].end ==> In(b, x)
  {
    hide In, Canonical;
    InAppend(before, Range(was, b[n].start), x);
    GapFree(b, n, was, b[n].start, x);
    InAt(b, n, x);
  }

  /** The parts of one span that a set leaves uncovered. */
  method Outside(span: Range, b: seq<Range>) returns (out: seq<Range>)
    requires Canonical(b) && span.start < span.end
    ensures Canonical(out)
    ensures forall k | 0 <= k < |out| :: span.start <= out[k].start && out[k].end <= span.end
    ensures forall x: nat :: In(out, x) <==> Within(span, x) && !In(b, x)
  {
    hide In, Canonical;
    InEmpty();
    CanonicalNone();
    out := [];
    var pos := span.start;
    var n := PartitionPoint(b, span.start);
    while n < |b|
      invariant 0 <= n <= |b| && span.start <= pos < span.end
      invariant n > 0 ==> b[n - 1].end <= pos
      invariant n < |b| ==> pos < b[n].end
      invariant Canonical(out)
      invariant forall k | 0 <= k < |out| :: span.start <= out[k].start && out[k].end < pos
      invariant forall x: nat :: In(out, x) <==> (span.start <= x < pos && !In(b, x))
    {
      var cut := b[n];
      if cut.start >= span.end {
        break;
      }
      ghost var before, was := out, pos;
      CanonicalStep(b, n);
      if cut.start > pos {
        CanonicalAdd(out, Range(pos, cut.start));
        out := out + [Range(pos, cut.start)];
      }
      if pos < cut.end {
        pos := cut.end;
      }
      forall x: nat
        ensures In(out, x) <==> span.start <= x < pos && !In(b, x)
      {
        OutsideStep(before, b, n, was, x);
      }
      n := n + 1;
      if pos >= span.end {
        break;
      }
    }
    ghost var before := out;
    if pos < span.end {
      CanonicalAdd(out, Range(pos, span.end));
      out := out + [Range(pos, span.end)];
    }
    forall x: nat
      ensures In(out, x) <==> Within(span, x) && !In(b, x)
    {
      InAppend(before, Range(pos, span.end), x);
      if pos < span.end {
        GapFree(b, n, pos, span.end, x);
      } else {
        InAt(b, n - 1, x);
      }
    }
  }

  /** The parts of a range the set does not cover. */
  method GapsIn(spans: seq<Range>, r: Range) returns (out: seq<Range>)
    requires Canonical(spans)
    ensures Canonical(out)
    ensures forall x: nat :: In(out, x) <==> Within(r, x) && !In(spans, x)
    ensures out == [] <==> ContainsRange(spans, r)
  {
    var whole := if r.start < r.end then [r] else [];
    out := Difference(whole, spans);
    forall x: nat
      ensures In(whole, x) <==> Within(r, x)
    {
      if r.start < r.end {
        InAppend([], r, x);
        assert [] + [r] == [r];
      }
    }
    ContainsRangeIff(spans, r);
    if out != [] {
      assert Within(out[0], out[0].start) && In(out, out[0].start);
    }
  }

  // --- Equality means equality -------------------------------------------------------

  lemma FirstSpan(a: seq<Range>, b: seq<Range>)
    requires Canonical(a) && Canonical(b) && a != [] && b != []
    requires forall x: nat :: In(a, x) <==> In(b, x)
    ensures a[0] == b[0]
  {
    StartsNoLater(a, b);
    StartsNoLater(b, a);
    EndsNoLater(a, b);
    EndsNoLater(b, a);
  }

  lemma StartsNoLater(a: seq<Range>, b: seq<Range>)
    requires Canonical(a) && Canonical(b) && a != [] && b != []
    requires forall x: nat :: In(b, x) ==> In(a, x)
    ensures a[0].start <= b[0].start
  {
    assert Within(b[0], b[0].start) && In(b, b[0].start);
    var i :| 0 <= i < |a| && Within(a[i], b[0].start);
  }

  lemma EndsNoLater(a: seq<Range>, b: seq<Range>)
    requires Canonical(a) && Canonical(b) && a != [] && b != []
    requires a[0].start == b[0].start
    requires forall x: nat :: In(b, x) ==> In(a, x)
    ensures b[0].end <= a[0].end
  {
    GapFree(a, 1, a[0].end, a[0].end + 1, a[0].end);
    assert !In(b, a[0].end);
    InAt(b, 0, a[0].end);
  }

  /** Two canonical sets with the same members are the same set. */
  lemma {:induction false} CanonicalUnique(a: seq<Range>, b: seq<Range>)
    requires Canonical(a) && Canonical(b)
    requires forall x: nat :: In(a, x) <==> In(b, x)
    ensures a == b
  {
    hide In;
    InEmpty();
    if a != [] {
      InAt(a, 0, a[0].start);
    }
    if b != [] {
      InAt(b, 0, b[0].start);
    }
    if a != [] && b != [] {
      FirstSpan(a, b);
      forall x: nat
        ensures In(a[1..], x) <==> In(b[1..], x)
      {
        TailMembers(a, x);
        TailMembers(b, x);
      }
      CanonicalUnique(a[1..], b[1..]);
      assert a == [a[0]] + a[1..] && b == [b[0]] + b[1..];
    }
  }

  lemma TailMembers(a: seq<Range>, x: nat)
    requires Canonical(a) && a != []
    ensures In(a[1..], x) <==> In(a, x) && !Within(a[0], x)
  {
    InSplit(a, 1, x);
    assert a[..1] == [a[0]];
    if In(a[1..], x) {
      var i :| 0 <= i < |a| - 1 && Within(a[1..][i], x);
      assert a[0].end < a[i + 1].start;
    }
  }
}
