/** Keeping the first occurrence of every element of a list. */
module Distinct {

  /** Each element once, where it first occurs. */
  function Firsts<T(==)>(s: seq<T>): seq<T> {
    if s == [] then []
    else
      var before := Firsts(s[..|s| - 1]);
      if s[|s| - 1] in before then before else before + [s[|s| - 1]]
  }

  /** Adding one more element. */
  lemma FirstsAdd<T>(s: seq<T>, x: T)
    ensures Firsts(s + [x]) == if x in Firsts(s) then Firsts(s) else Firsts(s) + [x]
  {
    assert (s + [x])[..|s|] == s;
  }

  predicate NoRepeats<T(==)>(s: seq<T>) {
    forall i, j | 0 <= i < j < |s| :: s[i] != s[j]
  }

  /** Nothing is lost or added. */
  lemma {:induction false} FirstsMember<T>(s: seq<T>, x: T)
    ensures x in Firsts(s) <==> x in s
  {
    if s != [] {
      var before := s[..|s| - 1];
      FirstsMember(before, x);
      assert s == before + [s[|s| - 1]];
    }
  }

  /** Nothing is repeated. */
  lemma {:induction false} FirstsNoRepeats<T>(s: seq<T>)
    ensures NoRepeats(Firsts(s))
  {
    if s != [] {
      FirstsNoRepeats(s[..|s| - 1]);
    }
  }

  /** What is kept of a longer list starts with what is kept of the shorter. */
  lemma {:induction false} FirstsGrow<T>(s: seq<T>, t: seq<T>)
    ensures Firsts(s) <= Firsts(s + t)
    decreases |t|
  {
    if t == [] {
      assert s + t == s;
    } else {
      var head := t[..|t| - 1];
      FirstsGrow(s, head);
      assert s + t == (s + head) + [t[|t| - 1]];
      FirstsAdd(s + head, t[|t| - 1]);
    }
  }

  /** Where an element first occurs. */
  function FirstAt<T(==)>(s: seq<T>, x: T): (i: nat)
    requires x in s
    ensures i < |s| && s[i] == x && x !in s[..i]
  {
    if s[0] == x then 0
    else
      assert x in s[1..];
      var i := 1 + FirstAt(s[1..], x);
      assert s[..i] == [s[0]] + s[1..][..i - 1];
      i
  }

  /** Elements are kept in the order in which they first occur. */
  lemma {:induction false} FirstsInOrder<T>(s: seq<T>, i: nat, j: nat)
    requires i < j < |Firsts(s)|
    ensures Firsts(s)[i] in s && Firsts(s)[j] in s && FirstAt(s, Firsts(s)[i]) < FirstAt(s, Firsts(s)[j])
  {
    hide FirstAt;
    var before, last := s[..|s| - 1], s[|s| - 1];
    assert s == before + [last];
    var x, y := Firsts(s)[i], Firsts(s)[j];
    FirstsAdd(before, last);
    assert x == Firsts(before)[i];
    FirstsMember(before, x);
    FirstAtGrow(before, last, x);
    if j < |Firsts(before)| {
      FirstsInOrder(before, i, j);
      FirstsMember(before, y);
      FirstAtGrow(before, last, y);
    } else {
      assert y == last && y !in Firsts(before);
      FirstsMember(before, last);
      LastAt(before, last);
    }
  }

  lemma {:induction false} FirstAtIs<T>(s: seq<T>, x: T, i: nat)
    requires i < |s| && s[i] == x && x !in s[..i]
    ensures x in s && FirstAt(s, x) == i
  {
    if i > 0 {
      assert s[..i][0] == s[0];
      assert s[1..][..i - 1] == s[..i][1..];
      FirstAtIs(s[1..], x, i - 1);
    }
  }

  lemma FirstAtGrow<T>(s: seq<T>, last: T, x: T)
    requires x in s
    ensures x in s + [last] && FirstAt(s + [last], x) == FirstAt(s, x)
  {
    hide FirstAt;
    var i := FirstAt(s, x);
    assert (s + [last])[..i] == s[..i];
    FirstAtIs(s + [last], x, i);
  }

  lemma LastAt<T>(s: seq<T>, last: T)
    requires last !in s
    ensures last in s + [last] && FirstAt(s + [last], last) == |s|
  {
    hide FirstAt;
    assert (s + [last])[..|s|] == s;
    FirstAtIs(s + [last], last, |s|);
  }
}
