/** Which files are open, in the order they were opened. */
module OpenFiles {

  function Without(order: seq<nat>, fileId: nat): seq<nat> {
    if order == [] then []
    else (if order[0] == fileId then [] else [order[0]]) + Without(order[1..], fileId)
  }

  ghost predicate NoDuplicates(order: seq<nat>) {
    forall i, j :: 0 <= i < j < |order| ==> order[i] != order[j]
  }

  /** The open order with the newest file last. */
  function Pushed(order: seq<nat>, fileId: nat): seq<nat> {
    Without(order, fileId) + [fileId]
  }

  function Over(n: nat, cap: nat): nat {
    if n > cap then n - cap else 0
  }

  class OpenSet {
    var order: seq<nat>
    const cap: nat

    constructor (cap: nat)
      ensures order == [] && this.cap == if cap == 0 then 1 else cap
    {
      order := [];
      this.cap := if cap == 0 then 1 else cap;
    }

    /** Record that `fileId` is now open, and name whatever has to close to
        stay inside the cap. */
    method Opened(fileId: nat) returns (evict: seq<nat>)
      modifies this
      ensures var pushed := Pushed(old(order), fileId);
              var over := Over(|pushed|, cap);
              evict == pushed[..over] && order == pushed[over..]
    {
      order := Without(order, fileId) + [fileId];
      evict := [];
      ghost var pushed := order;
      while |order| > cap
        invariant |evict| <= Over(|pushed|, cap)
        invariant evict == pushed[..|evict|] && order == pushed[|evict|..]
      {
        evict := evict + [order[0]];
        order := order[1..];
      }
    }

    /** Record that `fileId` is no longer open: the other files stay, as often
        as they were there and one ahead of the other as before. */
    method Close(fileId: nat)
      modifies this
      ensures order == Without(old(order), fileId)
      ensures multiset(order) == multiset(old(order))[fileId := 0]
      ensures forall a: nat, b: nat :: Ahead(order, a, b) <==> (Ahead(old(order), a, b) && a != fileId && b != fileId)
    {
      ghost var was := order;
      WithoutCounts(order, fileId);
      order := Without(order, fileId);
      forall a: nat, b: nat ensures Ahead(order, a, b) <==> (Ahead(was, a, b) && a != fileId && b != fileId) {
        WithoutAhead(was, fileId, a, b);
      }
    }
  }

  /** Somewhere in the order one file stands ahead of another. */
  predicate Ahead(order: seq<nat>, a: nat, b: nat) {
    exists i, j | 0 <= i < j < |order| :: order[i] == a && order[j] == b
  }

  lemma AheadFirst(x: nat, rest: seq<nat>, a: nat, b: nat)
    ensures Ahead([x] + rest, a, b) <==> (x == a && b in rest) || Ahead(rest, a, b)
  {
    var all := [x] + rest;
    if i, j :| 0 <= i < j < |all| && all[i] == a && all[j] == b {
      assert all[j] == rest[j - 1];
      assert i > 0 ==> all[i] == rest[i - 1];
    }
    if b in rest {
      var j :| 0 <= j < |rest| && rest[j] == b;
      assert all[0] == x && all[j + 1] == b;
    }
    if i, j :| 0 <= i < j < |rest| && rest[i] == a && rest[j] == b {
      assert all[i + 1] == a && all[j + 1] == b;
    }
  }

  lemma {:induction false} WithoutAhead(order: seq<nat>, fileId: nat, a: nat, b: nat)
    ensures Ahead(Without(order, fileId), a, b) <==> Ahead(order, a, b) && a != fileId && b != fileId
  {
    hide Ahead;
    if order == [] {
      NoneAhead(a, b);
    } else {
      var x, rest := order[0], order[1..];
      assert order == [x] + rest;
      AheadFirst(x, rest, a, b);
      AheadFirst(x, Without(rest, fileId), a, b);
      WithoutMembers(rest, fileId);
      WithoutAhead(rest, fileId, a, b);
      assert Without(order, fileId) == if x == fileId then Without(rest, fileId) else [x] + Without(rest, fileId);
      assert b in Without(rest, fileId) <==> b in rest && b != fileId;
    }
  }

  lemma NoneAhead(a: nat, b: nat)
    ensures !Ahead([], a, b)
  {
  }

  lemma {:induction false} WithoutCounts(order: seq<nat>, fileId: nat)
    ensures multiset(Without(order, fileId)) == multiset(order)[fileId := 0]
  {
    if order != [] {
      assert order == [order[0]] + order[1..];
      WithoutCounts(order[1..], fileId);
    }
  }

  lemma {:induction false} WithoutMembers(order: seq<nat>, fileId: nat)
    ensures forall f :: f in Without(order, fileId) <==> f in order && f != fileId
    ensures |Without(order, fileId)| <= |order|
    ensures fileId in order ==> |Without(order, fileId)| < |order|
  {
    if order != [] {
      assert order == [order[0]] + order[1..];
      WithoutMembers(order[1..], fileId);
    }
  }

  lemma {:induction false} WithoutNoDuplicates(order: seq<nat>, fileId: nat)
    requires NoDuplicates(order)
    ensures NoDuplicates(Without(order, fileId))
  {
    if order != [] {
      WithoutNoDuplicates(order[1..], fileId);
      WithoutMembers(order[1..], fileId);
      assert order[0] !in order[1..];
    }
  }

  /** Opening keeps the order free of duplicates and inside the cap, closes at
      most one file, and never the one just opened. */
  lemma OpenedBounds(order: seq<nat>, fileId: nat, cap: nat)
    requires NoDuplicates(order) && |order| <= cap && cap >= 1
    ensures Over(|Pushed(order, fileId)|, cap) <= 1
    ensures var pushed := Pushed(order, fileId);
            var over := Over(|pushed|, cap);
            && NoDuplicates(pushed[over..])
            && |pushed[over..]| <= cap
            && fileId in pushed[over..] && fileId !in pushed[..over]
    ensures var pushed := Pushed(order, fileId);
            var over := Over(|pushed|, cap);
            forall f :: f in pushed[over..] <==> (f in order || f == fileId) && f !in pushed[..over]
    ensures fileId in order ==> Over(|Pushed(order, fileId)|, cap) == 0
  {
    WithoutMembers(order, fileId);
    WithoutNoDuplicates(order, fileId);
    var rest := Without(order, fileId);
    var pushed := rest + [fileId];
    var over := Over(|pushed|, cap);
    assert NoDuplicates(pushed);
    assert forall f :: f in pushed <==> f in order || f == fileId;
    assert pushed[over..][|pushed| - over - 1] == fileId;
    if over > 0 {
      assert pushed == [pushed[0]] + pushed[1..] && pushed[..over] == [pushed[0]];
      assert pushed[0] !in pushed[1..];
      assert over == 1;
      assert forall f :: f in pushed[over..] <==> f in pushed && f !in pushed[..over];
    } else {
      assert pushed[over..] == pushed && pushed[..over] == [];
    }
  }

  /** What opening a file closes: nothing while there is room, and otherwise
      the file opened longest ago. */
  lemma OpenedCloses(order: seq<nat>, fileId: nat, cap: nat)
    requires NoDuplicates(order) && |order| <= cap && cap >= 1
    ensures var pushed := Pushed(order, fileId);
            var over := Over(|pushed|, cap);
            && pushed[..over] == (if fileId in order || |order| < cap then [] else [order[0]])
            && (forall v, f | v in pushed[..over] && f in pushed[over..] && f != fileId :: Ahead(order, v, f))
            && pushed[|pushed| - 1] == fileId
            && (forall a, b | a != fileId && b != fileId :: Ahead(pushed, a, b) <==> Ahead(order, a, b))
  {
    WithoutCount(order, fileId);
    var rest := Without(order, fileId);
    var pushed := rest + [fileId];
    var over := Over(|pushed|, cap);
    forall a, b | a != fileId && b != fileId
      ensures Ahead(pushed, a, b) <==> Ahead(order, a, b)
    {
      WithoutAhead(order, fileId, a, b);
      AheadLast(rest, fileId, a, b);
    }
    if over > 0 {
      assert pushed[..over] == [order[0]];
      forall f | f in pushed[over..] && f != fileId
        ensures Ahead(order, order[0], f)
      {
        var k :| over <= k < |pushed| && pushed[k] == f;
        assert order[0] == order[0] && order[k] == f && 0 < k;
      }
    }
  }

  lemma {:induction false} WithoutCount(order: seq<nat>, fileId: nat)
    requires NoDuplicates(order)
    ensures if fileId in order then |Without(order, fileId)| == |order| - 1 else Without(order, fileId) == order
  {
    if order != [] {
      var rest := order[1..];
      assert order == [order[0]] + rest;
      forall i, j | 0 <= i < j < |rest|
        ensures rest[i] != rest[j]
      {
        assert order[i + 1] != order[j + 1];
      }
      WithoutCount(rest, fileId);
      if order[0] == fileId {
        forall i | 0 <= i < |rest|
          ensures rest[i] != fileId
        {
          assert order[0] != order[i + 1];
        }
      }
    }
  }

  lemma AheadLast(rest: seq<nat>, last: nat, a: nat, b: nat)
    requires b != last
    ensures Ahead(rest + [last], a, b) <==> Ahead(rest, a, b)
  {
    var all := rest + [last];
    if i, j :| 0 <= i < j < |all| && all[i] == a && all[j] == b {
      assert rest[i] == a && rest[j] == b;
    }
    if i, j :| 0 <= i < j < |rest| && rest[i] == a && rest[j] == b {
      assert all[i] == a && all[j] == b;
    }
  }
}
