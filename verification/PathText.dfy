/** Path text: characters with the bytes they take, and the splitting, joining
    and cutting that planning a path needs. */
module PathText {

  /** Bytes a character takes in UTF-8. */
  function Width(c: char): (w: nat)
    ensures 1 <= w <= 4
  {
    var n := c as int;
    if n < 0x80 then 1 else if n < 0x800 then 2 else if n < 0x10000 then 3 else 4
  }

  function Bytes(s: string): nat {
    if s == "" then 0 else Width(s[0]) + Bytes(s[1..])
  }

  lemma {:induction false} BytesAppend(a: string, b: string)
    ensures Bytes(a + b) == Bytes(a) + Bytes(b)
  {
    if a == "" {
      assert a + b == b;
    } else {
      assert (a + b)[1..] == a[1..] + b;
      BytesAppend(a[1..], b);
    }
  }

  lemma {:induction false} BytesBounds(s: string)
    ensures |s| <= Bytes(s) <= 4 * |s|
  {
    if s != "" {
      BytesBounds(s[1..]);
    }
  }

  // --- Splitting and joining on the separator --------------------------------

  function Split(s: string): (parts: seq<string>)
    ensures |parts| > 0
    ensures forall p <- parts :: '/' !in p
  {
    if s == "" then [""]
    else
      var rest := Split(s[1..]);
      if s[0] == '/' then [""] + rest
      else [[s[0]] + rest[0]] + rest[1..]
  }

  function Join(parts: seq<string>): string {
    if parts == [] then ""
    else if |parts| == 1 then parts[0]
    else parts[0] + "/" + Join(parts[1..])
  }

  lemma {:induction false} SplitPrefix(p: string, s: string)
    requires '/' !in p
    ensures Split(p + s) == [p + Split(s)[0]] + Split(s)[1..]
  {
    if p == "" {
      assert p + s == s && p + Split(s)[0] == Split(s)[0];
    } else {
      assert (p + s)[1..] == p[1..] + s && p[0] in p;
      SplitPrefix(p[1..], s);
      assert [p[0]] + (p[1..] + Split(s)[0]) == p + Split(s)[0];
    }
  }

  /** Parts free of separators come back from the joined path. */
  lemma {:induction false} SplitJoin(parts: seq<string>)
    requires parts != [] && forall p <- parts :: '/' !in p
    ensures Split(Join(parts)) == parts
  {
    assert '/' !in parts[0];
    if |parts| == 1 {
      SplitPrefix(parts[0], "");
      assert parts[0] + "" == parts[0] && parts == [parts[0]];
      assert Split("") == [""];
      assert Split(parts[0]) == [parts[0] + ""] + [];
    } else {
      var tail := "/" + Join(parts[1..]);
      SplitJoin(parts[1..]);
      assert tail[1..] == Join(parts[1..]);
      assert Split(tail) == [""] + parts[1..];
      assert Join(parts) == parts[0] + tail;
      SplitPrefix(parts[0], tail);
      assert Split(tail)[1..] == parts[1..] && parts[0] + "" == parts[0];
      assert [parts[0]] + parts[1..] == parts;
    }
  }

  lemma {:induction false} JoinSplit(s: string)
    ensures Join(Split(s)) == s
  {
    if s != "" {
      JoinSplit(s[1..]);
      var rest := Split(s[1..]);
      if s[0] == '/' {
        assert ([""] + rest)[1..] == rest;
        assert Join(Split(s)) == "" + "/" + Join(rest);
      } else {
        var parts := [[s[0]] + rest[0]] + rest[1..];
        assert parts[1..] == rest[1..];
        if |rest| == 1 {
          assert Join(rest) == rest[0];
        } else {
          assert Join(parts) == ([s[0]] + rest[0]) + "/" + Join(rest[1..]);
          assert Join(rest) == rest[0] + "/" + Join(rest[1..]);
        }
        assert Join(parts) == [s[0]] + Join(rest);
      }
    }
  }

  lemma JoinInjective(a: seq<string>, b: seq<string>)
    requires a != [] && b != [] && Join(a) == Join(b)
    requires (forall p <- a :: '/' !in p) && forall p <- b :: '/' !in p
    ensures a == b
  {
    SplitJoin(a);
    SplitJoin(b);
  }

  // --- Cutting to a number of bytes --------------------------------------------

  /** The longest prefix that takes at most `limit` bytes. */
  function Cut(text: string, limit: nat): string {
    if text == "" || Width(text[0]) > limit then ""
    else [text[0]] + Cut(text[1..], limit - Width(text[0]))
  }

  /** Whether a byte position falls between two characters, and after how many. */
  function CharsAt(text: string, at: nat): (n: int)
    ensures n >= 0 <==> exists k :: 0 <= k <= |text| && Bytes(text[..k]) == at
    ensures n >= 0 ==> n <= |text| && Bytes(text[..n]) == at
    ensures n >= -1
  {
    if at == 0 then
      assert text[..0] == "";
      0
    else if text == "" then
      assert forall k :: 0 <= k <= |text| ==> text[..k] == "";
      -1
    else if Width(text[0]) > at then
      assert forall k | 0 < k <= |text| :: Bytes(text[..k]) > at by {
        forall k | 0 < k <= |text|
          ensures Bytes(text[..k]) > at
        {
          assert text[..k][0] == text[0];
        }
      }
      assert text[..0] == "";
      -1
    else
      var n := CharsAt(text[1..], at - Width(text[0]));
      CharsAtShift(text, at);
      if n >= 0 then n + 1 else -1
  }

  lemma CharsAtShift(text: string, at: nat)
    requires text != "" && 0 < at && Width(text[0]) <= at
    ensures forall k | 0 <= k < |text| :: text[..k + 1][1..] == text[1..][..k]
    ensures forall k | 0 < k <= |text| :: Bytes(text[..k]) == Width(text[0]) + Bytes(text[1..][..k - 1])
    ensures Bytes(text[..0]) == 0
  {
    forall k | 0 < k <= |text|
      ensures Bytes(text[..k]) == Width(text[0]) + Bytes(text[1..][..k - 1])
    {
      assert text[..k][0] == text[0] && text[..k][1..] == text[1..][..k - 1];
    }
  }

  /** A cut is a prefix, fits, and is as long as it can be. */
  lemma {:induction false} CutLongest(text: string, limit: nat)
    ensures Cut(text, limit) <= text && Bytes(Cut(text, limit)) <= limit
    ensures forall k | 0 <= k <= |text| && Bytes(text[..k]) <= limit :: k <= |Cut(text, limit)|
    ensures Bytes(text) <= limit ==> Cut(text, limit) == text
    ensures Bytes(text) > limit ==> Bytes(Cut(text, limit)) + 3 >= limit
  {
    if text == "" {
    } else if Width(text[0]) > limit {
      forall k | 0 < k <= |text|
        ensures Bytes(text[..k]) > limit
      {
        assert text[..k][0] == text[0];
      }
    } else {
      var rest := text[1..];
      CutLongest(rest, limit - Width(text[0]));
      assert Cut(text, limit)[1..] == Cut(rest, limit - Width(text[0]));
      forall k | 0 < k <= |text| && Bytes(text[..k]) <= limit
        ensures k <= |Cut(text, limit)|
      {
        assert text[..k][0] == text[0] && text[..k][1..] == rest[..k - 1];
      }
    }
  }

  /** Walk back from the limit to the nearest character boundary. */
  method CutAt(text: string, limit: nat) returns (r: string)
    ensures r == Cut(text, limit)
  {
    CutLongest(text, limit);
    if Bytes(text) <= limit {
      return text;
    }
    var cut := limit;
    while cut > 0 && CharsAt(text, cut) < 0
      invariant Bytes(Cut(text, limit)) <= cut <= limit
    {
      var prefix := |Cut(text, limit)|;
      assert text[..prefix] == Cut(text, limit);
      cut := cut - 1;
    }
    var n := CharsAt(text, cut);
    assert CharsAt(text, 0) >= 0 by { assert text[..0] == ""; }
    r := text[..n];
    assert text[..|Cut(text, limit)|] == Cut(text, limit);
    PrefixOrder(text, |Cut(text, limit)|, n);
  }

  lemma PrefixBytes(text: string, n: int, m: int)
    requires 0 <= n <= m <= |text|
    ensures Bytes(text[..n]) + (m - n) <= Bytes(text[..m])
  {
    assert text[..m] == text[..n] + text[n..m];
    BytesAppend(text[..n], text[n..m]);
    BytesBounds(text[n..m]);
  }

  lemma PrefixOrder(text: string, n: int, m: int)
    requires 0 <= n <= |text| && 0 <= m <= |text|
    ensures Bytes(text[..n]) <= Bytes(text[..m]) <==> n <= m
  {
    if n <= m {
      PrefixBytes(text, n, m);
    } else {
      PrefixBytes(text, m, n);
    }
  }

  // --- Decimal numbers -----------------------------------------------------------

  function Digit(d: nat): char
    requires d < 10
  {
    "0123456789"[d]
  }

  function Decimal(n: nat): (s: string)
    ensures s != ""
    ensures forall c <- s :: 0x30 <= c as int <= 0x39
  {
    if n < 10 then [Digit(n)] else Decimal(n / 10) + [Digit(n % 10)]
  }

  function ValueOf(s: string): nat {
    if s == "" then 0
    else 10 * ValueOf(s[..|s| - 1]) + if '0' <= s[|s| - 1] <= '9' then s[|s| - 1] as int - '0' as int else 0
  }

  lemma {:induction false} DecimalValue(n: nat)
    ensures ValueOf(Decimal(n)) == n
  {
    if n >= 10 {
      DecimalValue(n / 10);
      assert Decimal(n)[..|Decimal(n)| - 1] == Decimal(n / 10);
    } else {
      assert Decimal(n)[..0] == "";
    }
  }

  lemma DecimalInjective(a: nat, b: nat)
    requires Decimal(a) == Decimal(b)
    ensures a == b
  {
    DecimalValue(a);
    DecimalValue(b);
  }

  /** A 32-bit counter takes at most ten digits, a byte each. */
  lemma DecimalShort(n: nat)
    requires n <= 0xFFFF_FFFF
    ensures |Decimal(n)| <= 10 && Bytes(Decimal(n)) == |Decimal(n)|
  {
    assert Pow10(2) == 100;
    assert Pow10(4) == 100 * Pow10(2);
    assert Pow10(6) == 100 * Pow10(4);
    assert Pow10(8) == 100 * Pow10(6);
    assert Pow10(10) == 100 * Pow10(8);
    DigitsBound(n, 10);
    assert forall i | 0 <= i < |Decimal(n)| :: Decimal(n)[i] in Decimal(n);
    PlainBytes(Decimal(n));
  }

  function Pow10(k: nat): nat {
    if k == 0 then 1 else 10 * Pow10(k - 1)
  }

  lemma {:induction false} DigitsBound(n: nat, k: nat)
    requires 1 <= k && n < Pow10(k)
    ensures |Decimal(n)| <= k
  {
    assert Pow10(k) == 10 * Pow10(k - 1);
    if n >= 10 {
      assert Pow10(0) == 1;
      assert k != 1;
      DigitsBound(n / 10, k - 1);
    }
  }

  lemma {:induction false} PlainBytes(s: string)
    requires forall i | 0 <= i < |s| :: s[i] as int < 0x80
    ensures Bytes(s) == |s|
  {
    if s != "" {
      assert s[0] as int < 0x80;
      PlainBytes(s[1..]);
    }
  }
}
