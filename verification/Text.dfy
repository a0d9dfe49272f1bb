/** Cutting text at a character, and numbers as text. */
module Text {
  import opened PathText

  datatype Halves = Uncut | Halves(left: string, right: string)

  /** The text before the first occurrence of a character, and after it. */
  function SplitOnce(s: string, c: char): (h: Halves)
    ensures h.Uncut? <==> c !in s
    ensures h.Halves? ==> c !in h.left && s == h.left + [c] + h.right
  {
    if s == "" then Uncut
    else if s[0] == c then Halves("", s[1..])
    else
      var h := SplitOnce(s[1..], c);
      if h.Uncut? then Uncut
      else
        assert s == [s[0]] + s[1..];
        Halves([s[0]] + h.left, h.right)
  }

  /** Joined halves are cut where they were joined. */
  lemma {:induction false} SplitOnceJoin(left: string, c: char, right: string)
    requires c !in left
    ensures SplitOnce(left + [c] + right, c) == Halves(left, right)
  {
    if left != "" {
      assert (left + [c] + right)[1..] == left[1..] + [c] + right;
      SplitOnceJoin(left[1..], c, right);
    } else {
      assert (left + [c] + right)[1..] == right;
    }
  }

  datatype Rest = NoMatch | Rest(text: string)

  function StripPrefix(s: string, prefix: string): Rest {
    if prefix <= s then Rest(s[|prefix|..]) else NoMatch
  }

  lemma StripPrefixJoin(prefix: string, rest: string)
    ensures StripPrefix(prefix + rest, prefix) == Rest(rest)
  {
  }

  // --- Numbers ------------------------------------------------------------------------

  const U16_MAX: nat := 0xFFFF
  const U32_MAX: nat := 0xFFFF_FFFF
  const U64_MAX: nat := 0xFFFF_FFFF_FFFF_FFFF
  const I64_MAX: nat := 0x7FFF_FFFF_FFFF_FFFF

  datatype Parsed = Bad | Number(value: int)

  predicate AllDigits(s: string) {
    forall c <- s :: '0' <= c <= '9'
  }

  function Digits(s: string, max: nat): Parsed {
    if s == "" || !AllDigits(s) || ValueOf(s) > max then Bad else Number(ValueOf(s))
  }

  /** An unsigned integer no larger than `max`. A leading plus is accepted. */
  function ParseUnsigned(s: string, max: nat): (n: Parsed)
    ensures n.Number? ==> 0 <= n.value <= max
  {
    if s != "" && s[0] == '+' then Digits(s[1..], max) else Digits(s, max)
  }

  /** A signed integer from `-max - 1` to `max`. */
  function ParseSigned(s: string, max: nat): (n: Parsed)
    ensures n.Number? ==> -1 - max <= n.value <= max
  {
    if s != "" && s[0] == '-' then
      var n := Digits(s[1..], max + 1);
      if n.Bad? then Bad else Number(-n.value)
    else ParseUnsigned(s, max)
  }

  function SignedText(n: int): (s: string)
    ensures s != "" && forall c <- s :: c == '-' || '0' <= c <= '9'
  {
    if n < 0 then "-" + Decimal(-n) else Decimal(n)
  }

  lemma DecimalDigits(n: nat, max: nat)
    ensures Digits(Decimal(n), max) == if n <= max then Number(n) else Bad
    ensures Decimal(n)[0] != '+' && Decimal(n)[0] != '-'
  {
    DecimalValue(n);
    assert Decimal(n)[0] in Decimal(n);
  }

  /** A number reads back from its text when it fits, and not otherwise. */
  lemma ParseDecimal(n: nat, max: nat)
    ensures ParseUnsigned(Decimal(n), max) == if n <= max then Number(n) else Bad
  {
    hide Decimal, Digits;
    DecimalDigits(n, max);
  }

  lemma ParseSignedText(n: int, max: nat)
    ensures ParseSigned(SignedText(n), max) == if -1 - max <= n <= max then Number(n) else Bad
  {
    hide Decimal, Digits;
    if n < 0 {
      DecimalDigits(-n, max + 1);
      assert SignedText(n)[1..] == Decimal(-n);
    } else {
      DecimalDigits(n, max);
    }
  }

  /** The digits of a number, after the plus there may be. */
  function Unsigned(s: string): string {
    if s != "" && s[0] == '+' then s[1..] else s
  }

  /** Exactly what is a number: one digit or more, and nothing else. */
  lemma UnsignedIff(s: string, max: nat)
    ensures var digits := Unsigned(s);
            ParseUnsigned(s, max) ==
              if digits != "" && (forall c <- digits :: '0' <= c <= '9') && ValueOf(digits) <= max
              then Number(ValueOf(digits)) else Bad
  {
    hide ValueOf;
  }
}
