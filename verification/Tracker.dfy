/** Announcing to a tracker: the query string and the datagram the client
    writes, and the decoders a tracker reads them with. Query text is taken one
    character a byte. */
module Tracker {
  import opened Device
  import opened PathText
  import opened Text

  // --- Percent encoding -------------------------------------------------------------

  predicate Unreserved(c: char) {
    'A' <= c <= 'Z' || 'a' <= c <= 'z' || '0' <= c <= '9' || c == '-' || c == '_' || c == '.' || c == '~'
  }

  function HexDigit(d: nat): (c: char)
    requires d < 16
    ensures '0' <= c <= '9' || 'A' <= c <= 'F'
  {
    if d < 10 then '0' + d as char else 'A' + (d - 10) as char
  }

  function EncodedByte(b: byte): (s: string)
    ensures s != ""
  {
    var c := b as int as char;
    if Unreserved(c) then [c] else ['%', HexDigit(b as int / 16), HexDigit(b as int % 16)]
  }

  function PercentEncoded(bytes: seq<byte>): string {
    if bytes == [] then "" else EncodedByte(bytes[0]) + PercentEncoded(bytes[1..])
  }

  method PercentEncode(bytes: seq<byte>) returns (out: string)
    ensures out == PercentEncoded(bytes)
  {
    hide EncodedByte;
    out := "";
    for i := 0 to |bytes|
      invariant PercentEncoded(bytes) == out + PercentEncoded(bytes[i..])
    {
      assert bytes[i..][0] == bytes[i] && bytes[i..][1..] == bytes[i + 1..];
      out := out + EncodedByte(bytes[i]);
    }
  }

  /** What a character of query text is as a byte. */
  function Code(c: char): byte {
    (c as int % 256) as byte
  }

  datatype Nibble = NotHex | Nibble(value: nat)

  function HexValue(c: char): (n: Nibble)
    ensures n.Nibble? ==> n.value < 16
  {
    if '0' <= c <= '9' then Nibble(c as int - '0' as int)
    else if 'a' <= c <= 'f' then Nibble(c as int - 'a' as int + 10)
    else if 'A' <= c <= 'F' then Nibble(c as int - 'A' as int + 10)
    else NotHex
  }

  /** Two characters as a number in base 16; the first may be a plus. */
  function RadixByte(high: char, low: char): (n: Nibble)
    ensures n.Nibble? ==> n.value < 256
  {
    var h, l := HexValue(high), HexValue(low);
    if l.NotHex? then NotHex
    else if high == '+' then l
    else if h.NotHex? then NotHex
    else Nibble(h.value * 16 + l.value)
  }

  function Escaped(high: char, low: char): byte {
    var n := RadixByte(high, low);
    if n.Nibble? then n.value as byte else Code('%')
  }

  function PercentDecoded(text: string): seq<byte>
    decreases |text|
  {
    if text == "" then []
    else if text[0] == '%' && |text| > 2 then [Escaped(text[1], text[2])] + PercentDecoded(text[3..])
    else if text[0] == '+' then [Code(' ')] + PercentDecoded(text[1..])
    else [Code(text[0])] + PercentDecoded(text[1..])
  }

  lemma DecodeNext(text: string, i: nat)
    requires i < |text|
    ensures PercentDecoded(text[i..]) ==
            if text[i] == '%' && i + 2 < |text| then [Escaped(text[i + 1], text[i + 2])] + PercentDecoded(text[i + 3..])
            else [if text[i] == '+' then Code(' ') else Code(text[i])] + PercentDecoded(text[i + 1..])
  {
    hide Escaped, Code;
    var rest := text[i..];
    assert rest[1..] == text[i + 1..];
    if i + 2 < |text| {
      assert rest[3..] == text[i + 3..];
    }
  }

  predicate HexChar(c: char) {
    '0' <= c <= '9' || 'a' <= c <= 'f' || 'A' <= c <= 'F'
  }

  function HexCharValue(c: char): (d: nat)
    requires HexChar(c)
    ensures d < 16
  {
    if c <= '9' then c as int - '0' as int
    else if c <= 'F' then c as int - 'A' as int + 10
    else c as int - 'a' as int + 10
  }

  /** Whether an escape stands at the front of the text. */
  predicate EscapeFirst(text: string) {
    |text| >= 3 && text[0] == '%'
  }

  /** The byte the front of a text stands for: a plus is a space, an escape of
      two digits of base 16 the byte they spell, an escape that is none a
      percent sign for its three characters, and anything else itself. A plus
      may stand for the first of the two digits. */
  function FrontByte(text: string): (n: nat)
    requires text != "" && text[0] as int < 256
    ensures n < 256
  {
    if EscapeFirst(text) then
      if !HexChar(text[2]) then 37
      else if HexChar(text[1]) then 16 * HexCharValue(text[1]) + HexCharValue(text[2])
      else if text[1] == '+' then HexCharValue(text[2])
      else 37
    else if text[0] == '+' then 32
    else text[0] as int
  }

  /** The rules of decoding, one front at a time. */
  lemma DecodeIs(text: string)
    requires text != "" && text[0] as int < 256
    ensures PercentDecoded(text) ==
            [FrontByte(text) as byte] + PercentDecoded(text[if EscapeFirst(text) then 3 else 1..])
  {
    hide Escaped, Code, PercentDecoded, HexChar;
    DecodeNext(text, 0);
    assert text[0..] == text;
    CodeIs(text[0]);
    CodeIs(' ');
    if EscapeFirst(text) {
      EscapedIs(text[1], text[2]);
    }
  }

  lemma CodeIs(c: char)
    requires c as int < 256
    ensures Code(c) as int == c as int
  {
  }

  lemma EscapedIs(high: char, low: char)
    ensures Escaped(high, low) as int ==
            if HexChar(low) && HexChar(high) then 16 * HexCharValue(high) + HexCharValue(low)
            else if HexChar(low) && high == '+' then HexCharValue(low)
            else 37
  {
    NibbleIs(high);
    NibbleIs(low);
    CodeIs('%');
    hide HexValue;
  }

  lemma NibbleIs(c: char)
    ensures HexValue(c) == if HexChar(c) then Nibble(HexCharValue(c)) else NotHex
  {
  }

  /** A byte inside a character of UTF-8. No slice of text starts or ends
      there. */
  predicate Continues(c: char) {
    0x80 <= c as int < 0xC0
  }

  /** Some escape the decoder comes to is sliced inside a character. */
  predicate Panics(text: string)
    decreases |text|
  {
    if text == "" then false
    else if text[0] == '%' && |text| > 2 then
      Continues(text[1]) || (|text| > 3 && Continues(text[3])) || Panics(text[3..])
    else Panics(text[1..])
  }

  lemma PanicsNext(text: string, i: nat)
    requires i < |text|
    ensures Panics(text[i..]) ==
            if text[i] == '%' && i + 2 < |text|
            then Continues(text[i + 1]) || (i + 3 < |text| && Continues(text[i + 3])) || Panics(text[i + 3..])
            else Panics(text[i + 1..])
  {
    hide Continues;
    var rest := text[i..];
    assert rest[1..] == text[i + 1..];
    if i + 2 < |text| {
      assert rest[3..] == text[i + 3..];
    }
  }

  datatype Decoding = Panicked | Decoded(bytes: seq<byte>)

  method PercentDecode(text: string) returns (r: Decoding)
    ensures r == if Panics(text) then Panicked else Decoded(PercentDecoded(text))
  {
    hide Escaped, Code, PercentDecoded, Continues, Panics;
    var out: seq<byte> := [];
    var i := 0;
    assert text[0..] == text;
    while i < |text|
      invariant 0 <= i <= |text|
      invariant PercentDecoded(text) == out + PercentDecoded(text[i..]) && Panics(text) == Panics(text[i..])
    {
      DecodeNext(text, i);
      PanicsNext(text, i);
      if text[i] == '%' && i + 2 < |text| {
        if Continues(text[i + 1]) || (i + 3 < |text| && Continues(text[i + 3])) {
          return Panicked;
        }
        out := out + [Escaped(text[i + 1], text[i + 2])];
        i := i + 3;
      } else if text[i] == '+' {
        out := out + [Code(' ')];
        i := i + 1;
      } else {
        out := out + [Code(text[i])];
        i := i + 1;
      }
    }
    NothingLeft(text);
    r := Decoded(out);
  }

  /** The decoder comes to an escape at the position: a percent sign with two
      bytes behind it that no earlier escape took for its own. */
  predicate EscapeAt(text: string, k: nat)
    decreases |text|
  {
    if text == "" then false
    else if text[0] == '%' && |text| > 2 then k == 0 || (k >= 3 && EscapeAt(text[3..], k - 3))
    else k >= 1 && EscapeAt(text[1..], k - 1)
  }

  /** The two bytes behind the position start or end inside a character. */
  predicate Cuts(text: string, k: nat) {
    k + 2 < |text| && (Continues(text[k + 1]) || (k + 3 < |text| && Continues(text[k + 3])))
  }

  /** Decoding panics exactly when an escape it comes to cuts a character. */
  lemma {:induction false} PanicsIff(text: string)
    ensures Panics(text) <==> exists k: nat :: EscapeAt(text, k) && Cuts(text, k)
    decreases |text|
  {
    hide Continues;
    if text != "" {
      var n := if text[0] == '%' && |text| > 2 then 3 else 1;
      var rest := text[n..];
      PanicsIff(rest);
      if k: nat :| EscapeAt(rest, k) && Cuts(rest, k) {
        assert EscapeAt(text, k + n) && Cuts(text, k + n);
      }
      if k: nat :| EscapeAt(text, k) && Cuts(text, k) && k > 0 {
        assert EscapeAt(rest, k - n) && Cuts(rest, k - n);
      }
      if n == 3 {
        assert EscapeAt(text, 0);
        assert Cuts(text, 0) <==> Continues(text[1]) || (|text| > 3 && Continues(text[3]));
      }
    }
  }

  /** A percent sign, a letter and a two-byte character are enough. */
  lemma EscapeCutsCharacter()
    ensures Panics("%a" + [0xC3 as char, 0xA9 as char])
  {
  }

  lemma {:induction false} WholeNeverPanics(text: string)
    requires forall c <- text :: !Continues(c)
    ensures !Panics(text)
    decreases |text|
  {
    hide Continues;
    if text != "" {
      WholeNeverPanics(text[if text[0] == '%' && |text| > 2 then 3 else 1..]);
    }
  }

  lemma NothingLeft(text: string)
    ensures PercentDecoded(text[|text|..]) == [] && !Panics(text[|text|..])
  {
  }

  lemma ByteRoundTrip(b: byte, rest: string)
    ensures PercentDecoded(EncodedByte(b) + rest) == [b] + PercentDecoded(rest)
  {
    hide HexDigit, RadixByte;
    var n := b as int;
    var text := EncodedByte(b) + rest;
    if Unreserved(n as char) {
      assert text[0] == n as char && text[1..] == rest;
    } else {
      HexRoundTrip(n / 16, n % 16);
      assert text[1] == HexDigit(n / 16) && text[2] == HexDigit(n % 16) && text[3..] == rest;
    }
  }

  lemma HexRoundTrip(high: nat, low: nat)
    requires high < 16 && low < 16
    ensures RadixByte(HexDigit(high), HexDigit(low)) == Nibble(high * 16 + low)
  {
  }

  /** Decoding undoes encoding for every byte string, whatever follows. */
  lemma {:induction false} DecodeEncoded(bytes: seq<byte>, rest: string)
    ensures PercentDecoded(PercentEncoded(bytes) + rest) == bytes + PercentDecoded(rest)
  {
    hide EncodedByte, PercentDecoded;
    if bytes == [] {
      assert "" + rest == rest;
    } else {
      var tail := PercentEncoded(bytes[1..]) + rest;
      assert PercentEncoded(bytes) + rest == EncodedByte(bytes[0]) + tail;
      ByteRoundTrip(bytes[0], tail);
      DecodeEncoded(bytes[1..], rest);
    }
  }

  /** What RFC 3986, section 2.3, leaves as it is, and what becomes of a byte
      that is something else: a percent sign and two digits of base 16, upper
      case. */
  lemma EncodedByteIs(b: byte)
    ensures var c, text := b as int as char, EncodedByte(b);
            if 'A' <= c <= 'Z' || 'a' <= c <= 'z' || '0' <= c <= '9' || c == '-' || c == '.' || c == '_' || c == '~'
            then text == [c]
            else |text| == 3 && text[0] == '%'
                 && text[1] == "0123456789ABCDEF"[b as int / 16] && text[2] == "0123456789ABCDEF"[b as int % 16]
  {
    DigitIs(b as int / 16);
    DigitIs(b as int % 16);
  }

  lemma DigitIs(d: nat)
    requires d < 16
    ensures HexDigit(d) == "0123456789ABCDEF"[d]
  {
  }

  /** Only unreserved characters and the escapes of RFC 3986, section 2.1. */
  predicate QueryChar(c: char) {
    Unreserved(c) || c == '%'
  }

  lemma {:induction false} EncodedPlain(bytes: seq<byte>)
    ensures forall c <- PercentEncoded(bytes) :: QueryChar(c)
  {
    if bytes != [] {
      EncodedPlain(bytes[1..]);
    }
  }

  // --- The query string -----------------------------------------------------------------

  datatype Event = NoEvent | Started | Stopped | Completed

  datatype Left = Unknown | Known(bytes: nat)

  datatype Announce = Announce(infoHash: seq<byte>, peerId: seq<byte>, port: nat, uploaded: nat, downloaded: nat,
                               left: Left, event: Event, numwant: nat, key: nat)

  const UNKNOWN_LEFT: nat := I64_MAX

  /** Every number fits its width. */
  predicate Sized(a: Announce) {
    && |a.infoHash| == 20 && |a.peerId| == 20 && a.port <= U16_MAX && a.uploaded <= U64_MAX
    && a.downloaded <= U64_MAX && (a.left.Known? ==> a.left.bytes <= U64_MAX) && a.numwant <= U32_MAX
    && a.key <= U32_MAX
  }

  function LeftSent(a: Announce): nat {
    if a.left.Known? then a.left.bytes else UNKNOWN_LEFT
  }

  function EventText(e: Event): string {
    match e
    case NoEvent => ""
    case Started => "started"
    case Stopped => "stopped"
    case Completed => "completed"
  }

  /** A number in lower-case base 16, padded to a width. */
  function Hex(n: nat, width: nat): (s: string)
    ensures |s| == width && forall c <- s :: Unreserved(c)
    decreases width
  {
    if width == 0 then ""
    else
      var d := n % 16;
      Hex(n / 16, width - 1) + [if d < 10 then '0' + d as char else 'a' + (d - 10) as char]
  }

  datatype Field = Field(key: string, value: string)

  function FieldText(f: Field): string {
    f.key + "=" + f.value
  }

  function FieldsText(fields: seq<Field>): string {
    if fields == [] then ""
    else if |fields| == 1 then FieldText(fields[0])
    else FieldsText(fields[..|fields| - 1]) + "&" + FieldText(fields[|fields| - 1])
  }

  function AlwaysSent(a: Announce): seq<Field> {
    [Field("info_hash", PercentEncoded(a.infoHash)), Field("peer_id", PercentEncoded(a.peerId)),
     Field("port", Decimal(a.port)), Field("uploaded", Decimal(a.uploaded)),
     Field("downloaded", Decimal(a.downloaded)), Field("left", Decimal(LeftSent(a))), Field("compact", "1"),
     Field("no_peer_id", "1"), Field("numwant", Decimal(a.numwant)), Field("key", Hex(a.key, 8))]
  }

  /** What an announce says, in the order it says it. */
  function Fields(a: Announce): seq<Field> {
    AlwaysSent(a) + if a.event.NoEvent? then [] else [Field("event", EventText(a.event))]
  }

  function Separator(url: string): string {
    if '?' in url then "&" else "?"
  }

  lemma FieldsAdd(fields: seq<Field>, f: Field)
    requires fields != []
    ensures FieldsText(fields + [f]) == FieldsText(fields) + "&" + FieldText(f)
  {
    assert (fields + [f])[..|fields|] == fields;
  }

  method AnnounceQuery(url: string, a: Announce) returns (query: string)
    ensures query == Separator(url) + FieldsText(Fields(a))
  {
    hide PercentEncoded, Decimal, Hex, FieldText, FieldsText;
    ghost var all := Fields(a);
    query := if '?' in url then "&" else "?";
    var infoHash := PercentEncode(a.infoHash);
    query := query + FieldText(Field("info_hash", infoHash));
    Start(all);
    var peerId := PercentEncode(a.peerId);
    query := Push(url, all, 1, query, "peer_id", peerId);
    query := Push(url, all, 2, query, "port", Decimal(a.port));
    query := Push(url, all, 3, query, "uploaded", Decimal(a.uploaded));
    query := Push(url, all, 4, query, "downloaded", Decimal(a.downloaded));
    query := Push(url, all, 5, query, "left", Decimal(LeftSent(a)));
    query := Push(url, all, 6, query, "compact", "1");
    query := Push(url, all, 7, query, "no_peer_id", "1");
    query := Push(url, all, 8, query, "numwant", Decimal(a.numwant));
    query := Push(url, all, 9, query, "key", Hex(a.key, 8));
    if a.event != NoEvent {
      query := Push(url, all, 10, query, "event", EventText(a.event));
    }
    assert all[..|all|] == all;
  }

  lemma Start(all: seq<Field>)
    requires all != []
    ensures FieldsText(all[..1]) == FieldText(all[0])
  {
  }

  method Push(ghost url: string, ghost all: seq<Field>, ghost n: nat, query: string, key: string, value: string)
    returns (out: string)
    requires 0 < n < |all| && all[n] == Field(key, value) && query == Separator(url) + FieldsText(all[..n])
    ensures out == Separator(url) + FieldsText(all[..n + 1])
  {
    FieldsAdd(all[..n], all[n]);
    assert all[..n + 1] == all[..n] + [all[n]];
    out := query + "&" + key + "=" + value;
  }

  // --- Reading the query ------------------------------------------------------------------

  function SplitAt(s: string, c: char): (parts: seq<string>)
    ensures parts != []
    decreases |s|
  {
    match SplitOnce(s, c)
    case Uncut => [s]
    case Halves(left, right) => [left] + SplitAt(right, c)
  }

  function KeyOf(pair: string): string {
    var h := SplitOnce(pair, '=');
    if h.Uncut? then pair else h.left
  }

  function ValueOfPair(pair: string): string {
    var h := SplitOnce(pair, '=');
    if h.Uncut? then "" else h.right
  }

  function Params(pairs: seq<string>): map<string, seq<byte>> {
    if pairs == [] then map[]
    else
      var before, pair := Params(pairs[..|pairs| - 1]), pairs[|pairs| - 1];
      if pair == "" then before else before[KeyOf(pair) := PercentDecoded(ValueOfPair(pair))]
  }

  predicate AnyPanics(pairs: seq<string>) {
    exists pair <- pairs :: pair != "" && Panics(ValueOfPair(pair))
  }

  datatype Reading = ReadPanicked | Read(params: map<string, seq<byte>>)

  /** Split a query string into raw byte values; a later key replaces an
      earlier one. */
  method ParseQuery(query: string) returns (r: Reading)
    ensures var pairs := SplitAt(query, '&');
            r == if AnyPanics(pairs) then ReadPanicked else Read(Params(pairs))
  {
    hide KeyOf, ValueOfPair, PercentDecoded, Panics;
    var pairs := SplitAt(query, '&');
    var out: map<string, seq<byte>> := map[];
    for i := 0 to |pairs|
      invariant out == Params(pairs[..i]) && !AnyPanics(pairs[..i])
    {
      assert pairs[..i + 1][..i] == pairs[..i];
      if pairs[i] != "" {
        var value := PercentDecode(ValueOfPair(pairs[i]));
        if value.Panicked? {
          return ReadPanicked;
        }
        out := out[KeyOf(pairs[i]) := value.bytes];
      }
    }
    assert pairs[..|pairs|] == pairs;
    r := Read(out);
  }

  /** The last pair with a key decides it. */
  lemma {:induction false} ParamsLast(pairs: seq<string>, i: nat)
    requires i < |pairs| && pairs[i] != ""
    requires forall j | i < j < |pairs| :: KeyOf(pairs[j]) != KeyOf(pairs[i])
    ensures KeyOf(pairs[i]) in Params(pairs)
    ensures Params(pairs)[KeyOf(pairs[i])] == PercentDecoded(ValueOfPair(pairs[i]))
    decreases |pairs|
  {
    hide KeyOf, ValueOfPair, PercentDecoded;
    if i + 1 < |pairs| {
      ParamsLast(pairs[..|pairs| - 1], i);
    }
  }

  lemma {:induction false} SplitAtJoin(a: string, c: char, b: string)
    ensures SplitAt(a + [c] + b, c) == SplitAt(a, c) + SplitAt(b, c)
    decreases |a|
  {
    hide SplitOnce;
    var h := SplitOnce(a, c);
    if h.Uncut? {
      SplitOnceJoin(a, c, b);
    } else {
      assert a + [c] + b == h.left + [c] + (h.right + [c] + b);
      SplitOnceJoin(h.left, c, h.right + [c] + b);
      SplitAtJoin(h.right, c, b);
    }
  }

  lemma SplitAtWhole(a: string, c: char)
    requires c !in a
    ensures SplitAt(a, c) == [a]
  {
  }

  function Texts(fields: seq<Field>): (t: seq<string>)
    ensures |t| == |fields| && forall i | 0 <= i < |t| :: t[i] == FieldText(fields[i])
  {
    seq(|fields|, i requires 0 <= i < |fields| => FieldText(fields[i]))
  }

  predicate Clean(f: Field) {
    '=' !in f.key && '&' !in f.key && '&' !in f.value
  }

  lemma {:induction false} SplitFields(fields: seq<Field>)
    requires fields != [] && forall f <- fields :: Clean(f)
    ensures SplitAt(FieldsText(fields), '&') == Texts(fields)
  {
    hide SplitAt;
    var head, last := fields[..|fields| - 1], fields[|fields| - 1];
    assert last in fields && '&' !in FieldText(last);
    SplitAtWhole(FieldText(last), '&');
    if |fields| == 1 {
      assert fields[0] == last;
    } else {
      SplitFields(head);
      SplitAtJoin(FieldsText(head), '&', FieldText(last));
      assert Texts(fields) == Texts(head) + [FieldText(last)];
    }
  }

  lemma FieldParts(f: Field)
    requires Clean(f)
    ensures FieldText(f) != "" && KeyOf(FieldText(f)) == f.key && ValueOfPair(FieldText(f)) == f.value
  {
    SplitOnceJoin(f.key, '=', f.value);
  }

  /** The query of the request that is sent: the text after the first question
      mark of the announce URL with the announce's own query added. */
  function Sent(url: string, fields: seq<Field>): string {
    var h := SplitOnce(url + Separator(url) + FieldsText(fields), '?');
    if h.Uncut? then "" else h.right
  }

  /** Whatever the announce URL's own query says, each field of the announce
      reads back under its key. */
  lemma FieldReads(url: string, fields: seq<Field>, i: nat)
    requires i < |fields| && forall f <- fields :: Clean(f)
    requires forall j, k | 0 <= j < k < |fields| :: fields[j].key != fields[k].key
    ensures var params := Params(SplitAt(Sent(url, fields), '&'));
            fields[i].key in params && params[fields[i].key] == PercentDecoded(fields[i].value)
  {
    hide SplitAt, KeyOf, ValueOfPair, PercentDecoded, FieldsText, FieldText, Params, OwnPairs, Sent, Texts;
    var before := SentPairs(url, fields);
    var pairs := before + Texts(fields);
    PairAt(before, fields, i);
    forall j | |before| + i < j < |pairs|
      ensures KeyOf(pairs[j]) != KeyOf(pairs[|before| + i])
    {
      PairAt(before, fields, j - |before|);
      assert fields[i].key != fields[j - |before|].key;
    }
    ParamsLast(pairs, |before| + i);
  }

  lemma PairAt(before: seq<string>, fields: seq<Field>, k: nat)
    requires k < |fields| && forall f <- fields :: Clean(f)
    ensures var pair := (before + Texts(fields))[|before| + k];
            pair != "" && KeyOf(pair) == fields[k].key && ValueOfPair(pair) == fields[k].value
  {
    hide KeyOf, ValueOfPair, FieldText;
    assert fields[k] in fields;
    FieldParts(fields[k]);
  }

  /** The pairs of the announce URL's own query. */
  function OwnPairs(url: string): seq<string> {
    var h := SplitOnce(url, '?');
    if h.Uncut? then [] else SplitAt(h.right, '&')
  }

  lemma SentPairs(url: string, fields: seq<Field>) returns (before: seq<string>)
    requires fields != [] && forall f <- fields :: Clean(f)
    ensures before == OwnPairs(url) && SplitAt(Sent(url, fields), '&') == before + Texts(fields)
  {
    hide SplitAt, FieldsText;
    SplitFields(fields);
    var text := FieldsText(fields);
    var h := SplitOnce(url, '?');
    if h.Uncut? {
      SplitOnceJoin(url, '?', text);
      before := [];
      assert before + Texts(fields) == Texts(fields);
    } else {
      assert url + "&" + text == h.left + "?" + (h.right + "&" + text);
      SplitOnceJoin(h.left, '?', h.right + "&" + text);
      SplitAtJoin(h.right, '&', text);
      before := SplitAt(h.right, '&');
    }
  }

  // --- What an announce reads back as -------------------------------------------------------

  /** A value of characters that stand for themselves. */
  predicate Plain(s: string) {
    forall c <- s :: Unreserved(c)
  }

  /** Bytes as text, one character a byte. */
  function TextOf(bytes: seq<byte>): (s: string)
    ensures |s| == |bytes| && forall i | 0 <= i < |s| :: s[i] == bytes[i] as int as char
  {
    seq(|bytes|, i requires 0 <= i < |bytes| => bytes[i] as int as char)
  }

  lemma {:induction false} PlainDecodes(s: string)
    requires Plain(s)
    ensures TextOf(PercentDecoded(s)) == s
  {
    if s != "" {
      assert Unreserved(s[0]);
      PlainDecodes(s[1..]);
      assert s == [s[0]] + s[1..];
    }
  }

  lemma DecimalPlain(n: nat)
    ensures Plain(Decimal(n)) && '&' !in Decimal(n)
  {
  }

  /** A key told apart by its length and first character. */
  function Tag(key: string): nat {
    if key == "" then 0 else 1000 * |key| + key[0] as int
  }

  function TagAt(i: nat): nat {
    match i
    case 0 => 9105 case 1 => 7112 case 2 => 4112 case 3 => 8117 case 4 => 10100 case 5 => 4108
    case 6 => 7099 case 7 => 10110 case 8 => 7110 case 9 => 3107 case _ => 5101
  }

  lemma TagsDiffer(j: nat, k: nat)
    requires j < k <= 10
    ensures TagAt(j) != TagAt(k)
  {
  }

  lemma FieldTag(a: Announce, i: nat)
    requires i < |Fields(a)|
    ensures i <= 10 && Tag(Fields(a)[i].key) == TagAt(i)
  {
    hide PercentEncoded, Decimal, Hex, EventText;
    var always := AlwaysSent(a);
    if i < 10 {
      assert Fields(a)[i] == always[i];
    }
  }

  lemma KeyClean(a: Announce, i: nat, c: char)
    requires i < |Fields(a)| && c < 'A'
    ensures c !in Fields(a)[i].key
  {
    hide PercentEncoded, Decimal, Hex, EventText;
    if i < 10 {
      assert Fields(a)[i] == AlwaysSent(a)[i];
    }
  }

  lemma ValueClean(a: Announce, i: nat)
    requires i < |Fields(a)|
    ensures '&' !in Fields(a)[i].value
  {
    hide PercentEncoded, Decimal, Hex;
    EncodedPlain(a.infoHash);
    EncodedPlain(a.peerId);
    if i < 10 {
      assert Fields(a)[i] == AlwaysSent(a)[i];
    }
  }

  lemma FieldsClean(a: Announce)
    ensures forall f <- Fields(a) :: Clean(f)
    ensures forall j, k | 0 <= j < k < |Fields(a)| :: Fields(a)[j].key != Fields(a)[k].key
  {
    hide Fields, TagAt;
    forall i | 0 <= i < |Fields(a)| ensures Clean(Fields(a)[i]) {
      KeyClean(a, i, '=');
      KeyClean(a, i, '&');
      ValueClean(a, i);
    }
    forall j, k | 0 <= j < k < |Fields(a)| ensures Fields(a)[j].key != Fields(a)[k].key {
      FieldTag(a, j);
      FieldTag(a, k);
      TagsDiffer(j, k);
    }
  }

  lemma ValueWhole(a: Announce, i: nat)
    requires i < |Fields(a)|
    ensures !Panics(Fields(a)[i].value)
  {
    hide PercentEncoded, Decimal, Hex, Panics;
    EncodedPlain(a.infoHash);
    EncodedPlain(a.peerId);
    if i < 10 {
      assert Fields(a)[i] == AlwaysSent(a)[i];
    }
    WholeNeverPanics(Fields(a)[i].value);
  }

  /** No announce makes the tracker panic: its query does so exactly when the
      announce URL's own query does. */
  lemma AnnouncePanicsIff(url: string, a: Announce)
    ensures AnyPanics(SplitAt(Sent(url, Fields(a)), '&')) <==> AnyPanics(OwnPairs(url))
  {
    hide Sent, SplitAt, Fields, Panics, OwnPairs, FieldText;
    FieldsClean(a);
    assert Fields(a) != [] by {
      SomeFields(a);
    }
    var before := SentPairs(url, Fields(a));
    var texts := Texts(Fields(a));
    forall i | 0 <= i < |texts|
      ensures !Panics(ValueOfPair(texts[i]))
    {
      assert Fields(a)[i] in Fields(a);
      FieldParts(Fields(a)[i]);
      ValueWhole(a, i);
    }
    if pair :| pair in before && pair != "" && Panics(ValueOfPair(pair)) {
      assert pair in before + texts;
    }
  }

  lemma SomeFields(a: Announce)
    ensures Fields(a) != []
  {
  }

  datatype Found = Absent | Found(bytes: seq<byte>)

  function Lookup(params: map<string, seq<byte>>, key: string): Found {
    if key in params then Found(params[key]) else Absent
  }

  /** A parameter as an unsigned number. */
  function NumberAt(params: map<string, seq<byte>>, key: string, max: nat): Parsed {
    if key in params then ParseUnsigned(TextOf(params[key]), max) else Bad
  }

  lemma NumberReads(url: string, a: Announce, i: nat, n: nat, max: nat)
    requires i < |Fields(a)| && Fields(a)[i].value == Decimal(n) && n <= max
    ensures NumberAt(Params(SplitAt(Sent(url, Fields(a)), '&')), Fields(a)[i].key, max) == Number(n)
  {
    hide Sent, SplitAt, Params, Fields, Decimal, PercentDecoded;
    FieldsClean(a);
    FieldReads(url, Fields(a), i);
    DecimalPlain(n);
    PlainDecodes(Decimal(n));
    ParseDecimal(n, max);
  }

  lemma WordReads(url: string, a: Announce, i: nat)
    requires i < |Fields(a)| && Plain(Fields(a)[i].value)
    ensures var found := Lookup(Params(SplitAt(Sent(url, Fields(a)), '&')), Fields(a)[i].key);
            found.Found? && TextOf(found.bytes) == Fields(a)[i].value
  {
    hide Sent, SplitAt, Params, Fields, PercentDecoded;
    FieldsClean(a);
    FieldReads(url, Fields(a), i);
    PlainDecodes(Fields(a)[i].value);
  }

  lemma BytesRead(url: string, a: Announce, i: nat, bytes: seq<byte>)
    requires i < |Fields(a)| && Fields(a)[i].value == PercentEncoded(bytes)
    ensures Lookup(Params(SplitAt(Sent(url, Fields(a)), '&')), Fields(a)[i].key) == Found(bytes)
  {
    hide Sent, SplitAt, Params, Fields, PercentEncoded;
    FieldsClean(a);
    FieldReads(url, Fields(a), i);
    DecodeEncoded(bytes, "");
    assert PercentEncoded(bytes) + "" == PercentEncoded(bytes);
  }

  /** The tracker reads from the query what the client announced, whatever
      bytes the hash and the id are and whatever the announce URL says already. */
  lemma AnnounceReadsBack(url: string, a: Announce)
    requires Sized(a)
    ensures var params := Params(SplitAt(Sent(url, Fields(a)), '&'));
            && Lookup(params, "info_hash") == Found(a.infoHash)
            && Lookup(params, "peer_id") == Found(a.peerId)
            && NumberAt(params, "port", U16_MAX) == Number(a.port)
            && NumberAt(params, "uploaded", U64_MAX) == Number(a.uploaded)
            && NumberAt(params, "downloaded", U64_MAX) == Number(a.downloaded)
            && NumberAt(params, "left", U64_MAX) == Number(LeftSent(a))
            && NumberAt(params, "numwant", U32_MAX) == Number(a.numwant)
            && (a.event != NoEvent ==>
                  Lookup(params, "event").Found? && TextOf(Lookup(params, "event").bytes) == EventText(a.event))
  {
    hide Sent, SplitAt, Params, PercentEncoded, Decimal, Hex, Lookup, NumberAt, TextOf;
    BytesRead(url, a, 0, a.infoHash);
    BytesRead(url, a, 1, a.peerId);
    NumberReads(url, a, 2, a.port, U16_MAX);
    NumberReads(url, a, 3, a.uploaded, U64_MAX);
    NumberReads(url, a, 4, a.downloaded, U64_MAX);
    NumberReads(url, a, 5, LeftSent(a), U64_MAX);
    NumberReads(url, a, 8, a.numwant, U32_MAX);
    if a.event != NoEvent {
      WordReads(url, a, 10);
    }
  }

  // --- The words of an announce ---------------------------------------------------------------

  function HexDigitOf(c: char): nat {
    if '0' <= c <= '9' then c as int - '0' as int else if 'a' <= c <= 'f' then c as int - 'a' as int + 10 else 0
  }

  /** The number some lower-case digits of base 16 stand for. */
  function HexNumber(s: string): nat {
    if s == "" then 0 else HexNumber(s[..|s| - 1]) * 16 + HexDigitOf(s[|s| - 1])
  }

  function Pow16(width: nat): nat {
    if width == 0 then 1 else 16 * Pow16(width - 1)
  }

  lemma {:induction false} HexReads(n: nat, width: nat)
    requires n < Pow16(width)
    ensures |Hex(n, width)| == width && HexNumber(Hex(n, width)) == n
    ensures forall c <- Hex(n, width) :: '0' <= c <= '9' || 'a' <= c <= 'f'
    decreases width
  {
    if width > 0 {
      HexReads(n / 16, width - 1);
      var head, text := Hex(n / 16, width - 1), Hex(n, width);
      assert text[..width - 1] == head;
      assert HexDigitOf(text[width - 1]) == n % 16;
    }
  }

  /** Pairs with other keys leave a parameter as it was. */
  lemma {:induction false} ParamsOther(before: seq<string>, pairs: seq<string>, key: string)
    requires forall pair <- pairs :: KeyOf(pair) != key
    ensures Lookup(Params(before + pairs), key) == Lookup(Params(before), key)
    decreases |pairs|
  {
    hide KeyOf, ValueOfPair, PercentDecoded;
    if pairs == [] {
      assert before + pairs == before;
    } else {
      var last := pairs[|pairs| - 1];
      assert last in pairs && forall pair <- pairs[..|pairs| - 1] :: pair in pairs;
      ParamsOther(before, pairs[..|pairs| - 1], key);
      assert (before + pairs)[..|before + pairs| - 1] == before + pairs[..|pairs| - 1];
      assert (before + pairs)[|before + pairs| - 1] == last;
    }
  }

  /** An announce that says no event leaves the parameter to the announce URL. */
  lemma NoEventSent(url: string, a: Announce)
    requires a.event == NoEvent
    ensures Lookup(Params(SplitAt(Sent(url, Fields(a)), '&')), "event") == Lookup(Params(OwnPairs(url)), "event")
  {
    hide Sent, SplitAt, Fields, OwnPairs, Params, FieldText, KeyOf, ValueOfPair;
    FieldsClean(a);
    SomeFields(a);
    var before := SentPairs(url, Fields(a));
    var texts := Texts(Fields(a));
    forall pair <- texts
      ensures KeyOf(pair) != "event"
    {
      var i :| 0 <= i < |texts| && texts[i] == pair;
      assert Fields(a)[i] in Fields(a);
      FieldParts(Fields(a)[i]);
      FieldTag(a, i);
      TagOther(a, i);
    }
    ParamsOther(before, texts, "event");
  }

  lemma TagOther(a: Announce, i: nat)
    requires a.event == NoEvent && i < |Fields(a)|
    ensures Fields(a)[i].key != "event"
  {
    hide PercentEncoded, Decimal, Hex;
    assert i < 10 && Fields(a)[i] == AlwaysSent(a)[i];
  }

  /** A parameter is there and says the text. */
  predicate Reads(params: map<string, seq<byte>>, key: string, text: string) {
    key in params && TextOf(params[key]) == text
  }

  /** The words of an announce, as the tracker reads them: the event by its
      name, the number that stands for an unknown left, the two flags, and the
      key in eight digits of base 16. */
  lemma AnnounceSays(url: string, a: Announce)
    requires Sized(a)
    ensures var params := Params(SplitAt(Sent(url, Fields(a)), '&'));
            && (a.event.Started? ==> Reads(params, "event", "started"))
            && (a.event.Stopped? ==> Reads(params, "event", "stopped"))
            && (a.event.Completed? ==> Reads(params, "event", "completed"))
            && (a.event.NoEvent? ==> Lookup(params, "event") == Lookup(Params(OwnPairs(url)), "event"))
            && NumberAt(params, "left", 0xFFFF_FFFF_FFFF_FFFF)
               == Number(if a.left.Known? then a.left.bytes else 9223372036854775807)
            && Reads(params, "compact", "1") && Reads(params, "no_peer_id", "1")
            && "key" in params && |params["key"]| == 8 && HexNumber(TextOf(params["key"])) == a.key
            && forall c <- TextOf(params["key"]) :: '0' <= c <= '9' || 'a' <= c <= 'f'
  {
    hide Sent, SplitAt, Params, PercentEncoded, Decimal, Hex, NumberAt, TextOf, HexNumber, OwnPairs;
    AnnounceReadsBack(url, a);
    WordReads(url, a, 6);
    WordReads(url, a, 7);
    assert a.key < Pow16(8);
    HexReads(a.key, 8);
    WordReads(url, a, 9);
    if a.event.NoEvent? {
      NoEventSent(url, a);
    }
  }
}
