/** Numbers as big-endian bytes. */
module BigEndian {
  import opened Device

  function Value(word: seq<byte>): nat {
    if word == [] then 0 else Value(word[..|word| - 1]) * 256 + word[|word| - 1] as nat
  }

  function Encoded(n: nat, width: nat): (word: seq<byte>)
    ensures |word| == width
    decreases width
  {
    if width == 0 then [] else Encoded(n / 256, width - 1) + [(n % 256) as byte]
  }

  function Pow256(k: nat): (p: nat)
    ensures p > 0
  {
    if k == 0 then 1 else 256 * Pow256(k - 1)
  }

  /** A number that fits its width reads back. */
  lemma {:induction false} ValueOfEncoded(n: nat, width: nat)
    requires n < Pow256(width)
    ensures Value(Encoded(n, width)) == n
    decreases width
  {
    if width > 0 {
      ValueOfEncoded(n / 256, width - 1);
      var word := Encoded(n, width);
      assert word[..|word| - 1] == Encoded(n / 256, width - 1);
    }
  }

  /** Every word is the encoding of its value. */
  lemma {:induction false} EncodedOfValue(word: seq<byte>)
    ensures Value(word) < Pow256(|word|) && Encoded(Value(word), |word|) == word
  {
    if word != [] {
      EncodedOfValue(word[..|word| - 1]);
      assert word == word[..|word| - 1] + [word[|word| - 1]];
      assert Value(word) / 256 == Value(word[..|word| - 1]);
    }
  }

  lemma Widths()
    ensures Pow256(2) == 0x1_0000 && Pow256(4) == 0x1_0000_0000 && Pow256(8) == 0x1_0000_0000_0000_0000
  {
    assert Pow256(2) == 256 * 256;
    assert Pow256(4) == 256 * 256 * Pow256(2);
    assert Pow256(6) == 256 * 256 * Pow256(4);
    assert Pow256(8) == 256 * 256 * Pow256(6);
  }

  // --- Fields laid end to end ----------------------------------------------------------

  function Cat(parts: seq<seq<byte>>): seq<byte> {
    if parts == [] then [] else Cat(parts[..|parts| - 1]) + parts[|parts| - 1]
  }

  lemma CatAdd(parts: seq<seq<byte>>, part: seq<byte>)
    ensures Cat(parts + [part]) == Cat(parts) + part
  {
    assert (parts + [part])[..|parts|] == parts;
  }

  /** Where a field stands among the others. */
  lemma {:induction false} FieldAt(parts: seq<seq<byte>>, i: nat)
    requires i < |parts|
    ensures |Cat(parts[..i + 1])| == |Cat(parts[..i])| + |parts[i]| <= |Cat(parts)|
    ensures Cat(parts)[|Cat(parts[..i])|..|Cat(parts[..i + 1])|] == parts[i]
    decreases |parts|
  {
    CatAdd(parts[..i], parts[i]);
    assert parts[..i + 1] == parts[..i] + [parts[i]];
    if i + 1 < |parts| {
      var head := parts[..|parts| - 1];
      FieldAt(head, i);
      assert head[..i] == parts[..i] && head[..i + 1] == parts[..i + 1];
      assert Cat(parts) == Cat(head) + parts[|parts| - 1];
    } else {
      assert parts[..i + 1] == parts;
    }
  }

  /** Four bytes, the first weighing most. */
  lemma WordIs(a: byte, b: byte, c: byte, d: byte)
    ensures Value([a, b, c, d]) == 16777216 * a as nat + 65536 * b as nat + 256 * c as nat + d as nat
  {
    ValueNext([a, b, c], d);
    ValueNext([a, b], c);
    ValueNext([a], b);
    ValueNext([], a);
    assert [] + [a] == [a] && [a] + [b] == [a, b] && [a, b] + [c] == [a, b, c] && [a, b, c] + [d] == [a, b, c, d];
  }

  lemma ValueNext(word: seq<byte>, b: byte)
    ensures Value(word + [b]) == Value(word) * 256 + b as nat
  {
    assert (word + [b])[..|word|] == word;
  }
}
