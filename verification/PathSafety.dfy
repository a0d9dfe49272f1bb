/** What a sanitised component can no longer do, through truncation and
    through the suffix a collision adds. */
module PathSafety {
  import opened PathText
  import opened Sanitizing

  predicate Plain(s: string) {
    forall c <- s :: !Illegal(c) && c != '/'
  }

  /** A component that names one ordinary file wherever it is written. */
  predicate Safe(s: string) {
    && s != "" && s != "." && Bytes(s) <= MAX_COMPONENT
    && Plain(s) && !IsReserved(s) && !IsEscape(s)
  }

  /** Nothing Windows would strip from the end. */
  predicate SolidEnd(s: string) {
    s != "" && !DotOrSpace(s[|s| - 1])
  }

  // --- Reserved names ---------------------------------------------------------

  predicate NameLetter(c: char) {
    'A' <= c <= 'Z' || '0' <= c <= '9'
  }

  lemma TableShape(r: string)
    requires r in RESERVED
    ensures 3 <= |r| <= 4 && forall c <- r :: NameLetter(c)
  {
  }

  /** A device name is three or four letters and digits. */
  lemma DeviceShape(stem: string)
    requires IsDevice(stem)
    ensures 3 <= |stem| <= 4
    ensures forall c <- stem :: c != '_' && c != '-' && c != '.' && c != ' '
  {
    var r :| r in RESERVED && EqIgnoreCase(stem, r);
    TableShape(r);
    forall c <- stem
      ensures c != '_' && c != '-' && c != '.' && c != ' '
    {
      var i :| 0 <= i < |r| && stem[i] == c;
      assert r[i] in r;
    }
  }

  lemma {:induction false} FirstStemSplit(a: string, b: string)
    requires '.' !in a
    ensures FirstStem(a + b) == a + FirstStem(b)
  {
    if a == "" {
      assert a + b == b;
    } else {
      assert (a + b)[1..] == a[1..] + b && a[0] in a;
      FirstStemSplit(a[1..], b);
    }
  }

  lemma {:induction false} FirstStemPrefix(name: string)
    ensures FirstStem(name) <= name && '.' !in FirstStem(name)
    ensures |FirstStem(name)| < |name| ==> name[|FirstStem(name)|] == '.'
  {
    if name != "" && name[0] != '.' {
      FirstStemPrefix(name[1..]);
    }
  }

  /** Two names with a dot in their common part have the same first stem. */
  lemma {:induction false} FirstStemCommon(a: string, b: string, c: string)
    requires '.' in a
    ensures FirstStem(a + b) == FirstStem(a + c)
  {
    assert (a + b)[1..] == a[1..] + b && (a + c)[1..] == a[1..] + c;
    if a[0] != '.' {
      assert a == [a[0]] + a[1..];
      FirstStemCommon(a[1..], b, c);
    }
  }

  // --- The stages ------------------------------------------------------------------

  lemma {:induction false} ReplacedPlain(s: string)
    requires '/' !in s
    ensures |Replaced(s)| == |s| && Plain(Replaced(s))
    ensures forall i | 0 <= i < |s| :: Replaced(s)[i] == if Illegal(s[i]) then '_' else s[i]
  {
    if s != "" {
      assert s == [s[0]] + s[1..];
      ReplacedPlain(s[1..]);
    }
  }

  lemma {:induction false} UnderscoresPlain(n: nat)
    ensures |Underscores(n)| == n && forall c <- Underscores(n) :: c == '_'
  {
    if n > 0 {
      UnderscoresPlain(n - 1);
    }
  }

  lemma {:induction false} TrimEndSolid(s: string)
    ensures TrimEnd(s) <= s
    ensures TrimEnd(s) != "" ==> SolidEnd(TrimEnd(s))
    ensures !OnlyDotsAndSpaces(s) ==> TrimEnd(s) != ""
    ensures SolidEnd(s) ==> TrimEnd(s) == s
  {
    if s != "" && DotOrSpace(s[|s| - 1]) {
      var t := s[..|s| - 1];
      assert s == t + [s[|s| - 1]];
      TrimEndSolid(t);
    }
  }

  lemma FilledPlain(c: string)
    requires '/' !in c
    ensures Plain(Filled(c)) && |Filled(c)| == |c|
    ensures c != "" ==> !OnlyDotsAndSpaces(Filled(c))
  {
    ReplacedPlain(c);
    UnderscoresPlain(|Replaced(c)|);
    if NamesNothing(Replaced(c)) {
      assert Filled(c)[0] in Filled(c);
    }
  }

  /** A marked device name is not a device name, and ends no worse. */
  lemma MarkStemSafe(name: string)
    requires Plain(name) && SolidEnd(name)
    ensures Plain(MarkStem(name)) && SolidEnd(MarkStem(name)) && !IsReserved(MarkStem(name))
  {
    FirstStemPrefix(name);
    var stem := FirstStem(name);
    var rest := name[|stem|..];
    assert name == stem + rest && MarkStem(name) == (stem + "_") + rest;
    FirstStemSplit(stem + "_", rest);
    assert '_' in stem + "_";
    assert FirstStem(MarkStem(name)) == (stem + "_") + FirstStem(rest);
    assert '_' in FirstStem(MarkStem(name));
    if IsDevice(FirstStem(MarkStem(name))) {
      DeviceShape(FirstStem(MarkStem(name)));
    }
    if rest != "" {
      assert MarkStem(name)[|MarkStem(name)| - 1] == rest[|rest| - 1] == name[|name| - 1];
    }
  }

  lemma MarkedSafe(c: string)
    requires '/' !in c && c != ""
    ensures Plain(Marked(c)) && SolidEnd(Marked(c)) && !IsReserved(Marked(c))
  {
    FilledPlain(c);
    TrimEndSolid(Filled(c));
    var out := TrimEnd(Filled(c));
    assert forall x <- out :: x in Filled(c);
    if IsReserved(out) {
      MarkStemSafe(out);
    }
  }

  // --- Cutting ------------------------------------------------------------------------

  lemma ExtensionShape(name: string)
    ensures name == Stem(name) + Extension(name)
    ensures Bytes(Extension(name)) <= 17
    ensures Extension(name) != "" ==> Extension(name)[0] == '.' && |Extension(name)| >= 2
    ensures Extension(name) != "" ==> '.' !in Extension(name)[1..]
  {
    var e := Extension(name);
    if e != "" {
      assert e == ['.'] + e[1..];
      BytesAppend(['.'], e[1..]);
      assert Bytes(['.']) == 1;
      assert e[1..] == name[LastDot(name) + 1..];
    }
  }

  /** A first stem that is long, or has a hyphen in it, is no device name. */
  lemma StemNotReserved(stem: string, ext: string)
    requires '.' !in stem && (ext == "" || ext[0] == '.')
    requires '-' in stem || |stem| > 4
    ensures !IsReserved(stem + ext)
  {
    FirstStemSplit(stem, ext);
    assert FirstStem(stem + ext) == stem;
    if IsDevice(stem) {
      DeviceShape(stem);
    }
  }

  lemma CutAtDot(name: string, cut: string, rest: string)
    requires cut <= name && '.' in cut
    ensures FirstStem(cut + rest) == FirstStem(name)
  {
    assert name == cut + name[|cut|..];
    FirstStemCommon(cut, name[|cut|..], rest);
  }

  /** Cutting the stem of a safe name, with or without a suffix put in, cannot
      turn it into a device name when what is left is long or the suffix has a
      hyphen in it. */
  lemma CutNotReserved(name: string, cut: string, mid: string)
    requires !IsReserved(name) && cut <= Stem(name) && '.' !in mid
    requires '-' in mid || (mid == "" && |cut| > 4)
    ensures !IsReserved((cut + mid) + Extension(name))
  {
    ExtensionShape(name);
    var ext := Extension(name);
    if '.' in cut {
      CutAtDot(name, cut, mid + ext);
      assert cut + (mid + ext) == (cut + mid) + ext;
    } else {
      StemNotReserved(cut + mid, ext);
    }
  }

  lemma PlainParts(a: string, b: string)
    ensures Plain(a + b) <==> Plain(a) && Plain(b)
  {
    assert forall c <- a :: c in a + b;
    assert forall c <- b :: c in a + b;
  }

  /** How long a truncated name is. */
  lemma TruncateBytes(name: string)
    requires Bytes(name) > MAX_COMPONENT
    ensures Bytes(Truncate(name)) <= MAX_COMPONENT
    ensures |Cut(Stem(name), Room(Bytes(Extension(name))))| > 50
  {
    ExtensionShape(name);
    var ext := Extension(name);
    var room := Room(Bytes(ext));
    var cut := Cut(Stem(name), room);
    BytesAppend(Stem(name), ext);
    CutLongest(Stem(name), room);
    BytesAppend(cut, ext);
    BytesBounds(cut);
  }

  /** Truncation leaves a long name that is as safe as the one it cut. */
  lemma TruncateSafe(name: string)
    requires Plain(name) && !IsReserved(name) && Bytes(name) > MAX_COMPONENT
    ensures Safe(Truncate(name))
  {
    ExtensionShape(name);
    TruncateBytes(name);
    var cut := Cut(Stem(name), Room(Bytes(Extension(name))));
    CutLongest(Stem(name), Room(Bytes(Extension(name))));
    CutNotReserved(name, cut, "");
    assert cut + "" == cut;
    CutPlain(name, cut);
    PlainNotEscape(cut + Extension(name));
  }

  lemma CutPlain(name: string, cut: string)
    requires Plain(name) && cut <= Stem(name)
    ensures Plain(cut) && Plain(Extension(name)) && Plain(cut + Extension(name))
  {
    ExtensionShape(name);
    var tail := Stem(name)[|cut|..];
    assert Stem(name) == cut + tail;
    PlainParts(Stem(name), Extension(name));
    PlainParts(cut, tail);
    PlainParts(cut, Extension(name));
  }

  lemma PlainNotEscape(s: string)
    requires Plain(s) && s != ".."
    ensures !IsEscape(s)
  {
    if |s| >= 2 {
      assert s[1] in s;
    }
    if s != "" {
      assert s[0] in s;
    }
  }

  /** Every sanitised component is safe, whatever it was. */
  lemma SanitizeSafe(c: string)
    requires '/' !in c && c != ""
    ensures Safe(Sanitize(c))
    ensures Bytes(Marked(c)) <= MAX_COMPONENT ==> SolidEnd(Sanitize(c)) && Sanitize(c) == Marked(c)
  {
    MarkedSafe(c);
    var out := Marked(c);
    if Bytes(out) > MAX_COMPONENT {
      TruncateSafe(out);
    } else {
      PlainNotEscape(out);
    }
  }

  /** A safe component that ends well is left alone, for no reason at all. */
  lemma SanitizeFixed(s: string)
    requires Safe(s) && SolidEnd(s)
    ensures Sanitize(s) == s && Reasons(s) == {}
  {
    forall i | 0 <= i < |s|
      ensures !Illegal(s[i])
    {
      assert s[i] in s;
    }
    ReplacedPlain(s);
    assert Replaced(s) == s;
    assert s[|s| - 1] in s;
    TrimEndSolid(s);
  }

  lemma {:induction false} ReplacedBytes(s: string)
    ensures Bytes(Replaced(s)) <= Bytes(s)
  {
    if s != "" {
      ReplacedBytes(s[1..]);
    }
  }

  lemma UnderscoresFixed(n: nat)
    requires n > 0
    ensures TrimEnd(Underscores(n)) == Underscores(n) && !IsReserved(Underscores(n)) && Bytes(Underscores(n)) == n
  {
    var out := Underscores(n);
    UnderscoresPlain(n);
    assert forall i | 0 <= i < |out| :: out[i] in out;
    PlainBytes(out);
    TrimEndSolid(out);
    FirstStemPrefix(out);
    var stem := FirstStem(out);
    assert stem != "" ==> stem[0] in stem && stem[0] in out;
    assert stem != "" ==> '_' in stem;
    if IsDevice(stem) {
      DeviceShape(stem);
    }
  }

  lemma TrimmedBytes(s: string)
    requires s != "" && !SolidEnd(s)
    ensures Bytes(TrimEnd(s)) < Bytes(s)
  {
    TrimEndSolid(s);
    var trimmed := TrimEnd(s);
    assert s == trimmed + s[|trimmed|..];
    BytesAppend(trimmed, s[|trimmed|..]);
    BytesBounds(s[|trimmed|..]);
  }

  lemma MarkStemBytes(name: string)
    ensures Bytes(MarkStem(name)) == Bytes(name) + 1
  {
    FirstStemPrefix(name);
    var stem := FirstStem(name);
    var rest := name[|stem|..];
    assert name == stem + rest;
    BytesAppend(stem, rest);
    BytesAppend(stem, "_");
    BytesAppend(stem + "_", rest);
    assert Bytes("_") == 1;
  }

  /** Trimming makes room for the one character a device name gains. */
  lemma MarkedShorter(s: string)
    requires '/' !in s && s != "" && !SolidEnd(s)
    ensures Bytes(Marked(s)) <= Bytes(s)
  {
    ReplacedPlain(s);
    ReplacedBytes(s);
    var out := Replaced(s);
    if NamesNothing(out) {
      BytesBounds(out);
      UnderscoresFixed(|out|);
    } else {
      assert !SolidEnd(out);
      TrimmedBytes(out);
      MarkStemBytes(TrimEnd(out));
    }
  }

  /** A component that ends in a dot or a space never survives. */
  lemma SanitizeTrims(s: string)
    requires '/' !in s && s != "" && !SolidEnd(s)
    ensures Sanitize(s) != s
  {
    SanitizeSafe(s);
    MarkedShorter(s);
  }

  lemma TruncatePlain(name: string)
    requires Extension(name) == ""
    ensures Truncate(name) == Cut(name, MAX_COMPONENT)
  {
    hide Cut, Extension;
    assert Stem(name) == name && Cut(name, MAX_COMPONENT) + "" == Cut(name, MAX_COMPONENT);
  }

  /** Trimming comes before cutting. A sanitised component ends well exactly
      when nothing was cut, when it kept an extension, or when the cut happens
      not to fall behind a dot or a space. */
  lemma SanitizeEndIff(c: string)
    requires '/' !in c && c != ""
    ensures SolidEnd(Sanitize(c)) <==>
            || Bytes(Marked(c)) <= MAX_COMPONENT
            || Extension(Marked(c)) != ""
            || SolidEnd(Cut(Marked(c), MAX_COMPONENT))
  {
    hide Marked, Cut, Extension, Stem, Bytes;
    SanitizeSafe(c);
    MarkedSafe(c);
    var out := Marked(c);
    if Bytes(out) > MAX_COMPONENT {
      TruncateSafe(out);
      ExtensionShape(out);
      var ext := Extension(out);
      if ext == "" {
        TruncatePlain(out);
      } else {
        assert Truncate(out)[|Truncate(out)| - 1] == ext[|ext| - 1] == out[|out| - 1];
      }
    }
  }
}
