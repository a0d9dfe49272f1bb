/** What a sanitised component is in terms of names and characters written out:
    none of the devices, none of the characters, and what comes of those that
    were. */
module SanitizeNames {
  import opened Letters
  import opened PathText
  import opened Sanitizing
  import opened PathSafety

  /** A name Windows resolves to a device, in upper case. */
  predicate Device(d: string) {
    d in {"CON", "PRN", "AUX", "NUL",
          "COM0", "COM1", "COM2", "COM3", "COM4", "COM5", "COM6", "COM7", "COM8", "COM9",
          "LPT0", "LPT1", "LPT2", "LPT3", "LPT4", "LPT5", "LPT6", "LPT7", "LPT8", "LPT9"}
  }

  /** The text with its ASCII letters raised. */
  function Upper(s: string): (t: string)
    ensures |t| == |s|
    ensures forall i | 0 <= i < |s| :: t[i] == if 'a' <= s[i] <= 'z' then (s[i] as int - 32) as char else s[i]
  {
    seq(|s|, i requires 0 <= i < |s| => if 'a' <= s[i] <= 'z' then (s[i] as int - 32) as char else s[i])
  }

  /** A character no file name may have, or a control character. */
  predicate Forbidden(c: char) {
    || c == '<' || c == '>' || c == ':' || c == '\"' || c == '|' || c == '?' || c == '*' || c == '\\'
    || c as int < 0x20 || 0x7F <= c as int < 0xA0
  }

  /** A name is its stem, which ends at the first dot, and the rest. */
  predicate Parted(name: string, stem: string, rest: string) {
    name == stem + rest && '.' !in stem && (rest == "" || rest[0] == '.')
  }

  lemma StemIs(name: string, stem: string, rest: string)
    requires Parted(name, stem, rest)
    ensures FirstStem(name) == stem && name[|stem|..] == rest
  {
    FirstStemSplit(stem, rest);
  }

  /** The table has the 24 names and no other. */
  lemma TableIs(d: string)
    ensures d in RESERVED <==> Device(d)
  {
  }

  lemma DeviceUpper(d: string)
    requires Device(d)
    ensures forall c <- d :: 'A' <= c <= 'Z' || '0' <= c <= '9'
  {
  }

  /** Letters compared without their case are letters raised and compared. */
  lemma RaisedIff(stem: string, d: string)
    requires forall c <- d :: 'A' <= c <= 'Z' || '0' <= c <= '9'
    ensures EqIgnoreCase(stem, d) <==> Upper(stem) == d
  {
    if EqIgnoreCase(stem, d) {
      forall i | 0 <= i < |d|
        ensures Upper(stem)[i] == d[i]
      {
        assert d[i] in d;
        assert LowerChar(stem[i]) == LowerChar(d[i]);
      }
    }
  }

  /** A stem is a device name exactly when it is one with its letters raised. */
  lemma DeviceIff(stem: string)
    ensures IsDevice(stem) <==> Device(Upper(stem))
  {
    hide Device, EqIgnoreCase, RESERVED;
    if r :| r in RESERVED && EqIgnoreCase(stem, r) {
      TableIs(r);
      DeviceUpper(r);
      RaisedIff(stem, r);
    }
    if Device(Upper(stem)) {
      TableIs(Upper(stem));
      DeviceUpper(Upper(stem));
      RaisedIff(stem, Upper(stem));
    }
  }

  /** A safe name, written out: no device whatever follows its first dot, no
      forbidden character, no separator, no step up and no drive, and no more
      than 255 bytes. */
  lemma SafeIs(s: string, stem: string, rest: string)
    requires Safe(s) && Parted(s, stem, rest)
    ensures !Device(Upper(stem))
    ensures forall c <- s :: !Forbidden(c) && c != '/'
    ensures s != "" && s != "." && s != ".." && Bytes(s) <= 255
  {
    StemIs(s, stem, rest);
    DeviceIff(stem);
  }

  /** Whatever the component, what it is sanitised to names no device and has
      no forbidden character. */
  lemma SanitizedName(c: string, stem: string, rest: string)
    requires '/' !in c && c != "" && Parted(Sanitize(c), stem, rest)
    ensures !Device(Upper(stem))
    ensures forall x <- Sanitize(c) :: !Forbidden(x) && x != '/'
    ensures Sanitize(c) != "" && Sanitize(c) != "." && Sanitize(c) != ".." && Bytes(Sanitize(c)) <= 255
  {
    SanitizeSafe(c);
    SafeIs(Sanitize(c), stem, rest);
  }

  /** No forbidden character, and an end that stays. */
  predicate Clean(name: string) {
    && name != "" && (forall c <- name :: !Forbidden(c) && c != '/')
    && name[|name| - 1] != '.' && name[|name| - 1] != ' '
  }

  lemma CleanFilled(name: string)
    requires Clean(name)
    ensures TrimEnd(Filled(name)) == name && EarlyReasons(name) == {}
  {
    forall i | 0 <= i < |name|
      ensures !Illegal(name[i])
    {
      assert name[i] in name;
    }
    ReplacedPlain(name);
    assert Replaced(name) == name;
    assert name[|name| - 1] in name;
    TrimEndSolid(name);
    if |name| >= 2 {
      assert name[1] in name;
    }
    assert name[0] in name;
  }

  /** A device name gets an underscore behind its stem, for that reason. */
  lemma DeviceMarked(name: string, stem: string, rest: string)
    requires Clean(name) && Parted(name, stem, rest) && Device(Upper(stem))
    ensures ReservedName in Reasons(name)
    ensures Bytes(name) < 255 ==> Sanitize(name) == stem + "_" + rest && Reasons(name) == {ReservedName}
  {
    hide Device, Bytes, TrimEnd, Filled, Extension, Stem, Cut;
    CleanFilled(name);
    StemIs(name, stem, rest);
    DeviceIff(stem);
    MarkStemBytes(name);
    assert Marked(name) == stem + "_" + rest;
  }

  /** Any other clean name is kept, unless it is too long. */
  lemma OthersKept(name: string, stem: string, rest: string)
    requires Clean(name) && Parted(name, stem, rest) && !Device(Upper(stem))
    ensures Bytes(name) <= 255 ==> Sanitize(name) == name && Reasons(name) == {}
    ensures Bytes(name) > 255 ==> TooLong in Reasons(name) && Reasons(name) <= {TooLong, Reason.Empty}
  {
    hide Device, Bytes, TrimEnd, Filled, Extension, Stem, Cut;
    CleanFilled(name);
    StemIs(name, stem, rest);
    DeviceIff(stem);
  }

  /** The early reasons, in terms of the component as it came. */
  lemma EarlyReasonsIff(c: string)
    requires '/' !in c && c != ""
    ensures Escape in Reasons(c) <==>
              c == ".." || c[0] == '\\'
              || (|c| >= 2 && c[1] == ':' && ('A' <= c[0] <= 'Z' || 'a' <= c[0] <= 'z'))
    ensures IllegalCharacter in Reasons(c) <==> exists x <- c :: Forbidden(x)
    ensures TrailingDotOrSpace in Reasons(c) <==> c[|c| - 1] == '.' || c[|c| - 1] == ' '
  {
    hide IsReserved, Marked, Shortened, Bytes;
    AnyForbidden(c);
    TrimmedIff(c);
  }

  lemma AnyForbidden(c: string)
    ensures AnyIllegal(c) <==> exists x <- c :: Forbidden(x)
  {
    if i :| 0 <= i < |c| && Illegal(c[i]) {
      assert c[i] in c && Forbidden(c[i]);
    }
    if x :| x in c && Forbidden(x) {
      var i :| 0 <= i < |c| && c[i] == x;
      assert Illegal(c[i]);
    }
  }

  lemma TrimmedIff(c: string)
    requires '/' !in c && c != ""
    ensures NamesNothing(Replaced(c)) || TrimEnd(Filled(c)) != Filled(c) <==> c[|c| - 1] == '.' || c[|c| - 1] == ' '
  {
    ReplacedPlain(c);
    var out := Replaced(c);
    assert out[|c| - 1] in out;
    if !NamesNothing(out) {
      TrimEndSolid(out);
    }
  }

  /** A component of nothing but dots and spaces keeps its length, so that such
      components stay apart. */
  lemma DotsKeepLength(c: string)
    requires c != "" && |c| <= 255 && forall x <- c :: x == '.' || x == ' '
    ensures |Sanitize(c)| == |c| && forall x <- Sanitize(c) :: x == '_'
  {
    assert '/' !in c;
    ReplacedPlain(c);
    forall i | 0 <= i < |c|
      ensures Replaced(c)[i] == c[i]
    {
      assert c[i] in c;
    }
    assert Replaced(c) == c;
    UnderscoresPlain(|c|);
    UnderscoresFixed(|c|);
  }
}
