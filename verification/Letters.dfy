/** Letters without their case, as far as ASCII has it. */
module Letters {

  function LowerChar(c: char): char {
    if 'A' <= c <= 'Z' then c + 32 as char else c
  }

  function Lower(s: string): (t: string)
    ensures |t| == |s| && forall i | 0 <= i < |s| :: t[i] == LowerChar(s[i])
  {
    seq(|s|, i requires 0 <= i < |s| => LowerChar(s[i]))
  }
}
