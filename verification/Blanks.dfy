/** Trimming texts of UTF-8 bytes, each byte a char below 256. */
module Blanks {
  predicate IsAsciiSpace(c: char) {
    '\t' <= c <= '\r' || c == ' '
  }

  /** The white space characters of Unicode, encoded. */
  predicate IsWhite(s: string) {
    match |s|
    case 1 => IsAsciiSpace(s[0])
    case 2 => s[0] == '\U{C2}' && (s[1] == '\U{85}' || s[1] == '\U{A0}')
    case 3 =>
      || (s[0] == '\U{E1}' && s[1] == '\U{9A}' && s[2] == '\U{80}')
      || (s[0] == '\U{E2}' && s[1] == '\U{80}' && IsWhiteBehindE280(s[2]))
      || (s[0] == '\U{E2}' && s[1] == '\U{81}' && s[2] == '\U{9F}')
      || (s[0] == '\U{E3}' && s[1] == '\U{80}' && s[2] == '\U{80}')
    case _ => false
  }

  predicate IsWhiteBehindE280(c: char) {
    '\U{80}' <= c <= '\U{8A}' || '\U{A8}' <= c <= '\U{A9}' || c == '\U{AF}'
  }

  /** How many bytes the white space character at the front has; none if there is none. */
  function WhiteFront(s: string): (n: nat)
    ensures n <= |s|
  {
    if |s| >= 1 && IsWhite(s[..1]) then 1
    else if |s| >= 2 && IsWhite(s[..2]) then 2
    else if |s| >= 3 && IsWhite(s[..3]) then 3
    else 0
  }

  function WhiteBack(s: string): (n: nat)
    ensures n <= |s|
  {
    if |s| >= 1 && IsWhite(s[|s| - 1..]) then 1
    else if |s| >= 2 && IsWhite(s[|s| - 2..]) then 2
    else if |s| >= 3 && IsWhite(s[|s| - 3..]) then 3
    else 0
  }

  function TrimLeft(s: string): string
    decreases |s|
  {
    if WhiteFront(s) > 0 then TrimLeft(s[WhiteFront(s)..]) else s
  }

  function TrimRight(s: string): string
    decreases |s|
  {
    if WhiteBack(s) > 0 then TrimRight(s[..|s| - WhiteBack(s)]) else s
  }

  function TrimSpace(s: string): string {
    TrimRight(TrimLeft(s))
  }

  predicate IsPlain(c: char) {
    c < '\U{80}' && !IsAsciiSpace(c)
  }

  lemma PlainIsNotWhite(s: string)
    requires s != "" && (IsPlain(s[0]) || IsPlain(s[|s| - 1]))
    ensures !IsWhite(s)
  {
  }

  lemma PlainFront(s: string)
    requires s != "" && IsPlain(s[0])
    ensures WhiteFront(s) == 0
  {
    forall k | 1 <= k <= |s|
      ensures !IsWhite(s[..k])
    {
      PlainIsNotWhite(s[..k]);
    }
  }

  lemma PlainBack(s: string)
    requires s != "" && IsPlain(s[|s| - 1])
    ensures WhiteBack(s) == 0
  {
    forall i | 0 <= i < |s|
      ensures !IsWhite(s[i..])
    {
      PlainIsNotWhite(s[i..]);
    }
  }

  /** A text with an ASCII character other than a space at both ends is left as it is. */
  lemma PlainEndsStay(s: string)
    requires s != "" && IsPlain(s[0]) && IsPlain(s[|s| - 1])
    ensures TrimSpace(s) == s
  {
    PlainFront(s);
    PlainBack(s);
  }
}
