/** The parts of `System.String` the repositories and controllers rely on:
    `Char.IsWhiteSpace`, `Trim`, `IsNullOrEmpty` and `IsNullOrWhiteSpace`. */
module Strings {
  import opened Wrappers

  /** `Char.IsWhiteSpace`: the Unicode space separators, line and paragraph
      separators, and the control characters U+0009..U+000D and U+0085. */
  predicate IsWhiteSpace(c: char) {
    || c == ' '
    || ('\t' <= c <= '\r')
    || c == '\U{85}'
    || c == '\U{A0}'
    || c == '\U{1680}'
    || ('\U{2000}' <= c <= '\U{200A}')
    || c == '\U{2028}'
    || c == '\U{2029}'
    || c == '\U{202F}'
    || c == '\U{205F}'
    || c == '\U{3000}'
  }

  predicate AllWhiteSpace(s: string) {
    forall i :: 0 <= i < |s| ==> IsWhiteSpace(s[i])
  }

  /** Neither end of `s` is white space. */
  predicate IsTrimmed(s: string) {
    |s| == 0 || (!IsWhiteSpace(s[0]) && !IsWhiteSpace(s[|s| - 1]))
  }

  /** Length of the white-space run at the start of `s`. */
  function LeadingWhiteSpace(s: string): (n: nat)
    ensures n <= |s|
    ensures forall j :: 0 <= j < n ==> IsWhiteSpace(s[j])
    ensures n < |s| ==> !IsWhiteSpace(s[n])
  {
    if |s| == 0 || !IsWhiteSpace(s[0]) then 0
    else 1 + LeadingWhiteSpace(s[1..])
  }

  /** Index where the white-space run at the end of `s` begins. */
  function TrailingWhiteSpace(s: string): (n: nat)
    ensures n <= |s|
    ensures forall j :: n <= j < |s| ==> IsWhiteSpace(s[j])
    ensures 0 < n ==> !IsWhiteSpace(s[n - 1])
  {
    if |s| == 0 || !IsWhiteSpace(s[|s| - 1]) then |s|
    else TrailingWhiteSpace(s[..|s| - 1])
  }

  /** `r` is `s` with a white-space prefix and a white-space suffix cut off. */
  ghost predicate IsStrippedOf(r: string, s: string) {
    exists a, b :: 0 <= a <= b <= |s| && r == s[a..b] && AllWhiteSpace(s[..a]) && AllWhiteSpace(s[b..])
  }

  /** `String.Trim()`: `s` without its leading and trailing white space. */
  function Trim(s: string): (r: string)
    ensures IsStrippedOf(r, s)
    ensures IsTrimmed(r)
    ensures IsTrimmed(s) ==> r == s
  {
    var a := LeadingWhiteSpace(s);
    if a == |s| then
      assert s[a..a] == [] && s[a..] == [];
      ""
    else
      var b := TrailingWhiteSpace(s);
      s[a..b]
  }

  /** `Trim` is idempotent. */
  lemma TrimIdempotent(s: string)
    ensures Trim(Trim(s)) == Trim(s)
  {
  }

  /** A string is blank exactly when trimming leaves nothing. */
  lemma BlankIffTrimEmpty(s: string)
    ensures AllWhiteSpace(s) <==> Trim(s) == ""
  {
  }

  /** `String.IsNullOrEmpty`. */
  predicate IsNullOrEmpty(s: Option<string>) {
    s.None? || s.value == ""
  }

  /** `String.IsNullOrWhiteSpace`. */
  predicate IsNullOrWhiteSpace(s: Option<string>) {
    s.None? || AllWhiteSpace(s.value)
  }

  /** `s?.Trim()`: null stays null. */
  function TrimNullable(s: Option<string>): (r: Option<string>)
    ensures r.None? <==> s.None?
    ensures r.Some? ==> r.value == Trim(s.value)
  {
    match s
    case None => None
    case Some(v) => Some(Trim(v))
  }

  /** A value read from a fixed-width (`nchar`) column comes back padded with
      spaces; trimming it gives what trimming the unpadded value gives. */
  lemma {:induction false} TrimIgnoresPadding(s: string, pad: string)
    requires AllWhiteSpace(pad)
    ensures Trim(s + pad) == Trim(s)
  {
    TrailingOfPadded(s, pad);
    if AllWhiteSpace(s) {
      assert AllWhiteSpace(s + pad) by {
        forall i | 0 <= i < |s + pad| ensures IsWhiteSpace((s + pad)[i]) {
          if i < |s| { assert (s + pad)[i] == s[i]; } else { assert (s + pad)[i] == pad[i - |s|]; }
        }
      }
      BlankIffTrimEmpty(s);
      BlankIffTrimEmpty(s + pad);
    } else {
      LeadingOfPadded(s, pad);
      var a := LeadingWhiteSpace(s);
      var b := TrailingWhiteSpace(s);
      assert a < |s|;
      assert b <= |s|;
      assert (s + pad)[a..b] == s[a..b];
    }
  }

  /** Padding does not move the start of the trimmed part of a non-blank string. */
  lemma {:induction false} LeadingOfPadded(s: string, pad: string)
    requires !AllWhiteSpace(s)
    ensures LeadingWhiteSpace(s + pad) == LeadingWhiteSpace(s)
    decreases |s|
  {
    if IsWhiteSpace(s[0]) {
      assert (s + pad)[1..] == s[1..] + pad;
      assert !AllWhiteSpace(s[1..]) by {
        var i :| 0 <= i < |s| && !IsWhiteSpace(s[i]);
        assert s[1..][i - 1] == s[i];
      }
      LeadingOfPadded(s[1..], pad);
    } else {
      assert (s + pad)[0] == s[0];
    }
  }

  /** White-space padding does not move the end of the trimmed part. */
  lemma {:induction false} TrailingOfPadded(s: string, pad: string)
    requires AllWhiteSpace(pad)
    ensures TrailingWhiteSpace(s + pad) == TrailingWhiteSpace(s)
    decreases |pad|
  {
    if |pad| == 0 {
      assert s + pad == s;
    } else {
      var u := s + pad;
      assert u[|u| - 1] == pad[|pad| - 1];
      assert u[..|u| - 1] == s + pad[..|pad| - 1];
      TrailingOfPadded(s, pad[..|pad| - 1]);
    }
  }

  /** The UTF-16 code units of one character: two for a character outside the
      Basic Multilingual Plane (a surrogate pair), one otherwise. */
  function CodeUnits(c: char): (n: nat)
    ensures n == 1 || n == 2
  {
    if c as int > 0xFFFF then 2 else 1
  }

  /** `String.Length`: .NET strings are UTF-16, so a length counts code units,
      not characters. */
  function Utf16Length(s: string): (n: nat)
    ensures |s| <= n <= 2 * |s|
  {
    if |s| == 0 then 0 else CodeUnits(s[0]) + Utf16Length(s[1..])
  }

  /** For text inside the Basic Multilingual Plane the two lengths agree. */
  lemma {:induction false} BmpLength(s: string)
    requires forall i :: 0 <= i < |s| ==> s[i] as int <= 0xFFFF
    ensures Utf16Length(s) == |s|
  {
    if |s| > 0 {
      assert forall i :: 0 <= i < |s[1..]| ==> s[1..][i] == s[i + 1];
      BmpLength(s[1..]);
    }
  }

  /** Text made only of characters outside the Basic Multilingual Plane has
      twice as many code units as characters. */
  lemma {:induction false} AstralLength(s: string)
    requires forall i :: 0 <= i < |s| ==> s[i] as int > 0xFFFF
    ensures Utf16Length(s) == 2 * |s|
  {
    if |s| > 0 {
      assert forall i :: 0 <= i < |s[1..]| ==> s[1..][i] == s[i + 1];
      AstralLength(s[1..]);
    }
  }

}
