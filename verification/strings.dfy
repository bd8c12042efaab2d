/** The .NET string services the address loader and the audit check rely
    on: String.Trim, String.Length and ordinal case-insensitive
    comparison. */
module Strings {

  /** Char.IsWhiteSpace: U+0009..U+000D, U+0085, and the Unicode space, line
      and paragraph separators. */
  predicate IsWhiteSpace(c: char) {
    || ('\t' <= c <= '\r')
    || c == ' '
    || c == '\U{85}'
    || c == '\U{A0}'
    || c == '\U{1680}'
    || ('\U{2000}' <= c <= '\U{200A}')
    || c == '\U{2028}'
    || c == '\U{2029}'
    || c == '\U{202F}'
    || c == '\U{205F}'
    || c == '\U{3000}'
  }

  /** `r` is `s` with `i` white-space characters removed in front and only
      white space removed behind. */
  ghost predicate StrippedAt(s: string, r: string, i: int) {
    && 0 <= i <= |s| - |r|
    && r == s[i..i + |r|]
    && (forall k | 0 <= k < i :: IsWhiteSpace(s[k]))
    && (forall k | i + |r| <= k < |s| :: IsWhiteSpace(s[k]))
  }

  /** String.Trim: strip white space from the front, then from the back. */
  function Trim(s: string): (r: string)
    ensures |r| <= |s|
    decreases |s|
  {
    if |s| > 0 && IsWhiteSpace(s[0]) then Trim(s[1..])
    else if |s| > 0 && IsWhiteSpace(s[|s| - 1]) then Trim(s[..|s| - 1])
    else s
  }

  lemma StrippedAtFront(s: string, r: string, i: int)
    requires |s| > 0 && IsWhiteSpace(s[0]) && StrippedAt(s[1..], r, i)
    ensures StrippedAt(s, r, i + 1)
  {
    var t := s[1..];
    assert s[i + 1..i + 1 + |r|] == t[i..i + |r|];
    assert forall k | 1 <= k < |s| :: s[k] == t[k - 1];
  }

  lemma StrippedAtBack(s: string, r: string, i: int)
    requires |s| > 0 && IsWhiteSpace(s[|s| - 1]) && StrippedAt(s[..|s| - 1], r, i)
    ensures StrippedAt(s, r, i)
  {
    var t := s[..|s| - 1];
    assert s[i..i + |r|] == t[i..i + |r|];
    assert forall k | 0 <= k < |t| :: s[k] == t[k];
  }

  /** Trim keeps the contiguous middle of `s`: only white space is removed,
      from both ends, and what is left neither starts nor ends with white
      space. */
  lemma {:induction false} TrimStripsWhiteSpace(s: string)
    ensures Trim(s) == [] || (!IsWhiteSpace(Trim(s)[0]) && !IsWhiteSpace(Trim(s)[|Trim(s)| - 1]))
    ensures exists i :: StrippedAt(s, Trim(s), i)
    decreases |s|
  {
    var r := Trim(s);
    if |s| > 0 && IsWhiteSpace(s[0]) {
      TrimStripsWhiteSpace(s[1..]);
      var i :| StrippedAt(s[1..], r, i);
      StrippedAtFront(s, r, i);
    } else if |s| > 0 && IsWhiteSpace(s[|s| - 1]) {
      TrimStripsWhiteSpace(s[..|s| - 1]);
      var i :| StrippedAt(s[..|s| - 1], r, i);
      StrippedAtBack(s, r, i);
    } else {
      assert StrippedAt(s, r, 0);
    }
  }

  /** The simple upper-case mapping of an ASCII letter; every other
      character maps to itself. */
  function UpperAscii(c: char): char {
    if 'a' <= c <= 'z' then (c as int - 32) as char else c
  }

  /** The string with every ASCII letter upper-cased. */
  function UpperCase(s: string): (r: string)
    ensures |r| == |s|
  {
    seq(|s|, k requires 0 <= k < |s| => UpperAscii(s[k]))
  }

  /** String.Equals(a, b, StringComparison.OrdinalIgnoreCase), restricted to
      ASCII case folding: same length, and equal character by character once
      both are upper-cased. */
  predicate EqualsIgnoreCase(a: string, b: string) {
    UpperCase(a) == UpperCase(b)
  }

  lemma EqualsIgnoreCaseTransitive(a: string, b: string, c: string)
    requires EqualsIgnoreCase(a, b) && EqualsIgnoreCase(b, c)
    ensures EqualsIgnoreCase(a, c)
  {
  }

  /** String.Length: the number of UTF-16 code units, in which a character
      above U+FFFF takes a surrogate pair. */
  function Utf16Length(s: string): (n: nat)
    ensures |s| <= n <= 2 * |s|
    decreases |s|
  {
    if |s| == 0 then 0
    else Utf16Length(s[..|s| - 1]) + (if s[|s| - 1] > '\U{FFFF}' then 2 else 1)
  }

  /** A character above U+FFFF takes two code units, any other one. */
  lemma Utf16LengthOfChar(c: char)
    ensures Utf16Length([c]) == if c > '\U{FFFF}' then 2 else 1
  {
  }

  /** The UTF-16 length of a concatenation is the sum of the parts'
      lengths, so a string's length is the sum over its characters. */
  lemma {:induction false} Utf16LengthAdditive(s: string, t: string)
    ensures Utf16Length(s + t) == Utf16Length(s) + Utf16Length(t)
    decreases |t|
  {
    if |t| > 0 {
      var t' := t[..|t| - 1];
      Utf16LengthAdditive(s, t');
      assert (s + t)[..|s + t| - 1] == s + t';
      assert (s + t)[|s + t| - 1] == t[|t| - 1];
    } else {
      assert s + t == s;
    }
  }

  /** The UTF-16 length is the character count exactly when every character
      lies in the Basic Multilingual Plane. */
  lemma {:induction false} Utf16LengthCountsCharsOnlyInBmp(s: string)
    ensures Utf16Length(s) == |s| <==> forall k | 0 <= k < |s| :: s[k] <= '\U{FFFF}'
    decreases |s|
  {
    if |s| > 0 {
      var prefix := s[..|s| - 1];
      Utf16LengthCountsCharsOnlyInBmp(prefix);
      assert forall k | 0 <= k < |prefix| :: prefix[k] == s[k];
    }
  }

}
