/**
 * The pieces of the .NET base library that the core's string handling relies on:
 * `char.IsWhiteSpace`, `string.Trim`, `string.ToLowerInvariant`, `string.Split`,
 * `int.TryParse` and the decimal formatting of integers in interpolated strings.
 */
module Strings {
  import opened Common

  // ---------------------------------------------------------------------------
  // Character classes
  // ---------------------------------------------------------------------------

  /** `char.IsWhiteSpace`: U+0009..U+000D, U+0085 and the Unicode space, line and paragraph separators. */
  predicate IsWhiteSpace(c: char) {
    || c == ' ' || ('\t' <= c <= '\r') || c == '\U{85}' || c == '\U{A0}' || c == '\U{1680}'
    || ('\U{2000}' <= c <= '\U{200A}') || c == '\U{2028}' || c == '\U{2029}'
    || c == '\U{202F}' || c == '\U{205F}' || c == '\U{3000}'
  }

  /** The white space `int.TryParse` skips around a number (NumberStyles.Integer). */
  predicate IsNumberWhite(c: char) {
    c == ' ' || ('\t' <= c <= '\r')
  }

  predicate IsDigit(c: char) {
    '0' <= c <= '9'
  }

  predicate AllDigits(s: string) {
    forall i :: 0 <= i < |s| ==> IsDigit(s[i])
  }

  // ---------------------------------------------------------------------------
  // Trimming
  // ---------------------------------------------------------------------------

  /** Drops the longest prefix of characters satisfying `p`. */
  function TrimStartWhere(s: string, p: char -> bool): (r: string)
    ensures |r| <= |s| && r == s[|s| - |r|..]
    ensures r == [] || !p(r[0])
    ensures forall i :: 0 <= i < |s| - |r| ==> p(s[i])
  {
    if s != [] && p(s[0]) then
      var r := TrimStartWhere(s[1..], p);
      assert forall i :: 1 <= i < |s| - |r| ==> s[i] == s[1..][i - 1];
      r
    else
      s
  }

  /** Drops the longest suffix of characters satisfying `p`. */
  function TrimEndWhere(s: string, p: char -> bool): (r: string)
    ensures |r| <= |s| && r == s[..|r|]
    ensures r == [] || !p(r[|r| - 1])
    ensures forall i :: |r| <= i < |s| ==> p(s[i])
  {
    if s != [] && p(s[|s| - 1]) then
      var r := TrimEndWhere(s[..|s| - 1], p);
      assert forall i :: |r| <= i < |s| - 1 ==> s[i] == s[..|s| - 1][i];
      r
    else
      s
  }

  /** `string.Trim()`: removes leading and trailing white space, keeps the rest unchanged. */
  function Trim(s: string): (r: string)
    ensures |r| <= |s|
    ensures r == [] || (!IsWhiteSpace(r[0]) && !IsWhiteSpace(r[|r| - 1]))
    ensures (forall i :: 0 <= i < |s| ==> !IsWhiteSpace(s[i])) ==> r == s
    ensures exists k :: SurroundedBy(s, r, k, IsWhiteSpace)
  {
    var t := TrimStartWhere(s, IsWhiteSpace);
    var r := TrimEndWhere(t, IsWhiteSpace);
    TrimSurrounded(s, t, r, IsWhiteSpace);
    r
  }

  /**
   * Dropping a prefix of `p`-characters from `s`, giving `t`, then a suffix of `p`-characters
   * from `t`, giving `r`, leaves `r` in `s` with only `p`-characters around it.
   */
  lemma TrimSurrounded(s: string, t: string, r: string, p: char -> bool)
    requires |t| <= |s| && t == s[|s| - |t|..] && forall i :: 0 <= i < |s| - |t| ==> p(s[i])
    requires |r| <= |t| && r == t[..|r|] && forall i :: |r| <= i < |t| ==> p(t[i])
    ensures SurroundedBy(s, r, |s| - |t|, p)
  {
    var k := |s| - |t|;
    assert r == s[k..k + |r|];
    forall i | k + |r| <= i < |s|
      ensures p(s[i])
    {
      assert s[i] == t[i - k];
    }
  }

  /** `r` sits in `s` at offset `k`, and every character of `s` before or after it satisfies `p`. */
  predicate SurroundedBy(s: string, r: string, k: int, p: char -> bool) {
    && 0 <= k <= |s| - |r| && r == s[k..k + |r|]
    && (forall i :: 0 <= i < k ==> p(s[i]))
    && (forall i :: k + |r| <= i < |s| ==> p(s[i]))
  }

  // ---------------------------------------------------------------------------
  // Case mapping
  // ---------------------------------------------------------------------------

  /**
   * `char.ToLowerInvariant`, restricted to the mappings that produce an ASCII letter:
   * 'A'..'Z', U+0130 (capital I with dot) and U+212A (Kelvin sign). Every other
   * character is returned unchanged.
   */
  function ToLowerChar(c: char): char {
    if 'A' <= c <= 'Z' then (c as int + 32) as char
    else if c == '\U{130}' then 'i'
    else if c == '\U{212A}' then 'k'
    else c
  }

  function ToLower(s: string): (r: string)
    ensures |r| == |s|
    ensures forall i :: 0 <= i < |s| ==> r[i] == ToLowerChar(s[i])
  {
    if s == [] then [] else [ToLowerChar(s[0])] + ToLower(s[1..])
  }

  /** Lower-casing twice is lower-casing once. */
  lemma {:induction false} ToLowerIdempotent(s: string)
    ensures ToLower(ToLower(s)) == ToLower(s)
  {
    if s != [] {
      ToLowerIdempotent(s[1..]);
      assert ToLower(s)[1..] == ToLower(s[1..]);
    }
  }

  // ---------------------------------------------------------------------------
  // Splitting
  // ---------------------------------------------------------------------------

  /** `string.Split(sep)`: the pieces between separators, empty ones included. */
  function Split(s: string, sep: char): (pieces: seq<string>)
    ensures |pieces| >= 1
    ensures forall i :: 0 <= i < |pieces| ==> sep !in pieces[i]
  {
    if s == [] then [[]]
    else
      var rest := Split(s[1..], sep);
      if s[0] == sep then [[]] + rest
      else [[s[0]] + rest[0]] + rest[1..]
  }

  /** `string.Join(sep, pieces)`, the inverse of `Split`. */
  function Join(pieces: seq<string>, sep: char): string
    requires |pieces| >= 1
  {
    if |pieces| == 1 then pieces[0] else pieces[0] + [sep] + Join(pieces[1..], sep)
  }

  lemma {:induction false} JoinSplit(s: string, sep: char)
    ensures Join(Split(s, sep), sep) == s
  {
    if s != [] {
      JoinSplit(s[1..], sep);
      var rest := Split(s[1..], sep);
      if s[0] != sep {
        var pieces := [[s[0]] + rest[0]] + rest[1..];
        if |rest| > 1 {
          assert pieces[1..] == rest[1..];
          assert Join(rest, sep) == rest[0] + [sep] + Join(rest[1..], sep);
        }
      } else {
        assert ([[]] + rest)[1..] == rest;
      }
    }
  }

  /** `StringSplitOptions.RemoveEmptyEntries`: keeps the non-empty pieces, in order. */
  function RemoveEmpty(pieces: seq<string>): (r: seq<string>)
    ensures forall i :: 0 <= i < |r| ==> r[i] != [] && r[i] in pieces
    ensures forall p :: p in pieces && p != [] ==> p in r
  {
    if pieces == [] then []
    else (if pieces[0] == [] then [] else [pieces[0]]) + RemoveEmpty(pieces[1..])
  }

  /** Removing the empty pieces keeps the order: it works piece by piece, left to right. */
  lemma {:induction false} RemoveEmptyAppend(a: seq<string>, b: seq<string>)
    ensures RemoveEmpty(a + b) == RemoveEmpty(a) + RemoveEmpty(b)
  {
    if a != [] {
      assert (a + b)[1..] == a[1..] + b;
      RemoveEmptyAppend(a[1..], b);
    } else {
      assert a + b == b;
    }
  }

  /** `Array.IndexOf`: the first index holding `x`, or -1. */
  function IndexOf(xs: seq<string>, x: string): (i: int)
    ensures -1 <= i < |xs|
    ensures i == -1 <==> x !in xs
    ensures i >= 0 ==> xs[i] == x && forall j :: 0 <= j < i ==> xs[j] != x
  {
    if xs == [] then -1
    else if xs[0] == x then 0
    else
      var k := IndexOf(xs[1..], x);
      if k == -1 then -1 else k + 1
  }

  // ---------------------------------------------------------------------------
  // Decimal numbers
  // ---------------------------------------------------------------------------

  const Int32Min: int := -0x8000_0000
  const Int32Max: int := 0x7FFF_FFFF

  function DigitChar(d: nat): (c: char)
    requires d < 10
    ensures IsDigit(c)
  {
    (('0' as int) + d) as char
  }

  function DigitValue(c: char): nat
    requires IsDigit(c)
  {
    (c as int) - ('0' as int)
  }

  /** The value of a string of decimal digits (leading zeros allowed). */
  function DigitsValue(s: string): nat
    requires AllDigits(s)
  {
    if s == [] then 0 else DigitsValue(s[..|s| - 1]) * 10 + DigitValue(s[|s| - 1])
  }

  /** The shortest decimal spelling of `n`, as `n.ToString()` writes it. */
  function NatToString(n: nat): (s: string)
    ensures |s| >= 1 && AllDigits(s)
    ensures |s| > 1 ==> s[0] != '0'
  {
    if n < 10 then [DigitChar(n)] else NatToString(n / 10) + [DigitChar(n % 10)]
  }

  /** `int.ToString()` in the invariant culture. */
  function IntToString(i: int): (s: string)
    ensures |s| >= 1 && (AllDigits(s) || (s[0] == '-' && AllDigits(s[1..])))
  {
    if i < 0 then "-" + NatToString(-i) else NatToString(i)
  }

  lemma {:induction false} NatToStringValue(n: nat)
    ensures DigitsValue(NatToString(n)) == n
  {
    if n >= 10 {
      NatToStringValue(n / 10);
      var s := NatToString(n);
      assert s[..|s| - 1] == NatToString(n / 10);
    }
  }

  /** The NUL characters .NET's number parsing tolerates at the very end of its input. */
  predicate IsNul(c: char) {
    c == '\0'
  }

  /**
   * `int.TryParse(s, out v)` with NumberStyles.Integer in a culture whose signs are '+' and
   * '-': optional white space, an optional sign, one or more ASCII digits, optional white
   * space, then any number of NUL characters, and a value that fits in 32 bits.
   */
  function TryParseInt32(s: string): (r: Option<int>)
    ensures r.Some? ==> Int32Min <= r.value <= Int32Max
  {
    ParseSigned(NumberPart(s))
  }

  /** What is left of `int.TryParse`'s input once the surrounding white space and trailing NULs are gone. */
  function NumberPart(s: string): string {
    TrimEndWhere(TrimEndWhere(TrimStartWhere(s, IsNumberWhite), IsNul), IsNumberWhite)
  }

  /** The signed-digits part of `int.TryParse`, after the surrounding white space is gone. */
  function ParseSigned(t: string): (r: Option<int>)
    ensures r.Some? ==> Int32Min <= r.value <= Int32Max
  {
    var negative := |t| > 0 && t[0] == '-';
    var body := if |t| > 0 && (t[0] == '-' || t[0] == '+') then t[1..] else t;
    if body == [] || !AllDigits(body) then None
    else
      var v: int := if negative then 0 - DigitsValue(body) else DigitsValue(body);
      if Int32Min <= v <= Int32Max then Some(v) else None
  }

  /** A string with no white space at either end, and no NUL at its end, is left alone by the number trimming. */
  lemma UntrimmedNumber(s: string)
    requires s != [] && !IsNumberWhite(s[0]) && !IsNumberWhite(s[|s| - 1]) && !IsNul(s[|s| - 1])
    ensures NumberPart(s) == s
  {
  }

  /** Parsing what `int.ToString()` wrote gives the number back. */
  lemma ParseIntToString(i: int)
    requires Int32Min <= i <= Int32Max
    ensures TryParseInt32(IntToString(i)) == Some(i)
  {
    var s := IntToString(i);
    if i < 0 {
      var d := NatToString(-i);
      assert s == "-" + d;
      assert s[|s| - 1] == d[|d| - 1];
      UntrimmedNumber(s);
      ParseNegative(-i);
    } else {
      UntrimmedNumber(s);
      ParseNatural(i);
    }
  }

  lemma ParseNatural(n: nat)
    requires n <= Int32Max
    ensures ParseSigned(NatToString(n)) == Some(n)
  {
    NatToStringValue(n);
  }

  lemma ParseNegative(n: nat)
    requires 0 < n <= -Int32Min
    ensures ParseSigned("-" + NatToString(n)) == Some(-(n as int))
  {
    var d := NatToString(n);
    var t := "-" + d;
    assert t[0] == '-' && t[1..] == d;
    NatToStringValue(n);
  }

  /** A string that does not end in white space or NUL and is not a signed run of digits is rejected. */
  lemma TryParseRejectsNonDigits(s: string)
    requires s != [] && !IsNumberWhite(s[0]) && !IsNumberWhite(s[|s| - 1]) && !IsNul(s[|s| - 1])
    requires exists i :: 0 <= i < |s| && !IsDigit(s[i]) && (i > 0 || (s[0] != '-' && s[0] != '+'))
    ensures TryParseInt32(s) == None
  {
    UntrimmedNumber(s);
    var i :| 0 <= i < |s| && !IsDigit(s[i]) && (i > 0 || (s[0] != '-' && s[0] != '+'));
    if s[0] == '-' || s[0] == '+' {
      assert !IsDigit(s[1..][i - 1]);
    }
  }

  /** NUL characters after a formatted number, and white space before them, do not stop it from parsing. */
  lemma TrailingNulsAccepted(i: int, white: string, nuls: string)
    requires Int32Min <= i <= Int32Max
    requires forall j :: 0 <= j < |white| ==> IsNumberWhite(white[j])
    requires forall j :: 0 <= j < |nuls| ==> IsNul(nuls[j])
    ensures TryParseInt32(IntToString(i) + white + nuls) == Some(i)
  {
    var d := IntToString(i);
    var s := d + white + nuls;
    assert s[0] == d[0];
    var t := TrimStartWhere(s, IsNumberWhite);
    assert t == s;
    assert IsDigit(d[|d| - 1]);
    assert (d + white)[|d + white| - 1] == if white == [] then d[|d| - 1] else white[|white| - 1];
    NulsTrimmed(d + white, nuls);
    WhiteTrimmed(d, white);
    ParseIntToString(i);
    UntrimmedNumber(d);
  }

  lemma {:induction false} NulsTrimmed(s: string, nuls: string)
    requires s != [] && !IsNul(s[|s| - 1])
    requires forall j :: 0 <= j < |nuls| ==> IsNul(nuls[j])
    ensures TrimEndWhere(s + nuls, IsNul) == s
  {
    if nuls != [] {
      var u := s + nuls;
      assert u[..|u| - 1] == s + nuls[..|nuls| - 1];
      NulsTrimmed(s, nuls[..|nuls| - 1]);
    } else {
      assert s + nuls == s;
    }
  }

  lemma {:induction false} WhiteTrimmed(s: string, white: string)
    requires s != [] && !IsNumberWhite(s[|s| - 1])
    requires forall j :: 0 <= j < |white| ==> IsNumberWhite(white[j])
    ensures TrimEndWhere(s + white, IsNumberWhite) == s
  {
    if white != [] {
      var u := s + white;
      assert u[..|u| - 1] == s + white[..|white| - 1];
      WhiteTrimmed(s, white[..|white| - 1]);
    } else {
      assert s + white == s;
    }
  }
}
