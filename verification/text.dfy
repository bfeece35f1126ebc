/**
 The string primitives the page relies on: JavaScript's `String.prototype.trim`
 (only ever used to ask whether the input is blank), an ASCII model of
 `toLowerCase`, `String.prototype.includes`, and the decimal rendering a template
 literal gives a non-negative integer.
 */
module Text {

  /** The characters ECMAScript's `trim` removes: WhiteSpace and LineTerminator. */
  predicate IsJsWhitespace(c: char) {
    || c == '\t' || c == '\n' || c == '\U{B}' || c == '\U{C}' || c == '\r' || c == ' '
    || c == '\U{A0}' || c == '\U{1680}' || ('\U{2000}' <= c <= '\U{200A}')
    || c == '\U{2028}' || c == '\U{2029}' || c == '\U{202F}' || c == '\U{205F}'
    || c == '\U{3000}' || c == '\U{FEFF}'
  }

  predicate AllWhitespace(s: string) {
    forall i :: 0 <= i < |s| ==> IsJsWhitespace(s[i])
  }

  /** Drops leading whitespace. */
  function TrimStart(s: string): (r: string)
    ensures |r| <= |s| && r == s[|s| - |r|..]
    ensures AllWhitespace(s[..|s| - |r|])
    ensures r == [] || !IsJsWhitespace(r[0])
  {
    if |s| > 0 && IsJsWhitespace(s[0]) then
      var r := TrimStart(s[1..]);
      assert s[1..][..|s| - 1 - |r|] == s[1..|s| - |r|];
      r
    else s
  }

  /** Drops trailing whitespace. */
  function TrimEnd(s: string): (r: string)
    ensures |r| <= |s| && r == s[..|r|]
    ensures AllWhitespace(s[|r|..])
    ensures r == [] || !IsJsWhitespace(r[|r| - 1])
  {
    if |s| > 0 && IsJsWhitespace(s[|s| - 1]) then
      var r := TrimEnd(s[..|s| - 1]);
      assert s[..|s| - 1][|r|..] == s[|r|..|s| - 1];
      r
    else s
  }

  /** `s.trim()` */
  function Trim(s: string): string {
    TrimEnd(TrimStart(s))
  }

  /** `!s.trim()`: the trimmed string is the empty string, which is falsy. */
  predicate IsBlank(s: string) {
    Trim(s) == []
  }

  /** A string is blank exactly when every character of it is whitespace. */
  lemma BlankIffAllWhitespace(s: string)
    ensures IsBlank(s) <==> AllWhitespace(s)
  {
  }

  predicate IsUpperAscii(c: char) {
    'A' <= c <= 'Z'
  }

  function LowerChar(c: char): char {
    if IsUpperAscii(c) then (c as int + 32) as char else c
  }

  /** `s.toLowerCase()`, restricted to the ASCII letters. */
  function ToLower(s: string): (r: string)
    ensures |r| == |s|
    ensures forall i :: 0 <= i < |r| ==> !IsUpperAscii(r[i])
    ensures forall i :: 0 <= i < |r| && !IsUpperAscii(s[i]) ==> r[i] == s[i]
    ensures forall i :: 0 <= i < |r| && IsUpperAscii(s[i]) ==> r[i] as int == s[i] as int + 32
  {
    seq(|s|, i requires 0 <= i < |s| => LowerChar(s[i]))
  }

  /** Lower-casing twice is lower-casing once. */
  lemma ToLowerIdempotent(s: string)
    ensures ToLower(ToLower(s)) == ToLower(s)
  {
  }

  /** `key` occurs in `text` starting at position `i`. */
  predicate OccursAt(text: string, key: string, i: int) {
    0 <= i && i + |key| <= |text| && text[i..i + |key|] == key
  }

  /** `text.includes(key)`: a left-to-right scan for `key`. */
  function Includes(text: string, key: string): bool
    decreases |text|
  {
    if |key| > |text| then false
    else if text[..|key|] == key then true
    else Includes(text[1..], key)
  }

  /** The scan finds `key` exactly when `key` occurs somewhere in `text`. */
  lemma {:induction false} IncludesIffOccurs(text: string, key: string)
    ensures Includes(text, key) <==> exists i :: OccursAt(text, key, i)
    decreases |text|
  {
    if |key| > |text| {
    } else if text[..|key|] == key {
      assert OccursAt(text, key, 0);
    } else {
      IncludesIffOccurs(text[1..], key);
      forall i | OccursAt(text, key, i)
        ensures OccursAt(text[1..], key, i - 1)
      {
        assert text[1..][i - 1..i - 1 + |key|] == text[i..i + |key|];
      }
      if Includes(text[1..], key) {
        var i :| OccursAt(text[1..], key, i);
        assert text[1..][i..i + |key|] == text[i + 1..i + 1 + |key|];
        assert OccursAt(text, key, i + 1);
      }
    }
  }

  /** Whatever surrounds it, a string includes itself. */
  lemma IncludesMiddle(a: string, key: string, b: string)
    ensures Includes(a + key + b, key)
  {
    assert (a + key + b)[|a|..|a| + |key|] == key;
    assert OccursAt(a + key + b, key, |a|);
    IncludesIffOccurs(a + key + b, key);
  }

  /** A string that lacks one of the key's characters does not include the key. */
  lemma NotIncludedWhenCharMissing(text: string, key: string, m: nat)
    requires m < |key|
    requires forall i :: 0 <= i < |text| ==> text[i] != key[m]
    ensures !Includes(text, key)
  {
    IncludesIffOccurs(text, key);
  }

  /** The same, with the missing character stated as non-membership. */
  lemma NotIncludedWhenAbsent(text: string, key: string, m: nat)
    requires m < |key| && key[m] !in text
    ensures !Includes(text, key)
  {
    NotIncludedWhenCharMissing(text, key, m);
  }

  predicate IsDigit(c: char) {
    '0' <= c <= '9'
  }

  function DigitChar(d: nat): char
    requires d < 10
  {
    ('0' as int + d) as char
  }

  /** The number a string of decimal digits denotes. */
  function DecimalValue(s: string): nat
    requires forall i :: 0 <= i < |s| ==> IsDigit(s[i])
  {
    if s == [] then 0
    else
      assert IsDigit(s[|s| - 1]);
      10 * DecimalValue(s[..|s| - 1]) + (s[|s| - 1] as int - '0' as int)
  }

  /** `${n}` for a non-negative integer `n`. */
  function Decimal(n: nat): (r: string)
    ensures |r| > 0 && forall i :: 0 <= i < |r| ==> IsDigit(r[i])
    ensures |r| > 1 ==> r[0] != '0'
    ensures DecimalValue(r) == n
  {
    if n < 10 then [DigitChar(n)]
    else
      var r := Decimal(n / 10) + [DigitChar(n % 10)];
      assert r[..|r| - 1] == Decimal(n / 10);
      r
  }
}
