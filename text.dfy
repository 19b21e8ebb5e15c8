/**
 * The string operations that the attribute parsers of app.py rely on:
 * `str.lower()`, `str.strip()`, the `in` substring test and the `\d` digit
 * class. Lowering and digits are modelled on ASCII; other characters
 * (accented letters such as 'í' and 'á' included) are left unchanged.
 */
module Text {

  predicate IsAsciiUpper(c: char) {
    'A' <= c <= 'Z'
  }

  /** The `\d` digit class, restricted to ASCII decimal digits. */
  predicate IsDigit(c: char) {
    '0' <= c <= '9'
  }

  /** The characters `str.strip()` removes (those for which `str.isspace()` holds). */
  predicate IsSpace(c: char) {
    var n := c as int;
    n == 0x20 || 0x09 <= n <= 0x0D || 0x1C <= n <= 0x1F || n == 0x85 || n == 0xA0
    || n == 0x1680 || 0x2000 <= n <= 0x200A || n == 0x2028 || n == 0x2029
    || n == 0x202F || n == 0x205F || n == 0x3000
  }

  /** `str.strip()` never removes a digit or a letter. */
  lemma SpaceIsNeitherDigitNorLetter(c: char)
    ensures IsSpace(c) ==> !IsDigit(c) && !IsAsciiUpper(c) && !('a' <= c <= 'z')
  {
  }

  /** A digit is not whitespace, and lower-casing leaves it unchanged. */
  lemma DigitIsKeptByLowerAndStrip(c: char)
    ensures IsDigit(c) ==> !IsSpace(c) && LowerChar(c) == c
  {
  }

  /** Lower-cases one character: an ASCII capital becomes its small letter. */
  function LowerChar(c: char): (d: char)
    ensures !IsAsciiUpper(d)
    ensures d == c || IsAsciiUpper(c)
    ensures IsAsciiUpper(c) ==> 'a' <= d <= 'z' && d as int - c as int == 'a' as int - 'A' as int
  {
    if IsAsciiUpper(c) then (c as int - 'A' as int + 'a' as int) as char else c
  }

  /** `str.lower()`. */
  function Lower(s: string): (r: string)
    ensures |r| == |s|
    ensures forall i :: 0 <= i < |s| ==> r[i] == LowerChar(s[i])
  {
    if s == [] then [] else [LowerChar(s[0])] + Lower(s[1..])
  }

  /** Lowering keeps digits and whitespace where they are and leaves them unchanged. */
  lemma LowerKeepsDigitsAndSpaces(s: string, i: nat)
    requires i < |s|
    ensures IsDigit(Lower(s)[i]) <==> IsDigit(s[i])
    ensures IsDigit(s[i]) ==> Lower(s)[i] == s[i]
    ensures IsSpace(Lower(s)[i]) <==> IsSpace(s[i])
  {
  }

  /** Lowering twice is lowering once. */
  lemma LowerIdempotent(s: string)
    ensures Lower(Lower(s)) == Lower(s)
  {
    assert forall i :: 0 <= i < |s| ==> Lower(Lower(s))[i] == Lower(s)[i];
  }

  /** Lowering works character by character, so it distributes over concatenation. */
  lemma LowerConcat(a: string, b: string)
    ensures Lower(a + b) == Lower(a) + Lower(b)
  {
    assert forall i :: 0 <= i < |a| + |b| ==> Lower(a + b)[i] == (Lower(a) + Lower(b))[i];
  }

  predicate AllSpaces(s: string) {
    forall i :: 0 <= i < |s| ==> IsSpace(s[i])
  }

  /** The number of whitespace characters at the front. */
  function LeadingSpaces(s: string): (n: nat)
    ensures n <= |s|
    ensures AllSpaces(s[..n])
    ensures n < |s| ==> !IsSpace(s[n])
  {
    if s != [] && IsSpace(s[0]) then 1 + LeadingSpaces(s[1..]) else 0
  }

  /** The number of whitespace characters at the back. */
  function TrailingSpaces(s: string): (n: nat)
    ensures n <= |s|
    ensures AllSpaces(s[|s| - n..])
    ensures n < |s| ==> !IsSpace(s[|s| - 1 - n])
  {
    if s != [] && IsSpace(s[|s| - 1]) then 1 + TrailingSpaces(s[..|s| - 1]) else 0
  }

  /** `str.strip()`: removes whitespace from both ends. */
  function Strip(s: string): (r: string)
    ensures |r| <= |s|
    ensures r != [] ==> !IsSpace(r[0]) && !IsSpace(r[|r| - 1])
  {
    var rest := s[LeadingSpaces(s)..];
    rest[..|rest| - TrailingSpaces(rest)]
  }

  /** The stripped text is a slice of the original with only whitespace around it. */
  lemma StripIsSlice(s: string) returns (p: nat, q: nat)
    ensures p <= q <= |s|
    ensures Strip(s) == s[p..q]
    ensures AllSpaces(s[..p]) && AllSpaces(s[q..])
  {
    p := LeadingSpaces(s);
    var rest := s[p..];
    var n := TrailingSpaces(rest);
    q := p + |rest| - n;
    assert rest[..|rest| - n] == s[p..q];
    assert rest[|rest| - n..] == s[q..];
  }

  /** `k` occurs in `s` at position `i`. */
  predicate OccursAt(s: string, k: string, i: nat) {
    i + |k| <= |s| && s[i..i + |k|] == k
  }

  /** The substring test `k in s`; as in Python, the empty word occurs in every text. */
  predicate Contains(s: string, k: string)
    ensures Contains(s, k) ==> |k| <= |s|
    ensures k == [] ==> Contains(s, k)
  {
    assert k == [] ==> OccursAt(s, k, 0);
    exists i | 0 <= i <= |s| - |k| :: OccursAt(s, k, i)
  }

  /** Text added after never removes an occurrence. */
  lemma ContainsAppended(s: string, k: string, t: string)
    requires Contains(s, k)
    ensures Contains(s + t, k)
  {
    var i :| 0 <= i <= |s| - |k| && OccursAt(s, k, i);
    assert (s + t)[i..i + |k|] == s[i..i + |k|];
    assert OccursAt(s + t, k, i);
  }

  /** Text added before never removes an occurrence. */
  lemma ContainsPrepended(s: string, k: string, t: string)
    requires Contains(s, k)
    ensures Contains(t + s, k)
  {
    var i :| 0 <= i <= |s| - |k| && OccursAt(s, k, i);
    forall j | 0 <= j < |k| ensures k[j] == (t + s)[|t| + i + j] {
      assert k[j] == s[i..i + |k|][j];
    }
    assert (t + s)[|t| + i..|t| + i + |k|] == k;
    assert OccursAt(t + s, k, |t| + i);
  }

  /** An occurrence of a word is also an occurrence of each of its prefixes. */
  lemma ContainsPrefix(s: string, k: string, k': string)
    requires Contains(s, k)
    requires k' <= k
    ensures Contains(s, k')
  {
    var i :| 0 <= i <= |s| - |k| && OccursAt(s, k, i);
    assert s[i..i + |k'|] == k[..|k'|];
    assert OccursAt(s, k', i);
  }

  /** A word whose first character is absent from the text does not occur in it. */
  lemma AbsentFirstChar(s: string, k: string)
    requires k != []
    requires forall i :: 0 <= i < |s| ==> s[i] != k[0]
    ensures !Contains(s, k)
  {
    forall i | 0 <= i <= |s| - |k|
      ensures !OccursAt(s, k, i)
    {
      assert s[i..i + |k|][0] == s[i];
    }
  }

  /** A word that neither starts nor ends with whitespace occurs in a text exactly
      when it occurs in the part of the text between surrounding whitespace. */
  lemma {:induction false} ContainsInSlice(t: string, k: string, p: nat, q: nat)
    requires p <= q <= |t|
    requires AllSpaces(t[..p]) && AllSpaces(t[q..])
    requires k != [] && !IsSpace(k[0]) && !IsSpace(k[|k| - 1])
    ensures Contains(t[p..q], k) <==> Contains(t, k)
  {
    var m := t[p..q];
    if Contains(m, k) {
      var i :| 0 <= i <= |m| - |k| && OccursAt(m, k, i);
      forall j | 0 <= j < |k| ensures k[j] == t[p + i + j] {
        assert k[j] == m[i..i + |k|][j];
      }
      assert t[p + i..p + i + |k|] == k;
      assert OccursAt(t, k, p + i);
    }
    if Contains(t, k) {
      var i :| 0 <= i <= |t| - |k| && OccursAt(t, k, i);
      assert !IsSpace(t[i]) && !IsSpace(t[i + |k| - 1]) by {
        assert t[i..i + |k|][0] == t[i];
        assert t[i..i + |k|][|k| - 1] == t[i + |k| - 1];
      }
      assert forall j :: 0 <= j < p ==> IsSpace(t[..p][j]);
      assert forall j :: q <= j < |t| ==> IsSpace(t[j]) by {
        forall j | q <= j < |t| ensures IsSpace(t[j]) {
          assert t[q..][j - q] == t[j];
        }
      }
      assert p <= i && i + |k| <= q;
      forall j | 0 <= j < |k| ensures k[j] == m[i - p + j] {
        assert k[j] == t[i..i + |k|][j];
      }
      assert m[i - p..i - p + |k|] == k;
      assert OccursAt(m, k, i - p);
    }
  }

  /** Stripping whitespace from both ends does not change whether a word that
      neither starts nor ends with whitespace occurs in the text. */
  lemma StripKeepsWord(s: string, k: string)
    requires k != [] && !IsSpace(k[0]) && !IsSpace(k[|k| - 1])
    ensures Contains(Strip(s), k) <==> Contains(s, k)
  {
    var p, q := StripIsSlice(s);
    ContainsInSlice(s, k, p, q);
  }
}
