/**
 * Model of the two attribute-text parsers of app.py that turn spreadsheet
 * cells into numbers: `_extract_minutes` (preparation time in minutes) and
 * `_to_bool_natural` (whether the text marks the product as natural or
 * organic).
 */
module ProductAttributes {
  import opened Wrappers
  import opened Text

  predicate AllDigits(s: string) {
    forall k :: 0 <= k < |s| ==> IsDigit(s[k])
  }

  predicate NoDigits(s: string) {
    forall k :: 0 <= k < |s| ==> !IsDigit(s[k])
  }

  function DigitValue(c: char): (v: nat)
    requires IsDigit(c)
    ensures v < 10
  {
    c as int - '0' as int
  }

  function Pow10(n: nat): (p: nat)
    ensures p >= 1
  {
    if n == 0 then 1 else 10 * Pow10(n - 1)
  }

  /** The number a string of decimal digits denotes (leading zeros allowed):
      a run of `k` digits stands for a number below 10^k. */
  function DecimalValue(ds: string): (n: nat)
    requires AllDigits(ds)
    ensures n < Pow10(|ds|)
  {
    if ds == [] then 0 else 10 * DecimalValue(ds[..|ds| - 1]) + DigitValue(ds[|ds| - 1])
  }

  function DigitChar(d: nat): (c: char)
    requires d < 10
    ensures IsDigit(c) && DigitValue(c) == d
  {
    ('0' as int + d) as char
  }

  /** The decimal spelling of a natural number, most significant digit first. */
  function DecimalString(n: nat): (ds: string)
    ensures ds != [] && AllDigits(ds)
  {
    if n < 10 then [DigitChar(n)] else DecimalString(n / 10) + [DigitChar(n % 10)]
  }

  /** Reading back the decimal spelling of a number gives the number. */
  lemma {:induction false} DecimalRoundTrip(n: nat)
    ensures DecimalValue(DecimalString(n)) == n
  {
    if n >= 10 {
      var ds := DecimalString(n);
      assert ds[..|ds| - 1] == DecimalString(n / 10);
      DecimalRoundTrip(n / 10);
    }
  }

  /** `s[i..j]` is the match of the regular expression `(\d+)` found by
      `re.search`: the leftmost digit, extended as far as digits go. */
  ghost predicate IsLeftmostRun(s: string, i: int, j: int) {
    0 <= i < j <= |s|
    && (forall k :: 0 <= k < i ==> !IsDigit(s[k]))
    && (forall k :: i <= k < j ==> IsDigit(s[k]))
    && (j == |s| || !IsDigit(s[j]))
  }

  /** Where the search finds its first digit, or |s| when there is none. */
  function RunStart(s: string): (i: nat)
    ensures i <= |s|
    ensures forall k :: 0 <= k < i ==> !IsDigit(s[k])
    ensures i < |s| ==> IsDigit(s[i])
  {
    if s == [] || IsDigit(s[0]) then 0 else 1 + RunStart(s[1..])
  }

  /** Where the greedy `\d+` that starts at `i` stops. */
  function RunEnd(s: string, i: nat): (j: nat)
    requires i <= |s|
    ensures i <= j <= |s|
    ensures forall k :: i <= k < j ==> IsDigit(s[k])
    ensures j < |s| ==> !IsDigit(s[j])
    decreases |s| - i
  {
    if i < |s| && IsDigit(s[i]) then RunEnd(s, i + 1) else i
  }

  /** The leftmost maximal run is exactly the one the search computes. */
  lemma LeftmostRunIsComputed(s: string, i: int, j: int)
    requires IsLeftmostRun(s, i, j)
    ensures i == RunStart(s) && j == RunEnd(s, i)
  {
    assert IsDigit(s[i]);
    var e := RunEnd(s, i);
    assert e < |s| ==> !IsDigit(s[e]);
    assert j < |s| ==> !IsDigit(s[j]);
  }

  /** `re.search(r"(\d+)", s)` followed by reading the captured digits as a
      number: `None` when the text holds no digit at all. */
  function FirstNumber(s: string): (r: Option<nat>)
    ensures r.None? <==> NoDigits(s)
    ensures forall i, j :: IsLeftmostRun(s, i, j) ==> r == Some(DecimalValue(s[i..j]))
  {
    var i := RunStart(s);
    assert forall i', j' :: IsLeftmostRun(s, i', j') ==> i' == i && j' == RunEnd(s, i) by {
      forall i', j' | IsLeftmostRun(s, i', j') ensures i' == i && j' == RunEnd(s, i) {
        LeftmostRunIsComputed(s, i', j');
      }
    }
    if i == |s| then None else Some(DecimalValue(s[i..RunEnd(s, i)]))
  }

  /** A text with a digit has a leftmost maximal run of digits. */
  lemma LeftmostRunExists(s: string) returns (i: nat, j: nat)
    requires !NoDigits(s)
    ensures IsLeftmostRun(s, i, j)
  {
    i := RunStart(s);
    j := RunEnd(s, i);
  }

  /** Lower-casing moves no digit, so the leftmost run stays where it is. */
  lemma LowerKeepsRun(s: string, i: int, j: int)
    requires IsLeftmostRun(s, i, j)
    ensures IsLeftmostRun(Lower(s), i, j)
    ensures Lower(s)[i..j] == s[i..j]
  {
    forall k | 0 <= k < |s| ensures IsDigit(Lower(s)[k]) <==> IsDigit(s[k]) {
      LowerKeepsDigitsAndSpaces(s, k);
    }
    forall k | i <= k < j ensures Lower(s)[k] == s[k] {
      LowerKeepsDigitsAndSpaces(s, k);
    }
  }

  /** Cutting off digit-free text at both ends keeps the leftmost run, shifted. */
  lemma SliceKeepsRun(t: string, p: nat, q: nat, i: int, j: int)
    requires p <= q <= |t|
    requires NoDigits(t[..p]) && NoDigits(t[q..])
    requires IsLeftmostRun(t, i, j)
    ensures p <= i && j <= q
    ensures IsLeftmostRun(t[p..q], i - p, j - p)
    ensures t[p..q][i - p..j - p] == t[i..j]
  {
    assert forall k :: 0 <= k < p ==> !IsDigit(t[k]) by {
      forall k | 0 <= k < p ensures !IsDigit(t[k]) {
        assert t[..p][k] == t[k];
      }
    }
    assert forall k :: q <= k < |t| ==> !IsDigit(t[k]) by {
      forall k | q <= k < |t| ensures !IsDigit(t[k]) {
        assert t[q..][k - q] == t[k];
      }
    }
    assert IsDigit(t[i]) && IsDigit(t[j - 1]);
    forall k | 0 <= k < j - i ensures t[p..q][i - p..j - p][k] == t[i..j][k] {
      assert t[p..q][i - p + k] == t[i + k];
    }
  }

  lemma SpacesHoldNoDigits(s: string)
    requires AllSpaces(s)
    ensures NoDigits(s)
  {
  }

  /** Lower-casing and stripping a text with no digit leaves no digit. */
  lemma NormalizedNoDigits(s: string)
    requires NoDigits(s)
    ensures NoDigits(Strip(Lower(s)))
  {
    var low := Lower(s);
    var p, q := StripIsSlice(low);
    var m := low[p..q];
    forall k | 0 <= k < |m| ensures !IsDigit(m[k]) {
      assert m[k] == low[p + k];
      LowerKeepsDigitsAndSpaces(s, p + k);
    }
    assert NoDigits(m);
  }

  /** Lower-casing and stripping keep the leftmost run of digits. */
  lemma NormalizedRun(s: string, i: int, j: int)
    requires IsLeftmostRun(s, i, j)
    ensures FirstNumber(Strip(Lower(s))) == Some(DecimalValue(s[i..j]))
  {
    var low := Lower(s);
    var p, q := StripIsSlice(low);
    SpacesHoldNoDigits(low[..p]);
    SpacesHoldNoDigits(low[q..]);
    LowerKeepsRun(s, i, j);
    SliceKeepsRun(low, p, q, i, j);
    assert IsLeftmostRun(Strip(low), i - p, j - p);
  }

  /** After lower-casing and stripping, the search finds a number exactly when
      the text as given holds a digit. */
  lemma NormalizedFindsNumber(s: string)
    ensures FirstNumber(Strip(Lower(s))).None? <==> NoDigits(s)
  {
    if NoDigits(s) {
      NormalizedNoDigits(s);
    } else {
      var i, j := LeftmostRunExists(s);
      NormalizedRun(s, i, j);
    }
  }

  /** Lower-casing and stripping the text before the search finds the same
      number as searching the text as given. */
  lemma NormalizedFirstNumber(s: string)
    ensures forall i, j :: IsLeftmostRun(s, i, j) ==>
      FirstNumber(Strip(Lower(s))) == Some(DecimalValue(s[i..j]))
  {
    forall i, j | IsLeftmostRun(s, i, j)
      ensures FirstNumber(Strip(Lower(s))) == Some(DecimalValue(s[i..j]))
    {
      NormalizedRun(s, i, j);
    }
  }

  /** `_extract_minutes`. A value that is not a string (`None`) gives 0; a text
      whose lower-cased form mentions "listo" (ready to eat) gives 0 whatever
      digits it holds; otherwise the result is the number spelled by the
      leftmost maximal run of digits, and 0 when the text has no digit. */
  function ExtractMinutes(x: Option<string>): (r: nat)
    ensures x.None? ==> r == 0
    ensures x.Some? && Contains(Lower(x.value), "listo") ==> r == 0
    ensures x.Some? && NoDigits(x.value) ==> r == 0
    ensures x.Some? && !Contains(Lower(x.value), "listo") ==>
      forall i, j :: IsLeftmostRun(x.value, i, j) ==> r == DecimalValue(x.value[i..j])
  {
    match x
    case None => 0
    case Some(s) =>
      var low := Strip(Lower(s));
      StripKeepsWord(Lower(s), "listo");
      NormalizedFindsNumber(s);
      NormalizedFirstNumber(s);
      if Contains(low, "listo") then 0
      else
        match FirstNumber(low)
        case None => 0
        case Some(n) => n
  }

  /** Upper- or lower-case spelling makes no difference to the minutes. */
  lemma ExtractMinutesIgnoresCase(s: string)
    ensures ExtractMinutes(Some(Lower(s))) == ExtractMinutes(Some(s))
  {
    LowerIdempotent(s);
  }

  /** Whitespace around a text does not change whether its lower-cased form
      mentions a word that neither starts nor ends with whitespace. */
  lemma SurroundingSpaceKeepsWord(pre: string, s: string, post: string, k: string)
    requires AllSpaces(pre) && AllSpaces(post)
    requires k != [] && !IsSpace(k[0]) && !IsSpace(k[|k| - 1])
    ensures Contains(Lower(pre + s + post), k) <==> Contains(Lower(s), k)
  {
    var t := pre + s + post;
    var p, q := |pre|, |pre| + |s|;
    LowerConcat(pre + s, post);
    LowerConcat(pre, s);
    var low := Lower(t);
    assert low[p..q] == Lower(s);
    forall i | 0 <= i < p ensures IsSpace(low[..p][i]) {
      LowerKeepsDigitsAndSpaces(t, i);
    }
    forall i | 0 <= i < |low| - q ensures IsSpace(low[q..][i]) {
      LowerKeepsDigitsAndSpaces(t, q + i);
    }
    ContainsInSlice(low, k, p, q);
  }

  /** Whitespace around a text adds no digit and keeps its leftmost run of digits. */
  lemma SurroundingSpaceKeepsRun(pre: string, s: string, post: string)
    requires AllSpaces(pre) && AllSpaces(post)
    ensures NoDigits(pre + s + post) <==> NoDigits(s)
    ensures forall i, j :: IsLeftmostRun(pre + s + post, i, j) ==>
      IsLeftmostRun(s, i - |pre|, j - |pre|) && (pre + s + post)[i..j] == s[i - |pre|..j - |pre|]
  {
    var t := pre + s + post;
    var p, q := |pre|, |pre| + |s|;
    assert t[p..q] == s;
    assert t[..p] == pre && t[q..] == post;
    SpacesHoldNoDigits(pre);
    SpacesHoldNoDigits(post);
    forall i, j | IsLeftmostRun(t, i, j)
      ensures IsLeftmostRun(s, i - p, j - p) && t[i..j] == s[i - p..j - p]
    {
      SliceKeepsRun(t, p, q, i, j);
    }
  }

  /** Whitespace around the text makes no difference to the minutes. */
  lemma ExtractMinutesIgnoresSurroundingSpace(pre: string, s: string, post: string)
    requires AllSpaces(pre) && AllSpaces(post)
    ensures ExtractMinutes(Some(pre + s + post)) == ExtractMinutes(Some(s))
  {
    var t := pre + s + post;
    SurroundingSpaceKeepsWord(pre, s, post, "listo");
    SurroundingSpaceKeepsRun(pre, s, post);
    if !NoDigits(t) {
      var i, j := LeftmostRunExists(t);
      assert IsLeftmostRun(s, i - |pre|, j - |pre|);
    }
  }

  /** Digits followed by " minutos" never mention "listo". */
  lemma WrittenMinutesNotReady(ds: string)
    requires AllDigits(ds)
    ensures !Contains(Lower(ds + " minutos"), "listo")
  {
    var s := ds + " minutos";
    var low := Lower(s);
    forall k | 0 <= k < |low| ensures low[k] != 'l' {
      if k < |ds| {
        assert s[k] == ds[k];
      } else {
        assert s[k] == " minutos"[k - |ds|];
      }
    }
    AbsentFirstChar(low, "listo");
  }

  /** In digits followed by " minutos", the digits are the leftmost run. */
  lemma WrittenMinutesRun(ds: string)
    requires ds != [] && AllDigits(ds)
    ensures IsLeftmostRun(ds + " minutos", 0, |ds|)
    ensures (ds + " minutos")[0..|ds|] == ds
  {
    var s := ds + " minutos";
    assert s[|ds|] == ' ';
    assert forall k :: 0 <= k < |ds| ==> s[k] == ds[k];
  }

  /** A time written as a number followed by " minutos" reads back as that
      number of minutes. */
  lemma ExtractMinutesReadsWrittenMinutes(n: nat)
    ensures ExtractMinutes(Some(DecimalString(n) + " minutos")) == n
  {
    var ds := DecimalString(n);
    WrittenMinutesNotReady(ds);
    WrittenMinutesRun(ds);
    ExtractMinutesOfRun(ds + " minutos", 0, |ds|);
    DecimalRoundTrip(n);
  }

  /** With no "listo" in the text, the minutes are the value of its leftmost run. */
  lemma ExtractMinutesOfRun(s: string, i: int, j: int)
    requires !Contains(Lower(s), "listo")
    requires IsLeftmostRun(s, i, j)
    ensures ExtractMinutes(Some(s)) == DecimalValue(s[i..j])
  {
  }

  // The example lemmas below take their text as a parameter fixed by `requires`:
  // with the literal written directly into the ensures, the verifier unfolds
  // ExtractMinutes on the constant string and runs out of resources.

  /** "5 minutos" reads as 5. */
  lemma ExtractMinutesFiveMinutes(s: string)
    requires s == "5 minutos"
    ensures ExtractMinutes(Some(s)) == 5
  {
    AbsentFirstChar(Lower(s), "listo");
    ExtractMinutesOfRun(s, 0, 1);
    assert DecimalValue(s[0..1]) == 5 by {
      assert s[0..1] == "5";
    }
  }

  /** A range "10-12 min" reads as its first number, 10. */
  lemma ExtractMinutesRange(s: string)
    requires s == "10-12 min"
    ensures ExtractMinutes(Some(s)) == 10
  {
    AbsentFirstChar(Lower(s), "listo");
    ExtractMinutesOfRun(s, 0, 2);
    assert DecimalValue(s[0..2]) == 10 by {
      assert s[0..2] == "10" && "10"[..1] == "1";
    }
  }

  /** A minus sign is not part of the number: "-5 min" reads as 5. */
  lemma ExtractMinutesIgnoresSign(s: string)
    requires s == "-5 min"
    ensures ExtractMinutes(Some(s)) == 5
  {
    AbsentFirstChar(Lower(s), "listo");
    ExtractMinutesOfRun(s, 1, 2);
    assert DecimalValue(s[1..2]) == 5 by {
      assert s[1..2] == "5";
    }
  }

  /** "Listo para comer" (ready to eat) reads as 0 minutes. */
  lemma ExtractMinutesReadyToEat(s: string)
    requires s == "Listo para comer"
    ensures ExtractMinutes(Some(s)) == 0
  {
    assert Lower(s)[0..5] == "listo";
    assert OccursAt(Lower(s), "listo", 0);
  }

  /** "LISTO en 5 min" reads as 0 minutes despite its digit. */
  lemma ExtractMinutesReadyDespiteDigits(s: string)
    requires s == "LISTO en 5 min"
    ensures ExtractMinutes(Some(s)) == 0
  {
    assert Lower(s)[0..5] == "listo";
    assert OccursAt(Lower(s), "listo", 0);
  }

  /** The words whose presence `_to_bool_natural` reads as "natural", in the
      order the source lists them. */
  const NaturalKeywords: seq<string> := ["sí", "si", "orgánico", "organico", "organic"]

  /** `any(k in s for k in ks)`. */
  function AnyKeywordIn(ks: seq<string>, s: string): (b: bool)
    ensures b <==> exists n :: 0 <= n < |ks| && Contains(s, ks[n])
  {
    if ks == [] then false
    else
      assert forall n :: 0 <= n < |ks| - 1 ==> ks[1..][n] == ks[n + 1];
      Contains(s, ks[0]) || AnyKeywordIn(ks[1..], s)
  }

  /** `_to_bool_natural`, applied to the text `str(x)`: 1 when the lower-cased
      text contains one of the keywords anywhere (inside another word too),
      0 otherwise. */
  function ToBoolNatural(text: string): (r: nat)
    ensures r == 0 || r == 1
    ensures r == 1 <==> exists n :: 0 <= n < |NaturalKeywords| && Contains(Lower(text), NaturalKeywords[n])
  {
    if AnyKeywordIn(NaturalKeywords, Lower(text)) then 1 else 0
  }

  /** An equivalent, shorter keyword list: "organico" adds nothing, since every
      text that contains it also contains "organic". */
  lemma ToBoolNaturalReference(text: string)
    ensures ToBoolNatural(text) == 1 <==>
      Contains(Lower(text), "sí") || Contains(Lower(text), "si")
      || Contains(Lower(text), "orgánico") || Contains(Lower(text), "organic")
  {
    var low := Lower(text);
    if Contains(low, "organico") {
      ContainsPrefix(low, "organico", "organic");
    }
    assert NaturalKeywords[0] == "sí" && NaturalKeywords[1] == "si";
    assert NaturalKeywords[2] == "orgánico" && NaturalKeywords[3] == "organico";
    assert NaturalKeywords[4] == "organic";
  }

  /** Upper- or lower-case spelling makes no difference to the flag. */
  lemma ToBoolNaturalIgnoresCase(text: string)
    ensures ToBoolNatural(Lower(text)) == ToBoolNatural(text)
  {
    LowerIdempotent(text);
  }

  /** Adding text before or after never turns a 1 into a 0. */
  lemma ToBoolNaturalKeptByAppending(a: string, b: string)
    requires ToBoolNatural(a) == 1
    ensures ToBoolNatural(a + b) == 1
    ensures ToBoolNatural(b + a) == 1
  {
    var n :| 0 <= n < |NaturalKeywords| && Contains(Lower(a), NaturalKeywords[n]);
    KeywordKeptByAppending(a, b, NaturalKeywords[n]);
    assert Contains(Lower(a + b), NaturalKeywords[n]);
    assert Contains(Lower(b + a), NaturalKeywords[n]);
  }

  lemma KeywordKeptByAppending(a: string, b: string, k: string)
    requires Contains(Lower(a), k)
    ensures Contains(Lower(a + b), k) && Contains(Lower(b + a), k)
  {
    LowerConcat(a, b);
    LowerConcat(b, a);
    ContainsAppended(Lower(a), k, Lower(b));
    ContainsPrepended(Lower(a), k, Lower(b));
  }

  /** "si" counts inside another word: "Sin conservadores" reads as 1. */
  lemma ToBoolNaturalMatchesInsideWords(s: string)
    requires s == "Sin conservadores"
    ensures ToBoolNatural(s) == 1
  {
    assert Lower(s)[0..2] == "si";
    assert OccursAt(Lower(s), "si", 0);
    ToBoolNaturalReference(s);
  }

  /** "ORGANIC" and "organic" both read as 1. */
  lemma ToBoolNaturalOrganic(s: string, t: string)
    requires s == "ORGANIC" && t == "organic"
    ensures ToBoolNatural(s) == 1 && ToBoolNatural(t) == 1
  {
    assert Lower(s) == t;
    assert OccursAt(t, "organic", 0);
    ToBoolNaturalReference(s);
    ToBoolNaturalIgnoresCase(s);
  }

  /** "Natural" mentions none of the keywords and reads as 0. */
  lemma ToBoolNaturalNoKeyword(s: string)
    requires s == "Natural"
    ensures ToBoolNatural(s) == 0
  {
    var low := Lower(s);
    assert forall k :: 0 <= k < |low| ==> low[k] != 's' && low[k] != 'o';
    AbsentFirstChar(low, "sí");
    AbsentFirstChar(low, "si");
    AbsentFirstChar(low, "orgánico");
    AbsentFirstChar(low, "organic");
    ToBoolNaturalReference(s);
  }
}
