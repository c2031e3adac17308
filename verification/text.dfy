/** Characters and strings as the three lookup pages use them: ASCII case
    mapping, the whitespace class shared by `str.split`, `str.strip` and the
    regular-expression class `\s`, maximal runs of a character class, decimal
    digit strings and their values, and plain substring containment. */
module Text {

  /** An optional value: Python's `None` or a present value. */
  datatype Option<+T> = None | Some(value: T)

  /** A value or an error raised on the way to it. */
  datatype Result<+T, +E> = Success(value: T) | Failure(error: E)

  predicate IsDigit(c: char) { '0' <= c <= '9' }

  predicate IsLowerAscii(c: char) { 'a' <= c <= 'z' }

  predicate IsUpperAscii(c: char) { 'A' <= c <= 'Z' }

  predicate IsAsciiLetter(c: char) { IsLowerAscii(c) || IsUpperAscii(c) }

  /** Whitespace, restricted to ASCII: space, tab, line feed, vertical tab,
      form feed, carriage return and the four separators 0x1C..0x1F. */
  predicate IsSpace(c: char) {
    c == ' ' || ('\t' <= c <= '\r') || ('\U{1C}' <= c <= '\U{1F}')
  }

  predicate IsNonSpace(c: char) { !IsSpace(c) }

  predicate IsAscii(c: char) { c as int < 128 }

  predicate AllAscii(s: string) {
    forall k :: 0 <= k < |s| ==> IsAscii(s[k])
  }

  /** What the model assumes of a transliteration (`unidecode`) where a property
      needs it: text that is already ASCII comes back unchanged. */
  ghost predicate FixesAscii(translit: string -> string) {
    forall t :: AllAscii(t) ==> translit(t) == t
  }

  /** Every character of `s` on the index range [i, j) is whitespace. */
  ghost predicate SpacesOn(s: string, i: int, j: int) {
    forall k {:trigger IsSpace(s[k])} :: i <= k < j && 0 <= k < |s| ==> IsSpace(s[k])
  }

  /** Every character of `s` on the index range [i, j) is a digit. */
  ghost predicate DigitsOn(s: string, i: int, j: int) {
    forall k {:trigger IsDigit(s[k])} :: i <= k < j && 0 <= k < |s| ==> IsDigit(s[k])
  }

  predicate AllDigits(s: string) {
    forall k :: 0 <= k < |s| ==> IsDigit(s[k])
  }

  lemma DigitsSlice(s: string, i: nat, j: nat)
    requires i <= j <= |s| && DigitsOn(s, i, j)
    ensures AllDigits(s[i..j])
  {
    forall k | 0 <= k < j - i ensures IsDigit(s[i..j][k]) {
      assert s[i..j][k] == s[i + k];
    }
  }

  function ToLower(c: char): (d: char)
    ensures IsUpperAscii(c) ==> IsLowerAscii(d) && d as int == c as int + 32
    ensures !IsUpperAscii(c) ==> d == c
  {
    if IsUpperAscii(c) then (c as int + 32) as char else c
  }

  function ToUpper(c: char): (d: char)
    ensures IsLowerAscii(c) ==> IsUpperAscii(d) && d as int == c as int - 32
    ensures !IsLowerAscii(c) ==> d == c
  {
    if IsLowerAscii(c) then (c as int - 32) as char else c
  }

  /** `str.lower()` on the ASCII alphabet. */
  function Lower(s: string): (r: string)
    ensures |r| == |s|
    ensures forall i :: 0 <= i < |s| ==> r[i] == ToLower(s[i])
  {
    seq(|s|, i requires 0 <= i < |s| => ToLower(s[i]))
  }

  /** `str.upper()` on the ASCII alphabet. */
  function Upper(s: string): (r: string)
    ensures |r| == |s|
    ensures forall i :: 0 <= i < |s| ==> r[i] == ToUpper(s[i])
  {
    seq(|s|, i requires 0 <= i < |s| => ToUpper(s[i]))
  }

  /** One character of `str.title()`: lower-cased inside a word, upper-cased
      otherwise. */
  function TitleChar(c: char, inWord: bool): (d: char)
    ensures ToLower(d) == ToLower(c)
    ensures IsAsciiLetter(c) ==> (IsUpperAscii(d) <==> !inWord)
  {
    if inWord then ToLower(c) else ToUpper(c)
  }

  /** `str.title()` on the ASCII alphabet: only letter case changes, and a letter
      is upper-case exactly when it starts a run of letters. */
  function Title(s: string): (r: string)
    ensures |r| == |s|
    ensures Lower(r) == Lower(s)
    ensures forall i :: 0 <= i < |s| && IsAsciiLetter(s[i]) ==>
      (IsUpperAscii(r[i]) <==> i == 0 || !IsAsciiLetter(s[i - 1]))
  {
    var r := seq(|s|, i requires 0 <= i < |s| => TitleChar(s[i], i > 0 && IsAsciiLetter(s[i - 1])));
    forall i | 0 <= i < |s|
      ensures Lower(r)[i] == Lower(s)[i]
      ensures IsAsciiLetter(s[i]) ==> (IsUpperAscii(r[i]) <==> i == 0 || !IsAsciiLetter(s[i - 1]))
    {
      assert r[i] == TitleChar(s[i], i > 0 && IsAsciiLetter(s[i - 1]));
    }
    assert Lower(r) == Lower(s);
    r
  }

  /** Two characters with the same lower-case form are the same letter or the same
      non-letter. */
  lemma SameLowerChar(x: char, y: char)
    requires ToLower(x) == ToLower(y)
    ensures IsAsciiLetter(x) == IsAsciiLetter(y)
    ensures ToUpper(x) == ToUpper(y)
  {
  }

  /** `title()` does not depend on the case it is given: names that differ only in
      case are displayed the same. */
  lemma TitleIgnoresCase(a: string, b: string)
    requires Lower(a) == Lower(b)
    ensures Title(a) == Title(b)
  {
    assert |a| == |Lower(a)| == |b|;
    forall i | 0 <= i < |a|
      ensures Title(a)[i] == Title(b)[i]
    {
      assert Lower(a)[i] == Lower(b)[i];
      SameLowerChar(a[i], b[i]);
      if i > 0 {
        assert Lower(a)[i - 1] == Lower(b)[i - 1];
        SameLowerChar(a[i - 1], b[i - 1]);
      }
    }
  }

  /** Every character of `s` on the index range [i, j) is not whitespace. */
  ghost predicate NonSpacesOn(s: string, i: int, j: int) {
    forall k {:trigger IsSpace(s[k])} :: i <= k < j && 0 <= k < |s| ==> !IsSpace(s[k])
  }

  /** The length of the longest run of whitespace starting at index `p`
      (see `SpaceRunSpan` and `SpaceRunExact`). */
  function SpaceRun(s: string, p: nat): (n: nat)
    requires p <= |s|
    ensures p + n <= |s|
    decreases |s| - p
  {
    if p < |s| && IsSpace(s[p]) then 1 + SpaceRun(s, p + 1) else 0
  }

  /** The run is whitespace and is followed by the end or by a non-space. */
  lemma {:induction false} SpaceRunSpan(s: string, p: nat)
    requires p <= |s|
    ensures SpacesOn(s, p, p + SpaceRun(s, p))
    ensures p + SpaceRun(s, p) == |s| || !IsSpace(s[p + SpaceRun(s, p)])
    decreases |s| - p
  {
    if p < |s| && IsSpace(s[p]) {
      SpaceRunSpan(s, p + 1);
    }
  }

  /** A whitespace stretch that cannot be extended is the run. */
  lemma {:induction false} SpaceRunExact(s: string, p: nat, q: nat)
    requires p <= q <= |s| && SpacesOn(s, p, q)
    requires q == |s| || !IsSpace(s[q])
    ensures p + SpaceRun(s, p) == q
    decreases q - p
  {
    if p < q {
      assert IsSpace(s[p]);
      SpaceRunExact(s, p + 1, q);
    }
  }

  /** The length of the longest run of digits starting at index `p`
      (see `DigitRunSpan` and `DigitRunExact`). */
  function DigitRun(s: string, p: nat): (n: nat)
    requires p <= |s|
    ensures p + n <= |s|
    decreases |s| - p
  {
    if p < |s| && IsDigit(s[p]) then 1 + DigitRun(s, p + 1) else 0
  }

  /** The run is digits and is followed by the end or by a non-digit. */
  lemma {:induction false} DigitRunSpan(s: string, p: nat)
    requires p <= |s|
    ensures DigitsOn(s, p, p + DigitRun(s, p))
    ensures p + DigitRun(s, p) == |s| || !IsDigit(s[p + DigitRun(s, p)])
    decreases |s| - p
  {
    if p < |s| && IsDigit(s[p]) {
      DigitRunSpan(s, p + 1);
    }
  }

  /** A digit stretch that cannot be extended is the run. */
  lemma {:induction false} DigitRunExact(s: string, p: nat, q: nat)
    requires p <= q <= |s| && DigitsOn(s, p, q)
    requires q == |s| || !IsDigit(s[q])
    ensures p + DigitRun(s, p) == q
    decreases q - p
  {
    if p < q {
      assert IsDigit(s[p]);
      DigitRunExact(s, p + 1, q);
    }
  }

  /** The length of the longest run of non-whitespace starting at index `p`
      (see `WordRunSpan` and `WordRunExact`). */
  function WordRun(s: string, p: nat): (n: nat)
    requires p <= |s|
    ensures p + n <= |s|
    decreases |s| - p
  {
    if p < |s| && !IsSpace(s[p]) then 1 + WordRun(s, p + 1) else 0
  }

  /** The run has no whitespace and is followed by the end or by whitespace. */
  lemma {:induction false} WordRunSpan(s: string, p: nat)
    requires p <= |s|
    ensures NonSpacesOn(s, p, p + WordRun(s, p))
    ensures p + WordRun(s, p) == |s| || IsSpace(s[p + WordRun(s, p)])
    decreases |s| - p
  {
    if p < |s| && !IsSpace(s[p]) {
      WordRunSpan(s, p + 1);
    }
  }

  /** A whitespace-free stretch that cannot be extended is the run. */
  lemma {:induction false} WordRunExact(s: string, p: nat, q: nat)
    requires p <= q <= |s| && NonSpacesOn(s, p, q)
    requires q == |s| || IsSpace(s[q])
    ensures p + WordRun(s, p) == q
    decreases q - p
  {
    if p < q {
      assert !IsSpace(s[p]);
      WordRunExact(s, p + 1, q);
    }
  }

  /** The number of whitespace characters at the end of `s`. */
  function TrailingSpaces(s: string): (n: nat)
    ensures n <= |s|
  {
    if s != [] && IsSpace(s[|s| - 1]) then 1 + TrailingSpaces(s[..|s| - 1]) else 0
  }

  /** The trailing run is whitespace and is preceded by the start or by a non-space. */
  lemma {:induction false} TrailingSpacesSpan(s: string)
    ensures SpacesOn(s, |s| - TrailingSpaces(s), |s|)
    ensures TrailingSpaces(s) == |s| || !IsSpace(s[|s| - TrailingSpaces(s) - 1])
    decreases |s|
  {
    if s != [] && IsSpace(s[|s| - 1]) {
      var t := s[..|s| - 1];
      TrailingSpacesSpan(t);
      assert forall k :: 0 <= k < |t| ==> t[k] == s[k];
    }
  }

  /** `str.strip()`: `s` without its leading and trailing whitespace (see `StripTrims`). */
  function Strip(s: string): string {
    s[StripStart(s)..StripEnd(s)]
  }

  /** `Strip` removes exactly a whitespace prefix and a whitespace suffix, and what
      remains neither starts nor ends with whitespace. */
  lemma StripTrims(s: string)
    ensures exists i, j :: 0 <= i <= j <= |s| && Strip(s) == s[i..j] && SpacesOn(s, 0, i) && SpacesOn(s, j, |s|)
    ensures Strip(s) == [] || (!IsSpace(Strip(s)[0]) && !IsSpace(Strip(s)[|Strip(s)| - 1]))
  {
    var i := StripStart(s);
    SpaceRunSpan(s, 0);
    var j := StripEnd(s);
    TrailingSpacesSpan(s[i..]);
    assert s[i..][..|s| - i - TrailingSpaces(s[i..])] == s[i..j];
  }

  /** Where `Strip` starts: the length of the leading whitespace. */
  function StripStart(s: string): nat
    ensures StripStart(s) <= |s|
  {
    SpaceRun(s, 0)
  }

  /** Where `Strip` ends: before the trailing whitespace of what follows the leading one. */
  function StripEnd(s: string): nat
    ensures StripStart(s) <= StripEnd(s) <= |s|
  {
    |s| - TrailingSpaces(s[StripStart(s)..])
  }

  /** Two strings of the same length with whitespace at the same indices. */
  predicate SameSpacing(s: string, t: string) {
    |s| == |t| && forall k :: 0 <= k < |s| ==> IsSpace(s[k]) == IsSpace(t[k])
  }

  lemma {:induction false} SpaceRunSameSpacing(s: string, t: string, p: nat)
    requires SameSpacing(s, t) && p <= |s|
    ensures SpaceRun(s, p) == SpaceRun(t, p)
    decreases |s| - p
  {
    if p < |s| {
      SpaceRunSameSpacing(s, t, p + 1);
    }
  }

  lemma {:induction false} TrailingSpacesSameSpacing(s: string, t: string)
    requires SameSpacing(s, t)
    ensures TrailingSpaces(s) == TrailingSpaces(t)
    decreases |s|
  {
    if s != [] {
      TrailingSpacesSameSpacing(s[..|s| - 1], t[..|t| - 1]);
    }
  }

  /** Strings with the same spacing are stripped at the same indices. */
  lemma StripSameSpacing(s: string, t: string)
    requires SameSpacing(s, t)
    ensures StripStart(s) == StripStart(t) && StripEnd(s) == StripEnd(t)
  {
    SpaceRunSameSpacing(s, t, 0);
    var i := StripStart(s);
    assert SameSpacing(s[i..], t[i..]);
    TrailingSpacesSameSpacing(s[i..], t[i..]);
  }

  /** `s.strip().upper() == s.upper().strip()`. */
  lemma UpperStrip(s: string)
    ensures Upper(Strip(s)) == Strip(Upper(s))
  {
    StripSameSpacing(s, Upper(s));
  }

  /** Upper-casing forgets any earlier lower-casing. */
  lemma UpperLower(s: string)
    ensures Upper(Lower(s)) == Upper(s)
  {
  }

  lemma LowerAppend(a: string, b: string)
    ensures Lower(a + b) == Lower(a) + Lower(b)
  {
  }

  /** Lower-casing changes nothing in a string without upper-case letters. */
  lemma LowerNoUpper(s: string)
    requires forall k :: 0 <= k < |s| ==> !IsUpperAscii(s[k])
    ensures Lower(s) == s
  {
  }

  /** `s` with only the characters that satisfy `P`, in order (`re.sub` of the complementary class by ""). */
  function KeepChars(s: string, P: char -> bool): (r: string)
    ensures |r| <= |s|
    ensures forall k :: 0 <= k < |r| ==> P(r[k])

  {
    if s == [] then []
    else (if P(s[0]) then [s[0]] else []) + KeepChars(s[1..], P)
  }

  lemma {:induction false} KeepCharsAppend(a: string, b: string, P: char -> bool)
    ensures KeepChars(a + b, P) == KeepChars(a, P) + KeepChars(b, P)
  {
    if a == [] {
      assert a + b == b;
    } else {
      assert (a + b)[1..] == a[1..] + b;
      KeepCharsAppend(a[1..], b, P);
    }
  }

  lemma {:induction false} KeepCharsAll(s: string, P: char -> bool)
    requires forall k :: 0 <= k < |s| ==> P(s[k])
    ensures KeepChars(s, P) == s
  {
    if s != [] {
      KeepCharsAll(s[1..], P);
    }
  }

  /** Nothing is kept exactly when no character satisfies `P`. */
  lemma {:induction false} KeepCharsNone(s: string, P: char -> bool)
    ensures KeepChars(s, P) == [] <==> forall k :: 0 <= k < |s| ==> !P(s[k])
  {
    if s != [] {
      KeepCharsNone(s[1..], P);
      assert forall k :: 1 <= k < |s| ==> s[k] == s[1..][k - 1];
    }
  }

  /** Plain containment: `p` occurs in `s` at some index (Python's `p in s`). */
  predicate IsSubstring(p: string, s: string) {
    exists i | 0 <= i <= |s| - |p| :: OccursAt(p, s, i)
  }

  /** `p` occurs in `s` starting at index `i`. */
  predicate OccursAt(p: string, s: string, i: int) {
    0 <= i <= |s| - |p| && s[i..i + |p|] == p
  }

  function DigitValue(c: char): (d: nat)
    requires IsDigit(c)
    ensures d < 10
  {
    c as int - '0' as int
  }

  function DigitChar(d: nat): (c: char)
    requires d < 10
    ensures IsDigit(c) && DigitValue(c) == d
  {
    ('0' as int + d) as char
  }

  /** `int(ds)` for a string of decimal digits. */
  function DigitsValue(ds: string): nat
    requires AllDigits(ds)
  {
    if ds == [] then 0 else 10 * DigitsValue(ds[..|ds| - 1]) + DigitValue(ds[|ds| - 1])
  }

  /** The decimal text of `n`, as `str(n)` or an f-string writes it. */
  function NatToString(n: nat): (r: string)
    ensures r != [] && AllDigits(r)
    ensures DigitsValue(r) == n
    ensures r[0] != '0' || r == "0"
  {
    if n < 10 then [DigitChar(n)]
    else
      var r := NatToString(n / 10) + [DigitChar(n % 10)];
      assert r[..|r| - 1] == NatToString(n / 10);
      r
  }

  /** `re.match(r"(\d+)", s)` followed by `int(...)`: the value of the digit run
      anchored at index 0, or None when `s` does not start with a digit. */
  function LeadingNumber(s: string): (r: Option<nat>)
    ensures r.None? <==> s == [] || !IsDigit(s[0])
    ensures r.Some? ==> exists n :: 1 <= n <= |s| && AllDigits(s[..n]) && (n == |s| || !IsDigit(s[n])) && r.value == DigitsValue(s[..n])
  {
    var n := DigitRun(s, 0);
    DigitRunSpan(s, 0);
    if n == 0 then None
    else
      assert AllDigits(s[..n]);
      Some(DigitsValue(s[..n]))
  }
}
