/** The original desktop page (`zona_civico_app.py`): street names normalised to
    their sorted clean words, the house number searched anywhere in the query,
    the street filter by substring of normalised names, and the first sheet row
    whose range and parity flags admit the number. */
module ZonaApp {
  import opened Text
  import opened Seqs
  import opened Words
  import opened Sorting

  /** The characters `re.sub(r"[^a-z0-9 ]", "", ...)` keeps. */
  predicate IsTextChar(c: char) {
    IsLowerAscii(c) || IsDigit(c) || c == ' '
  }

  predicate AllTextChars(s: string) {
    forall k :: 0 <= k < |s| ==> IsTextChar(s[k])
  }

  /** What idempotence needs of the transliteration: text already made of
      `[a-z0-9 ]` comes back unchanged. */
  ghost predicate FixesTextChars(translit: string -> string) {
    forall t :: AllTextChars(t) ==> translit(t) == t
  }

  /** The words `normalizza_testo` sorts: lower-case, transliterate, delete every
      character outside `[a-z0-9 ]`, split at the spaces left. */
  function CleanWords(translit: string -> string, s: string): seq<string> {
    Split(KeepChars(translit(Lower(s)), IsTextChar))
  }

  /** The clean words are non-empty and made of `[a-z0-9]`. */
  lemma CleanWordsChars(translit: string -> string, s: string)
    ensures AllWords(CleanWords(translit, s))
    ensures forall k, i :: 0 <= k < |CleanWords(translit, s)| && 0 <= i < |CleanWords(translit, s)[k]| ==>
      IsTextChar(CleanWords(translit, s)[k][i])
  {
    SplitChars(KeepChars(translit(Lower(s)), IsTextChar), IsTextChar);
  }

  /** `normalizza_testo`: the clean words in sorted order, joined by single spaces. */
  function NormalizeText(translit: string -> string, s: string): (r: string)
    ensures AllTextChars(r)
    ensures SingleSpaced(r)
  {
    var ws := CleanWords(translit, s);
    CleanWordsChars(translit, s);
    var sorted := Sort(ws);
    SortElements(ws);
    assert AllWords(sorted);
    JoinSingleSpaced(sorted);
    JoinChars(sorted, IsTextChar);
    JoinWords(sorted)
  }

  /** The words of the result are the clean words of the input, sorted: a sorted
      permutation of them. */
  lemma {:induction false} NormalizeTextWords(translit: string -> string, s: string)
    ensures Sorted(Split(NormalizeText(translit, s)))
    ensures multiset(Split(NormalizeText(translit, s))) == multiset(CleanWords(translit, s))
  {
    var ws := CleanWords(translit, s);
    CleanWordsChars(translit, s);
    SortElements(ws);
    SplitJoin(Sort(ws));
  }

  /** Only the multiset of clean words matters: inputs whose clean words are
      permutations of each other normalise to the same text. */
  lemma {:induction false} NormalizeTextWordOrder(translit: string -> string, a: string, b: string)
    requires multiset(CleanWords(translit, a)) == multiset(CleanWords(translit, b))
    ensures NormalizeText(translit, a) == NormalizeText(translit, b)
  {
    SortPermutationInvariant(CleanWords(translit, a), CleanWords(translit, b));
  }

  /** Text made of `[a-z0-9 ]` passes the first three steps unchanged. */
  lemma CleanTextUnchanged(translit: string -> string, s: string)
    requires FixesTextChars(translit)
    requires AllTextChars(s)
    ensures CleanWords(translit, s) == Split(s)
  {
    LowerNoUpper(s);
    KeepCharsAll(s, IsTextChar);
  }

  /** Permuting the space-separated words of a clean input changes nothing. */
  lemma NormalizeTextPermutedWords(translit: string -> string, ws1: seq<string>, ws2: seq<string>)
    requires FixesTextChars(translit)
    requires AllWords(ws1) && AllWords(ws2)
    requires forall k, i :: 0 <= k < |ws1| && 0 <= i < |ws1[k]| ==> IsTextChar(ws1[k][i])
    requires forall k, i :: 0 <= k < |ws2| && 0 <= i < |ws2[k]| ==> IsTextChar(ws2[k][i])
    requires multiset(ws1) == multiset(ws2)
    ensures NormalizeText(translit, JoinWords(ws1)) == NormalizeText(translit, JoinWords(ws2))
  {
    JoinChars(ws1, IsTextChar);
    JoinChars(ws2, IsTextChar);
    CleanTextUnchanged(translit, JoinWords(ws1));
    CleanTextUnchanged(translit, JoinWords(ws2));
    SplitJoin(ws1);
    SplitJoin(ws2);
    NormalizeTextWordOrder(translit, JoinWords(ws1), JoinWords(ws2));
  }

  /** Normalising twice is normalising once, when the transliteration leaves
      `[a-z0-9 ]` alone. */
  lemma {:induction false} NormalizeTextIdempotent(translit: string -> string, s: string)
    requires FixesTextChars(translit)
    ensures NormalizeText(translit, NormalizeText(translit, s)) == NormalizeText(translit, s)
  {
    var r := NormalizeText(translit, s);
    var sorted := Sort(CleanWords(translit, s));
    CleanTextUnchanged(translit, r);
    NormalizeTextWords(translit, s);
    SortSorted(Split(r));
    CleanWordsChars(translit, s);
    SortElements(CleanWords(translit, s));
    SplitJoin(sorted);
  }

  lemma LowerAscii(s: string)
    requires AllAscii(s)
    ensures AllAscii(Lower(s))
  {
  }

  /** A character outside `[a-z0-9 ]` (a tab, an apostrophe, a hyphen) is deleted
      before the split, so the text on its two sides runs together: it does not
      separate words. */
  lemma NormalizeTextDeletes(translit: string -> string, a: string, c: char, b: string)
    requires FixesAscii(translit)
    requires AllAscii(a) && IsAscii(c) && AllAscii(b)
    requires !IsTextChar(ToLower(c))
    ensures NormalizeText(translit, a + [c] + b) == NormalizeText(translit, a + b)
  {
    var s := a + [c] + b;
    var la, lb := Lower(a), Lower(b);
    LowerAppend(a + [c], b);
    LowerAppend(a, [c]);
    LowerAppend(a, b);
    assert Lower(s) == la + [ToLower(c)] + lb;
    assert AllAscii(s);
    assert AllAscii(a + b);
    LowerAscii(s);
    LowerAscii(a + b);
    assert translit(Lower(s)) == Lower(s);
    assert translit(Lower(a + b)) == la + lb;
    KeepCharsAppend(la + [ToLower(c)], lb, IsTextChar);
    KeepCharsAppend(la, [ToLower(c)], IsTextChar);
    KeepCharsAppend(la, lb, IsTextChar);
    assert KeepChars([ToLower(c)], IsTextChar) == [];
    assert KeepChars(Lower(s), IsTextChar) == KeepChars(la + lb, IsTextChar);
    assert CleanWords(translit, s) == CleanWords(translit, a + b);
  }

  /** The index of the first digit of `s` at or after `p`, or `|s|` when there
      is none (`FirstDigitFromSpan`). */
  function FirstDigitFrom(s: string, p: nat): (i: nat)
    requires p <= |s|
    ensures p <= i <= |s|
    decreases |s| - p
  {
    if p == |s| || IsDigit(s[p]) then p else FirstDigitFrom(s, p + 1)
  }

  lemma {:induction false} FirstDigitFromSpan(s: string, p: nat)
    requires p <= |s|
    ensures FirstDigitFrom(s, p) == |s| || IsDigit(s[FirstDigitFrom(s, p)])
    ensures forall k :: p <= k < FirstDigitFrom(s, p) ==> !IsDigit(s[k])
    decreases |s| - p
  {
    if p < |s| && !IsDigit(s[p]) {
      FirstDigitFromSpan(s, p + 1);
    }
  }

  /** Where `\d+[a-zA-Z]?` ends when it starts at the digit at `p`: the whole
      digit run, then one ASCII letter if one follows. */
  function LetterEnd(s: string, p: nat): (b: nat)
    requires p < |s| && IsDigit(s[p])
    ensures p < b <= |s|
  {
    var a := p + DigitRun(s, p);
    if a < |s| && IsAsciiLetter(s[a]) then a + 1 else a
  }

  /** Where `(\d+[a-zA-Z]?)(/\d+)?` ends when it starts at the digit at `p`:
      greedy at every step, and the optional group taken only when `/` is
      followed by a digit. */
  function CivicoEnd(s: string, p: nat): (q: nat)
    requires p < |s| && IsDigit(s[p])
    ensures p < q <= |s|
  {
    var b := LetterEnd(s, p);
    if b + 1 < |s| && s[b] == '/' && IsDigit(s[b + 1]) then b + 1 + DigitRun(s, b + 1) else b
  }

  /** `estrai_civico`: `re.search(r"(\d+[a-zA-Z]?)(/\d+)?", testo).group(0)`,
      or None when there is no match, that is when the text has no digit. */
  function ExtractCivico(s: string): (r: Option<string>)
    ensures r.None? <==> forall k :: 0 <= k < |s| ==> !IsDigit(s[k])
    ensures r.Some? ==> r.value != []
  {
    var p := FirstDigitFrom(s, 0);
    FirstDigitFromSpan(s, 0);
    if p == |s| then None else Some(s[p..CivicoEnd(s, p)])
  }

  /** The shape the pattern accepts: `t[..a]` digits, then up to `b` one
      optional letter, then nothing or `/` followed by digits. */
  ghost predicate CivicoShape(t: string, a: nat, b: nat) {
    1 <= a <= b <= |t| && AllDigits(t[..a]) &&
    (b == a || (b == a + 1 && IsAsciiLetter(t[a]))) &&
    (b == |t| || (b + 2 <= |t| && t[b] == '/' && AllDigits(t[b + 1..])))
  }

  ghost predicate IsCivicoToken(t: string) {
    exists a: nat, b: nat :: CivicoShape(t, a, b)
  }

  /** A stretch `s[p..q]` laid out as digits, optional letter, optional
      slash and digits has the shape of the pattern. */
  lemma ShapeOf(s: string, p: nat, a: nat, b: nat, q: nat)
    requires p < a <= b <= q <= |s|
    requires DigitsOn(s, p, a)
    requires b == a || (b == a + 1 && IsAsciiLetter(s[a]))
    requires q == b || (b + 2 <= q && s[b] == '/' && DigitsOn(s, b + 1, q))
    ensures CivicoShape(s[p..q], a - p, b - p)
  {
    var t := s[p..q];
    DigitsSlice(s, p, a);
    assert t[..a - p] == s[p..a];
    if b != a {
      assert t[a - p] == s[a];
    }
    if q != b {
      DigitsSlice(s, b + 1, q);
      assert t[b - p + 1..] == s[b + 1..q];
      assert t[b - p] == s[b];
    }
  }

  /** The first part of the match: a non-empty digit run, then at most one letter. */
  lemma LetterEndParts(s: string, p: nat)
    requires p < |s| && IsDigit(s[p])
    ensures p < p + DigitRun(s, p) && DigitsOn(s, p, p + DigitRun(s, p))
    ensures LetterEnd(s, p) == p + DigitRun(s, p) ||
      (LetterEnd(s, p) == p + DigitRun(s, p) + 1 && IsAsciiLetter(s[p + DigitRun(s, p)]))
  {
    DigitRunSpan(s, p);
  }

  /** The optional second part of the match: nothing, or `/` and a digit run. */
  lemma CivicoEndParts(s: string, p: nat)
    requires p < |s| && IsDigit(s[p])
    ensures CivicoEnd(s, p) == LetterEnd(s, p) ||
      (LetterEnd(s, p) + 2 <= CivicoEnd(s, p) && s[LetterEnd(s, p)] == '/' &&
       DigitsOn(s, LetterEnd(s, p) + 1, CivicoEnd(s, p)))
  {
    var b := LetterEnd(s, p);
    if b + 1 < |s| && s[b] == '/' && IsDigit(s[b + 1]) {
      DigitRunSpan(s, b + 1);
    }
  }

  /** The match found at `p` has the shape of the pattern. */
  lemma CivicoEndShape(s: string, p: nat)
    requires p < |s| && IsDigit(s[p])
    ensures CivicoShape(s[p..CivicoEnd(s, p)], DigitRun(s, p), LetterEnd(s, p) - p)
  {
    LetterEndParts(s, p);
    CivicoEndParts(s, p);
    ShapeOf(s, p, p + DigitRun(s, p), LetterEnd(s, p), CivicoEnd(s, p));
  }

  /** `estrai_civico` returns the leftmost match: a piece of the input that
      starts at its first digit and has the shape of the pattern. */
  lemma ExtractCivicoSpec(s: string)
    requires ExtractCivico(s).Some?
    ensures IsCivicoToken(ExtractCivico(s).value)
    ensures exists p :: OccursAt(ExtractCivico(s).value, s, p) && forall k :: 0 <= k < p ==> !IsDigit(s[k])
  {
    var p := FirstDigitFrom(s, 0);
    FirstDigitFromSpan(s, 0);
    CivicoEndShape(s, p);
    assert OccursAt(ExtractCivico(s).value, s, p);
  }

  /** A letter right after the digits is read; after a slash only digits are. */
  lemma ExtractCivicoExamples()
    ensures ExtractCivico("147/A") == Some("147")
    ensures ExtractCivico("12B") == Some("12B")
  {
    assert DigitRun("147/A", 0) == 3;
    assert "147/A"[0..3] == "147";
    assert DigitRun("12B", 0) == 2;
    assert "12B"[0..3] == "12B";
  }

  /** A slash followed by digits is read; text without digits has no house number. */
  lemma ExtractCivicoSlashExamples()
    ensures ExtractCivico("137/2") == Some("137/2")
    ensures ExtractCivico("Via Roma") == None
  {
    assert DigitRun("137/2", 0) == 3;
    assert DigitRun("137/2", 4) == 1;
    assert "137/2"[0..5] == "137/2";
    assert !IsDigit("Via Roma"[4]);
  }

  /** `s.split('/')[0]`: the text before the first `/`, or all of it. */
  function BeforeSlash(s: string): (r: string)
    ensures |r| <= |s| && r == s[..|r|]
    ensures forall k :: 0 <= k < |r| ==> r[k] != '/'
    ensures |r| == |s| || s[|r|] == '/'
  {
    if s == [] || s[0] == '/' then [] else [s[0]] + BeforeSlash(s[1..])
  }

  /** The number `cerca_civico` compares:
      `int(re.sub(r"[^0-9]", "", civico.split('/')[0]))`, every digit before the
      first `/` read as one number, or None where `int("")` raises. */
  function CivicoNumber(s: string): (r: Option<nat>)
    ensures r.None? <==> forall k :: 0 <= k < |BeforeSlash(s)| ==> !IsDigit(BeforeSlash(s)[k])
  {
    var ds := KeepChars(BeforeSlash(s), IsDigit);
    KeepCharsNone(BeforeSlash(s), IsDigit);
    if ds == [] then None else Some(DigitsValue(ds))
  }

  /** A letter after the digits is dropped; with nothing before the slash there
      is no number. */
  lemma CivicoNumberExamples()
    ensures CivicoNumber("12B") == Some(12)
    ensures CivicoNumber("/5") == None
  {
    assert BeforeSlash("12B") == "12B";
    assert KeepChars("12B", IsDigit) == "12";
    assert DigitsValue("12") == 12 by {
      assert "12"[..1] == "1" && "1"[..0] == "";
    }
  }

  /** The part after the slash is not read. */
  lemma CivicoNumberSlashExample()
    ensures CivicoNumber("137/2") == Some(137)
  {
    assert BeforeSlash("137/2") == "137";
    assert KeepChars("137", IsDigit) == "137";
    assert DigitsValue("137") == 137 by {
      assert "137"[..2] == "13" && "13"[..1] == "1" && "1"[..0] == "";
    }
  }

  /** The two readings of a house number disagree on text that is not a token
      of the pattern: a digit after a letter still counts here. */
  lemma ParsersDisagree()
    ensures CivicoNumber("1a2") == Some(12)
    ensures LeadingNumber("1a2") == Some(1)
  {
    assert BeforeSlash("1a2") == "1a2";
    assert KeepChars("1a2", IsDigit) == "12";
    assert "12"[..1] == "1" && "1"[..0] == "";
    assert DigitsValue("12") == 12;
    assert DigitRun("1a2", 0) == 1;
    assert "1a2"[..1] == "1";
    assert DigitsValue("1") == 1;
  }

  /** On every token `estrai_civico` can return, `cerca_civico`'s reading of the
      number agrees with the leading-digits reading of the web pages, and is
      defined: the token's digits before the slash are exactly its leading run. */
  lemma ParsersAgree(t: string)
    requires IsCivicoToken(t)
    ensures CivicoNumber(t).Some?
    ensures CivicoNumber(t) == LeadingNumber(t)
  {
    var a: nat, b: nat :| CivicoShape(t, a, b);
    var r := BeforeSlash(t);
    assert |r| == b;
    assert r == t[..a] + t[a..b];
    KeepCharsAppend(t[..a], t[a..b], IsDigit);
    KeepCharsAll(t[..a], IsDigit);
    assert KeepChars(t[a..b], IsDigit) == [];
    assert t[..a] + [] == t[..a];
    assert DigitsOn(t, 0, a) by {
      forall k | 0 <= k < a ensures IsDigit(t[k]) {
        assert t[..a][k] == t[k];
      }
    }
    DigitRunExact(t, 0, a);
  }

  /** `estrai_civico` never yields a house number `cerca_civico` fails to read. */
  lemma ExtractedCivicoReadable(s: string)
    requires ExtractCivico(s).Some?
    ensures CivicoNumber(ExtractCivico(s).value).Some?
  {
    ExtractCivicoSpec(s);
    ParsersAgree(ExtractCivico(s).value);
  }

  /** One row of this page's sheet: street, zone, postcode, the numeric `dal` and
      `al` cells (None for an empty cell, which compares false), and the
      `solo_pari` and `solo_dispari` flag cells as text. */
  datatype SheetRow = SheetRow(
    via: string,
    zona: string,
    cap: string,
    dal: Option<int>,
    al: Option<int>,
    soloPari: string,
    soloDispari: string)

  /** `str(cell).strip().lower() == 'si'`. */
  predicate FlagSet(cell: string) {
    Lower(Strip(cell)) == "si"
  }

  /** `da <= civico <= a`. */
  predicate InRange(row: SheetRow, n: nat) {
    row.dal.Some? && row.al.Some? && row.dal.value <= n <= row.al.value
  }

  /** `(solo_pari and pari) or (solo_dispari and not pari) or (not solo_pari and not solo_dispari)`. */
  predicate ParityAdmitted(row: SheetRow, n: nat) {
    var pari := n % 2 == 0;
    var soloPari := FlagSet(row.soloPari);
    var soloDispari := FlagSet(row.soloDispari);
    (soloPari && pari) || (soloDispari && !pari) || (!soloPari && !soloDispari)
  }

  predicate Admits(row: SheetRow, n: nat) {
    InRange(row, n) && ParityAdmitted(row, n)
  }

  /** The flags by case: only `solo_pari` admits the even numbers, only
      `solo_dispari` the odd ones, and neither or both admit every number. */
  lemma ParityAdmittedCases(row: SheetRow, n: nat)
    ensures FlagSet(row.soloPari) && !FlagSet(row.soloDispari) ==> (ParityAdmitted(row, n) <==> n % 2 == 0)
    ensures !FlagSet(row.soloPari) && FlagSet(row.soloDispari) ==> (ParityAdmitted(row, n) <==> n % 2 == 1)
    ensures FlagSet(row.soloPari) == FlagSet(row.soloDispari) ==> ParityAdmitted(row, n)
  {
  }

  /** The index of the first row that admits `n`, if there is one. */
  function FirstAdmitted(rows: seq<SheetRow>, n: nat): (r: Option<nat>)
    ensures r.Some? ==> r.value < |rows| && Admits(rows[r.value], n)
    ensures r.Some? ==> forall k :: 0 <= k < r.value ==> !Admits(rows[k], n)
    ensures r.None? ==> forall k :: 0 <= k < |rows| ==> !Admits(rows[k], n)
  {
    if rows == [] then None
    else if Admits(rows[0], n) then Some(0)
    else
      match FirstAdmitted(rows[1..], n)
      case None => None
      case Some(i) => Some(i + 1)
  }

  /** `cerca_civico(df_via, civico_input)`: no house number gives the street's
      rows back unchanged; an unreadable one gives nothing; otherwise the first
      row, in order, whose range holds the number and whose flags admit its
      parity, and nothing when no row does. */
  function CercaCivico(rows: seq<SheetRow>, civicoInput: Option<string>): (r: seq<SheetRow>)
    ensures civicoInput.None? || civicoInput.value == [] ==> r == rows
    ensures civicoInput.Some? && civicoInput.value != [] ==> |r| <= 1
    ensures civicoInput.Some? && civicoInput.value != [] && CivicoNumber(civicoInput.value).None? ==> r == []
    ensures civicoInput.Some? && civicoInput.value != [] && CivicoNumber(civicoInput.value).Some? ==>
      var n := CivicoNumber(civicoInput.value).value;
      (r == [] <==> forall k :: 0 <= k < |rows| ==> !Admits(rows[k], n)) &&
      (r != [] ==> exists i :: (0 <= i < |rows| && r == [rows[i]] && Admits(rows[i], n) &&
        forall k :: 0 <= k < i ==> !Admits(rows[k], n)))
  {
    if civicoInput.None? || civicoInput.value == [] then rows
    else
      match CivicoNumber(civicoInput.value)
      case None => []
      case Some(n) =>
        match FirstAdmitted(rows, n)
        case None => []
        case Some(i) => [rows[i]]
  }

  /** `via_norm in normalizza_testo(row.via)`. Normalised text is made of
      `[a-z0-9 ]` only, so `str.contains` reads it as a plain string, not a
      pattern. */
  predicate StreetContains(translit: string -> string, via: string, row: SheetRow) {
    IsSubstring(NormalizeText(translit, via), NormalizeText(translit, row.via))
  }

  /** `filtra_per_via(df, via_input)`: the rows whose normalised street contains
      the normalised query, in table order. */
  function FilterByStreet(translit: string -> string, rows: seq<SheetRow>, via: string): seq<SheetRow> {
    Filter(rows, row => StreetContains(translit, via, row))
  }

  /** A row is kept exactly when its normalised street contains the normalised query. */
  lemma FilterByStreetMembers(translit: string -> string, rows: seq<SheetRow>, via: string, row: SheetRow)
    ensures row in FilterByStreet(translit, rows, via) <==> row in rows && StreetContains(translit, via, row)
  {
    var P := r => StreetContains(translit, via, r);
    if row in rows && P(row) {
      var i :| 0 <= i < |rows| && rows[i] == row;
    }
  }

  /** The filter keeps table order: filtering a concatenation filters each part. */
  lemma FilterByStreetAppend(translit: string -> string, a: seq<SheetRow>, b: seq<SheetRow>, via: string)
    ensures FilterByStreet(translit, a + b, via) == FilterByStreet(translit, a, via) + FilterByStreet(translit, b, via)
  {
    FilterAppend(a, b, r => StreetContains(translit, via, r));
  }

  /** A query with no clean word normalises to the empty text, which every
      street contains: every row is kept. */
  lemma {:induction false} BlankStreetQueryKeepsAll(translit: string -> string, rows: seq<SheetRow>, via: string)
    requires CleanWords(translit, via) == []
    ensures FilterByStreet(translit, rows, via) == rows
  {
    forall k | 0 <= k < |rows| ensures StreetContains(translit, via, rows[k]) {
      assert OccursAt(NormalizeText(translit, via), NormalizeText(translit, rows[k].via), 0);
    }
    FilterKeepsAll(rows, r => StreetContains(translit, via, r));
  }

  /** The order of the query's words does not matter. */
  lemma FilterByStreetWordOrder(translit: string -> string, rows: seq<SheetRow>, v1: string, v2: string)
    requires multiset(CleanWords(translit, v1)) == multiset(CleanWords(translit, v2))
    ensures FilterByStreet(translit, rows, v1) == FilterByStreet(translit, rows, v2)
  {
    NormalizeTextWordOrder(translit, v1, v2);
    FilterAgree(rows, r => StreetContains(translit, v1, r), r => StreetContains(translit, v2, r));
  }

  /** A query equal to a row's street keeps that row. */
  lemma FilterByStreetOwnName(translit: string -> string, rows: seq<SheetRow>, i: nat)
    requires i < |rows|
    ensures rows[i] in FilterByStreet(translit, rows, rows[i].via)
  {
    assert OccursAt(NormalizeText(translit, rows[i].via), NormalizeText(translit, rows[i].via), 0);
    FilterByStreetMembers(translit, rows, rows[i].via, rows[i]);
  }

  /** `s.replace(t, "")`: every occurrence of `t`, scanning left to right without
      overlap, removed. */
  function RemoveAll(s: string, t: string): (r: string)
    requires t != []
    ensures |r| <= |s|
    decreases |s|
  {
    if |s| < |t| then s
    else if s[..|t|] == t then RemoveAll(s[|t|..], t)
    else [s[0]] + RemoveAll(s[1..], t)
  }

  /** Text without an occurrence of `t` is left unchanged. */
  lemma {:induction false} RemoveAllAbsent(s: string, t: string)
    requires t != [] && !IsSubstring(t, s)
    ensures RemoveAll(s, t) == s
    decreases |s|
  {
    if |s| >= |t| {
      assert !OccursAt(t, s, 0);
      assert !IsSubstring(t, s[1..]) by {
        if IsSubstring(t, s[1..]) {
          var i :| 0 <= i <= |s[1..]| - |t| && OccursAt(t, s[1..], i);
          assert s[i + 1..i + 1 + |t|] == s[1..][i..i + |t|];
          assert OccursAt(t, s, i + 1);
        }
      }
      RemoveAllAbsent(s[1..], t);
    }
  }

  /** Text with an occurrence of `t` loses at least that many characters. */
  lemma {:induction false} RemoveAllShrinks(s: string, t: string)
    requires t != [] && IsSubstring(t, s)
    ensures |RemoveAll(s, t)| <= |s| - |t|
    decreases |s|
  {
    var i :| 0 <= i <= |s| - |t| && OccursAt(t, s, i);
    if s[..|t|] != t {
      assert i > 0;
      assert s[1..][i - 1..i - 1 + |t|] == s[i..i + |t|];
      assert OccursAt(t, s[1..], i - 1);
      RemoveAllShrinks(s[1..], t);
    }
  }

  /** Removing `t` from itself leaves nothing. */
  lemma RemoveAllSelf(t: string)
    requires t != []
    ensures RemoveAll(t, t) == []
  {
    assert t[..|t|] == t;
    assert t[|t|..] == [];
  }

  /** A prefix none of whose characters can start `t` is kept as it is. */
  lemma {:induction false} RemoveAllSkip(w: string, x: string, t: string)
    requires t != []
    requires forall k :: 0 <= k < |w| ==> w[k] != t[0]
    ensures RemoveAll(w + x, t) == w + RemoveAll(x, t)
    decreases |w|
  {
    if w != [] {
      var s := w + x;
      assert s[0] == w[0];
      if |s| >= |t| {
        assert s[..|t|][0] != t[0];
      }
      assert s[1..] == w[1..] + x;
      RemoveAllSkip(w[1..], x, t);
      assert w + RemoveAll(x, t) == [w[0]] + (w[1..] + RemoveAll(x, t));
    } else {
      assert w + x == x;
    }
  }

  /** What `main` looks up: the street text and the house number taken from the query. */
  datatype Query = Query(via: string, civico: Option<string>)

  /** Lines 58-59 of `main` as written: `civico = estrai_civico(query)` and
      `via = query.replace(civico, "") if civico else query`. */
  function SplitQueryAsWritten(query: string): Query {
    match ExtractCivico(query)
    case None => Query(query, None)
    case Some(c) => Query(RemoveAll(query, c), Some(c))
  }

  /** What the page shows: nothing before a query is typed, the "no street"
      warning, the matching rows after the house-number search, or all the
      street's rows when that search found none. */
  datatype Outcome = Idle | NoStreet | Found(rows: seq<SheetRow>) | StreetRows(rows: seq<SheetRow>)

  /** Lines 60-70 of `main`: filter by street, then search the house number
      among the street's rows. */
  function Resolve(translit: string -> string, rows: seq<SheetRow>, q: Query): Outcome {
    var street := FilterByStreet(translit, rows, q.via);
    if street == [] then NoStreet
    else
      var finali := CercaCivico(street, q.civico);
      if finali != [] then Found(finali) else StreetRows(street)
  }

  /** The cases of the page's answer: "no street" exactly when no row's street
      contains the query's; without a house number every street row is shown as
      found; with one, the first street row that admits it, or else all the
      street's rows. */
  lemma {:induction false} ResolveCases(translit: string -> string, rows: seq<SheetRow>, q: Query)
    ensures Resolve(translit, rows, q) != Idle
    ensures Resolve(translit, rows, q) == NoStreet <==> forall k :: 0 <= k < |rows| ==> !StreetContains(translit, q.via, rows[k])
    ensures Resolve(translit, rows, q) != NoStreet && (q.civico.None? || q.civico.value == []) ==>
      Resolve(translit, rows, q) == Found(FilterByStreet(translit, rows, q.via))
    ensures Resolve(translit, rows, q).Found? && q.civico.Some? && q.civico.value != [] ==>
      |Resolve(translit, rows, q).rows| == 1 &&
      Resolve(translit, rows, q).rows[0] in rows && StreetContains(translit, q.via, Resolve(translit, rows, q).rows[0])
    ensures Resolve(translit, rows, q).StreetRows? ==> Resolve(translit, rows, q).rows == FilterByStreet(translit, rows, q.via)
  {
    var street := FilterByStreet(translit, rows, q.via);
    if street == [] {
      forall k | 0 <= k < |rows| ensures !StreetContains(translit, q.via, rows[k]) {
        FilterByStreetMembers(translit, rows, q.via, rows[k]);
      }
    } else {
      assert street[0] in street;
      FilterByStreetMembers(translit, rows, q.via, street[0]);
      var i :| 0 <= i < |rows| && rows[i] == street[0];
      var finali := CercaCivico(street, q.civico);
      if |finali| == 1 && q.civico.Some? && q.civico.value != [] {
        var j :| 0 <= j < |street| && finali == [street[j]];
        FilterByStreetMembers(translit, rows, q.via, street[j]);
      }
    }
  }

  /** `main` as written: nothing happens on an empty query. */
  function SearchAsWritten(translit: string -> string, rows: seq<SheetRow>, query: string): Outcome {
    if query == [] then Idle else Resolve(translit, rows, SplitQueryAsWritten(query))
  }

  /** Where the corrected pattern `(\d+[a-zA-Z]?)(/(\d+|[a-zA-Z]))?` ends when it
      starts at the digit at `p`: as `CivicoEnd`, and a `/` followed by one
      letter is taken too. */
  function CivicoEndFixed(s: string, p: nat): (q: nat)
    requires p < |s| && IsDigit(s[p])
    ensures p < q <= |s|
  {
    var b := LetterEnd(s, p);
    if b + 1 < |s| && s[b] == '/' && IsDigit(s[b + 1]) then b + 1 + DigitRun(s, b + 1)
    else if b + 1 < |s| && s[b] == '/' && IsAsciiLetter(s[b + 1]) then b + 2
    else b
  }

  /** `estrai_civico` with the corrected pattern: house numbers written
      `147/A`, as in the page's own example query, are read whole. */
  function ExtractCivicoFixed(s: string): (r: Option<string>)
    ensures r.None? <==> forall k :: 0 <= k < |s| ==> !IsDigit(s[k])
    ensures r.Some? ==> r.value != [] && IsDigit(r.value[0])
  {
    var p := FirstDigitFrom(s, 0);
    FirstDigitFromSpan(s, 0);
    if p == |s| then None else Some(s[p..CivicoEndFixed(s, p)])
  }

  /** Lines 58-59 of `main` with the corrected pattern. */
  function SplitQuery(query: string): Query {
    match ExtractCivicoFixed(query)
    case None => Query(query, None)
    case Some(c) => Query(RemoveAll(query, c), Some(c))
  }

  /** `main` with the corrected pattern: nothing happens on an empty query. */
  function Search(translit: string -> string, rows: seq<SheetRow>, query: string): Outcome {
    if query == [] then Idle else Resolve(translit, rows, SplitQuery(query))
  }

  /** Both patterns find the same start; the corrected one only ever reads further. */
  lemma ExtractCivicoFixedExtends(s: string)
    ensures ExtractCivicoFixed(s).None? <==> ExtractCivico(s).None?
    ensures ExtractCivico(s).Some? ==>
      ExtractCivicoFixed(s) == ExtractCivico(s) ||
      exists c :: IsAsciiLetter(c) && ExtractCivicoFixed(s).value == ExtractCivico(s).value + ['/', c]
  {
    var p := FirstDigitFrom(s, 0);
    FirstDigitFromSpan(s, 0);
    if p < |s| {
      var q := CivicoEnd(s, p);
      var q2 := CivicoEndFixed(s, p);
      if q2 != q {
        assert s[p..q2] == s[p..q] + ['/', s[q + 1]];
      }
    }
  }

  /** The first digit at or after `p` is at `q` when `q` is a digit and nothing
      in between is. */
  lemma {:induction false} FirstDigitFromAt(s: string, p: nat, q: nat)
    requires p <= q < |s| && IsDigit(s[q])
    requires forall k :: p <= k < q ==> !IsDigit(s[k])
    ensures FirstDigitFrom(s, p) == q
    decreases q - p
  {
    if p < q {
      FirstDigitFromAt(s, p + 1, q);
    }
  }

  lemma {:induction false} DigitRunShift(w: string, t: string, i: nat)
    requires i <= |t|
    ensures DigitRun(w + t, |w| + i) == DigitRun(t, i)
    decreases |t| - i
  {
    if i < |t| {
      assert (w + t)[|w| + i] == t[i];
      DigitRunShift(w, t, i + 1);
    }
  }

  /** A token read after a prefix ends where it ends on its own. */
  lemma CivicoEndFixedShift(w: string, t: string)
    requires t != [] && IsDigit(t[0])
    ensures |w| < |w + t| && IsDigit((w + t)[|w|])
    ensures CivicoEndFixed(w + t, |w|) == |w| + CivicoEndFixed(t, 0)
  {
    var s := w + t;
    assert s[|w|] == t[0];
    DigitRunShift(w, t, 0);
    var a := DigitRun(t, 0);
    if a < |t| {
      assert s[|w| + a] == t[a];
    }
    var b := LetterEnd(t, 0);
    assert LetterEnd(s, |w|) == |w| + b;
    if b + 1 < |t| {
      assert s[|w| + b] == t[b] && s[|w| + b + 1] == t[b + 1];
      DigitRunShift(w, t, b + 1);
    }
  }

  /** The intended reading of a query: street text without digits followed by a
      house number the corrected pattern reads whole is split into exactly those
      two parts. */
  lemma StreetThenCivico(w: string, t: string)
    requires forall k :: 0 <= k < |w| ==> !IsDigit(w[k])
    requires ExtractCivicoFixed(t) == Some(t)
    ensures ExtractCivicoFixed(w + t) == Some(t)
    ensures SplitQuery(w + t) == Query(w, Some(t))
  {
    var p := FirstDigitFrom(t, 0);
    FirstDigitFromSpan(t, 0);
    assert p == 0 && CivicoEndFixed(t, 0) == |t| by {
      assert |t[p..CivicoEndFixed(t, p)]| == |t|;
    }
    var s := w + t;
    CivicoEndFixedShift(w, t);
    forall k | 0 <= k < |w| ensures !IsDigit(s[k]) {
      assert s[k] == w[k];
    }
    FirstDigitFromAt(s, 0, |w|);
    assert s[|w|..|w| + |t|] == t;
    RemoveAllSkip(w, t, t);
    RemoveAllSelf(t);
    assert w + [] == w;
  }

  /** The length of normalised text: the clean words' characters and one space
      between each two. */
  lemma NormalizeTextLength(translit: string -> string, s: string)
    ensures |NormalizeText(translit, s)| ==
      if CleanWords(translit, s) == [] then 0 else SumLen(CleanWords(translit, s)) + |CleanWords(translit, s)| - 1
  {
    var ws := CleanWords(translit, s);
    SortSumLen(ws);
    JoinWordsLength(Sort(ws));
  }

  /** Deleting the characters outside `[a-z0-9 ]` from lower-cased text that ends
      in a space, then a `/` and a lower-case letter, keeps the final space and
      drops the slash. */
  lemma KeepSlashLetter(x: string, l: char)
    requires x != [] && x[|x| - 1] == ' '
    requires IsLowerAscii(l)
    ensures KeepChars(x + ['/', l], IsTextChar) == KeepChars(x, IsTextChar) + [l]
    ensures KeepChars(x, IsTextChar) != [] && KeepChars(x, IsTextChar)[|KeepChars(x, IsTextChar)| - 1] == ' '
  {
    KeepCharsAppend(x, ['/', l], IsTextChar);
    assert KeepChars(['/', l], IsTextChar) == [l];
    assert x == x[..|x| - 1] + [' '];
    KeepCharsAppend(x[..|x| - 1], [' '], IsTextChar);
  }

  /** After text ending in a space, a `/` is deleted and the letter that follows
      it becomes one more clean word. */
  lemma CleanWordsSlashLetter(translit: string -> string, w: string, c: char)
    requires FixesAscii(translit)
    requires AllAscii(w) && w != [] && w[|w| - 1] == ' '
    requires IsAsciiLetter(c)
    ensures CleanWords(translit, w + ['/', c]) == CleanWords(translit, w) + [[ToLower(c)]]
  {
    var lw := Lower(w);
    var l := ToLower(c);
    LowerSlashLetter(translit, w, c);
    KeepSlashLetter(lw, l);
    var x := KeepChars(lw, IsTextChar);
    assert CleanWords(translit, w) == Split(x);
    assert CleanWords(translit, w + ['/', c]) == Split(x + [l]);
    SplitAppendAtSpace(x, [l]);
    SplitWordThen([l], []);
    assert [l] + [] == [l];
  }

  /** A space after ASCII text adds no clean word. */
  lemma CleanWordsTrailingSpace(translit: string -> string, w: string)
    requires FixesAscii(translit)
    requires AllAscii(w)
    ensures CleanWords(translit, w + " ") == CleanWords(translit, w)
  {
    var lw := Lower(w);
    LowerAppend(w, " ");
    assert Lower(" ") == " ";
    LowerAscii(w + " ");
    LowerAscii(w);
    assert translit(Lower(w + " ")) == lw + " ";
    KeepCharsAppend(lw, " ", IsTextChar);
    assert KeepChars(" ", IsTextChar) == " ";
    var x := KeepChars(lw, IsTextChar);
    assert CleanWords(translit, w) == Split(x);
    assert CleanWords(translit, w + " ") == Split(x + " ");
    SplitAppendBlank(x, " ");
  }

  /** ASCII text, then `/` and a letter, lower-cased and transliterated. */
  lemma LowerSlashLetter(translit: string -> string, w: string, c: char)
    requires FixesAscii(translit)
    requires AllAscii(w) && IsAsciiLetter(c)
    ensures translit(Lower(w + ['/', c])) == Lower(w) + ['/', ToLower(c)]
    ensures translit(Lower(w)) == Lower(w)
  {
    LowerAppend(w, ['/', c]);
    assert Lower(['/', c]) == ['/', ToLower(c)];
    LowerAscii(w + ['/', c]);
    LowerAscii(w);
  }

  /** So a `/` and a letter left after a street text make its normalised form
      strictly longer. */
  lemma NormalizeTextSlashLetterLonger(translit: string -> string, w: string, c: char)
    requires FixesAscii(translit)
    requires AllAscii(w) && w != [] && w[|w| - 1] == ' '
    requires IsAsciiLetter(c)
    ensures |NormalizeText(translit, w + ['/', c])| > |NormalizeText(translit, w)|
  {
    CleanWordsSlashLetter(translit, w, c);
    NormalizeTextLength(translit, w);
    NormalizeTextLength(translit, w + ['/', c]);
    SumLenAppend(CleanWords(translit, w), [[ToLower(c)]]);
  }

  /** The pattern as written, on street text followed by `digits/letter`, stops
      before the slash: it reads the digits only. */
  lemma ExtractCivicoSlashLetter(w: string, ds: string, c: char)
    requires forall k :: 0 <= k < |w| ==> !IsDigit(w[k])
    requires ds != [] && AllDigits(ds)
    requires IsAsciiLetter(c)
    ensures ExtractCivico(w + ds + ['/', c]) == Some(ds)
  {
    var s := w + ds + ['/', c];
    var p := |w|;
    var a := p + |ds|;
    assert s[a] == '/' && s[a + 1] == c;
    forall k | 0 <= k < p ensures !IsDigit(s[k]) {
      assert s[k] == w[k];
    }
    assert s[p] == ds[0];
    FirstDigitFromAt(s, 0, p);
    assert DigitsOn(s, p, a) by {
      forall k | p <= k < a ensures IsDigit(s[k]) {
        assert s[k] == ds[k - p];
      }
    }
    DigitRunExact(s, p, a);
    assert CivicoEnd(s, p) == a;
    assert s[p..a] == ds;
  }

  /** Removing the digits from `digits/letter` leaves the slash and the letter. */
  lemma RemoveDigitsSlashLetter(ds: string, c: char)
    requires ds != [] && AllDigits(ds)
    requires IsAsciiLetter(c)
    ensures RemoveAll(ds + ['/', c], ds) == ['/', c]
  {
    var y := ds + ['/', c];
    assert y[..|ds|] == ds && y[|ds|..] == ['/', c];
    forall i | 0 <= i <= 2 - |ds| ensures !OccursAt(ds, ['/', c], i) {
      assert ['/', c][i..i + |ds|][0] == ['/', c][i];
      assert ds[0] != ['/', c][i];
    }
    RemoveAllAbsent(['/', c], ds);
  }

  /** Lines 58-59 as written, on street text followed by a house number
      `digits/letter`: only the digits are removed, so the slash and the letter
      stay in the street text. */
  lemma SplitQueryAsWrittenSlashLetter(w: string, ds: string, c: char)
    requires forall k :: 0 <= k < |w| ==> !IsDigit(w[k])
    requires ds != [] && AllDigits(ds)
    requires IsAsciiLetter(c)
    ensures SplitQueryAsWritten(w + ds + ['/', c]) == Query(w + ['/', c], Some(ds))
  {
    ExtractCivicoSlashLetter(w, ds, c);
    assert w + ds + ['/', c] == w + (ds + ['/', c]);
    RemoveAllSkip(w, ds + ['/', c], ds);
    RemoveDigitsSlashLetter(ds, c);
  }

  /** The corrected pattern reads `digits/letter` whole. */
  lemma ExtractCivicoFixedSlashLetter(ds: string, c: char)
    requires ds != [] && AllDigits(ds)
    requires IsAsciiLetter(c)
    ensures ExtractCivicoFixed(ds + ['/', c]) == Some(ds + ['/', c])
  {
    var t := ds + ['/', c];
    assert t[|ds|] == '/' && t[|ds| + 1] == c;
    assert DigitsOn(t, 0, |ds|) by {
      forall k | 0 <= k < |ds| ensures IsDigit(t[k]) {
        assert t[k] == ds[k];
      }
    }
    DigitRunExact(t, 0, |ds|);
    assert CivicoEndFixed(t, 0) == |t|;
    assert t[0..|t|] == t;
  }

  /** Lines 58-59 with the corrected pattern, on the same query: the street text
      as typed and the whole house number. */
  lemma SplitQuerySlashLetter(w: string, ds: string, c: char)
    requires forall k :: 0 <= k < |w| ==> !IsDigit(w[k])
    requires ds != [] && AllDigits(ds)
    requires IsAsciiLetter(c)
    ensures SplitQuery(w + ds + ['/', c]) == Query(w, Some(ds + ['/', c]))
  {
    ExtractCivicoFixedSlashLetter(ds, c);
    assert w + ds + ['/', c] == w + (ds + ['/', c]);
    StreetThenCivico(w, ds + ['/', c]);
  }

  /** As written, a query of the form of the page's own example `Via Mazzini
      147/A` (street text ending in a space, digits, `/`, a letter) loses its
      street: against a row whose street normalises like the typed street text,
      the page reports that no street was found. */
  lemma SlashLetterLosesStreet(translit: string -> string, row: SheetRow, w: string, ds: string, c: char)
    requires FixesAscii(translit)
    requires AllAscii(w) && w != [] && w[|w| - 1] == ' '
    requires forall k :: 0 <= k < |w| ==> !IsDigit(w[k])
    requires ds != [] && AllDigits(ds)
    requires IsAsciiLetter(c)
    requires NormalizeText(translit, row.via) == NormalizeText(translit, w)
    ensures SearchAsWritten(translit, [row], w + ds + ['/', c]) == NoStreet
  {
    SplitQueryAsWrittenSlashLetter(w, ds, c);
    NormalizeTextSlashLetterLonger(translit, w, c);
    ResolveCases(translit, [row], Query(w + ['/', c], Some(ds)));
  }

  /** With the corrected pattern the same query finds its street: any row whose
      street contains the typed street text is among the street's rows, so the
      page never reports "no street" for it. */
  lemma {:induction false} SlashLetterFindsStreet(translit: string -> string, rows: seq<SheetRow>, i: nat, w: string, ds: string, c: char)
    requires i < |rows|
    requires forall k :: 0 <= k < |w| ==> !IsDigit(w[k])
    requires ds != [] && AllDigits(ds)
    requires IsAsciiLetter(c)
    requires StreetContains(translit, w, rows[i])
    ensures SplitQuery(w + ds + ['/', c]) == Query(w, Some(ds + ['/', c]))
    ensures Search(translit, rows, w + ds + ['/', c]) != NoStreet
    ensures Search(translit, rows, w + ds + ['/', c]) != Idle
  {
    SplitQuerySlashLetter(w, ds, c);
    ResolveCases(translit, rows, Query(w, Some(ds + ['/', c])));
  }

  /** A query made of a row's own street name, a space, digits, `/` and a letter:
      as written the street is lost, corrected it is found. */
  lemma OwnStreetSlashLetter(translit: string -> string, row: SheetRow, ds: string, c: char)
    requires FixesAscii(translit)
    requires AllAscii(row.via)
    requires forall k :: 0 <= k < |row.via| ==> !IsDigit(row.via[k])
    requires ds != [] && AllDigits(ds)
    requires IsAsciiLetter(c)
    ensures SplitQueryAsWritten(row.via + " " + ds + ['/', c]) == Query(row.via + " " + ['/', c], Some(ds))
    ensures SearchAsWritten(translit, [row], row.via + " " + ds + ['/', c]) == NoStreet
    ensures SplitQuery(row.via + " " + ds + ['/', c]) == Query(row.via + " ", Some(ds + ['/', c]))
    ensures Search(translit, [row], row.via + " " + ds + ['/', c]) != NoStreet
  {
    var w := row.via + " ";
    assert AllAscii(w) by {
      forall k | 0 <= k < |w| ensures IsAscii(w[k]) {
        if k < |row.via| { assert w[k] == row.via[k]; }
      }
    }
    assert forall k :: 0 <= k < |w| ==> !IsDigit(w[k]) by {
      forall k | 0 <= k < |w| ensures !IsDigit(w[k]) {
        if k < |row.via| { assert w[k] == row.via[k]; }
      }
    }
    CleanWordsTrailingSpace(translit, row.via);
    assert NormalizeText(translit, row.via) == NormalizeText(translit, w);
    SlashLetterLosesStreet(translit, row, w, ds, c);
    assert OccursAt(NormalizeText(translit, w), NormalizeText(translit, row.via), 0);
    SlashLetterFindsStreet(translit, [row], 0, w, ds, c);
    SplitQueryAsWrittenSlashLetter(w, ds, c);
  }

  /** The page's example query `Via Mazzini 147/A`: as written it finds no street
      even against a row for `Via Mazzini` itself; corrected, it finds that row's
      street and keeps `147/A` as the house number. */
  /** The pieces of the example query, as plain sequence facts. */
  lemma MazziniParts(query: string, v: string, ds: string)
    requires query == "Via Mazzini 147/A"
    requires v == "Via Mazzini" && ds == "147"
    ensures query == v + " " + ds + ['/', 'A']
    ensures v + " " == "Via Mazzini " && v + " " + ['/', 'A'] == "Via Mazzini /A" && ds + ['/', 'A'] == "147/A"
    ensures AllAscii(v) && forall k :: 0 <= k < |v| ==> !IsDigit(v[k])
    ensures ds != [] && AllDigits(ds)
  {
  }

  lemma MazziniQuery(translit: string -> string, query: string, row: SheetRow)
    requires FixesAscii(translit)
    requires query == "Via Mazzini 147/A"
    requires row.via == "Via Mazzini"
    ensures SplitQueryAsWritten(query) == Query("Via Mazzini /A", Some("147"))
    ensures SearchAsWritten(translit, [row], query) == NoStreet
    ensures SplitQuery(query) == Query("Via Mazzini ", Some("147/A"))
    ensures Search(translit, [row], query) != NoStreet
  {
    var ds := "147";
    MazziniParts(query, row.via, ds);
    OwnStreetSlashLetter(translit, row, ds, 'A');
  }
}
