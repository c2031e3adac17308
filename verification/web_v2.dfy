/** The second web page (`zona_civico_app_web_v2.py`): street names compared as
    sets of normalised words, house number read from the leading digits, and the
    two lookups — by street and number, and by street alone. */
module ZonaWebV2 {
  import opened Text
  import opened Seqs
  import opened Words
  import opened Intervals
  import opened Sheet

  /** `normalizza_nome`: lower-case, transliterate with `translit`, then rejoin
      the whitespace-separated words with single spaces. */
  function NormalizeName(translit: string -> string, name: string): (r: string)
    ensures SingleSpaced(r)
    ensures Split(r) == Split(translit(Lower(name)))
  {
    var ws := Split(translit(Lower(name)));
    SplitJoin(ws);
    JoinSingleSpaced(ws);
    JoinWords(ws)
  }

  /** `set(normalizza_nome(name).split())`. */
  function TokenSet(translit: string -> string, name: string): (r: set<string>)
    ensures forall w :: w in r <==> w in Split(translit(Lower(name)))
  {
    set w | w in Split(NormalizeName(translit, name))
  }

  /** `nomi_simili`: the two word sets are equal or one contains the other. */
  predicate SimilarNames(translit: string -> string, a: string, b: string) {
    var s1 := TokenSet(translit, a);
    var s2 := TokenSet(translit, b);
    s1 == s2 || s1 <= s2 || s2 <= s1
  }

  /** Two names are similar exactly when every word of one (lower-cased and
      transliterated) is a word of the other. */
  lemma SimilarNamesWords(translit: string -> string, a: string, b: string)
    ensures SimilarNames(translit, a, b) <==>
      (forall w :: w in Split(translit(Lower(a))) ==> w in Split(translit(Lower(b)))) ||
      (forall w :: w in Split(translit(Lower(b))) ==> w in Split(translit(Lower(a))))
  {
    var A := TokenSet(translit, a);
    var B := TokenSet(translit, b);
    if forall w :: w in Split(translit(Lower(a))) ==> w in Split(translit(Lower(b))) {
      assert A <= B;
    }
    if forall w :: w in Split(translit(Lower(b))) ==> w in Split(translit(Lower(a))) {
      assert B <= A;
    }
  }

  lemma SimilarNamesSymmetric(translit: string -> string, a: string, b: string)
    ensures SimilarNames(translit, a, b) <==> SimilarNames(translit, b, a)
  {
  }

  lemma SimilarNamesReflexive(translit: string -> string, a: string)
    ensures SimilarNames(translit, a, a)
  {
  }

  /** There is no guard for a query without words: a whitespace-only query has
      the empty word set, which is contained in every name's. */
  lemma BlankQueryIsSimilarToAll(translit: string -> string, q: string, name: string)
    requires FixesAscii(translit)
    requires forall k :: 0 <= k < |q| ==> IsSpace(q[k])
    ensures SimilarNames(translit, q, name)
  {
    LowerNoUpper(q);
    assert AllAscii(q);
    SplitBlank(q);
    assert TokenSet(translit, q) == {};
  }

  /** A sheet row matches the street query when its name or its toponym is similar. */
  predicate StreetMatches(translit: string -> string, via: string, row: StreetRow) {
    SimilarNames(translit, via, row.denominazione) || SimilarNames(translit, via, row.topomimo)
  }

  /** The rows that match the street query, in table order. */
  function Matching(translit: string -> string, via: string, rows: seq<StreetRow>): seq<StreetRow> {
    Filter(rows, row => StreetMatches(translit, via, row))
  }

  /** `estrai_numero_civico`: `re.match(r"(\d+)", ...)` then `int(...)`. */
  lemma HouseNumberExamples()
    ensures LeadingNumber("147/A") == Some(147)
    ensures LeadingNumber("12B") == Some(12)
    ensures LeadingNumber("abc") == None
    ensures LeadingNumber(" 12") == None
  {
    assert DigitRun("147/A", 0) == 3;
    assert "147/A"[..3] == "147" && "147"[..2] == "14" && "14"[..1] == "1" && "1"[..0] == "";
    assert DigitsValue("147") == 147;
    assert DigitRun("12B", 0) == 2;
    assert "12B"[..2] == "12" && "12"[..1] == "1";
    assert DigitsValue("12") == 12;
    assert "abc"[0] == 'a' && " 12"[0] == ' ';
  }

  /** One line of the result of `trova_zona_per_civico`: street in title case,
      house number as typed, zone, postcode, the covering interval as text,
      municipality. */
  datatype CivicoHit = CivicoHit(via: string, civico: string, zona: string, cap: string, intervallo: string, comune: string)

  function HitOf(c: Cover, civicoInput: string): CivicoHit {
    CivicoHit(Title(c.row.denominazione), civicoInput, c.row.zona, c.row.cap, FormatInterval(c.interval), c.row.comune)
  }

  /** `trova_zona_per_civico(df, via, civico_input)`. */
  function FindZonesForCivico(translit: string -> string, rows: seq<StreetRow>, via: string, civicoInput: string): Result<seq<CivicoHit>, LookupError> {
    match Lookup(rows, row => StreetMatches(translit, via, row), LeadingNumber(civicoInput))
    case Failure(e) => Failure(e)
    case Success(cs) => Success(Report(cs, c => HitOf(c, civicoInput)))
  }

  /** The lookup raises exactly when the house number has no leading digits and
      some row matching the street has an interval in its cell: that is where
      `civico % 2` is first evaluated. */
  lemma FindZonesForCivicoFails(translit: string -> string, rows: seq<StreetRow>, via: string, civicoInput: string)
    ensures FindZonesForCivico(translit, rows, via, civicoInput).Failure? <==>
      LeadingNumber(civicoInput).None? &&
      exists i :: 0 <= i < |rows| && StreetMatches(translit, via, rows[i]) && Parse(rows[i]).intervals != []
  {
    LookupFails(rows, row => StreetMatches(translit, via, row), LeadingNumber(civicoInput));
  }

  /** With a house number `n`, the lines are exactly one per (matching row,
      interval of its cell covering `n`), each echoing the typed house number. */
  lemma FindZonesForCivicoHits(translit: string -> string, rows: seq<StreetRow>, via: string, civicoInput: string, n: nat, h: CivicoHit)
    requires LeadingNumber(civicoInput) == Some(n)
    ensures FindZonesForCivico(translit, rows, via, civicoInput).Success?
    ensures h in FindZonesForCivico(translit, rows, via, civicoInput).value <==>
      exists i, iv :: 0 <= i < |rows| && StreetMatches(translit, via, rows[i]) && iv in Parse(rows[i]).intervals &&
        Covers(iv, n) && h == HitOf(Cover(rows[i], iv), civicoInput)
  {
    LookupReport(rows, row => StreetMatches(translit, via, row), c => HitOf(c, civicoInput), n, h);
  }

  /** Lines come in table order: the lines for a concatenation of tables are
      those of the first followed by those of the second. */
  lemma FindZonesForCivicoAppend(translit: string -> string, a: seq<StreetRow>, b: seq<StreetRow>, via: string, civicoInput: string, n: nat)
    requires LeadingNumber(civicoInput) == Some(n)
    ensures FindZonesForCivico(translit, a + b, via, civicoInput).value ==
      FindZonesForCivico(translit, a, via, civicoInput).value + FindZonesForCivico(translit, b, via, civicoInput).value
  {
    var P := row => StreetMatches(translit, via, row);
    LookupAppend(a, b, P, n);
    ReportAppend(Lookup(a, P, Some(n)).value, Lookup(b, P, Some(n)).value, c => HitOf(c, civicoInput));
  }

  /** Within one matching row there is one line per covering interval, in the
      order of the cell, with no cut-off after the first. */
  lemma FindZonesForCivicoOneRow(translit: string -> string, row: StreetRow, via: string, civicoInput: string, n: nat)
    requires LeadingNumber(civicoInput) == Some(n)
    requires StreetMatches(translit, via, row)
    ensures FindZonesForCivico(translit, [row], via, civicoInput).value ==
      Report(RowCovers(row, Parse(row).intervals, n), c => HitOf(c, civicoInput))
  {
    LookupOneRow(row, r => StreetMatches(translit, via, r), n);
  }

  /** Every line's "Intervallo coperto" reads back as one interval that contains
      the house number and starts on its side of the street (same parity). */
  lemma FindZonesForCivicoCovers(translit: string -> string, rows: seq<StreetRow>, via: string, civicoInput: string, n: nat)
    requires LeadingNumber(civicoInput) == Some(n)
    ensures FindZonesForCivico(translit, rows, via, civicoInput).Success?
    ensures forall h :: h in FindZonesForCivico(translit, rows, via, civicoInput).value ==>
      h.civico == civicoInput &&
      exists iv :: FindIntervals(h.intervallo) == [iv] && iv.inizio <= n <= iv.fine && iv.inizio % 2 == n % 2
  {
    var r := FindZonesForCivico(translit, rows, via, civicoInput);
    forall h | h in r.value
      ensures h.civico == civicoInput
      ensures exists iv :: FindIntervals(h.intervallo) == [iv] && iv.inizio <= n <= iv.fine && iv.inizio % 2 == n % 2
    {
      FindZonesForCivicoHits(translit, rows, via, civicoInput, n, h);
      var i, iv :| 0 <= i < |rows| && StreetMatches(translit, via, rows[i]) && iv in Parse(rows[i]).intervals &&
        Covers(iv, n) && h == HitOf(Cover(rows[i], iv), civicoInput);
      FormatThenFind(iv);
    }
  }

  /** One line of the result of `trova_zone_per_via`: street in title case, zone,
      postcode, municipality and the raw "DAL AL" cell. */
  datatype StreetHit = StreetHit(via: string, zona: string, cap: string, comune: string, intervalli: string)

  function StreetHitOf(row: StreetRow): StreetHit {
    StreetHit(Title(row.denominazione), row.zona, row.cap, row.comune, row.dalAl)
  }

  /** The street lines for `rows`, in order. */
  function StreetHitsOf(rows: seq<StreetRow>): (r: seq<StreetHit>)
    ensures |r| == |rows|
    ensures forall k :: 0 <= k < |rows| ==> r[k] == StreetHitOf(rows[k])
  {
    if rows == [] then [] else [StreetHitOf(rows[0])] + StreetHitsOf(rows[1..])
  }

  /** The street lookup with street test `matches`: one line per matching row,
      duplicates dropped. */
  function StreetLines(rows: seq<StreetRow>, matches: StreetRow -> bool): seq<StreetHit> {
    Dedup(StreetHitsOf(Filter(rows, matches)))
  }

  lemma StreetLinesSound(rows: seq<StreetRow>, matches: StreetRow -> bool, h: StreetHit)
    requires h in StreetLines(rows, matches)
    ensures exists i :: 0 <= i < |rows| && matches(rows[i]) && h == StreetHitOf(rows[i])
  {
    var m := Filter(rows, matches);
    var hs := StreetHitsOf(m);
    assert h in hs;
    var j :| 0 <= j < |hs| && hs[j] == h;
    assert m[j] in rows;
    var i :| 0 <= i < |rows| && rows[i] == m[j];
  }

  lemma StreetLinesComplete(rows: seq<StreetRow>, matches: StreetRow -> bool, i: nat)
    requires i < |rows| && matches(rows[i])
    ensures StreetHitOf(rows[i]) in StreetLines(rows, matches)
  {
    var m := Filter(rows, matches);
    var hs := StreetHitsOf(m);
    assert rows[i] in m;
    var j :| 0 <= j < |m| && m[j] == rows[i];
    assert hs[j] == StreetHitOf(rows[i]);
  }

  /** A line is listed exactly when some row passing `matches` produces it. */
  lemma StreetLinesMembers(rows: seq<StreetRow>, matches: StreetRow -> bool, h: StreetHit)
    ensures h in StreetLines(rows, matches) <==> exists i :: 0 <= i < |rows| && matches(rows[i]) && h == StreetHitOf(rows[i])
  {
    if h in StreetLines(rows, matches) {
      StreetLinesSound(rows, matches, h);
    }
    if exists i :: 0 <= i < |rows| && matches(rows[i]) && h == StreetHitOf(rows[i]) {
      var i :| 0 <= i < |rows| && matches(rows[i]) && h == StreetHitOf(rows[i]);
      StreetLinesComplete(rows, matches, i);
    }
  }

  /** `trova_zone_per_via(df, via)`: the matching rows as street lines, in
      table order, without repeated lines (`drop_duplicates()`). */
  function FindZonesForStreet(translit: string -> string, rows: seq<StreetRow>, via: string): (r: seq<StreetHit>)
    ensures NoDuplicates(r)
  {
    StreetLines(rows, row => StreetMatches(translit, via, row))
  }

  /** A line is listed exactly when some row matching the street produces it. */
  lemma FindZonesForStreetMembers(translit: string -> string, rows: seq<StreetRow>, via: string, h: StreetHit)
    ensures h in FindZonesForStreet(translit, rows, via) <==>
      exists i :: 0 <= i < |rows| && StreetMatches(translit, via, rows[i]) && h == StreetHitOf(rows[i])
  {
    StreetLinesMembers(rows, row => StreetMatches(translit, via, row), h);
  }

  /** Lines keep the order in which they first occur among the matching rows. */
  lemma FindZonesForStreetOrder(translit: string -> string, rows: seq<StreetRow>, via: string)
    ensures var all := StreetHitsOf(Matching(translit, via, rows));
      var r := FindZonesForStreet(translit, rows, via);
      forall i, j :: 0 <= i < j < |r| ==> FirstIndex(all, r[i]) < FirstIndex(all, r[j])
  {
    DedupOrder(StreetHitsOf(Matching(translit, via, rows)));
  }

  /** Names are title-cased before duplicates are dropped, so two otherwise equal
      rows whose street names differ only in case give one line. */
  lemma FindZonesForStreetMergesCase(translit: string -> string, row: StreetRow, name: string, via: string)
    requires StreetMatches(translit, via, row)
    requires Lower(name) == Lower(row.denominazione)
    ensures FindZonesForStreet(translit, [row, row.(denominazione := name)], via) == [StreetHitOf(row)]
  {
    var other := row.(denominazione := name);
    TitleIgnoresCase(name, row.denominazione);
    assert StreetHitOf(other) == StreetHitOf(row);
    assert TokenSet(translit, name) == TokenSet(translit, row.denominazione);
    var rows := [row, other];
    var P := (x: StreetRow) => StreetMatches(translit, via, x);
    assert Filter(rows, P) == rows by {
      assert P(row) && P(other);
      assert rows[1..] == [other] && [other][1..] == [];
      assert Filter([other], P) == [other] + Filter([], P);
    }
    assert StreetHitsOf(rows) == [StreetHitOf(row), StreetHitOf(row)] by {
      assert rows[1..] == [other] && [other][1..] == [];
    }
    DedupRepeat(StreetHitOf(row));
  }

  /** Every line of the number lookup comes from a row the street lookup lists:
      same street, zone, postcode and municipality. */
  lemma CivicoHitListedForStreet(translit: string -> string, rows: seq<StreetRow>, via: string, civicoInput: string, n: nat)
    requires LeadingNumber(civicoInput) == Some(n)
    ensures FindZonesForCivico(translit, rows, via, civicoInput).Success?
    ensures forall h :: h in FindZonesForCivico(translit, rows, via, civicoInput).value ==>
      exists s :: (s in FindZonesForStreet(translit, rows, via) &&
        s.via == h.via && s.zona == h.zona && s.cap == h.cap && s.comune == h.comune)
  {
    var r := FindZonesForCivico(translit, rows, via, civicoInput);
    forall h | h in r.value
      ensures exists s :: (s in FindZonesForStreet(translit, rows, via) &&
        s.via == h.via && s.zona == h.zona && s.cap == h.cap && s.comune == h.comune)
    {
      FindZonesForCivicoHits(translit, rows, via, civicoInput, n, h);
      var i, iv :| 0 <= i < |rows| && StreetMatches(translit, via, rows[i]) && iv in Parse(rows[i]).intervals &&
        Covers(iv, n) && h == HitOf(Cover(rows[i], iv), civicoInput);
      FindZonesForStreetMembers(translit, rows, via, StreetHitOf(rows[i]));
    }
  }
}
