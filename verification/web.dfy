/** The first web page (`zona_civico_app_web.py`): the street query is a plain
    upper-cased substring of the row's name or toponym, the house number is the
    leading digit run, and every covering interval of every matching row is
    reported. */
module ZonaWeb {
  import opened Text
  import opened Intervals
  import opened Sheet

  /** `normalizza_civico` reads the digit run at the start of the text: any
      suffix after it (a letter, a `/2`) is ignored. */
  lemma LeadingNumberIgnoresSuffix(ds: string, t: string)
    requires ds != [] && AllDigits(ds)
    requires t == [] || !IsDigit(t[0])
    ensures LeadingNumber(ds + t) == Some(DigitsValue(ds))
  {
    var s := ds + t;
    assert DigitsOn(s, 0, |ds|) by {
      forall k | 0 <= k < |ds| ensures IsDigit(s[k]) {
        assert s[k] == ds[k];
      }
    }
    assert |ds| == |s| || s[|ds|] == t[0];
    DigitRunExact(s, 0, |ds|);
    assert s[..|ds|] == ds;
  }

  /** `via in denominazione or via in toponimo`, both sides stripped and upper-cased. */
  predicate StreetMatches(via: string, row: StreetRow) {
    var q := Upper(Strip(via));
    IsSubstring(q, Upper(Strip(row.denominazione))) || IsSubstring(q, Upper(Strip(row.topomimo)))
  }

  /** Queries that differ only in letter case match the same rows. */
  lemma StreetMatchesIgnoresCase(v1: string, v2: string, row: StreetRow)
    requires Upper(v1) == Upper(v2)
    ensures StreetMatches(v1, row) <==> StreetMatches(v2, row)
  {
    UpperStrip(v1);
    UpperStrip(v2);
  }

  /** In particular a lower-cased query matches what the query itself matches. */
  lemma StreetMatchesLower(via: string, row: StreetRow)
    ensures StreetMatches(Lower(via), row) <==> StreetMatches(via, row)
  {
    UpperLower(via);
    StreetMatchesIgnoresCase(Lower(via), via, row);
  }

  /** A query that strips to nothing is contained in every name: it matches every row. */
  lemma BlankQueryMatchesAll(via: string, row: StreetRow)
    requires Strip(via) == []
    ensures StreetMatches(via, row)
  {
    var q := Upper(Strip(via));
    assert q == [];
    assert OccursAt(q, Upper(Strip(row.denominazione)), 0);
  }

  /** The match is one-way: a query longer (once stripped) than both the name and
      the toponym matches neither, however much of them it contains. */
  lemma LongerQueryMatchesNothing(via: string, row: StreetRow)
    requires |Strip(via)| > |Strip(row.denominazione)| && |Strip(via)| > |Strip(row.topomimo)|
    ensures !StreetMatches(via, row)
  {
  }

  lemma OccursWithin(p: string, q: string, s: string, i: int, j: int)
    requires OccursAt(p, q, i) && OccursAt(q, s, j)
    ensures OccursAt(p, s, j + i)
  {
    forall k | 0 <= k < |p| ensures s[j + i + k] == p[k] {
      assert p[k] == q[i + k] == s[j + i + k];
    }
  }

  /** Shortening the query can only add matches: a query whose stripped,
      upper-cased text occurs within that of a matching query matches too. */
  lemma StreetMatchesSubquery(via: string, sub: string, row: StreetRow)
    requires StreetMatches(via, row)
    requires IsSubstring(Upper(Strip(sub)), Upper(Strip(via)))
    ensures StreetMatches(sub, row)
  {
    var p := Upper(Strip(sub));
    var q := Upper(Strip(via));
    var i :| 0 <= i <= |q| - |p| && OccursAt(p, q, i);
    var d := Upper(Strip(row.denominazione));
    var t := Upper(Strip(row.topomimo));
    if IsSubstring(q, d) {
      var j :| 0 <= j <= |d| - |q| && OccursAt(q, d, j);
      OccursWithin(p, q, d, i, j);
    } else {
      var j :| 0 <= j <= |t| - |q| && OccursAt(q, t, j);
      OccursWithin(p, q, t, i, j);
    }
  }

  /** One line of the result: street as compared (stripped, upper-cased) in
      title case, house number as typed, zone, postcode, the covering interval
      as text. */
  datatype CivicoHit = CivicoHit(via: string, civico: string, zona: string, cap: string, intervallo: string)

  function HitOf(c: Cover, civicoInput: string): CivicoHit {
    CivicoHit(Title(Upper(Strip(c.row.denominazione))), civicoInput, c.row.zona, c.row.cap, FormatInterval(c.interval))
  }

  /** `trova_zona_per_civico(df, via, civico_input)`. */
  function FindZonesForCivico(rows: seq<StreetRow>, via: string, civicoInput: string): Result<seq<CivicoHit>, LookupError> {
    match Lookup(rows, row => StreetMatches(via, row), LeadingNumber(civicoInput))
    case Failure(e) => Failure(e)
    case Success(cs) => Success(Report(cs, c => HitOf(c, civicoInput)))
  }

  /** The lookup raises exactly when the house number does not start with a
      digit and some matching row has an interval in its cell. */
  lemma FindZonesForCivicoFails(rows: seq<StreetRow>, via: string, civicoInput: string)
    ensures FindZonesForCivico(rows, via, civicoInput).Failure? <==>
      (civicoInput == [] || !IsDigit(civicoInput[0])) &&
      exists i :: 0 <= i < |rows| && StreetMatches(via, rows[i]) && Parse(rows[i]).intervals != []
  {
    LookupFails(rows, row => StreetMatches(via, row), LeadingNumber(civicoInput));
  }

  /** With a house number `n`, the lines are exactly one per (matching row,
      interval of its cell covering `n`), each echoing the typed house number. */
  lemma FindZonesForCivicoHits(rows: seq<StreetRow>, via: string, civicoInput: string, n: nat, h: CivicoHit)
    requires LeadingNumber(civicoInput) == Some(n)
    ensures FindZonesForCivico(rows, via, civicoInput).Success?
    ensures h in FindZonesForCivico(rows, via, civicoInput).value <==>
      exists i, iv :: 0 <= i < |rows| && StreetMatches(via, rows[i]) && iv in Parse(rows[i]).intervals &&
        Covers(iv, n) && h == HitOf(Cover(rows[i], iv), civicoInput)
  {
    LookupReport(rows, row => StreetMatches(via, row), c => HitOf(c, civicoInput), n, h);
  }

  /** Lines come in table order, with no cut-off after the first. */
  lemma FindZonesForCivicoAppend(a: seq<StreetRow>, b: seq<StreetRow>, via: string, civicoInput: string, n: nat)
    requires LeadingNumber(civicoInput) == Some(n)
    ensures FindZonesForCivico(a + b, via, civicoInput).value ==
      FindZonesForCivico(a, via, civicoInput).value + FindZonesForCivico(b, via, civicoInput).value
  {
    var P := row => StreetMatches(via, row);
    LookupAppend(a, b, P, n);
    ReportAppend(Lookup(a, P, Some(n)).value, Lookup(b, P, Some(n)).value, c => HitOf(c, civicoInput));
  }

  /** Within one matching row there is one line per covering interval, in the
      order of the cell. */
  lemma FindZonesForCivicoOneRow(row: StreetRow, via: string, civicoInput: string, n: nat)
    requires LeadingNumber(civicoInput) == Some(n)
    requires StreetMatches(via, row)
    ensures FindZonesForCivico([row], via, civicoInput).value ==
      Report(RowCovers(row, Parse(row).intervals, n), c => HitOf(c, civicoInput))
  {
    LookupOneRow(row, r => StreetMatches(via, r), n);
  }

  /** The "Intervallo coperto" text of every line, read back with the same
      pattern, is exactly one interval, which covers the house number on its
      side of the street. */
  lemma FindZonesForCivicoCovers(rows: seq<StreetRow>, via: string, civicoInput: string, n: nat)
    requires LeadingNumber(civicoInput) == Some(n)
    ensures FindZonesForCivico(rows, via, civicoInput).Success?
    ensures forall h :: h in FindZonesForCivico(rows, via, civicoInput).value ==>
      h.civico == civicoInput &&
      exists iv :: FindIntervals(h.intervallo) == [iv] && iv.inizio <= n <= iv.fine && iv.inizio % 2 == n % 2
  {
    var r := FindZonesForCivico(rows, via, civicoInput);
    forall h | h in r.value
      ensures h.civico == civicoInput
      ensures exists iv :: FindIntervals(h.intervallo) == [iv] && iv.inizio <= n <= iv.fine && iv.inizio % 2 == n % 2
    {
      FindZonesForCivicoHits(rows, via, civicoInput, n, h);
      var i, iv :| 0 <= i < |rows| && StreetMatches(via, rows[i]) && iv in Parse(rows[i]).intervals &&
        Covers(iv, n) && h == HitOf(Cover(rows[i], iv), civicoInput);
      FormatThenFind(iv);
    }
  }
}
