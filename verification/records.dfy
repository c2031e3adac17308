/** The street sheet both web pages search, and the part of their house-number
    lookup (`trova_zona_per_civico`) they share: read the intervals of every
    street row that matched, keep those that cover the number, and fail the way
    Python does when there is no number to compare. */
module Sheet {
  import opened Text
  import opened Seqs
  import opened Intervals

  /** One row of the sheet, every cell as the text `str(...)` makes of it:
      street name, toponym, zone, postcode, the free-text "DAL AL" cell and the
      municipality. */
  datatype StreetRow = StreetRow(
    denominazione: string,
    topomimo: string,
    zona: string,
    cap: string,
    dalAl: string,
    comune: string)

  /** `civico % 2` with `civico = None`: Python raises `TypeError`. */
  datatype LookupError = TypeError

  /** A row as the loop sees it: the row and the intervals read from its cell. */
  datatype Parsed = Parsed(row: StreetRow, intervals: seq<Interval>)

  /** A matching row together with one of its intervals that covers the number. */
  datatype Cover = Cover(row: StreetRow, interval: Interval)

  /** `re.findall(...)` on the row's "DAL AL" cell after `.strip()`. */
  function Parse(row: StreetRow): (p: Parsed)
    ensures p.row == row
  {
    Parsed(row, FindIntervals(Strip(row.dalAl)))
  }

  /** Every row of `rows` parsed, in order. */
  function ParseAll(rows: seq<StreetRow>): (ps: seq<Parsed>)
    ensures |ps| == |rows|
    ensures forall i :: 0 <= i < |rows| ==> ps[i] == Parse(rows[i])
  {
    if rows == [] then [] else [Parse(rows[0])] + ParseAll(rows[1..])
  }

  lemma {:induction false} ParseAllAppend(a: seq<StreetRow>, b: seq<StreetRow>)
    ensures ParseAll(a + b) == ParseAll(a) + ParseAll(b)
  {
    assert forall i :: 0 <= i < |a + b| ==> ParseAll(a + b)[i] == (ParseAll(a) + ParseAll(b))[i] by {
      forall i | 0 <= i < |a + b| ensures ParseAll(a + b)[i] == (ParseAll(a) + ParseAll(b))[i] {
        if i >= |a| {
          assert (a + b)[i] == b[i - |a|];
        }
      }
    }
  }

  /** `c` is one (row, interval) pair the loop reports for house number `n`. */
  ghost predicate Produces(ps: seq<Parsed>, n: nat, c: Cover) {
    exists p :: p in ps && p.row == c.row && c.interval in p.intervals && Covers(c.interval, n)
  }

  /** The pairs of `row` with those of `ivs` that cover `n`, in the order of `ivs`. */
  function RowCovers(row: StreetRow, ivs: seq<Interval>, n: nat): (r: seq<Cover>)
    ensures forall k :: 0 <= k < |r| ==> r[k].row == row && r[k].interval in ivs && Covers(r[k].interval, n)
    ensures forall iv :: iv in ivs && Covers(iv, n) ==> Cover(row, iv) in r
  {
    if ivs == [] then []
    else (if Covers(ivs[0], n) then [Cover(row, ivs[0])] else []) + RowCovers(row, ivs[1..], n)
  }

  /** A single interval of the cell gives one pair if it covers the number and
      none otherwise. */
  lemma RowCoversOne(row: StreetRow, iv: Interval, n: nat)
    ensures RowCovers(row, [iv], n) == if Covers(iv, n) then [Cover(row, iv)] else []
  {
    assert [iv][1..] == [];
  }

  /** The cell is read left to right: the pairs of two stretches of intervals are
      those of the first followed by those of the second, so an interval written
      twice gives two pairs. */
  lemma {:induction false} RowCoversAppend(row: StreetRow, a: seq<Interval>, b: seq<Interval>, n: nat)
    ensures RowCovers(row, a + b, n) == RowCovers(row, a, n) + RowCovers(row, b, n)
  {
    if a == [] {
      assert a + b == b;
    } else {
      var head := if Covers(a[0], n) then [Cover(row, a[0])] else [];
      assert (a + b)[0] == a[0] && (a + b)[1..] == a[1..] + b;
      RowCoversAppend(row, a[1..], b, n);
      assert head + (RowCovers(row, a[1..], n) + RowCovers(row, b, n))
          == (head + RowCovers(row, a[1..], n)) + RowCovers(row, b, n);
    }
  }

  /** The inner loops of `trova_zona_per_civico` over the rows that matched the
      street: every (row, interval) pair that covers the number, in row order and
      then in cell order, with no cut-off after the first (`CoveredAppend`,
      `CoveredOneRow`, `CoveredSound`, `CoveredComplete`). With no number, the
      first row that has an interval raises. */
  function Covered(ps: seq<Parsed>, civico: Option<nat>): (r: Result<seq<Cover>, LookupError>)
    ensures r.Failure? <==> civico.None? && exists i :: 0 <= i < |ps| && ps[i].intervals != []
    ensures r.Success? && civico.None? ==> r.value == []
  {
    if ps == [] then Success([])
    else
      var rest := Covered(ps[1..], civico);
      match civico
      case None =>
        if ps[0].intervals != [] then Failure(TypeError)
        else
          assert forall i :: 1 <= i < |ps| ==> ps[i] == ps[1..][i - 1];
          rest
      case Some(n) => Success(RowCovers(ps[0].row, ps[0].intervals, n) + rest.value)
  }

  /** Every reported pair is a matching row with one of its intervals that covers the number. */
  lemma {:induction false} CoveredSound(ps: seq<Parsed>, n: nat)
    ensures forall k :: 0 <= k < |Covered(ps, Some(n)).value| ==> Produces(ps, n, Covered(ps, Some(n)).value[k])
  {
    if ps != [] {
      CoveredSound(ps[1..], n);
      var head := RowCovers(ps[0].row, ps[0].intervals, n);
      var rest := Covered(ps[1..], Some(n)).value;
      var r := Covered(ps, Some(n)).value;
      assert r == head + rest;
      forall k | 0 <= k < |r| ensures Produces(ps, n, r[k]) {
        if k < |head| {
          assert ps[0] in ps;
        } else {
          assert r[k] == rest[k - |head|];
          assert Produces(ps[1..], n, r[k]);
          var p :| p in ps[1..] && p.row == r[k].row && r[k].interval in p.intervals && Covers(r[k].interval, n);
          assert p in ps;
        }
      }
    }
  }

  /** Every covering interval of every row is reported. */
  lemma {:induction false} CoveredComplete(ps: seq<Parsed>, n: nat, c: Cover)
    requires Produces(ps, n, c)
    ensures c in Covered(ps, Some(n)).value
  {
    var p :| p in ps && p.row == c.row && c.interval in p.intervals && Covers(c.interval, n);
    var head := RowCovers(ps[0].row, ps[0].intervals, n);
    assert Covered(ps, Some(n)).value == head + Covered(ps[1..], Some(n)).value;
    if p != ps[0] {
      assert p in ps[1..];
      CoveredComplete(ps[1..], n, c);
    }
  }

  /** The loop visits rows in table order: the pairs of a concatenation are those
      of the first part followed by those of the second. */
  lemma {:induction false} CoveredAppend(a: seq<Parsed>, b: seq<Parsed>, n: nat)
    ensures Covered(a + b, Some(n)) == Success(Covered(a, Some(n)).value + Covered(b, Some(n)).value)
  {
    if a == [] {
      assert a + b == b;
      assert [] + Covered(b, Some(n)).value == Covered(b, Some(n)).value;
    } else {
      var head := RowCovers(a[0].row, a[0].intervals, n);
      assert (a + b)[0] == a[0] && (a + b)[1..] == a[1..] + b;
      CoveredAppend(a[1..], b, n);
      assert head + (Covered(a[1..], Some(n)).value + Covered(b, Some(n)).value)
          == (head + Covered(a[1..], Some(n)).value) + Covered(b, Some(n)).value;
    }
  }

  /** Within one row, the pairs follow the order of the intervals in the cell:
      one pair per covering interval. */
  lemma CoveredOneRow(p: Parsed, n: nat)
    ensures Covered([p], Some(n)) == Success(RowCovers(p.row, p.intervals, n))
  {
    assert [p][1..] == [];
    assert RowCovers(p.row, p.intervals, n) + [] == RowCovers(p.row, p.intervals, n);
  }

  /** The house-number lookup over a whole table: the rows that satisfy the
      street test `matches`, in table order, parsed and searched for intervals
      covering the number. */
  function Lookup(rows: seq<StreetRow>, matches: StreetRow -> bool, civico: Option<nat>): Result<seq<Cover>, LookupError> {
    Covered(ParseAll(Filter(rows, matches)), civico)
  }

  /** The parsed matching rows are the parses of exactly the matching rows. */
  lemma ParsedFilter(rows: seq<StreetRow>, matches: StreetRow -> bool, p: Parsed)
    ensures p in ParseAll(Filter(rows, matches)) <==> exists i :: 0 <= i < |rows| && matches(rows[i]) && p == Parse(rows[i])
  {
    var m := Filter(rows, matches);
    var ps := ParseAll(m);
    if p in ps {
      var j :| 0 <= j < |ps| && ps[j] == p;
      assert m[j] in rows;
      var i :| 0 <= i < |rows| && rows[i] == m[j];
    }
    if exists i :: 0 <= i < |rows| && matches(rows[i]) && p == Parse(rows[i]) {
      var i :| 0 <= i < |rows| && matches(rows[i]) && p == Parse(rows[i]);
      assert rows[i] in m;
      var j :| 0 <= j < |m| && m[j] == rows[i];
      assert ps[j] == p;
    }
  }

  /** The lookup raises exactly when there is no number and some matching row
      has an interval in its cell. */
  lemma LookupFails(rows: seq<StreetRow>, matches: StreetRow -> bool, civico: Option<nat>)
    ensures Lookup(rows, matches, civico).Failure? <==>
      civico.None? && exists i :: 0 <= i < |rows| && matches(rows[i]) && Parse(rows[i]).intervals != []
  {
    var ps := ParseAll(Filter(rows, matches));
    if exists j :: 0 <= j < |ps| && ps[j].intervals != [] {
      var j :| 0 <= j < |ps| && ps[j].intervals != [];
      ParsedFilter(rows, matches, ps[j]);
    }
    if exists i :: 0 <= i < |rows| && matches(rows[i]) && Parse(rows[i]).intervals != [] {
      var i :| 0 <= i < |rows| && matches(rows[i]) && Parse(rows[i]).intervals != [];
      ParsedFilter(rows, matches, Parse(rows[i]));
      var j :| 0 <= j < |ps| && ps[j] == Parse(rows[i]);
    }
  }

  /** With a number, the reported pairs are exactly the (matching row, covering
      interval of its cell) pairs. */
  lemma {:induction false} LookupPairs(rows: seq<StreetRow>, matches: StreetRow -> bool, n: nat, c: Cover)
    ensures Lookup(rows, matches, Some(n)).Success?
    ensures c in Lookup(rows, matches, Some(n)).value <==>
      exists i :: 0 <= i < |rows| && matches(rows[i]) && c.row == rows[i] && c.interval in Parse(rows[i]).intervals && Covers(c.interval, n)
  {
    var ps := ParseAll(Filter(rows, matches));
    var cs := Covered(ps, Some(n)).value;
    if c in cs {
      var k :| 0 <= k < |cs| && cs[k] == c;
      CoveredSound(ps, n);
      var p :| p in ps && p.row == c.row && c.interval in p.intervals && Covers(c.interval, n);
      ParsedFilter(rows, matches, p);
    }
    if exists i :: 0 <= i < |rows| && matches(rows[i]) && c.row == rows[i] && c.interval in Parse(rows[i]).intervals && Covers(c.interval, n) {
      var i :| 0 <= i < |rows| && matches(rows[i]) && c.row == rows[i] && c.interval in Parse(rows[i]).intervals && Covers(c.interval, n);
      ParsedFilter(rows, matches, Parse(rows[i]));
      CoveredComplete(ps, n, c);
    }
  }

  /** The pairs of a concatenation of tables are those of the first followed by
      those of the second. */
  lemma LookupAppend(a: seq<StreetRow>, b: seq<StreetRow>, matches: StreetRow -> bool, n: nat)
    ensures Lookup(a + b, matches, Some(n)) == Success(Lookup(a, matches, Some(n)).value + Lookup(b, matches, Some(n)).value)
  {
    FilterAppend(a, b, matches);
    ParseAllAppend(Filter(a, matches), Filter(b, matches));
    CoveredAppend(ParseAll(Filter(a, matches)), ParseAll(Filter(b, matches)), n);
  }

  /** A single matching row yields one pair per covering interval, in cell
      order; a row that does not match yields none. */
  lemma LookupOneRow(row: StreetRow, matches: StreetRow -> bool, n: nat)
    ensures Lookup([row], matches, Some(n)) == Success(if matches(row) then RowCovers(row, Parse(row).intervals, n) else [])
  {
    assert [row][1..] == [];
    if matches(row) {
      assert Filter([row], matches) == [row];
      assert ParseAll([row]) == [Parse(row)];
      CoveredOneRow(Parse(row), n);
    } else {
      assert Filter([row], matches) == [];
    }
  }

  /** One output line per reported pair, made by `line`, in order. */
  function Report<H>(cs: seq<Cover>, line: Cover -> H): (r: seq<H>)
    ensures |r| == |cs|
    ensures forall k :: 0 <= k < |cs| ==> r[k] == line(cs[k])
  {
    if cs == [] then [] else [line(cs[0])] + Report(cs[1..], line)
  }

  lemma ReportMember<H>(cs: seq<Cover>, line: Cover -> H, c: Cover)
    requires c in cs
    ensures line(c) in Report(cs, line)
  {
    var k :| 0 <= k < |cs| && cs[k] == c;
    assert Report(cs, line)[k] == line(c);
  }

  lemma ReportAppend<H>(x: seq<Cover>, y: seq<Cover>, line: Cover -> H)
    ensures Report(x + y, line) == Report(x, line) + Report(y, line)
  {
  }

  /** The lines of a lookup with a number are exactly those of the (matching
      row, covering interval) pairs. */
  lemma {:induction false} LookupReport<H>(rows: seq<StreetRow>, matches: StreetRow -> bool, line: Cover -> H, n: nat, h: H)
    ensures h in Report(Lookup(rows, matches, Some(n)).value, line) <==>
      exists i, iv :: 0 <= i < |rows| && matches(rows[i]) && iv in Parse(rows[i]).intervals &&
        Covers(iv, n) && h == line(Cover(rows[i], iv))
  {
    var cs := Lookup(rows, matches, Some(n)).value;
    var r := Report(cs, line);
    if h in r {
      var k :| 0 <= k < |r| && r[k] == h;
      LookupPairs(rows, matches, n, cs[k]);
      var i :| 0 <= i < |rows| && matches(rows[i]) && cs[k].row == rows[i] && cs[k].interval in Parse(rows[i]).intervals && Covers(cs[k].interval, n);
      assert h == line(Cover(rows[i], cs[k].interval));
    }
    if exists i, iv :: 0 <= i < |rows| && matches(rows[i]) && iv in Parse(rows[i]).intervals &&
        Covers(iv, n) && h == line(Cover(rows[i], iv)) {
      var i, iv :| 0 <= i < |rows| && matches(rows[i]) && iv in Parse(rows[i]).intervals &&
        Covers(iv, n) && h == line(Cover(rows[i], iv));
      var c := Cover(rows[i], iv);
      LookupPairs(rows, matches, n, c);
      assert c.row == rows[i] && c.interval in Parse(rows[i]).intervals;
      assert c in cs;
      ReportMember(cs, line, c);
    }
  }
}
