/** The house-number intervals written in a sheet's free-text "DAL AL" cell:
    `re.findall(r'dal\s+(\d+)\s+al\s+(\d+)', text, flags=re.IGNORECASE)`,
    the "Intervallo coperto" text `f'dal {inizio} al {fine}'` the web pages
    print back, and the coverage test both web pages apply. */
module Intervals {
  import opened Text

  /** One `(inizio, fine)` pair, both converted with `int(...)`. */
  datatype Interval = Interval(inizio: nat, fine: nat)

  /** A match found at index `start`: `dal` at `start`, the first number's digits
      on [b, c), `al` at `e`, the second number's digits on [g, stop). */
  datatype Match = Match(start: nat, b: nat, c: nat, e: nat, g: nat, stop: nat)

  /** `dal` at index `p`, in any letter case. */
  predicate DalAt(s: string, p: nat) {
    p + 3 <= |s| && ToLower(s[p]) == 'd' && ToLower(s[p + 1]) == 'a' && ToLower(s[p + 2]) == 'l'
  }

  /** `al` at index `p`, in any letter case. */
  predicate AlAt(s: string, p: nat) {
    p + 2 <= |s| && ToLower(s[p]) == 'a' && ToLower(s[p + 1]) == 'l'
  }

  /** The value of the digit string `s[b..c]`. */
  function Number(s: string, b: nat, c: nat): nat
    requires b <= c <= |s|
    requires DigitsOn(s, b, c)
  {
    assert AllDigits(s[b..c]);
    DigitsValue(s[b..c])
  }

  /** The pattern, read at index `p` and ending at `q`, with its pieces at explicit
      indices: `dal` at p, whitespace on [p+3, b), digits on [b, c), whitespace on
      [c, e), `al` at e, whitespace on [e+2, g), digits on [g, q). */
  ghost predicate Splits(s: string, p: nat, b: nat, c: nat, e: nat, g: nat, q: nat) {
    && p + 3 < b < c < e && e + 2 < g < q <= |s|
    && DalAt(s, p) && SpacesOn(s, p + 3, b)
    && DigitsOn(s, b, c) && SpacesOn(s, c, e)
    && AlAt(s, e) && SpacesOn(s, e + 2, g)
    && DigitsOn(s, g, q)
  }

  /** The regular-expression engine's attempt at index `p`. Every `\s+` and `\d+`
      is greedy and is followed by something its class excludes, so the attempt
      succeeds exactly with the maximal runs and ends after the longest digit run. */
  function MatchAt(s: string, p: nat): (r: Option<Match>)
    requires p <= |s|
    ensures r.Some? ==> r.value.start == p && p + 3 < r.value.b < r.value.c < r.value.e
    ensures r.Some? ==> r.value.e + 2 < r.value.g < r.value.stop <= |s|
  {
    if !DalAt(s, p) then None else AfterDal(s, p, p + 3 + SpaceRun(s, p + 3))
  }

  /** The attempt after `dal` and its whitespace, which end at `b`. */
  function AfterDal(s: string, p: nat, b: nat): (r: Option<Match>)
    requires p + 3 <= b <= |s|
    ensures r.Some? ==> r.value.start == p && r.value.b == b && p + 3 < b < r.value.c < r.value.e
    ensures r.Some? ==> r.value.e + 2 < r.value.g < r.value.stop <= |s|
  {
    if b == p + 3 then None else AfterFirstNumber(s, p, b, b + DigitRun(s, b))
  }

  /** The attempt after the first number, whose digits end at `c`. */
  function AfterFirstNumber(s: string, p: nat, b: nat, c: nat): (r: Option<Match>)
    requires b <= c <= |s|
    ensures r.Some? ==> r.value.start == p && r.value.b == b && r.value.c == c && b < c < r.value.e
    ensures r.Some? ==> r.value.e + 2 < r.value.g < r.value.stop <= |s|
  {
    if c == b then None
    else
      var e := c + SpaceRun(s, c);
      if e == c || !AlAt(s, e) then None else AfterAl(s, p, b, c, e, e + 2 + SpaceRun(s, e + 2))
  }

  /** The attempt after `al` (at `e`) and its whitespace, which end at `g`. */
  function AfterAl(s: string, p: nat, b: nat, c: nat, e: nat, g: nat): (r: Option<Match>)
    requires e + 2 <= g <= |s|
    ensures r.Some? ==> r == Some(Match(p, b, c, e, g, r.value.stop)) && e + 2 < g < r.value.stop <= |s|
  {
    if g == e + 2 then None
    else
      var q := g + DigitRun(s, g);
      if q == g then None else Some(Match(p, b, c, e, g, q))
  }

  /** A match is a reading of the pattern whose final digit run cannot be extended. */
  lemma MatchAtSound(s: string, p: nat)
    requires p <= |s| && MatchAt(s, p).Some?
    ensures var m := MatchAt(s, p).value; Splits(s, p, m.b, m.c, m.e, m.g, m.stop)
    ensures var m := MatchAt(s, p).value; m.stop == |s| || !IsDigit(s[m.stop])
  {
    var m := MatchAt(s, p).value;
    MatchAtRuns(s, p);
    RunsSplit(s, p, m.b, m.c, m.e, m.g, m.stop);
  }

  /** The pieces of a match are the greedy runs, each non-empty. */
  lemma MatchAtRuns(s: string, p: nat)
    requires p <= |s| && MatchAt(s, p).Some?
    ensures var m := MatchAt(s, p).value;
      && DalAt(s, p) && m.b == p + 3 + SpaceRun(s, p + 3)
      && m.c == m.b + DigitRun(s, m.b) && m.e == m.c + SpaceRun(s, m.c) && AlAt(s, m.e)
      && m.g == m.e + 2 + SpaceRun(s, m.e + 2) && m.stop == m.g + DigitRun(s, m.g)
  {
  }

  /** Non-empty greedy runs in the order of the pattern form a reading of it. */
  lemma RunsSplit(s: string, p: nat, b: nat, c: nat, e: nat, g: nat, q: nat)
    requires p + 3 < b < c < e && e + 2 < g < q <= |s| && DalAt(s, p) && AlAt(s, e)
    requires b == p + 3 + SpaceRun(s, p + 3) && c == b + DigitRun(s, b) && e == c + SpaceRun(s, c)
    requires g == e + 2 + SpaceRun(s, e + 2) && q == g + DigitRun(s, g)
    ensures Splits(s, p, b, c, e, g, q)
    ensures q == |s| || !IsDigit(s[q])
  {
    SpaceRunSpan(s, p + 3);
    DigitRunSpan(s, b);
    SpaceRunSpan(s, c);
    SpaceRunSpan(s, e + 2);
    DigitRunSpan(s, g);
  }

  /** The two digit runs of a match lie within `s`. */
  ghost predicate Readable(s: string, m: Match) {
    m.b <= m.c <= |s| && m.g <= m.stop <= |s| && DigitsOn(s, m.b, m.c) && DigitsOn(s, m.g, m.stop)
  }

  /** The pair a match captures. */
  function IntervalOf(s: string, m: Match): Interval
    requires Readable(s, m)
  {
    Interval(Number(s, m.b, m.c), Number(s, m.g, m.stop))
  }

  /** Every way of reading the pattern at `p` is found by `MatchAt`, with the same
      pieces and an end no earlier; when the final digit run cannot be extended,
      the match is exactly that reading. So `MatchAt` is None only when the
      pattern cannot be read at `p` at all. */
  lemma MatchAtComplete(s: string, p: nat, b: nat, c: nat, e: nat, g: nat, q: nat)
    requires Splits(s, p, b, c, e, g, q)
    ensures MatchAt(s, p).Some?
    ensures var m := MatchAt(s, p).value; m.b == b && m.c == c && m.e == e && m.g == g && q <= m.stop
    ensures q == |s| || !IsDigit(s[q]) ==> MatchAt(s, p) == Some(Match(p, b, c, e, g, q))
  {
    SplitsRuns(s, p, b, c, e, g, q);
    MatchAtFromRuns(s, p, b, c, e, g);
  }

  lemma MatchAtFromRuns(s: string, p: nat, b: nat, c: nat, e: nat, g: nat)
    requires p + 3 <= |s| && DalAt(s, p) && p + 3 + SpaceRun(s, p + 3) == b && b > p + 3
    requires b + DigitRun(s, b) == c && c > b && c + SpaceRun(s, c) == e && e > c && AlAt(s, e)
    requires e + 2 + SpaceRun(s, e + 2) == g && g > e + 2 && g + DigitRun(s, g) > g
    ensures MatchAt(s, p) == Some(Match(p, b, c, e, g, g + DigitRun(s, g)))
  {
    assert AfterAl(s, p, b, c, e, g) == Some(Match(p, b, c, e, g, g + DigitRun(s, g)));
    assert AfterFirstNumber(s, p, b, c) == AfterAl(s, p, b, c, e, g);
    assert AfterDal(s, p, b) == AfterFirstNumber(s, p, b, c);
  }

  /** The greedy runs of `MatchAt` stop exactly at the pieces of a reading. */
  lemma SplitsRuns(s: string, p: nat, b: nat, c: nat, e: nat, g: nat, q: nat)
    requires Splits(s, p, b, c, e, g, q)
    ensures p + 3 + SpaceRun(s, p + 3) == b
    ensures b + DigitRun(s, b) == c
    ensures c + SpaceRun(s, c) == e
    ensures e + 2 + SpaceRun(s, e + 2) == g
    ensures q <= g + DigitRun(s, g)
    ensures q == |s| || !IsDigit(s[q]) ==> g + DigitRun(s, g) == q
  {
    assert IsDigit(s[b]) && IsSpace(s[c]) && IsDigit(s[g]);
    SpaceRunExact(s, p + 3, b);
    DigitRunExact(s, b, c);
    SpaceRunExact(s, c, e);
    SpaceRunExact(s, e + 2, g);
    DigitRunSpan(s, g);
    if q == |s| || !IsDigit(s[q]) {
      DigitRunExact(s, g, q);
    }
  }

  /** `re.findall` from index `p`: try each index in turn; after a match, resume
      at its end. */
  function Scan(s: string, p: nat): seq<Match>
    requires p <= |s|
    decreases |s| - p
  {
    if p == |s| then []
    else
      match MatchAt(s, p)
      case None => Scan(s, p + 1)
      case Some(m) => [m] + Scan(s, m.stop)
  }

  /** Every match reported from `p` on is the engine's match at its own start,
      which lies at or after `p`. */
  lemma {:induction false} ScanSound(s: string, p: nat)
    requires p <= |s|
    ensures forall k :: 0 <= k < |Scan(s, p)| ==>
      p <= Scan(s, p)[k].start < |s| && MatchAt(s, Scan(s, p)[k].start) == Some(Scan(s, p)[k])
    decreases |s| - p
  {
    if p < |s| {
      match MatchAt(s, p)
      case None => ScanSound(s, p + 1);
      case Some(m) =>
        ScanSound(s, m.stop);
        assert Scan(s, p) == [m] + Scan(s, m.stop);
    }
  }

  /** Matches are reported left to right and never overlap. */
  lemma {:induction false} ScanOrdered(s: string, p: nat)
    requires p <= |s|
    ensures forall k :: 0 <= k < |Scan(s, p)| - 1 ==> Scan(s, p)[k].stop <= Scan(s, p)[k + 1].start
    decreases |s| - p
  {
    if p < |s| {
      match MatchAt(s, p)
      case None => ScanOrdered(s, p + 1);
      case Some(m) =>
        ScanOrdered(s, m.stop);
        ScanSound(s, m.stop);
        var rest := Scan(s, m.stop);
        var r := Scan(s, p);
        assert r == [m] + rest;
        forall k | 0 <= k < |r| - 1 ensures r[k].stop <= r[k + 1].start {
          if k > 0 {
            assert r[k] == rest[k - 1] && r[k + 1] == rest[k];
          }
        }
    }
  }

  /** Where the pattern cannot be read, the scan moves on by one index. */
  lemma ScanSkips(s: string, p: nat)
    requires p < |s| && MatchAt(s, p).None?
    ensures Scan(s, p) == Scan(s, p + 1)
  {
  }

  /** Where the pattern is read, the scan reports the match and resumes at its end. */
  lemma ScanTakes(s: string, p: nat)
    requires p < |s| && MatchAt(s, p).Some?
    ensures Scan(s, p) == [MatchAt(s, p).value] + Scan(s, MatchAt(s, p).value.stop)
  {
  }

  /** A list starting with a match that spans `q`, or followed by one, spans `q`. */
  lemma SpannedCons(m: Match, rest: seq<Match>, q: nat)
    requires (m.start <= q < m.stop) || exists k :: 0 <= k < |rest| && rest[k].start <= q < rest[k].stop
    ensures exists k :: 0 <= k < |[m] + rest| && ([m] + rest)[k].start <= q < ([m] + rest)[k].stop
  {
    if m.start <= q < m.stop {
      assert ([m] + rest)[0] == m;
    } else {
      var k :| 0 <= k < |rest| && rest[k].start <= q < rest[k].stop;
      assert ([m] + rest)[k + 1] == rest[k];
    }
  }

  /** Nothing is missed: every index from `p` on where the pattern can be read lies
      inside some reported match (either it is that match's start, or an earlier
      match consumed it). */
  lemma {:induction false} ScanComplete(s: string, p: nat, q: nat)
    requires p <= q < |s| && MatchAt(s, q).Some?
    ensures exists k :: 0 <= k < |Scan(s, p)| && Scan(s, p)[k].start <= q < Scan(s, p)[k].stop
    decreases |s| - p
  {
    var r := MatchAt(s, p);
    if r.None? {
      assert p != q;
      ScanSkips(s, p);
      ScanComplete(s, p + 1, q);
    } else {
      var m := r.value;
      ScanTakes(s, p);
      if m.stop <= q {
        ScanComplete(s, m.stop, q);
      }
      SpannedCons(m, Scan(s, m.stop), q);
    }
  }

  /** The pairs `re.findall` returns for this pattern on `s`, left to right. */
  function FindIntervals(s: string): seq<Interval> {
    var ms := Scan(s, 0);
    ScanSound(s, 0);
    assert forall k :: 0 <= k < |ms| ==> Readable(s, ms[k]) by {
      forall k | 0 <= k < |ms| {
        MatchAtSound(s, ms[k].start);
      }
    }
    Captures(s, ms)
  }

  /** The pairs captured by the matches `ms`, in order. */
  function Captures(s: string, ms: seq<Match>): (r: seq<Interval>)
    requires forall k :: 0 <= k < |ms| ==> Readable(s, ms[k])
    ensures |r| == |ms|
    ensures forall k :: 0 <= k < |ms| ==> r[k] == IntervalOf(s, ms[k])
  {
    if ms == [] then [] else [IntervalOf(s, ms[0])] + Captures(s, ms[1..])
  }

  /** The "Intervallo coperto" text `f'dal {inizio} al {fine}'`. */
  function FormatInterval(iv: Interval): string {
    "dal " + NatToString(iv.inizio) + " al " + NatToString(iv.fine)
  }

  /** `inizio % 2 == civico % 2 and inizio <= civico <= fine`: the interval covers
      the number and starts on the number's side of the street. */
  predicate Covers(iv: Interval, civico: nat) {
    iv.inizio % 2 == civico % 2 && iv.inizio <= civico <= iv.fine
  }

  /** Reading back a printed interval with the cell pattern gives exactly that interval. */
  lemma FormatThenFind(iv: Interval)
    ensures FindIntervals(FormatInterval(iv)) == [iv]
  {
    var a := NatToString(iv.inizio);
    var f := NatToString(iv.fine);
    var t := FormatInterval(iv);
    var c := 4 + |a|;
    var e := c + 1;
    var g := e + 3;
    assert t[4..c] == a;
    assert t[g..|t|] == f;
    assert Splits(t, 0, 4, c, e, g, |t|);
    MatchAtComplete(t, 0, 4, c, e, g, |t|);
    var m := Match(0, 4, c, e, g, |t|);
    assert Scan(t, 0) == [m];
    assert IntervalOf(t, m) == iv;
  }
}
