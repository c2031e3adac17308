/** Splitting text into whitespace-separated words (`str.split()` with no
    separator) and joining words with single spaces (`" ".join(...)`). */
module Words {
  import opened Text

  /** A word as `str.split()` produces it: non-empty, without whitespace. */
  predicate IsWord(w: string) {
    |w| > 0 && forall i :: 0 <= i < |w| ==> !IsSpace(w[i])
  }

  predicate AllWords(ws: seq<string>) {
    forall k :: 0 <= k < |ws| ==> IsWord(ws[k])
  }

  /** The words of `ws` glued together with nothing between them. */
  function Concat(ws: seq<string>): string {
    if ws == [] then [] else ws[0] + Concat(ws[1..])
  }

  /** `s.split()`: the maximal runs of non-whitespace characters of `s`, left to right. */
  function Split(s: string): (ws: seq<string>)
    ensures AllWords(ws)
    ensures Concat(ws) == KeepChars(s, IsNonSpace)
    decreases |s|
  {
    if s == [] then []
    else if IsSpace(s[0]) then
      Split(s[1..])
    else
      var n := WordRun(s, 0);
      WordRunSpan(s, 0);
      var w := s[..n];
      var ws := [w] + Split(s[n..]);
      assert s == w + s[n..];
      KeepCharsAppend(w, s[n..], IsNonSpace);
      KeepCharsAll(w, IsNonSpace);
      assert ws[1..] == Split(s[n..]);
      ws
  }

  /** `" ".join(ws)`. */
  function JoinWords(ws: seq<string>): string {
    if ws == [] then ""
    else if |ws| == 1 then ws[0]
    else ws[0] + " " + JoinWords(ws[1..])
  }

  /** Whitespace occurs only as single `' '` characters strictly between two
      non-whitespace characters: no leading or trailing whitespace and no run
      of two. */
  predicate SingleSpaced(s: string) {
    forall i :: 0 <= i < |s| && IsSpace(s[i]) ==> s[i] == ' ' && 0 < i && i + 1 < |s| && !IsSpace(s[i + 1])
  }

  lemma SplitLeadingSpace(s: string)
    requires s != [] && IsSpace(s[0])
    ensures Split(s) == Split(s[1..])
  {
  }

  /** Text made only of whitespace has no words. */
  lemma {:induction false} SplitBlank(s: string)
    requires forall k :: 0 <= k < |s| ==> IsSpace(s[k])
    ensures Split(s) == []
    decreases |s|
  {
    if s != [] {
      SplitBlank(s[1..]);
    }
  }

  /** A word followed by whitespace or by nothing is split off as the first word. */
  lemma {:induction false} SplitWordThen(w: string, t: string)
    requires IsWord(w)
    requires t == [] || IsSpace(t[0])
    ensures Split(w + t) == [w] + Split(t)
  {
    var s := w + t;
    assert NonSpacesOn(s, 0, |w|) by {
      forall k | 0 <= k < |w| ensures !IsSpace(s[k]) {
        assert s[k] == w[k];
      }
    }
    WordRunExact(s, 0, |w|);
    assert s[..|w|] == w;
    assert s[|w|..] == t;
  }

  /** Splitting undoes joining: the words of `" ".join(ws)` are exactly `ws`. */
  lemma {:induction false} SplitJoin(ws: seq<string>)
    requires AllWords(ws)
    ensures Split(JoinWords(ws)) == ws
  {
    if ws == [] {
    } else if |ws| == 1 {
      SplitWordThen(ws[0], []);
      assert ws[0] + [] == ws[0];
    } else {
      var rest := JoinWords(ws[1..]);
      assert JoinWords(ws) == ws[0] + (" " + rest);
      SplitWordThen(ws[0], " " + rest);
      SplitLeadingSpace(" " + rest);
      assert (" " + rest)[1..] == rest;
      SplitJoin(ws[1..]);
    }
  }

  /** A join of at least one word starts with the first character of its first word. */
  lemma JoinWordsStart(ws: seq<string>)
    requires AllWords(ws) && ws != []
    ensures JoinWords(ws) != [] && JoinWords(ws)[0] == ws[0][0]
  {
  }

  /** Joining words with single spaces yields single-spaced text. */
  lemma {:induction false} JoinSingleSpaced(ws: seq<string>)
    requires AllWords(ws)
    ensures SingleSpaced(JoinWords(ws))
  {
    if |ws| >= 2 {
      var w := ws[0];
      var rest := JoinWords(ws[1..]);
      var s := JoinWords(ws);
      assert s == w + " " + rest;
      JoinSingleSpaced(ws[1..]);
      JoinWordsStart(ws[1..]);
      forall i | 0 <= i < |s| && IsSpace(s[i])
        ensures s[i] == ' ' && 0 < i && i + 1 < |s| && !IsSpace(s[i + 1])
      {
        if i == |w| {
          assert s[i + 1] == rest[0];
        } else {
          assert s[i] == rest[i - |w| - 1];
          assert i + 1 < |s| ==> s[i + 1] == rest[i - |w|];
        }
      }
    }
  }

  /** If every word and the space satisfy `P`, so does every character of the join. */
  lemma {:induction false} JoinChars(ws: seq<string>, P: char -> bool)
    requires P(' ')
    requires forall k, i :: 0 <= k < |ws| && 0 <= i < |ws[k]| ==> P(ws[k][i])
    ensures forall i :: 0 <= i < |JoinWords(ws)| ==> P(JoinWords(ws)[i])
  {
    if |ws| >= 2 {
      JoinChars(ws[1..], P);
      var s := JoinWords(ws);
      var rest := JoinWords(ws[1..]);
      assert s == ws[0] + " " + rest;
      forall i | 0 <= i < |s|
        ensures P(s[i])
      {
        if i < |ws[0]| {
          assert s[i] == ws[0][i];
        } else if i > |ws[0]| {
          assert s[i] == rest[i - |ws[0]| - 1];
        }
      }
    } else if |ws| == 1 {
      assert forall i :: 0 <= i < |ws[0]| ==> P(ws[0][i]);
    }
  }

  /** If every character of `s` satisfies `P`, so does every character of its words. */
  lemma {:induction false} SplitChars(s: string, P: char -> bool)
    requires forall i :: 0 <= i < |s| ==> P(s[i])
    ensures forall k, i :: 0 <= k < |Split(s)| && 0 <= i < |Split(s)[k]| ==> P(Split(s)[k][i])
    decreases |s|
  {
    if s == [] {
    } else if IsSpace(s[0]) {
      SplitChars(s[1..], P);
    } else {
      var n := WordRun(s, 0);
      SplitChars(s[n..], P);
      assert Split(s) == [s[..n]] + Split(s[n..]);
    }
  }

  /** Whitespace appended to text adds no word. */
  lemma {:induction false} SplitAppendBlank(x: string, y: string)
    requires forall k :: 0 <= k < |y| ==> IsSpace(y[k])
    ensures Split(x + y) == Split(x)
    decreases |x|
  {
    if x == [] {
      assert x + y == y;
      SplitBlank(y);
    } else if IsSpace(x[0]) {
      assert (x + y)[1..] == x[1..] + y;
      SplitAppendBlank(x[1..], y);
    } else {
      var n := WordRun(x, 0);
      WordRunSpan(x, 0);
      var s := x + y;
      assert NonSpacesOn(s, 0, n) by {
        forall k | 0 <= k < n ensures !IsSpace(s[k]) {
          assert s[k] == x[k];
        }
      }
      if n < |x| {
        assert s[n] == x[n];
      } else if y != [] {
        assert s[n] == y[0];
      }
      WordRunExact(s, 0, n);
      assert s[..n] == x[..n];
      assert s[n..] == x[n..] + y;
      SplitAppendBlank(x[n..], y);
    }
  }

  /** The total length of the words. */
  function SumLen(ws: seq<string>): nat {
    if ws == [] then 0 else |ws[0]| + SumLen(ws[1..])
  }

  lemma {:induction false} SumLenAppend(a: seq<string>, b: seq<string>)
    ensures SumLen(a + b) == SumLen(a) + SumLen(b)
  {
    if a == [] {
      assert a + b == b;
    } else {
      assert (a + b)[1..] == a[1..] + b;
      SumLenAppend(a[1..], b);
    }
  }

  /** `" ".join(ws)` has the words' characters and one space between each two. */
  lemma {:induction false} JoinWordsLength(ws: seq<string>)
    ensures |JoinWords(ws)| == if ws == [] then 0 else SumLen(ws) + |ws| - 1
  {
    if |ws| >= 2 {
      JoinWordsLength(ws[1..]);
    }
  }

  /** Splitting at a whitespace boundary: text that ends in whitespace contributes
      its own words, and what follows contributes its own. */
  lemma {:induction false} SplitAppendAtSpace(x: string, y: string)
    requires x == [] || IsSpace(x[|x| - 1])
    ensures Split(x + y) == Split(x) + Split(y)
    decreases |x|
  {
    if x == [] {
      assert x + y == y;
    } else if IsSpace(x[0]) {
      assert (x + y)[1..] == x[1..] + y;
      SplitAppendAtSpace(x[1..], y);
    } else {
      var n := WordRun(x, 0);
      WordRunSpan(x, 0);
      assert n < |x|;
      var s := x + y;
      assert NonSpacesOn(s, 0, n) by {
        forall k | 0 <= k < n ensures !IsSpace(s[k]) {
          assert s[k] == x[k];
        }
      }
      assert s[n] == x[n];
      WordRunExact(s, 0, n);
      assert s[..n] == x[..n];
      assert s[n..] == x[n..] + y;
      SplitAppendAtSpace(x[n..], y);
    }
  }
}
