/** Python's ordering of strings (code point by code point, a proper prefix
    first) and `sorted(...)` of a list of words. */
module Sorting {
  import opened Words

  /** `a <= b` on Python strings. */
  predicate LexLe(a: string, b: string)
    decreases |a|
  {
    a == [] || (b != [] && (a[0] < b[0] || (a[0] == b[0] && LexLe(a[1..], b[1..]))))
  }

  lemma {:induction false} LexLeReflexive(a: string)
    ensures LexLe(a, a)
    decreases |a|
  {
    if a != [] {
      LexLeReflexive(a[1..]);
    }
  }

  lemma {:induction false} LexLeTotal(a: string, b: string)
    ensures LexLe(a, b) || LexLe(b, a)
    decreases |a|
  {
    if a != [] && b != [] && a[0] == b[0] {
      LexLeTotal(a[1..], b[1..]);
    }
  }

  lemma {:induction false} LexLeAntisymmetric(a: string, b: string)
    requires LexLe(a, b) && LexLe(b, a)
    ensures a == b
    decreases |a|
  {
    if a != [] {
      LexLeAntisymmetric(a[1..], b[1..]);
      assert a == [a[0]] + a[1..];
      assert b == [b[0]] + b[1..];
    }
  }

  lemma {:induction false} LexLeTransitive(a: string, b: string, c: string)
    requires LexLe(a, b) && LexLe(b, c)
    ensures LexLe(a, c)
    decreases |a|
  {
    if a != [] && a[0] == b[0] && b[0] == c[0] {
      LexLeTransitive(a[1..], b[1..], c[1..]);
    }
  }

  predicate Sorted(s: seq<string>) {
    forall i, j :: 0 <= i < j < |s| ==> LexLe(s[i], s[j])
  }

  /** `x` placed into the sorted list `s` before the first element it does not exceed. */
  function Insert(x: string, s: seq<string>): (r: seq<string>)
    requires Sorted(s)
    ensures Sorted(r)
    ensures multiset(r) == multiset(s) + multiset{x}
  {
    if s == [] then [x]
    else if LexLe(x, s[0]) then
      assert forall j :: 0 <= j < |s| ==> LexLe(x, s[j]) by {
        forall j | 0 <= j < |s| ensures LexLe(x, s[j]) {
          if j > 0 {
            LexLeTransitive(x, s[0], s[j]);
          }
        }
      }
      [x] + s
    else
      var t := Insert(x, s[1..]);
      LexLeTotal(x, s[0]);
      assert s == [s[0]] + s[1..];
      BoundByElements(s[0], x, s[1..], t);
      [s[0]] + t
  }

  /** A lower bound of `x` and of every element of `s` bounds every element of
      a list made of `x` and the elements of `s`. */
  lemma BoundByElements(y: string, x: string, s: seq<string>, t: seq<string>)
    requires LexLe(y, x)
    requires forall j :: 0 <= j < |s| ==> LexLe(y, s[j])
    requires multiset(t) == multiset(s) + multiset{x}
    ensures forall j :: 0 <= j < |t| ==> LexLe(y, t[j])
  {
    forall j | 0 <= j < |t| ensures LexLe(y, t[j]) {
      assert t[j] in multiset(t);
      if t[j] != x {
        assert t[j] in multiset(s);
        var k :| 0 <= k < |s| && s[k] == t[j];
      }
    }
  }

  /** `sorted(s)`: a sorted permutation of `s`. */
  function Sort(s: seq<string>): (r: seq<string>)
    ensures Sorted(r)
    ensures multiset(r) == multiset(s)
  {
    if s == [] then []
    else
      assert s == [s[0]] + s[1..];
      Insert(s[0], Sort(s[1..]))
  }

  /** A sorted permutation is unique: two sorted lists with the same elements are equal. */
  lemma {:induction false} SortedUnique(a: seq<string>, b: seq<string>)
    requires Sorted(a) && Sorted(b)
    requires multiset(a) == multiset(b)
    ensures a == b
    decreases |a|
  {
    if a != [] {
      assert |b| == |multiset(b)| == |multiset(a)| == |a|;
      assert a[0] in multiset(b);
      var j :| 0 <= j < |b| && b[j] == a[0];
      assert b[0] in multiset(a);
      var i :| 0 <= i < |a| && a[i] == b[0];
      assert LexLe(a[0], b[0]) by {
        if i > 0 {
          assert LexLe(a[0], a[i]);
        } else {
          LexLeReflexive(a[0]);
        }
      }
      assert LexLe(b[0], a[0]) by {
        if j > 0 {
          assert LexLe(b[0], b[j]);
        } else {
          LexLeReflexive(b[0]);
        }
      }
      LexLeAntisymmetric(a[0], b[0]);
      assert a == [a[0]] + a[1..];
      assert b == [b[0]] + b[1..];
      assert multiset(a) == multiset{a[0]} + multiset(a[1..]);
      assert multiset(b) == multiset{b[0]} + multiset(b[1..]);
      assert multiset(a[1..]) == multiset(a) - multiset{a[0]};
      assert multiset(b[1..]) == multiset(b) - multiset{b[0]};
      SortedUnique(a[1..], b[1..]);
    }
  }

  /** Sorting depends only on the multiset of elements. */
  lemma {:induction false} SortPermutationInvariant(a: seq<string>, b: seq<string>)
    requires multiset(a) == multiset(b)
    ensures Sort(a) == Sort(b)
  {
    SortedUnique(Sort(a), Sort(b));
  }

  /** Sorting a sorted list changes nothing. */
  lemma SortSorted(s: seq<string>)
    requires Sorted(s)
    ensures Sort(s) == s
  {
    SortedUnique(Sort(s), s);
  }

  /** Every element of the sorted list comes from the input. */
  lemma SortElements(s: seq<string>)
    ensures forall k :: 0 <= k < |Sort(s)| ==> Sort(s)[k] in s
  {
    var r := Sort(s);
    forall k | 0 <= k < |r| ensures r[k] in s {
      assert r[k] in multiset(r);
    }
  }

  lemma {:induction false} InsertSumLen(x: string, s: seq<string>)
    requires Sorted(s)
    ensures |Insert(x, s)| == |s| + 1
    ensures SumLen(Insert(x, s)) == |x| + SumLen(s)
  {
    if s != [] && !LexLe(x, s[0]) {
      InsertSumLen(x, s[1..]);
    }
  }

  /** Sorting keeps the number of words and their total length. */
  lemma {:induction false} SortSumLen(s: seq<string>)
    ensures |Sort(s)| == |s|
    ensures SumLen(Sort(s)) == SumLen(s)
  {
    assert |Sort(s)| == |multiset(Sort(s))| == |multiset(s)| == |s|;
    if s != [] {
      SortSumLen(s[1..]);
      InsertSumLen(s[0], Sort(s[1..]));
    }
  }
}
