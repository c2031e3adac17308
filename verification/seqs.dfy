/** Order-preserving filtering and first-occurrence de-duplication of sequences:
    the two pandas operations the lookups apply to their result frames (a boolean
    row mask and `drop_duplicates()`). */
module Seqs {

  /** The elements of `s` that satisfy `P`, in their original order. */
  function Filter<T(==)>(s: seq<T>, P: T -> bool): (r: seq<T>)
    ensures |r| <= |s|
    ensures forall k :: 0 <= k < |r| ==> P(r[k]) && r[k] in s
    ensures forall k :: 0 <= k < |s| && P(s[k]) ==> s[k] in r
  {
    if s == [] then []
    else (if P(s[0]) then [s[0]] else []) + Filter(s[1..], P)
  }

  /** Filtering distributes over concatenation, so the kept elements keep their relative order. */
  lemma {:induction false} FilterAppend<T>(a: seq<T>, b: seq<T>, P: T -> bool)
    ensures Filter(a + b, P) == Filter(a, P) + Filter(b, P)
  {
    if a == [] {
      assert a + b == b;
    } else {
      assert (a + b)[1..] == a[1..] + b;
      FilterAppend(a[1..], b, P);
    }
  }

  /** A filter that every element passes keeps the sequence unchanged. */
  lemma {:induction false} FilterKeepsAll<T>(s: seq<T>, P: T -> bool)
    requires forall k :: 0 <= k < |s| ==> P(s[k])
    ensures Filter(s, P) == s
  {
    if s != [] {
      FilterKeepsAll(s[1..], P);
    }
  }

  /** Two tests that agree on every element keep the same elements. */
  lemma {:induction false} FilterAgree<T>(s: seq<T>, P: T -> bool, Q: T -> bool)
    requires forall k :: 0 <= k < |s| ==> P(s[k]) == Q(s[k])
    ensures Filter(s, P) == Filter(s, Q)
  {
    if s != [] {
      FilterAgree(s[1..], P, Q);
    }
  }

  predicate NoDuplicates<T(==)>(s: seq<T>) {
    forall i, j :: 0 <= i < j < |s| ==> s[i] != s[j]
  }

  /** The index of the first occurrence of `x` in `s`. */
  function FirstIndex<T(==)>(s: seq<T>, x: T): (i: nat)
    requires x in s
    ensures i < |s| && s[i] == x
    ensures forall k :: 0 <= k < i ==> s[k] != x
  {
    if s[0] == x then 0 else 1 + FirstIndex(s[1..], x)
  }

  lemma {:induction false} FirstIndexInPrefix<T>(s: seq<T>, n: nat, x: T)
    requires n <= |s| && x in s[..n]
    ensures FirstIndex(s, x) == FirstIndex(s[..n], x)
  {
    if s[0] != x {
      assert s[..n][1..] == s[1..][..n - 1];
      FirstIndexInPrefix(s[1..], n - 1, x);
    }
  }

  /** `drop_duplicates()`: the first occurrence of every element of `s`, in order
      (`DedupOrder`). */
  function Dedup<T(==)>(s: seq<T>): (r: seq<T>)
    ensures NoDuplicates(r)
    ensures forall k :: 0 <= k < |r| ==> r[k] in s
    ensures forall k :: 0 <= k < |s| ==> s[k] in r
  {
    if s == [] then []
    else
      var init := s[..|s| - 1];
      var d := Dedup(init);
      var x := s[|s| - 1];
      assert s == init + [x];
      if x in d then d else d + [x]
  }

  /** A repeated element is kept once. */
  lemma DedupRepeat<T>(x: T)
    ensures Dedup([x, x]) == [x]
  {
    assert [x][..0] == [];
    assert Dedup([x]) == [] + [x];
    assert [x, x][..1] == [x];
  }

  /** Appending the last element of `s`, which occurs nowhere before it, to
      elements ordered by first occurrence in `s` keeps them ordered. */
  lemma OrderAppendLast<T>(s: seq<T>, d: seq<T>, x: T)
    requires s != [] && x == s[|s| - 1] && x !in s[..|s| - 1]
    requires forall k :: 0 <= k < |d| ==> d[k] in s[..|s| - 1]
    requires forall i, j :: 0 <= i < j < |d| ==> FirstIndex(s, d[i]) < FirstIndex(s, d[j])
    ensures forall i, j :: 0 <= i < j < |d + [x]| ==> FirstIndex(s, (d + [x])[i]) < FirstIndex(s, (d + [x])[j])
  {
    FirstIndexOfLast(s);
    var r := d + [x];
    forall i, j | 0 <= i < j < |r| ensures FirstIndex(s, r[i]) < FirstIndex(s, r[j]) {
      assert r[i] == d[i];
      if j < |d| {
        assert r[j] == d[j];
      } else {
        FirstIndexBefore(s, |s| - 1, d[i]);
      }
    }
  }

  /** An element occurring in the first `n` places first occurs before `n`. */
  lemma FirstIndexBefore<T>(s: seq<T>, n: nat, x: T)
    requires n <= |s| && x in s[..n]
    ensures FirstIndex(s, x) < n
  {
    var k :| 0 <= k < n && s[..n][k] == x;
    assert s[k] == x;
  }

  /** A last element occurring nowhere before first occurs at the end. */
  lemma FirstIndexOfLast<T>(s: seq<T>)
    requires s != [] && s[|s| - 1] !in s[..|s| - 1]
    ensures FirstIndex(s, s[|s| - 1]) == |s| - 1
  {
    forall k | 0 <= k < |s| - 1 ensures s[k] != s[|s| - 1] {
      assert s[k] == s[..|s| - 1][k];
    }
  }

  /** The kept elements appear in the order of their first occurrences. */
  lemma {:induction false} DedupOrder<T>(s: seq<T>)
    ensures forall i, j :: 0 <= i < j < |Dedup(s)| ==> FirstIndex(s, Dedup(s)[i]) < FirstIndex(s, Dedup(s)[j])
  {
    if s != [] {
      var init := s[..|s| - 1];
      var d := Dedup(init);
      var x := s[|s| - 1];
      DedupOrder(init);
      assert s == init + [x];
      forall k | 0 <= k < |d| ensures FirstIndex(s, d[k]) == FirstIndex(init, d[k]) {
        FirstIndexInPrefix(s, |s| - 1, d[k]);
      }
      if x !in d {
        OrderAppendLast(s, d, x);
      }
    }
  }
}
