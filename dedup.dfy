/**
 * Order-preserving deduplication, as done by `MyMongodb.remove_duplicates`:
 * walk the input once and append each element to the result unless an equal
 * element is already there. Python's list membership test compares with
 * `==`, which is structural on dictionaries; here it is Dafny's equality on T.
 */
module Dedup {

  /** Every element of r occurs in s and every element of s occurs in r. */
  predicate SameElements<T(==)>(r: seq<T>, s: seq<T>) {
    && (forall i :: 0 <= i < |r| ==> r[i] in s)
    && (forall j :: 0 <= j < |s| ==> s[j] in r)
  }

  /** No value occurs twice in s. */
  predicate Distinct<T(==)>(s: seq<T>) {
    forall i, j :: 0 <= i < j < |s| ==> s[i] != s[j]
  }

  /**
   * The result of the deduplication loop after it has consumed all of s:
   * the result for all but the last element, extended by the last element
   * when no equal element was kept before it.
   */
  function Unique<T(==)>(s: seq<T>): (r: seq<T>)
    ensures |r| <= |s|
    ensures SameElements(r, s)
  {
    if s == [] then []
    else
      var p := Unique(s[..|s| - 1]);
      if s[|s| - 1] in p then p else p + [s[|s| - 1]]
  }

  /** The position of the first occurrence of x in s. */
  function FirstIndex<T(==)>(s: seq<T>, x: T): (i: nat)
    requires x in s
    ensures i < |s| && s[i] == x && x !in s[..i]
  {
    if s[0] == x then 0
    else
      var j := FirstIndex(s[1..], x);
      assert s[..j + 1] == [s[0]] + s[1..][..j];
      1 + j
  }

  /**
   * Reference definition of the deduplicated list, independent of the loop:
   * r holds no value twice, holds exactly the values of s, and lists them in
   * the order in which they first occur in s.
   */
  ghost predicate FirstOccurrenceOrder<T>(s: seq<T>, r: seq<T>) {
    && Distinct(r)
    && SameElements(r, s)
    && (forall i, j :: 0 <= i < j < |r| ==> FirstIndex(s, r[i]) < FirstIndex(s, r[j]))
  }

  /** A position holding x with no x before it is the first index of x. */
  lemma {:induction false} FirstIndexUnique<T>(s: seq<T>, x: T, i: nat)
    requires i < |s| && s[i] == x && x !in s[..i]
    ensures FirstIndex(s, x) == i
  {
    var j := FirstIndex(s, x);
    forall t | 0 <= t < i ensures s[t] != x {
      assert s[..i][t] == s[t];
    }
    forall t | 0 <= t < j ensures s[t] != x {
      assert s[..j][t] == s[t];
    }
  }

  /** Appending an element does not move the first occurrence of a value already present. */
  lemma {:induction false} FirstIndexOfPrefix<T>(s: seq<T>, y: T)
    requires s != [] && y in s[..|s| - 1]
    ensures FirstIndex(s, y) == FirstIndex(s[..|s| - 1], y)
  {
    var p := s[..|s| - 1];
    var i := FirstIndex(p, y);
    assert s[..i] == p[..i];
    FirstIndexUnique(s, y, i);
  }

  /** The deduplicated list never holds a value twice. */
  lemma {:induction false} UniqueIsDistinct<T>(s: seq<T>)
    ensures Distinct(Unique(s))
  {
    if s != [] {
      UniqueIsDistinct(s[..|s| - 1]);
    }
  }

  /** The deduplicated list lists its values in order of first occurrence in the input. */
  lemma {:induction false} UniqueKeepsFirstOccurrenceOrder<T>(s: seq<T>)
    ensures forall i, j :: 0 <= i < j < |Unique(s)| ==> FirstIndex(s, Unique(s)[i]) < FirstIndex(s, Unique(s)[j])
  {
    if s != [] {
      var n := |s| - 1;
      var p := s[..n];
      var r := Unique(s);
      UniqueKeepsFirstOccurrenceOrder(p);
      forall i, j | 0 <= i < j < |r|
        ensures FirstIndex(s, r[i]) < FirstIndex(s, r[j])
      {
        assert r[i] in p by { assert r[i] == Unique(p)[i]; }
        FirstIndexOfPrefix(s, r[i]);
        if j < |Unique(p)| {
          assert r[j] == Unique(p)[j];
          FirstIndexOfPrefix(s, r[j]);
        } else {
          assert r[j] == s[n] && s[n] !in p;
          assert s[..n] == p;
          FirstIndexUnique(s, s[n], n);
        }
      }
    }
  }

  /** The deduplicated list satisfies the reference definition. */
  lemma {:induction false} UniqueSatisfiesFirstOccurrenceOrder<T>(s: seq<T>)
    ensures FirstOccurrenceOrder(s, Unique(s))
  {
    UniqueIsDistinct(s);
    UniqueKeepsFirstOccurrenceOrder(s);
  }

  /**
   * When the last input element repeats an earlier one, a list in
   * first-occurrence order for the input is one for the input without it.
   */
  lemma {:induction false} FirstOccurrenceOrderDropRepeat<T>(s: seq<T>, r: seq<T>)
    requires s != [] && s[|s| - 1] in s[..|s| - 1]
    requires FirstOccurrenceOrder(s, r)
    ensures FirstOccurrenceOrder(s[..|s| - 1], r)
  {
    var p := s[..|s| - 1];
    forall i | 0 <= i < |r| ensures r[i] in p && FirstIndex(s, r[i]) == FirstIndex(p, r[i]) {
      assert r[i] in s;
      var k :| 0 <= k < |s| && s[k] == r[i];
      if k < |s| - 1 {
        assert p[k] == r[i];
      }
      FirstIndexOfPrefix(s, r[i]);
    }
    forall j | 0 <= j < |p| ensures p[j] in r {
      assert p[j] == s[j];
    }
  }

  /**
   * When the last input element is new, a list in first-occurrence order for
   * the input ends with it, and the rest is in first-occurrence order for the
   * input without it.
   */
  lemma {:induction false} FirstOccurrenceOrderDropNew<T>(s: seq<T>, r: seq<T>)
    requires s != [] && s[|s| - 1] !in s[..|s| - 1]
    requires FirstOccurrenceOrder(s, r)
    ensures r != [] && r[|r| - 1] == s[|s| - 1]
    ensures FirstOccurrenceOrder(s[..|s| - 1], r[..|r| - 1])
  {
    var n := |s| - 1;
    var p := s[..n];
    var x := s[n];
    FirstIndexUnique(s, x, n);
    assert x in r;
    var m := |r| - 1;
    var k :| 0 <= k < |r| && r[k] == x;
    assert r[m] in s;
    assert k == m;
    var q := r[..m];
    forall i | 0 <= i < |q| ensures q[i] in p && FirstIndex(s, q[i]) == FirstIndex(p, q[i]) {
      assert r[i] != r[m];
      assert q[i] in s;
      var t :| 0 <= t < |s| && s[t] == q[i];
      assert p[t] == q[i];
      FirstIndexOfPrefix(s, q[i]);
    }
    forall j | 0 <= j < |p| ensures p[j] in q {
      assert p[j] == s[j] && s[j] in r && s[j] != x;
      var t :| 0 <= t < |r| && r[t] == s[j];
      assert q[t] == s[j];
    }
  }

  /**
   * Names the first element of a non-empty list without asserting anything
   * about it, so that facts about the list's elements apply to it.
   */
  lemma HeadIsElement<T>(r: seq<T>)
    ensures r != [] ==> r[0] in r
  {
  }

  /** Only the deduplicated list satisfies the reference definition. */
  lemma {:induction false} FirstOccurrenceOrderDeterminesResult<T>(s: seq<T>, r: seq<T>)
    requires FirstOccurrenceOrder(s, r)
    ensures r == Unique(s)
  {
    if s == [] {
      HeadIsElement(r);
    } else {
      var p := s[..|s| - 1];
      if s[|s| - 1] in p {
        FirstOccurrenceOrderDropRepeat(s, r);
        FirstOccurrenceOrderDeterminesResult(p, r);
      } else {
        FirstOccurrenceOrderDropNew(s, r);
        var q := r[..|r| - 1];
        FirstOccurrenceOrderDeterminesResult(p, q);
        assert r == q + [s[|s| - 1]];
      }
    }
  }

  /** The loop's result is exactly the list of first occurrences, in order. */
  lemma {:induction false} UniqueCharacterised<T>(s: seq<T>, r: seq<T>)
    ensures r == Unique(s) <==> FirstOccurrenceOrder(s, r)
  {
    UniqueSatisfiesFirstOccurrenceOrder(s);
    if FirstOccurrenceOrder(s, r) {
      FirstOccurrenceOrderDeterminesResult(s, r);
    }
  }

  /**
   * The result is a subsequence of the input whose every element is the
   * first occurrence of its value, and every first occurrence is kept:
   * idx gives the input position of each result element.
   */
  lemma {:induction false} UniqueKeepsExactlyFirstOccurrences<T>(s: seq<T>) returns (idx: seq<nat>)
    ensures |idx| == |Unique(s)|
    ensures forall k :: 0 <= k < |idx| ==> idx[k] < |s| && s[idx[k]] == Unique(s)[k] && s[idx[k]] !in s[..idx[k]]
    ensures forall k, l :: 0 <= k < l < |idx| ==> idx[k] < idx[l]
    ensures forall i :: 0 <= i < |s| && s[i] !in s[..i] ==> i in idx
  {
    var r := Unique(s);
    UniqueSatisfiesFirstOccurrenceOrder(s);
    idx := seq(|r|, k requires 0 <= k < |r| => FirstIndex(s, r[k]));
    forall i | 0 <= i < |s| && s[i] !in s[..i] ensures i in idx {
      assert s[i] in r;
      var k :| 0 <= k < |r| && r[k] == s[i];
      FirstIndexUnique(s, s[i], i);
      assert idx[k] == i;
    }
  }

  /** A list without duplicates is left as it is. */
  lemma {:induction false} UniqueOfDistinct<T>(s: seq<T>)
    requires Distinct(s)
    ensures Unique(s) == s
  {
    if s != [] {
      var n := |s| - 1;
      UniqueOfDistinct(s[..n]);
      assert s[n] !in s[..n];
      assert s == s[..n] + [s[n]];
    }
  }

  /** Deduplicating twice is the same as deduplicating once. */
  lemma {:induction false} UniqueIdempotent<T>(s: seq<T>)
    ensures Unique(Unique(s)) == Unique(s)
  {
    UniqueIsDistinct(s);
    UniqueOfDistinct(Unique(s));
  }

  /** Exactly one value survives deduplication exactly when the input is a non-empty repetition of one value. */
  lemma {:induction false} UniqueIsSingleton<T>(s: seq<T>)
    ensures |Unique(s)| == 1 <==> s != [] && forall i :: 0 <= i < |s| ==> s[i] == s[0]
  {
    var r := Unique(s);
    if s != [] && forall i :: 0 <= i < |s| ==> s[i] == s[0] {
      assert FirstOccurrenceOrder(s, [s[0]]);
      FirstOccurrenceOrderDeterminesResult(s, [s[0]]);
    }
    if |r| == 1 {
      forall i | 0 <= i < |s| ensures s[i] == s[0] {
        assert s[i] in r && s[0] in r;
      }
    }
  }

  /** remove_duplicates: keep the first occurrence of every value, in input order. */
  method RemoveDuplicates<T(==)>(ori: seq<T>) returns (res: seq<T>)
    ensures res == Unique(ori)
    ensures FirstOccurrenceOrder(ori, res)
    ensures |res| <= |ori|
  {
    res := [];
    for n := 0 to |ori|
      invariant res == Unique(ori[..n])
    {
      assert ori[..n + 1][..n] == ori[..n];
      if ori[n] !in res {
        res := res + [ori[n]];
      }
    }
    assert ori[..|ori|] == ori;
    UniqueSatisfiesFirstOccurrenceOrder(ori);
  }
}
