/**
 * Sequence operations the dashboard relies on through its data-frame library:
 * selecting rows by a boolean mask (order kept), and listing the distinct
 * values of a column in order of first appearance.
 */
module Seqs {

  /** `a` can be obtained from `b` by deleting elements: the order of `b` is kept. */
  ghost predicate SubseqOf<T>(a: seq<T>, b: seq<T>)
    decreases |b|
  {
    if a == [] then true
    else if b == [] then false
    else (a[|a| - 1] == b[|b| - 1] && SubseqOf(a[..|a| - 1], b[..|b| - 1]))
         || SubseqOf(a, b[..|b| - 1])
  }

  /** No value occurs twice. */
  ghost predicate NoDuplicates<T>(s: seq<T>) {
    forall i, j :: 0 <= i < j < |s| ==> s[i] != s[j]
  }

  // ---------------------------------------------------------------------------
  // Boolean-mask selection
  // ---------------------------------------------------------------------------

  /** The elements of `s` for which the mask `p` is true, in their original order. */
  function Select<T>(s: seq<T>, p: T -> bool): (r: seq<T>)
    ensures |r| <= |s|
    ensures forall i :: 0 <= i < |r| ==> p(r[i])
  {
    if s == [] then []
    else
      var kept := Select(s[..|s| - 1], p);
      if p(s[|s| - 1]) then kept + [s[|s| - 1]] else kept
  }

  lemma SelectSnoc<T>(s: seq<T>, x: T, p: T -> bool)
    ensures Select(s + [x], p) == Select(s, p) + (if p(x) then [x] else [])
  {
    assert (s + [x])[..|s|] == s;
  }

  /** The selection is an order-preserving subsequence of its input. */
  lemma {:induction false} SelectIsSubseq<T>(s: seq<T>, p: T -> bool)
    ensures SubseqOf(Select(s, p), s)
  {
    if s != [] {
      var init := s[..|s| - 1];
      SelectIsSubseq(init, p);
      var r := Select(s, p);
      if p(s[|s| - 1]) {
        assert r[..|r| - 1] == Select(init, p);
      }
    }
  }

  /**
   * Every occurrence of a value that passes the mask is kept, and no
   * occurrence of a value that fails it.
   */
  lemma {:induction false} SelectCounts<T>(s: seq<T>, p: T -> bool)
    ensures forall x :: multiset(Select(s, p))[x] == if p(x) then multiset(s)[x] else 0
    ensures forall x :: x in Select(s, p) <==> x in s && p(x)
  {
    if s != [] {
      var init, last := s[..|s| - 1], s[|s| - 1];
      SelectCounts(init, p);
      assert s == init + [last];
      assert multiset(s) == multiset(init) + multiset{last};
    }
    forall x
      ensures x in Select(s, p) <==> x in s && p(x)
    {
      assert x in Select(s, p) <==> x in multiset(Select(s, p));
      assert x in s <==> x in multiset(s);
    }
  }

  /** A mask that passes every element selects the whole sequence. */
  lemma {:induction false} SelectEverything<T>(s: seq<T>, p: T -> bool)
    requires forall i :: 0 <= i < |s| ==> p(s[i])
    ensures Select(s, p) == s
  {
    if s != [] {
      SelectEverything(s[..|s| - 1], p);
    }
  }

  /** Two masks that agree on the elements of `s` select the same elements. */
  lemma {:induction false} SelectAgree<T>(s: seq<T>, p: T -> bool, q: T -> bool)
    requires forall i :: 0 <= i < |s| ==> p(s[i]) == q(s[i])
    ensures Select(s, p) == Select(s, q)
  {
    if s != [] {
      SelectAgree(s[..|s| - 1], p, q);
    }
  }

  /** Selecting by `p` and then by `q` is selecting once by their conjunction `r`. */
  lemma {:induction false} SelectTwice<T>(s: seq<T>, p: T -> bool, q: T -> bool, r: T -> bool)
    requires forall i :: 0 <= i < |s| ==> r(s[i]) == (p(s[i]) && q(s[i]))
    ensures Select(Select(s, p), q) == Select(s, r)
  {
    if s != [] {
      var init, last := s[..|s| - 1], s[|s| - 1];
      SelectTwice(init, p, q, r);
      if p(last) {
        SelectSnoc(Select(init, p), last, q);
      }
    }
  }

  // ---------------------------------------------------------------------------
  // Distinct values in order of first appearance
  // ---------------------------------------------------------------------------

  /** The position of the first occurrence of `x` in `s`. */
  function FirstIndex<T(==)>(s: seq<T>, x: T): (k: nat)
    requires x in s
    ensures k < |s| && s[k] == x && x !in s[..k]
  {
    if s[0] == x then 0
    else
      var k := 1 + FirstIndex(s[1..], x);
      assert s[..k] == [s[0]] + s[1..][..k - 1];
      k
  }

  /** A position holding `x` with no `x` before it is the first occurrence of `x`. */
  lemma FirstIndexIs<T>(s: seq<T>, x: T, k: nat)
    requires k < |s| && s[k] == x && x !in s[..k]
    ensures FirstIndex(s, x) == k
  {
    var k' := FirstIndex(s, x);
  }

  /** Appending an element does not move the first occurrence of a value already present. */
  lemma FirstIndexSnoc<T>(s: seq<T>, y: T, x: T)
    requires x in s
    ensures FirstIndex(s + [y], x) == FirstIndex(s, x)
  {
    var k := FirstIndex(s, x);
    assert (s + [y])[..k] == s[..k];
    FirstIndexIs(s + [y], x, k);
  }

  /** The first occurrence of a new element is where it is appended. */
  lemma FirstIndexAppended<T>(s: seq<T>, y: T)
    requires y !in s
    ensures FirstIndex(s + [y], y) == |s|
  {
    assert (s + [y])[..|s|] == s;
    FirstIndexIs(s + [y], y, |s|);
  }

  /** The distinct values of `s`, each at the place it first appears. */
  function Unique<T(==)>(s: seq<T>): seq<T>
  {
    if s == [] then []
    else
      var seen := Unique(s[..|s| - 1]);
      if s[|s| - 1] in seen then seen else seen + [s[|s| - 1]]
  }

  /** `Unique(s)` holds exactly the values of `s`, each of them once. */
  lemma {:induction false} UniqueElements<T>(s: seq<T>)
    ensures forall x :: x in Unique(s) <==> x in s
    ensures forall i :: 0 <= i < |Unique(s)| ==> Unique(s)[i] in s
    ensures NoDuplicates(Unique(s))
  {
    if s != [] {
      UniqueElements(s[..|s| - 1]);
      assert s == s[..|s| - 1] + [s[|s| - 1]];
    }
  }

  /** `Unique(s)` orders its values by the position of their first occurrence in `s`. */
  lemma {:induction false} UniqueOrder<T>(s: seq<T>)
    ensures forall i, j :: 0 <= i < j < |Unique(s)| ==>
              Unique(s)[i] in s && Unique(s)[j] in s &&
              FirstIndex(s, Unique(s)[i]) < FirstIndex(s, Unique(s)[j])
  {
    UniqueElements(s);
    if s != [] {
      var init, last := s[..|s| - 1], s[|s| - 1];
      UniqueElements(init);
      UniqueOrder(init);
      assert s == init + [last];
      var seen := Unique(init);
      forall i | 0 <= i < |seen|
        ensures FirstIndex(s, seen[i]) == FirstIndex(init, seen[i])
      {
        FirstIndexSnoc(init, last, seen[i]);
      }
      if last !in seen {
        FirstIndexAppended(init, last);
      }
    }
  }
}
