/**
 * Python's sorting of lists of strings and of records keyed by a string:
 * `list.sort(key=...)` in place on a list, and `sorted(xs)`, which copies the
 * list and sorts the copy. Keys are ordered by `Text.LessEq`, Python's `<=`
 * on `str`.
 */
module Sorting {
  import opened Text

  /** Every earlier element's key is at most every later element's key. */
  predicate SortedBy<T>(s: seq<T>, key: T -> string) {
    forall i, j :: 0 <= i < j < |s| ==> LessEq(key(s[i]), key(s[j]))
  }

  /** Only neighbouring keys are known to be in order. */
  predicate AdjacentSortedBy<T>(s: seq<T>, key: T -> string) {
    forall p :: 0 < p < |s| ==> LessEq(key(s[p - 1]), key(s[p]))
  }

  lemma {:induction false} AdjacentChain<T>(s: seq<T>, key: T -> string, i: int, j: int)
    requires AdjacentSortedBy(s, key)
    requires 0 <= i <= j < |s|
    ensures LessEq(key(s[i]), key(s[j]))
    decreases j - i
  {
    if i == j {
      LessEqReflexive(key(s[i]));
    } else {
      AdjacentChain(s, key, i, j - 1);
      LessEqTransitive(key(s[i]), key(s[j - 1]), key(s[j]));
    }
  }

  /** Order of neighbours is enough, because `LessEq` is transitive. */
  lemma AdjacentSortedIsSorted<T>(s: seq<T>, key: T -> string)
    requires AdjacentSortedBy(s, key)
    ensures SortedBy(s, key)
  {
    forall i, j | 0 <= i < j < |s|
      ensures LessEq(key(s[i]), key(s[j]))
    {
      AdjacentChain(s, key, i, j);
    }
  }

  /** The key under which plain strings are sorted: the string itself. */
  function AsKey(s: string): string {
    s
  }

  /** Neighbouring keys of `s[..n]` are in order, except possibly at position `j`. */
  predicate OrderedExcept<T>(s: seq<T>, key: T -> string, n: int, j: int) {
    forall p :: 0 < p < n && p < |s| && p != j ==> LessEq(key(s[p - 1]), key(s[p]))
  }

  /**
   * Exchanging the out-of-order neighbours at `j - 1` and `j` moves the one
   * possible disorder down to `j - 1`.
   */
  lemma Exchange<T>(s: seq<T>, key: T -> string, i: int, j: int)
    requires 0 < j <= i < |s|
    requires OrderedExcept(s, key, i + 1, j)
    requires j < i ==> LessEq(key(s[j - 1]), key(s[j + 1]))
    requires LessEq(key(s[j]), key(s[j - 1]))
    ensures var t := s[j - 1 := s[j]][j := s[j - 1]];
      OrderedExcept(t, key, i + 1, j - 1) && (1 < j ==> LessEq(key(t[j - 2]), key(t[j])))
  {
  }

  /**
   * Exchanging two neighbours inside `s[..i + 1]` keeps the elements of that
   * prefix and of the whole sequence, and leaves the rest as it was.
   */
  lemma ExchangeKeepsElements<T>(s: seq<T>, i: int, j: int)
    requires 0 < j <= i < |s|
    ensures var t := s[j - 1 := s[j]][j := s[j - 1]];
      multiset(t) == multiset(s) && multiset(t[..i + 1]) == multiset(s[..i + 1]) && t[i + 1..] == s[i + 1..]
  {
    var t := s[j - 1 := s[j]][j := s[j - 1]];
    assert t[..i + 1] == s[..i + 1][j - 1 := s[j]][j := s[j - 1]];
  }

  /**
   * One step of the sort: moves `a[i]` down past every element with a
   * greater key, so that the keys of `a[..i + 1]` become ordered.
   */
  method InsertAt<T>(a: array<T>, i: int, key: T -> string)
    requires 0 <= i < a.Length
    requires OrderedExcept(a[..], key, i, 0)
    modifies a
    ensures OrderedExcept(a[..], key, i + 1, 0)
    ensures multiset(a[..i + 1]) == multiset(old(a[..i + 1]))
    ensures a[i + 1..] == old(a[i + 1..])
    ensures multiset(a[..]) == multiset(old(a[..]))
  {
    var j := i;
    while 0 < j && !LessEq(key(a[j - 1]), key(a[j]))
      invariant 0 <= j <= i
      invariant OrderedExcept(a[..], key, i + 1, j)
      invariant 0 < j < i ==> LessEq(key(a[j - 1]), key(a[j + 1]))
      invariant multiset(a[..i + 1]) == multiset(old(a[..i + 1]))
      invariant a[i + 1..] == old(a[i + 1..])
      invariant multiset(a[..]) == multiset(old(a[..]))
    {
      LessEqTotal(key(a[j - 1]), key(a[j]));
      Exchange(a[..], key, i, j);
      ExchangeKeepsElements(a[..], i, j);
      a[j - 1], a[j] := a[j], a[j - 1];
      j := j - 1;
    }
  }

  /**
   * Sorts `a` in place by `key`: afterwards the keys are in ascending order
   * and `a` holds the same elements as before.
   */
  method SortByKey<T>(a: array<T>, key: T -> string)
    modifies a
    ensures SortedBy(a[..], key)
    ensures multiset(a[..]) == multiset(old(a[..]))
  {
    var i := 0;
    while i < a.Length
      invariant 0 <= i <= a.Length
      invariant OrderedExcept(a[..], key, i, 0)
      invariant multiset(a[..]) == multiset(old(a[..]))
    {
      InsertAt(a, i, key);
      i := i + 1;
    }
    AdjacentSortedIsSorted(a[..], key);
  }

  /** The first element of a key-sorted sequence has the least key. */
  lemma SortedHeadLeast<T>(s: seq<T>, key: T -> string, x: T)
    requires SortedBy(s, key) && x in s
    ensures LessEq(key(s[0]), key(x))
  {
    var i :| 0 <= i < |s| && s[i] == x;
    if i == 0 {
      LessEqReflexive(key(x));
    }
  }

  /** No two distinct elements of `s` share a key. */
  ghost predicate KeysDistinct<T>(s: seq<T>, key: T -> string) {
    forall x, y :: x in s && y in s && key(x) == key(y) ==> x == y
  }

  /** Taking the same element out of two equal multisets leaves equal multisets. */
  lemma CancelElement<T>(a: multiset<T>, b: multiset<T>, x: T)
    requires a + multiset{x} == b + multiset{x}
    ensures a == b
  {
    forall z ensures a[z] == b[z] {
      assert (a + multiset{x})[z] == a[z] + multiset{x}[z];
      assert (b + multiset{x})[z] == b[z] + multiset{x}[z];
    }
  }

  /** Two key-sorted sequences with the same elements and distinct keys start alike. */
  lemma SortedSameHead<T>(s: seq<T>, t: seq<T>, key: T -> string)
    requires SortedBy(s, key) && SortedBy(t, key)
    requires multiset(s) == multiset(t) && s != []
    requires KeysDistinct(s, key)
    ensures t != [] && s[0] == t[0]
  {
    assert s[0] in multiset(t);
    assert t != [] && t[0] in multiset(s);
    SortedHeadLeast(t, key, s[0]);
    SortedHeadLeast(s, key, t[0]);
    LessEqAntisymmetric(key(s[0]), key(t[0]));
  }

  /**
   * Two key-sorted sequences with the same elements are equal when no two
   * distinct elements share a key: the sorted order is then unique.
   */
  lemma {:induction false} SortedUnique<T>(s: seq<T>, t: seq<T>, key: T -> string)
    requires SortedBy(s, key) && SortedBy(t, key)
    requires multiset(s) == multiset(t)
    requires KeysDistinct(s, key)
    ensures s == t
  {
    if s == [] {
      assert |t| == |multiset(t)| == 0;
    } else {
      SortedSameHead(s, t, key);
      assert s == [s[0]] + s[1..] && t == [s[0]] + t[1..];
      assert multiset(s) == multiset(s[1..]) + multiset{s[0]};
      assert multiset(t) == multiset(t[1..]) + multiset{s[0]};
      CancelElement(multiset(s[1..]), multiset(t[1..]), s[0]);
      assert KeysDistinct(s[1..], key) by {
        forall x | x in s[1..] ensures x in s { }
      }
      SortedUnique(s[1..], t[1..], key);
    }
  }

  /** Python's `sorted(xs)` on strings: a sorted copy, leaving `xs` alone. */
  method Sorted(xs: seq<string>) returns (r: seq<string>)
    ensures SortedBy(r, AsKey)
    ensures multiset(r) == multiset(xs)
  {
    var a := new string[|xs|](i requires 0 <= i < |xs| => xs[i]);
    assert a[..] == xs;
    SortByKey(a, AsKey);
    r := a[..];
  }
}
