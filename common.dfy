/**
 * Shared vocabulary: optional values and results, the string order Python
 * uses to compare `str` values, Python's `sorted` applied to a set of strings,
 * and a stable sort of a list by an integer key (Python's `list.sort(key=...)`
 * and JavaScript's `Array.prototype.sort` with a numeric comparator).
 */
module Common {

  datatype Option<T> = None | Some(value: T) {
    function GetOr(default: T): T {
      match this
      case Some(v) => v
      case None => default
    }
  }

  datatype Result<T, E> = Ok(value: T) | Err(error: E)

  /** Every element of `s` occurs at most once. */
  predicate NoDup<T(==)>(s: seq<T>) {
    forall i, j :: 0 <= i < j < |s| ==> s[i] != s[j]
  }

  /** The set of the elements of a sequence. */
  function Elems<T>(s: seq<T>): set<T> {
    set x | x in s
  }

  /**
   * `s` with every occurrence of `x` dropped, the rest in order: JavaScript's
   * `s.filter((y) => y !== x)`.
   */
  function Without<T(==)>(s: seq<T>, x: T): (r: seq<T>)
    ensures forall i :: 0 <= i < |r| ==> r[i] in s && r[i] != x
    ensures forall i :: 0 <= i < |s| && s[i] != x ==> s[i] in r
    ensures x !in s ==> r == s
    ensures |r| <= |s|
    ensures NoDup(s) ==> NoDup(r)
  {
    if s == [] then []
    else if s[0] == x then Without(s[1..], x)
    else [s[0]] + Without(s[1..], x)
  }

  /** Filtering keeps the order: it distributes over concatenation. */
  lemma {:induction false} WithoutAppend<T>(a: seq<T>, b: seq<T>, x: T)
    ensures Without(a + b, x) == Without(a, x) + Without(b, x)
    decreases |a|
  {
    if a != [] {
      assert (a + b)[1..] == a[1..] + b;
      WithoutAppend(a[1..], b, x);
    } else {
      assert a + b == b;
    }
  }

  /**
   * `s` with `x` toggled, as a click toggles a checkbox: every occurrence
   * dropped when present, appended when absent.
   */
  function Toggle<T(==,!new)>(s: seq<T>, x: T): (r: seq<T>)
    ensures x in r <==> x !in s
    ensures forall y :: y != x ==> (y in r <==> y in s)
    ensures x !in s ==> r == s + [x]
    ensures NoDup(s) ==> NoDup(r)
  {
    if x in s then Without(s, x) else s + [x]
  }

  lemma {:induction false} WithoutAppended<T>(s: seq<T>, x: T)
    requires x !in s
    ensures Without(s + [x], x) == s
  {
    if s != [] {
      assert (s + [x])[1..] == s[1..] + [x];
      WithoutAppended(s[1..], x);
    }
  }

  /** Flipping twice restores the membership, and restores the list itself when the element was absent. */
  lemma ToggleTwice<T(!new)>(s: seq<T>, x: T)
    ensures Elems(Toggle(Toggle(s, x), x)) == Elems(s)
    ensures x !in s ==> Toggle(Toggle(s, x), x) == s
  {
    if x !in s {
      WithoutAppended(s, x);
    }
  }

  // ---------------------------------------------------------------------
  // Strings compared code point by code point, as Python compares `str`.
  // ---------------------------------------------------------------------

  /** `a` sorts strictly before `b`. */
  predicate StrLt(a: string, b: string)
    decreases |a|
  {
    if |a| == 0 then |b| > 0
    else if |b| == 0 then false
    else a[0] < b[0] || (a[0] == b[0] && StrLt(a[1..], b[1..]))
  }

  lemma {:induction false} StrLtIrreflexive(a: string)
    ensures !StrLt(a, a)
    decreases |a|
  {
    if |a| > 0 {
      StrLtIrreflexive(a[1..]);
    }
  }

  lemma {:induction false} StrLtTransitive(a: string, b: string, c: string)
    requires StrLt(a, b) && StrLt(b, c)
    ensures StrLt(a, c)
    decreases |a|
  {
    if |a| > 0 && |b| > 0 && |c| > 0 && a[0] == b[0] && b[0] == c[0] {
      StrLtTransitive(a[1..], b[1..], c[1..]);
    }
  }

  lemma {:induction false} StrLtTotal(a: string, b: string)
    requires a != b
    ensures StrLt(a, b) || StrLt(b, a)
    decreases |a|
  {
    if |a| > 0 && |b| > 0 && a[0] == b[0] {
      assert a == [a[0]] + a[1..] && b == [b[0]] + b[1..];
      StrLtTotal(a[1..], b[1..]);
    }
  }

  /** Strictly increasing, hence also free of duplicates. */
  predicate StrictlySorted(s: seq<string>) {
    forall i, j :: 0 <= i < j < |s| ==> StrLt(s[i], s[j])
  }

  /** `r` is what Python's `sorted(s)` returns for a set of strings `s`. */
  predicate SortedListOf(r: seq<string>, s: set<string>) {
    StrictlySorted(r) && Elems(r) == s
  }

  /** `m` is the least element of `s`. */
  predicate IsLeastString(m: string, s: set<string>) {
    m in s && forall x :: x in s && x != m ==> StrLt(m, x)
  }

  /** A non-empty finite set of strings has a least element. */
  lemma {:induction false} LeastStringExists(s: set<string>)
    requires s != {}
    ensures exists m :: IsLeastString(m, s)
    decreases |s|
  {
    var y :| y in s;
    if s == {y} {
      assert IsLeastString(y, s);
    } else {
      LeastStringExists(s - {y});
      var m :| IsLeastString(m, s - {y});
      var least := AddString(m, y, s - {y});
      assert (s - {y}) + {y} == s;
    }
  }

  /** Adding `y` to a set whose least element is `m` gives a set whose least element is one of the two. */
  lemma AddString(m: string, y: string, s: set<string>) returns (least: string)
    requires IsLeastString(m, s) && y !in s
    ensures IsLeastString(least, s + {y})
  {
    if StrLt(y, m) {
      forall x | x in s + {y} && x != y ensures StrLt(y, x) {
        if x != m {
          StrLtTransitive(y, m, x);
        }
      }
      least := y;
    } else {
      StrLtTotal(y, m);
      least := m;
    }
  }

  /**
   * Python's built-in `sorted` on a set of strings: repeatedly takes the
   * least remaining element.
   */
  method Sorted(s: set<string>) returns (r: seq<string>)
    ensures SortedListOf(r, s)
    ensures |r| == |s|
  {
    r := [];
    var rest := s;
    while rest != {}
      invariant SortedSoFar(r, rest, s)
      decreases |rest|
    {
      LeastStringExists(rest);
      var m :| IsLeastString(m, rest);
      AppendLeast(r, rest, s, m);
      r, rest := r + [m], rest - {m};
    }
  }

  /**
   * The state of `Sorted`: `r` holds, in increasing order, the elements of
   * `s` not in `rest`, each below everything still in `rest`.
   */
  predicate SortedSoFar(r: seq<string>, rest: set<string>, s: set<string>) {
    && rest <= s
    && Elems(r) == s - rest
    && |r| + |rest| == |s|
    && StrictlySorted(r)
    && (forall i, x :: 0 <= i < |r| && x in rest ==> StrLt(r[i], x))
  }

  lemma AppendLeast(r: seq<string>, rest: set<string>, s: set<string>, m: string)
    requires SortedSoFar(r, rest, s) && IsLeastString(m, rest)
    ensures SortedSoFar(r + [m], rest - {m}, s)
    ensures |rest - {m}| < |rest|
  {
    var r' := r + [m];
    assert Elems(r') == Elems(r) + {m};
    assert rest == (rest - {m}) + {m};
    forall i, j | 0 <= i < j < |r'| ensures StrLt(r'[i], r'[j]) {
      if j == |r| {
        assert r'[i] == r[i];
      } else {
        assert r'[i] == r[i] && r'[j] == r[j];
      }
    }
    forall i, x | 0 <= i < |r'| && x in rest - {m} ensures StrLt(r'[i], x) {
      if i < |r| {
        assert r'[i] == r[i];
      }
    }
  }

  lemma ElemsEmpty<T>(r: seq<T>)
    ensures Elems(r) == {} <==> r == []
  {
    if r != [] {
      assert r[0] in Elems(r);
    }
  }

  /** The head of a strictly sorted list precedes every other element. */
  lemma HeadIsLeast(r: seq<string>)
    requires StrictlySorted(r) && r != []
    ensures forall x :: x in Elems(r) && x != r[0] ==> StrLt(r[0], x)
  {
  }

  lemma LeastIsUnique(a: string, b: string, s: set<string>)
    requires a in s && b in s
    requires forall x :: x in s && x != a ==> StrLt(a, x)
    requires forall x :: x in s && x != b ==> StrLt(b, x)
    ensures a == b
  {
    if a != b {
      StrLtTransitive(a, b, a);
      StrLtIrreflexive(a);
      assert false;
    }
  }

  /** Two strictly sorted lists with the same elements are the same list. */
  lemma {:induction false} SortedListUnique(r1: seq<string>, r2: seq<string>, s: set<string>)
    requires SortedListOf(r1, s) && SortedListOf(r2, s)
    ensures r1 == r2
    decreases |r1|
  {
    ElemsEmpty(r1);
    ElemsEmpty(r2);
    if r1 != [] {
      HeadIsLeast(r1);
      HeadIsLeast(r2);
      LeastIsUnique(r1[0], r2[0], s);
      var t := s - {r1[0]};
      forall k | 0 < k < |r1| ensures r1[k] != r1[0] {
        StrLtIrreflexive(r1[0]);
      }
      forall k | 0 < k < |r2| ensures r2[k] != r2[0] {
        StrLtIrreflexive(r2[0]);
      }
      assert r1 == [r1[0]] + r1[1..] && r2 == [r2[0]] + r2[1..];
      assert Elems(r1) == {r1[0]} + Elems(r1[1..]);
      assert Elems(r2) == {r2[0]} + Elems(r2[1..]);
      assert Elems(r1[1..]) == t;
      assert Elems(r2[1..]) == t;
      SortedListUnique(r1[1..], r2[1..], t);
    }
  }

  // ---------------------------------------------------------------------
  // Stable sort by an integer key.
  // ---------------------------------------------------------------------

  /** Non-decreasing by `key`. */
  predicate SortedByKey<T>(s: seq<T>, key: T -> int) {
    forall i, j :: 0 <= i < j < |s| ==> key(s[i]) <= key(s[j])
  }

  /** Every element of a sorted list has a key at least the head's. */
  lemma HeadBound<T>(s: seq<T>, key: T -> int)
    requires SortedByKey(s, key) && s != []
    ensures forall y :: y in s ==> key(s[0]) <= key(y)
  {
    forall y | y in s ensures key(s[0]) <= key(y) {
      var j :| 0 <= j < |s| && s[j] == y;
    }
  }

  lemma ConsSorted<T>(h: T, t: seq<T>, key: T -> int)
    requires SortedByKey(t, key)
    requires forall y :: y in t ==> key(h) <= key(y)
    ensures SortedByKey([h] + t, key)
  {
    forall i, j | 0 <= i < j < |[h] + t| ensures key(([h] + t)[i]) <= key(([h] + t)[j]) {
      if i == 0 {
        assert ([h] + t)[j] == t[j - 1];
        assert t[j - 1] in t;
      }
    }
  }

  /** Inserts `x` before the first element whose key is not smaller. */
  function InsertByKey<T>(x: T, s: seq<T>, key: T -> int): (r: seq<T>)
    requires SortedByKey(s, key)
    ensures SortedByKey(r, key)
    ensures multiset(r) == multiset(s) + multiset{x}
    ensures forall y :: y in r ==> y in s || y == x
  {
    if s == [] then [x]
    else if key(x) <= key(s[0]) then [x] + s
    else
      var t := InsertByKey(x, s[1..], key);
      HeadBound(s, key);
      assert s == [s[0]] + s[1..];
      ConsSorted(s[0], t, key);
      [s[0]] + t
  }

  /**
   * A stable insertion sort: the result is a permutation of `s`, ordered by
   * `key`, with equal keys in their original relative order.
   */
  function SortByKey<T>(s: seq<T>, key: T -> int): (r: seq<T>)
    ensures SortedByKey(r, key)
    ensures multiset(r) == multiset(s)
    ensures |r| == |s|
  {
    if s == [] then []
    else
      assert s == [s[0]] + s[1..];
      InsertByKey(s[0], SortByKey(s[1..], key), key)
  }

  /** A permutation of a list without duplicates has no duplicates. */
  lemma NoDupPermutation<T>(s: seq<T>, r: seq<T>)
    requires multiset(r) == multiset(s) && NoDup(s)
    ensures NoDup(r)
  {
    NoDupCounts(s);
    CountsNoDup(r);
  }

  /** A permutation has the same elements. */
  lemma SameElems<T>(s: seq<T>, r: seq<T>)
    requires multiset(r) == multiset(s)
    ensures Elems(r) == Elems(s)
  {
    assert forall x :: x in r <==> x in multiset(r);
    assert forall x :: x in s <==> x in multiset(s);
  }

  lemma {:induction false} NoDupCounts<T>(s: seq<T>)
    requires NoDup(s)
    ensures forall x :: multiset(s)[x] <= 1
  {
    if s != [] {
      assert s == [s[0]] + s[1..];
      assert s[0] !in s[1..];
      NoDupCounts(s[1..]);
    }
  }

  lemma {:induction false} CountsNoDup<T>(s: seq<T>)
    requires forall x :: multiset(s)[x] <= 1
    ensures NoDup(s)
  {
    if s != [] {
      assert s == [s[0]] + s[1..];
      assert multiset(s) == multiset{s[0]} + multiset(s[1..]);
      assert forall x :: multiset(s[1..])[x] <= multiset(s)[x];
      CountsNoDup(s[1..]);
      assert multiset(s[1..])[s[0]] == 0;
    }
  }

  /**
   * The elements of a finite set, each once, in an order the caller cannot
   * rely on: the iteration order of a dictionary or of an unordered query.
   */
  method ListOf<T(==)>(s: set<T>) returns (r: seq<T>)
    ensures NoDup(r) && Elems(r) == s && |r| == |s|
  {
    r := [];
    var rest := s;
    while rest != {}
      invariant rest <= s
      invariant NoDup(r) && Elems(r) == s - rest && |r| + |rest| == |s|
      decreases |rest|
    {
      var x :| x in rest;
      assert Elems(r + [x]) == Elems(r) + {x};
      r := r + [x];
      rest := rest - {x};
    }
  }

  /** Some list of the elements of a finite set, each once, in no particular order. */
  ghost function SeqOfSet<T>(s: set<T>): (r: seq<T>)
    ensures NoDup(r) && Elems(r) == s && |r| == |s|
    decreases |s|
  {
    if s == {} then []
    else
      var x :| x in s;
      var t := SeqOfSet(s - {x});
      assert Elems([x] + t) == {x} + Elems(t);
      [x] + t
  }
}
