/** What the C library's qsort promises, and the sorting it stands for.

    A comparison function is only meaningful to qsort when it is consistent on the elements it is
    given; when it also separates them, every sorting of the same elements is the same sequence. */
module Sorting {

  /** `cmp` is a three-way comparison that orders the elements of `dom`. */
  ghost predicate Consistent<T>(cmp: (T, T) -> int, dom: set<T>) {
    && (forall a, b {:trigger cmp(a, b)} | a in dom && b in dom :: cmp(a, b) < 0 <==> cmp(b, a) > 0)
    && (forall a, b, c {:trigger cmp(a, b), cmp(b, c)} | a in dom && b in dom && c in dom ::
          cmp(a, b) <= 0 && cmp(b, c) <= 0 ==> cmp(a, c) <= 0)
  }

  /** No two different elements of `dom` compare equal. */
  ghost predicate Separates<T>(cmp: (T, T) -> int, dom: set<T>) {
    forall a, b {:trigger cmp(a, b)} | a in dom && b in dom :: cmp(a, b) == 0 ==> a == b
  }

  ghost predicate SortedBy<T>(cmp: (T, T) -> int, s: seq<T>) {
    forall i, j | 0 <= i < j < |s| :: cmp(s[i], s[j]) <= 0
  }

  ghost predicate SortedPermutation<T>(cmp: (T, T) -> int, s: seq<T>, r: seq<T>) {
    SortedBy(cmp, r) && multiset(r) == multiset(s)
  }

  ghost predicate Within<T>(s: seq<T>, dom: set<T>) {
    forall i | 0 <= i < |s| :: s[i] in dom
  }

  ghost function Elements<T>(s: seq<T>): set<T> {
    set x | x in s
  }

  function Insert<T>(cmp: (T, T) -> int, x: T, s: seq<T>): (r: seq<T>)
    ensures multiset(r) == multiset(s) + multiset{x}
  {
    if s == [] then [x]
    else if cmp(x, s[0]) <= 0 then [x] + s
    else
      assert s == [s[0]] + s[1..];
      [s[0]] + Insert(cmp, x, s[1..])
  }

  ghost predicate Bounds<T>(cmp: (T, T) -> int, b: T, s: seq<T>) {
    forall i | 0 <= i < |s| :: cmp(b, s[i]) <= 0
  }

  lemma {:induction false} InsertBounded<T>(cmp: (T, T) -> int, x: T, s: seq<T>, b: T)
    requires Bounds(cmp, b, s) && cmp(b, x) <= 0
    ensures Bounds(cmp, b, Insert(cmp, x, s))
  {
    if s != [] && cmp(x, s[0]) > 0 {
      InsertBounded(cmp, x, s[1..], b);
    }
  }

  lemma BoundsBelow<T>(cmp: (T, T) -> int, x: T, s: seq<T>, dom: set<T>)
    requires Consistent(cmp, dom) && Within(s, dom) && x in dom
    requires s != [] && cmp(x, s[0]) <= 0 && Bounds(cmp, s[0], s[1..])
    ensures Bounds(cmp, x, s)
  {
    forall i | 0 < i < |s|
      ensures cmp(x, s[i]) <= 0
    {
      assert cmp(s[0], s[1..][i - 1]) <= 0;
    }
  }

  lemma PrependSorted<T>(cmp: (T, T) -> int, x: T, s: seq<T>)
    ensures SortedBy(cmp, [x] + s) <==> SortedBy(cmp, s) && Bounds(cmp, x, s)
  {
    var r := [x] + s;
    if SortedBy(cmp, r) {
      assert forall i | 0 <= i < |s| :: s[i] == r[i + 1] && cmp(r[0], r[i + 1]) <= 0;
      forall i, j | 0 <= i < j < |s|
        ensures cmp(s[i], s[j]) <= 0
      {
        assert cmp(r[i + 1], r[j + 1]) <= 0;
      }
    }
  }

  lemma {:induction false} InsertSorted<T>(cmp: (T, T) -> int, x: T, s: seq<T>, dom: set<T>)
    requires Consistent(cmp, dom) && Within(s, dom) && x in dom && SortedBy(cmp, s)
    ensures SortedBy(cmp, Insert(cmp, x, s)) && Within(Insert(cmp, x, s), dom)
  {
    if s == [] {
    } else {
      hide Bounds, SortedBy;
      assert s == [s[0]] + s[1..] && s[0] in dom;
      PrependSorted(cmp, s[0], s[1..]);
      if cmp(x, s[0]) <= 0 {
        BoundsBelow(cmp, x, s, dom);
        PrependSorted(cmp, x, s);
      } else {
        InsertSorted(cmp, x, s[1..], dom);
        InsertBounded(cmp, x, s[1..], s[0]);
        PrependSorted(cmp, s[0], Insert(cmp, x, s[1..]));
      }
    }
  }

  function Sort<T>(cmp: (T, T) -> int, s: seq<T>): (r: seq<T>)
    ensures multiset(r) == multiset(s)
  {
    if s == [] then []
    else
      assert s == [s[0]] + s[1..];
      Insert(cmp, s[0], Sort(cmp, s[1..]))
  }

  lemma {:induction false} SortSorts<T>(cmp: (T, T) -> int, s: seq<T>, dom: set<T>)
    requires Consistent(cmp, dom) && Within(s, dom)
    ensures SortedBy(cmp, Sort(cmp, s)) && Within(Sort(cmp, s), dom)
  {
    if s != [] {
      SortSorts(cmp, s[1..], dom);
      InsertSorted(cmp, s[0], Sort(cmp, s[1..]), dom);
    }
  }

  /** qsort: some permutation, sorted if the comparison is consistent; which of the equal-comparing
      elements comes first is open. */
  method QSort<T>(cmp: (T, T) -> int, s: seq<T>) returns (r: seq<T>)
    ensures multiset(r) == multiset(s)
    ensures Consistent(cmp, Elements(s)) ==> SortedPermutation(cmp, s, r)
  {
    r := Sort(cmp, s);
    if Consistent(cmp, Elements(s)) {
      SortSorts(cmp, s, Elements(s));
    }
  }

  /** When the comparison separates the elements, sorting has exactly one outcome, whatever the
      order of the input. */
  lemma {:induction false} SortedUnique<T>(cmp: (T, T) -> int, r: seq<T>, r': seq<T>, dom: set<T>)
    requires multiset(r) == multiset(r') && SortedBy(cmp, r) && SortedBy(cmp, r')
    requires Consistent(cmp, dom) && Separates(cmp, dom) && Within(r, dom)
    ensures r == r'
    decreases |r|
  {
    hide Consistent, Separates, SortedBy, Within;
    if r == [] {
      NothingElse(r');
    } else {
      HeadsAgree(cmp, r, r', dom);
      TailOf(cmp, r);
      TailOf(cmp, r');
      TailWithin(r, dom);
      SortedUnique(cmp, r[1..], r'[1..], dom);
    }
  }

  lemma NothingElse<T>(r: seq<T>)
    requires multiset(r) == multiset{}
    ensures r == []
  {
    assert |multiset(r)| == |r|;
  }

  lemma TailWithin<T>(s: seq<T>, dom: set<T>)
    requires s != [] && Within(s, dom)
    ensures Within(s[1..], dom)
  {
  }

  lemma HeadsAgree<T>(cmp: (T, T) -> int, r: seq<T>, r': seq<T>, dom: set<T>)
    requires r != [] && multiset(r) == multiset(r') && SortedBy(cmp, r) && SortedBy(cmp, r')
    requires Consistent(cmp, dom) && Separates(cmp, dom) && Within(r, dom)
    ensures r' != [] && r[0] == r'[0]
  {
    assert r[0] in multiset(r') && |r| == |multiset(r)| == |r'|;
    var i :| 0 <= i < |r'| && r'[i] == r[0];
    assert r'[0] in multiset(r);
    var j :| 0 <= j < |r| && r[j] == r'[0];
    assert r[0] in dom && r[j] in dom;
    assert i == 0 || cmp(r'[0], r'[i]) <= 0;
    assert j == 0 || cmp(r[0], r[j]) <= 0;
  }

  lemma TailOf<T>(cmp: (T, T) -> int, r: seq<T>)
    requires r != [] && SortedBy(cmp, r)
    ensures multiset(r[1..]) == multiset(r) - multiset{r[0]} && SortedBy(cmp, r[1..])
    ensures r == [r[0]] + r[1..]
  {
    assert r == [r[0]] + r[1..];
  }

  // ------------------------------------------------------------ permutations

  lemma InPermutation<T>(s: seq<T>, s': seq<T>, i: nat) returns (j: nat)
    requires multiset(s) == multiset(s') && i < |s|
    ensures j < |s'| && s'[j] == s[i]
  {
    assert s[i] in multiset(s');
    j :| 0 <= j < |s'| && s'[j] == s[i];
  }

  lemma TwoCopies<T>(s: seq<T>, i: nat, j: nat)
    requires i < j < |s|
    ensures s[i] == s[j] ==> multiset(s)[s[i]] >= 2
  {
    assert s == s[..j] + [s[j]] + s[j + 1..];
    assert s[i] in multiset(s[..j]);
  }

  lemma {:induction false} Occurrences<T>(s: seq<T>, x: T)
    ensures multiset(s)[x] >= 2 <==> exists i, j :: 0 <= i < j < |s| && s[i] == x && s[j] == x
    ensures multiset(s)[x] >= 1 <==> exists i :: 0 <= i < |s| && s[i] == x
  {
    if s != [] {
      var t := s[..|s| - 1];
      Occurrences(t, x);
      assert s == t + [s[|s| - 1]];
      if s[|s| - 1] == x && multiset(t)[x] >= 1 {
        var i :| 0 <= i < |t| && t[i] == x;
        assert 0 <= i < |s| - 1 < |s| && s[i] == x && s[|s| - 1] == x;
      }
      if multiset(t)[x] >= 2 {
        var i, j :| 0 <= i < j < |t| && t[i] == x && t[j] == x;
        assert s[i] == x && s[j] == x;
      }
      if i, j :| 0 <= i < j < |s| && s[i] == x && s[j] == x {
        assert t[i] == x && (j < |t| ==> t[j] == x);
      }
    }
  }

  lemma WithoutOne<T>(s: seq<T>, s': seq<T>, j: nat)
    requires multiset(s) == multiset(s') && s != [] && j < |s'| && s'[j] == s[0]
    ensures s == [] + ([s[0]] + s[1..]) && s' == s'[..j] + ([s[0]] + s'[j + 1..])
    ensures multiset(s'[..j] + s'[j + 1..]) == multiset([] + s[1..])
  {
    Removed(s, 0);
    Removed(s', j);
    assert [] + s[1..] == s[..0] + s[1..] && s == [s[0]] + s[1..];
  }

  lemma Removed<T>(s: seq<T>, j: nat)
    requires j < |s|
    ensures s == s[..j] + ([s[j]] + s[j + 1..])
    ensures multiset(s[..j] + s[j + 1..]) == multiset(s) - multiset{s[j]}
  {
    var a, x, b := s[..j], [s[j]], s[j + 1..];
    assert s == (a + x) + b && s == a + (x + b);
    assert multiset(s) == multiset(a) + multiset(x) + multiset(b);
    assert multiset(a + b) == multiset(a) + multiset(b);
  }
}
