/** The sub-resource part of an S3 signature: canon_rsc_sub_included and canon_rsc_sub_get in
    lib/sign.c. */
module SubResources {
  import opened Basics
  import opened Strings
  import opened Sorting

  const S3_SUB_RESOURCES: seq<string> :=
    ["acl", "lifecycle", "location", "logging", "notification", "partNumber", "policy", "requestPayment",
     "torrent", "uploadId", "uploads", "versionId", "versioning", "versions", "website"]

  const CANON_RSC_SUB_MAX := 15

  // ------------------------------------------------------------ query parameters

  /** The parameter a text begins with. */
  function First(a: string): string {
    a[..IndexOf(a, '&')]
  }

  /** The parameters of a query: its parts between '&', up to the end of the query. */
  function Params(q: string): (ps: seq<string>)
    decreases |q|
  {
    if q == "" then [] else [First(q)] + Params(q[Min(IndexOf(q, '&') + 1, |q|)..])
  }

  function Name(param: string): string {
    param[..IndexOf(param, '=')]
  }

  predicate Known(name: string) {
    name in S3_SUB_RESOURCES
  }

  /** A parameter that is part of the signature. */
  predicate Listed(param: string) {
    Known(Name(param))
  }

  function KeptOne(p: string): seq<string> {
    if Listed(p) then [p] else []
  }

  function Kept(ps: seq<string>): (ks: seq<string>)
    ensures |ks| <= |ps|
  {
    if ps == [] then [] else KeptOne(ps[0]) + Kept(ps[1..])
  }

  /** Exactly the parameters with a listed name are kept, each as often as it occurs. */
  lemma {:induction false} KeptExactly(ps: seq<string>, p: string)
    ensures multiset(Kept(ps))[p] == if Listed(p) then multiset(ps)[p] else 0
  {
    hide Listed, KeptOne;
    if ps != [] {
      KeptExactly(ps[1..], p);
      CountFirst(ps, p);
      OneKept(ps[0], p);
    }
  }

  lemma CountFirst(ps: seq<string>, p: string)
    requires ps != []
    ensures multiset(ps)[p] == multiset(ps[1..])[p] + if ps[0] == p then 1 else 0
  {
    assert ps == [ps[0]] + ps[1..];
  }

  lemma OneKept(q: string, p: string)
    ensures multiset(KeptOne(q))[p] == if q == p && Listed(p) then 1 else 0
  {
    hide Listed;
  }

  /** So what is kept depends on which parameters there are, not on their order. */
  lemma KeptPermuted(ps: seq<string>, ps': seq<string>)
    requires multiset(ps) == multiset(ps')
    ensures multiset(Kept(ps)) == multiset(Kept(ps'))
  {
    forall p
      ensures multiset(Kept(ps))[p] == multiset(Kept(ps'))[p]
    {
      KeptExactly(ps, p);
      KeptExactly(ps', p);
    }
  }

  // ------------------------------------------------------------ the canonical string

  function Amped(ps: seq<string>): string {
    if ps == [] then "" else "&" + ps[0] + Amped(ps[1..])
  }

  function Total(ps: seq<string>): (n: nat)
    ensures |Amped(ps)| == n + |ps|
  {
    if ps == [] then 0 else |ps[0]| + Total(ps[1..])
  }

  /** The first parameter after '?', every other after '&'. */
  function Query(ps: seq<string>): string {
    if ps == [] then "" else "?" + ps[0] + Amped(ps[1..])
  }

  function CanonSub(q: string): string {
    Query(Sort(StrCmp, Kept(Params(q))))
  }

  lemma StrCmpIsOrder(dom: set<string>)
    ensures Consistent(StrCmp, dom) && Separates(StrCmp, dom)
  {
    forall a, b | a in dom && b in dom
      ensures StrCmp(a, b) < 0 <==> StrCmp(b, a) > 0
      ensures StrCmp(a, b) == 0 ==> a == b
    {
      StrCmpOrders(a, b);
    }
    forall a, b, c {:trigger StrCmp(a, b), StrCmp(b, c)} |
      a in dom && b in dom && c in dom && StrCmp(a, b) <= 0 && StrCmp(b, c) <= 0
      ensures StrCmp(a, c) <= 0
    {
      StrCmpTransitive(a, b, c);
    }
  }

  lemma SortedOnce(s: seq<string>, r: seq<string>, r': seq<string>)
    requires SortedPermutation(StrCmp, s, r) && SortedPermutation(StrCmp, s, r')
    ensures r == r'
  {
    StrCmpIsOrder(Elements(r));
    SortedUnique(StrCmp, r, r', Elements(r));
  }

  lemma SortSortsStrings(s: seq<string>)
    ensures SortedPermutation(StrCmp, s, Sort(StrCmp, s))
  {
    StrCmpIsOrder(Elements(s));
    SortSorts(StrCmp, s, Elements(s));
  }

  /** The parameters of the string ascend in byte order; equal ones stay together. */
  lemma ParametersAscend(q: string, i: nat, j: nat)
    requires i < j < |Sort(StrCmp, Kept(Params(q)))|
    ensures var r := Sort(StrCmp, Kept(Params(q))); r[i] == r[j] || exists k: nat :: SmallerAt(r[i], r[j], k)
  {
    hide Params, Kept, Sort;
    SortSortsStrings(Kept(Params(q)));
    var r := Sort(StrCmp, Kept(Params(q)));
    StrCmpIs(r[i], r[j]);
    StrCmpOrders(r[i], r[j]);
    assert StrCmp(r[i], r[j]) <= 0;
  }

  /** The same parameters in any order sign the same sub-resource string. */
  lemma ParameterOrderDoesNotMatter(q: string, q': string)
    requires multiset(Params(q)) == multiset(Params(q'))
    ensures CanonSub(q) == CanonSub(q')
  {
    hide Params, Kept, Sort;
    KeptPermuted(Params(q), Params(q'));
    SortSortsStrings(Kept(Params(q)));
    SortSortsStrings(Kept(Params(q')));
    SortedOnce(Kept(Params(q)), Sort(StrCmp, Kept(Params(q))), Sort(StrCmp, Kept(Params(q'))));
  }

  ghost predicate Parts(ps: seq<string>) {
    forall i | 0 <= i < |ps| :: ps[i] != "" && '&' !in ps[i]
  }

  lemma ParamsSplit(p: string, tail: string)
    requires p != "" && '&' !in p
    ensures Params(p) == [p]
    ensures Params(p + ("&" + tail)) == [p] + Params(tail)
  {
    NotFound(p, '&');
    assert p[..|p|] == p;
    var q := p + ("&" + tail);
    CutAt(p, "&" + tail);
    assert ("&" + tail)[1..] == tail;
    IndexOfIs(q, '&', |p|);
  }

  lemma CutAt(p: string, t: string)
    requires t != ""
    ensures (p + t)[..|p|] == p && (p + t)[|p|] == t[0] && (p + t)[|p| + 1..] == t[1..]
  {
  }

  /** The string reads back as the parameters it was made of. */
  lemma {:induction false} QueryReadsBack(ps: seq<string>)
    requires Parts(ps) && ps != []
    ensures Params(Query(ps)[1..]) == ps
    decreases |ps|
  {
    hide Query, Params;
    QueryFront(ps);
    if |ps| == 1 {
      ParamsSplit(ps[0], "");
      assert ps == [ps[0]];
    } else {
      ParamsSplit(ps[0], Query(ps[1..])[1..]);
      QueryReadsBack(ps[1..]);
      assert ps == [ps[0]] + ps[1..];
    }
  }

  lemma QueryFront(ps: seq<string>)
    requires ps != []
    ensures Query(ps) != "" && (|ps| == 1 ==> Query(ps)[1..] == ps[0])
    ensures |ps| > 1 ==> Query(ps[1..]) != "" && Query(ps)[1..] == ps[0] + ("&" + Query(ps[1..])[1..])
  {
    QueryIs(ps);
    if |ps| > 1 {
      QueryIs(ps[1..]);
    }
  }

  lemma QueryIs(ps: seq<string>)
    requires ps != []
    ensures Query(ps) != "" && Query(ps)[1..] == ps[0] + Amped(ps[1..])
    ensures Amped(ps) == "&" + Query(ps)[1..]
  {
    assert Query(ps) == "?" + (ps[0] + Amped(ps[1..]));
    assert Amped(ps) == "&" + (ps[0] + Amped(ps[1..]));
  }

  ghost predicate NoAmps(ps: seq<string>) {
    forall i | 0 <= i < |ps| :: '&' !in ps[i]
  }

  lemma {:induction false} ParamsHaveNoAmps(q: string)
    ensures NoAmps(Params(q))
    decreases |q|
  {
    if q != "" {
      ParamsHaveNoAmps(q[Min(IndexOf(q, '&') + 1, |q|)..]);
    }
  }

  lemma {:induction false} KeptAreParts(ps: seq<string>)
    requires NoAmps(ps)
    ensures Parts(Kept(ps))
  {
    if ps != [] {
      KeptAreParts(ps[1..]);
      assert Name("") == "" && !Known("");
    }
  }

  /** A query with signed parameters gives a string that reads back as just those parameters, sorted. */
  lemma CanonSubReadsBack(q: string)
    requires Kept(Params(q)) != []
    ensures Params(CanonSub(q)[1..]) == Sort(StrCmp, Kept(Params(q)))
    ensures SortedPermutation(StrCmp, Kept(Params(q)), Params(CanonSub(q)[1..]))
  {
    hide Params, Kept, Sort;
    var ks := Kept(Params(q));
    var r := Sort(StrCmp, ks);
    ParamsHaveNoAmps(q);
    KeptAreParts(Params(q));
    SortSortsStrings(ks);
    forall i | 0 <= i < |r|
      ensures r[i] != "" && '&' !in r[i]
    {
      var j := InPermutation(r, ks, i);
    }
    assert |multiset(r)| == |r| && |multiset(ks)| == |ks|;
    QueryReadsBack(r);
  }

  // ------------------------------------------------------------ canon_rsc_sub_included

  lemma NameEnds(a: string)
    ensures Name(First(a)) == a[..Min(IndexOf(a, '='), IndexOf(a, '&'))]
  {
    var eq, amp := IndexOf(a, '='), IndexOf(a, '&');
    if eq < amp {
      assert First(a)[..eq] == a[..eq];
      IndexOfIs(First(a), '=', eq);
    } else {
      assert First(a) == a[..eq][..amp];
      assert forall i | 0 <= i < amp :: First(a)[i] == a[..eq][i];
    }
  }

  /** Whether the first parameter of `subRsc` is signed; `single` and `value`, which starts with '=',
      make it up. */
  method Included(subRsc: string) returns (ret: int, single: string, value: Option<string>)
    ensures ret == if Listed(First(subRsc)) then 0 else -ENOENT
    ensures single == Name(First(subRsc))
    ensures First(subRsc) == single + (if value.Some? then value.value else "")
    ensures value.Some? ==> value.value != "" && value.value[0] == '='
  {
    hide Known;
    NameEnds(subRsc);
    var n := |subRsc|;
    var eq, amp := IndexOf(subRsc, '='), IndexOf(subRsc, '&');
    var sep;
    if amp == n {
      sep := eq;
    } else if eq != n && eq < amp {
      sep := eq;
    } else {
      sep := amp;
    }
    value := None;
    if sep == n {
      single := subRsc;
    } else {
      if sep == eq {
        value := Some(if amp == n then subRsc[eq..] else subRsc[eq..amp]);
      }
      single := subRsc[..sep];
    }
    assert single == Name(First(subRsc));
    return if Known(single) then 0 else -ENOENT, single, value;
  }

  // ------------------------------------------------------------ canon_rsc_sub_get

  /** Where the parameter after the one at `a` starts, or the end. */
  function Next(q: string, a: nat): (n: nat)
    requires a < |q|
    ensures a < n <= |q|
  {
    Min(a + IndexOf(q[a..], '&') + 1, |q|)
  }

  lemma ParamsStep(q: string, a: nat)
    requires a < |q|
    ensures Params(q[a..]) == [First(q[a..])] + Params(q[Next(q, a)..])
  {
    hide First;
    assert q[a..][Next(q, a) - a..] == q[Next(q, a)..];
  }

  lemma KeptStep(before: seq<string>, p: string, rest: seq<string>)
    ensures before + Kept([p] + rest) == (if Listed(p) then before + [p] else before) + Kept(rest)
  {
    hide Listed;
    assert ([p] + rest)[1..] == rest;
    assert before + (KeptOne(p) + Kept(rest)) == before + KeptOne(p) + Kept(rest);
    assert before + [] == before;
  }

  lemma {:induction false} TotalSnoc(ps: seq<string>, p: string)
    ensures Total(ps + [p]) == Total(ps) + |p|
  {
    if ps == [] {
      assert Total([p]) == |p| + Total([p][1..]);
    } else {
      assert (ps + [p])[1..] == ps[1..] + [p];
      TotalSnoc(ps[1..], p);
    }
  }

  lemma {:induction false} TotalPermuted(ps: seq<string>, ps': seq<string>)
    requires multiset(ps) == multiset(ps')
    ensures Total(ps) == Total(ps')
    decreases |ps|
  {
    if ps == [] {
      assert ps' == [] by { assert |multiset(ps')| == |ps'|; }
    } else {
      var j := InPermutation(ps, ps', 0);
      WithoutOne(ps, ps', j);
      TotalPermuted([] + ps[1..], ps'[..j] + ps'[j + 1..]);
      TotalAround([], ps[0], ps[1..]);
      TotalAround(ps'[..j], ps[0], ps'[j + 1..]);
    }
  }

  lemma {:induction false} TotalAround(front: seq<string>, p: string, back: seq<string>)
    ensures Total(front + ([p] + back)) == |p| + Total(front + back)
  {
    if front == [] {
      assert front + ([p] + back) == [p] + back && front + back == back && ([p] + back)[1..] == back;
    } else {
      assert (front + ([p] + back))[1..] == front[1..] + ([p] + back);
      assert (front + back)[1..] == front[1..] + back;
      TotalAround(front[1..], p, back);
    }
  }

  /** The loop over the parameters: those to be signed go into `subRsc`, which has room for fifteen.  At
      a sixteenth the program writes past the array, which the model reports as `overrun`. */
  method Select(q: string) returns (overrun: bool, subRsc: array<string>, i: nat, totalBytes: nat)
    ensures overrun <==> |Kept(Params(q))| > CANON_RSC_SUB_MAX
    ensures !overrun ==> i <= subRsc.Length && subRsc[..i] == Kept(Params(q)) && totalBytes == Total(Kept(Params(q)))
  {
    hide Params, Kept, Total, Known;
    subRsc := new string[CANON_RSC_SUB_MAX];
    overrun, i, totalBytes := false, 0, 0;
    var a: nat := 0;
    NothingYet(q);
    assert subRsc[..0] == [] && q[0..] == q;
    while a < |q|
      invariant a <= |q| && i <= subRsc.Length
      invariant subRsc[..i] + Kept(Params(q[a..])) == Kept(Params(q))
      invariant totalBytes == Total(subRsc[..i])
    {
      ghost var before := subRsc[..i];
      ParamsStep(q, a);
      KeptStep(before, First(q[a..]), Params(q[Next(q, a)..]));
      var ret, key, value := Included(q[a..]);
      if ret == 0 {
        if i == subRsc.Length {
          return true, subRsc, i, totalBytes;
        }
        var param := key + (if value.Some? then value.value else "");
        TotalSnoc(before, param);
        Set(subRsc, i, param);
        totalBytes, i := totalBytes + |param|, i + 1;
      }
      a := Next(q, a);
    }
    AtEnd(q, subRsc[..i]);
  }

  method Set(subRsc: array<string>, i: nat, param: string)
    requires i < subRsc.Length
    modifies subRsc
    ensures subRsc[..i + 1] == old(subRsc[..i]) + [param]
  {
    subRsc[i] := param;
  }

  lemma AtEnd(q: string, ks: seq<string>)
    ensures ks + Kept(Params(q[|q|..])) == ks
  {
  }

  lemma NothingYet(q: string)
    ensures Total([]) == 0 && [] + Kept(Params(q)) == Kept(Params(q))
  {
  }

  /** canon_rsc_sub_get: the string is the signed parameters in order, and fits the buffer with one place
      to spare, exactly when there are at most fifteen of them, repeats included. */
  method SubGet(q: string) returns (overrun: bool, buf: array<char>, len: nat)
    ensures overrun <==> |Kept(Params(q))| > CANON_RSC_SUB_MAX
    ensures !overrun ==> len < buf.Length && buf[..len] == CanonSub(q) && buf[len] == '\0'
    ensures !overrun && Kept(Params(q)) != [] ==> buf.Length == len + 2
  {
    hide Params, Kept, Sort, Total, Query;
    var subRsc, i, totalBytes;
    overrun, subRsc, i, totalBytes := Select(q);
    if overrun || i == 0 {
      buf := new char[1](_ => '\0');
      NoneKept();
      return overrun, buf, 0;
    }
    ghost var ks := Kept(Params(q));
    StrCmpIsOrder(Elements(ks));
    var sorted := QSort(StrCmp, subRsc[..i]);
    SortSortsStrings(ks);
    SortedOnce(ks, sorted, Sort(StrCmp, ks));
    TotalPermuted(ks, sorted);
    SameSize(ks, sorted);
    buf, len := Write(sorted, totalBytes);
  }

  lemma SameSize(s: seq<string>, r: seq<string>)
    requires multiset(s) == multiset(r)
    ensures |s| == |r|
  {
    assert |multiset(s)| == |s| && |multiset(r)| == |r|;
  }

  lemma NoneKept()
    ensures Query(Sort(StrCmp, [])) == ""
  {
  }

  /** The loop that writes the sorted parameters with their separators. */
  method Write(sorted: seq<string>, totalBytes: nat) returns (buf: array<char>, len: nat)
    requires sorted != [] && totalBytes == Total(sorted)
    ensures buf.Length == totalBytes + |sorted| + 2 && len == totalBytes + |sorted|
    ensures buf[..len] == Query(sorted) && buf[len] == '\0'
  {
    hide Total, Query, Amped, Rest;
    buf := new char[totalBytes + |sorted| + 2];
    QuerySize(sorted);
    var s: nat, j: nat := 0, 0;
    assert sorted[0..] == sorted && buf[..0] == "";
    while j < |sorted|
      invariant 0 <= j <= |sorted|
      invariant s + |Rest(sorted, j)| == totalBytes + |sorted|
      invariant buf[..s] + Rest(sorted, j) == Query(sorted)
    {
      s := WriteParam(buf, s, sorted, j);
      j := j + 1;
    }
    buf[s] := '\0';
    RestDone(sorted);
    len := s;
  }

  method WriteParam(buf: array<char>, s: nat, sorted: seq<string>, j: nat) returns (s': nat)
    requires j < |sorted| && s + |Rest(sorted, j)| < buf.Length
    modifies buf
    ensures s' == s + 1 + |sorted[j]|
    ensures s' + |Rest(sorted, j + 1)| == s + |Rest(sorted, j)|
    ensures buf[..s'] + Rest(sorted, j + 1) == old(buf[..s]) + Rest(sorted, j)
  {
    hide Rest;
    RestStep(sorted, j);
    var text := (if j == 0 then "?" else "&") + sorted[j];
    MemCpy(buf, s, text);
    s' := s + |text|;
  }

  /** What is still to be written before parameter `j`. */
  ghost function Rest(sorted: seq<string>, j: nat): string
    requires j <= |sorted|
  {
    if j == 0 then Query(sorted) else Amped(sorted[j..])
  }

  lemma RestStep(sorted: seq<string>, j: nat)
    requires j < |sorted|
    ensures Rest(sorted, j) == ((if j == 0 then "?" else "&") + sorted[j]) + Rest(sorted, j + 1)
  {
    assert sorted[j..][1..] == sorted[j + 1..];
  }

  lemma RestDone(sorted: seq<string>)
    requires sorted != []
    ensures Rest(sorted, |sorted|) == ""
  {
    assert sorted[|sorted|..] == [];
  }

  lemma QuerySize(sorted: seq<string>)
    requires sorted != []
    ensures |Query(sorted)| == Total(sorted) + |sorted|
    ensures Rest(sorted, 0) == Query(sorted)
  {
  }
}
