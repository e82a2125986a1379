/** C strings without their terminator, and the few library calls the rest of the model needs. */
module Strings {

  // ------------------------------------------------------------ strcmp

  /** The sign of strcmp: strings differ at the first different byte, a prefix comes first. */
  function StrCmp(a: string, b: string): int {
    if a == "" && b == "" then 0
    else if a == "" then -1
    else if b == "" then 1
    else if a[0] != b[0] then (if a[0] < b[0] then -1 else 1)
    else StrCmp(a[1..], b[1..])
  }

  lemma {:induction false} StrCmpOrders(a: string, b: string)
    ensures StrCmp(a, b) == 0 <==> a == b
    ensures StrCmp(a, b) < 0 <==> StrCmp(b, a) > 0
  {
    if a != "" && b != "" && a[0] == b[0] {
      StrCmpOrders(a[1..], b[1..]);
      assert a == [a[0]] + a[1..] && b == [b[0]] + b[1..];
    }
  }

  lemma {:induction false} StrCmpTransitive(a: string, b: string, c: string)
    requires StrCmp(a, b) <= 0 && StrCmp(b, c) <= 0
    ensures StrCmp(a, c) <= 0
  {
    if a != "" && b != "" && c != "" && a[0] == b[0] && b[0] == c[0] {
      StrCmpTransitive(a[1..], b[1..], c[1..]);
    }
  }

  /** `a` comes before `b` in byte order: it is a proper prefix, or has the smaller byte at the first
      difference, which is at `k`. */
  ghost predicate SmallerAt(a: string, b: string, k: nat) {
    && k <= |a| && k < |b| && a[..k] == b[..k]
    && (k < |a| ==> a[k] < b[k])
  }

  lemma SmallerLater(a: string, b: string, k: nat)
    requires a != "" && b != "" && a[0] == b[0]
    ensures SmallerAt(a, b, k + 1) <==> SmallerAt(a[1..], b[1..], k)
  {
    if k < |a| && k < |b| {
      assert a[..k + 1] == [a[0]] + a[1..][..k] && b[..k + 1] == [b[0]] + b[1..][..k];
      assert a[1..][..k] == a[..k + 1][1..] && b[1..][..k] == b[..k + 1][1..];
    }
  }

  lemma SameFirst(a: string, b: string, k: nat)
    requires SmallerAt(a, b, k) && k > 0
    ensures a[0] == b[0]
  {
    assert a[..k][0] == b[..k][0];
  }

  /** strcmp is negative exactly for strings in ascending byte order. */
  lemma {:induction false} StrCmpIs(a: string, b: string)
    ensures StrCmp(a, b) < 0 <==> exists k: nat :: SmallerAt(a, b, k)
  {
    if a == "" {
      assert b != "" ==> SmallerAt(a, b, 0);
    } else if b != "" && a[0] == b[0] {
      StrCmpIs(a[1..], b[1..]);
      if k: nat :| SmallerAt(a[1..], b[1..], k) {
        SmallerLater(a, b, k);
      }
      if k: nat :| SmallerAt(a, b, k) {
        SmallerLater(a, b, k - 1);
      }
    } else if b != "" {
      assert a[0] < b[0] ==> SmallerAt(a, b, 0);
      forall k: nat | SmallerAt(a, b, k)
        ensures k == 0
      {
        if k > 0 {
          SameFirst(a, b, k);
        }
      }
    }
  }

  // ------------------------------------------------------------ decimal digits

  /** The number that decimal digits stand for. */
  function Number(s: string): int {
    if s == "" then 0 else 10 * Number(s[..|s| - 1]) + (s[|s| - 1] as int - '0' as int)
  }

  // ------------------------------------------------------------ strchr

  /** The first position of `c`, or |s|. */
  function IndexOf(s: string, c: char): (i: nat)
    ensures i <= |s| && c !in s[..i] && (i < |s| ==> s[i] == c)
  {
    if s == "" || s[0] == c then 0
    else
      assert s[..1 + IndexOf(s[1..], c)] == [s[0]] + s[1..][..IndexOf(s[1..], c)];
      1 + IndexOf(s[1..], c)
  }

  lemma {:induction false} IndexOfIs(s: string, c: char, i: nat)
    requires i < |s| && s[i] == c && c !in s[..i]
    ensures IndexOf(s, c) == i
  {
    if i > 0 {
      assert s[0] in s[..i] && s[1..][..i - 1] == s[..i][1..];
      IndexOfIs(s[1..], c, i - 1);
    }
  }

  lemma {:induction false} IndexOfAtMost(s: string, c: char, i: nat)
    requires i < |s| && s[i] == c
    ensures IndexOf(s, c) <= i
  {
    if s[0] != c {
      IndexOfAtMost(s[1..], c, i - 1);
    }
  }

  lemma NotFound(s: string, c: char)
    ensures IndexOf(s, c) == |s| <==> c !in s
  {
    var i := IndexOf(s, c);
    if i == |s| {
      assert s[..i] == s;
    } else {
      assert s[i] in s;
    }
  }

  // ------------------------------------------------------------ strtok with '/'

  /** The length of the leading run of bytes that are not '/'. */
  function Span(s: string): (n: nat)
    ensures n <= |s| && '/' !in s[..n] && (n < |s| ==> s[n] == '/')
  {
    if s == "" || s[0] == '/' then 0
    else
      var n := 1 + Span(s[1..]);
      assert s[..n] == [s[0]] + s[1..][..n - 1];
      n
  }

  /** The tokens strtok_r cuts out of a path: its maximal runs of bytes other than '/'. */
  function Tokens(s: string): (ts: seq<string>)
    ensures AllTokens(ts)
    decreases |s|
  {
    if s == "" then []
    else if s[0] == '/' then Tokens(s[1..])
    else
      assert Span(s) > 0;
      [s[..Span(s)]] + Tokens(s[Span(s)..])
  }

  predicate IsToken(t: string) {
    t != "" && '/' !in t
  }

  datatype Scan = End | Token(tok: string, rest: string)

  lemma CutToken(s: string, i: nat, j: nat)
    requires i < j <= |s| && (forall k | i <= k < j :: s[k] != '/') && (j < |s| ==> s[j] == '/')
    ensures Tokens(s[i..]) == [s[i..j]] + Tokens(if j < |s| then s[j + 1..] else "")
  {
    var t := s[i..];
    assert t[..j - i] == s[i..j] && t[j - i..] == s[j..];
    SpanIs(t, j - i);
    if j < |s| {
      assert s[j..][1..] == s[j + 1..];
    }
  }

  /** strtok_r(NULL, "/", &rest): skip separators, cut the next token and the separator after it. */
  method StrTok(s: string) returns (r: Scan)
    ensures r.End? <==> Tokens(s) == []
    ensures r.Token? ==> Tokens(s) == [r.tok] + Tokens(r.rest) && |r.rest| < |s|
  {
    var i := 0;
    while i < |s| && s[i] == '/'
      invariant i <= |s| && Tokens(s) == Tokens(s[i..])
    {
      i := i + 1;
    }
    if i == |s| {
      return End;
    }
    var j := i;
    while j < |s| && s[j] != '/'
      invariant i <= j <= |s|
      invariant forall k | i <= k < j :: s[k] != '/'
    {
      j := j + 1;
    }
    r := Token(s[i..j], if j < |s| then s[j + 1..] else "");
    CutToken(s, i, j);
  }

  lemma {:induction false} SpanIs(s: string, n: nat)
    requires n <= |s| && '/' !in s[..n] && (n < |s| ==> s[n] == '/')
    ensures Span(s) == n
  {
    if n > 0 {
      assert s[0] in s[..n];
      assert s[1..][..n - 1] == s[..n][1..];
      SpanIs(s[1..], n - 1);
    }
  }

  lemma TokensFirst(s: string)
    requires s != ""
    ensures s[0] == '/' ==> Tokens(s) == Tokens(s[1..])
    ensures s[0] != '/' ==> Span(s) > 0 && Tokens(s) == [s[..Span(s)]] + Tokens(s[Span(s)..])
  {
  }

  lemma SpanGoesOn(a: string, t: string)
    requires a != "" && a[0] != '/'
    ensures Span(a + "/" + t) == Span(a) > 0 && (a + "/" + t)[..Span(a)] == a[..Span(a)]
    ensures (a + "/" + t)[Span(a)..] == a[Span(a)..] + "/" + t
  {
    var s, n := a + "/" + t, Span(a);
    assert s[..n] == a[..n] && s[n..] == a[n..] + "/" + t;
    assert n == |a| ==> s[n] == '/';
    SpanIs(s, n);
  }

  /** A separator splits a path into two paths. */
  lemma {:induction false} TokensAppend(a: string, b: string)
    ensures Tokens(a + "/" + b) == Tokens(a) + Tokens(b)
    decreases |a|
  {
    hide Tokens, Span;
    var s := a + "/" + b;
    TokensFirst(s);
    if a == "" {
      assert s[1..] == b;
      assert Tokens("") == [] by { NoTokens(); }
    } else if a[0] == '/' {
      TokensFirst(a);
      assert s[1..] == a[1..] + "/" + b;
      TokensAppend(a[1..], b);
    } else {
      var n := Span(a);
      TokensFirst(a);
      SpanGoesOn(a, b);
      TokensAppend(a[n..], b);
      assert [a[..n]] + (Tokens(a[n..]) + Tokens(b)) == [a[..n]] + Tokens(a[n..]) + Tokens(b);
    }
  }

  lemma NoTokens()
    ensures Tokens("") == []
  {
  }

  predicate Closed(a: string) {
    a == "" || a[|a| - 1] == '/'
  }

  lemma TokensAfterClosed(a: string, b: string)
    requires Closed(a)
    ensures Tokens(a + b) == Tokens(a) + Tokens(b)
  {
    if a == "" {
      assert a + b == b;
    } else {
      TokensAppend(a[..|a| - 1], b);
      TokensAppend(a[..|a| - 1], "");
      LastSlash(a, b);
    }
  }

  lemma LastSlash(a: string, b: string)
    requires a != "" && a[|a| - 1] == '/'
    ensures a[..|a| - 1] + "/" + "" == a && a[..|a| - 1] + "/" + b == a + b
  {
  }

  lemma TokensOfToken(t: string)
    requires IsToken(t)
    ensures Tokens(t) == [t] && Tokens(t + "/") == [t]
  {
    assert t[..|t|] == t;
    SpanIs(t, |t|);
    TokensAppend(t, "");
    assert t + "/" + "" == t + "/";
  }

  /** Every token followed by a separator: the form of an element path below its leading '/'. */
  function Join(ts: seq<string>): (s: string)
    ensures Closed(s)
  {
    if ts == [] then "" else Join(ts[..|ts| - 1]) + (ts[|ts| - 1] + "/")
  }

  ghost predicate AllTokens(ts: seq<string>) {
    forall i | 0 <= i < |ts| :: IsToken(ts[i])
  }

  lemma {:induction false} TokensOfJoin(ts: seq<string>)
    requires AllTokens(ts)
    ensures Tokens(Join(ts)) == ts
  {
    if ts != [] {
      var front, t := ts[..|ts| - 1], ts[|ts| - 1];
      TokensOfJoin(front);
      TokensOfToken(t);
      TokensAfterClosed(Join(front), t + "/");
      assert ts == front + [t];
    }
  }

  lemma TokensOfPath(ts: seq<string>)
    requires AllTokens(ts)
    ensures Tokens("/" + Join(ts)) == ts
  {
    TokensOfJoin(ts);
    assert ("/" + Join(ts))[1..] == Join(ts);
  }

  /** memcpy into a buffer at `off`. */
  method MemCpy(buf: array<char>, off: nat, src: string)
    requires off + |src| <= buf.Length
    modifies buf
    ensures buf[..off + |src|] == old(buf[..off]) + src
    ensures forall i | off + |src| <= i < buf.Length :: buf[i] == old(buf[i])
  {
    forall i | 0 <= i < |src| {
      buf[off + i] := src[i];
    }
  }
}
