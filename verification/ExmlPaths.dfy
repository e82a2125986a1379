/** Element paths of the streaming XML matcher: lib/exml.c.

    Each opened element gets a path such as "/A[0]/B[3]/" whose leaf index tells apart same-named
    children of one parent instance.  The indices come from a search tree of all paths so far. */
module ExmlPaths {
  import opened Basics
  import opened Strings

  // ------------------------------------------------------------ comparing tree elements

  /** Order of two token lists: by the first different token, and a path after its descendants. */
  function TokCmp(a: seq<string>, b: seq<string>): int {
    if a == [] && b == [] then 0
    else if a == [] then 1
    else if b == [] then -1
    else if a[0] == b[0] then TokCmp(a[1..], b[1..])
    else StrCmp(a[0], b[0])
  }

  lemma {:induction false} TokCmpOrders(a: seq<string>, b: seq<string>)
    ensures TokCmp(a, b) == 0 <==> a == b
    ensures TokCmp(a, b) < 0 <==> TokCmp(b, a) > 0
  {
    if a != [] && b != [] {
      if a[0] == b[0] {
        TokCmpOrders(a[1..], b[1..]);
        assert a == [a[0]] + a[1..] && b == [b[0]] + b[1..];
      } else {
        StrCmpOrders(a[0], b[0]);
      }
    }
  }

  lemma {:induction false} TokCmpTransitive(a: seq<string>, b: seq<string>, c: seq<string>)
    requires TokCmp(a, b) <= 0 && TokCmp(b, c) <= 0
    ensures TokCmp(a, c) <= 0
  {
    if a != [] && b != [] && c != [] {
      if a[0] == b[0] == c[0] {
        TokCmpTransitive(a[1..], b[1..], c[1..]);
      } else {
        StrCmpOrders(a[0], b[0]);
        StrCmpOrders(b[0], c[0]);
        StrCmpTransitive(a[0], b[0], c[0]);
        StrCmpOrders(a[0], c[0]);
      }
    }
  }

  /** Descendants come before their ancestors. */
  lemma {:induction false} DescendantFirst(a: seq<string>, below: seq<string>)
    requires below != []
    ensures TokCmp(a + below, a) < 0
  {
    if a == [] {
      assert a + below == below;
    } else {
      DescendantFirst(a[1..], below);
      assert (a + below)[1..] == a[1..] + below;
    }
  }

  function ElCmp(a: string, b: string): int {
    TokCmp(Tokens(a), Tokens(b))
  }

  /** exml_el_cmp is a strict total order up to equality of the token lists. */
  lemma ElCmpIsTotalOrder(a: string, b: string, c: string)
    ensures ElCmp(a, b) == 0 <==> Tokens(a) == Tokens(b)
    ensures ElCmp(a, b) < 0 <==> ElCmp(b, a) > 0
    ensures ElCmp(a, b) <= 0 && ElCmp(b, c) <= 0 ==> ElCmp(a, c) <= 0
    ensures ElCmp(a, b) < 0 && ElCmp(b, c) < 0 ==> ElCmp(a, c) < 0
  {
    TokCmpOrders(Tokens(a), Tokens(b));
    TokCmpOrders(Tokens(b), Tokens(c));
    TokCmpOrders(Tokens(a), Tokens(c));
    if ElCmp(a, b) <= 0 && ElCmp(b, c) <= 0 {
      TokCmpTransitive(Tokens(a), Tokens(b), Tokens(c));
      if ElCmp(a, c) == 0 {
        assert ElCmp(c, b) == ElCmp(a, b);
      }
    }
  }

  /** exml_el_cmp: tokenises both paths in step until they differ. */
  method CompareElements(pathA: string, pathB: string) returns (ret: int)
    ensures ret == ElCmp(pathA, pathB)
  {
    var ta := StrTok(pathA);
    var tb := StrTok(pathB);
    while ta.Token? && tb.Token? && ta.tok == tb.tok
      invariant ElCmp(pathA, pathB) == TokCmp(Rest(ta), Rest(tb))
      decreases if ta.Token? then |ta.rest| + 1 else 0
    {
      RestCons(ta);
      RestCons(tb);
      ta := StrTok(ta.rest);
      tb := StrTok(tb.rest);
    }
    RestCons(ta);
    RestCons(tb);
    if ta.End? && tb.End? {
      return 0;
    } else if ta.End? {
      return 1;
    } else if tb.End? {
      return -1;
    }
    return StrCmp(ta.tok, tb.tok);
  }

  function Rest(scan: Scan): seq<string> {
    if scan.End? then [] else [scan.tok] + Tokens(scan.rest)
  }

  lemma RestCons(scan: Scan)
    ensures scan.Token? ==> Rest(scan) != [] && Rest(scan)[0] == scan.tok && Rest(scan)[1..] == Tokens(scan.rest)
  {
  }

  // ------------------------------------------------------------ indexed tokens

  /** No name in an XML document contains '/', '[' or '*'. */
  predicate IsName(n: string) {
    IsToken(n) && '[' !in n && '*' !in n
  }

  function Dec(n: nat): (s: string)
    ensures s != ""
    ensures forall c | c in s :: '0' <= c <= '9'
  {
    if n < 10 then ['0' + n as char] else Dec(n / 10) + ['0' + (n % 10) as char]
  }

  lemma {:induction false} DecInjective(m: nat, n: nat)
    requires Dec(m) == Dec(n)
    ensures m == n
  {
    DecLast(m);
    DecLast(n);
    if m >= 10 && n >= 10 {
      assert Dec(m)[..|Dec(m)| - 1] == Dec(m / 10) && Dec(n)[..|Dec(n)| - 1] == Dec(n / 10);
      DecInjective(m / 10, n / 10);
    }
  }

  lemma DecLast(n: nat)
    ensures Dec(n)[|Dec(n)| - 1] as int - '0' as int == n % 10
    ensures |Dec(n)| == 1 <==> n < 10
  {
  }

  /** An index is written in decimal, without zeros in front. */
  lemma {:induction false} DecIsDecimal(n: nat)
    ensures Number(Dec(n)) == n && (Dec(n)[0] == '0' <==> n == 0)
  {
    if n >= 10 {
      DecIsDecimal(n / 10);
      assert Dec(n)[..|Dec(n)| - 1] == Dec(n / 10);
    } else {
      assert Dec(n)[..0] == "";
    }
  }

  /** Four digits are enough exactly up to 9999. */
  lemma DecLength(n: nat)
    ensures |Dec(n)| <= 4 <==> n <= 9999
  {
    if n >= 10 {
      if n >= 100 {
        if n >= 1000 {
          if n >= 10000 {
            assert |Dec(n / 10 / 10 / 10 / 10)| >= 1;
            assert |Dec(n / 10 / 10 / 10)| >= 2;
            assert |Dec(n / 10 / 10)| >= 3;
            assert |Dec(n / 10)| >= 4;
          } else {
            assert |Dec(n / 10 / 10 / 10)| == 1;
            assert |Dec(n / 10 / 10)| == 2;
            assert |Dec(n / 10)| == 3;
          }
        } else {
          assert |Dec(n / 10 / 10)| == 1;
          assert |Dec(n / 10)| == 2;
        }
      }
    }
  }

  function Indexed(name: string, k: nat): string {
    name + "[" + Dec(k) + "]"
  }

  lemma IndexedIsToken(name: string, k: nat)
    requires IsName(name)
    ensures IsToken(Indexed(name, k)) && '[' in Indexed(name, k)
  {
    assert Indexed(name, k)[|name|] == '[';
  }

  /** Name and index can be read back from an indexed token. */
  lemma IndexedInjective(name: string, k: nat, name': string, k': nat)
    requires '[' !in name && '[' !in name' && Indexed(name, k) == Indexed(name', k')
    ensures name == name' && k == k'
  {
    var t := Indexed(name, k);
    assert t[|name|] == '[' && t[|name'|] == '[';
    assert forall i | 0 <= i < |name| :: t[i] == name[i] != '[';
    assert forall i | 0 <= i < |name'| :: t[i] == name'[i] != '[';
    assert |name| == |name'|;
    assert name == t[..|name|] && name' == t[..|name'|];
    assert Dec(k) == t[|name| + 1..|t| - 1] && Dec(k') == t[|name'| + 1..|t| - 1];
    DecInjective(k, k');
  }

  // ------------------------------------------------------------ the element tree

  datatype El = El(path: string, leafIndex: nat, maxLeaf: nat)

  /** The search tree: exml_el_cmp finds an element exactly when the token lists are equal. */
  type Tree = map<seq<string>, El>

  /** The buffer holds the path and sizeof("[99999]") bytes more, written over the final '/'. */
  const INDEX_BUFLEN := 8

  function Suffix(k: nat): string {
    "[" + Dec(k) + "]/"
  }

  datatype Encountered = Fresh(tree: Tree, path: string) | TooMany(tree: Tree)

  /** exml_el_encounter: `path` ends in '/'; its final '/' is replaced by an index suffix, except for
      the root. */
  function Encounter(tree: Tree, path: string): Encountered
    requires path != ""
  {
    var stem := path[..|path| - 1];
    var first := if |path| == 1 then path else stem + Suffix(0);
    if Tokens(first) !in tree then
      Fresh(tree[Tokens(first) := El(first, 0, 0)], first)
    else
      var el := tree[Tokens(first)];
      var k := el.maxLeaf + 1;
      var bumped := tree[Tokens(first) := el.(maxLeaf := k)];
      if |Suffix(k)| >= INDEX_BUFLEN then TooMany(bumped)
      else Fresh(bumped[Tokens(stem + Suffix(k)) := El(stem + Suffix(k), k, 0)], stem + Suffix(k))
  }

  /** The path of an element, given its indexed tokens. */
  function Path(toks: seq<string>): string {
    "/" + Join(toks)
  }

  function Key(parent: seq<string>, name: string, k: nat): seq<string> {
    parent + [Indexed(name, k)]
  }

  /** How many children called `name` the element `parent` has had so far. */
  function Count(tree: Tree, parent: seq<string>, name: string): nat {
    if Key(parent, name, 0) in tree then tree[Key(parent, name, 0)].maxLeaf + 1 else 0
  }

  /** The tree holds exactly the children counted, with gap-free indices, below elements it holds. */
  ghost predicate TreeOk(tree: Tree) {
    && [] in tree
    && (forall p: seq<string>, n: string, k: nat {:trigger Key(p, n, k)} | IsName(n) ::
          Key(p, n, k) in tree <==> k < Count(tree, p, n))
    && (forall p: seq<string>, n: string, k: nat {:trigger Key(p, n, k)} | IsName(n) ::
          Key(p, n, k) in tree ==> p in tree && tree[Key(p, n, k)].leafIndex == k)
  }

  lemma KeyInjective(p: seq<string>, n: string, k: nat, p': seq<string>, n': string, k': nat)
    requires '[' !in n && '[' !in n'
    ensures Key(p, n, k) == Key(p', n', k') ==> p == p' && n == n' && k == k'
  {
    var a, b := Key(p, n, k), Key(p', n', k');
    if a == b {
      assert p == a[..|a| - 1] && p' == b[..|b| - 1];
      assert a[|a| - 1] == Indexed(n, k) && b[|b| - 1] == Indexed(n', k');
      IndexedInjective(n, k, n', k');
    }
  }

  lemma PathOfKey(p: seq<string>, n: string, k: nat)
    requires AllTokens(p) && IsName(n)
    ensures var path := Path(p) + n + "/";
            && path[..|path| - 1] + Suffix(k) == Path(Key(p, n, k))
            && |path| > 1 && Tokens(Path(Key(p, n, k))) == Key(p, n, k) && AllTokens(Key(p, n, k))
  {
    hide AllTokens, Tokens, Path, Key, Suffix;
    KeyTokens(p, n, k);
    PathWithSuffix(p, n, k);
    var path := Path(p) + n + "/";
    assert path[..|path| - 1] == Path(p) + n;
  }

  lemma KeyTokens(p: seq<string>, n: string, k: nat)
    requires AllTokens(p) && IsName(n)
    ensures AllTokens(Key(p, n, k)) && Tokens(Path(Key(p, n, k))) == Key(p, n, k) && |Path(p)| > 0
  {
    hide Join, Tokens, Indexed, IsToken;
    IndexedIsToken(n, k);
    TokensOfPath(Key(p, n, k));
  }

  lemma PathWithSuffix(p: seq<string>, n: string, k: nat)
    ensures Path(p) + n + Suffix(k) == Path(Key(p, n, k))
  {
    hide Dec;
    assert Key(p, n, k)[..|p|] == p;
    assert Path(p) + n + Suffix(k) == "/" + (Join(p) + (Indexed(n, k) + "/"));
  }

  /** What exml_el_encounter does to the tree: the first child of a name is inserted at index 0, for a
      further one the first child's counter is raised and the new child inserted at that index.  The
      second search never finds the new path. */
  lemma EncounterIs(tree: Tree, p: seq<string>, n: string)
    requires TreeOk(tree) && p in tree && AllTokens(p) && IsName(n)
    ensures var k, first := Count(tree, p, n), Key(p, n, 0);
            var path := Path(Key(p, n, k));
            && Key(p, n, k) !in tree && (k > 0 ==> first in tree && Key(p, n, k) != first)
            && Encounter(tree, Path(p) + n + "/")
               == if k == 0 then Fresh(tree[first := El(path, 0, 0)], path)
                  else
                    var bumped := tree[first := tree[first].(maxLeaf := k)];
                    if k > 9999 then TooMany(bumped) else Fresh(bumped[Key(p, n, k) := El(path, k, 0)], path)
  {
    hide AllTokens, Tokens, Path, Key;
    var k := Count(tree, p, n);
    PathOfKey(p, n, 0);
    PathOfKey(p, n, k);
    DecLength(k);
    DecLength(0);
    assert |Suffix(k)| == |Dec(k)| + 3;
    assert Key(p, n, k) !in tree;
  }

  /** Opening a child called `n` gives it the next index, fails exactly at the 10001st of that name, and
      changes nothing else that the tree records. */
  lemma EncounterChild(tree: Tree, p: seq<string>, n: string)
    requires TreeOk(tree) && p in tree && AllTokens(p) && IsName(n)
    ensures var k := Count(tree, p, n);
            var e := Encounter(tree, Path(p) + n + "/");
            && (e.TooMany? <==> k > 9999)
            && (e.Fresh? ==>
                  && e.path == Path(Key(p, n, k)) && Key(p, n, k) !in tree && Key(p, n, k) in e.tree
                  && e.tree.Keys == tree.Keys + {Key(p, n, k)}
                  && Count(e.tree, p, n) == k + 1)
  {
    hide Encounter, TreeOk, Path, Key;
    EncounterIs(tree, p, n);
  }

  lemma EncounterCounts(tree: Tree, p: seq<string>, n: string, q: seq<string>, m: string)
    requires TreeOk(tree) && p in tree && AllTokens(p) && IsName(n) && IsName(m)
    requires Encounter(tree, Path(p) + n + "/").Fresh?
    ensures var tree' := Encounter(tree, Path(p) + n + "/").tree;
            Count(tree', q, m) == Count(tree, q, m) + if q == p && m == n then 1 else 0
  {
    hide Encounter, TreeOk, Path, Key, AllTokens;
    EncounterIs(tree, p, n);
    KeyInjective(q, m, 0, p, n, 0);
    KeyInjective(q, m, 0, p, n, Count(tree, p, n));
  }

  lemma EncounterKeepsOk(tree: Tree, p: seq<string>, n: string)
    requires TreeOk(tree) && p in tree && AllTokens(p) && IsName(n)
    requires Encounter(tree, Path(p) + n + "/").Fresh?
    ensures TreeOk(Encounter(tree, Path(p) + n + "/").tree)
  {
    var tree' := Encounter(tree, Path(p) + n + "/").tree;
    EncounterChild(tree, p, n);
    forall q: seq<string>, m: string, j: nat {:trigger Key(q, m, j)} | IsName(m)
      ensures Key(q, m, j) in tree' <==> j < Count(tree', q, m)
      ensures Key(q, m, j) in tree' ==> q in tree' && tree'[Key(q, m, j)].leafIndex == j
    {
      EncounterKey(tree, p, n, q, m, j);
    }
  }

  lemma EncounterKey(tree: Tree, p: seq<string>, n: string, q: seq<string>, m: string, j: nat)
    requires TreeOk(tree) && p in tree && AllTokens(p) && IsName(n) && IsName(m)
    requires Encounter(tree, Path(p) + n + "/").Fresh?
    ensures var tree' := Encounter(tree, Path(p) + n + "/").tree;
            && (Key(q, m, j) in tree' <==> j < Count(tree', q, m))
            && (Key(q, m, j) in tree' ==> q in tree' && tree'[Key(q, m, j)].leafIndex == j)
  {
    hide Encounter, Count, Path, Key, AllTokens;
    var k := Count(tree, p, n);
    EncounterIs(tree, p, n);
    EncounterCounts(tree, p, n, q, m);
    KeyInjective(q, m, j, p, n, k);
    KeyInjective(q, m, j, p, n, 0);
    assert Key(q, m, j) in tree <==> j < Count(tree, q, m);
  }

  // ------------------------------------------------------------ rewriting the current path

  /** strrchr: the last position of `c`, or |s|. */
  function LastIndexOf(s: string, c: char): (i: nat)
    ensures i <= |s| && (i < |s| <==> c in s)
    ensures i < |s| ==> s[i] == c && c !in s[i + 1..]
  {
    if s == "" then 0
    else if s[|s| - 1] == c then |s| - 1
    else
      var i := LastIndexOf(s[..|s| - 1], c);
      if i == |s| - 1 then |s|
      else
        assert s[i + 1..] == s[..|s| - 1][i + 1..] + [s[|s| - 1]];
        i
  }

  /** exml_el_end_cb: drops the last index, then the element name, which must be there. */
  function EndElement(elPath: string, elem: string): Option<string>
    requires '[' in elPath
  {
    var cut := elPath[..LastIndexOf(elPath, '[')];
    if |elem| >= |cut| || cut[|cut| - |elem|..] != elem then None else Some(cut[..|cut| - |elem|])
  }

  lemma LastIndexIs(s: string, c: char, i: nat)
    requires i < |s| && s[i] == c && c !in s[i + 1..]
    ensures LastIndexOf(s, c) == i
  {
    var j := LastIndexOf(s, c);
    assert forall x | i < x < |s| :: s[x] == s[i + 1..][x - i - 1] && s[x] != c;
    assert forall x | j < x < |s| :: s[x] == s[j + 1..][x - j - 1] && s[x] != c;
    assert i <= j;
  }

  /** The end callback exactly undoes the start callback. */
  lemma EndUndoesStart(p: seq<string>, n: string, k: nat)
    requires AllTokens(p) && IsName(n)
    ensures '[' in Path(Key(p, n, k)) && EndElement(Path(Key(p, n, k)), n) == Some(Path(p))
  {
    hide LastIndexOf, Path, Key, Dec;
    PathWithSuffix(p, n, k);
    LastIndexAt(Path(p) + n, k);
    var stem := Path(p) + n;
    assert (stem + Suffix(k))[..|stem|] == stem && stem[|stem| - |n|..] == n && stem[..|stem| - |n|] == Path(p);
    assert |Path(p)| > 0 by { KeyTokens(p, n, k); }
  }

  lemma LastIndexAt(stem: string, k: nat)
    ensures var path := stem + Suffix(k); '[' in path && LastIndexOf(path, '[') == |stem|
  {
    hide LastIndexOf;
    var path := stem + Suffix(k);
    assert path[|stem|] == '[';
    assert path[|stem| + 1..] == Dec(k) + "]/";
    LastIndexIs(path, '[', |stem|);
  }

  // ------------------------------------------------------------ documents

  /** The attributes of an element, names with values. */
  type Atts = seq<(string, string)>

  /** What the parser reports. */
  datatype Event =
    | Start(name: string, atts: Atts)
    | Finish(name: string)
    | Data(text: string)

  /** The content of an element: text and child elements in document order. */
  datatype Forest =
    | Nil
    | Text(text: string, rest: Forest)
    | Elem(name: string, atts: Atts, kids: Forest, rest: Forest)

  ghost predicate Named(f: Forest) {
    match f
    case Nil => true
    case Text(_, rest) => Named(rest)
    case Elem(name, _, kids, rest) => IsName(name) && Named(kids) && Named(rest)
  }

  function Events(f: Forest): seq<Event> {
    match f
    case Nil => []
    case Text(text, rest) => [Data(text)] + Events(rest)
    case Elem(name, atts, kids, rest) => [Start(name, atts)] + Events(kids) + [Finish(name)] + Events(rest)
  }

  function Times(counts: map<string, nat>, n: string): nat {
    if n in counts then counts[n] else 0
  }

  /** The paths of a document in document order: the k-th child of one name under one parent has
      index k - 1.  `counts` tells how many of each name came before `f` under this parent. */
  function DocPaths(p: seq<string>, counts: map<string, nat>, f: Forest): seq<string>
    decreases f
  {
    match f
    case Nil => []
    case Text(_, rest) => DocPaths(p, counts, rest)
    case Elem(name, _, kids, rest) =>
      var k := Times(counts, name);
      [Path(Key(p, name, k))] + DocPaths(Key(p, name, k), map[], kids) + DocPaths(p, counts[name := k + 1], rest)
  }

  /** Each piece of text with the path of the element it is directly inside, in document order. */
  function DocTexts(p: seq<string>, counts: map<string, nat>, f: Forest): seq<(string, string)>
    decreases f
  {
    match f
    case Nil => []
    case Text(text, rest) => [(Path(p), text)] + DocTexts(p, counts, rest)
    case Elem(name, _, kids, rest) =>
      var k := Times(counts, name);
      DocTexts(Key(p, name, k), map[], kids) + DocTexts(p, counts[name := k + 1], rest)
  }

  /** Each element's path with its attributes, in document order. */
  function DocOpened(p: seq<string>, counts: map<string, nat>, f: Forest): seq<(string, Atts)>
    decreases f
  {
    match f
    case Nil => []
    case Text(_, rest) => DocOpened(p, counts, rest)
    case Elem(name, atts, kids, rest) =>
      var k := Times(counts, name);
      [(Path(Key(p, name, k)), atts)] + DocOpened(Key(p, name, k), map[], kids)
      + DocOpened(p, counts[name := k + 1], rest)
  }

  /** No parent has more than 10000 children of one name. */
  predicate Within(counts: map<string, nat>, f: Forest)
    decreases f
  {
    match f
    case Nil => true
    case Text(_, rest) => Within(counts, rest)
    case Elem(name, _, kids, rest) =>
      var k := Times(counts, name);
      k <= 9999 && Within(map[], kids) && Within(counts[name := k + 1], rest)
  }

  function CountsAfter(counts: map<string, nat>, f: Forest): map<string, nat>
    decreases f
  {
    match f
    case Nil => counts
    case Text(_, rest) => CountsAfter(counts, rest)
    case Elem(name, _, _, rest) => CountsAfter(counts[name := Times(counts, name) + 1], rest)
  }

  /** What a parse has met: every path opened, the same with attributes, and every text with the path
      of the element it is directly inside. */
  datatype Log = Log(paths: seq<string>, elems: seq<(string, Atts)>, texts: seq<(string, string)>)

  function Plus(a: Log, b: Log): Log {
    Log(a.paths + b.paths, a.elems + b.elems, a.texts + b.texts)
  }

  function Opening(path: string, atts: Atts): Log {
    Log([path], [(path, atts)], [])
  }

  function Seeing(path: string, text: string): Log {
    Log([], [], [(path, text)])
  }

  function DocLog(p: seq<string>, counts: map<string, nat>, f: Forest): Log {
    Log(DocPaths(p, counts, f), DocOpened(p, counts, f), DocTexts(p, counts, f))
  }

  /** `a` is where `b` was at some earlier point. */
  ghost predicate Before(a: Log, b: Log) {
    a.paths <= b.paths && a.elems <= b.elems && a.texts <= b.texts
  }

  lemma PlusAssociates(a: Log, b: Log, c: Log)
    ensures Plus(Plus(a, b), c) == Plus(a, Plus(b, c))
  {
    assert a.paths + b.paths + c.paths == a.paths + (b.paths + c.paths);
    assert a.elems + b.elems + c.elems == a.elems + (b.elems + c.elems);
    assert a.texts + b.texts + c.texts == a.texts + (b.texts + c.texts);
  }

  lemma BeforePlus(a: Log, b: Log, c: Log)
    ensures Before(a, Plus(a, b))
    ensures Before(b, c) ==> Before(Plus(a, b), Plus(a, c))
  {
  }

  lemma BeforeTransitive(a: Log, b: Log, c: Log)
    requires Before(a, b) && Before(b, c)
    ensures Before(a, c)
  {
  }

  lemma SameBefore(a: Log)
    ensures Before(a, a)
  {
  }

  lemma PlusNothing(a: Log, b: Log)
    ensures Plus(a, Log([], [], [])) == a && Plus(Log([], [], []), b) == b
  {
  }

  /** The tree, the current path, what was met so far, and whether parsing was stopped. */
  datatype Cursor = Cursor(tree: Tree, elPath: string, log: Log, stopped: bool)

  function Opened(c: Cursor, tree: Tree, path: string, atts: Atts): Cursor {
    Cursor(tree, path, Plus(c.log, Opening(path, atts)), c.stopped)
  }

  function Step(c: Cursor, e: Event): Cursor {
    if c.stopped then c
    else
      match e
      case Data(text) => c.(log := Plus(c.log, Seeing(c.elPath, text)))
      case Finish(name) =>
        if '[' !in c.elPath then c.(stopped := true)
        else
          var path := EndElement(c.elPath, name);
          if path.None? then c.(stopped := true, elPath := c.elPath[..LastIndexOf(c.elPath, '[')])
          else c.(elPath := path.value)
      case Start(name, atts) =>
        match Encounter(c.tree, c.elPath + name + "/")
        case TooMany(tree) => c.(tree := tree, stopped := true)
        case Fresh(tree, path) => Opened(c, tree, path, atts)
  }

  function Run(c: Cursor, es: seq<Event>): Cursor
    decreases |es|
  {
    if es == [] then c else Run(Step(c, es[0]), es[1..])
  }

  lemma StepGrows(c: Cursor, e: Event)
    ensures Before(c.log, Step(c, e).log)
  {
    hide Encounter, EndElement, LastIndexOf;
  }

  lemma {:induction false} RunGrows(c: Cursor, es: seq<Event>)
    ensures Before(c.log, Run(c, es).log)
    decreases |es|
  {
    hide Step, Before;
    if es == [] {
      SameBefore(c.log);
    } else {
      StepGrows(c, es[0]);
      RunGrows(Step(c, es[0]), es[1..]);
      BeforeTransitive(c.log, Step(c, es[0]).log, Run(c, es).log);
    }
  }

  /** exml_slurp: the root is the only element that gets no index. */
  function Slurped(): Cursor {
    Cursor(Encounter(map[], "/").tree, "/", Log([], [], []), false)
  }

  lemma {:induction false} RunAppend(c: Cursor, a: seq<Event>, b: seq<Event>)
    ensures Run(c, a + b) == Run(Run(c, a), b)
    decreases |a|
  {
    if a == [] {
      assert a + b == b;
    } else {
      assert (a + b)[1..] == a[1..] + b;
      RunAppend(Step(c, a[0]), a[1..], b);
    }
  }

  lemma {:induction false} StoppedStays(c: Cursor, es: seq<Event>)
    requires c.stopped
    ensures Run(c, es) == c
    decreases |es|
  {
    if es != [] {
      StoppedStays(c, es[1..]);
    }
  }

  /** The cursor stands inside element `p`, whose children so far are counted by `counts`. */
  ghost predicate At(c: Cursor, p: seq<string>, counts: map<string, nat>) {
    && !c.stopped && c.elPath == Path(p) && AllTokens(p) && TreeOk(c.tree) && p in c.tree
    && forall n {:trigger Count(c.tree, p, n)} {:trigger Times(counts, n)} | IsName(n) ::
         Count(c.tree, p, n) == Times(counts, n)
  }

  /** Nothing outside the subtree of `p` has changed between the two trees. */
  ghost predicate SameOutside(p: seq<string>, t: Tree, t': Tree) {
    && t.Keys <= t'.Keys
    && forall q: seq<string>, n {:trigger Count(t', q, n)} | IsName(n) && !(p <= q) :: Count(t', q, n) == Count(t, q, n)
  }

  /** Opening a child puts the cursor inside a fresh element without children. */
  lemma OpenChild(c: Cursor, p: seq<string>, counts: map<string, nat>, name: string, atts: Atts)
    requires At(c, p, counts) && IsName(name)
    ensures var k := Times(counts, name);
            var c' := Step(c, Start(name, atts));
            if k > 9999 then c'.stopped && c'.log == c.log
            else
              && At(c', Key(p, name, k), map[])
              && c'.log == Plus(c.log, Opening(Path(Key(p, name, k)), atts))
              && SameOutside(p, c.tree, c'.tree)
              && p in c'.tree
              && forall n {:trigger Count(c'.tree, p, n)} | IsName(n) ::
                   Count(c'.tree, p, n) == Times(counts[name := k + 1], n)
  {
    hide Count, Encounter, TreeOk, Path, Key, Plus;
    var k := Times(counts, name);
    assert k == Count(c.tree, p, name);
    EncounterChild(c.tree, p, name);
    if k <= 9999 {
      var c' := Step(c, Start(name, atts));
      var child := Key(p, name, k);
      EncounterKeepsOk(c.tree, p, name);
      PathOfKey(p, name, k);
      forall q: seq<string>, n | IsName(n)
        ensures Count(c'.tree, q, n) == Count(c.tree, q, n) + if q == p && n == name then 1 else 0
      {
        EncounterCounts(c.tree, p, name, q, n);
      }
      NewHasNoChildren(c.tree, child);
    }
  }

  lemma NewHasNoChildren(tree: Tree, child: seq<string>)
    requires TreeOk(tree) && child !in tree
    ensures forall n | IsName(n) :: Count(tree, child, n) == 0
  {
    forall n | IsName(n)
      ensures Count(tree, child, n) == 0
    {
      assert Key(child, n, 0) in tree ==> child in tree;
    }
  }

  lemma NotBelowChild(p: seq<string>, child: seq<string>, q: seq<string>)
    requires |child| == |p| + 1 && p <= child
    ensures !(child <= p) && (!(p <= q) ==> !(child <= q))
  {
  }

  /** Closing a child whose subtree has been processed puts the cursor back into its parent. */
  lemma CloseChild(c1: Cursor, c2: Cursor, p: seq<string>, counts: map<string, nat>, name: string, k: nat,
                   inner: map<string, nat>)
    requires IsName(name) && AllTokens(p) && p in c1.tree
    requires forall n {:trigger Count(c1.tree, p, n)} | IsName(n) :: Count(c1.tree, p, n) == Times(counts, n)
    requires At(c2, Key(p, name, k), inner) && SameOutside(Key(p, name, k), c1.tree, c2.tree)
    ensures var c3 := Step(c2, Finish(name));
            At(c3, p, counts) && c3.tree == c2.tree && c3.log == c2.log
  {
    EndUndoesStart(p, name, k);
    NotBelowChild(p, Key(p, name, k), p);
    assert forall n | IsName(n) :: Count(c2.tree, p, n) == Count(c1.tree, p, n) == Times(counts, n);
  }

  lemma SameOutsideTrans(p: seq<string>, child: seq<string>, t0: Tree, t1: Tree, t2: Tree, t3: Tree)
    requires |child| == |p| + 1 && p <= child
    requires SameOutside(p, t0, t1) && SameOutside(child, t1, t2) && SameOutside(p, t2, t3)
    ensures SameOutside(p, t0, t3)
  {
    forall q: seq<string>, n | IsName(n) && !(p <= q)
      ensures Count(t3, q, n) == Count(t0, q, n)
    {
      NotBelowChild(p, child, q);
      assert Count(t2, q, n) == Count(t1, q, n) == Count(t0, q, n);
    }
  }

  /** `c'` is where the content `f` of element `p` takes the cursor from `c`. */
  ghost predicate Follows(c: Cursor, p: seq<string>, counts: map<string, nat>, f: Forest, c': Cursor) {
    && (c'.stopped <==> !Within(counts, f))
    && Before(c'.log, Plus(c.log, DocLog(p, counts, f)))
    && (Within(counts, f) ==>
          && At(c', p, CountsAfter(counts, f)) && SameOutside(p, c.tree, c'.tree)
          && c'.log == Plus(c.log, DocLog(p, counts, f)))
  }

  /** Over the events of any content, inside any element: the paths opened are exactly the document's
      paths in document order, and the cursor ends where it began; parsing stops exactly when some
      parent has more than 10000 children of one name. */
  lemma {:induction false} ContentRun(c: Cursor, p: seq<string>, counts: map<string, nat>, f: Forest)
    requires At(c, p, counts) && Named(f)
    ensures Follows(c, p, counts, f, Run(c, Events(f)))
    decreases f, 1
  {
    hide At, SameOutside, DocLog, Plus, Before;
    match f
    case Nil => NoContent(c, p, counts);
    case Text(text, rest) =>
      var c1 := Step(c, Data(text));
      RunAppend(c, [Data(text)], Events(rest));
      RunOne(c, Data(text));
      SeeText(c, p, counts, text);
      ContentRun(c1, p, counts, rest);
      TextFollows(c, p, counts, text, rest, Run(c1, Events(rest)));
    case Elem(name, atts, kids, rest) =>
      ElementRun(c, p, counts, name, atts, kids, rest);
  }

  lemma NoContent(c: Cursor, p: seq<string>, counts: map<string, nat>)
    requires At(c, p, counts)
    ensures Follows(c, p, counts, Nil, c)
  {
    hide TreeOk, Count, AllTokens, Path;
    PlusNothing(c.log, c.log);
  }

  lemma SeeText(c: Cursor, p: seq<string>, counts: map<string, nat>, text: string)
    requires At(c, p, counts)
    ensures At(Step(c, Data(text)), p, counts)
  {
    hide TreeOk, Count, AllTokens, Path;
  }

  lemma TextFollows(c: Cursor, p: seq<string>, counts: map<string, nat>, text: string, rest: Forest, c': Cursor)
    requires At(c, p, counts) && Follows(Step(c, Data(text)), p, counts, rest, c')
    ensures Follows(c, p, counts, Text(text, rest), c')
  {
    hide TreeOk, Count, AllTokens, Path, SameOutside, Before, Plus, DocPaths, DocOpened, DocTexts;
    PlusAssociates(c.log, Seeing(Path(p), text), DocLog(p, counts, rest));
    TextLog(p, counts, text, rest);
  }

  lemma TextLog(p: seq<string>, counts: map<string, nat>, text: string, rest: Forest)
    ensures DocLog(p, counts, Text(text, rest)) == Plus(Seeing(Path(p), text), DocLog(p, counts, rest))
  {
    hide Path;
  }

  lemma ElementLog(p: seq<string>, counts: map<string, nat>, name: string, atts: Atts, kids: Forest, rest: Forest)
    ensures var k := Times(counts, name);
            DocLog(p, counts, Elem(name, atts, kids, rest))
            == Plus(Plus(Opening(Path(Key(p, name, k)), atts), DocLog(Key(p, name, k), map[], kids)),
                    DocLog(p, counts[name := k + 1], rest))
  {
    hide Path, Key, Times;
  }

  lemma RunOne(c: Cursor, e: Event)
    ensures Run(c, [e]) == Step(c, e)
  {
    hide Step;
    assert [e][1..] == [];
    assert Run(Step(c, e), []) == Step(c, e);
  }

  lemma {:induction false} ElementRun(c: Cursor, p: seq<string>, counts: map<string, nat>,
                                      name: string, atts: Atts, kids: Forest, rest: Forest)
    requires At(c, p, counts) && IsName(name) && Named(kids) && Named(rest)
    ensures Follows(c, p, counts, Elem(name, atts, kids, rest), Run(c, Events(Elem(name, atts, kids, rest))))
    decreases Elem(name, atts, kids, rest), 0
  {
    hide At, SameOutside, DocLog, Plus, Before, Step, Key, Path;
    var k := Times(counts, name);
    var child := Key(p, name, k);
    var counts' := counts[name := k + 1];
    var c1 := Step(c, Start(name, atts));
    var c2 := Run(c1, Events(kids));
    var c3 := Step(c2, Finish(name));
    ElementEvents(c, name, atts, kids, rest);
    OpenChild(c, p, counts, name, atts);
    if k > 9999 {
      StoppedStays(c1, Events(kids));
      StoppedStep(c1, Finish(name));
      StoppedStays(c1, Events(rest));
      BeforePlus(c.log, DocLog(p, counts, Elem(name, atts, kids, rest)), c.log);
    } else {
      ContentRun(c1, child, map[], kids);
      if !Within(map[], kids) {
        StoppedStep(c2, Finish(name));
        StoppedStays(c2, Events(rest));
        StoppedInside(c, c1, c2, p, counts, name, atts, kids, rest);
      } else {
        InsideElement(c, p, counts);
        CloseChild(c1, c2, p, counts', name, k, CountsAfter(map[], kids));
        ContentRun(c3, p, counts', rest);
        ElementFollows(c, c1, c2, c3, Run(c3, Events(rest)), p, counts, name, atts, kids, rest);
      }
    }
  }

  lemma InsideElement(c: Cursor, p: seq<string>, counts: map<string, nat>)
    requires At(c, p, counts)
    ensures AllTokens(p)
  {
  }

  lemma StoppedStep(c: Cursor, e: Event)
    requires c.stopped
    ensures Step(c, e) == c
  {
  }

  lemma StoppedInside(c: Cursor, c1: Cursor, c2: Cursor, p: seq<string>, counts: map<string, nat>,
                      name: string, atts: Atts, kids: Forest, rest: Forest)
    requires Times(counts, name) <= 9999 && !Within(map[], kids)
    requires var child := Key(p, name, Times(counts, name));
             && c1.log == Plus(c.log, Opening(Path(child), atts)) && c2.stopped
             && Before(c2.log, Plus(c1.log, DocLog(child, map[], kids)))
    ensures Follows(c, p, counts, Elem(name, atts, kids, rest), c2)
  {
    hide At, SameOutside, DocLog, Plus, Before, Key, Path;
    var child := Key(p, name, Times(counts, name));
    var open, inner := Opening(Path(child), atts), DocLog(child, map[], kids);
    var later := DocLog(p, counts[name := Times(counts, name) + 1], rest);
    ElementLog(p, counts, name, atts, kids, rest);
    PlusAssociates(c.log, open, inner);
    PlusAssociates(c.log, Plus(open, inner), later);
    BeforePlus(Plus(c.log, Plus(open, inner)), later, later);
    BeforeTransitive(c2.log, Plus(c1.log, inner), Plus(c.log, Plus(Plus(open, inner), later)));
  }

  lemma ElementFollows(c: Cursor, c1: Cursor, c2: Cursor, c3: Cursor, c': Cursor, p: seq<string>, counts: map<string, nat>,
                       name: string, atts: Atts, kids: Forest, rest: Forest)
    requires Within(map[], kids) && Times(counts, name) <= 9999
    requires var child := Key(p, name, Times(counts, name));
             && SameOutside(p, c.tree, c1.tree) && SameOutside(child, c1.tree, c2.tree) && c3.tree == c2.tree
             && c1.log == Plus(c.log, Opening(Path(child), atts))
             && c2.log == Plus(c1.log, DocLog(child, map[], kids)) && c3.log == c2.log
    requires Follows(c3, p, counts[name := Times(counts, name) + 1], rest, c')
    ensures Follows(c, p, counts, Elem(name, atts, kids, rest), c')
  {
    hide At, SameOutside, DocLog, Plus, Before, Path;
    var k := Times(counts, name);
    var child := Key(p, name, k);
    var counts' := counts[name := k + 1];
    var open, inner, later := Opening(Path(child), atts), DocLog(child, map[], kids), DocLog(p, counts', rest);
    ElementLog(p, counts, name, atts, kids, rest);
    PlusAssociates(c.log, open, inner);
    PlusAssociates(c.log, Plus(open, inner), later);
    if Within(counts', rest) {
      SameOutsideTrans(p, child, c.tree, c1.tree, c2.tree, c'.tree);
    }
  }

  lemma ElementEvents(c: Cursor, name: string, atts: Atts, kids: Forest, rest: Forest)
    ensures Run(c, Events(Elem(name, atts, kids, rest)))
         == Run(Step(Run(Step(c, Start(name, atts)), Events(kids)), Finish(name)), Events(rest))
  {
    var a, b, d := [Start(name, atts)], Events(kids), [Finish(name)];
    RunAppend(c, a + b + d, Events(rest));
    RunAppend(c, a + b, d);
    RunAppend(c, a, b);
    RunOne(c, Start(name, atts));
    RunOne(Run(Step(c, Start(name, atts)), b), Finish(name));
  }

  // ------------------------------------------------------------ whole documents

  lemma SlurpedAt()
    ensures At(Slurped(), [], map[])
  {
    assert Tokens("/") == [] by { assert "/"[1..] == ""; }
    assert Path([]) == "/";
    var t := Slurped().tree;
    assert t.Keys == {[]};
    forall q: seq<string>, n: string, k: nat {:trigger Key(q, n, k)}
      ensures Key(q, n, k) !in t
    {
      assert |Key(q, n, k)| > 0;
    }
  }

  /** Parsing any document opens its elements under exactly their document paths with their
      attributes, sees each text under the path of the element it is directly inside, and ends at the
      root; it stops exactly when some parent has more than 10000 children of one name, and then has
      met a part of the same. */
  lemma DocumentRun(f: Forest)
    requires Named(f)
    ensures var c := Run(Slurped(), Events(f));
            && (c.stopped <==> !Within(map[], f))
            && Before(c.log, DocLog([], map[], f))
            && (Within(map[], f) ==> c.elPath == "/" && c.log == DocLog([], map[], f))
  {
    hide DocLog, Plus, Before;
    SlurpedAt();
    ContentRun(Slurped(), [], map[], f);
    assert Path([]) == "/";
    PlusNothing(Slurped().log, DocLog([], map[], f));
  }

  // ------------------------------------------------------------ document paths are distinct

  /** `x` is the path of, or below, a child of `p` that `counts` does not cover yet. */
  ghost predicate Ahead(p: seq<string>, counts: map<string, nat>, x: string) {
    exists n: string, k: nat {:trigger Key(p, n, k)} :: IsName(n) && k >= Times(counts, n) && Key(p, n, k) <= Tokens(x)
  }

  lemma AheadIn(p: seq<string>, counts: map<string, nat>, n: string, k: nat, x: string)
    requires IsName(n) && k >= Times(counts, n) && Key(p, n, k) <= Tokens(x)
    ensures Ahead(p, counts, x)
  {
  }

  lemma AheadOfChild(p: seq<string>, counts: map<string, nat>, n: string, k: nat, x: string)
    requires IsName(n) && k >= Times(counts, n) && Ahead(Key(p, n, k), map[], x)
    ensures Ahead(p, counts, x) && Tokens(x) != Key(p, n, k) && Key(p, n, k) <= Tokens(x)
  {
    var m: string, j: nat :| IsName(m) && j >= 0 && Key(Key(p, n, k), m, j) <= Tokens(x);
    assert Key(Key(p, n, k), m, j)[..|p| + 1] == Key(p, n, k);
    AheadIn(p, counts, n, k, x);
  }

  lemma AheadLater(p: seq<string>, counts: map<string, nat>, name: string, x: string)
    requires IsName(name)
    requires var k := Times(counts, name); Ahead(p, counts[name := k + 1], x)
    ensures Ahead(p, counts, x) && !(Key(p, name, Times(counts, name)) <= Tokens(x))
  {
    var k := Times(counts, name);
    var m: string, j: nat :| IsName(m) && j >= Times(counts[name := k + 1], m) && Key(p, m, j) <= Tokens(x);
    AheadIn(p, counts, m, j, x);
    KeyInjective(p, m, j, p, name, k);
    SamePrefix(Key(p, name, k), Key(p, m, j), Tokens(x));
  }

  lemma SamePrefix(a: seq<string>, b: seq<string>, t: seq<string>)
    ensures |a| == |b| && a <= t && b <= t ==> a == b
  {
    if |a| == |b| && a <= t && b <= t {
      assert a == t[..|a|] && b == t[..|a|];
    }
  }

  ghost predicate Distinct(s: seq<string>) {
    forall i, j | 0 <= i < j < |s| :: s[i] != s[j]
  }

  lemma DistinctJoin(x: string, a: seq<string>, b: seq<string>)
    requires Distinct(a) && Distinct(b) && x !in a && x !in b && forall y | y in a :: y !in b
    ensures Distinct([x] + a + b)
  {
    var s := [x] + a + b;
    forall i, j | 0 <= i < j < |s|
      ensures s[i] != s[j]
    {
      if i == 0 {
        assert s[j] in a || s[j] in b;
      } else if i <= |a| {
        assert s[i] == a[i - 1] && (j <= |a| ==> s[j] == a[j - 1]) && (j > |a| ==> s[j] in b);
      } else {
        assert s[i] == b[i - 1 - |a|] && s[j] == b[j - 1 - |a|];
      }
    }
  }

  lemma KidsAndLater(p: seq<string>, counts: map<string, nat>, name: string, inner: seq<string>, later: seq<string>)
    requires AllTokens(p) && IsName(name)
    requires forall x | x in inner :: Ahead(Key(p, name, Times(counts, name)), map[], x)
    requires forall x | x in later :: Ahead(p, counts[name := Times(counts, name) + 1], x)
    ensures var path := Path(Key(p, name, Times(counts, name)));
            && (forall x | x == path || x in inner || x in later :: Ahead(p, counts, x))
            && path !in inner && path !in later && (forall x | x in inner :: x !in later)
  {
    var k := Times(counts, name);
    var child := Key(p, name, k);
    PathOfKey(p, name, k);
    AheadIn(p, counts, name, k, Path(child));
    forall x | x in inner
      ensures Ahead(p, counts, x) && x != Path(child) && child <= Tokens(x)
    {
      AheadOfChild(p, counts, name, k, x);
    }
    forall x | x in later
      ensures Ahead(p, counts, x) && !(child <= Tokens(x))
    {
      AheadLater(p, counts, name, x);
    }
  }

  ghost predicate PathsFine(p: seq<string>, counts: map<string, nat>, paths: seq<string>) {
    Distinct(paths) && forall x | x in paths :: Ahead(p, counts, x)
  }

  lemma ElementDistinct(p: seq<string>, counts: map<string, nat>, name: string, inner: seq<string>, later: seq<string>)
    requires AllTokens(p) && IsName(name)
    requires PathsFine(Key(p, name, Times(counts, name)), map[], inner)
    requires PathsFine(p, counts[name := Times(counts, name) + 1], later)
    ensures PathsFine(p, counts, [Path(Key(p, name, Times(counts, name)))] + inner + later)
  {
    var path := Path(Key(p, name, Times(counts, name)));
    KidsAndLater(p, counts, name, inner, later);
    DistinctJoin(path, inner, later);
    assert forall x | x in [path] + inner + later :: x == path || x in inner || x in later;
  }

  /** No two elements of a document have the same path. */
  lemma {:induction false} DocPathsDistinct(p: seq<string>, counts: map<string, nat>, f: Forest)
    requires AllTokens(p) && Named(f)
    ensures PathsFine(p, counts, DocPaths(p, counts, f))
    decreases f
  {
    hide AllTokens, Tokens, Path, Key;
    match f
    case Nil =>
    case Text(_, rest) => DocPathsDistinct(p, counts, rest);
    case Elem(name, _, kids, rest) =>
      var k := Times(counts, name);
      PathOfKey(p, name, k);
      DocPathsDistinct(Key(p, name, k), map[], kids);
      DocPathsDistinct(p, counts[name := k + 1], rest);
      ElementDistinct(p, counts, name, DocPaths(Key(p, name, k), map[], kids), DocPaths(p, counts[name := k + 1], rest));
  }
}
