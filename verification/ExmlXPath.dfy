/** Search expressions of the XML matcher and how they select element paths: lib/exml.c. */
module ExmlXPath {
  import opened Basics
  import opened Strings
  import opened ExmlPaths

  // ------------------------------------------------------------ matching

  /** A search token selects an equal token; "*" selects any token in a wildcard search; a token
      without an index selects every index of that name. */
  predicate TokenMatch(search: string, tok: string, wildcard: bool) {
    search == tok || (wildcard && search == "*") || ('[' !in search && search == tok[..IndexOf(tok, '[')])
  }

  predicate TokensMatch(search: seq<string>, el: seq<string>, wildcard: bool) {
    |search| == |el| && forall i | 0 <= i < |el| :: TokenMatch(search[i], el[i], wildcard)
  }

  predicate PathMatch(search: string, elPath: string, wildcard: bool) {
    TokensMatch(Tokens(search), Tokens(elPath), wildcard)
  }

  ghost predicate AllIndexed(toks: seq<string>) {
    forall i | 0 <= i < |toks| :: '[' in toks[i]
  }

  /** exml_el_finder_path_cmp: walks both token lists until one of them ends or a pair differs. */
  method FinderPathCmp(search: string, elPath: string, wildcard: bool) returns (matched: bool)
    requires AllIndexed(Tokens(elPath))
    ensures matched <==> PathMatch(search, elPath, wildcard)
  {
    var stok := StrTok(search);
    var etok := StrTok(elPath);
    while stok.Token? && etok.Token?
      invariant AllIndexed(Rest(etok))
      invariant PathMatch(search, elPath, wildcard) <==> TokensMatch(Rest(stok), Rest(etok), wildcard)
      decreases if stok.Token? then |stok.rest| + 1 else 0
    {
      RestCons(stok);
      RestCons(etok);
      MatchHead(Rest(stok), Rest(etok), wildcard);
      if stok.tok != etok.tok && !(wildcard && stok.tok == "*") {
        if '[' in stok.tok {
          return false;
        }
        var sep := IndexOf(etok.tok, '[');
        assert sep < |etok.tok|;
        if stok.tok != etok.tok[..sep] {
          return false;
        }
      }
      stok := StrTok(stok.rest);
      etok := StrTok(etok.rest);
    }
    return stok.End? && etok.End?;
  }

  lemma MatchHead(search: seq<string>, el: seq<string>, wildcard: bool)
    requires search != [] && el != []
    ensures TokensMatch(search, el, wildcard) <==>
              TokenMatch(search[0], el[0], wildcard) && TokensMatch(search[1..], el[1..], wildcard)
  {
    if TokenMatch(search[0], el[0], wildcard) && TokensMatch(search[1..], el[1..], wildcard) {
      forall i | 0 <= i < |el|
        ensures TokenMatch(search[i], el[i], wildcard)
      {
        assert i > 0 ==> search[i] == search[1..][i - 1] && el[i] == el[1..][i - 1];
      }
    }
  }

  /** An unindexed token selects exactly the instances of its name. */
  lemma NameSelects(name: string, n: string, k: nat)
    requires '[' !in name && '[' !in n
    ensures TokenMatch(name, Indexed(n, k), false) <==> name == n
  {
    var t := Indexed(n, k);
    assert t[|n|] == '[';
    assert forall i | 0 <= i < |n| :: t[i] == n[i] != '[';
    assert t[..|n|] == n;
    IndexOfIs(t, '[', |n|);
  }

  /** A search below an indexed path selects only paths below that very element instance. */
  lemma RelativeScope(dir: seq<string>, below: seq<string>, el: seq<string>, wildcard: bool)
    requires AllIndexed(dir) && forall i | 0 <= i < |dir| :: dir[i] != "*"
    ensures TokensMatch(dir + below, el, wildcard) <==> dir <= el && TokensMatch(below, el[|dir|..], wildcard)
  {
    var search := dir + below;
    if TokensMatch(search, el, wildcard) {
      forall i | 0 <= i < |dir|
        ensures el[i] == dir[i]
      {
        assert TokenMatch(search[i], el[i], wildcard);
      }
      forall i | 0 <= i < |below|
        ensures TokenMatch(below[i], el[|dir|..][i], wildcard)
      {
        assert TokenMatch(search[|dir| + i], el[|dir| + i], wildcard);
      }
    }
    if dir <= el && TokensMatch(below, el[|dir|..], wildcard) {
      forall i | 0 <= i < |el|
        ensures TokenMatch(search[i], el[i], wildcard)
      {
        assert i >= |dir| ==> search[i] == below[i - |dir|] && el[i] == el[|dir|..][i - |dir|];
      }
    }
  }

  // ------------------------------------------------------------ parsing search expressions

  /** The first position of "[@", or |s|. */
  function IndexOfAttr(s: string): (i: nat)
    ensures i <= |s| && (i < |s| ==> i + 1 < |s| && s[i] == '[' && s[i + 1] == '@')
    ensures forall j | 0 <= j < i && j + 1 < |s| :: !(s[j] == '[' && s[j + 1] == '@')
  {
    if |s| < 2 then |s| else if s[0] == '[' && s[1] == '@' then 0 else 1 + IndexOfAttr(s[1..])
  }

  /** What exml_xpath_parse fills in. */
  datatype Search = Search(path: string, wildcard: bool, attr: Option<string>)

  function Expand(xp: string, elPath: string): Option<string> {
    if xp == "" || xp[|xp| - 1] == '/' then None
    else if |xp| >= 2 && xp[..2] == "./" then Some(elPath + xp[2..] + "/")
    else if xp[0] != '/' then None
    else Some(xp + "/")
  }

  /** At most one wildcard, and it must be a whole path component. */
  function CheckWildcard(path: string, attr: Option<string>): Option<Search> {
    var star := IndexOf(path, '*');
    if star == |path| then Some(Search(path, false, attr))
    else if star == 0 || star + 1 == |path| || path[star + 1] != '/' || path[star - 1] != '/' then None
    else if '*' in path[star + 1..] then None
    else Some(Search(path, true, attr))
  }

  function ParseXPath(xp: string, elPath: string): Option<Search> {
    var full := Expand(xp, elPath);
    if full.None? then None
    else
      var s := full.value;
      var at := IndexOfAttr(s);
      if at == |s| then CheckWildcard(s, None)
      else
        var attr := s[at + 2..];
        var close := IndexOf(attr, ']');
        if close == |attr| || attr[close..] != "]/" then None
        else CheckWildcard(s[..at] + "/", Some(attr[..close]))
  }

  /** An absolute expression means the same wherever the parser stands. */
  lemma AbsoluteIsFixed(xp: string, elPath: string, elPath': string)
    requires xp != "" && xp[0] == '/'
    ensures ParseXPath(xp, elPath) == ParseXPath(xp, elPath')
  {
    hide CheckWildcard, IndexOfAttr, IndexOf;
    assert Expand(xp, elPath) == Expand(xp, elPath');
  }

  predicate Plain(s: string) {
    s != "" && s[|s| - 1] != '/' && '[' !in s && '*' !in s
  }

  lemma {:induction false} NoAttr(s: string)
    requires forall i | 0 <= i < |s| - 1 :: !(s[i] == '[' && s[i + 1] == '@')
    ensures IndexOfAttr(s) == |s|
  {
    if |s| >= 2 {
      assert !(s[0] == '[' && s[1] == '@');
      forall i | 0 <= i < |s[1..]| - 1
        ensures !(s[1..][i] == '[' && s[1..][i + 1] == '@')
      {
        assert s[1..][i] == s[i + 1] && s[1..][i + 1] == s[i + 2];
      }
      NoAttr(s[1..]);
    }
  }

  lemma NoStar(s: string)
    requires '*' !in s
    ensures IndexOf(s, '*') == |s|
  {
    assert forall i | 0 <= i < |s| :: s[i] in s;
  }

  /** "./name" expressions become the current path followed by that name. */
  lemma RelativeExpands(name: string, elPath: string)
    requires Plain(name) && '*' !in elPath && NoAttrIn(elPath) && elPath != "" && elPath[|elPath| - 1] == '/'
    ensures ParseXPath("./" + name, elPath) == Some(Search(elPath + name + "/", false, None))
  {
    var xp := "./" + name;
    var s := elPath + name + "/";
    assert xp[..2] == "./" && xp[2..] == name && xp[|xp| - 1] == name[|name| - 1];
    assert Expand(xp, elPath) == Some(s);
    forall i | 0 <= i < |s| - 1
      ensures !(s[i] == '[' && s[i + 1] == '@')
    {
      assert i + 1 < |elPath| ==> s[i] == elPath[i] && s[i + 1] == elPath[i + 1];
      assert i + 1 == |elPath| ==> s[i] == '/';
      assert i >= |elPath| ==> s[i] == (name + "/")[i - |elPath|] && s[i] != '[';
    }
    NoAttr(s);
    assert '*' !in s by {
      assert forall c | c in s :: c in elPath || c in name || c == '/';
    }
    NoStar(s);
  }

  ghost predicate NoAttrIn(s: string) {
    forall i | 0 <= i < |s| - 1 :: !(s[i] == '[' && s[i + 1] == '@')
  }

  lemma AbsoluteExpands(xp: string, elPath: string)
    requires Plain(xp) && xp[0] == '/'
    ensures ParseXPath(xp, elPath) == Some(Search(xp + "/", false, None))
  {
    var s := xp + "/";
    assert Expand(xp, elPath) == Some(s);
    assert '[' !in s && '*' !in s;
    NoAttr(s);
    NoStar(s);
  }

  // ------------------------------------------------------------ wildcards and attributes

  /** A search path has no '*', or a single one that is a whole component. */
  ghost predicate StarOk(path: string) {
    '*' in path ==> exists i :: StarAt(path, i)
  }

  ghost predicate StarAt(path: string, i: int) {
    && 0 < i < |path| - 1 && path[i] == '*' && path[i - 1] == '/' && path[i + 1] == '/'
    && forall j | 0 <= j < |path| && j != i :: path[j] != '*'
  }

  lemma NoStarBehind(path: string, i: int)
    requires StarAt(path, i)
    ensures '*' !in path[i + 1..]
  {
    var back := path[i + 1..];
    assert forall j | 0 <= j < |back| :: back[j] == path[i + 1 + j];
  }

  lemma WildcardChecked(path: string, attr: Option<string>)
    ensures CheckWildcard(path, attr) == if StarOk(path) then Some(Search(path, '*' in path, attr)) else None
  {
    var star := IndexOf(path, '*');
    NotFound(path, '*');
    assert forall j | 0 <= j < star :: path[j] == path[..star][j];
    if star < |path| {
      if CheckWildcard(path, attr).Some? {
        assert forall j | star < j < |path| :: path[j] == path[star + 1..][j - star - 1];
        assert StarAt(path, star);
      } else if i :| StarAt(path, i) {
        assert i == star;
        NoStarBehind(path, i);
      }
    }
  }

  lemma {:induction false} AttrIs(base: string, attr: string)
    requires NoAttrIn(base)
    ensures IndexOfAttr(base + "[@" + attr) == |base|
  {
    var s := base + "[@" + attr;
    if base != "" {
      forall i | 0 <= i < |base[1..]| - 1
        ensures !(base[1..][i] == '[' && base[1..][i + 1] == '@')
      {
        assert base[1..][i] == base[i + 1] && base[1..][i + 1] == base[i + 2];
      }
      AttrIs(base[1..], attr);
      assert s[1..] == base[1..] + "[@" + attr;
      assert s[0] == base[0] && s[1] == (base + "[")[1];
    }
  }

  /** Inside an element a "./" expression is the absolute expression that begins with the element's path. */
  lemma RelativeIsAbsolute(name: string, elPath: string)
    requires elPath != "" && elPath[0] == '/'
    ensures ParseXPath("./" + name, elPath) == if name == "" then None else ParseXPath(elPath + name, "/")
  {
    hide CheckWildcard, IndexOfAttr, IndexOf;
    var xp := "./" + name;
    assert xp[..2] == "./" && xp[2..] == name;
    if name != "" {
      assert xp[|xp| - 1] == name[|name| - 1] == (elPath + name)[|elPath + name| - 1];
      assert (elPath + name)[..2][0] == '/';
      assert Expand(xp, elPath) == Expand(elPath + name, "/");
    }
  }

  /** An absolute expression without an attribute is accepted exactly when its wildcard is. */
  lemma PathExpands(xp: string, elPath: string)
    requires xp != "" && xp[0] == '/' && xp[|xp| - 1] != '/' && NoAttrIn(xp)
    ensures ParseXPath(xp, elPath) == if StarOk(xp + "/") then Some(Search(xp + "/", '*' in xp, None)) else None
  {
    hide CheckWildcard, IndexOf;
    var s := xp + "/";
    assert Expand(xp, elPath) == Some(s);
    NoAttr(s);
    WildcardChecked(s, None);
    assert '*' in s <==> '*' in xp;
  }

  /** "path[@name]" searches for the path, and there for the attribute. */
  lemma AttributeExpands(base: string, attr: string, elPath: string)
    requires base != "" && base[0] == '/' && NoAttrIn(base) && ']' !in attr
    ensures ParseXPath(base + "[@" + attr + "]", elPath)
         == if StarOk(base + "/") then Some(Search(base + "/", '*' in base, Some(attr))) else None
  {
    hide CheckWildcard, IndexOf, IndexOfAttr;
    var xp := base + "[@" + attr + "]";
    var s, tail := xp + "/", attr + "]/";
    assert xp[..2][0] == '/' && xp[|xp| - 1] == ']';
    assert Expand(xp, elPath) == Some(s);
    assert s == base + "[@" + tail;
    AttrIs(base, tail);
    assert s[|base| + 2..] == tail && s[..|base|] == base;
    assert tail[|attr|] == ']' && tail[..|attr|] == attr && tail[|attr|..] == "]/";
    IndexOfIs(tail, ']', |attr|);
    WildcardChecked(base + "/", Some(attr));
    assert '*' in base + "/" <==> '*' in base;
  }

  /** Anything else after "[@" is refused: no ']' at all, or text behind the first one. */
  lemma AttributeRefused(base: string, rest: string, elPath: string)
    requires base != "" && base[0] == '/' && NoAttrIn(base) && (rest == "" || ']' !in rest || ']' in rest[..|rest| - 1])
    ensures ParseXPath(base + "[@" + rest, elPath) == None
  {
    hide CheckWildcard, IndexOfAttr, IndexOf;
    var xp := base + "[@" + rest;
    var s, tail := xp + "/", rest + "/";
    assert s == base + "[@" + tail && xp[..2][0] == '/';
    AttrIs(base, tail);
    assert s[|base| + 2..] == tail;
    NotClosedLast(rest);
  }

  lemma NotClosedLast(rest: string)
    requires rest == "" || ']' !in rest || ']' in rest[..|rest| - 1]
    ensures var tail := rest + "/";
            var close := IndexOf(tail, ']');
            close == |tail| || tail[close..] != "]/"
  {
    hide IndexOf;
    var tail := rest + "/";
    var close := IndexOf(tail, ']');
    NotFound(tail, ']');
    if rest != "" && ']' in rest[..|rest| - 1] {
      var i :| 0 <= i < |rest| - 1 && rest[..|rest| - 1][i] == ']';
      assert tail[i] == ']';
      IndexOfAtMost(tail, ']', i);
      assert |tail[close..]| > 2;
    }
  }

  /** A "*" between two paths stands for any one component there, and for nothing else. */
  lemma WildcardSelects(before: string, after: string, elPath: string)
    requires Plain(before) && before[0] == '/' && Plain(after)
    ensures var xp := before + "/*/" + after;
            var s := ParseXPath(xp, "/");
            && s.Some? && s.value.wildcard && s.value.attr.None?
            && var n, el := |Tokens(before)|, Tokens(elPath);
               PathMatch(s.value.path, elPath, true)
               <==> n < |el| && TokensMatch(Tokens(before), el[..n], false) && TokensMatch(Tokens(after), el[n + 1..], false)
  {
    hide ParseXPath, Tokens, TokensMatch, NoAttrIn;
    var xp := before + "/*/" + after;
    StarBetween(before, after);
    PathExpands(xp, "/");
    StarTokens(before, after);
    PlainTokens(before);
    PlainTokens(after);
    OneBetween(Tokens(before), Tokens(after), Tokens(elPath));
  }

  lemma StarBetween(before: string, after: string)
    requires Plain(before) && before[0] == '/' && Plain(after)
    ensures var xp := before + "/*/" + after;
            && StarOk(xp + "/") && '*' in xp && NoAttrIn(xp) && xp[|xp| - 1] != '/' && xp[0] == '/'
  {
    var path := before + "/*/" + after + "/";
    assert path[|before|] == '/' && path[|before| + 1] == '*' && path[|before| + 2] == '/';
    assert (before + "/*/" + after)[|before| + 1] == '*';
    assert forall j | 0 <= j < |before| :: path[j] == before[j];
    assert forall j | 0 <= j < |after| :: path[|before| + 3 + j] == after[j];
    assert StarAt(path, |before| + 1);
    assert '[' !in path;
  }

  lemma StarTokens(before: string, after: string)
    ensures Tokens(before + "/*/" + after + "/") == Tokens(before) + ["*"] + Tokens(after)
  {
    hide Tokens;
    assert before + "/*/" + after + "/" == before + "/" + ("*" + "/" + (after + "/" + ""));
    TokensAppend(before, "*" + "/" + (after + "/" + ""));
    TokensAppend("*", after + "/" + "");
    TokensAppend(after, "");
    TokensOfToken("*");
    NoTokens();
  }

  ghost predicate NoStars(toks: seq<string>) {
    forall i | 0 <= i < |toks| :: toks[i] != "*"
  }

  /** The characters of the tokens are those of the path. */
  lemma {:induction false} PlainTokens(s: string)
    requires '*' !in s
    ensures NoStars(Tokens(s))
    decreases |s|
  {
    if s != "" {
      if s[0] == '/' {
        PlainTokens(s[1..]);
      } else {
        var n := Span(s);
        TokensFirst(s);
        PlainTokens(s[n..]);
        assert s[..n][0] == s[0];
      }
    }
  }

  lemma OneBetween(a: seq<string>, b: seq<string>, el: seq<string>)
    requires NoStars(a) && NoStars(b)
    ensures TokensMatch(a + ["*"] + b, el, true)
            <==> |a| < |el| && TokensMatch(a, el[..|a|], false) && TokensMatch(b, el[|a| + 1..], false)
  {
    hide TokenMatch;
    var s := a + ["*"] + b;
    WithoutStars(a);
    WithoutStars(b);
    if TokensMatch(s, el, true) {
      forall i | 0 <= i < |a|
        ensures TokenMatch(a[i], el[..|a|][i], false)
      {
        assert TokenMatch(s[i], el[i], true);
      }
      forall i | 0 <= i < |b|
        ensures TokenMatch(b[i], el[|a| + 1..][i], false)
      {
        assert TokenMatch(s[|a| + 1 + i], el[|a| + 1 + i], true);
      }
    }
    if |a| < |el| && TokensMatch(a, el[..|a|], false) && TokensMatch(b, el[|a| + 1..], false) {
      forall i | 0 <= i < |el|
        ensures TokenMatch(s[i], el[i], true)
      {
        if i < |a| {
          assert TokenMatch(a[i], el[..|a|][i], false);
        } else if i == |a| {
          StarMatches(el[i]);
        } else {
          assert TokenMatch(b[i - |a| - 1], el[|a| + 1..][i - |a| - 1], false);
        }
      }
    }
  }

  lemma StarMatches(tok: string)
    ensures TokenMatch("*", tok, true)
  {
  }

  lemma WithoutStars(toks: seq<string>)
    requires NoStars(toks)
    ensures forall i, tok {:trigger TokenMatch(toks[i], tok, true)} {:trigger TokenMatch(toks[i], tok, false)} |
              0 <= i < |toks| :: TokenMatch(toks[i], tok, true) <==> TokenMatch(toks[i], tok, false)
  {
  }
}
