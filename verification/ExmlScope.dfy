/** Relative finders: what "./name", asked for inside an element, can find. */
module ExmlScope {
  import opened Basics
  import opened Strings
  import opened ExmlPaths
  import opened ExmlXPath
  import opened ExmlFinders
  import opened ExmlTheorems

  ghost predicate IsIndexed(t: string) {
    exists n: string, k: nat :: IsName(n) && t == Indexed(n, k)
  }

  /** The tokens of an element path. */
  ghost predicate ElementToks(toks: seq<string>) {
    forall i | 0 <= i < |toks| :: IsIndexed(toks[i])
  }

  /** The paths are those of elements, and can be told from their tokens. */
  ghost predicate ElementPaths(paths: seq<string>) {
    forall x | x in paths :: ElementToks(Tokens(x)) && x == Path(Tokens(x))
  }

  lemma ElementPathsJoin(x: string, inner: seq<string>, later: seq<string>)
    requires ElementPaths(inner) && ElementPaths(later) && ElementToks(Tokens(x)) && x == Path(Tokens(x))
    ensures ElementPaths([x] + inner + later)
  {
  }

  lemma ChildToks(p: seq<string>, name: string, k: nat)
    requires ElementToks(p) && AllTokens(p) && IsName(name)
    ensures ElementToks(Key(p, name, k)) && AllTokens(Key(p, name, k)) && Tokens(Path(Key(p, name, k))) == Key(p, name, k)
  {
    hide Path, Tokens, IsToken;
    PathOfKey(p, name, k);
    assert IsIndexed(Indexed(name, k));
  }

  /** Every path of a document is made of indexed tokens. */
  lemma {:induction false} DocPathsAreIndexed(p: seq<string>, counts: map<string, nat>, f: Forest)
    requires ElementToks(p) && AllTokens(p) && Named(f)
    ensures ElementPaths(DocPaths(p, counts, f))
    decreases f
  {
    hide ElementToks, AllTokens, Tokens, Path, Key;
    match f
    case Nil =>
    case Text(_, rest) => DocPathsAreIndexed(p, counts, rest);
    case Elem(name, _, kids, rest) =>
      var k := Times(counts, name);
      var child := Key(p, name, k);
      ChildToks(p, name, k);
      DocPathsAreIndexed(child, map[], kids);
      DocPathsAreIndexed(p, counts[name := k + 1], rest);
      ElementPathsJoin(Path(child), DocPaths(child, map[], kids), DocPaths(p, counts[name := k + 1], rest));
  }

  lemma ElementTokFacts(n: string, k: nat)
    requires IsName(n)
    ensures var t := Indexed(n, k);
            && IsToken(t) && '[' in t && t != "*" && '*' !in t
            && NoAttrIn(t + "/")
  {
    var t := Indexed(n, k) + "/";
    var digits := Dec(k);
    IndexedIsToken(n, k);
    assert forall i | 0 <= i < |n| :: t[i] == n[i] && n[i] in n;
    assert t[|n|] == '[';
    assert forall i | 0 <= i < |digits| :: t[|n| + 1 + i] == digits[i] && digits[i] in digits;
    assert t[|n| + 1 + |digits|] == ']';
    assert forall c | c in Indexed(n, k) :: c in n || c == '[' || c in digits || c == ']';
  }

  lemma NoAttrJoins(p: string, t: string)
    requires NoAttrIn(p) && NoAttrIn(t) && p != "" && p[|p| - 1] == '/'
    ensures NoAttrIn(p + t)
  {
    forall i | 0 <= i < |p + t| - 1
      ensures !((p + t)[i] == '[' && (p + t)[i + 1] == '@')
    {
      if i + 1 < |p| {
        assert (p + t)[i] == p[i] && (p + t)[i + 1] == p[i + 1];
      } else if i >= |p| {
        assert (p + t)[i] == t[i - |p|] && (p + t)[i + 1] == t[i + 1 - |p|];
      }
    }
  }

  lemma ElementToksSplit(toks: seq<string>)
    requires ElementToks(toks) && toks != []
    ensures ElementToks(toks[..|toks| - 1])
    ensures var t := toks[|toks| - 1]; IsToken(t) && '[' in t && t != "*" && '*' !in t && NoAttrIn(t + "/")
  {
    assert IsIndexed(toks[|toks| - 1]);
    var n: string, k: nat :| IsName(n) && toks[|toks| - 1] == Indexed(n, k);
    ElementTokFacts(n, k);
  }

  lemma {:induction false} ElementPathFacts(toks: seq<string>)
    requires ElementToks(toks)
    ensures AllTokens(toks) && AllIndexed(toks) && (forall i | 0 <= i < |toks| :: toks[i] != "*")
    ensures '*' !in Path(toks) && NoAttrIn(Path(toks)) && Path(toks)[|Path(toks)| - 1] == '/'
  {
    hide NoAttrIn, ElementToks, IsToken;
    if toks == [] {
      assert Path(toks) == "/";
      assert NoAttrIn("/") by { OneCharacter(); }
    } else {
      var front, t := toks[..|toks| - 1], toks[|toks| - 1];
      ElementToksSplit(toks);
      ElementPathFacts(front);
      assert Path(toks) == Path(front) + (t + "/");
      NoAttrJoins(Path(front), t + "/");
      assert toks == front + [t];
    }
  }

  lemma OneCharacter()
    ensures NoAttrIn("/")
  {
  }

  lemma RelativeParses(toks: seq<string>, name: string)
    requires ElementToks(toks) && Plain(name)
    ensures ParseXPath("./" + name, Path(toks)) == Some(Search(Path(toks) + name + "/", false, None))
    ensures Tokens(Path(toks) + name + "/") == toks + Tokens(name)
  {
    ElementPathFacts(toks);
    RelativeExpands(name, Path(toks));
    TokensOfPath(toks);
    RelativeTokens(Path(toks), name);
  }

  lemma RelativeTokens(dir: string, name: string)
    requires dir != "" && dir[|dir| - 1] == '/'
    ensures Tokens(dir + name + "/") == Tokens(dir) + Tokens(name)
  {
    TokensAppend(dir + name, "");
    TokensAfterClosed(dir, name);
    assert dir + name + "/" + "" == dir + name + "/";
  }

  /** A "./name" finder asked for inside an element selects exactly the paths that lead from that very
      element instance to `name`: nothing inside any other element. */
  lemma RelativeFinderScope(toks: seq<string>, name: string, elPath: string)
    requires ElementToks(toks) && Plain(name)
    ensures ParseXPath("./" + name, Path(toks)).Some?
    ensures var s := ParseXPath("./" + name, Path(toks)).value;
            PathMatch(s.path, elPath, s.wildcard)
            <==> (toks <= Tokens(elPath) && TokensMatch(Tokens(name), Tokens(elPath)[|toks|..], false))
  {
    ElementPathFacts(toks);
    RelativeParses(toks, name);
    RelativeScope(toks, Tokens(name), Tokens(elPath), false);
  }

  /** Whenever and wherever a "./name" finder is asked for in a parse, each value it takes comes from
      inside the very element instance at which it was asked for, at `name` below it. */
  lemma RelativeStaysInside(ws: seq<Want>, f: Forest, o: Oracle, s: Stash, name: string)
    requires Named(f) && s in Parsed(ws, f, o).stashed && s.finder.xp == "./" + name && Plain(name)
    ensures var dir := Tokens(s.finder.askedAt);
            && (s.finder.askedAt == "/" || s.finder.askedAt in DocPaths([], map[], f))
            && dir <= Tokens(s.elPath) && TokensMatch(Tokens(name), Tokens(s.elPath)[|dir|..], false)
  {
    hide Parsed, PathMatch, TokensMatch, ParseXPath, DocPaths, ElementToks, DocOpened, DocTexts, Plain;
    var at := s.finder.askedAt;
    TakerAsked(ws, f, o, s);
    SearchesAreAsked(ws, f, o, s.finder);
    KeptTextIsOwn(ws, f, o, s);
    AskedPath(f, at);
    RelativeFinderScope(Tokens(at), name, s.elPath);
  }

  /** Where a finder can be asked for: the root, or an element of the document. */
  lemma AskedPath(f: Forest, at: string)
    requires Named(f) && (at == "/" || at in DocPaths([], map[], f))
    ensures ElementToks(Tokens(at)) && at == Path(Tokens(at))
  {
    hide DocPaths;
    DocPathsAreIndexed([], map[], f);
    assert Tokens("/") == [] by { assert "/"[1..] == ""; }
  }
}
