/** The parser callbacks of lib/exml.c as they update one document in place. */
module ExmlCode {
  import opened Basics
  import opened Strings
  import opened ExmlPaths
  import opened ExmlXPath
  import opened ExmlFinders
  import opened ExmlTheorems
  import opened ExmlFound
  import opened ExmlWants

  // ------------------------------------------------------------ what an XML parser delivers

  /** The parser closes elements in the order it opened them; `open` are the names open at first, and
      none is open at the end. */
  predicate Balanced(open: seq<string>, es: seq<Event>)
    decreases |es|
  {
    if es == [] then open == []
    else
      match es[0]
      case Start(name, _) => IsName(name) && Balanced(open + [name], es[1..])
      case Finish(name) => open != [] && open[|open| - 1] == name && Balanced(open[..|open| - 1], es[1..])
      case Data(_) => Balanced(open, es[1..])
  }

  lemma BalancedStart(open: seq<string>, name: string, atts: Atts, es: seq<Event>)
    ensures Balanced(open, [Start(name, atts)] + es) <==> IsName(name) && Balanced(open + [name], es)
  {
    assert ([Start(name, atts)] + es)[1..] == es;
  }

  lemma BalancedFinish(open: seq<string>, name: string, es: seq<Event>)
    ensures Balanced(open + [name], [Finish(name)] + es) <==> Balanced(open, es)
  {
    assert ([Finish(name)] + es)[1..] == es && (open + [name])[..|open|] == open;
  }

  lemma BalancedData(open: seq<string>, text: string, es: seq<Event>)
    ensures Balanced(open, [Data(text)] + es) <==> Balanced(open, es)
  {
    assert ([Data(text)] + es)[1..] == es;
  }

  /** The events of any content keep the balance. */
  lemma {:induction false} ContentIsBalanced(open: seq<string>, f: Forest, es: seq<Event>)
    requires Named(f) && Balanced(open, es)
    ensures Balanced(open, Events(f) + es)
    decreases f
  {
    hide Balanced;
    match f
    case Nil => assert Events(f) + es == es;
    case Text(text, rest) =>
      ContentIsBalanced(open, rest, es);
      BalancedData(open, text, Events(rest) + es);
      assert Events(f) + es == [Data(text)] + (Events(rest) + es);
    case Elem(name, atts, kids, rest) =>
      ContentIsBalanced(open, rest, es);
      var after := [Finish(name)] + (Events(rest) + es);
      BalancedFinish(open, name, Events(rest) + es);
      ContentIsBalanced(open + [name], kids, after);
      BalancedStart(open, name, atts, Events(kids) + after);
      assert Events(f) + es == [Start(name, atts)] + (Events(kids) + after);
  }

  lemma DocumentIsBalanced(f: Forest)
    requires Named(f)
    ensures Balanced([], Events(f))
  {
    ContentIsBalanced([], f, []);
    assert Events(f) + [] == Events(f);
  }

  // ------------------------------------------------------------ open elements

  /** An open element: its name, and its index among its namesakes. */
  datatype Level = Level(name: string, index: nat)

  /** The indexed tokens of the open elements, outermost first. */
  function Toks(open: seq<Level>): seq<string> {
    if open == [] then []
    else Key(Toks(open[..|open| - 1]), open[|open| - 1].name, open[|open| - 1].index)
  }

  function Names(open: seq<Level>): seq<string> {
    seq(|open|, i requires 0 <= i < |open| => open[i].name)
  }

  ghost predicate AllNames(open: seq<Level>) {
    forall i | 0 <= i < |open| :: IsName(open[i].name)
  }

  lemma {:induction false} OpenTokens(open: seq<Level>)
    requires AllNames(open)
    ensures AllTokens(Toks(open)) && AllIndexed(Toks(open)) && Tokens(Path(Toks(open))) == Toks(open)
    ensures var path := Path(Toks(open)); path != "" && path[|path| - 1] == '/'
  {
    hide Tokens, IsToken;
    if open == [] {
      assert Path([]) == "/";
      assert Tokens("/") == [] by { RootTokens(); }
    } else {
      var front, last := open[..|open| - 1], open[|open| - 1];
      OpenTokens(front);
      IndexedIsToken(last.name, last.index);
      PathOfKey(Toks(front), last.name, last.index);
      PathEnds(Toks(front), last.name, last.index);
    }
  }

  lemma RootTokens()
    ensures Tokens("/") == []
  {
    assert "/"[1..] == "";
  }

  lemma PathEnds(p: seq<string>, name: string, k: nat)
    ensures var path := Path(Key(p, name, k)); path != "" && path[|path| - 1] == '/'
  {
    PathWithSuffix(p, name, k);
  }

  lemma OpenOne(open: seq<Level>, l: Level)
    ensures Toks(open + [l]) == Key(Toks(open), l.name, l.index)
    ensures Names(open + [l]) == Names(open) + [l.name]
    ensures AllNames(open) && IsName(l.name) ==> AllNames(open + [l])
  {
    assert (open + [l])[..|open|] == open;
  }

  lemma CloseOne(open: seq<Level>)
    requires open != [] && AllNames(open)
    ensures var front, l := open[..|open| - 1], open[|open| - 1];
            && Toks(open) == Key(Toks(front), l.name, l.index) && AllNames(front) && IsName(l.name)
            && Names(front) == Names(open)[..|open| - 1] && Names(open)[|open| - 1] == l.name
  {
    assert Names(open)[..|open| - 1] == Names(open[..|open| - 1]);
  }

  /** The path of an encountered element ends in its indexed token. */
  lemma EncounterOpens(tree: Tree, open: seq<Level>, name: string)
    requires AllNames(open) && IsName(name) && Encounter(tree, Path(Toks(open)) + name + "/").Fresh?
    ensures var k := EncounterIndex(tree, open, name);
            Encounter(tree, Path(Toks(open)) + name + "/").path == Path(Toks(open + [Level(name, k)]))
  {
    hide Tokens, Path, Toks, AllNames, Suffix;
    var k := EncounterIndex(tree, open, name);
    OpenTokens(open);
    OpenOne(open, Level(name, 0));
    OpenOne(open, Level(name, k));
    PathOfKey(Toks(open), name, 0);
    PathOfKey(Toks(open), name, k);
  }

  function EncounterIndex(tree: Tree, open: seq<Level>, name: string): nat {
    var first := Toks(open + [Level(name, 0)]);
    if first !in tree then 0 else tree[first].maxLeaf + 1
  }

  // ------------------------------------------------------------ the document

  class XmlDoc {
    var rootEl: Tree
    var elPath: string
    var finders: seq<Finder>
    var findersValWait: seq<Finder>
    var founders: seq<Finder>
    var numFinders: int
    var foundElPath: map<nat, string>
    var dataHandler: bool
    var parseError: bool
    var calls: nat
    var numCreated: nat
    ghost var open: seq<Level>
    ghost var stopped: bool
    ghost var log: Log
    ghost var created: seq<Finder>
    ghost var fired: seq<(nat, string)>
    ghost var stashed: seq<Stash>
    ghost var handled: seq<Finder>

    ghost function Where(): Cursor
      reads this`rootEl, this`elPath, this`log, this`stopped
    {
      Cursor(rootEl, elPath, log, stopped)
    }

    ghost function Abs(): Doc
      reads this
    {
      Doc(Where(), finders, findersValWait, founders, numFinders, foundElPath,
          created, dataHandler, parseError, calls, fired, stashed, handled)
    }

    ghost predicate Valid()
      reads this`numCreated, this`created
    {
      numCreated == |created|
    }

    /** The current path is that of the open elements. */
    ghost predicate Inside()
      reads this`open, this`elPath, this`stopped
    {
      AllNames(open) && elPath == Path(Toks(open)) && !stopped
    }

    /** exml_slurp, up to the first finder. */
    constructor ()
      ensures Valid() && Inside() && open == [] && Abs() == NewDoc()
    {
      rootEl, elPath := Encounter(map[], "/").tree, "/";
      finders, findersValWait, founders := [], [], [];
      numFinders, foundElPath, dataHandler, parseError, calls, numCreated := 0, map[], false, false, 0, 0;
      open, stopped, log, created, fired, stashed, handled := [], false, Log([], [], []), [], [], [], [];
    }

    /** exml_finder_init. */
    method FinderInit(w: Want) returns (ok: bool)
      requires Valid()
      modifies this`finders, this`numFinders, this`created, this`numCreated
      ensures Valid() && Abs() == AddWant(old(Abs()), w)
      ensures ok <==> ParseXPath(w.xp, elPath).Some?
      ensures !ok ==> finders == old(finders)
      ensures ok ==>
                var search := ParseXPath(w.xp, elPath).value;
                finders == [Finder(old(numCreated), search, w.required, w.kind, w.xp, elPath)] + old(finders)
    {
      hide ParseXPath;
      var search := ParseXPath(w.xp, elPath);
      if search.None? {
        return false;
      }
      Insert(Finder(numCreated, search.value, w.required, w.kind, w.xp, elPath));
      return true;
    }

    /** A new finder goes to the head of the list. */
    method Insert(f: Finder)
      requires Valid()
      modifies this`finders, this`numFinders, this`created, this`numCreated
      ensures Valid() && finders == [f] + old(finders) && numFinders == old(numFinders) + 1
      ensures created == old(created) + [f]
    {
      finders := [f] + finders;
      numFinders := numFinders + 1;
      created, numCreated := created + [f], numCreated + 1;
    }

    /** A callback asks for finders one after the other. */
    method FinderInits(ws: seq<Want>)
      requires Valid()
      modifies this`finders, this`numFinders, this`created, this`numCreated
      ensures Valid() && Abs() == AddWants(old(Abs()), ws)
    {
      var i := 0;
      while i < |ws|
        invariant i <= |ws| && Valid()
        invariant AddWants(old(Abs()), ws) == AddWants(Abs(), ws[i..])
      {
        assert ws[i..][0] == ws[i] && ws[i..][1..] == ws[i + 1..];
        var ok := FinderInit(ws[i]);
        i := i + 1;
      }
    }

    /** exml_finder_val_stash. */
    method ValStash(f: Finder, text: string, ghost attr: bool, o: Oracle) returns (ok: bool)
      requires Valid()
      modifies this`finders, this`numFinders, this`created, this`numCreated, this`calls, this`stashed
      ensures Valid() && Abs() == StashValue(old(Abs()), f, text, attr, o).0
      ensures ok == StashValue(old(Abs()), f, text, attr, o).1
    {
      hide AddWants;
      stashed := stashed + [Stash(f, elPath, text, attr)];
      assert Abs() == Stashed(old(Abs()), f, text, attr);
      if f.kind.Str? {
        return true;
      }
      ok := HandOver(f, text, o);
    }

    /** Converts a value, or hands it to a callback, which may ask for more finders. */
    method HandOver(f: Finder, text: string, o: Oracle) returns (ok: bool)
      requires Valid()
      modifies this`finders, this`numFinders, this`created, this`numCreated, this`calls
      ensures Valid()
      ensures var reply := o(old(calls), f, elPath, Some(text));
              ok == reply.ok
              && Abs() == if f.kind.ValueCb? then AddWants(Called(old(Abs())), reply.wants) else Called(old(Abs()))
    {
      hide AddWants;
      var reply := o(calls, f, elPath, Some(text));
      calls := calls + 1;
      if f.kind.ValueCb? {
        FinderInits(reply.wants);
      }
      return reply.ok;
    }

    method AttrLookup(atts: Atts, attr: string) returns (val: Option<string>)
      ensures val == AttrSearch(atts, attr)
    {
      var i := 0;
      while i < |atts|
        invariant i <= |atts| && AttrSearch(atts, attr) == AttrSearch(atts[i..], attr)
      {
        if atts[i].0 == attr && atts[i].1 != "" {
          return Some(atts[i].1);
        }
        i := i + 1;
      }
      return None;
    }

    /** Takes a finder off the unfound list. */
    method Unlist(f: Finder)
      modifies this`finders, this`numFinders
      ensures finders == Remove(old(finders), f) && numFinders == old(numFinders) - 1
    {
      finders := Remove(finders, f);
      numFinders := numFinders - 1;
    }

    /** Marks a finder as handled and puts it behind the founders. */
    method Handled(f: Finder)
      modifies this`founders, this`handled
      ensures founders == old(founders) + [f] && handled == old(handled) + [f]
    {
      founders := founders + [f];
      handled := handled + [f];
    }

    method MoveToFounders(f: Finder)
      modifies this`finders, this`numFinders, this`founders, this`handled
      ensures Abs() == ToFounders(old(Abs()), f)
    {
      hide Remove;
      Unlist(f);
      Handled(f);
    }

    /** Runs a path callback, which may ask for more finders. */
    method CallBack(f: Finder, cb: nat, o: Oracle) returns (ok: bool)
      requires Valid()
      modifies this`finders, this`numFinders, this`created, this`numCreated, this`calls, this`fired
      ensures Valid()
      ensures var reply := o(old(calls), f, elPath, None);
              ok == reply.ok && Abs() == AddWants(CalledBack(old(Abs()), cb), reply.wants)
    {
      hide AddWants;
      var reply := o(calls, f, elPath, None);
      calls := calls + 1;
      fired := fired + [(cb, elPath)];
      FinderInits(reply.wants);
      return reply.ok;
    }

    /** exml_el_path_found_handle. */
    method PathFoundHandle(f: Finder, atts: Atts, o: Oracle)
      requires Valid()
      modifies this`finders, this`numFinders, this`created, this`numCreated, this`calls, this`fired, this`stashed,
        this`founders, this`handled, this`parseError, this`foundElPath, this`dataHandler, this`findersValWait
      ensures Valid() && Abs() == PathFound(old(Abs()), f, atts, o)
    {
      hide Abs, Valid, AtPath, AddWants, Resolve, FoundAttr, Await, CalledBack;
      MarkFound(f);
      if f.kind.PathCb? {
        PathCall(f, o);
      } else if f.search.attr.Some? {
        AttrFound(f, f.search.attr.value, atts, o);
      } else {
        AwaitValue(f);
      }
    }

    method MarkFound(f: Finder)
      modifies this`foundElPath
      ensures Abs() == AtPath(old(Abs()), f)
    {
      foundElPath := foundElPath[f.id := elPath];
    }

    method PathCall(f: Finder, o: Oracle)
      requires Valid() && f.kind.PathCb?
      modifies this`finders, this`numFinders, this`created, this`numCreated, this`calls, this`fired,
        this`founders, this`handled, this`parseError, this`foundElPath
      ensures Valid()
      ensures var d := old(Abs());
              var reply := o(d.calls, f, d.cursor.elPath, None);
              Abs() == Resolve(AddWants(CalledBack(d, f.kind.cb), reply.wants), f, reply.ok)
    {
      hide AddWants, Resolve, CalledBack;
      var ok := CallBack(f, f.kind.cb, o);
      FinishFound(f, ok);
    }

    method AttrFound(f: Finder, attr: string, atts: Atts, o: Oracle)
      requires Valid()
      modifies this`finders, this`numFinders, this`created, this`numCreated, this`calls, this`stashed,
        this`founders, this`handled, this`parseError, this`foundElPath
      ensures Valid() && Abs() == FoundAttr(old(Abs()), f, attr, atts, o)
    {
      hide StashValue, Resolve, AttrSearch;
      var val := AttrLookup(atts, attr);
      if val.None? {
        foundElPath := foundElPath - {f.id};
        return;
      }
      var ok := ValStash(f, val.value, true, o);
      FinishFound(f, ok);
    }

    /** Enables the data callback and moves the finder to those awaiting a value. */
    method AwaitValue(f: Finder)
      modifies this`dataHandler, this`finders, this`numFinders, this`findersValWait
      ensures Abs() == Await(old(Abs()), f)
    {
      hide Remove;
      dataHandler := true;
      Unlist(f);
      findersValWait := findersValWait + [f];
    }

    method FinishFound(f: Finder, ok: bool)
      modifies this`finders, this`numFinders, this`founders, this`handled, this`parseError, this`foundElPath
      ensures Abs() == Resolve(old(Abs()), f, ok)
    {
      if ok {
        MoveToFounders(f);
      } else {
        parseError := true;
        foundElPath := foundElPath - {f.id};
      }
    }

    /** exml_el_finders_search.  The safe walk visits the finders listed when it starts. */
    method FindersSearch(atts: Atts, o: Oracle)
      requires Valid() && !parseError && AllIndexed(Tokens(elPath))
      modifies this`finders, this`numFinders, this`created, this`numCreated, this`calls, this`fired, this`stashed,
        this`founders, this`handled, this`parseError, this`foundElPath, this`dataHandler, this`findersValWait
      ensures Valid() && Abs() == SearchFinders(old(Abs()), old(finders), atts, o)
    {
      hide SearchFinders, PathFound, PathMatch, AllIndexed, Tokens, Valid;
      var walk := finders;
      var i := 0;
      assert walk[0..] == walk;
      while i < |walk|
        invariant i <= |walk| && Valid() && !parseError && elPath == old(elPath)
        invariant SearchFinders(old(Abs()), walk, atts, o) == SearchFinders(Abs(), walk[i..], atts, o)
      {
        SearchNext(Abs(), walk[i..], atts, o);
        assert walk[i..][0] == walk[i] && walk[i..][1..] == walk[i + 1..];
        var matched := FinderPathCmp(walk[i].search.path, elPath, walk[i].search.wildcard);
        if matched {
          PathFoundHandle(walk[i], atts, o);
          if parseError {
            SearchEnds(Abs(), walk[i + 1..], atts, o);
            return;
          }
        }
        i := i + 1;
      }
      SearchEnds(Abs(), walk[i..], atts, o);
    }

    /** exml_el_encounter: finds or inserts the path at index 0, then inserts it at the next index. */
    method ElEncounter(path: string) returns (ok: bool)
      requires path != "" && path[|path| - 1] == '/'
      modifies this`rootEl, this`elPath
      ensures ok <==> Encounter(old(rootEl), path).Fresh?
      ensures rootEl == Encounter(old(rootEl), path).tree
      ensures elPath == if ok then Encounter(old(rootEl), path).path else old(elPath)
    {
      var stem := path[..|path| - 1];
      var newPath := path;
      if |path| != 1 {
        newPath := stem + Suffix(0);
      }
      if Tokens(newPath) !in rootEl {
        rootEl := rootEl[Tokens(newPath) := El(newPath, 0, 0)];
      } else {
        var el := rootEl[Tokens(newPath)];
        var k := el.maxLeaf + 1;
        rootEl := rootEl[Tokens(newPath) := el.(maxLeaf := k)];
        if |Suffix(k)| >= INDEX_BUFLEN {
          return false;
        }
        newPath := stem + Suffix(k);
        rootEl := rootEl[Tokens(newPath) := El(newPath, k, 0)];
      }
      elPath := newPath;
      return true;
    }

    /** exml_el_start_cb. */
    method StartCb(elem: string, atts: Atts, o: Oracle)
      requires Valid() && Inside() && IsName(elem) && !parseError
      modifies this
      ensures Valid() && Abs() == DocStep(old(Abs()), Start(elem, atts), o)
      ensures if stopped then parseError else Inside() && Names(open) == Names(old(open)) + [elem]
    {
      hide DocStep, SearchFinders, Step, Inside, Names, Valid, AllIndexed, Tokens;
      StartStep(Abs(), elem, atts, o);
      var ok := Enter(elem, atts);
      if ok {
        FindersSearch(atts, o);
      }
    }

    /** The start callback up to the search. */
    method Enter(elem: string, ghost atts: Atts) returns (ok: bool)
      requires Inside() && IsName(elem) && !parseError
      modifies this`dataHandler, this`parseError, this`rootEl, this`elPath, this`log, this`open, this`stopped
      ensures Where() == Step(old(Where()), Start(elem, atts)) && (ok <==> !stopped)
      ensures !dataHandler && parseError == stopped
      ensures ok ==> Inside() && Names(open) == Names(old(open)) + [elem] && AllIndexed(Tokens(elPath))
    {
      hide Step, Inside, Names, AllIndexed, Tokens, Where;
      dataHandler := false;
      ok := EnterElement(elem, atts);
      parseError := !ok;
    }

    /** The new element's path replaces the current one. */
    method EnterElement(elem: string, ghost atts: Atts) returns (ok: bool)
      requires Inside() && IsName(elem)
      modifies this`rootEl, this`elPath, this`log, this`open, this`stopped
      ensures Where() == Step(old(Where()), Start(elem, atts))
      ensures ok <==> !stopped
      ensures ok ==> Inside() && Names(open) == Names(old(open)) + [elem] && AllIndexed(Tokens(elPath))
    {
      hide Step, Encounter, EncounterIndex, AllNames, Toks, Names, Path, Plus, Opening, AllIndexed, Tokens;
      StartCursor(Where(), elem, atts);
      PathNotEmpty(elPath, elem);
      ghost var next := NextLevel(rootEl, open, elem);
      ok := ElEncounter(elPath + elem + "/");
      if ok {
        open, log := next, Plus(log, Opening(elPath, atts));
      } else {
        stopped := true;
      }
    }

    /** exml_el_end_cb: cuts the path at its last index and drops the element name before it. */
    method EndCb(elem: string, ghost o: Oracle)
      requires Valid() && Inside() && open != [] && !parseError
      modifies this`elPath, this`parseError, this`open, this`stopped
      ensures Valid() && Abs() == DocStep(old(Abs()), Finish(elem), o)
      ensures elem == old(open)[|old(open)| - 1].name ==>
                Inside() && open == old(open)[..|old(open)| - 1] && !parseError
    {
      hide DocStep, Step, EndElement, LastIndexOf, AllNames, Toks, Names, Path;
      ghost var front := Closing(open);
      FinishStep(Abs(), elem, o);
      FinishCursor(Where(), elem);
      open := front;
      var ok := CutPath(elem);
      parseError, stopped := !ok, !ok;
      assert Where() == Step(old(Where()), Finish(elem));
    }

    method CutPath(elem: string) returns (ok: bool)
      requires '[' in elPath
      modifies this`elPath
      ensures var path := EndElement(old(elPath), elem);
              && (ok <==> path.Some?)
              && elPath == if ok then path.value else old(elPath)[..LastIndexOf(old(elPath), '[')]
    {
      var tok := LastIndexOf(elPath, '[');
      elPath := elPath[..tok];
      var pathLen := |elPath|;
      if |elem| >= pathLen || elPath[pathLen - |elem|..] != elem {
        return false;
      }
      elPath := elPath[..pathLen - |elem|];
      return true;
    }

    /** Stashes the text for one waiting finder and moves it to the founders. */
    method TakeValue(f: Finder, content: string, o: Oracle) returns (ok: bool)
      requires Valid() && !parseError
      modifies this`finders, this`numFinders, this`created, this`numCreated, this`calls, this`stashed,
        this`founders, this`handled, this`parseError, this`findersValWait
      ensures Valid()
      ensures ok == StashValue(old(Abs()), f, content, false, o).1
      ensures ok ==> Abs() == ValueTaken(StashValue(old(Abs()), f, content, false, o).0, f)
      ensures !ok ==> Abs() == StashValue(old(Abs()), f, content, false, o).0.(failed := true)
      ensures parseError == !ok
    {
      hide StashValue, Remove;
      ok := ValStash(f, content, false, o);
      if !ok {
        parseError := true;
        return;
      }
      findersValWait := Remove(findersValWait, f);
      Handled(f);
    }

    /** exml_el_data_cb, which the parser calls only while the data handler is set. */
    method DataCb(content: string, o: Oracle)
      requires Valid() && dataHandler && !parseError && !stopped
      modifies this`finders, this`numFinders, this`created, this`numCreated, this`calls, this`stashed,
        this`founders, this`handled, this`parseError, this`findersValWait, this`log
      ensures Valid() && Abs() == DocStep(old(Abs()), Data(content), o)
    {
      hide DocStep, TakeText, StashValue, ValueTaken, Plus, Seeing, Valid;
      TextStep(Abs(), content, o);
      log := Plus(log, Seeing(elPath, content));
      ghost var start := Abs();
      var walk := findersValWait;
      var i := 0;
      assert walk[0..] == walk;
      while i < |walk|
        invariant i <= |walk| && Valid() && !parseError
        invariant TakeText(start, walk, content, o) == TakeText(Abs(), walk[i..], content, o)
      {
        var f := walk[i];
        TextNext(Abs(), walk[i..], content, o);
        assert walk[i..][0] == f && walk[i..][1..] == walk[i + 1..];
        if f.id in foundElPath && foundElPath[f.id] == elPath {
          var ok := TakeValue(f, content, o);
          if !ok {
            return;
          }
        }
        i := i + 1;
      }
      NoneWaits(Abs(), walk[i..], content, o);
    }

    /** What XML_Parse does at the next event. */
    method NextEvent(events: seq<Event>, o: Oracle)
      requires Valid() && Inside() && !parseError && events != [] && Balanced(Names(open), events)
      modifies this
      ensures Valid() && Abs() == DocStep(old(Abs()), events[0], o)
      ensures !parseError ==> Inside() && Balanced(Names(open), events[1..])
    {
      hide Abs, DocStep, Names, Toks, AllNames, Path, Balanced, Valid;
      BalancedNext(open, events);
      match events[0] {
        case Start(name, atts) =>
          StartCb(name, atts, o);
        case Finish(name) =>
          EndCb(name, o);
        case Data(text) =>
          TextEvent(text, o);
      }
    }

    /** Text is dropped while no data handler is set. */
    method TextEvent(text: string, o: Oracle)
      requires Valid() && !parseError && !stopped
      modifies this`finders, this`numFinders, this`created, this`numCreated, this`calls, this`stashed,
        this`founders, this`handled, this`parseError, this`findersValWait, this`log
      ensures Valid() && Abs() == DocStep(old(Abs()), Data(text), o)
    {
      hide DocStep;
      if dataHandler {
        DataCb(text, o);
      } else {
        Unheard(Abs(), text, o);
        log := Plus(log, Seeing(elPath, text));
      }
    }

    /** XML_Parse, which delivers nothing more once parsing was stopped. */
    method Deliver(events: seq<Event>, o: Oracle)
      requires Valid() && Inside() && !parseError && Balanced(Names(open), events)
      modifies this
      ensures Valid() && Abs() == DocRun(old(Abs()), events, o)
    {
      hide DocStep, Names, AllNames, Toks, Balanced;
      var i := 0;
      assert events[0..] == events;
      while i < |events| && !parseError
        invariant i <= |events| && Valid()
        invariant DocRun(old(Abs()), events, o) == DocRun(Abs(), events[i..], o)
        invariant !parseError ==> Inside() && Balanced(Names(open), events[i..])
        decreases |events| - i
      {
        ghost var before := Abs();
        assert events[i..][0] == events[i] && events[i..][1..] == events[i + 1..];
        NextEvent(events[i..], o);
        i := i + 1;
      }
      if parseError {
        FailedStays(Abs(), events[i..], o);
      }
    }

    /** exml_finders_walk_free with its check: stops at the first required finder that was not handled,
        and otherwise drops every finder. */
    method WalkFree(checkRequired: bool) returns (ret: int)
      requires numFinders == |finders|
      modifies this`finders, this`findersValWait, this`founders, this`numFinders
      ensures numFinders == |finders|
      ensures ret == 0 || ret == -ENOENT
      ensures ret == 0 <==> !checkRequired || (!AnyRequired(old(finders)) && !AnyRequired(old(findersValWait)))
      ensures ret == 0 ==> finders == [] && findersValWait == [] && founders == [] && numFinders == 0
    {
      ghost var all := finders;
      while finders != []
        invariant findersValWait == old(findersValWait)
        invariant numFinders == |finders| <= |all| && finders == all[|all| - |finders|..]
        invariant checkRequired ==> forall i | 0 <= i < |all| - |finders| :: !all[i].required
        decreases |finders|
      {
        if checkRequired && finders[0].required {
          return -ENOENT;
        }
        finders := finders[1..];
        numFinders := numFinders - 1;
      }
      ghost var waiting := findersValWait;
      while findersValWait != []
        invariant finders == [] && numFinders == 0 && (checkRequired ==> !AnyRequired(all))
        invariant |findersValWait| <= |waiting| && findersValWait == waiting[|waiting| - |findersValWait|..]
        invariant checkRequired ==> forall i | 0 <= i < |waiting| - |findersValWait| :: !waiting[i].required
        decreases |findersValWait|
      {
        if checkRequired && findersValWait[0].required {
          assert waiting[|waiting| - |findersValWait|].required;
          return -ENOENT;
        }
        findersValWait := findersValWait[1..];
      }
      while founders != []
        invariant finders == [] && numFinders == 0 && (checkRequired ==> !AnyRequired(all))
        invariant findersValWait == [] && (checkRequired ==> !AnyRequired(waiting))
        decreases |founders|
      {
        founders := founders[1..];
      }
      return 0;
    }

    /** exml_parse once the parser has returned. */
    method ParseEnd() returns (ret: int)
      requires numFinders == |finders|
      modifies this`finders, this`findersValWait, this`founders, this`numFinders
      ensures ret == ParseResult(old(Abs()))
      ensures ret == 0 ==> finders == [] && findersValWait == [] && founders == [] && numFinders == 0
    {
      if parseError {
        return -EIO;
      }
      ret := WalkFree(true);
    }

    /** exml_parse of a document whose events the parser delivers. */
    method Parse(events: seq<Event>, o: Oracle) returns (ret: int, ghost d: Doc)
      requires Valid() && Inside() && !parseError && Balanced(Names(open), events)
      requires DocOk(Abs()) && Sourced(Abs())
      modifies this
      ensures d == DocRun(old(Abs()), events, o) && ret == ParseResult(d) && stashed == d.stashed
      ensures ret == 0 ==> finders == [] && findersValWait == [] && founders == [] && numFinders == 0
    {
      hide DocOk, Sourced, DocRun, AnyRequired, Names, Balanced;
      Lifecycle(Abs(), events, o);
      Deliver(events, o);
      d := Abs();
      ret := ParseEnd();
    }
  }

  lemma BalancedNext(open: seq<Level>, events: seq<Event>)
    requires AllNames(open) && events != [] && Balanced(Names(open), events)
    ensures match events[0]
            case Start(name, _) => IsName(name) && Balanced(Names(open) + [name], events[1..])
            case Finish(name) => open != [] && open[|open| - 1].name == name
                                 && Balanced(Names(open[..|open| - 1]), events[1..])
            case Data(_) => Balanced(Names(open), events[1..])
  {
    if open != [] {
      CloseOne(open);
    }
  }

  /** What closing the last element leaves open. */
  lemma Closing(open: seq<Level>) returns (front: seq<Level>)
    requires AllNames(open) && open != []
    ensures front == open[..|open| - 1] && AllNames(front)
    ensures '[' in Path(Toks(open))
    ensures EndElement(Path(Toks(open)), open[|open| - 1].name) == Some(Path(Toks(front)))
  {
    hide EndElement, Path, Toks, Names, AllNames;
    CloseOne(open);
    front := open[..|open| - 1];
    OpenTokens(front);
    EndUndoesStart(Toks(front), open[|open| - 1].name, open[|open| - 1].index);
  }

  /** The open elements once `name` has been opened inside `open`. */
  lemma NextLevel(tree: Tree, open: seq<Level>, name: string) returns (next: seq<Level>)
    requires AllNames(open) && IsName(name)
    ensures AllNames(next) && Names(next) == Names(open) + [name]
    ensures AllIndexed(Tokens(Path(Toks(next))))
    ensures var e := Encounter(tree, Path(Toks(open)) + name + "/"); e.Fresh? ==> e.path == Path(Toks(next))
  {
    hide Encounter, EncounterIndex, AllNames, Toks, Names, Path, AllIndexed, Tokens;
    var level := Level(name, EncounterIndex(tree, open, name));
    next := open + [level];
    OpenOne(open, level);
    OpenTokens(next);
    if Encounter(tree, Path(Toks(open)) + name + "/").Fresh? {
      EncounterOpens(tree, open, name);
    }
  }

  lemma StartCursor(c: Cursor, name: string, atts: Atts)
    requires !c.stopped
    ensures var e := Encounter(c.tree, c.elPath + name + "/");
            Step(c, Start(name, atts))
            == if e.Fresh? then Cursor(e.tree, e.path, Plus(c.log, Opening(e.path, atts)), false)
               else Cursor(e.tree, c.elPath, c.log, true)
  {
    hide Encounter, Plus, Opening;
  }

  lemma SearchNext(d: Doc, todo: seq<Finder>, atts: Atts, o: Oracle)
    requires todo != [] && !d.failed
    ensures var f := todo[0];
            SearchFinders(d, todo, atts, o)
            == SearchFinders(if PathMatch(f.search.path, d.cursor.elPath, f.search.wildcard) then PathFound(d, f, atts, o)
                             else d, todo[1..], atts, o)
  {
    hide PathFound, PathMatch;
  }

  lemma SearchEnds(d: Doc, todo: seq<Finder>, atts: Atts, o: Oracle)
    requires todo == [] || d.failed
    ensures SearchFinders(d, todo, atts, o) == d
  {
  }

  lemma TextNext(d: Doc, todo: seq<Finder>, text: string, o: Oracle)
    requires todo != [] && !d.failed
    ensures var f := todo[0];
            var (d1, ok) := StashValue(d, f, text, false, o);
            TakeText(d, todo, text, o)
            == if !WaitsHere(d, f) then TakeText(d, todo[1..], text, o)
               else if !ok then d1.(failed := true)
               else TakeText(ValueTaken(d1, f), todo[1..], text, o)
  {
    hide StashValue, ValueTaken;
  }

  lemma NoneWaits(d: Doc, todo: seq<Finder>, text: string, o: Oracle)
    requires todo == []
    ensures TakeText(d, todo, text, o) == d
  {
  }

  lemma TextStep(d: Doc, text: string, o: Oracle)
    requires !d.failed && !d.cursor.stopped && d.listening
    ensures var d1 := d.(cursor := d.cursor.(log := Plus(d.cursor.log, Seeing(d.cursor.elPath, text))));
            DocStep(d, Data(text), o) == TakeText(d1, d1.waiting, text, o)
  {
    hide TakeText, Plus, Seeing;
  }

  lemma StartStep(d: Doc, elem: string, atts: Atts, o: Oracle)
    requires !d.failed
    ensures var d1 := d.(cursor := Step(d.cursor, Start(elem, atts)), listening := false);
            DocStep(d, Start(elem, atts), o)
            == if d1.cursor.stopped then d1.(failed := true) else SearchFinders(d1, d1.finders, atts, o)
  {
    hide Step, SearchFinders;
  }

  lemma FinishStep(d: Doc, elem: string, o: Oracle)
    requires !d.failed
    ensures var c := Step(d.cursor, Finish(elem)); DocStep(d, Finish(elem), o) == d.(cursor := c, failed := c.stopped)
  {
    hide Step;
  }

  lemma FinishCursor(c: Cursor, elem: string)
    requires !c.stopped && '[' in c.elPath
    ensures var path := EndElement(c.elPath, elem);
            Step(c, Finish(elem))
            == if path.None? then Cursor(c.tree, c.elPath[..LastIndexOf(c.elPath, '[')], c.log, true)
               else Cursor(c.tree, path.value, c.log, false)
  {
    hide EndElement, LastIndexOf;
  }

  lemma PathNotEmpty(elPath: string, elem: string)
    ensures var path := elPath + elem + "/"; path != "" && path[|path| - 1] == '/'
  {
  }

  lemma Unheard(d: Doc, text: string, o: Oracle)
    requires !d.failed && !d.cursor.stopped && !d.listening
    ensures DocStep(d, Data(text), o) == d.(cursor := d.cursor.(log := Plus(d.cursor.log, Seeing(d.cursor.elPath, text))))
  {
  }

  /** A caller's whole use of the matcher on a document: it asks for `ws` and parses.  The result is 0
      exactly when parsing was not stopped and every required finder, also of those that callbacks asked
      for, was handled; every value handed to a finder is the finder's own; and, unless parsing was
      stopped, whoever asked for a text or an attribute that the document has was handed it. */
  method ParseDocument(ws: seq<Want>, f: Forest, o: Oracle) returns (ret: int, x: XmlDoc, ghost d: Doc)
    requires Named(f)
    ensures fresh(x) && d == Parsed(ws, f, o) && ret == ParseResult(d) && x.stashed == d.stashed
    ensures ret == 0 <==> !d.failed && forall g | g in d.created && g.required :: g in d.founders
    ensures forall s | s in x.stashed :: Own(f, s)
    ensures forall k: nat, i: nat | !d.failed && k < |ws| && TextThere(ws[k], f, i) ::
              TextReached(d, ws[k], f, i)
    ensures forall k: nat, i: nat, n: nat | !d.failed && k < |ws| && AttrThere(ws[k], f, i, n) ::
              AttrReached(d, ws[k], f, i, n)
    ensures (forall w | w in ws :: w.kind.Str?) && Within(map[], f) ==>
              ret == 0 || exists w | w in ws && w.required :: !There(w, f)
  {
    hide DocOk, Sourced, DocRun, Balanced, Own, AnyRequired, TextThere, AttrThere, TextReached, AttrReached, There;
    hide Within, DocOpened, DocPaths, DocLeads;
    x := new XmlDoc();
    x.FinderInits(ws);
    BeginOk(ws);
    DocumentIsBalanced(f);
    assert Names(x.open) == [];
    ret, d := x.Parse(Events(f), o);
    SucceedsExactlyWhenFound(ws, Events(f), o);
    forall s | s in x.stashed
      ensures Own(f, s)
    {
      KeptTextIsOwn(ws, f, o, s);
    }
    if !d.failed {
      WantsAreServed(ws, f, o);
    }
    if (forall w | w in ws :: w.kind.Str?) {
      StringsAreParsed(ws, f, o);
    }
  }
}
