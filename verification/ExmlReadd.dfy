/** Path callbacks that ask again for their own path: the way lists of any length are collected. */
module ExmlReadd {
  import opened Basics
  import opened Strings
  import opened ExmlPaths
  import opened ExmlXPath
  import opened ExmlFinders
  import opened ExmlTheorems

  /** The finders of callback `c` on a list. */
  function Watchers(l: seq<Finder>, c: nat): seq<Finder> {
    if l == [] then [] else (if l[0].kind == PathCb(c) then [l[0]] else []) + Watchers(l[1..], c)
  }

  function Asks(ws: seq<Want>, c: nat): seq<Want> {
    if ws == [] then [] else (if ws[0].kind == PathCb(c) then [ws[0]] else []) + Asks(ws[1..], c)
  }

  /** The paths at which callback `c` fired, in order. */
  function Firings(log: seq<(nat, string)>, c: nat): seq<string> {
    if log == [] then []
    else Firings(log[..|log| - 1], c) + if log[|log| - 1].0 == c then [log[|log| - 1].1] else []
  }

  /** The paths a search selects, in order. */
  function Selected(paths: seq<string>, s: Search): seq<string> {
    if paths == [] then []
    else
      Selected(paths[..|paths| - 1], s)
      + if PathMatch(s.path, paths[|paths| - 1], s.wildcard) then [paths[|paths| - 1]] else []
  }

  /** Callback `c` asks exactly once for its own path `xp` whenever it runs, and nobody else asks for it. */
  ghost predicate ReAsks(o: Oracle, c: nat, xp: string) {
    forall n: nat, f: Finder, path: string, text: Option<string> {:trigger o(n, f, path, text)} ::
      var asks := Asks(o(n, f, path, text).wants, c);
      if f.kind == PathCb(c) && text.None? then |asks| == 1 && asks[0].xp == xp else asks == []
  }

  ghost predicate Watch(d: Doc, c: nat, s: Search) {
    |Watchers(d.finders, c)| == 1 && Watchers(d.finders, c)[0].search == s
  }

  // ------------------------------------------------------------ lists

  lemma WatchersCons(f: Finder, l: seq<Finder>, c: nat)
    ensures Watchers([f] + l, c) == (if f.kind == PathCb(c) then [f] else []) + Watchers(l, c)
  {
    assert ([f] + l)[1..] == l;
  }

  lemma {:induction false} WatchersAreWatchers(l: seq<Finder>, c: nat)
    ensures forall f | f in Watchers(l, c) :: f.kind == PathCb(c) && f in l
    ensures forall f | f in l && f.kind == PathCb(c) :: f in Watchers(l, c)
  {
    if l != [] {
      WatchersAreWatchers(l[1..], c);
    }
  }

  lemma {:induction false} RemoveWatchers(l: seq<Finder>, f: Finder, c: nat)
    ensures Watchers(Remove(l, f), c) == Remove(Watchers(l, c), f)
  {
    if l != [] {
      var w := Watchers(l[1..], c);
      assert ([l[0]] + w)[1..] == w && [] + w == w;
      if l[0] == f {
        if f.kind != PathCb(c) {
          WatchersAreWatchers(l[1..], c);
          RemoveCounts(Watchers(l[1..], c), f);
        }
      } else {
        RemoveWatchers(l[1..], f, c);
        WatchersCons(l[0], Remove(l[1..], f), c);
      }
    }
  }

  lemma {:induction false} AddNoWatcher(d: Doc, ws: seq<Want>, c: nat)
    requires Asks(ws, c) == []
    ensures Watchers(AddWants(d, ws).finders, c) == Watchers(d.finders, c)
    ensures AddWants(d, ws).fired == d.fired && AddWants(d, ws).cursor == d.cursor && AddWants(d, ws).failed == d.failed
    decreases |ws|
  {
    if ws != [] {
      var d1 := AddWant(d, ws[0]);
      AddNoWatcher(d1, ws[1..], c);
      if d1 != d {
        WatchersCons(d1.finders[0], d.finders, c);
      }
    }
  }

  lemma {:induction false} AddOneWatcher(d: Doc, ws: seq<Want>, c: nat, s: Search)
    requires |Asks(ws, c)| == 1 && ParseXPath(Asks(ws, c)[0].xp, d.cursor.elPath) == Some(s)
    ensures var l := Watchers(AddWants(d, ws).finders, c);
            |l| == 1 + |Watchers(d.finders, c)| && l[0].search == s && l[1..] == Watchers(d.finders, c)
    ensures AddWants(d, ws).fired == d.fired && AddWants(d, ws).cursor == d.cursor && AddWants(d, ws).failed == d.failed
    decreases |ws|
  {
    var d1 := AddWant(d, ws[0]);
    if d1 != d {
      WatchersCons(d1.finders[0], d.finders, c);
    }
    if ws[0].kind == PathCb(c) {
      AddNoWatcher(d1, ws[1..], c);
    } else {
      AddOneWatcher(d1, ws[1..], c, s);
    }
  }

  // ------------------------------------------------------------ one element

  /** Handling a finder of another callback, or of any other kind, does not concern callback `c`. */
  lemma OtherFound(d: Doc, f: Finder, atts: Atts, o: Oracle, c: nat, xp: string)
    requires ReAsks(o, c, xp) && f.kind != PathCb(c)
    ensures var d' := PathFound(d, f, atts, o);
            !d'.failed ==> Watchers(d'.finders, c) == Watchers(d.finders, c)
                           && Firings(d'.fired, c) == Firings(d.fired, c) && d'.cursor == d.cursor
  {
    hide AddWants, Asks, AttrSearch, ReAsks, Watchers, StashValue, Remove, Firings;
    var d1 := AtPath(d, f);
    match f.kind
    case PathCb(cb) =>
      var reply := o(d1.calls, f, d1.cursor.elPath, None);
      OtherCallback(d1, f, reply.wants, o, c, xp);
      NoWatcherRemoved(AddWants(CalledBack(d1, cb), reply.wants).finders, f, c);
    case _ =>
      if f.search.attr.Some? {
        var val := AttrSearch(atts, f.search.attr.value);
        if val.Some? {
          OtherStash(d1, f, val.value, true, o, c, xp);
          NoWatcherRemoved(StashValue(d1, f, val.value, true, o).0.finders, f, c);
        }
      } else {
        NoWatcherRemoved(d1.finders, f, c);
      }
  }

  lemma OtherCallback(d: Doc, f: Finder, ws: seq<Want>, o: Oracle, c: nat, xp: string)
    requires ReAsks(o, c, xp) && f.kind.PathCb? && f.kind.cb != c && ws == o(d.calls, f, d.cursor.elPath, None).wants
    ensures var d' := AddWants(CalledBack(d, f.kind.cb), ws);
            && Watchers(d'.finders, c) == Watchers(d.finders, c) && Firings(d'.fired, c) == Firings(d.fired, c)
            && d'.cursor == d.cursor
  {
    hide AddWants, Asks, Watchers;
    var d1 := CalledBack(d, f.kind.cb);
    AddNoWatcher(d1, ws, c);
    assert d1.fired[..|d.fired|] == d.fired;
  }

  lemma NoWatcherRemoved(l: seq<Finder>, f: Finder, c: nat)
    requires f.kind != PathCb(c)
    ensures Watchers(Remove(l, f), c) == Watchers(l, c)
  {
    RemoveWatchers(l, f, c);
    WatchersAreWatchers(l, c);
    RemoveCounts(Watchers(l, c), f);
  }

  lemma OtherStash(d: Doc, f: Finder, text: string, attr: bool, o: Oracle, c: nat, xp: string)
    requires ReAsks(o, c, xp)
    ensures var d' := StashValue(d, f, text, attr, o).0;
            Watchers(d'.finders, c) == Watchers(d.finders, c) && d'.fired == d.fired && d'.cursor == d.cursor
  {
    if f.kind.ValueCb? {
      var wants := o(d.calls, f, d.cursor.elPath, Some(text)).wants;
      AddNoWatcher(Called(Stashed(d, f, text, attr)), wants, c);
    }
  }

  /** When callback `c` runs, it fires at the current path and leaves one finder of its own behind. */
  lemma WatcherFound(d: Doc, f: Finder, atts: Atts, o: Oracle, c: nat, xp: string, s: Search)
    requires ReAsks(o, c, xp) && f.kind == PathCb(c)
    requires Watchers(d.finders, c) == [f] && f.search == s && ParseXPath(xp, d.cursor.elPath) == Some(s)
    ensures var d' := PathFound(d, f, atts, o);
            !d'.failed ==> Watch(d', c, s)
                           && Firings(d'.fired, c) == Firings(d.fired, c) + [d.cursor.elPath] && d'.cursor == d.cursor
  {
    hide AddWants, Asks, ParseXPath, Watchers;
    var d1 := CalledBack(AtPath(d, f), c);
    var wants := o(d.calls, f, d.cursor.elPath, None).wants;
    var d2 := AddWants(d1, wants);
    AddOneWatcher(d1, wants, c, s);
    RemoveWatchers(d2.finders, f, c);
    assert d1.fired[..|d1.fired| - 1] == d.fired;
    var l := Watchers(d2.finders, c);
    assert l == [l[0], f];
  }

  /** One walk over the finders fires `c` exactly when the current path is one it searches for. */
  lemma {:induction false} SearchFires(d: Doc, todo: seq<Finder>, atts: Atts, o: Oracle, c: nat,
                                       xp: string, s: Search)
    requires ReAsks(o, c, xp) && ParseXPath(xp, d.cursor.elPath) == Some(s) && Watch(d, c, s)
    requires Watchers(todo, c) == [] || Watchers(todo, c) == Watchers(d.finders, c)
    ensures var d' := SearchFinders(d, todo, atts, o);
            var fires := Watchers(todo, c) != [] && PathMatch(s.path, d.cursor.elPath, s.wildcard);
            !d'.failed ==>
              && Watch(d', c, s) && d'.cursor == d.cursor
              && Firings(d'.fired, c) == Firings(d.fired, c) + if fires then [d.cursor.elPath] else []
    decreases |todo|
  {
    if todo != [] && !d.failed {
      var f := todo[0];
      var matches := PathMatch(f.search.path, d.cursor.elPath, f.search.wildcard);
      var d1 := if matches then PathFound(d, f, atts, o) else d;
      if f.kind == PathCb(c) {
        if matches {
          WatcherFound(d, f, atts, o, c, xp, s);
        }
      } else if matches {
        OtherFound(d, f, atts, o, c, xp);
      }
      if d1.failed {
        assert SearchFinders(d1, todo[1..], atts, o) == d1;
      } else {
        SearchFires(d1, todo[1..], atts, o, c, xp, s);
      }
    }
  }

  lemma {:induction false} TextFiresNothing(d: Doc, todo: seq<Finder>, text: string, o: Oracle, c: nat, xp: string)
    requires ReAsks(o, c, xp)
    ensures var d' := TakeText(d, todo, text, o);
            Watchers(d'.finders, c) == Watchers(d.finders, c) && d'.fired == d.fired && d'.cursor == d.cursor
    decreases |todo|
  {
    if todo != [] && !d.failed {
      var f := todo[0];
      if f.id !in d.foundPath || d.foundPath[f.id] != d.cursor.elPath {
        TextFiresNothing(d, todo[1..], text, o, c, xp);
      } else {
        OtherStash(d, f, text, false, o, c, xp);
        TextFiresNothing(ValueTaken(StashValue(d, f, text, false, o).0, f), todo[1..], text, o, c, xp);
      }
    }
  }

  // ------------------------------------------------------------ whole documents

  ghost predicate FiredSoFar(d: Doc, c: nat, s: Search) {
    Watch(d, c, s) && Firings(d.fired, c) == Selected(d.cursor.log.paths, s)
  }

  lemma StepFires(d: Doc, e: Event, o: Oracle, c: nat, xp: string, s: Search)
    requires ReAsks(o, c, xp) && (forall path {:trigger ParseXPath(xp, path)} :: ParseXPath(xp, path) == Some(s))
    requires FiredSoFar(d, c, s) && !d.failed && !DocStep(d, e, o).failed
    ensures FiredSoFar(DocStep(d, e, o), c, s)
  {
    hide ParseXPath, Step, SearchFinders, TakeText, Selected, Firings, Watchers, ReAsks;
    var d1 := Moved(d, e);
    MetPaths(d, e);
    if e.Start? {
      assert ParseXPath(xp, d1.cursor.elPath) == Some(s);
      SearchFires(d1, d1.finders, e.atts, o, c, xp, s);
      SelectedSnoc(d.cursor.log.paths, d1.cursor.elPath, s);
    } else if e.Data? && d1.listening {
      TextFiresNothing(d1, d1.waiting, e.text, o, c, xp);
    }
  }

  lemma MetPaths(d: Doc, e: Event)
    ensures var c := Moved(d, e).cursor;
            !c.stopped ==> c.log.paths == if e.Start? then d.cursor.log.paths + [c.elPath] else d.cursor.log.paths
  {
    hide Encounter, EndElement;
    assert d.cursor.log.paths + [] == d.cursor.log.paths;
  }

  lemma SelectedSnoc(paths: seq<string>, path: string, s: Search)
    ensures Selected(paths + [path], s) == Selected(paths, s) + if PathMatch(s.path, path, s.wildcard) then [path] else []
  {
    assert (paths + [path])[..|paths|] == paths;
  }

  lemma {:induction false} RunFires(d: Doc, es: seq<Event>, o: Oracle, c: nat, xp: string, s: Search)
    requires ReAsks(o, c, xp) && (forall path {:trigger ParseXPath(xp, path)} :: ParseXPath(xp, path) == Some(s))
    requires FiredSoFar(d, c, s) && !d.failed && !DocRun(d, es, o).failed
    ensures FiredSoFar(DocRun(d, es, o), c, s)
    decreases |es|
  {
    if es != [] {
      var d1 := DocStep(d, es[0], o);
      if d1.failed {
        FailedStays(d1, es[1..], o);
      } else {
        StepFires(d, es[0], o, c, xp, s);
        RunFires(d1, es[1..], o, c, xp, s);
      }
    }
  }

  /** A path callback that asks for its own path again fires exactly once for each element its search
      selects, in document order, whatever else it and the other callbacks ask for. */
  lemma FiresOncePerMatch(ws: seq<Want>, f: Forest, o: Oracle, c: nat, xp: string)
    requires Named(f) && !Parsed(ws, f, o).failed
    requires ReAsks(o, c, xp) && |Asks(ws, c)| == 1 && Asks(ws, c)[0].xp == xp
    requires xp != "" && xp[0] == '/' && ParseXPath(xp, "/").Some?
    ensures Firings(Parsed(ws, f, o).fired, c) == Selected(DocPaths([], map[], f), ParseXPath(xp, "/").value)
  {
    var s := ParseXPath(xp, "/").value;
    forall path
      ensures ParseXPath(xp, path) == Some(s)
    {
      AbsoluteIsFixed(xp, path, "/");
    }
    BeginOk(ws);
    AddOneWatcher(NewDoc(), ws, c, s);
    RunFires(Begin(ws), Events(f), o, c, xp, s);
    ParsedPaths(ws, f, o);
  }
}
