/** What the answers of callbacks and conversions do to a parse. */
module ExmlReplies {
  import opened Basics
  import opened Strings
  import opened ExmlPaths
  import opened ExmlXPath
  import opened ExmlFinders
  import opened ExmlTheorems
  import opened ExmlFound

  // ------------------------------------------------------------ nobody refuses

  ghost predicate NeverRefuses(o: Oracle) {
    forall n: nat, f: Finder, path: string, text: Option<string> {:trigger o(n, f, path, text)} :: o(n, f, path, text).ok
  }

  lemma FoundGoesOn(d: Doc, f: Finder, atts: Atts, o: Oracle)
    requires NeverRefuses(o)
    ensures PathFound(d, f, atts, o).failed == d.failed && PathFound(d, f, atts, o).cursor == d.cursor
  {
    hide AddWants, AttrSearch, Remove;
    var d1 := AtPath(d, f);
    if f.kind.PathCb? {
      AddWantsOnlyAdds(CalledBack(d1, f.kind.cb), o(d1.calls, f, d1.cursor.elPath, None).wants);
    } else if f.search.attr.Some? && AttrSearch(atts, f.search.attr.value).Some? {
      StashKeeps(d1, f, AttrSearch(atts, f.search.attr.value).value, true, o);
    }
  }

  lemma {:induction false} SearchGoesOn(d: Doc, todo: seq<Finder>, atts: Atts, o: Oracle)
    requires NeverRefuses(o) && !d.failed
    ensures !SearchFinders(d, todo, atts, o).failed && SearchFinders(d, todo, atts, o).cursor == d.cursor
    decreases |todo|
  {
    hide PathFound, PathMatch, NeverRefuses;
    if todo != [] {
      FoundGoesOn(d, todo[0], atts, o);
      SearchGoesOn(PathFound(d, todo[0], atts, o), todo[1..], atts, o);
      SearchGoesOn(d, todo[1..], atts, o);
    }
  }

  lemma {:induction false} TextGoesOn(d: Doc, todo: seq<Finder>, text: string, o: Oracle)
    requires NeverRefuses(o) && !d.failed
    ensures !TakeText(d, todo, text, o).failed && TakeText(d, todo, text, o).cursor == d.cursor
    decreases |todo|
  {
    hide AddWants, Remove;
    if todo != [] {
      var f := todo[0];
      StashKeeps(d, f, text, false, o);
      TextGoesOn(d, todo[1..], text, o);
      TextGoesOn(ValueTaken(StashValue(d, f, text, false, o).0, f), todo[1..], text, o);
    }
  }

  lemma StepGoesOn(d: Doc, e: Event, o: Oracle)
    requires NeverRefuses(o) && !d.failed
    ensures var d' := DocStep(d, e, o); d'.cursor == Step(d.cursor, e) && (d'.failed <==> d'.cursor.stopped)
  {
    hide Step, SearchFinders, TakeText, NeverRefuses;
    var d1 := Moved(d, e);
    if e.Start? {
      SearchGoesOn(d1, d1.finders, e.atts, o);
    } else if e.Data? {
      TextGoesOn(d1, d1.waiting, e.text, o);
    }
  }

  lemma {:induction false} RunGoesOnToTheEnd(d: Doc, es: seq<Event>, o: Oracle)
    requires NeverRefuses(o) && !d.failed && !d.cursor.stopped
    ensures DocRun(d, es, o).failed <==> Run(d.cursor, es).stopped
    decreases |es|
  {
    hide DocStep, Step, NeverRefuses;
    if es != [] {
      var d1 := DocStep(d, es[0], o);
      StepGoesOn(d, es[0], o);
      if d1.failed {
        FailedStays(d1, es[1..], o);
        StoppedStays(d1.cursor, es[1..]);
      } else {
        RunGoesOnToTheEnd(d1, es[1..], o);
      }
    }
  }

  /** When no callback and no conversion refuses, parsing is stopped exactly when some parent has more than
      10000 children of one name. */
  lemma StoppedOnlyByNumbers(ws: seq<Want>, f: Forest, o: Oracle)
    requires Named(f) && NeverRefuses(o)
    ensures ParseResult(Parsed(ws, f, o)) == -EIO <==> !Within(map[], f)
  {
    hide DocRun, Run, Begin, Within, NeverRefuses, AnyRequired, DocOk, Sourced;
    BeginOk(ws);
    RunGoesOnToTheEnd(Begin(ws), Events(f), o);
    DocumentRun(f);
  }

  // ------------------------------------------------------------ somebody refuses

  /** Whoever was given the value of `s` took it; nobody is asked about a string. */
  ghost predicate Accepted(s: Stash, o: Oracle) {
    s.finder.kind.Str? || exists n: nat :: o(n, s.finder, s.elPath, Some(s.text)).ok
  }

  /** The path callback of `g` was called and did not refuse. */
  ghost predicate CallAccepted(g: Finder, o: Oracle) {
    exists n: nat, path: string :: o(n, g, path, None).ok
  }

  ghost predicate AllAccepted(d: Doc, o: Oracle) {
    && (forall s | s in d.stashed :: Accepted(s, o))
    && (forall g | g in d.founders && g.kind.PathCb? :: CallAccepted(g, o))
  }

  lemma AddsAccepted(d: Doc, ws: seq<Want>, o: Oracle)
    requires AllAccepted(d, o)
    ensures AllAccepted(AddWants(d, ws), o)
  {
    hide AddWants, Accepted, CallAccepted;
    AddWantsFounders(d, ws);
    AddWantsOnlyAdds(d, ws);
  }

  lemma {:induction false} AddWantsFounders(d: Doc, ws: seq<Want>)
    ensures AddWants(d, ws).founders == d.founders
    decreases |ws|
  {
    hide ParseXPath;
    if ws != [] {
      AddWantsFounders(AddWant(d, ws[0]), ws[1..]);
    }
  }

  lemma StashAccepted(d: Doc, f: Finder, text: string, attr: bool, o: Oracle)
    requires AllAccepted(d, o) && StashValue(d, f, text, attr, o).1
    ensures AllAccepted(StashValue(d, f, text, attr, o).0, o)
  {
    hide AddWants, CallAccepted;
    var d1 := Stashed(d, f, text, attr);
    assert Accepted(Stash(f, d.cursor.elPath, text, attr), o);
    assert AllAccepted(d1, o);
    if f.kind.ValueCb? {
      AddsAccepted(Called(d1), o(d.calls, f, d.cursor.elPath, Some(text)).wants, o);
    }
  }

  lemma FoundAccepted(d: Doc, f: Finder, atts: Atts, o: Oracle)
    requires AllAccepted(d, o) && !PathFound(d, f, atts, o).failed
    ensures AllAccepted(PathFound(d, f, atts, o), o)
  {
    hide AddWants, AttrSearch, Remove, Accepted, StashValue;
    var d1 := AtPath(d, f);
    if f.kind.PathCb? {
      AddsAccepted(CalledBack(d1, f.kind.cb), o(d1.calls, f, d1.cursor.elPath, None).wants, o);
      assert CallAccepted(f, o);
    } else if f.search.attr.Some? && AttrSearch(atts, f.search.attr.value).Some? {
      StashAccepted(d1, f, AttrSearch(atts, f.search.attr.value).value, true, o);
    }
  }

  lemma {:induction false} SearchAccepted(d: Doc, todo: seq<Finder>, atts: Atts, o: Oracle)
    requires AllAccepted(d, o) && !SearchFinders(d, todo, atts, o).failed
    ensures AllAccepted(SearchFinders(d, todo, atts, o), o)
    decreases |todo|
  {
    hide PathFound, PathMatch, AllAccepted;
    if todo != [] && !d.failed {
      var f := todo[0];
      if PathMatch(f.search.path, d.cursor.elPath, f.search.wildcard) {
        FoundAccepted(d, f, atts, o);
        SearchAccepted(PathFound(d, f, atts, o), todo[1..], atts, o);
      } else {
        SearchAccepted(d, todo[1..], atts, o);
      }
    }
  }

  lemma TakenAccepted(d: Doc, f: Finder, o: Oracle)
    requires AllAccepted(d, o) && !f.kind.PathCb?
    ensures AllAccepted(ValueTaken(d, f), o)
  {
    hide Accepted, CallAccepted;
  }

  lemma {:induction false} TextAccepted(d: Doc, todo: seq<Finder>, text: string, o: Oracle)
    requires AllAccepted(d, o) && !TakeText(d, todo, text, o).failed
    requires forall g | g in todo :: !g.kind.PathCb?
    ensures AllAccepted(TakeText(d, todo, text, o), o)
    decreases |todo|
  {
    hide StashValue, ValueTaken, AllAccepted;
    if todo != [] && !d.failed {
      var f := todo[0];
      if !WaitsHere(d, f) {
        TextAccepted(d, todo[1..], text, o);
      } else if StashValue(d, f, text, false, o).1 {
        StashAccepted(d, f, text, false, o);
        TakenAccepted(StashValue(d, f, text, false, o).0, f, o);
        TextAccepted(ValueTaken(StashValue(d, f, text, false, o).0, f), todo[1..], text, o);
      }
    }
  }

  lemma {:induction false} RunAccepted(d: Doc, es: seq<Event>, o: Oracle)
    requires DocOk(d) && Sourced(d) && !d.failed && !d.cursor.stopped && AllAccepted(d, o)
    requires !DocRun(d, es, o).failed
    ensures AllAccepted(DocRun(d, es, o), o)
    decreases |es|
  {
    hide DocOk, Sourced, DocStep, AllAccepted;
    if es != [] {
      RunGoesOn(d, es, o);
      StepAccepted(d, es[0], o);
      RunAccepted(DocStep(d, es[0], o), es[1..], o);
    }
  }

  lemma StepAccepted(d: Doc, e: Event, o: Oracle)
    requires DocOk(d) && AllAccepted(d, o) && !d.failed && !DocStep(d, e, o).failed
    ensures AllAccepted(DocStep(d, e, o), o)
  {
    hide ListsOk, StashesOk, Step, SearchFinders, TakeText, Accepted, CallAccepted, Takers, ByValue;
    var d1 := Moved(d, e);
    if e.Start? {
      SearchAccepted(d1, d1.finders, e.atts, o);
    } else if e.Data? && d1.listening {
      TextAccepted(d1, d1.waiting, e.text, o);
    }
  }

  /** A refusal stops the parse: unless it was stopped, every value handed to a conversion or a callback
      was taken, and every path callback that ran did not refuse. */
  lemma RefusalStops(ws: seq<Want>, f: Forest, o: Oracle)
    requires Named(f) && !Parsed(ws, f, o).failed
    ensures var d := Parsed(ws, f, o);
            && (forall s | s in d.stashed :: Accepted(s, o))
            && (forall g | g in d.founders && g.kind.PathCb? :: CallAccepted(g, o))
  {
    hide DocRun, Accepted, CallAccepted, DocOk, Sourced;
    BeginOk(ws);
    AddWantsFounders(NewDoc(), ws);
    RunAccepted(Begin(ws), Events(f), o);
  }
}
