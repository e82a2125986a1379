/** What a finder gets when the document has something for it. */
module ExmlFound {
  import opened Basics
  import opened Strings
  import opened ExmlPaths
  import opened ExmlXPath
  import opened ExmlFinders
  import opened ExmlTheorems

  // ------------------------------------------------------------ the text an element begins with

  function FirstText(kids: Forest): Option<string> {
    if kids.Text? then Some(kids.text) else None
  }

  /** For each element, in document order, the text its content begins with. */
  function DocLeads(f: Forest): seq<Option<string>> {
    match f
    case Nil => []
    case Text(_, rest) => DocLeads(rest)
    case Elem(_, _, kids, rest) => [FirstText(kids)] + DocLeads(kids) + DocLeads(rest)
  }

  function LeadOf(es: seq<Event>): Option<string> {
    if es != [] && es[0].Data? then Some(es[0].text) else None
  }

  function Leads(es: seq<Event>): seq<Option<string>>
    decreases |es|
  {
    if es == [] then []
    else (if es[0].Start? then [LeadOf(es[1..])] else []) + Leads(es[1..])
  }

  lemma LeadsCons(e: Event, es: seq<Event>)
    ensures Leads([e] + es) == (if e.Start? then [LeadOf(es)] else []) + Leads(es)
  {
    assert ([e] + es)[1..] == es;
  }

  lemma ContentLead(f: Forest, name: string, es: seq<Event>)
    ensures LeadOf(Events(f) + ([Finish(name)] + es)) == FirstText(f)
  {
  }

  lemma {:induction false} ContentLeads(f: Forest, es: seq<Event>)
    ensures Leads(Events(f) + es) == DocLeads(f) + Leads(es)
    decreases f
  {
    hide Leads, LeadOf, FirstText;
    match f
    case Nil => assert Events(f) + es == es;
    case Text(text, rest) =>
      assert Events(f) + es == [Data(text)] + (Events(rest) + es);
      LeadsCons(Data(text), Events(rest) + es);
      ContentLeads(rest, es);
    case Elem(name, atts, kids, rest) =>
      var later := Events(rest) + es;
      var after := [Finish(name)] + later;
      assert Events(f) + es == [Start(name, atts)] + (Events(kids) + after);
      LeadsCons(Start(name, atts), Events(kids) + after);
      LeadsCons(Finish(name), later);
      ContentLead(kids, name, later);
      ContentLeads(kids, after);
      ContentLeads(rest, es);
  }

  /** The three lists of a document's elements go together. */
  lemma {:induction false} ListsGoTogether(p: seq<string>, counts: map<string, nat>, f: Forest)
    ensures var elems := DocOpened(p, counts, f);
            && |elems| == |DocPaths(p, counts, f)| == |DocLeads(f)|
            && forall i | 0 <= i < |elems| :: elems[i].0 == DocPaths(p, counts, f)[i]
    decreases f
  {
    hide Path, Key, FirstText;
    match f
    case Nil =>
    case Text(_, rest) => ListsGoTogether(p, counts, rest);
    case Elem(name, _, kids, rest) =>
      var k := Times(counts, name);
      ListsGoTogether(Key(p, name, k), map[], kids);
      ListsGoTogether(p, counts[name := k + 1], rest);
  }

  // ------------------------------------------------------------ one element

  /** The element is one that the finder takes: its search selects it, and it has the attribute that a
      finder for an attribute's value looks for. */
  predicate Hit(g: Finder, path: string, atts: Atts) {
    && PathMatch(g.search.path, path, g.search.wildcard)
    && (g.kind.PathCb? || g.search.attr.None? || AttrSearch(atts, g.search.attr.value).Some?)
  }

  ghost predicate Got(d: Doc, g: Finder, path: string, text: string, attr: bool) {
    g in d.founders && Stash(g, path, text, attr) in d.stashed
  }

  /** The finder waits for text, which the current element may bring. */
  ghost predicate Awaits(d: Doc, g: Finder) {
    d.listening && g in d.waiting && WaitsHere(d, g)
  }

  /** A finder that takes the current element has called back, has the attribute's value, or waits for
      the text. */
  ghost predicate Settled(d: Doc, g: Finder, path: string, atts: Atts) {
    if g.kind.PathCb? then g in d.founders && (g.kind.cb, path) in d.fired
    else if g.search.attr.Some? then
      AttrSearch(atts, g.search.attr.value).Some?
      && Got(d, g, path, AttrSearch(atts, g.search.attr.value).value, true)
    else Awaits(d, g)
  }

  lemma GotLater(d: Doc, d': Doc, g: Finder, path: string, text: string, attr: bool)
    requires Onward(d, d') && Got(d, g, path, text, attr)
    ensures Got(d', g, path, text, attr)
  {
    hide Asked, Taken;
    var i :| 0 <= i < |d.stashed| && d.stashed[i] == Stash(g, path, text, attr);
    assert d'.stashed[i] == d.stashed[i];
  }

  lemma FiredLater(d: Doc, d': Doc, g: Finder, cb: nat, path: string)
    requires Onward(d, d') && g in d.founders && (cb, path) in d.fired
    ensures g in d'.founders && (cb, path) in d'.fired
  {
    hide Asked, Taken;
    var i :| 0 <= i < |d.fired| && d.fired[i] == (cb, path);
    assert d'.fired[i] == d.fired[i];
  }

  /** Handling one finder leaves the others that wait where they are. */
  lemma OthersWait(d: Doc, f: Finder, atts: Atts, o: Oracle, g: Finder)
    requires ListsOk(d) && f in d.finders && Awaits(d, g)
    ensures Awaits(PathFound(d, f, atts, o), g)
  {
    hide ListsOk, StashValue, AddWants, Remove, AttrSearch, Grown;
    OtherId(d, f, g);
    var d1 := AtPath(d, f);
    SameListsOk(d, d1);
    if f.kind.PathCb? {
      var wants := o(d1.calls, f, d1.cursor.elPath, None).wants;
      var d2 := CalledBack(d1, f.kind.cb);
      SameListsOk(d, d2);
      AddWantsKeeps(d2, wants);
      GrownWaits(d2, AddWants(d2, wants), g);
    } else if f.search.attr.Some? {
      var val := AttrSearch(atts, f.search.attr.value);
      if val.Some? {
        StashValueKeeps(d1, f, val.value, true, o);
        GrownWaits(Stashed(d1, f, val.value, true), StashValue(d1, f, val.value, true, o).0, g);
      }
    }
  }

  lemma GrownWaits(d: Doc, d': Doc, g: Finder)
    requires Grown(d, d') && Awaits(d, g)
    ensures Awaits(d', g) && d'.foundPath == d.foundPath
  {
    hide Asked;
  }

  lemma FoundSettles(d: Doc, f: Finder, atts: Atts, o: Oracle)
    requires Ready(d, f, atts) && !PathFound(d, f, atts, o).failed && Hit(f, d.cursor.elPath, atts)
    ensures Settled(PathFound(d, f, atts, o), f, d.cursor.elPath, atts)
  {
    hide DocOk, PathMatch, AddWants, Remove, AttrSearch, Standing;
    var d1 := AtPath(d, f);
    if f.kind.PathCb? {
      var wants := o(d1.calls, f, d1.cursor.elPath, None).wants;
      CallbackFires(d1, f, wants);
    } else if f.search.attr.Some? {
      var val := AttrSearch(atts, f.search.attr.value);
      StashKeeps(d1, f, val.value, true, o);
    }
  }

  lemma CallbackFires(d: Doc, f: Finder, ws: seq<Want>)
    requires f.kind.PathCb?
    ensures (f.kind.cb, d.cursor.elPath) in AddWants(CalledBack(d, f.kind.cb), ws).fired
  {
    hide AddWant;
    var d1 := CalledBack(d, f.kind.cb);
    assert d1.fired[|d.fired|] == (f.kind.cb, d.cursor.elPath);
    AddWantsOnlyAdds(d1, ws);
  }

  lemma {:induction false} AddWantsOnlyAdds(d: Doc, ws: seq<Want>)
    ensures var d' := AddWants(d, ws);
            && d'.fired == d.fired && d'.stashed == d.stashed && d'.waiting == d.waiting && d'.foundPath == d.foundPath
            && d'.cursor == d.cursor && d'.listening == d.listening && d'.failed == d.failed
            && forall g | g in d.finders :: g in d'.finders
    decreases |ws|
  {
    hide ParseXPath;
    if ws != [] {
      AddWantsOnlyAdds(AddWant(d, ws[0]), ws[1..]);
    }
  }

  /** Handing over a value keeps it and moves nobody. */
  lemma StashKeeps(d: Doc, f: Finder, text: string, attr: bool, o: Oracle)
    ensures var d' := StashValue(d, f, text, attr, o).0;
            && Stash(f, d.cursor.elPath, text, attr) in d'.stashed
            && d'.waiting == d.waiting && d'.foundPath == d.foundPath && d'.cursor == d.cursor && d'.failed == d.failed
            && forall g | g in d.finders :: g in d'.finders
  {
    hide AddWants;
    var d1 := Stashed(d, f, text, attr);
    assert d1.stashed[|d.stashed|] == Stash(f, d.cursor.elPath, text, attr);
    if f.kind.ValueCb? {
      AddWantsOnlyAdds(Called(d1), o(d.calls, f, d.cursor.elPath, Some(text)).wants);
    }
  }

  /** A finder that does not take the element stays on the list. */
  lemma NotHitStays(d: Doc, f: Finder, atts: Atts, o: Oracle, g: Finder)
    requires Ready(d, f, atts) && !PathFound(d, f, atts, o).failed && g in d.finders
    requires g != f || !Hit(g, d.cursor.elPath, atts)
    ensures g in PathFound(d, f, atts, o).finders
  {
    hide DocOk, PathFound, AttrSearch, PathMatch, Standing, Onward;
    PathFoundKeeps(d, f, atts, o);
    if g == f {
      AttrMissing(d, f, atts, o);
    }
  }

  lemma AttrMissing(d: Doc, f: Finder, atts: Atts, o: Oracle)
    requires PathMatch(f.search.path, d.cursor.elPath, f.search.wildcard) && !Hit(f, d.cursor.elPath, atts)
    ensures PathFound(d, f, atts, o).finders == d.finders
  {
  }

  lemma SettledLater(d: Doc, d1: Doc, f: Finder, atts: Atts, o: Oracle, g: Finder)
    requires ListsOk(d) && f in d.finders && d1 == PathFound(d, f, atts, o) && Onward(d, d1)
    requires Settled(d, g, d.cursor.elPath, atts)
    ensures Settled(d1, g, d.cursor.elPath, atts)
  {
    hide ListsOk, PathFound, AttrSearch, Onward, Got, Awaits;
    if g.kind.PathCb? {
      FiredLater(d, d1, g, g.kind.cb, d.cursor.elPath);
    } else if g.search.attr.Some? {
      GotLater(d, d1, g, d.cursor.elPath, AttrSearch(atts, g.search.attr.value).value, true);
    } else {
      OthersWait(d, f, atts, o, g);
    }
  }

  /** Once settled, a finder stays so to the end of the walk. */
  lemma {:induction false} SearchSettled(d: Doc, todo: seq<Finder>, atts: Atts, o: Oracle, g: Finder)
    requires DocOk(d) && !d.failed && Standing(d, atts) && OnList(d, todo)
    requires Settled(d, g, d.cursor.elPath, atts) && !SearchFinders(d, todo, atts, o).failed
    ensures Settled(SearchFinders(d, todo, atts, o), g, d.cursor.elPath, atts)
    decreases |todo|
  {
    hide DocOk, ListsOk, PathFound, PathMatch, Standing, OnList, Settled, Onward;
    if todo != [] {
      var f := todo[0];
      FirstOnList(d, todo);
      OnListRest(d, todo);
      if PathMatch(f.search.path, d.cursor.elPath, f.search.wildcard) {
        var d1 := PathFound(d, f, atts, o);
        WalkGoesOn(d, todo, atts, o);
        ListsOfOk(d);
        SettledLater(d, d1, f, atts, o, g);
        SearchSettled(d1, todo[1..], atts, o, g);
      } else {
        SearchSettled(d, todo[1..], atts, o, g);
      }
    }
  }

  /** A walk that does not fail goes on with the invariants after its first finder. */
  lemma WalkGoesOn(d: Doc, todo: seq<Finder>, atts: Atts, o: Oracle)
    requires DocOk(d) && !d.failed && Standing(d, atts) && OnList(d, todo) && todo != []
    requires PathMatch(todo[0].search.path, d.cursor.elPath, todo[0].search.wildcard)
    requires !SearchFinders(d, todo, atts, o).failed
    ensures var d1 := PathFound(d, todo[0], atts, o);
            && !d1.failed && DocOk(d1) && Standing(d1, atts) && OnList(d1, todo[1..]) && Onward(d, d1)
            && d1.cursor == d.cursor && SearchFinders(d, todo, atts, o) == SearchFinders(d1, todo[1..], atts, o)
  {
    hide DocOk, ListsOk, PathFound, PathMatch, Standing, OnList, Onward, Left;
    FirstOnList(d, todo);
    PathFoundKeeps(d, todo[0], atts, o);
    RestOnList(d, PathFound(d, todo[0], atts, o), todo, atts);
    OnwardCursor(d, PathFound(d, todo[0], atts, o));
  }

  /** One walk settles each finder of the list that takes the current element, and leaves the others. */
  lemma {:induction false} SearchSettles(d: Doc, todo: seq<Finder>, atts: Atts, o: Oracle, g: Finder)
    requires DocOk(d) && !d.failed && Standing(d, atts) && OnList(d, todo) && g in d.finders
    requires !SearchFinders(d, todo, atts, o).failed
    ensures var d' := SearchFinders(d, todo, atts, o);
            if !Hit(g, d.cursor.elPath, atts) || g !in todo then g in d'.finders
            else Settled(d', g, d.cursor.elPath, atts)
    decreases |todo|
  {
    hide DocOk, ListsOk, PathFound, PathMatch, Standing, OnList, Settled, Onward, AttrSearch;
    if todo != [] {
      var f := todo[0];
      FirstOnList(d, todo);
      OnListRest(d, todo);
      if PathMatch(f.search.path, d.cursor.elPath, f.search.wildcard) {
        var d1 := PathFound(d, f, atts, o);
        WalkGoesOn(d, todo, atts, o);
        if f == g && Hit(g, d.cursor.elPath, atts) {
          FoundSettles(d, f, atts, o);
          SearchSettled(d1, todo[1..], atts, o, g);
        } else {
          NotHitStays(d, f, atts, o, g);
          SearchSettles(d1, todo[1..], atts, o, g);
        }
      } else {
        SearchSettles(d, todo[1..], atts, o, g);
      }
    }
  }

  // ------------------------------------------------------------ one piece of text

  /** Each waiting finder of the list that found the current element takes the text. */
  lemma {:induction false} TextArrives(d: Doc, todo: seq<Finder>, text: string, o: Oracle, g: Finder)
    requires DocOk(d) && !d.failed && InWaiting(d, todo) && (d.cursor.elPath, text) in d.cursor.log.texts
    requires g in todo && WaitsHere(d, g) && !TakeText(d, todo, text, o).failed
    ensures Got(TakeText(d, todo, text, o), g, d.cursor.elPath, text, false)
    decreases |todo|
  {
    hide DocOk, ListsOk, StashValue, KeptOne, Grown, InWaiting, Got, Onward;
    var f := todo[0];
    FirstInWaiting(d, todo);
    if !WaitsHere(d, f) {
      TextArrives(d, todo[1..], text, o, g);
    } else {
      var d1 := StashValue(d, f, text, false, o).0;
      var d2 := ValueTaken(d1, f);
      assert StashValue(d, f, text, false, o).1;
      TextHanded(d, f, text, o);
      TextTaken(d, f, text);
      ValueKeeps(d, f, text, d1);
      RestInWaiting(d, d1, d2, todo, text);
      StashKeeps(d, f, text, false, o);
      if f == g {
        assert Got(d2, g, d.cursor.elPath, text, false) by { TookIt(d, d1, f, text); }
        TakeTextKeeps(d2, todo[1..], text, o);
        GotLater(d2, TakeText(d2, todo[1..], text, o), g, d.cursor.elPath, text, false);
      } else {
        TextArrives(d2, todo[1..], text, o, g);
      }
    }
  }

  lemma TookIt(d: Doc, d1: Doc, f: Finder, text: string)
    requires Stash(f, d.cursor.elPath, text, false) in d1.stashed
    ensures Got(ValueTaken(d1, f), f, d.cursor.elPath, text, false)
  {
  }

  lemma {:induction false} TextLeavesUnfound(d: Doc, todo: seq<Finder>, text: string, o: Oracle, g: Finder)
    requires g in d.finders
    ensures g in TakeText(d, todo, text, o).finders
    decreases |todo|
  {
    hide StashValue;
    if todo != [] && !d.failed {
      var f := todo[0];
      StashKeeps(d, f, text, false, o);
      if !WaitsHere(d, f) {
        TextLeavesUnfound(d, todo[1..], text, o, g);
      } else {
        TextLeavesUnfound(ValueTaken(StashValue(d, f, text, false, o).0, f), todo[1..], text, o, g);
      }
    }
  }

  // ------------------------------------------------------------ one event

  lemma StepMoved(d: Doc, e: Event, o: Oracle)
    requires DocOk(d) && Sourced(d) && !d.failed && !d.cursor.stopped && !DocStep(d, e, o).failed
    ensures DocOk(Moved(d, e)) && !Moved(d, e).cursor.stopped && DocStep(d, e, o).cursor == Moved(d, e).cursor
  {
    hide DocOk, Sourced, Step, After, ListsOk, DocStep;
    StepKeeps(d, e, o);
    StepGrows(d.cursor, e);
    CursorKeeps(d, Moved(d, e));
  }

  /** An opened element settles each finder that takes it, and leaves the other unfound ones. */
  lemma StartSettles(d: Doc, e: Event, o: Oracle, g: Finder)
    requires DocOk(d) && Sourced(d) && !d.failed && !d.cursor.stopped && g in d.finders && e.Start?
    requires !DocStep(d, e, o).failed
    ensures var d' := DocStep(d, e, o);
            if Hit(g, d'.cursor.elPath, e.atts) then Settled(d', g, d'.cursor.elPath, e.atts) else g in d'.finders
  {
    hide DocOk, Sourced, ListsOk, Step, SearchFinders, Settled, Hit, Standing, OnList;
    var d1 := Moved(d, e);
    StepMoved(d, e, o);
    StartStands(d, e);
    ListsOfOk(d1);
    Walkable(d1);
    SearchSettles(d1, d1.finders, e.atts, o, g);
  }

  lemma OtherEventLeaves(d: Doc, e: Event, o: Oracle, g: Finder)
    requires g in d.finders && !e.Start?
    ensures g in DocStep(d, e, o).finders
  {
    hide Step, TakeText;
    if e.Data? {
      TextLeavesUnfound(Moved(d, e), Moved(d, e).waiting, e.text, o, g);
    }
  }

  /** Text right after the start tag reaches the finder that waits for it. */
  lemma DataArrives(d: Doc, e: Event, o: Oracle, g: Finder)
    requires DocOk(d) && Sourced(d) && !d.failed && !d.cursor.stopped && Awaits(d, g) && e.Data?
    requires !DocStep(d, e, o).failed
    ensures Got(DocStep(d, e, o), g, d.cursor.elPath, e.text, false)
  {
    hide DocOk, Sourced, ListsOk, Step, TakeText, Got, InWaiting;
    var d1 := Moved(d, e);
    StepMoved(d, e, o);
    TextMet(d, e);
    ListsOfOk(d1);
    Walkable(d1);
    TextArrives(d1, d1.waiting, e.text, o, g);
  }

  // ------------------------------------------------------------ every run

  /** Of these elements, the finder takes number `i` and none before it. */
  ghost predicate FirstHit(g: Finder, elems: seq<(string, Atts)>, i: nat) {
    && i < |elems| && Hit(g, elems[i].0, elems[i].1)
    && forall j | 0 <= j < i :: !Hit(g, elems[j].0, elems[j].1)
  }

  /** What the finder must get from the element it takes: its callback runs there, or it keeps the
      attribute's value, or it keeps the text that the element's content begins with. */
  ghost predicate Served(d: Doc, g: Finder, elem: (string, Atts), lead: Option<string>) {
    var (path, atts) := elem;
    if g.kind.PathCb? then g in d.founders && (g.kind.cb, path) in d.fired
    else if g.search.attr.Some? then
      AttrSearch(atts, g.search.attr.value).Some?
      && Got(d, g, path, AttrSearch(atts, g.search.attr.value).value, true)
    else lead.Some? ==> Got(d, g, path, lead.value, false)
  }

  /** The elements opened between the two states. */
  ghost predicate Between(d: Doc, elems: seq<(string, Atts)>, d': Doc) {
    d'.cursor.log.elems == d.cursor.log.elems + elems
  }

  lemma FirstHitLater(g: Finder, elems: seq<(string, Atts)>, i: nat)
    requires FirstHit(g, elems, i) && i > 0
    ensures FirstHit(g, elems[1..], i - 1) && !Hit(g, elems[0].0, elems[0].1)
  {
    hide Hit;
    forall j | 0 <= j < i - 1
      ensures !Hit(g, elems[1..][j].0, elems[1..][j].1)
    {
      assert elems[1..][j] == elems[j + 1];
    }
  }

  /** Going on with parsing loses nothing that a finder got. */
  lemma SettledStays(d: Doc, es: seq<Event>, o: Oracle, g: Finder, elem: (string, Atts))
    requires DocOk(d) && Sourced(d) && !d.failed && !d.cursor.stopped
    requires Settled(d, g, elem.0, elem.1)
    ensures g.kind.PathCb? || g.search.attr.Some? ==> Served(DocRun(d, es, o), g, elem, None)
  {
    hide DocOk, Sourced, ListsOk, DocRun, AttrSearch;
    Lifecycle(d, es, o);
    var d' := DocRun(d, es, o);
    if g.kind.PathCb? {
      PrefixIn(d.fired, d'.fired, (g.kind.cb, elem.0));
    } else if g.search.attr.Some? {
      PrefixIn(d.stashed, d'.stashed, Stash(g, elem.0, AttrSearch(elem.1, g.search.attr.value).value, true));
    }
  }

  lemma PrefixIn<T>(a: seq<T>, b: seq<T>, x: T)
    requires a <= b && x in a
    ensures x in b
  {
    var i :| 0 <= i < |a| && a[i] == x;
    assert b[i] == x;
  }

  lemma GotStays(d: Doc, es: seq<Event>, o: Oracle, g: Finder, path: string, text: string)
    requires DocOk(d) && Sourced(d) && !d.failed && !d.cursor.stopped && Got(d, g, path, text, false)
    ensures Got(DocRun(d, es, o), g, path, text, false)
  {
    hide DocOk, Sourced, ListsOk, DocRun;
    Lifecycle(d, es, o);
    PrefixIn(d.stashed, DocRun(d, es, o).stashed, Stash(g, path, text, false));
  }

  /** A run that does not fail goes on with the invariants after its first event. */
  lemma RunGoesOn(d: Doc, es: seq<Event>, o: Oracle)
    requires DocOk(d) && Sourced(d) && !d.failed && !d.cursor.stopped && es != [] && !DocRun(d, es, o).failed
    ensures var d1 := DocStep(d, es[0], o);
            && DocOk(d1) && Sourced(d1) && !d1.failed && !d1.cursor.stopped && d1.cursor == Step(d.cursor, es[0])
            && DocRun(d, es, o) == DocRun(d1, es[1..], o)
  {
    hide DocOk, Sourced, ListsOk, DocStep, Step;
    var d1 := DocStep(d, es[0], o);
    StepKeeps(d, es[0], o);
    if d1.failed {
      FailedStays(d1, es[1..], o);
    }
  }

  lemma StepOpens(c: Cursor, e: Event)
    requires !c.stopped && !Step(c, e).stopped
    ensures var c' := Step(c, e);
            c'.log.elems == if e.Start? then c.log.elems + [(c'.elPath, e.atts)] else c.log.elems
  {
    hide Encounter, EndElement, LastIndexOf;
    assert c.log.elems + [] == c.log.elems;
  }

  lemma RunOpens(d: Doc, es: seq<Event>, o: Oracle)
    requires DocOk(d) && Sourced(d) && !d.failed && !d.cursor.stopped && !DocRun(d, es, o).failed
    ensures d.cursor.log.elems <= DocRun(d, es, o).cursor.log.elems
  {
    hide DocOk, Sourced, DocRun, Run;
    CursorRuns(d, es, o);
    RunGrows(d.cursor, es);
  }

  /** What the first event of a run opens, and what the others do. */
  lemma OpensFirst(d: Doc, es: seq<Event>, o: Oracle, elems: seq<(string, Atts)>)
    requires DocOk(d) && Sourced(d) && !d.failed && !d.cursor.stopped && es != [] && !DocRun(d, es, o).failed
    requires Between(d, elems, DocRun(d, es, o))
    ensures var d1 := DocStep(d, es[0], o);
            if es[0].Start? then elems != [] && elems[0] == (d1.cursor.elPath, es[0].atts)
                                 && Between(d1, elems[1..], DocRun(d1, es[1..], o))
            else Between(d1, elems, DocRun(d1, es[1..], o))
  {
    hide DocOk, Sourced, DocRun, DocStep, Step;
    var d1, d' := DocStep(d, es[0], o), DocRun(d, es, o);
    RunGoesOn(d, es, o);
    StepOpens(d.cursor, es[0]);
    RunOpens(d1, es[1..], o);
    if es[0].Start? {
      var n := |d.cursor.log.elems|;
      assert d'.cursor.log.elems[n] == elems[0];
      assert d'.cursor.log.elems[n] == d1.cursor.log.elems[n] == (d1.cursor.elPath, es[0].atts);
    }
  }

  /** From any point of any parse that is not stopped: an unfound finder is served by the first element
      opened from then on that it takes. */
  lemma {:induction false} FirstHitServes(d: Doc, es: seq<Event>, o: Oracle, g: Finder,
                                          elems: seq<(string, Atts)>, i: nat)
    requires DocOk(d) && Sourced(d) && !d.failed && !d.cursor.stopped && g in d.finders
    requires !DocRun(d, es, o).failed && Between(d, elems, DocRun(d, es, o)) && FirstHit(g, elems, i)
    ensures i < |Leads(es)| && Served(DocRun(d, es, o), g, elems[i], Leads(es)[i])
    decreases |es|
  {
    hide DocOk, Sourced, DocStep, DocRun, Step, Hit, Served, LeadOf, Leads, Between, FirstHit;
    SomethingOpens(d, es, o, g, elems, i);
    var e, later := es[0], es[1..];
    var d1 := DocStep(d, e, o);
    RunGoesOn(d, es, o);
    OpensFirst(d, es, o, elems);
    LeadsFirst(es);
    if !e.Start? {
      OtherEventLeaves(d, e, o, g);
      FirstHitServes(d1, later, o, g, elems, i);
    } else if i > 0 {
      FirstHitLater(g, elems, i);
      StartLeaves(d, e, o, g);
      FirstHitServes(d1, later, o, g, elems[1..], i - 1);
    } else {
      FirstIsHit(g, elems);
      StartServes(d, es, o, g);
    }
  }

  lemma LeadsFirst(es: seq<Event>)
    requires es != []
    ensures Leads(es) == (if es[0].Start? then [LeadOf(es[1..])] else []) + Leads(es[1..])
  {
  }

  lemma StartLeaves(d: Doc, e: Event, o: Oracle, g: Finder)
    requires DocOk(d) && Sourced(d) && !d.failed && !d.cursor.stopped && g in d.finders && e.Start?
    requires !DocStep(d, e, o).failed && !Hit(g, DocStep(d, e, o).cursor.elPath, e.atts)
    ensures g in DocStep(d, e, o).finders
  {
    hide DocOk, Sourced, DocStep, Hit, Settled;
    StartSettles(d, e, o, g);
  }

  /** The element opened first is one the finder takes. */
  lemma StartServes(d: Doc, es: seq<Event>, o: Oracle, g: Finder)
    requires DocOk(d) && Sourced(d) && !d.failed && !d.cursor.stopped && g in d.finders
    requires es != [] && es[0].Start? && !DocRun(d, es, o).failed
    requires Hit(g, DocStep(d, es[0], o).cursor.elPath, es[0].atts)
    ensures Served(DocRun(d, es, o), g, (DocStep(d, es[0], o).cursor.elPath, es[0].atts), LeadOf(es[1..]))
  {
    hide DocOk, Sourced, DocStep, DocRun, Step, Hit, Settled, Served, LeadOf;
    RunGoesOn(d, es, o);
    StartSettles(d, es[0], o, g);
    HitServes(DocStep(d, es[0], o), es[1..], o, g, (DocStep(d, es[0], o).cursor.elPath, es[0].atts));
  }

  lemma SomethingOpens(d: Doc, es: seq<Event>, o: Oracle, g: Finder, elems: seq<(string, Atts)>, i: nat)
    requires Between(d, elems, DocRun(d, es, o)) && FirstHit(g, elems, i)
    ensures es != [] && i < |elems|
  {
    hide Hit, DocStep;
  }

  lemma FirstIsHit(g: Finder, elems: seq<(string, Atts)>)
    requires FirstHit(g, elems, 0)
    ensures Hit(g, elems[0].0, elems[0].1)
  {
    hide Hit;
  }

  /** After the element's start tag has been handled. */
  lemma HitServes(d: Doc, es: seq<Event>, o: Oracle, g: Finder, elem: (string, Atts))
    requires DocOk(d) && Sourced(d) && !d.failed && !d.cursor.stopped && !DocRun(d, es, o).failed
    requires Settled(d, g, elem.0, elem.1) && d.cursor.elPath == elem.0
    ensures Served(DocRun(d, es, o), g, elem, LeadOf(es))
  {
    hide DocOk, Sourced, DocRun, DocStep, AttrSearch, Got, Step, Awaits;
    SettledStays(d, es, o, g, elem);
    if !g.kind.PathCb? && g.search.attr.None? && LeadOf(es).Some? {
      RunGoesOn(d, es, o);
      DataArrives(d, es[0], o, g);
      GotStays(DocStep(d, es[0], o), es[1..], o, g, elem.0, es[0].text);
    }
  }
}
