/** What the XML matcher promises over whole documents and every behaviour of its callbacks. */
module ExmlTheorems {
  import opened Basics
  import opened Strings
  import opened ExmlPaths
  import opened ExmlXPath
  import opened ExmlFinders

  /** The state in which parsing begins, after the caller has asked for `ws`. */
  function Begin(ws: seq<Want>): Doc {
    AddWants(NewDoc(), ws)
  }

  function Parsed(ws: seq<Want>, f: Forest, o: Oracle): Doc {
    DocRun(Begin(ws), Events(f), o)
  }

  lemma BeginOk(ws: seq<Want>)
    ensures DocOk(Begin(ws)) && Sourced(Begin(ws)) && !Begin(ws).failed
    ensures Begin(ws).cursor == Slurped() && Begin(ws).stashed == [] && Begin(ws).fired == []
  {
    hide ListsOk, Asked, Slurped;
    var d, d' := NewDoc(), Begin(ws);
    NewListsOk();
    AddWantsKeeps(d, ws);
    forall f | f in d'.created
      ensures Asked(f, f.askedAt) && f.askedAt == "/"
    {
      var i :| 0 <= i < |d'.created| && d'.created[i] == f;
      RootAsked(f);
    }
  }

  lemma NewListsOk()
    ensures ListsOk(NewDoc()) && !NewDoc().cursor.stopped && NewDoc().cursor.elPath == "/"
  {
    hide Encounter;
  }

  lemma RootAsked(f: Finder)
    ensures Asked(f, "/") ==> f.askedAt == "/" && Asked(f, f.askedAt)
  {
  }

  /** Each finder ever created is on exactly one list and was handled at most once, exactly when it is
      among the founders; the count of unfound finders is exact. */
  lemma FindersAreConserved(ws: seq<Want>, es: seq<Event>, o: Oracle, f: Finder)
    ensures var d := DocRun(Begin(ws), es, o);
            && d.numFinders == |d.finders|
            && Held(d, f) == (if f in d.created then 1 else 0)
            && multiset(d.handled)[f] == (if f in d.founders then 1 else 0)
  {
    hide DocOk, Sourced, DocRun;
    BeginOk(ws);
    Lifecycle(Begin(ws), es, o);
    var d := DocRun(Begin(ws), es, o);
    HeldOnce(d, f);
    assert f in d.founders <==> f in multiset(d.founders);
  }

  /** A finder that has left the unfound list never comes back to it, and a handled one stays handled,
      also when parsing stops. */
  lemma FindersMoveForward(d: Doc, es: seq<Event>, o: Oracle, f: Finder)
    requires DocOk(d) && Sourced(d) && !d.failed && !d.cursor.stopped && f in d.created
    ensures var d' := DocRun(d, es, o);
            (f !in d.finders ==> f !in d'.finders) && (f in d.founders ==> f in d'.founders)
  {
    hide Sourced, DocRun;
    Lifecycle(d, es, o);
    HeldOnce(d, f);
  }

  /** Parsing succeeds exactly when it was not stopped and every required finder was handled. */
  lemma SucceedsExactlyWhenFound(ws: seq<Want>, es: seq<Event>, o: Oracle)
    ensures var d := DocRun(Begin(ws), es, o);
            ParseResult(d) == 0 <==> !d.failed && forall f | f in d.created && f.required :: f in d.founders
  {
    hide DocOk, Sourced, DocRun;
    BeginOk(ws);
    Lifecycle(Begin(ws), es, o);
    var d := DocRun(Begin(ws), es, o);
    forall f
      ensures f in d.created <==> f in d.finders || f in d.waiting || f in d.founders
      ensures f in d.finders || f in d.waiting ==> f !in d.founders
    {
      HeldOnce(d, f);
    }
    if AnyRequired(d.finders) {
      var i :| 0 <= i < |d.finders| && d.finders[i].required;
      assert d.finders[i] in d.created && d.finders[i] !in d.founders;
    } else if AnyRequired(d.waiting) {
      var i :| 0 <= i < |d.waiting| && d.waiting[i].required;
      assert d.waiting[i] in d.created && d.waiting[i] !in d.founders;
    }
  }

  lemma {:induction false} ByValueCounts(l: seq<Finder>, f: Finder)
    ensures multiset(ByValue(l))[f] == if f.kind.PathCb? then 0 else multiset(l)[f]
  {
    if l != [] {
      var front := l[..|l| - 1];
      assert l == front + [l[|l| - 1]];
      ByValueCounts(front, f);
    }
  }

  lemma {:induction false} TakersHave(l: seq<Stash>, f: Finder)
    requires multiset(Takers(l))[f] > 0
    ensures exists s | s in l :: s.finder == f
  {
    if l != [] {
      var front, last := l[..|l| - 1], l[|l| - 1];
      if last.finder == f {
        assert last in l;
      } else {
        TakersHave(front, f);
        assert forall s | s in front :: s in l;
      }
    }
  }

  /** Unless parsing was stopped, each finder that looks for a value has taken exactly one when it is
      handled and none otherwise, and took it at the path it found. */
  lemma OneValueEach(ws: seq<Want>, es: seq<Event>, o: Oracle, f: Finder)
    requires !DocRun(Begin(ws), es, o).failed
    ensures var d := DocRun(Begin(ws), es, o);
            && multiset(Takers(d.stashed))[f] == (if f in d.founders && !f.kind.PathCb? then 1 else 0)
            && forall s | s in d.stashed && s.finder == f :: f.id in d.foundPath && d.foundPath[f.id] == s.elPath
  {
    hide ListsOk, FoundOk, Sourced, DocRun;
    BeginOk(ws);
    Lifecycle(Begin(ws), es, o);
    var d := DocRun(Begin(ws), es, o);
    ByValueCounts(d.founders, f);
    HeldOnce(d, f);
    assert f in d.founders <==> f in multiset(d.founders);
    forall s | s in d.stashed && s.finder == f
      ensures f.id in d.foundPath && d.foundPath[f.id] == s.elPath
    {
      var i :| 0 <= i < |d.stashed| && d.stashed[i] == s;
      assert StashOk(d, d.stashed[i]);
    }
  }

  /** The finders do not influence the paths; a stopped parse has met a part of them. */
  lemma {:induction false} CursorRuns(d: Doc, es: seq<Event>, o: Oracle)
    requires DocOk(d) && Sourced(d) && !d.failed && !d.cursor.stopped
    ensures var d' := DocRun(d, es, o);
            && Before(d'.cursor.log, Run(d.cursor, es).log)
            && (!d'.failed ==> d'.cursor == Run(d.cursor, es) && !d'.cursor.stopped)
    decreases |es|
  {
    hide DocOk, Sourced, DocStep, Step, Before;
    if es == [] {
      SameBefore(d.cursor.log);
    } else {
      var d1 := DocStep(d, es[0], o);
      StepKeeps(d, es[0], o);
      if d1.failed {
        FailedStays(d1, es[1..], o);
        RunGrows(d1.cursor, es[1..]);
      } else {
        CursorRuns(d1, es[1..], o);
      }
    }
  }

  /** A parse meets exactly the elements, attributes and texts of the document, or a part of them when
      it is stopped. */
  lemma ParsedPaths(ws: seq<Want>, f: Forest, o: Oracle)
    requires Named(f)
    ensures var d := Parsed(ws, f, o);
            && After(Begin(ws), d) && Before(d.cursor.log, DocLog([], map[], f))
            && (!d.failed ==> Within(map[], f) && d.cursor.log == DocLog([], map[], f))
  {
    hide DocOk, Sourced, DocRun, Run, Before, Within, DocLog, After;
    var d := Begin(ws);
    BeginOk(ws);
    Lifecycle(d, Events(f), o);
    CursorRuns(d, Events(f), o);
    DocumentRun(f);
    BeforeTransitive(DocRun(d, Events(f), o).cursor.log, Run(Slurped(), Events(f)).log, DocLog([], map[], f));
  }

  /** The value is character data directly inside an element of the document whose path the finder's
      search selects, or the attribute of that element that the finder looks for. */
  ghost predicate Own(f: Forest, s: Stash) {
    && s.elPath in DocPaths([], map[], f)
    && PathMatch(s.finder.search.path, s.elPath, s.finder.search.wildcard)
    && if s.attr then s.finder.search.attr.Some?
                      && HasAttr(DocOpened([], map[], f), s.elPath, s.finder.search.attr.value, s.text)
       else s.finder.search.attr.None? && (s.elPath, s.text) in DocTexts([], map[], f)
  }

  /** Every value a finder takes, in any parse, stopped or not, is the finder's own. */
  lemma KeptTextIsOwn(ws: seq<Want>, f: Forest, o: Oracle, s: Stash)
    requires Named(f) && s in Parsed(ws, f, o).stashed
    ensures Own(f, s)
  {
    hide DocOk, ListsOk, Parsed, PathMatch, AttrSearch, Within, DocPaths, DocOpened, DocTexts;
    var d := Parsed(ws, f, o);
    ParsedPaths(ws, f, o);
    assert Taken(d.cursor, s);
  }

  lemma TakerAsked(ws: seq<Want>, f: Forest, o: Oracle, s: Stash)
    requires Named(f) && s in Parsed(ws, f, o).stashed
    ensures s.finder in Parsed(ws, f, o).created
  {
    hide DocOk, ListsOk, Parsed, Asked, Taken;
    ParsedPaths(ws, f, o);
  }

  /** Every finder of any parse searches for what its expression means where it was asked for: before the
      parse, or inside an element of the document. */
  lemma SearchesAreAsked(ws: seq<Want>, f: Forest, o: Oracle, g: Finder)
    requires Named(f) && g in Parsed(ws, f, o).created
    ensures ParseXPath(g.xp, g.askedAt) == Some(g.search)
    ensures g.askedAt == "/" || g.askedAt in DocPaths([], map[], f)
  {
    hide DocOk, ListsOk, Parsed, ParseXPath, Taken, Within, DocPaths;
    ParsedPaths(ws, f, o);
  }
}
