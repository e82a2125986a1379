/** What a caller's requests get from a document. */
module ExmlWants {
  import opened Basics
  import opened Strings
  import opened ExmlPaths
  import opened ExmlXPath
  import opened ExmlFinders
  import opened ExmlTheorems
  import opened ExmlFound

  // ------------------------------------------------------------ what a caller asked for

  /** The finder was made from the request, asked for before the parse. */
  ghost predicate MadeFrom(g: Finder, w: Want) {
    && g.xp == w.xp && g.required == w.required && g.kind == w.kind && g.askedAt == "/"
    && ParseXPath(w.xp, "/") == Some(g.search)
  }

  /** Each request with a valid expression makes a finder. */
  lemma {:induction false} WantMakes(d: Doc, ws: seq<Want>, k: nat) returns (g: Finder)
    requires d.cursor.elPath == "/" && k < |ws| && ParseXPath(ws[k].xp, "/").Some?
    ensures g in AddWants(d, ws).finders && MadeFrom(g, ws[k])
    decreases |ws|
  {
    hide ParseXPath;
    var d1 := AddWant(d, ws[0]);
    AddWantsOnlyAdds(d1, ws[1..]);
    if k == 0 {
      g := d1.finders[0];
      assert g in d1.finders;
    } else {
      g := WantMakes(d1, ws[1..], k - 1);
    }
  }

  /** And every finder there is before the parse was made from a request. */
  lemma {:induction false} MadeByWants(d: Doc, ws: seq<Want>, g: Finder)
    requires d.cursor.elPath == "/" && g in AddWants(d, ws).created && g !in d.created
    ensures exists k :: 0 <= k < |ws| && MadeFrom(g, ws[k])
    decreases |ws|
  {
    hide ParseXPath;
    if ws != [] {
      var d1 := AddWant(d, ws[0]);
      if g in d1.created {
        assert MadeFrom(g, ws[0]);
      } else {
        MadeByWants(d1, ws[1..], g);
        var k :| 0 <= k < |ws[1..]| && MadeFrom(g, ws[1..][k]);
        assert ws[1..][k] == ws[k + 1];
      }
    }
  }

  /** In any parse that is not stopped, each finder asked for beforehand is served by the first element of
      the document that it takes. */
  lemma FirstElementServes(ws: seq<Want>, f: Forest, o: Oracle, g: Finder, i: nat)
    requires Named(f) && !Parsed(ws, f, o).failed && g in Begin(ws).finders
    requires FirstHit(g, DocOpened([], map[], f), i)
    ensures i < |DocLeads(f)| && Served(Parsed(ws, f, o), g, DocOpened([], map[], f)[i], DocLeads(f)[i])
  {
    hide DocOk, Sourced, DocRun, Hit, Served, Begin, DocOpened, DocPaths, DocTexts, Slurped, Events, Leads, DocLeads, FirstHit;
    var elems := DocOpened([], map[], f);
    BeginOk(ws);
    ParsedPaths(ws, f, o);
    NothingMetYet();
    assert Slurped().log.elems + elems == elems;
    FirstHitServes(Begin(ws), Events(f), o, g, elems, i);
    ContentLeads(f, []);
    assert Events(f) + [] == Events(f) && DocLeads(f) + Leads([]) == DocLeads(f) by { NoLeads(f); }
  }

  lemma NothingMetYet()
    ensures Slurped().log == Log([], [], []) && !Slurped().stopped && Slurped().elPath == "/"
  {
    hide Encounter;
  }

  lemma NoLeads(f: Forest)
    ensures DocLeads(f) + Leads([]) == DocLeads(f)
  {
  }

  /** Element `i` of the document is the first that the search selects. */
  ghost predicate FirstSelected(s: Search, f: Forest, i: nat) {
    var paths := DocPaths([], map[], f);
    && i < |paths| && PathMatch(s.path, paths[i], s.wildcard)
    && forall j | 0 <= j < i :: !PathMatch(s.path, paths[j], s.wildcard)
  }

  /** The request is for text, and the first element it selects begins with text. */
  ghost predicate TextThere(w: Want, f: Forest, i: nat) {
    var s := ParseXPath(w.xp, "/");
    && !w.kind.PathCb? && s.Some? && s.value.attr.None?
    && FirstSelected(s.value, f, i) && i < |DocLeads(f)| && DocLeads(f)[i].Some?
  }

  /** A finder made from the request was handled, and the text kept for it at that element. */
  ghost predicate TextReached(d: Doc, w: Want, f: Forest, i: nat)
    requires TextThere(w, f, i)
  {
    exists g :: MadeFrom(g, w) && Got(d, g, DocPaths([], map[], f)[i], DocLeads(f)[i].value, false)
  }

  lemma FirstSelectedIsHit(g: Finder, f: Forest, i: nat)
    requires g.search.attr.None? && FirstSelected(g.search, f, i)
    ensures FirstHit(g, DocOpened([], map[], f), i) && DocOpened([], map[], f)[i].0 == DocPaths([], map[], f)[i]
  {
    hide DocOpened, DocPaths, DocLeads, PathMatch;
    ListsGoTogether([], map[], f);
  }

  /** A caller who asks for the text of an element gets it: when the first element that the request selects
      begins with text, and the parse is not stopped, the finder is handled and has that very text. */
  lemma TextReachesItsFinder(ws: seq<Want>, f: Forest, o: Oracle, k: nat, i: nat)
    requires Named(f) && !Parsed(ws, f, o).failed && k < |ws| && TextThere(ws[k], f, i)
    ensures TextReached(Parsed(ws, f, o), ws[k], f, i)
  {
    hide Parsed, AddWants, DocOpened, DocPaths, DocLeads, ParseXPath, PathMatch, Got, Hit, AttrSearch;
    var g := WantMakes(NewDoc(), ws, k) by { NewListsOk(); }
    FirstSelectedIsHit(g, f, i);
    FirstElementServes(ws, f, o, g, i);
  }

  /** Element `i` is the first that the search selects and that has a non-empty attribute of this name;
      attribute number `n` of it is the first such. */
  ghost predicate FirstWithAttr(s: Search, attr: string, f: Forest, i: nat, n: nat) {
    var elems := DocOpened([], map[], f);
    && i < |elems| && PathMatch(s.path, elems[i].0, s.wildcard) && FirstValue(elems[i].1, attr, n)
    && forall j | 0 <= j < i ::
         PathMatch(s.path, elems[j].0, s.wildcard)
         ==> forall m | 0 <= m < |elems[j].1| :: elems[j].1[m].0 != attr || elems[j].1[m].1 == ""
  }

  ghost predicate AttrThere(w: Want, f: Forest, i: nat, n: nat) {
    var s := ParseXPath(w.xp, "/");
    !w.kind.PathCb? && s.Some? && s.value.attr.Some? && FirstWithAttr(s.value, s.value.attr.value, f, i, n)
  }

  ghost predicate AttrReached(d: Doc, w: Want, f: Forest, i: nat, n: nat)
    requires AttrThere(w, f, i, n)
  {
    var (path, atts) := DocOpened([], map[], f)[i];
    exists g :: MadeFrom(g, w) && Got(d, g, path, atts[n].1, true)
  }

  lemma FirstWithAttrIsHit(g: Finder, f: Forest, i: nat, n: nat)
    requires g.search.attr.Some? && !g.kind.PathCb? && FirstWithAttr(g.search, g.search.attr.value, f, i, n)
    ensures var elems := DocOpened([], map[], f);
            FirstHit(g, elems, i) && AttrSearch(elems[i].1, g.search.attr.value) == Some(elems[i].1[n].1)
  {
    hide DocOpened, PathMatch, AttrSearch;
    var elems := DocOpened([], map[], f);
    AttrSearchIs(elems[i].1, g.search.attr.value);
    forall j | 0 <= j < i
      ensures !Hit(g, elems[j].0, elems[j].1)
    {
      AttrSearchIs(elems[j].1, g.search.attr.value);
    }
  }

  /** A caller who asks for an attribute gets the value at the first selected element that has one. */
  lemma AttrReachesItsFinder(ws: seq<Want>, f: Forest, o: Oracle, k: nat, i: nat, n: nat)
    requires Named(f) && !Parsed(ws, f, o).failed && k < |ws| && AttrThere(ws[k], f, i, n)
    ensures AttrReached(Parsed(ws, f, o), ws[k], f, i, n)
  {
    hide Parsed, AddWants, DocOpened, DocPaths, DocLeads, ParseXPath, PathMatch, Got, Hit, AttrSearch, FirstHit;
    var g := WantMakes(NewDoc(), ws, k) by { NewListsOk(); }
    assert Begin(ws) == AddWants(NewDoc(), ws);
    FirstWithAttrIsHit(g, f, i, n);
    FirstElementServes(ws, f, o, g, i);
  }

  lemma ChildPath(p: seq<string>, name: string, k: nat)
    requires k < 10
    ensures Path(Key(p, name, k)) == Path(p) + name + "[" + ["0123456789"[k]] + "]/"
  {
    PathWithSuffix(p, name, k);
  }

  /** A small document: two children of one name are told apart by their index, counted from 0, and the
      second begins with text. */
  lemma SecondChild()
    ensures var f := Elem("A", [], Elem("B", [], Nil, Elem("B", [], Text("x", Nil), Nil)), Nil);
            DocPaths([], map[], f) == ["/A[0]/", "/A[0]/B[0]/", "/A[0]/B[1]/"] && DocLeads(f) == [None, None, Some("x")]
  {
    hide Path, Key;
    var second := Elem("B", [], Text("x", Nil), Nil);
    var a := Key([], "A", 0);
    RootPath();
    ChildPath([], "A", 0);
    ChildPath(a, "B", 0);
    ChildPath(a, "B", 1);
    assert Path(a) == "/A[0]/" && Path(Key(a, "B", 0)) == "/A[0]/B[0]/" && Path(Key(a, "B", 1)) == "/A[0]/B[1]/";
    assert DocPaths(a, map[]["B" := 1], second) == ["/A[0]/B[1]/"];
    assert DocPaths(a, map[], Elem("B", [], Nil, second)) == ["/A[0]/B[0]/", "/A[0]/B[1]/"];
  }

  lemma RootPath()
    ensures Path([]) == "/"
  {
  }

  // ------------------------------------------------------------ callers who ask for strings only

  ghost predicate ForStrings(l: seq<Finder>) {
    forall g | g in l :: g.kind.Str?
  }

  /** Only strings are looked for, and `d'` was reached without a failure or a new finder. */
  ghost predicate Quiet(d: Doc, d': Doc) {
    && ForStrings(d'.finders) && ForStrings(d'.waiting) && d'.created == d.created && d'.cursor == d.cursor
    && !d'.failed
  }

  lemma {:induction false} SearchIsQuiet(d: Doc, todo: seq<Finder>, atts: Atts, o: Oracle)
    requires Quiet(d, d) && ForStrings(todo)
    ensures Quiet(d, SearchFinders(d, todo, atts, o))
    decreases |todo|
  {
    hide PathMatch, AttrSearch, Remove;
    if todo != [] {
      var f := todo[0];
      var d1 := PathFound(d, f, atts, o);
      RemoveCounts(d.finders, f);
      if PathMatch(f.search.path, d.cursor.elPath, f.search.wildcard) {
        SearchIsQuiet(d1, todo[1..], atts, o);
      } else {
        SearchIsQuiet(d, todo[1..], atts, o);
      }
    }
  }

  lemma {:induction false} TextIsQuiet(d: Doc, todo: seq<Finder>, text: string, o: Oracle)
    requires Quiet(d, d) && ForStrings(todo)
    ensures Quiet(d, TakeText(d, todo, text, o))
    decreases |todo|
  {
    hide Remove;
    if todo != [] {
      var f := todo[0];
      RemoveCounts(d.waiting, f);
      if WaitsHere(d, f) {
        TextIsQuiet(ValueTaken(StashValue(d, f, text, false, o).0, f), todo[1..], text, o);
      } else {
        TextIsQuiet(d, todo[1..], text, o);
      }
    }
  }

  lemma StepIsQuiet(d: Doc, e: Event, o: Oracle)
    requires Quiet(d, d)
    ensures var d' := DocStep(d, e, o);
            && d'.created == d.created && d'.cursor == Step(d.cursor, e) && (d'.failed <==> d'.cursor.stopped)
            && (!d'.failed ==> Quiet(d', d'))
  {
    hide Step, SearchFinders, TakeText;
    var d1 := Moved(d, e);
    if !d1.cursor.stopped {
      SearchIsQuiet(d1, d1.finders, if e.Start? then e.atts else [], o);
      TextIsQuiet(d1, d1.waiting, if e.Data? then e.text else "", o);
    }
  }

  /** Parsing for strings is stopped only where the paths run out. */
  lemma {:induction false} RunIsQuiet(d: Doc, es: seq<Event>, o: Oracle)
    requires Quiet(d, d) && !d.failed && !d.cursor.stopped
    ensures var d' := DocRun(d, es, o);
            d'.created == d.created && (d'.failed <==> Run(d.cursor, es).stopped)
    decreases |es|
  {
    hide Quiet, DocStep, Step;
    if es != [] {
      var d1 := DocStep(d, es[0], o);
      StepIsQuiet(d, es[0], o);
      if d1.failed {
        FailedStays(d1, es[1..], o);
        StoppedStays(d1.cursor, es[1..]);
      } else {
        RunIsQuiet(d1, es[1..], o);
      }
    }
  }

  /** The document has the value that the request asks for. */
  ghost predicate There(w: Want, f: Forest) {
    (exists i :: TextThere(w, f, i)) || (exists i, n :: AttrThere(w, f, i, n))
  }

  lemma AllUnfound(ws: seq<Want>, g: Finder)
    ensures var d := Begin(ws);
            && d.waiting == [] && d.founders == [] && (g in d.created <==> g in d.finders) && !d.failed
            && (g in d.created ==> exists k :: 0 <= k < |ws| && MadeFrom(g, ws[k]))
  {
    hide ListsOk, MadeFrom, Asked;
    NewListsOk();
    AddWantsKeeps(NewDoc(), ws);
    HeldOnce(Begin(ws), g);
    if g in Begin(ws).created {
      MadeByWants(NewDoc(), ws, g);
    }
  }

  lemma BeginIsQuiet(ws: seq<Want>)
    requires forall w | w in ws :: w.kind.Str?
    ensures Quiet(Begin(ws), Begin(ws))
  {
    hide Begin, ParseXPath;
    var d := Begin(ws);
    AllUnfound(ws, Finder(0, Search("", false, None), false, Str, "", ""));
    forall g | g in d.finders
      ensures g.kind.Str?
    {
      AllUnfound(ws, g);
      var k :| 0 <= k < |ws| && MadeFrom(g, ws[k]);
      assert ws[k] in ws;
    }
  }

  lemma ThereIsMet(ws: seq<Want>, f: Forest, o: Oracle, g: Finder, w: Want)
    requires Named(f) && !Parsed(ws, f, o).failed && g in Begin(ws).finders && MadeFrom(g, w) && There(w, f)
    ensures g in Parsed(ws, f, o).founders
  {
    hide Parsed, Begin, DocOpened, DocPaths, DocLeads, ParseXPath, PathMatch, Hit, AttrSearch, FirstHit, FirstSelected,
      FirstWithAttr;
    if i :| TextThere(w, f, i) {
      FirstSelectedIsHit(g, f, i);
      FirstElementServes(ws, f, o, g, i);
    } else {
      var i, n :| AttrThere(w, f, i, n);
      FirstWithAttrIsHit(g, f, i, n);
      FirstElementServes(ws, f, o, g, i);
    }
  }

  /** A caller who asks for strings only: parsing is stopped exactly when some parent has more than 10000
      children of one name, and succeeds when the document has each required value. */
  lemma StringsAreParsed(ws: seq<Want>, f: Forest, o: Oracle)
    requires Named(f) && forall w | w in ws :: w.kind.Str?
    ensures var d := Parsed(ws, f, o);
            && (ParseResult(d) == -EIO <==> !Within(map[], f))
            && (Within(map[], f) && (forall w | w in ws && w.required :: There(w, f)) ==> ParseResult(d) == 0)
  {
    hide DocRun, Begin, Within, There, MadeFrom, AnyRequired;
    var d := Parsed(ws, f, o);
    BeginOk(ws);
    BeginIsQuiet(ws);
    NothingMetYet();
    RunIsQuiet(Begin(ws), Events(f), o);
    DocumentRun(f);
    SucceedsExactlyWhenFound(ws, Events(f), o);
    if Within(map[], f) && forall w | w in ws && w.required :: There(w, f) {
      forall g | g in d.created && g.required
        ensures g in d.founders
      {
        AllUnfound(ws, g);
        var k :| 0 <= k < |ws| && MadeFrom(g, ws[k]);
        RequiredAlike(g, ws[k]);
        ThereIsMet(ws, f, o, g, ws[k]);
      }
    }
  }

  lemma RequiredAlike(g: Finder, w: Want)
    requires MadeFrom(g, w)
    ensures g.required == w.required
  {
  }

  // ------------------------------------------------------------ a caller who asks for one text

  /** The only finder waits for text at `path`; while text is listened for, the parse is outside. */
  ghost predicate WaitsInVain(d: Doc, g: Finder, path: string) {
    && d.finders == [] && d.waiting == [g] && d.founders == []
    && g.id in d.foundPath && d.foundPath[g.id] == path
    && (d.listening ==> |d.cursor.elPath| < |path|)
  }

  lemma EndShortens(c: Cursor, name: string)
    ensures var c' := Step(c, Finish(name));
            !c.stopped && !c'.stopped ==> |c'.elPath| < |c.elPath|
  {
    hide LastIndexOf;
  }

  lemma TextPassesBy(d: Doc, text: string, o: Oracle, g: Finder)
    requires !WaitsHere(d, g)
    ensures TakeText(d, [g], text, o) == d
  {
    assert [g][1..] == [];
  }

  lemma StepWaitsInVain(d: Doc, e: Event, o: Oracle, g: Finder, path: string)
    requires WaitsInVain(d, g, path) && !d.failed && !d.cursor.stopped && !DocStep(d, e, o).failed
    ensures WaitsInVain(DocStep(d, e, o), g, path) && !DocStep(d, e, o).cursor.stopped
  {
    hide Step, TakeText, Plus;
    if e.Finish? {
      EndShortens(d.cursor, e.name);
    } else if e.Data? && d.listening {
      SamePlace(d.cursor, e);
      TextPassesBy(Moved(d, e), e.text, o, g);
    }
  }

  lemma SamePlace(c: Cursor, e: Event)
    requires e.Data?
    ensures Step(c, e).elPath == c.elPath && Step(c, e).stopped == c.stopped
  {
  }

  lemma {:induction false} RunWaitsInVain(d: Doc, es: seq<Event>, o: Oracle, g: Finder, path: string)
    requires WaitsInVain(d, g, path) && !d.failed && !d.cursor.stopped && !DocRun(d, es, o).failed
    ensures DocRun(d, es, o).founders == []
    decreases |es|
  {
    hide DocStep;
    if es != [] {
      var d1 := DocStep(d, es[0], o);
      if d1.failed {
        FailedStays(d1, es[1..], o);
      } else {
        StepWaitsInVain(d, es[0], o, g, path);
        RunWaitsInVain(d1, es[1..], o, g, path);
      }
    }
  }

  /** Only `g` is looked for, and it looks for text. */
  ghost predicate Lone(d: Doc, g: Finder) {
    d.finders == [g] && d.waiting == [] && d.founders == [] && g.kind.Str? && g.search.attr.None?
  }

  lemma LoneStep(d: Doc, e: Event, o: Oracle, g: Finder)
    requires Lone(d, g) && !d.failed && !d.cursor.stopped && !DocStep(d, e, o).failed
    ensures var d' := DocStep(d, e, o);
            if e.Start? && Hit(g, d'.cursor.elPath, e.atts)
            then d'.finders == [] && d'.waiting == [g] && d'.founders == []
                 && g.id in d'.foundPath && d'.foundPath[g.id] == d'.cursor.elPath
            else Lone(d', g)
  {
    hide Step, PathMatch, SearchFinders, Remove;
    var d1 := Moved(d, e);
    if e.Start? {
      LoneSearch(d1, e.atts, o, g);
    } else if e.Data? && d.listening {
      assert TakeText(d1, [], e.text, o) == d1;
    }
  }

  lemma LoneSearch(d: Doc, atts: Atts, o: Oracle, g: Finder)
    requires Lone(d, g) && !d.failed
    ensures SearchFinders(d, [g], atts, o) == if Hit(g, d.cursor.elPath, atts) then Await(AtPath(d, g), g) else d
    ensures Await(AtPath(d, g), g).finders == []
  {
    hide PathMatch;
    assert [g][1..] == [];
    assert Remove([g], g) == [];
  }

  /** After a start tag that no text follows. */
  lemma NoTextFollows(d: Doc, es: seq<Event>, o: Oracle, g: Finder)
    requires d.finders == [] && d.waiting == [g] && d.founders == [] && g.id in d.foundPath
    requires d.foundPath[g.id] == d.cursor.elPath && LeadOf(es).None?
    requires !d.failed && !d.cursor.stopped && !DocRun(d, es, o).failed
    ensures DocRun(d, es, o).founders == []
  {
    hide Encounter, EndElement, LastIndexOf, Plus;
    if es != [] {
      var d1 := DocStep(d, es[0], o);
      if d1.failed {
        FailedStays(d1, es[1..], o);
      } else {
        if es[0].Finish? {
          EndShortens(d.cursor, es[0].name);
        }
        RunWaitsInVain(d1, es[1..], o, g, d.cursor.elPath);
      }
    }
  }

  /** A lone finder whose first element does not begin with text is never handled. */
  lemma {:induction false} WithoutLeadUnfound(d: Doc, es: seq<Event>, o: Oracle, g: Finder,
                                              elems: seq<(string, Atts)>, i: nat)
    requires DocOk(d) && Sourced(d) && !d.failed && !d.cursor.stopped && Lone(d, g)
    requires !DocRun(d, es, o).failed && Between(d, elems, DocRun(d, es, o)) && FirstHit(g, elems, i)
    requires i < |Leads(es)| ==> Leads(es)[i].None?
    ensures DocRun(d, es, o).founders == []
    decreases |es|
  {
    hide DocOk, Sourced, DocStep, DocRun, Hit, LeadOf, Leads, Step, Lone, Between, FirstHit;
    SomethingOpens(d, es, o, g, elems, i);
    var e, later := es[0], es[1..];
    var d1 := DocStep(d, e, o);
    RunGoesOn(d, es, o);
    OpensFirst(d, es, o, elems);
    LoneStep(d, e, o, g);
    LeadsFirst(es);
    if !e.Start? {
      WithoutLeadUnfound(d1, later, o, g, elems, i);
    } else if i > 0 {
      FirstHitLater(g, elems, i);
      WithoutLeadUnfound(d1, later, o, g, elems[1..], i - 1);
    } else {
      FirstIsHit(g, elems);
      NoTextFollows(d1, later, o, g);
    }
  }

  lemma FirstOf(s: Search, paths: seq<string>, k: nat) returns (i: nat)
    requires k < |paths| && PathMatch(s.path, paths[k], s.wildcard)
    ensures i <= k && PathMatch(s.path, paths[i], s.wildcard)
    ensures forall j | 0 <= j < i :: !PathMatch(s.path, paths[j], s.wildcard)
  {
    hide PathMatch;
    i := 0;
    while !PathMatch(s.path, paths[i], s.wildcard)
      invariant i <= k && forall j | 0 <= j < i :: !PathMatch(s.path, paths[j], s.wildcard)
      decreases k - i
    {
      i := i + 1;
    }
  }

  lemma LoneBegin(w: Want) returns (g: Finder)
    requires w.kind.Str? && ParseXPath(w.xp, "/").Some? && ParseXPath(w.xp, "/").value.attr.None?
    ensures Lone(Begin([w]), g) && MadeFrom(g, w) && Begin([w]).created == [g]
  {
    hide ParseXPath;
    NewListsOk();
    var d := AddWant(NewDoc(), w);
    assert [w][1..] == [] && AddWants(d, []) == d;
    g := d.finders[0];
  }

  lemma LoneWithoutLead(ws: seq<Want>, f: Forest, o: Oracle, g: Finder, i: nat)
    requires Named(f) && !Parsed(ws, f, o).failed && Lone(Begin(ws), g)
    requires FirstHit(g, DocOpened([], map[], f), i) && i < |DocLeads(f)| && DocLeads(f)[i].None?
    ensures Parsed(ws, f, o).founders == []
  {
    hide DocOk, Sourced, DocRun, Hit, Begin, DocOpened, DocPaths, DocTexts, Slurped, Events, Leads, DocLeads, FirstHit, Lone;
    var elems := DocOpened([], map[], f);
    BeginOk(ws);
    ParsedPaths(ws, f, o);
    NothingMetYet();
    assert Slurped().log.elems + elems == elems;
    ContentLeads(f, []);
    assert Events(f) + [] == Events(f) && DocLeads(f) + Leads([]) == DocLeads(f) by { NoLeads(f); }
    WithoutLeadUnfound(Begin(ws), Events(f), o, g, elems, i);
  }

  /** A handled finder for text has selected some element; if it was the only finder, the first of them
      begins with text. */
  lemma LoneHandled(w: Want, f: Forest, o: Oracle, g: Finder)
    requires Named(f) && w.kind.Str? && Lone(Begin([w]), g) && MadeFrom(g, w)
    requires !Parsed([w], f, o).failed && g in Parsed([w], f, o).founders
    ensures exists i :: TextThere(w, f, i)
  {
    hide DocOk, Sourced, DocRun, Begin, DocOpened, DocPaths, DocTexts, DocLeads, Leads, ParseXPath, PathMatch, Hit, FirstHit,
      Takers, Slurped;
    var d := Parsed([w], f, o);
    OneValueEach([w], Events(f), o, g);
    TakersHave(d.stashed, g);
    var s :| s in d.stashed && s.finder == g;
    KeptTextIsOwn([w], f, o, s);
    var paths := DocPaths([], map[], f);
    var k :| 0 <= k < |paths| && paths[k] == s.elPath;
    var i := FirstOf(g.search, paths, k);
    FirstSelectedIsHit(g, f, i);
    ListsGoTogether([], map[], f);
    if DocLeads(f)[i].None? {
      LoneWithoutLead([w], f, o, g, i);
      assert false;
    }
    assert TextThere(w, f, i);
  }

  /** For one required text the condition is exact: the parse succeeds if and only if no parent has more
      than 10000 children of one name and the content of the first element selected begins with text.
      Text behind a child element, or in a later selected element, does not do. */
  lemma OneTextExactly(w: Want, f: Forest, o: Oracle)
    requires Named(f) && w.kind.Str? && w.required
    requires ParseXPath(w.xp, "/").Some? && ParseXPath(w.xp, "/").value.attr.None?
    ensures ParseResult(Parsed([w], f, o)) == 0 <==> Within(map[], f) && exists i :: TextThere(w, f, i)
  {
    hide DocRun, Begin, Within, TextThere, ParseXPath, AnyRequired;
    var d := Parsed([w], f, o);
    StringsAreParsed([w], f, o);
    var g := LoneBegin(w);
    SucceedsExactlyWhenFound([w], Events(f), o);
    if ParseResult(d) == 0 {
      BeginOk([w]);
      Lifecycle(Begin([w]), Events(f), o);
      BeginIsQuiet([w]);
      NothingMetYet();
      RunIsQuiet(Begin([w]), Events(f), o);
      assert g in d.created;
      LoneHandled(w, f, o, g);
    } else if exists i :: TextThere(w, f, i) {
      assert There(w, f);
    }
  }

  /** All requests of a caller together. */
  lemma WantsAreServed(ws: seq<Want>, f: Forest, o: Oracle)
    requires Named(f) && !Parsed(ws, f, o).failed
    ensures forall k: nat, i: nat | k < |ws| && TextThere(ws[k], f, i) :: TextReached(Parsed(ws, f, o), ws[k], f, i)
    ensures forall k: nat, i: nat, n: nat | k < |ws| && AttrThere(ws[k], f, i, n) ::
              AttrReached(Parsed(ws, f, o), ws[k], f, i, n)
  {
    hide Parsed, TextThere, AttrThere, TextReached, AttrReached;
    forall k: nat, i: nat | k < |ws| && TextThere(ws[k], f, i)
      ensures TextReached(Parsed(ws, f, o), ws[k], f, i)
    {
      TextReachesItsFinder(ws, f, o, k, i);
    }
    forall k: nat, i: nat, n: nat | k < |ws| && AttrThere(ws[k], f, i, n)
      ensures AttrReached(Parsed(ws, f, o), ws[k], f, i, n)
    {
      AttrReachesItsFinder(ws, f, o, k, i, n);
    }
  }
}
