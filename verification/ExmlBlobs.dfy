/** The blob list of lib/azure_blob_req.c: one entry for each blob element, filled from that element. */
module ExmlBlobs {
  import opened Basics
  import opened Strings
  import opened ExmlPaths
  import opened ExmlXPath
  import opened ExmlFinders
  import opened ExmlTheorems
  import opened ExmlReadd
  import opened ExmlScope

  const BLOB_ITER := 0
  const BLOB_TYPE := 1
  const LEASE_STATUS := 2
  const CONTENT_LENGTH := 0
  const BLOB_PATH := "/EnumerationResults/Blobs/Blob"

  /** What az_rsp_blob_iter_process asks for at each blob. */
  function BlobIterWants(): seq<Want> {
    [Want(BLOB_PATH, false, PathCb(BLOB_ITER)),
     Want("./Name", true, Str),
     Want("./Properties/Content-Length", true, Typed(CONTENT_LENGTH)),
     Want("./Properties/BlobType", true, ValueCb(BLOB_TYPE)),
     Want("./Properties/LeaseStatus", false, ValueCb(LEASE_STATUS))]
  }

  /** An oracle under which the blob callback asks as above, and the value callbacks ask for nothing. */
  ghost predicate BlobOracle(o: Oracle) {
    forall n: nat, f: Finder, path: string, text: Option<string> {:trigger o(n, f, path, text)} ::
      o(n, f, path, text).wants == if f.kind == PathCb(BLOB_ITER) && text.None? then BlobIterWants() else []
  }

  lemma AsksCons(w: Want, ws: seq<Want>, c: nat)
    ensures Asks([w] + ws, c) == (if w.kind == PathCb(c) then [w] else []) + Asks(ws, c)
  {
    assert ([w] + ws)[1..] == ws;
  }

  lemma BlobIterAsks()
    ensures Asks(BlobIterWants(), BLOB_ITER) == [Want(BLOB_PATH, false, PathCb(BLOB_ITER))]
  {
    hide Asks;
    var all := BlobIterWants();
    assert all == [all[0]] + all[1..];
    AsksCons(all[0], all[1..], BLOB_ITER);
    NobodyAsks(all[1..]);
  }

  lemma {:induction false} NobodyAsks(ws: seq<Want>)
    requires forall i | 0 <= i < |ws| :: ws[i].kind != PathCb(BLOB_ITER)
    ensures Asks(ws, BLOB_ITER) == []
  {
    if ws != [] {
      NobodyAsks(ws[1..]);
    }
  }

  lemma BlobOracleReAsks(o: Oracle)
    requires BlobOracle(o)
    ensures ReAsks(o, BLOB_ITER, BLOB_PATH)
  {
    BlobIterAsks();
  }

  lemma BlobPathParses()
    ensures BLOB_PATH != "" && BLOB_PATH[0] == '/'
    ensures ParseXPath(BLOB_PATH, "/") == Some(Search(BLOB_PATH + "/", false, None))
  {
    AbsoluteExpands(BLOB_PATH, "/");
  }

  function FirstWant(): Want {
    Want(BLOB_PATH, false, PathCb(BLOB_ITER))
  }

  /** The parse of a blob list, for which one finder is asked beforehand. */
  function BlobListing(f: Forest, o: Oracle): Doc {
    Parsed([FirstWant()], f, o)
  }

  /** The paths of the document's blob elements, in document order. */
  function Blobs(f: Forest): seq<string> {
    Selected(DocPaths([], map[], f), Search(BLOB_PATH + "/", false, None))
  }

  /** Listing blobs creates one entry for each blob element, in document order. */
  lemma BlobListIsComplete(f: Forest, o: Oracle)
    requires Named(f) && BlobOracle(o)
    ensures !BlobListing(f, o).failed ==> Firings(BlobListing(f, o).fired, BLOB_ITER) == Blobs(f)
  {
    hide Parsed, ParseXPath, DocPaths, Selected, Firings, BlobOracle, ReAsks;
    AsksCons(FirstWant(), [], BLOB_ITER);
    assert [FirstWant()] + [] == [FirstWant()];
    BlobOracleReAsks(o);
    BlobPathParses();
    if !BlobListing(f, o).failed {
      FiresOncePerMatch([FirstWant()], f, o, BLOB_ITER, BLOB_PATH);
    }
  }

  // ------------------------------------------------------------ the finders of a listing

  /** The finders that requests at `path` create, the first with number `n`. */
  function Making(n: nat, ws: seq<Want>, path: string): seq<Finder>
    decreases |ws|
  {
    if ws == [] then []
    else
      var search := ParseXPath(ws[0].xp, path);
      if search.None? then Making(n, ws[1..], path)
      else [Finder(n, search.value, ws[0].required, ws[0].kind, ws[0].xp, path)] + Making(n + 1, ws[1..], path)
  }

  lemma {:induction false} AddWantsMake(d: Doc, ws: seq<Want>)
    ensures var d' := AddWants(d, ws);
            && d'.created == d.created + Making(|d.created|, ws, d.cursor.elPath)
            && d'.fired == d.fired && d'.cursor == d.cursor
    decreases |ws|
  {
    hide ParseXPath;
    if ws != [] {
      AddWantsMake(AddWant(d, ws[0]), ws[1..]);
    }
  }

  /** All finders of a listing whose blob callback ran at these paths. */
  function BlobFinders(paths: seq<string>): seq<Finder> {
    if paths == [] then Making(0, [FirstWant()], "/")
    else
      var before := BlobFinders(paths[..|paths| - 1]);
      before + Making(|before|, BlobIterWants(), paths[|paths| - 1])
  }

  lemma BlobFindersSnoc(paths: seq<string>, path: string)
    ensures var before := BlobFinders(paths);
            BlobFinders(paths + [path]) == before + Making(|before|, BlobIterWants(), path)
  {
    hide Making, BlobIterWants;
    assert (paths + [path])[..|paths|] == paths;
  }

  ghost predicate MadeSoFar(d: Doc) {
    d.created == BlobFinders(Firings(d.fired, BLOB_ITER))
  }

  /** Nothing is asked for when a value is handed over. */
  lemma StashMakesNothing(d: Doc, f: Finder, text: string, attr: bool, o: Oracle)
    requires BlobOracle(o)
    ensures var d' := StashValue(d, f, text, attr, o).0;
            d'.created == d.created && d'.fired == d.fired && d'.cursor == d.cursor
  {
    hide BlobIterWants;
  }

  lemma CallbackMakes(d: Doc, f: Finder, o: Oracle)
    requires BlobOracle(o) && MadeSoFar(d) && f.kind.PathCb?
    ensures var d' := AddWants(CalledBack(d, f.kind.cb), o(d.calls, f, d.cursor.elPath, None).wants);
            MadeSoFar(d') && d'.cursor == d.cursor
  {
    hide BlobIterWants, Making, BlobFinders;
    var wants := o(d.calls, f, d.cursor.elPath, None).wants;
    var d1 := CalledBack(d, f.kind.cb);
    assert d1.fired[..|d.fired|] == d.fired;
    AddWantsMake(d1, wants);
    if f.kind.cb == BLOB_ITER {
      BlobFindersSnoc(Firings(d.fired, BLOB_ITER), d.cursor.elPath);
    } else {
      assert wants == [] && AddWants(d1, wants) == d1;
      assert Firings(d1.fired, BLOB_ITER) == Firings(d.fired, BLOB_ITER);
    }
  }

  lemma FoundMakes(d: Doc, f: Finder, atts: Atts, o: Oracle)
    requires BlobOracle(o) && MadeSoFar(d)
    ensures MadeSoFar(PathFound(d, f, atts, o)) && PathFound(d, f, atts, o).cursor == d.cursor
  {
    hide BlobOracle, BlobIterWants, BlobFinders, Firings, AddWants, StashValue, AttrSearch, Remove;
    var d1 := AtPath(d, f);
    if f.kind.PathCb? {
      CallbackMakes(d1, f, o);
    } else if f.search.attr.Some? {
      var val := AttrSearch(atts, f.search.attr.value);
      if val.Some? {
        StashMakesNothing(d1, f, val.value, true, o);
      }
    }
  }

  lemma {:induction false} SearchMakes(d: Doc, todo: seq<Finder>, atts: Atts, o: Oracle)
    requires BlobOracle(o) && MadeSoFar(d)
    ensures MadeSoFar(SearchFinders(d, todo, atts, o))
    decreases |todo|
  {
    hide BlobOracle, MadeSoFar, PathFound, PathMatch;
    if todo != [] && !d.failed {
      FoundMakes(d, todo[0], atts, o);
      SearchMakes(PathFound(d, todo[0], atts, o), todo[1..], atts, o);
      SearchMakes(d, todo[1..], atts, o);
    }
  }

  lemma {:induction false} TextMakes(d: Doc, todo: seq<Finder>, text: string, o: Oracle)
    requires BlobOracle(o) && MadeSoFar(d)
    ensures MadeSoFar(TakeText(d, todo, text, o))
    decreases |todo|
  {
    hide BlobOracle, BlobFinders, Firings, StashValue, Remove;
    if todo != [] && !d.failed {
      var f := todo[0];
      StashMakesNothing(d, f, text, false, o);
      TextMakes(d, todo[1..], text, o);
      TextMakes(ValueTaken(StashValue(d, f, text, false, o).0, f), todo[1..], text, o);
    }
  }

  lemma StepMakes(d: Doc, e: Event, o: Oracle)
    requires BlobOracle(o) && MadeSoFar(d)
    ensures MadeSoFar(DocStep(d, e, o))
  {
    hide BlobOracle, BlobFinders, Firings, SearchFinders, TakeText, Step;
    var d1 := Moved(d, e);
    if e.Start? {
      SearchMakes(d1, d1.finders, e.atts, o);
    } else if e.Data? {
      TextMakes(d1, d1.waiting, e.text, o);
    }
  }

  lemma {:induction false} RunMakes(d: Doc, es: seq<Event>, o: Oracle)
    requires BlobOracle(o) && MadeSoFar(d)
    ensures MadeSoFar(DocRun(d, es, o))
    decreases |es|
  {
    hide BlobOracle, MadeSoFar, DocStep;
    if es != [] {
      StepMakes(d, es[0], o);
      RunMakes(DocStep(d, es[0], o), es[1..], o);
    }
  }

  /** The finders created in a listing, stopped or not, are the first one and, for each run of the blob
      callback in turn, those it asks for at its path. */
  lemma FindersOfListing(f: Forest, o: Oracle)
    requires BlobOracle(o)
    ensures MadeSoFar(BlobListing(f, o))
  {
    hide BlobOracle, DocRun, Making;
    AddWantsMake(NewDoc(), [FirstWant()]);
    assert BlobFinders([]) == [] + Making(0, [FirstWant()], "/");
    RunMakes(Begin([FirstWant()]), Events(f), o);
  }

  // ------------------------------------------------------------ the entries

  /** What request `m` of a blob looks for below it. */
  function Below(m: nat): string
    requires 1 <= m <= 4
  {
    match m
    case 1 => "Name"
    case 2 => "Properties/Content-Length"
    case 3 => "Properties/BlobType"
    case 4 => "Properties/LeaseStatus"
  }

  lemma BelowIsAsked(m: nat)
    requires 1 <= m <= 4
    ensures |BlobIterWants()| == 5
    ensures BlobIterWants()[m].xp == "./" + Below(m) && Plain(Below(m))
    ensures !BlobIterWants()[m].kind.PathCb? && (m <= 3 ==> BlobIterWants()[m].required)
  {
    hide Plain;
    match m
    case 1 => NameBelow();
    case 2 => LengthBelow(); LengthPlain();
    case 3 => TypeBelow(); TypePlain();
    case 4 => LeaseBelow(); LeasePlain();
  }

  lemma NameBelow()
    ensures "./Name" == "./" + "Name" && Plain("Name")
  {
  }

  lemma LengthBelow()
    ensures "./Properties/Content-Length" == "./" + "Properties/Content-Length"
  {
  }

  lemma LengthPlain()
    ensures Plain("Properties/Content-Length")
  {
  }

  lemma TypeBelow()
    ensures "./Properties/BlobType" == "./" + "Properties/BlobType"
  {
  }

  lemma TypePlain()
    ensures Plain("Properties/BlobType")
  {
  }

  lemma LeaseBelow()
    ensures "./Properties/LeaseStatus" == "./" + "Properties/LeaseStatus"
  {
  }

  lemma LeasePlain()
    ensures Plain("Properties/LeaseStatus")
  {
  }

  lemma WantParses(m: nat, path: string)
    requires m <= 4 && ElementToks(Tokens(path)) && path == Path(Tokens(path))
    ensures |BlobIterWants()| == 5
    ensures ParseXPath(BlobIterWants()[m].xp, path).Some? && ParseXPath(BlobIterWants()[m].xp, path).value.attr.None?
  {
    hide ParseXPath, ElementToks, Tokens, Path, Plain;
    if m == 0 {
      BlobPathParses();
      AbsoluteIsFixed(BLOB_PATH, path, "/");
    } else {
      BelowIsAsked(m);
      RelativeParses(Tokens(path), Below(m));
    }
  }

  function Made(n: nat, w: Want, path: string): Finder
    requires ParseXPath(w.xp, path).Some?
  {
    Finder(n, ParseXPath(w.xp, path).value, w.required, w.kind, w.xp, path)
  }

  lemma {:induction false} MakingAll(n: nat, ws: seq<Want>, path: string, m: nat)
    requires forall i | 0 <= i < |ws| :: ParseXPath(ws[i].xp, path).Some?
    ensures |Making(n, ws, path)| == |ws|
    ensures m < |ws| ==> Making(n, ws, path)[m] == Made(n + m, ws[m], path)
    decreases |ws|
  {
    hide ParseXPath;
    if ws != [] {
      MakingAll(n + 1, ws[1..], path, if m == 0 then 0 else m - 1);
    }
  }

  lemma BlobMaking(n: nat, path: string, m: nat)
    requires ElementToks(Tokens(path)) && path == Path(Tokens(path)) && m <= 4
    ensures var w := BlobIterWants()[m];
            && |Making(n, BlobIterWants(), path)| == 5
            && ParseXPath(w.xp, path).Some? && Making(n, BlobIterWants(), path)[m] == Made(n + m, w, path)
  {
    hide ParseXPath, ElementToks, Tokens, Path, Making, BlobIterWants;
    forall i | 0 <= i <= 4
      ensures |BlobIterWants()| == 5 && ParseXPath(BlobIterWants()[i].xp, path).Some?
    {
      WantParses(i, path);
    }
    assert |BlobIterWants()| == 5 by { WantParses(0, path); }
    MakingAll(n, BlobIterWants(), path, m);
  }

  /** Request `m` at the blob of number `k` is finder 5k + m + 1. */
  lemma {:induction false} BlobFinderAt(paths: seq<string>, k: nat, m: nat)
    requires ElementPaths(paths) && m <= 4
    ensures |BlobFinders(paths)| == 1 + 5 * |paths|
    ensures k < |paths| ==>
              var n, w := 1 + 5 * k + m, BlobIterWants()[m];
              ParseXPath(w.xp, paths[k]).Some? && BlobFinders(paths)[n] == Made(n, w, paths[k])
  {
    hide ParseXPath, ElementPaths, ElementToks, Tokens, Path, BlobIterWants, Making;
    if paths == [] {
      BlobPathParses();
      MakingAll(0, [FirstWant()], "/", 0);
    } else {
      var front, last := paths[..|paths| - 1], paths[|paths| - 1];
      FrontPaths(paths);
      BlobFinderAt(front, k, m);
      BlobMaking(|BlobFinders(front)|, last, m);
      BlobFindersSnoc(front, last);
      assert paths == front + [last];
    }
  }

  lemma FrontPaths(paths: seq<string>)
    requires ElementPaths(paths) && paths != []
    ensures var last := paths[|paths| - 1];
            ElementPaths(paths[..|paths| - 1]) && ElementToks(Tokens(last)) && last == Path(Tokens(last))
  {
    hide ElementToks, Tokens, Path;
    assert forall x | x in paths[..|paths| - 1] :: x in paths;
    assert paths[|paths| - 1] in paths;
  }

  lemma {:induction false} SelectedAre(paths: seq<string>, s: Search)
    ensures forall x | x in Selected(paths, s) :: x in paths && PathMatch(s.path, x, s.wildcard)
  {
    hide PathMatch;
    if paths != [] {
      SelectedAre(paths[..|paths| - 1], s);
    }
  }

  lemma BlobsAreElements(f: Forest)
    requires Named(f)
    ensures ElementPaths(Blobs(f))
  {
    hide ElementToks, Tokens, Path, DocPaths, PathMatch;
    DocPathsAreIndexed([], map[], f) by { NoToks(); }
    SelectedAre(DocPaths([], map[], f), Search(BLOB_PATH + "/", false, None));
  }

  lemma NoToks()
    ensures ElementToks([]) && AllTokens([])
  {
  }

  /** Finder `m` of entry `k`: asked for at blob element `k`, as what request `m` of the blob callback
      means there. */
  lemma EntryFinder(f: Forest, o: Oracle, k: nat, m: nat)
    requires Named(f) && BlobOracle(o) && !BlobListing(f, o).failed && k < |Blobs(f)| && 1 <= m <= 4
    ensures var d := BlobListing(f, o);
            && |d.created| == 1 + 5 * |Blobs(f)|
            && var g := d.created[1 + 5 * k + m];
               && g.askedAt == Blobs(f)[k] && g.xp == "./" + Below(m) && g.search.attr.None?
               && !g.kind.PathCb? && (m <= 3 ==> g.required)
  {
    hide ParseXPath, BlobListing, BlobOracle, ElementToks, Tokens, Path, BlobIterWants, BlobFinders, Firings, Blobs, Below;
    BlobListIsComplete(f, o);
    FindersOfListing(f, o);
    BlobsAreElements(f);
    BlobFinderAt(Blobs(f), k, m);
    BelowIsAsked(m);
    assert Blobs(f)[k] in Blobs(f);
    WantParses(m, Blobs(f)[k]);
  }

  /** The text is character data of the document, directly inside an element that lies at `name` below
      the element at `path`. */
  ghost predicate OwnText(f: Forest, path: string, name: string, s: Stash) {
    var dir := Tokens(path);
    && dir <= Tokens(s.elPath) && TokensMatch(Tokens(name), Tokens(s.elPath)[|dir|..], false)
    && (s.elPath, s.text) in DocTexts([], map[], f)
  }

  lemma TakenByEntry(f: Forest, o: Oracle, g: Finder)
    requires ParseResult(BlobListing(f, o)) == 0 && g in BlobListing(f, o).created && !g.kind.PathCb?
    ensures var d := BlobListing(f, o);
            && multiset(Takers(d.stashed))[g] == (if g in d.founders then 1 else 0)
            && (g.required ==> exists s | s in d.stashed :: s.finder == g)
  {
    hide DocRun, Begin, Takers, AnyRequired;
    var d := BlobListing(f, o);
    SucceedsExactlyWhenFound([FirstWant()], Events(f), o);
    OneValueEach([FirstWant()], Events(f), o, g);
    if g.required {
      TakersHave(d.stashed, g);
    }
  }

  lemma TextOfEntry(f: Forest, o: Oracle, s: Stash, name: string)
    requires Named(f) && Plain(name) && s in BlobListing(f, o).stashed
    requires s.finder.xp == "./" + name && s.finder.search.attr.None?
    ensures OwnText(f, s.finder.askedAt, name, s)
  {
    hide Parsed, Plain, TokensMatch, PathMatch, Tokens, DocPaths, DocTexts, DocOpened;
    RelativeStaysInside([FirstWant()], f, o, s, name);
    KeptTextIsOwn([FirstWant()], f, o, s);
  }

  /** When a blob list has been parsed, each entry has its own values: name, length and type (and lease
      status if it was found) are each one text from inside the entry's blob element, at the place asked
      for. */
  lemma BlobEntriesAreOwn(f: Forest, o: Oracle, k: nat, m: nat)
    requires Named(f) && BlobOracle(o) && ParseResult(BlobListing(f, o)) == 0 && k < |Blobs(f)| && 1 <= m <= 4
    ensures var d := BlobListing(f, o);
            && 1 + 5 * k + m < |d.created|
            && var g := d.created[1 + 5 * k + m];
               && multiset(Takers(d.stashed))[g] == (if g in d.founders then 1 else 0)
               && (m <= 3 ==> exists s | s in d.stashed :: s.finder == g)
               && forall s | s in d.stashed && s.finder == g :: OwnText(f, Blobs(f)[k], Below(m), s)
  {
    hide BlobListing, BlobOracle, BlobIterWants, Blobs, Below, Plain, OwnText, Takers, AnyRequired;
    var d := BlobListing(f, o);
    EntryFinder(f, o, k, m);
    var g := d.created[1 + 5 * k + m];
    TakenByEntry(f, o, g);
    BelowIsAsked(m);
    forall s | s in d.stashed && s.finder == g
      ensures OwnText(f, Blobs(f)[k], Below(m), s)
    {
      TextOfEntry(f, o, s, Below(m));
    }
  }

  // ------------------------------------------------------------ entries are apart

  lemma {:induction false} SelectedDistinct(paths: seq<string>, s: Search)
    requires Distinct(paths)
    ensures Distinct(Selected(paths, s))
  {
    hide PathMatch;
    if paths != [] {
      var front := paths[..|paths| - 1];
      SelectedDistinct(front, s);
      SelectedAre(front, s);
    }
  }

  /** No place in the document is inside two blob elements, so no text is taken by two entries. */
  lemma BlobsAreApart(f: Forest, k: nat, l: nat, x: string)
    requires Named(f) && k < |Blobs(f)| && l < |Blobs(f)| && k != l && Tokens(Blobs(f)[k]) <= Tokens(x)
    ensures !(Tokens(Blobs(f)[l]) <= Tokens(x))
  {
    hide DocPaths, ElementToks, Tokens, Path, Selected, TokenMatch;
    var a, b := Blobs(f)[k], Blobs(f)[l];
    assert a in Blobs(f) && b in Blobs(f);
    BlobsAreElements(f);
    SelectedAre(DocPaths([], map[], f), Search(BLOB_PATH + "/", false, None));
    DocPathsDistinct([], map[], f) by { NoToks(); }
    SelectedDistinct(DocPaths([], map[], f), Search(BLOB_PATH + "/", false, None));
    SamePrefix(Tokens(a), Tokens(b), Tokens(x));
  }
}
