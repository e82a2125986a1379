/** The finders of the streaming XML matcher: lib/exml.c.

    A finder waits on one of three lists: `finders` until its path is met, `waiting` until its value
    comes, `founders` once it is handled.  Callbacks may add finders at the head of the first list
    while that list is being walked. */
module ExmlFinders {
  import opened Basics
  import Sorting
  import opened Strings
  import opened ExmlPaths
  import opened ExmlXPath

  /** What to do with a found element: keep its text, convert its text, hand its text to a callback, or
      call back at the path itself. */
  datatype Kind = Str | Typed(conversion: nat) | ValueCb(cb: nat) | PathCb(cb: nat)

  /** `xp` and `askedAt` record where the search comes from: the expression, and the element path at
      which it was asked for.  No step depends on them. */
  datatype Finder = Finder(id: nat, search: Search, required: bool, kind: Kind, xp: string, askedAt: string)

  /** A request for a finder, as a caller of exml_*_want makes it. */
  datatype Want = Want(xp: string, required: bool, kind: Kind)

  /** How a callback or a conversion answers: its success, and the finders it asked for meanwhile. */
  datatype Reply = Reply(ok: bool, wants: seq<Want>)

  /** Every callback and conversion, as a function of how many of them ran before, the finder, the
      current element path and the text, if there is one. */
  type Oracle = (nat, Finder, string, Option<string>) -> Reply

  datatype Stash = Stash(finder: Finder, elPath: string, text: string, attr: bool)

  datatype Doc = Doc(
    cursor: Cursor,
    finders: seq<Finder>,
    waiting: seq<Finder>,
    founders: seq<Finder>,
    numFinders: int,
    foundPath: map<nat, string>,
    created: seq<Finder>,
    listening: bool,
    failed: bool,
    calls: nat,
    fired: seq<(nat, string)>,
    stashed: seq<Stash>,
    handled: seq<Finder>)

  // ------------------------------------------------------------ steps

  /** exml_finder_init: a new finder goes to the head of the list; a bad expression adds nothing. */
  function AddWant(d: Doc, w: Want): Doc {
    var search := ParseXPath(w.xp, d.cursor.elPath);
    if search.None? then d
    else
      var f := Finder(|d.created|, search.value, w.required, w.kind, w.xp, d.cursor.elPath);
      d.(finders := [f] + d.finders, numFinders := d.numFinders + 1, created := d.created + [f])
  }

  function AddWants(d: Doc, ws: seq<Want>): Doc
    decreases |ws|
  {
    if ws == [] then d else AddWants(AddWant(d, ws[0]), ws[1..])
  }

  function Remove(l: seq<Finder>, f: Finder): seq<Finder> {
    if l == [] then [] else if l[0] == f then l[1..] else [l[0]] + Remove(l[1..], f)
  }

  function Stashed(d: Doc, f: Finder, text: string, attr: bool): Doc {
    d.(stashed := d.stashed + [Stash(f, d.cursor.elPath, text, attr)])
  }

  function Called(d: Doc): Doc {
    d.(calls := d.calls + 1)
  }

  /** The value handed to a finder: strings are always kept, conversions may fail, and a value callback
      may ask for more finders. */
  function StashValue(d: Doc, f: Finder, text: string, attr: bool, o: Oracle): (Doc, bool)
  {
    if f.kind.Str? then (Stashed(d, f, text, attr), true)
    else
      var reply := o(d.calls, f, d.cursor.elPath, Some(text));
      var d' := Called(Stashed(d, f, text, attr));
      (if f.kind.ValueCb? then AddWants(d', reply.wants) else d', reply.ok)
  }

  /** The first non-empty value of an attribute. */
  function AttrSearch(atts: Atts, attr: string): Option<string> {
    if atts == [] then None
    else if atts[0].0 == attr && atts[0].1 != "" then Some(atts[0].1)
    else AttrSearch(atts[1..], attr)
  }

  /** Attribute number `n` is the first of that name whose value is not empty. */
  ghost predicate FirstValue(atts: Atts, attr: string, n: nat) {
    && n < |atts| && atts[n].0 == attr && atts[n].1 != ""
    && forall m | 0 <= m < n :: atts[m].0 != attr || atts[m].1 == ""
  }

  lemma FirstValueLater(atts: Atts, attr: string, n: nat)
    requires atts != [] && (atts[0].0 != attr || atts[0].1 == "")
    ensures FirstValue(atts, attr, n + 1) <==> FirstValue(atts[1..], attr, n)
  {
    var back := atts[1..];
    assert forall m | 0 < m < |atts| :: atts[m] == back[m - 1];
    if FirstValue(atts, attr, n + 1) {
      forall m | 0 <= m < n
        ensures back[m].0 != attr || back[m].1 == ""
      {
        assert back[m] == atts[m + 1];
      }
    }
  }

  /** A finder for "[@name]" gets the first non-empty value of that name, and nothing exactly when there
      is none. */
  lemma {:induction false} AttrSearchIs(atts: Atts, attr: string)
    ensures forall n: nat | FirstValue(atts, attr, n) :: AttrSearch(atts, attr) == Some(atts[n].1)
    ensures AttrSearch(atts, attr).Some? ==> exists n: nat :: FirstValue(atts, attr, n)
    ensures AttrSearch(atts, attr).None? <==> forall n | 0 <= n < |atts| :: atts[n].0 != attr || atts[n].1 == ""
  {
    if atts != [] {
      var back := atts[1..];
      AttrSearchIs(back, attr);
      if atts[0].0 == attr && atts[0].1 != "" {
        assert FirstValue(atts, attr, 0);
      } else {
        assert !FirstValue(atts, attr, 0);
        forall n: nat
          ensures FirstValue(atts, attr, n + 1) <==> FirstValue(back, attr, n)
          ensures n < |back| ==> back[n] == atts[n + 1]
        {
          FirstValueLater(atts, attr, n);
        }
        forall n: nat | FirstValue(atts, attr, n)
          ensures AttrSearch(atts, attr) == Some(atts[n].1)
        {
          assert FirstValue(back, attr, n - 1);
        }
        if AttrSearch(back, attr).Some? {
          var n: nat :| FirstValue(back, attr, n);
          assert FirstValue(atts, attr, n + 1);
        } else {
          forall n | 0 <= n < |atts|
            ensures atts[n].0 != attr || atts[n].1 == ""
          {
            assert n > 0 ==> atts[n] == back[n - 1];
          }
        }
      }
    }
  }

  function ToFounders(d: Doc, f: Finder): Doc {
    d.(finders := Remove(d.finders, f), numFinders := d.numFinders - 1, founders := d.founders + [f],
       handled := d.handled + [f])
  }

  function Unfound(d: Doc, f: Finder): Doc {
    d.(foundPath := d.foundPath - {f.id})
  }

  function AtPath(d: Doc, f: Finder): Doc {
    d.(foundPath := d.foundPath[f.id := d.cursor.elPath])
  }

  function CalledBack(d: Doc, cb: nat): Doc {
    d.(calls := d.calls + 1, fired := d.fired + [(cb, d.cursor.elPath)])
  }

  function Await(d: Doc, f: Finder): Doc {
    d.(listening := true, finders := Remove(d.finders, f), numFinders := d.numFinders - 1, waiting := d.waiting + [f])
  }

  function Resolve(d: Doc, f: Finder, ok: bool): Doc {
    if ok then ToFounders(d, f) else Unfound(d.(failed := true), f)
  }

  /** A finder with an attribute takes the attribute's value; without the attribute it is not found. */
  function FoundAttr(d: Doc, f: Finder, attr: string, atts: Atts, o: Oracle): Doc {
    var val := AttrSearch(atts, attr);
    if val.None? then Unfound(d, f)
    else
      var (d', ok) := StashValue(d, f, val.value, true, o);
      Resolve(d', f, ok)
  }

  /** exml_el_path_found_handle, for a finder whose path matches the current element. */
  function PathFound(d: Doc, f: Finder, atts: Atts, o: Oracle): Doc {
    var d1 := AtPath(d, f);
    if f.kind.PathCb? then
      var reply := o(d1.calls, f, d1.cursor.elPath, None);
      Resolve(AddWants(CalledBack(d1, f.kind.cb), reply.wants), f, reply.ok)
    else if f.search.attr.Some? then FoundAttr(d1, f, f.search.attr.value, atts, o)
    else Await(d1, f)
  }

  /** exml_el_finders_search: a safe walk, so `todo` is what was on the list when the walk began. */
  function SearchFinders(d: Doc, todo: seq<Finder>, atts: Atts, o: Oracle): Doc
    decreases |todo|
  {
    if todo == [] || d.failed then d
    else if PathMatch(todo[0].search.path, d.cursor.elPath, todo[0].search.wildcard) then
      SearchFinders(PathFound(d, todo[0], atts, o), todo[1..], atts, o)
    else
      SearchFinders(d, todo[1..], atts, o)
  }

  function ValueTaken(d: Doc, f: Finder): Doc {
    d.(waiting := Remove(d.waiting, f), founders := d.founders + [f], handled := d.handled + [f])
  }

  /** exml_el_data_cb: every finder waiting at the current path takes the text. */
  function TakeText(d: Doc, todo: seq<Finder>, text: string, o: Oracle): Doc
    decreases |todo|
  {
    if todo == [] || d.failed then d
    else
      var f := todo[0];
      if f.id !in d.foundPath || d.foundPath[f.id] != d.cursor.elPath then TakeText(d, todo[1..], text, o)
      else
        var (d1, ok) := StashValue(d, f, text, false, o);
        if !ok then d1.(failed := true)
        else
          TakeText(ValueTaken(d1, f), todo[1..], text, o)
  }

  /** One callback of the parser: nothing happens once parsing has failed. */
  function DocStep(d: Doc, e: Event, o: Oracle): Doc {
    if d.failed then d
    else
      var d1 := Moved(d, e);
      if d1.cursor.stopped then d1.(failed := true)
      else
        match e
        case Start(_, atts) => SearchFinders(d1, d1.finders, atts, o)
        case Finish(_) => d1
        case Data(text) => if d1.listening then TakeText(d1, d1.waiting, text, o) else d1
  }

  /** The path follows the event, and an opened element ends the listening for text. */
  function Moved(d: Doc, e: Event): Doc {
    d.(cursor := Step(d.cursor, e), listening := d.listening && !e.Start?)
  }

  function DocRun(d: Doc, es: seq<Event>, o: Oracle): Doc
    decreases |es|
  {
    if es == [] then d else DocRun(DocStep(d, es[0], o), es[1..], o)
  }

  function NewDoc(): Doc {
    Doc(Slurped(), [], [], [], 0, map[], [], false, false, 0, [], [], [])
  }

  predicate AnyRequired(l: seq<Finder>) {
    exists i :: 0 <= i < |l| && l[i].required
  }

  /** exml_parse, after the parser has delivered its events. */
  function ParseResult(d: Doc): int {
    if d.failed then -EIO
    else if AnyRequired(d.finders) || AnyRequired(d.waiting) then -ENOENT
    else 0
  }

  // ------------------------------------------------------------ where a finder is

  function Held(d: Doc, f: Finder): nat {
    multiset(d.finders)[f] + multiset(d.waiting)[f] + multiset(d.founders)[f]
  }

  /** Every finder ever created is on exactly one list, the count of unfound finders is exact, and the
      handled finders are those on the last list. */
  ghost predicate ListsOk(d: Doc) {
    && d.numFinders == |d.finders|
    && (forall i {:trigger d.created[i]} | 0 <= i < |d.created| :: d.created[i].id == i)
    && (forall f {:trigger Held(d, f)} :: Held(d, f) == multiset(d.created)[f])
    && d.handled == d.founders
  }

  /** A finder that has been found has the path it was found at, and that path is one it searches for. */
  ghost predicate FoundAt(d: Doc, f: Finder) {
    && f.id in d.foundPath
    && d.foundPath[f.id] in d.cursor.log.paths
    && PathMatch(f.search.path, d.foundPath[f.id], f.search.wildcard)
  }

  ghost predicate FoundOk(d: Doc) {
    && (forall f {:trigger FoundAt(d, f)} | f in d.waiting || f in d.founders :: FoundAt(d, f))
    && (forall f | f in d.waiting :: f.search.attr.None? && !f.kind.PathCb?)
  }

  /** Each kept value was taken at the element its finder found. */
  ghost predicate StashOk(d: Doc, s: Stash) {
    s.finder in d.founders && s.finder.id in d.foundPath && d.foundPath[s.finder.id] == s.elPath
  }

  ghost predicate StashesOk(d: Doc) {
    forall i {:trigger d.stashed[i]} | 0 <= i < |d.stashed| :: StashOk(d, d.stashed[i])
  }

  /** The finders of the kept values, in order. */
  function Takers(l: seq<Stash>): seq<Finder> {
    if l == [] then [] else Takers(l[..|l| - 1]) + [l[|l| - 1].finder]
  }

  /** The finders on a list that look for a value. */
  function ByValue(l: seq<Finder>): seq<Finder> {
    if l == [] then []
    else ByValue(l[..|l| - 1]) + if l[|l| - 1].kind.PathCb? then [] else [l[|l| - 1]]
  }

  // ------------------------------------------------------------ where values and searches come from

  /** The value is character data directly inside the element, or the attribute of it that the finder
      looks for; and the element's path is one the finder searches for. */
  ghost predicate Taken(c: Cursor, s: Stash) {
    && s.elPath in c.log.paths && PathMatch(s.finder.search.path, s.elPath, s.finder.search.wildcard)
    && if s.attr then s.finder.search.attr.Some? && HasAttr(c.log.elems, s.elPath, s.finder.search.attr.value, s.text)
       else s.finder.search.attr.None? && (s.elPath, s.text) in c.log.texts
  }

  /** The element at `path` has this attribute. */
  ghost predicate HasAttr(elems: seq<(string, Atts)>, path: string, attr: string, val: string) {
    exists atts :: (path, atts) in elems && AttrSearch(atts, attr) == Some(val)
  }

  ghost predicate Asked(f: Finder, path: string) {
    f.askedAt == path && ParseXPath(f.xp, path) == Some(f.search)
  }

  /** Every finder comes from its expression, asked for at the root or inside an opened element, and
      every value from its element. */
  ghost predicate Sourced(d: Doc) {
    && (forall f | f in d.created :: Asked(f, f.askedAt) && (f.askedAt == "/" || f.askedAt in d.cursor.log.paths))
    && (forall s | s in d.stashed :: s.finder in d.created && Taken(d.cursor, s))
  }

  // ------------------------------------------------------------ list lemmas

  lemma {:induction false} RemoveCounts(l: seq<Finder>, f: Finder)
    ensures f in l ==> multiset(Remove(l, f)) == multiset(l) - multiset{f} && |Remove(l, f)| == |l| - 1
    ensures f !in l ==> Remove(l, f) == l
    ensures forall g | g in Remove(l, f) :: g in l
  {
    if l != [] {
      var back := l[1..];
      assert l == [l[0]] + back;
      if l[0] != f {
        RemoveCounts(back, f);
        assert multiset([l[0]] + Remove(back, f)) == multiset{l[0]} + multiset(Remove(back, f));
      }
    }
  }

  lemma {:induction false} CreatedOnce(l: seq<Finder>, n: nat, f: Finder)
    requires n <= |l| && forall i | 0 <= i < |l| :: l[i].id == i
    ensures multiset(l[..n])[f] <= 1
    ensures multiset(l[..n])[f] == 1 <==> f.id < n && l[f.id] == f
  {
    if n > 0 {
      CreatedOnce(l, n - 1, f);
      assert l[..n] == l[..n - 1] + [l[n - 1]];
    }
  }

  /** No finder is on two lists or on one list twice, and finders with one id are the same finder. */
  lemma HeldOnce(d: Doc, f: Finder)
    requires ListsOk(d)
    ensures Held(d, f) <= 1
    ensures Held(d, f) == 1 <==> f.id < |d.created| && d.created[f.id] == f
    ensures Held(d, f) == 1 <==> f in d.created
    ensures f in d.finders ==> multiset(d.finders)[f] == 1 && f !in d.waiting && f !in d.founders
    ensures f in d.waiting ==> multiset(d.waiting)[f] == 1 && f !in d.founders
    ensures f in d.created <==> f in d.finders || f in d.waiting || f in d.founders
  {
    CreatedOnce(d.created, |d.created|, f);
    assert d.created[..|d.created|] == d.created;
    assert f in d.created <==> f in multiset(d.created);
    assert f in d.finders <==> f in multiset(d.finders);
    assert f in d.waiting <==> f in multiset(d.waiting);
    assert f in d.founders <==> f in multiset(d.founders);
  }

  lemma {:induction false} TakersSnoc(l: seq<Stash>, s: Stash)
    ensures Takers(l + [s]) == Takers(l) + [s.finder]
  {
    assert (l + [s])[..|l|] == l;
  }

  lemma {:induction false} ByValueSnoc(l: seq<Finder>, f: Finder)
    ensures ByValue(l + [f]) == ByValue(l) + if f.kind.PathCb? then [] else [f]
  {
    assert (l + [f])[..|l|] == l;
  }

  // ------------------------------------------------------------ adding finders

  /** `d'` is `d` with finders added at the head of the list, and perhaps more calls made. */
  ghost predicate Grown(d: Doc, d': Doc) {
    && |d.finders| <= |d'.finders| && d'.finders[|d'.finders| - |d.finders|..] == d.finders
    && d.created <= d'.created
    && (forall f | f in d'.finders :: f in d.finders || f.id >= |d.created|)
    && (forall i | |d.created| <= i < |d'.created| :: Asked(d'.created[i], d.cursor.elPath))
    && d' == d.(finders := d'.finders, numFinders := d'.numFinders, created := d'.created, calls := d'.calls)
  }

  lemma AddWantKeeps(d: Doc, w: Want)
    requires ListsOk(d)
    ensures ListsOk(AddWant(d, w)) && Grown(d, AddWant(d, w)) && AddWant(d, w).calls == d.calls
  {
    hide ListsOk, ParseXPath, Grown;
    AddWantKeepsLists(d, w);
    AddWantGrows(d, w);
  }

  lemma AddWantKeepsLists(d: Doc, w: Want)
    requires ListsOk(d)
    ensures ListsOk(AddWant(d, w))
  {
    hide ParseXPath;
    var d' := AddWant(d, w);
    if d' != d {
      forall f
        ensures Held(d', f) == multiset(d'.created)[f]
      {
        assert Held(d, f) == multiset(d.created)[f];
      }
    }
  }

  lemma AddWantGrows(d: Doc, w: Want)
    ensures Grown(d, AddWant(d, w))
  {
    hide ParseXPath;
  }

  lemma GrownTrans(a: Doc, b: Doc, c: Doc)
    requires Grown(a, b) && Grown(b, c)
    ensures Grown(a, c)
  {
    hide Asked;
    assert c.finders[|c.finders| - |a.finders|..] == c.finders[|c.finders| - |b.finders|..][|b.finders| - |a.finders|..];
    assert forall i | |a.created| <= i < |b.created| :: c.created[i] == b.created[i];
  }

  lemma {:induction false} AddWantsKeeps(d: Doc, ws: seq<Want>)
    requires ListsOk(d)
    ensures ListsOk(AddWants(d, ws)) && Grown(d, AddWants(d, ws)) && AddWants(d, ws).calls == d.calls
    decreases |ws|
  {
    hide ListsOk, AddWant, Grown;
    if ws == [] {
      SameGrown(d);
    } else {
      AddWantKeeps(d, ws[0]);
      AddWantsKeeps(AddWant(d, ws[0]), ws[1..]);
      GrownTrans(d, AddWant(d, ws[0]), AddWants(d, ws));
    }
  }

  lemma SameGrown(d: Doc)
    ensures Grown(d, d)
  {
  }

  // ------------------------------------------------------------ what every step keeps

  /** While parsing goes on, also: the handled finders that look for a value are exactly the takers of the
      kept values. */
  ghost predicate DocOk(d: Doc) {
    ListsOk(d) && FoundOk(d) && StashesOk(d) && Takers(d.stashed) == ByValue(d.founders)
  }

  /** `d'` comes after `d` at the same element: nothing found is lost or moved back, and what was asked
      for or kept meanwhile comes from that element. */
  ghost predicate Onward(d: Doc, d': Doc) {
    && d'.cursor == d.cursor && d.created <= d'.created && d.stashed <= d'.stashed && d.fired <= d'.fired
    && (forall i | |d.created| <= i < |d'.created| :: Asked(d'.created[i], d.cursor.elPath))
    && (forall i | |d.stashed| <= i < |d'.stashed| ::
          d'.stashed[i].finder in d'.created && Taken(d.cursor, d'.stashed[i]))
    && (forall g | g in d'.finders :: g in d.finders || g.id >= |d.created|)
    && (forall g | g in d.founders :: g in d'.founders)
  }

  lemma SameOnward(d: Doc)
    ensures Onward(d, d)
  {
  }

  lemma OnwardTrans(a: Doc, b: Doc, c: Doc)
    requires Onward(a, b) && Onward(b, c)
    ensures Onward(a, c)
  {
    hide Asked, Taken;
    assert forall i | |a.created| <= i < |b.created| :: c.created[i] == b.created[i];
    assert forall i | |a.stashed| <= i < |b.stashed| :: c.stashed[i] == b.stashed[i];
  }

  ghost predicate OnList(d: Doc, todo: seq<Finder>) {
    && (forall i | 0 <= i < |todo| :: todo[i] in d.finders)
    && (forall i, j | 0 <= i < j < |todo| :: todo[i] != todo[j])
  }

  /** The current path is that of an element opened with these attributes. */
  ghost predicate Standing(d: Doc, atts: Atts) {
    d.cursor.elPath in d.cursor.log.paths && (d.cursor.elPath, atts) in d.cursor.log.elems
  }

  lemma MoveKeepsLists(d: Doc, f: Finder)
    requires ListsOk(d) && f in d.finders
    ensures ListsOk(ToFounders(d, f)) && ListsOk(Await(d, f))
  {
    RemoveCounts(d.finders, f);
    var a := ToFounders(d, f);
    var b := Await(d, f);
    forall g
      ensures Held(a, g) == multiset(a.created)[g] && Held(b, g) == multiset(b.created)[g]
    {
      assert Held(d, g) == multiset(d.created)[g];
    }
  }

  lemma ValueKeepsLists(d: Doc, f: Finder)
    requires ListsOk(d) && f in d.waiting
    ensures ListsOk(ValueTaken(d, f))
  {
    RemoveCounts(d.waiting, f);
    var a := ValueTaken(d, f);
    forall g
      ensures Held(a, g) == multiset(a.created)[g]
    {
      assert Held(d, g) == multiset(d.created)[g];
    }
  }

  ghost predicate SameLists(d: Doc, d': Doc) {
    && d'.finders == d.finders && d'.waiting == d.waiting && d'.founders == d.founders && d'.created == d.created
    && d'.numFinders == d.numFinders && d'.handled == d.handled
  }

  lemma SameListsOk(d: Doc, d': Doc)
    requires ListsOk(d) && SameLists(d, d')
    ensures ListsOk(d')
  {
    forall g
      ensures Held(d', g) == multiset(d'.created)[g]
    {
      assert Held(d, g) == multiset(d.created)[g];
    }
  }

  lemma StashValueKeeps(d: Doc, f: Finder, text: string, attr: bool, o: Oracle)
    requires ListsOk(d)
    ensures var d' := StashValue(d, f, text, attr, o).0;
            ListsOk(d') && Grown(Stashed(d, f, text, attr), d')
  {
    hide ListsOk, AddWants, Grown;
    var d1 := Stashed(d, f, text, attr);
    SameListsOk(d, d1);
    SameGrown(d1);
    if !f.kind.Str? {
      var reply := o(d.calls, f, d.cursor.elPath, Some(text));
      var d2 := Called(d1);
      SameListsOk(d1, d2);
      AddWantsKeeps(d2, reply.wants);
      CallGrown(d1, AddWants(d2, reply.wants));
      CallGrown(d1, d2);
    }
  }

  lemma CallGrown(d: Doc, d': Doc)
    requires Grown(Called(d), d') || d' == Called(d)
    ensures Grown(d, d')
  {
    hide Asked;
  }

  /** `grown` is `d` with perhaps one value kept for `f` and finders added. */
  ghost predicate Kept(d: Doc, f: Finder, base: Doc, grown: Doc) {
    && SameLists(d, base) && base.cursor == d.cursor && d.fired <= base.fired && Grown(base, grown)
    && (base.stashed == d.stashed || KeptOne(d, f, base))
  }

  ghost predicate KeptOne(d: Doc, f: Finder, base: Doc) {
    && |base.stashed| == |d.stashed| + 1 && base.stashed[..|d.stashed|] == d.stashed
    && var s := base.stashed[|d.stashed|];
       f in d.created && s.finder == f && s.elPath == d.cursor.elPath && Taken(d.cursor, s)
  }

  lemma KeptOnward(d: Doc, f: Finder, base: Doc, grown: Doc)
    requires Kept(d, f, base, grown)
    ensures Onward(d, grown)
  {
    hide Asked, Taken;
    assert grown.finders[|grown.finders| - |base.finders|..] == base.finders;
  }

  lemma ResolveOnward(d: Doc, f: Finder, ok: bool)
    ensures Onward(d, Resolve(d, f, ok)) && Onward(d, Await(AtPath(d, f), f)) && Onward(d, Unfound(AtPath(d, f), f))
  {
    RemoveCounts(d.finders, f);
  }

  lemma ValueTakenOnward(d: Doc, f: Finder)
    ensures Onward(d, ValueTaken(d, f))
  {
  }

  lemma FailOnward(d: Doc)
    ensures Onward(d, d.(failed := true))
  {
  }

  /** The finder `f` has left the unfound finders of `d` (with finders added meanwhile). */
  ghost predicate Left(d: Doc, f: Finder, d': Doc) {
    && (forall g | g in d.finders && g != f :: g in d'.finders)
    && (forall g | g in d'.waiting :: g in d.waiting || g == f)
    && (forall g | g in d'.founders :: g in d.founders || g == f)
  }

  /** A found finder: its path is the current one, and everybody else's is what it was. */
  lemma SettleFound(d: Doc, f: Finder, d': Doc)
    requires ListsOk(d) && FoundOk(d) && f in d.finders && d.cursor.elPath in d.cursor.log.paths
    requires PathMatch(f.search.path, d.cursor.elPath, f.search.wildcard)
    requires Left(d, f, d') && d'.cursor == d.cursor
    requires d'.foundPath == d.foundPath[f.id := d.cursor.elPath]
    requires f in d'.waiting ==> f.search.attr.None? && !f.kind.PathCb?
    ensures FoundOk(d')
  {
    hide ListsOk, PathMatch;
    forall g | g in d'.waiting || g in d'.founders
      ensures FoundAt(d', g)
    {
      if g != f {
        OtherId(d, f, g);
        assert FoundAt(d, g);
      }
    }
  }

  lemma OtherId(d: Doc, f: Finder, g: Finder)
    requires ListsOk(d) && f in d.finders && (g in d.waiting || g in d.founders)
    ensures f.id != g.id
  {
    HeldOnce(d, f);
    HeldOnce(d, g);
  }

  lemma SettleStashes(d: Doc, f: Finder, d': Doc)
    requires ListsOk(d) && StashesOk(d) && f in d.finders
    requires forall g | g in d.founders :: g in d'.founders
    requires d'.foundPath == d.foundPath[f.id := d.cursor.elPath] || d'.foundPath == d.foundPath - {f.id}
    requires d'.stashed == d.stashed
             || (KeptOne(d, f, d') && f in d'.founders && d'.foundPath == d.foundPath[f.id := d.cursor.elPath])
    ensures StashesOk(d')
  {
    hide ListsOk, Taken;
    forall i | 0 <= i < |d'.stashed|
      ensures StashOk(d', d'.stashed[i])
    {
      if i < |d.stashed| {
        assert d'.stashed[i] == d.stashed[i] && StashOk(d, d.stashed[i]);
        OtherId(d, f, d.stashed[i].finder);
      }
    }
  }

  lemma Forget(d: Doc, f: Finder)
    requires DocOk(d) && f in d.finders
    ensures DocOk(Unfound(AtPath(d, f), f))
  {
    hide ListsOk, PathMatch, Takers, ByValue;
    var d' := Unfound(AtPath(d, f), f);
    SameListsOk(d, d');
    assert d'.foundPath == d.foundPath - {f.id};
    SettleStashes(d, f, d');
    forall g | g in d'.waiting || g in d'.founders
      ensures FoundAt(d', g)
    {
      OtherId(d, f, g);
      assert FoundAt(d, g);
    }
  }

  lemma FailKeepsLists(d: Doc, f: Finder)
    requires ListsOk(d)
    ensures ListsOk(Unfound(d.(failed := true), f))
  {
    SameListsOk(d, Unfound(d.(failed := true), f));
  }

  lemma RemoveLeaves(d: Doc, g: Doc, f: Finder)
    requires f in d.finders && Grown(d, g)
    ensures f in g.finders
    ensures forall x | x in d.finders && x != f :: x in Remove(g.finders, f)
  {
    hide Asked, Remove;
    assert forall x | x in g.finders[|g.finders| - |d.finders|..] :: x in g.finders;
    RemoveCounts(g.finders, f);
    var l := Remove(g.finders, f);
    forall x | x in d.finders && x != f
      ensures x in l
    {
      assert multiset(l)[x] == multiset(g.finders)[x] && x in multiset(g.finders);
    }
  }

  ghost predicate Ready(d: Doc, f: Finder, atts: Atts) {
    && DocOk(d) && !d.failed && f in d.finders && Standing(d, atts)
    && PathMatch(f.search.path, d.cursor.elPath, f.search.wildcard)
  }

  /** `d'` keeps everything, unless parsing fails, and only `f` has left the list. */
  ghost predicate Keeps(d: Doc, f: Finder, d': Doc) {
    ListsOk(d') && Onward(d, d') && (!d'.failed ==> DocOk(d') && Left(d, f, d'))
  }

  /** Whatever finders a callback added, the found finder moves to the founders, with its value if it
      looks for one. */
  lemma GrowThenFound(d: Doc, f: Finder, atts: Atts, base: Doc, grown: Doc)
    requires Ready(d, f, atts) && Kept(d, f, base, grown) && ListsOk(grown) && !base.failed
    requires base.foundPath == d.foundPath[f.id := d.cursor.elPath]
    requires f.kind.PathCb? <==> base.stashed == d.stashed
    ensures DocOk(ToFounders(grown, f)) && Left(d, f, ToFounders(grown, f))
  {
    hide ListsOk, PathMatch, Taken, Asked, Takers, ByValue, Remove;
    var d' := ToFounders(grown, f);
    SameListsOk(d, base);
    RemoveLeaves(base, grown, f);
    MoveKeepsLists(grown, f);
    SettleFound(d, f, d') by { HeldOnce(d, f); }
    SettleStashes(d, f, d');
    ByValueSnoc(d.founders, f);
    if !f.kind.PathCb? {
      TakersSnoc(d.stashed, base.stashed[|d.stashed|]);
      assert base.stashed == d.stashed + [base.stashed[|d.stashed|]];
    }
  }

  lemma CallbackKeeps(d: Doc, f: Finder, atts: Atts, o: Oracle)
    requires Ready(d, f, atts) && f.kind.PathCb?
    ensures Keeps(d, f, PathFound(d, f, atts, o))
  {
    hide ListsOk, FoundOk, StashesOk, PathMatch, Left, Grown, Onward, AddWants, Remove, Takers, ByValue;
    var d1 := AtPath(d, f);
    var reply := o(d1.calls, f, d1.cursor.elPath, None);
    var d2 := CalledBack(d1, f.kind.cb);
    var d3 := AddWants(d2, reply.wants);
    SameListsOk(d, d2);
    AddWantsKeeps(d2, reply.wants);
    FailKeepsLists(d3, f);
    KeptOnward(d, f, d2, d3);
    ResolveOnward(d3, f, reply.ok);
    OnwardTrans(d, d3, Resolve(d3, f, reply.ok));
    assert PathFound(d, f, atts, o) == Resolve(d3, f, reply.ok);
    if reply.ok {
      GrowThenFound(d, f, atts, d2, d3);
    }
  }

  lemma AttrTaken(d: Doc, f: Finder, atts: Atts, val: string)
    requires Standing(d, atts) && PathMatch(f.search.path, d.cursor.elPath, f.search.wildcard) && f in d.created
    requires f.search.attr.Some? && AttrSearch(atts, f.search.attr.value) == Some(val)
    ensures KeptOne(d, f, Stashed(AtPath(d, f), f, val, true))
  {
    hide PathMatch, AttrSearch;
    var d' := Stashed(AtPath(d, f), f, val, true);
    assert d'.stashed[..|d.stashed|] == d.stashed;
    assert HasAttr(d.cursor.log.elems, d.cursor.elPath, f.search.attr.value, val);
  }

  lemma AttrKeeps(d: Doc, f: Finder, atts: Atts, o: Oracle)
    requires Ready(d, f, atts) && !f.kind.PathCb? && f.search.attr.Some?
    ensures Keeps(d, f, PathFound(d, f, atts, o))
  {
    hide ListsOk, FoundOk, StashesOk, PathMatch, Left, Grown, Onward, StashValue, AttrSearch, Remove, KeptOne,
      Takers, ByValue, Standing;
    var d1 := AtPath(d, f);
    var val := AttrSearch(atts, f.search.attr.value);
    if val.None? {
      Forget(d, f);
      ResolveOnward(d, f, true);
      NobodyLeft(d, f);
    } else {
      var base := Stashed(d1, f, val.value, true);
      var (d2, ok) := StashValue(d1, f, val.value, true, o);
      SameListsOk(d, d1);
      StashValueKeeps(d1, f, val.value, true, o);
      HeldOnce(d, f);
      AttrTaken(d, f, atts, val.value);
      FailKeepsLists(d2, f);
      KeptOnward(d, f, base, d2);
      ResolveOnward(d2, f, ok);
      OnwardTrans(d, d2, Resolve(d2, f, ok));
      if ok {
        OneMore(d, f, base);
        GrowThenFound(d, f, atts, base, d2);
      }
    }
  }

  lemma OneMore(d: Doc, f: Finder, base: Doc)
    requires KeptOne(d, f, base)
    ensures base.stashed != d.stashed
  {
  }

  lemma NobodyLeft(d: Doc, f: Finder)
    ensures Left(d, f, Unfound(AtPath(d, f), f))
  {
  }

  lemma WaitKeeps(d: Doc, f: Finder, atts: Atts, o: Oracle)
    requires Ready(d, f, atts) && !f.kind.PathCb? && f.search.attr.None?
    ensures Keeps(d, f, PathFound(d, f, atts, o))
  {
    hide ListsOk, PathMatch, Onward, Asked, Takers, ByValue, Remove;
    var d1 := AtPath(d, f);
    var d' := Await(d1, f);
    SameListsOk(d, d1);
    MoveKeepsLists(d1, f);
    SameGrown(d1);
    RemoveLeaves(d1, d1, f);
    ResolveOnward(d, f, true);
    SettleFound(d, f, d') by { HeldOnce(d, f); }
    SettleStashes(d, f, d');
  }

  lemma PathFoundKeeps(d: Doc, f: Finder, atts: Atts, o: Oracle)
    requires Ready(d, f, atts)
    ensures Keeps(d, f, PathFound(d, f, atts, o))
  {
    hide Ready, Keeps, PathFound;
    if f.kind.PathCb? {
      CallbackKeeps(d, f, atts, o);
    } else if f.search.attr.Some? {
      AttrKeeps(d, f, atts, o);
    } else {
      WaitKeeps(d, f, atts, o);
    }
  }

  lemma {:induction false} SearchKeeps(d: Doc, todo: seq<Finder>, atts: Atts, o: Oracle)
    requires DocOk(d) && !d.failed && Standing(d, atts) && OnList(d, todo)
    ensures var d' := SearchFinders(d, todo, atts, o);
            ListsOk(d') && Onward(d, d') && (!d'.failed ==> DocOk(d'))
    decreases |todo|
  {
    hide ListsOk, DocOk, Onward, PathFound, PathMatch, Standing, OnList;
    if todo == [] {
      SameOnward(d);
      ListsOfOk(d);
    } else {
      var f := todo[0];
      if PathMatch(f.search.path, d.cursor.elPath, f.search.wildcard) {
        var d1 := PathFound(d, f, atts, o);
        FirstOnList(d, todo);
        PathFoundKeeps(d, f, atts, o);
        if d1.failed {
          assert SearchFinders(d1, todo[1..], atts, o) == d1;
        } else {
          RestOnList(d, d1, todo, atts);
          SearchKeeps(d1, todo[1..], atts, o);
          OnwardTrans(d, d1, SearchFinders(d1, todo[1..], atts, o));
        }
      } else {
        OnListRest(d, todo);
        SearchKeeps(d, todo[1..], atts, o);
      }
    }
  }

  lemma ListsOfOk(d: Doc)
    requires DocOk(d)
    ensures ListsOk(d)
  {
  }

  lemma FirstOnList(d: Doc, todo: seq<Finder>)
    requires OnList(d, todo) && todo != []
    ensures todo[0] in d.finders
  {
  }

  lemma OnListRest(d: Doc, todo: seq<Finder>)
    requires OnList(d, todo) && todo != []
    ensures OnList(d, todo[1..])
  {
  }

  lemma RestOnList(d: Doc, d1: Doc, todo: seq<Finder>, atts: Atts)
    requires OnList(d, todo) && todo != [] && Left(d, todo[0], d1) && Onward(d, d1) && Standing(d, atts)
    ensures OnList(d1, todo[1..]) && Standing(d1, atts)
  {
    hide Asked, Taken;
  }

  ghost predicate InWaiting(d: Doc, todo: seq<Finder>) {
    && (forall i | 0 <= i < |todo| :: todo[i] in d.waiting)
    && (forall i, j | 0 <= i < j < |todo| :: todo[i] != todo[j])
  }

  /** The finder waits at the current path. */
  predicate WaitsHere(d: Doc, f: Finder) {
    f.id in d.foundPath && d.foundPath[f.id] == d.cursor.elPath
  }

  lemma TextTaken(d: Doc, f: Finder, text: string)
    requires DocOk(d) && f in d.waiting && WaitsHere(d, f) && (d.cursor.elPath, text) in d.cursor.log.texts
    ensures KeptOne(d, f, Stashed(d, f, text, false)) && d.cursor.elPath in d.cursor.log.paths
  {
    hide ListsOk, StashesOk, PathMatch, Takers, ByValue;
    HeldOnce(d, f);
    assert FoundAt(d, f);
    assert Stashed(d, f, text, false).stashed[..|d.stashed|] == d.stashed;
  }

  /** The text handed to a waiting finder at the current path. */
  lemma TextHanded(d: Doc, f: Finder, text: string, o: Oracle)
    requires DocOk(d) && f in d.waiting && WaitsHere(d, f) && (d.cursor.elPath, text) in d.cursor.log.texts
    ensures var d1 := StashValue(d, f, text, false, o).0;
            ListsOk(d1) && Kept(d, f, Stashed(d, f, text, false), d1) && Onward(d, d1)
            && d.cursor.elPath in d.cursor.log.paths
  {
    hide ListsOk, StashesOk, FoundOk, Takers, ByValue, StashValue, KeptOne, Grown, Onward;
    StashValueKeeps(d, f, text, false, o);
    TextTaken(d, f, text);
    KeptOnward(d, f, Stashed(d, f, text, false), StashValue(d, f, text, false, o).0);
  }

  /** A waiting finder at the current path takes the text: only it moves. */
  lemma ValueKeeps(d: Doc, f: Finder, text: string, d1: Doc)
    requires DocOk(d) && f in d.waiting && WaitsHere(d, f)
    requires KeptOne(d, f, Stashed(d, f, text, false)) && Grown(Stashed(d, f, text, false), d1) && ListsOk(d1)
    ensures DocOk(ValueTaken(d1, f))
    ensures forall g | g in d.waiting && g != f :: g in ValueTaken(d1, f).waiting
  {
    hide ListsOk, PathMatch, Taken, Asked, Takers, ByValue, Remove;
    var d2 := ValueTaken(d1, f);
    ValueKeepsLists(d1, f);
    RemoveCounts(d.waiting, f);
    forall g | g in d2.waiting || g in d2.founders
      ensures FoundAt(d2, g)
    {
      assert FoundAt(d, g);
    }
    forall g | g in d.waiting && g != f
      ensures g in d2.waiting
    {
      assert multiset(d2.waiting)[g] == multiset(d.waiting)[g] && g in multiset(d.waiting);
    }
    forall i | 0 <= i < |d2.stashed|
      ensures StashOk(d2, d2.stashed[i])
    {
      if i < |d.stashed| {
        assert StashOk(d, d.stashed[i]);
      }
    }
    var s := Stash(f, d.cursor.elPath, text, false);
    TakersSnoc(d.stashed, s);
    ByValueSnoc(d.founders, f);
  }

  lemma {:induction false} TakeTextKeeps(d: Doc, todo: seq<Finder>, text: string, o: Oracle)
    requires DocOk(d) && !d.failed && InWaiting(d, todo) && (d.cursor.elPath, text) in d.cursor.log.texts
    ensures var d' := TakeText(d, todo, text, o);
            && ListsOk(d') && Onward(d, d') && (!d'.failed ==> DocOk(d'))
            && (d'.created == d.created || d.cursor.elPath in d.cursor.log.paths)
    decreases |todo|
  {
    hide ListsOk, DocOk, Onward, StashValue, KeptOne, Grown, ValueTaken, InWaiting;
    if todo == [] {
      SameOnward(d);
      ListsOfOk(d);
    } else {
      var f := todo[0];
      FirstInWaiting(d, todo);
      if !WaitsHere(d, f) {
        TakeTextKeeps(d, todo[1..], text, o);
      } else {
        var (d1, ok) := StashValue(d, f, text, false, o);
        var d2 := ValueTaken(d1, f);
        TextHanded(d, f, text, o);
        TextTaken(d, f, text);
        if ok {
          ValueTakenOnward(d1, f);
          ValueKeeps(d, f, text, d1);
          OnwardTrans(d, d1, d2);
          RestInWaiting(d, d1, d2, todo, text);
          TakeTextKeeps(d2, todo[1..], text, o);
          OnwardTrans(d, d2, TakeText(d2, todo[1..], text, o));
        } else {
          SameListsOk(d1, d1.(failed := true));
          FailOnward(d1);
          OnwardTrans(d, d1, d1.(failed := true));
        }
      }
    }
  }

  lemma FirstInWaiting(d: Doc, todo: seq<Finder>)
    requires InWaiting(d, todo) && todo != []
    ensures todo[0] in d.waiting && InWaiting(d, todo[1..])
  {
  }

  lemma RestInWaiting(d: Doc, d1: Doc, d2: Doc, todo: seq<Finder>, text: string)
    requires InWaiting(d, todo) && todo != [] && !d.failed && d2 == ValueTaken(d1, todo[0])
    requires Grown(Stashed(d, todo[0], text, false), d1)
    requires forall g | g in d.waiting && g != todo[0] :: g in d2.waiting
    ensures InWaiting(d2, todo[1..]) && !d2.failed && d2.cursor == d.cursor
  {
    hide Asked;
  }

  ghost predicate SameFound(d: Doc, d': Doc) {
    SameLists(d, d') && d'.foundPath == d.foundPath && d'.stashed == d.stashed && d'.fired == d.fired
  }

  lemma CursorKeeps(d: Doc, d': Doc)
    requires DocOk(d) && SameFound(d, d') && Before(d.cursor.log, d'.cursor.log)
    ensures DocOk(d')
  {
    hide ListsOk, PathMatch, Takers, ByValue;
    SameListsOk(d, d');
    forall g | g in d'.waiting || g in d'.founders
      ensures FoundAt(d', g)
    {
      assert FoundAt(d, g);
    }
    forall i | 0 <= i < |d'.stashed|
      ensures StashOk(d', d'.stashed[i])
    {
      assert StashOk(d, d.stashed[i]);
    }
  }

  lemma Walkable(d: Doc)
    requires ListsOk(d)
    ensures OnList(d, d.finders) && InWaiting(d, d.waiting)
  {
    hide ListsOk;
    forall i, j | 0 <= i < j < |d.finders|
      ensures d.finders[i] != d.finders[j]
    {
      HeldOnce(d, d.finders[i]);
      Sorting.TwoCopies(d.finders, i, j);
    }
    forall i, j | 0 <= i < j < |d.waiting|
      ensures d.waiting[i] != d.waiting[j]
    {
      HeldOnce(d, d.waiting[i]);
      Sorting.TwoCopies(d.waiting, i, j);
    }
  }

  // ------------------------------------------------------------ every run

  /** `d'` comes after `d`: the lists are exact, nothing found or kept is lost or moved back, and unless
      parsing failed the invariant holds. */
  ghost predicate After(d: Doc, d': Doc) {
    && ListsOk(d') && Sourced(d') && d.created <= d'.created && d.stashed <= d'.stashed && d.fired <= d'.fired
    && (forall g | g in d'.finders :: g in d.finders || g.id >= |d.created|)
    && (forall g | g in d.founders :: g in d'.founders)
    && (!d'.failed ==> DocOk(d'))
  }

  lemma AfterTrans(a: Doc, b: Doc, c: Doc)
    requires After(a, b) && After(b, c)
    ensures After(a, c)
  {
    hide ListsOk, DocOk, Sourced;
  }

  /** Events only add to what was met, so what came from it still does. */
  lemma SourcedLater(d: Doc, d': Doc)
    requires Sourced(d) && SameFound(d, d') && Before(d.cursor.log, d'.cursor.log)
    ensures Sourced(d')
  {
    hide Asked, PathMatch, AttrSearch;
    forall s | s in d'.stashed
      ensures s.finder in d'.created && Taken(d'.cursor, s)
    {
      assert Taken(d.cursor, s);
      if s.attr {
        var atts :| (s.elPath, atts) in d.cursor.log.elems && AttrSearch(atts, s.finder.search.attr.value) == Some(s.text);
        assert HasAttr(d'.cursor.log.elems, s.elPath, s.finder.search.attr.value, s.text);
      }
    }
  }

  lemma SourcedOnward(d: Doc, d': Doc)
    requires Sourced(d) && Onward(d, d')
    requires d'.created == d.created || d.cursor.elPath in d.cursor.log.paths
    ensures Sourced(d')
  {
    hide Asked, Taken;
    forall f | f in d'.created
      ensures Asked(f, f.askedAt) && (f.askedAt == "/" || f.askedAt in d'.cursor.log.paths)
    {
      var i :| 0 <= i < |d'.created| && d'.created[i] == f;
      assert i < |d.created| ==> d.created[i] == f && f in d.created;
      assert Asked(f, d.cursor.elPath) ==> f.askedAt == d.cursor.elPath by { AskedThere(f, d.cursor.elPath); }
    }
    forall s | s in d'.stashed
      ensures s.finder in d'.created && Taken(d'.cursor, s)
    {
      var i :| 0 <= i < |d'.stashed| && d'.stashed[i] == s;
      assert i < |d.stashed| ==> d.stashed[i] == s && s in d.stashed;
    }
  }

  lemma AskedThere(f: Finder, path: string)
    ensures Asked(f, path) ==> f.askedAt == path
  {
  }

  lemma OnwardAfter(d: Doc, d1: Doc, d': Doc)
    requires SameFound(d, d1) && Onward(d1, d') && ListsOk(d') && Sourced(d') && (!d'.failed ==> DocOk(d'))
    ensures After(d, d')
  {
    hide ListsOk, DocOk, Sourced, Asked, Taken;
  }

  lemma StartStands(d: Doc, e: Event)
    requires e.Start? && !d.cursor.stopped && !Step(d.cursor, e).stopped
    ensures Standing(Moved(d, e), e.atts)
  {
    hide Encounter;
    var c := Step(d.cursor, e);
    assert c.log.paths[|d.cursor.log.paths|] == c.elPath && c.log.elems[|d.cursor.log.elems|] == (c.elPath, e.atts);
  }

  lemma TextMet(d: Doc, e: Event)
    requires e.Data? && !d.cursor.stopped
    ensures var c := Step(d.cursor, e); c.elPath == d.cursor.elPath && (c.elPath, e.text) in c.log.texts
  {
    var c := Step(d.cursor, e);
    assert c.log.texts[|d.cursor.log.texts|] == (c.elPath, e.text);
  }

  lemma StepKeeps(d: Doc, e: Event, o: Oracle)
    requires DocOk(d) && Sourced(d) && !d.failed && !d.cursor.stopped
    ensures After(d, DocStep(d, e, o)) && DocStep(d, e, o).cursor == Step(d.cursor, e)
    ensures DocStep(d, e, o).cursor.stopped ==> DocStep(d, e, o).failed
  {
    hide ListsOk, DocOk, Sourced, Onward, After, Step, SearchFinders, TakeText, Standing;
    var d1 := Moved(d, e);
    var d' := DocStep(d, e, o);
    StepGrows(d.cursor, e);
    CursorKeeps(d, d1);
    SourcedLater(d, d1);
    ListsOfOk(d1);
    SameOnward(d1);
    if d1.cursor.stopped {
      SameListsOk(d1, d');
      FailOnward(d1);
      SourcedOnward(d1, d');
    } else if e.Start? {
      StartStands(d, e);
      Walkable(d1);
      SearchKeeps(d1, d1.finders, e.atts, o);
      StandingVisited(d1, e.atts);
      SourcedOnward(d1, d');
    } else if e.Data? && d1.listening {
      TextMet(d, e);
      Walkable(d1);
      TakeTextKeeps(d1, d1.waiting, e.text, o);
      SourcedOnward(d1, d');
    }
    OnwardAfter(d, d1, d');
    OnwardCursor(d1, d');
  }

  lemma StandingVisited(d: Doc, atts: Atts)
    requires Standing(d, atts)
    ensures d.cursor.elPath in d.cursor.log.paths
  {
  }

  lemma OnwardCursor(d: Doc, d': Doc)
    requires Onward(d, d')
    ensures d'.cursor == d.cursor
  {
  }

  /** Over every event sequence and every behaviour of the callbacks. */
  lemma {:induction false} Lifecycle(d: Doc, es: seq<Event>, o: Oracle)
    requires DocOk(d) && Sourced(d) && !d.failed && !d.cursor.stopped
    ensures After(d, DocRun(d, es, o))
    decreases |es|
  {
    hide ListsOk, DocOk, Sourced, DocStep;
    if es == [] {
      ListsOfOk(d);
    } else {
      var d1 := DocStep(d, es[0], o);
      StepKeeps(d, es[0], o);
      if d1.failed {
        FailedStays(d1, es[1..], o);
      } else {
        Lifecycle(d1, es[1..], o);
        AfterTrans(d, d1, DocRun(d1, es[1..], o));
      }
    }
  }

  lemma {:induction false} FailedStays(d: Doc, es: seq<Event>, o: Oracle)
    requires d.failed
    ensures DocRun(d, es, o) == d
    decreases |es|
  {
    if es != [] {
      FailedStays(d, es[1..], o);
    }
  }
}
