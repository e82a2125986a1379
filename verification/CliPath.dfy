/** Path realisation of the command line client: client/cli_path.c. */
module CliPath {
  import opened Basics
  import opened Strings

  const PATH_MAX := 4096

  // ------------------------------------------------------------ meaning

  /** Walks `toks` from the directory `stack`; None when a ".." leaves the root. */
  function Walk(stack: seq<string>, toks: seq<string>): Option<seq<string>>
    decreases |toks|
  {
    if toks == [] then Some(stack)
    else if toks[0] == ".." then
      if stack == [] then None else Walk(stack[..|stack| - 1], toks[1..])
    else if toks[0] == "." then Walk(stack, toks[1..])
    else Walk(stack + [toks[0]], toks[1..])
  }

  predicate IsName(t: string) {
    IsToken(t) && t != "." && t != ".."
  }

  ghost predicate AllNames(ts: seq<string>) {
    forall i | 0 <= i < |ts| :: IsName(ts[i])
  }

  /** "/" for the root, otherwise a '/' before each name. */
  function Render(ents: seq<string>): string {
    if ents == [] then "/" else ("/" + Join(ents))[..|Join(ents)|]
  }

  /** No empty, "." or ".." component, and no trailing separator. */
  ghost predicate Canonical(path: string) {
    path == Render(Tokens(path)) && AllNames(Tokens(path))
  }

  /** The components to walk: those of the working directory too, unless the user path is absolute. */
  function Steps(cwd: string, usr: string): seq<string> {
    if IsAbsolute(usr) then Tokens(usr) else Tokens(cwd) + Tokens(usr)
  }

  predicate IsAbsolute(path: string) {
    path != "" && path[0] == '/'
  }

  /** The outcome of a realisation, error by error. */
  function Realized(cwd: Option<string>, usr: Option<string>): Result<string> {
    if cwd.None? || cwd.value == "" || cwd.value[0] != '/' then Err(EINVAL)
    else if usr.None? || usr.value == "" then Ok(cwd.value)
    else if |usr.value| >= PATH_MAX || |cwd.value| + |usr.value| >= PATH_MAX then Err(EINVAL)
    else
      Rendered(Walk([], Steps(cwd.value, usr.value)))
  }

  function Rendered(ents: Option<seq<string>>): Result<string> {
    if ents.None? then Err(EINVAL) else if Fits(ents.value) then Ok(Render(ents.value)) else Err(EINVAL)
  }

  /** The rendering, its last separator and the byte kept in reserve fit in PATH_MAX bytes. */
  predicate Fits(ents: seq<string>) {
    |Join(ents)| <= PATH_MAX - 2
  }

  // ------------------------------------------------------------ lemmas

  lemma {:induction false} WalkNames(stack: seq<string>, toks: seq<string>)
    requires AllNames(stack) && AllTokens(toks)
    ensures Walk(stack, toks).Some? ==> AllNames(Walk(stack, toks).value)
    decreases |toks|
  {
    if toks != [] {
      var rest := toks[1..];
      if toks[0] == ".." {
        if stack != [] {
          WalkNames(stack[..|stack| - 1], rest);
        }
      } else if toks[0] == "." {
        WalkNames(stack, rest);
      } else {
        WalkNames(stack + [toks[0]], rest);
      }
    }
  }

  lemma {:induction false} WalkAppend(stack: seq<string>, a: seq<string>, b: seq<string>)
    ensures Walk(stack, a + b) == if Walk(stack, a).None? then None else Walk(Walk(stack, a).value, b)
    decreases |a|
  {
    if a == [] {
      assert a + b == b;
    } else {
      assert (a + b)[1..] == a[1..] + b;
      if a[0] == ".." {
        if stack != [] {
          WalkAppend(stack[..|stack| - 1], a[1..], b);
        }
      } else if a[0] == "." {
        WalkAppend(stack, a[1..], b);
      } else {
        WalkAppend(stack + [a[0]], a[1..], b);
      }
    }
  }

  lemma {:induction false} WalkOfNames(stack: seq<string>, names: seq<string>)
    requires AllNames(names)
    ensures Walk(stack, names) == Some(stack + names)
    decreases |names|
  {
    if names == [] {
      assert stack + names == stack;
    } else {
      WalkOfNames(stack + [names[0]], names[1..]);
      assert stack + [names[0]] + names[1..] == stack + names;
    }
  }

  /** How far one step goes down. */
  function Move(t: string): int {
    if t == ".." then -1 else if t == "." then 0 else 1
  }

  function Depth(toks: seq<string>): int {
    if toks == [] then 0 else Depth(toks[..|toks| - 1]) + Move(toks[|toks| - 1])
  }

  /** Some part of the walk ends above the root when it starts at this depth. */
  ghost predicate Climbs(depth: int, toks: seq<string>) {
    exists k :: 0 <= k <= |toks| && depth + Depth(toks[..k]) < 0
  }

  lemma {:induction false} DepthCons(t: string, toks: seq<string>)
    ensures Depth([t] + toks) == Move(t) + Depth(toks)
  {
    hide Move;
    if toks == [] {
      assert [t] + toks == [t] && [t][..0] == [];
    } else {
      DepthCons(t, toks[..|toks| - 1]);
      assert ([t] + toks)[..|toks|] == [t] + toks[..|toks| - 1];
    }
  }

  lemma DepthOfPart(toks: seq<string>, k: nat)
    requires 1 <= k <= |toks|
    ensures Depth(toks[..k]) == Move(toks[0]) + Depth(toks[1..][..k - 1])
  {
    hide Move, Depth;
    DepthCons(toks[0], toks[1..][..k - 1]);
    assert toks[..k] == [toks[0]] + toks[1..][..k - 1];
  }

  lemma DepthOfNone(toks: seq<string>)
    ensures Depth(toks[..0]) == 0
  {
  }

  lemma ClimbsNext(depth: nat, toks: seq<string>)
    requires toks != []
    ensures Climbs(depth, toks) <==> Climbs(depth + Move(toks[0]), toks[1..])
  {
    hide Move, Depth;
    var depth', rest := depth + Move(toks[0]), toks[1..];
    if Climbs(depth, toks) {
      var k :| 0 <= k <= |toks| && depth + Depth(toks[..k]) < 0;
      DepthOfNone(toks);
      DepthOfPart(toks, k);
      assert depth' + Depth(rest[..k - 1]) < 0;
    }
    if Climbs(depth', rest) {
      var k :| 0 <= k <= |rest| && depth' + Depth(rest[..k]) < 0;
      DepthOfPart(toks, k + 1);
      assert depth + Depth(toks[..k + 1]) < 0;
    }
  }

  lemma ClimbsNot(depth: nat)
    ensures !Climbs(depth, [])
  {
    DepthOfNone([]);
  }

  lemma ClimbsAtOnce(toks: seq<string>)
    ensures Climbs(-1, toks)
  {
    assert Depth(toks[..0]) == 0;
  }

  lemma DepthNext(toks: seq<string>)
    requires toks != []
    ensures Depth(toks) == Move(toks[0]) + Depth(toks[1..])
  {
    hide Move, Depth;
    DepthCons(toks[0], toks[1..]);
    assert toks == [toks[0]] + toks[1..];
  }

  /** A walk fails exactly when some part of it climbs above the root. */
  lemma {:induction false} WalkFails(stack: seq<string>, toks: seq<string>)
    ensures Walk(stack, toks).None? <==> Climbs(|stack|, toks)
    ensures Walk(stack, toks).Some? ==> |Walk(stack, toks).value| == |stack| + Depth(toks)
    decreases |toks|
  {
    hide Climbs;
    if toks == [] {
      ClimbsNot(|stack|);
    } else {
      var t, rest := toks[0], toks[1..];
      ClimbsNext(|stack|, toks);
      DepthNext(toks);
      if t == ".." && stack == [] {
        ClimbsAtOnce(rest);
      } else {
        WalkFails(if t == ".." then stack[..|stack| - 1] else if t == "." then stack else stack + [t], rest);
      }
    }
  }

  lemma RootTokens()
    ensures Tokens("/") == [] && Tokens("") == []
  {
    assert "/"[1..] == "";
  }

  lemma RenderClosed(ents: seq<string>)
    requires ents != []
    ensures "/" + Join(ents) == Render(ents) + "/"
  {
  }

  lemma TokensOfRender(ents: seq<string>)
    requires AllTokens(ents)
    ensures Tokens(Render(ents)) == ents
  {
    hide Join, Tokens, IsToken;
    if ents == [] {
      RootTokens();
    } else {
      RootTokens();
      var r := Render(ents);
      TokensOfPath(ents);
      RenderClosed(ents);
      assert "/" + Join(ents) == r + "/" + "";
      TokensAppend(r, "");
    }
  }

  lemma RenderIsCanonical(ents: seq<string>)
    requires AllNames(ents)
    ensures Canonical(Render(ents)) && Tokens(Render(ents)) == ents
    ensures |Render(ents)| == if ents == [] then 1 else |Join(ents)|
    ensures Render(ents)[0] == '/'
    ensures ents != [] ==> |Join(ents)| >= 2
  {
    TokensOfRender(ents);
    if ents != [] {
      assert IsName(ents[|ents| - 1]);
    }
  }

  /** A successful realisation is canonical, unless the working directory is handed back unread and
      was not canonical itself. */
  lemma RealizedIsCanonical(cwd: string, usr: Option<string>)
    requires Realized(Some(cwd), usr).Ok?
    ensures var r := Realized(Some(cwd), usr).value;
            && (Canonical(r) <==> (usr.Some? && usr.value != "") || Canonical(cwd))
            && (usr.Some? && usr.value != "" ==> |r| <= PATH_MAX - 2)
  {
    if usr.Some? && usr.value != "" {
      var toks := Steps(cwd, usr.value);
      WalkNames([], toks);
      RenderIsCanonical(Walk([], toks).value);
    }
  }

  /** With a non-empty user path, realisation fails exactly when a length check fails or a step
      climbs above the root. */
  lemma RealizeFails(cwd: string, usr: string)
    requires cwd != "" && cwd[0] == '/' && usr != ""
    ensures var toks := Steps(cwd, usr);
            Realized(Some(cwd), Some(usr)).Err? <==>
              || |cwd| + |usr| >= PATH_MAX
              || Climbs(0, toks)
              || (Walk([], toks).Some? && !Fits(Walk([], toks).value))
  {
    var toks := Steps(cwd, usr);
    WalkFails([], toks);
  }

  /** Realising a canonical path again changes nothing, as long as the path leaves room for the
      one-byte working directory in the length check. */
  lemma RealizeAgain(r: string)
    requires Canonical(r)
    ensures Realized(Some("/"), Some(r)) == Ok(r) <==> |r| + 1 < PATH_MAX
  {
    var ents := Tokens(r);
    RenderIsCanonical(ents);
    WalkOfNames([], ents);
    assert r[0] == '/' && [] + ents == ents;
    assert |Join([])| == 0;
  }

  /** So re-realising a result is the identity whenever the user path was not empty. */
  lemma RealizeIsIdempotent(cwd: string, usr: string)
    requires usr != "" && Realized(Some(cwd), Some(usr)).Ok?
    ensures var r := Realized(Some(cwd), Some(usr)).value;
            Realized(Some("/"), Some(r)) == Ok(r)
  {
    RealizedIsCanonical(cwd, Some(usr));
    RealizeAgain(Realized(Some(cwd), Some(usr)).value);
  }

  /** Only an over-long working directory, handed back for an empty user path, breaks it.  The function
      allows one; the client never has one, because its working directory is always "/". */
  lemma LongCwdIsNotIdempotent()
    ensures exists cwd: string ::
              && Canonical(cwd) && Realized(Some(cwd), None) == Ok(cwd)
              && Realized(Some("/"), Some(cwd)) != Ok(cwd)
  {
    var name := seq(PATH_MAX, _ => 'a');
    var cwd := Render([name]);
    RenderIsCanonical([name]);
    assert Join([name]) == name + "/" by { assert Join([name]) == Join([]) + (name + "/"); }
    RealizeAgain(cwd);
    assert Realized(Some(cwd), None) == Ok(cwd);
  }

  lemma RealizedBelow(dir: seq<string>, usr: string)
    requires AllNames(dir) && usr != "" && usr[0] != '/' && |Render(dir)| + |usr| < PATH_MAX
    ensures Realized(Some(Render(dir)), Some(usr)) == Rendered(Walk(dir, Tokens(usr)))
  {
    RenderIsCanonical(dir);
    WalkAppend([], dir, Tokens(usr));
    WalkOfNames([], dir);
    assert [] + dir == dir;
  }

  /** Changing directory twice is changing directory once along both paths. */
  lemma RealizeComposes(cwd: string, a: string, b: string)
    requires a != "" && b != "" && b[0] != '/'
    requires Realized(Some(cwd), Some(a)).Ok?
    requires var r := Realized(Some(cwd), Some(a)).value; |r| + |b| < PATH_MAX && |cwd| + |a + "/" + b| < PATH_MAX
    ensures Realized(Some(Realized(Some(cwd), Some(a)).value), Some(b)) == Realized(Some(cwd), Some(a + "/" + b))
  {
    var toks := Steps(cwd, a);
    var mid := Walk([], toks).value;
    WalkNames([], toks);
    RealizedBelow(mid, b);
    StepsAppend(cwd, a, b);
    WalkAppend([], toks, Tokens(b));
  }

  lemma StepsAppend(cwd: string, a: string, b: string)
    requires a != ""
    ensures Steps(cwd, a + "/" + b) == Steps(cwd, a) + Tokens(b)
  {
    TokensAppend(a, b);
    AbsoluteAppend(a, "/", b);
    Associate(Tokens(cwd), Tokens(a), Tokens(b));
  }

  lemma AbsoluteAppend(a: string, sep: string, b: string)
    requires a != ""
    ensures IsAbsolute(a + sep + b) == IsAbsolute(a)
  {
  }

  lemma Associate(a: seq<string>, b: seq<string>, c: seq<string>)
    ensures (a + b) + c == a + (b + c)
  {
  }

  // ------------------------------------------------------------ what components mean

  /** A component that is kept: a piece of a path between separators other than "." and "..". */
  ghost predicate Component(name: string) {
    name != "" && '/' !in name && name != "." && name != ".."
  }

  lemma ComponentSteps(name: string, tail: string)
    requires Component(name)
    ensures Tokens(name + "/../" + tail) == [name, ".."] + Tokens(tail)
    ensures Tokens(name + "/..") == [name, ".."]
    ensures Tokens("./" + tail) == ["."] + Tokens(tail) && Tokens(".") == ["."]
    ensures Tokens("/" + tail) == Tokens(tail)
  {
    hide Tokens;
    TokensOfToken(name);
    TokensOfToken("..");
    TokensOfToken(".");
    TokensAppend(name, "..");
    TokensAppend(name + "/..", tail);
    assert name + "/" + ".." == name + "/..";
    assert name + "/.." + "/" + tail == name + "/../" + tail;
    TokensAppend(".", tail);
    assert "." + "/" + tail == "./" + tail;
    TokensFirst("/" + tail);
    assert ("/" + tail)[1..] == tail;
  }

  lemma WalkDownAndUp(stack: seq<string>, name: string, rest: seq<string>)
    requires Component(name)
    ensures Walk(stack, [name, ".."] + rest) == Walk(stack, rest)
    ensures Walk(stack, ["."] + rest) == Walk(stack, rest)
  {
    var toks := [name, ".."] + rest;
    assert toks[1..] == [".."] + rest && ([".."] + rest)[1..] == rest && (["."] + rest)[1..] == rest;
    assert (stack + [name])[..|stack|] == stack;
  }

  lemma SameWalk(cwd: string, usr: string, usr': string)
    requires usr != "" && usr' != "" && |cwd| + |usr| < PATH_MAX && |cwd| + |usr'| < PATH_MAX
    requires Walk([], Steps(cwd, usr)) == Walk([], Steps(cwd, usr'))
    ensures Realized(Some(cwd), Some(usr)) == Realized(Some(cwd), Some(usr'))
  {
  }

  /** ".." takes back the component before it, wherever it stands, and nothing else; this also when the
      path fails. */
  lemma UpUndoesDown(cwd: string, usr: string, name: string, tail: string)
    requires usr != "" && Component(name) && |cwd| + |usr| + |name| + |tail| + 5 < PATH_MAX
    ensures Realized(Some(cwd), Some(usr + "/" + name + "/..")) == Realized(Some(cwd), Some(usr))
    ensures Realized(Some(cwd), Some(usr + "/" + name + "/../" + tail)) == Realized(Some(cwd), Some(usr + "/" + tail))
  {
    hide Tokens, Walk, Steps, Realized;
    var toks := Steps(cwd, usr);
    ComponentSteps(name, tail);
    StepsAppend(cwd, usr, name + "/..");
    StepsAppend(cwd, usr, name + "/../" + tail);
    StepsAppend(cwd, usr, tail);
    assert usr + "/" + name + "/.." == usr + "/" + (name + "/..");
    assert usr + "/" + name + "/../" + tail == usr + "/" + (name + "/../" + tail);
    Insertion(toks, [name, ".."], [], name);
    Insertion(toks, [name, ".."], Tokens(tail), name);
    assert toks + [] == toks && [name, ".."] + [] == [name, ".."];
    SameWalk(cwd, usr + "/" + name + "/..", usr);
    SameWalk(cwd, usr + "/" + name + "/../" + tail, usr + "/" + tail);
  }

  /** "." and a doubled separator change nothing, wherever they stand. */
  lemma DotStays(cwd: string, usr: string, tail: string)
    requires usr != "" && |cwd| + |usr| + |tail| + 3 < PATH_MAX
    ensures Realized(Some(cwd), Some(usr + "/.")) == Realized(Some(cwd), Some(usr))
    ensures Realized(Some(cwd), Some(usr + "/./" + tail)) == Realized(Some(cwd), Some(usr + "/" + tail))
    ensures Realized(Some(cwd), Some(usr + "//" + tail)) == Realized(Some(cwd), Some(usr + "/" + tail))
  {
    hide Tokens, Walk, Steps, Realized;
    var toks := Steps(cwd, usr);
    ComponentSteps("a", tail);
    StepsAppend(cwd, usr, ".");
    StepsAppend(cwd, usr, "./" + tail);
    StepsAppend(cwd, usr, "/" + tail);
    StepsAppend(cwd, usr, tail);
    assert usr + "/" + "." == usr + "/.";
    assert usr + "/" + ("./" + tail) == usr + "/./" + tail;
    assert usr + "/" + ("/" + tail) == usr + "//" + tail;
    Insertion(toks, ["."], [], "a");
    Insertion(toks, ["."], Tokens(tail), "a");
    assert toks + [] == toks && ["."] + [] == ["."];
    SameWalk(cwd, usr + "/.", usr);
    SameWalk(cwd, usr + "/./" + tail, usr + "/" + tail);
    SameWalk(cwd, usr + "//" + tail, usr + "/" + tail);
  }

  lemma Insertion(toks: seq<string>, mid: seq<string>, rest: seq<string>, name: string)
    requires Component(name) && (mid == [name, ".."] || mid == ["."])
    ensures Walk([], toks + (mid + rest)) == Walk([], toks + rest)
  {
    hide Walk;
    WalkAppend([], toks, mid + rest);
    WalkAppend([], toks, rest);
    if Walk([], toks).Some? {
      WalkDownAndUp(Walk([], toks).value, name, rest);
    }
  }

  /** With plain components the result is the components one after the other, behind those of the
      working directory unless the path is absolute. */
  lemma PlainPath(dir: seq<string>, names: seq<string>)
    requires AllNames(dir) && AllNames(names) && names != []
    requires |Render(dir)| + |"/" + Join(names)| < PATH_MAX - 1
    ensures Realized(Some(Render(dir)), Some(Join(names))) == Ok(Render(dir + names))
    ensures Realized(Some(Render(dir)), Some("/" + Join(names))) == Ok(Render(names))
  {
    hide Tokens, Join, Walk, AllNames, Render, Realized;
    PlainBehind(dir, names);
    PlainAlone(dir, names);
  }

  lemma PlainBehind(dir: seq<string>, names: seq<string>)
    requires AllNames(dir) && AllNames(names) && names != []
    requires |Render(dir)| + |Join(names)| < PATH_MAX - 1
    ensures Realized(Some(Render(dir)), Some(Join(names))) == Ok(Render(dir + names))
  {
    hide Tokens, Join, Walk, AllNames, Render;
    NamesAreTokens(names);
    RenderIsCanonical(dir);
    TokensOfJoin(names);
    JoinAppend(dir, names);
    JoinStarts(names);
    WalkOfNames([], dir + names);
    assert [] + (dir + names) == dir + names;
    RenderSize(dir);
  }

  lemma PlainAlone(dir: seq<string>, names: seq<string>)
    requires AllNames(dir) && AllNames(names) && names != []
    requires |Render(dir)| + |"/" + Join(names)| < PATH_MAX - 1
    ensures Realized(Some(Render(dir)), Some("/" + Join(names))) == Ok(Render(names))
  {
    hide Tokens, Join, Walk, AllNames, Render;
    NamesAreTokens(names);
    RenderIsCanonical(dir);
    TokensOfPath(names);
    WalkOfNames([], names);
    assert [] + names == names;
    RenderSize(dir);
  }

  lemma NamesAreTokens(names: seq<string>)
    requires AllNames(names)
    ensures AllTokens(names)
    ensures forall dir | AllNames(dir) :: AllNames(dir + names)
  {
  }

  lemma NothingJoined()
    ensures Join([]) == ""
  {
  }

  lemma JoinSnoc(ts: seq<string>, t: string)
    ensures Join(ts + [t]) == Join(ts) + (t + "/")
  {
    assert (ts + [t])[..|ts|] == ts;
  }

  lemma {:induction false} JoinAppend(a: seq<string>, b: seq<string>)
    ensures Join(a + b) == Join(a) + Join(b)
  {
    hide Join;
    if b == [] {
      assert a + b == a && Join(a) + "" == Join(a);
      NothingJoined();
    } else {
      var front, t := b[..|b| - 1], b[|b| - 1];
      JoinAppend(a, front);
      JoinSnoc(front, t);
      JoinSnoc(a + front, t);
      assert b == front + [t] && a + b == (a + front) + [t];
    }
  }

  lemma {:induction false} JoinStarts(names: seq<string>)
    requires AllNames(names) && names != []
    ensures Join(names) != "" && Join(names)[0] != '/'
  {
    var front, t := names[..|names| - 1], names[|names| - 1];
    if front == [] {
      assert Join(names) == "" + (t + "/");
      assert IsName(t) && t[0] in t;
    } else {
      assert AllNames(front);
      JoinStarts(front);
    }
  }

  lemma RenderSize(dir: seq<string>)
    ensures |Join(dir)| <= |Render(dir)|
    ensures Render(dir) != ""
  {
    if dir != [] {
      assert |Join(dir)| >= 1;
    }
  }

  // ------------------------------------------------------------ the client's code

  /** The list of path entries and its counter. */
  class PathEnts {
    var ents: seq<string>
    var numEnts: nat

    ghost predicate Valid()
      reads this
    {
      numEnts == |ents| && AllNames(ents)
    }

    constructor ()
      ensures Valid() && ents == []
    {
      ents, numEnts := [], 0;
    }

    /** Walks one path from the entries collected so far. */
    method Parse(path: string) returns (ok: bool)
      requires Valid()
      modifies this
      ensures Valid()
      ensures ok <==> Walk(old(ents), Tokens(path)).Some?
      ensures ok ==> ents == Walk(old(ents), Tokens(path)).value
    {
      var left := path;
      var scan := StrTok(left);
      while scan.Token?
        invariant Valid() && (scan.Token? ==> IsToken(scan.tok))
        invariant Walk(old(ents), Tokens(path)) == Walk(ents, Remaining(scan))
        decreases if scan.Token? then |scan.rest| + 1 else 0
      {
        assert Remaining(scan)[0] == scan.tok && Remaining(scan)[1..] == Tokens(scan.rest);
        if scan.tok == ".." {
          if numEnts == 0 {
            return false;
          }
          ents, numEnts := ents[..|ents| - 1], numEnts - 1;
        } else if scan.tok != "." {
          ents, numEnts := ents + [scan.tok], numEnts + 1;
        }
        left := scan.rest;
        scan := StrTok(left);
        assert scan.Token? ==> IsToken(Tokens(left)[0]);
      }
      return true;
    }

    /** Renders the entries into a buffer of PATH_MAX bytes and drops them. */
    method RenderFree() returns (r: Result<string>)
      requires Valid()
      modifies this
      ensures Valid()
      ensures r == if Fits(old(ents)) then Ok(Render(old(ents))) else Err(EINVAL)
      ensures r.Ok? ==> ents == []
    {
      if numEnts == 0 {
        return Ok("/");
      }
      hide Done, AllNames, Render;
      var buf := new char[PATH_MAX];
      buf[0] := '/';
      ghost var all := ents;
      assert buf[..1] == "/";
      var ok, off := WriteFree(buf);
      AllDone(all);
      if !ok {
        return Err(EINVAL);
      }
      assert buf[..off - 1] == buf[..off][..off - 1];
      return Ok(buf[..off - 1]);
    }

    /** Writes the entries behind the first separator, dropping each, until one does not fit. */
    method WriteFree(buf: array<char>) returns (ok: bool, off: nat)
      requires Valid() && buf.Length == PATH_MAX && buf[..1] == "/"
      modifies this, buf
      ensures Valid() && (ok <==> |Done(old(ents), |old(ents)|)| <= PATH_MAX - 1)
      ensures ok ==> ents == [] && 1 <= off <= buf.Length && buf[..off] == Done(old(ents), |old(ents)|)
    {
      hide Done, AllNames;
      var remain: int := PATH_MAX - 2;
      off := 1;
      ghost var all, k := ents, 0;
      NoneDone(all);
      while ents != []
        invariant numEnts == |ents| && AllNames(ents) && k <= |all| && ents == all[k..]
        invariant remain == PATH_MAX - 1 - off && 1 <= off < PATH_MAX
        invariant buf[..off] == Done(all, k)
        decreases |ents|
      {
        DoneNext(all, k);
        FewerNames(ents);
        var name := ents[0];
        var len := |name|;
        if len >= remain {
          return false, off;
        }
        AppendName(buf, off, name);
        off := off + len;
        remain := remain - len;
        off := off + 1;
        remain := remain - 1;
        ents, numEnts := ents[1..], numEnts - 1;
        k := k + 1;
      }
      return true, off;
    }
  }

  /** The buffer's text when `k` of the entries are written. */
  ghost function Done(all: seq<string>, k: nat): string
    requires k <= |all|
  {
    "/" + Join(all[..k])
  }

  lemma NoneDone(all: seq<string>)
    ensures Done(all, 0) == "/"
  {
  }

  lemma DoneNext(all: seq<string>, k: nat)
    requires k < |all|
    ensures Done(all, k + 1) == Done(all, k) + (all[k] + "/")
    ensures |Done(all, k + 1)| <= |Done(all, |all|)|
  {
    hide Join;
    JoinGrows(all, k);
    JoinGrows(all, |all| - 1);
    assert all[..|all|] == all;
    assert "/" + (Join(all[..k]) + (all[k] + "/")) == "/" + Join(all[..k]) + (all[k] + "/");
  }

  lemma AllDone(all: seq<string>)
    ensures |Done(all, |all|)| == 1 + |Join(all)|
    ensures all != [] ==> Done(all, |all|)[..|Done(all, |all|)| - 1] == Render(all)
  {
    hide Join;
    assert all[..|all|] == all;
  }

  lemma FewerNames(ents: seq<string>)
    requires AllNames(ents) && ents != []
    ensures AllNames(ents[1..])
  {
    hide IsName;
  }

  /** Copies a name and a separator after it. */
  method AppendName(buf: array<char>, off: nat, name: string)
    requires off + |name| < buf.Length
    modifies buf
    ensures buf[..off + |name| + 1] == old(buf[..off]) + (name + "/")
  {
    MemCpy(buf, off, name);
    MemCpy(buf, off + |name|, "/");
    assert buf[..off + |name| + 1] == old(buf[..off]) + name + "/";
  }

  function Remaining(scan: Scan): seq<string> {
    if scan.End? then [] else [scan.tok] + Tokens(scan.rest)
  }

  lemma {:induction false} JoinGrows(ts: seq<string>, k: nat)
    requires k < |ts|
    ensures Join(ts[..k + 1]) == Join(ts[..k]) + (ts[k] + "/")
    ensures |Join(ts[..k + 1])| <= |Join(ts)|
    decreases |ts| - k
  {
    assert ts[..k + 1][..k] == ts[..k];
    if k + 1 < |ts| {
      JoinGrows(ts, k + 1);
    } else {
      assert ts[..k + 1] == ts;
    }
  }

  method Realize(cwd: Option<string>, usr: Option<string>) returns (r: Result<string>)
    ensures r == Realized(cwd, usr)
  {
    if cwd.None? {
      return Err(EINVAL);
    }
    var cwdLen := |cwd.value|;
    if cwdLen == 0 || cwd.value[0] != '/' {
      return Err(EINVAL);
    }
    if usr.None? || |usr.value| == 0 {
      return Ok(cwd.value);
    }
    var usrLen := |usr.value|;
    if usrLen >= PATH_MAX || cwdLen + usrLen >= PATH_MAX {
      return Err(EINVAL);
    }
    var ents := new PathEnts();
    var ok := true;
    WalkAppend([], Tokens(cwd.value), Tokens(usr.value));
    if usr.value[0] != '/' {
      ok := ents.Parse(cwd.value);
    }
    if !ok {
      return Err(EINVAL);
    }
    ok := ents.Parse(usr.value);
    if !ok {
      return Err(EINVAL);
    }
    r := ents.RenderFree();
  }
}
