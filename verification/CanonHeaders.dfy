/** The canonical vendor headers of a request signature: canon_hdrs_gen in lib/sign.c. */
module CanonHeaders {
  import opened Basics
  import opened Strings
  import opened Sorting
  import Resend

  // ------------------------------------------------------------ names

  function ToLower(c: char): char {
    if 'A' <= c <= 'Z' then c - 'A' + 'a' else c
  }

  /** A name in lower case; equal exactly when strcasecmp finds the names equal. */
  function Lower(s: string): (l: string)
    ensures |l| == |s|
  {
    seq(|s|, i requires 0 <= i < |s| => ToLower(s[i]))
  }

  /** The capital letters become the small ones, and every other byte stays. */
  lemma LowerAlphabet(s: string, i: nat)
    requires i < |s|
    ensures Lower("ABCDEFGHIJKLM") == "abcdefghijklm" && Lower("NOPQRSTUVWXYZ") == "nopqrstuvwxyz"
    ensures s[i] < 'A' || s[i] > 'Z' ==> Lower(s)[i] == s[i]
  {
  }

  function Colon(s: string): (n: nat)
    ensures n <= |s| && ':' !in s[..n] && (n < |s| ==> s[n] == ':')
  {
    IndexOf(s, ':')
  }

  /** The name in a "name:value" entry. */
  function Key(e: string): string {
    e[..Colon(e)]
  }

  /** hdr_key_lexi_cmp: strncmp over the shorter of the two names. */
  function LexiCmp(a: string, b: string): int {
    var n := Min(Colon(a), Colon(b));
    StrCmp(a[..n], b[..n])
  }

  predicate Related(a: string, b: string) {
    Key(a) <= Key(b) || Key(b) <= Key(a)
  }

  /** Entries compare equal exactly when one name is a prefix of the other, not only for equal names. */
  lemma ComparesEqual(a: string, b: string)
    ensures LexiCmp(a, b) == 0 <==> Related(a, b)
  {
    var n := Min(Colon(a), Colon(b));
    StrCmpOrders(a[..n], b[..n]);
    assert Key(a)[..n] == a[..n] && Key(b)[..n] == b[..n];
  }

  lemma {:induction false} StrCmpTruncated(a: string, b: string, n: nat)
    requires n <= |a| && n <= |b| && a[..n] != b[..n]
    ensures StrCmp(a[..n], b[..n]) == StrCmp(a, b)
  {
    if a[0] == b[0] {
      assert a[..n] == [a[0]] + a[1..][..n - 1] && b[..n] == [b[0]] + b[1..][..n - 1];
      StrCmpTruncated(a[1..], b[1..], n - 1);
    }
  }

  /** Unrelated names are compared as strings. */
  lemma ComparesNames(a: string, b: string)
    requires !Related(a, b)
    ensures LexiCmp(a, b) == StrCmp(Key(a), Key(b))
  {
    var n := Min(Colon(a), Colon(b));
    assert Key(a)[..n] == a[..n] && Key(b)[..n] == b[..n];
    StrCmpTruncated(Key(a), Key(b), n);
  }

  lemma LexiCmpAntisymmetric(a: string, b: string)
    ensures LexiCmp(a, b) < 0 <==> LexiCmp(b, a) > 0
  {
    var n := Min(Colon(a), Colon(b));
    StrCmpOrders(a[..n], b[..n]);
  }

  /** Different elements have unrelated names. */
  ghost predicate PrefixFree(dom: set<string>) {
    forall a, b {:trigger Related(a, b)} | a in dom && b in dom && a != b :: !Related(a, b)
  }

  /** On a set of entries the comparison separates all entries exactly when no name is a prefix of
      another; then it is a strict total order by name. */
  lemma SeparatesIffPrefixFree(dom: set<string>)
    ensures Separates(LexiCmp, dom) <==> PrefixFree(dom)
    ensures PrefixFree(dom) ==> Consistent(LexiCmp, dom)
  {
    forall a, b | a in dom && b in dom
      ensures LexiCmp(a, b) == 0 <==> Related(a, b)
      ensures LexiCmp(a, b) < 0 <==> LexiCmp(b, a) > 0
    {
      ComparesEqual(a, b);
      LexiCmpAntisymmetric(a, b);
    }
    if PrefixFree(dom) {
      forall a, b, c {:trigger LexiCmp(a, b), LexiCmp(b, c)} |
        a in dom && b in dom && c in dom && LexiCmp(a, b) <= 0 && LexiCmp(b, c) <= 0
        ensures LexiCmp(a, c) <= 0
      {
        Transitive(a, b, c);
      }
    }
  }

  lemma Transitive(a: string, b: string, c: string)
    requires a == b || !Related(a, b)
    requires b == c || !Related(b, c)
    requires a == c || !Related(a, c)
    requires LexiCmp(a, b) <= 0 && LexiCmp(b, c) <= 0
    ensures LexiCmp(a, c) <= 0
  {
    ComparesEqual(a, c);
    if a != b && b != c && a != c {
      ComparesNames(a, b);
      ComparesNames(b, c);
      ComparesNames(a, c);
      StrCmpTransitive(Key(a), Key(b), Key(c));
    }
  }

  lemma ColonBehind(name: string, n: nat)
    requires ':' !in name && n <= |name|
    ensures Colon(name + ":") == |name| && (name + ":")[..n] == name[..n]
  {
    assert (name + ":")[..|name|] == name;
    IndexOfIs(name + ":", ':', |name|);
  }

  lemma {:induction false} StrCmpAt(p: string, c: char, d: char)
    requires c > d
    ensures StrCmp(p + [c], p + [d]) == 1
  {
    if p != "" {
      assert (p + [c])[1..] == p[1..] + [c] && (p + [d])[1..] == p[1..] + [d];
      StrCmpAt(p[1..], c, d);
    }
  }

  /** With a name that is a prefix of two others the comparison is no order: both compare equal to it
      and not to each other. */
  lemma PrefixBreaksOrder(p: string, c: char, d: char)
    requires ':' !in p && c > d && c != ':' && d != ':'
    ensures LexiCmp(p + [c] + ":", p + ":") == 0 && LexiCmp(p + ":", p + [d] + ":") == 0
    ensures LexiCmp(p + [c] + ":", p + [d] + ":") > 0
    ensures !Consistent(LexiCmp, {p + ":", p + [c] + ":", p + [d] + ":"})
  {
    ColonBehind(p, |p|);
    ColonBehind(p + [c], |p|);
    ColonBehind(p + [d], |p|);
    ColonBehind(p + [c], |p| + 1);
    ColonBehind(p + [d], |p| + 1);
    assert p[..|p|] == (p + [c])[..|p|] == (p + [d])[..|p|] == p;
    assert (p + [c])[..|p| + 1] == p + [c] && (p + [d])[..|p| + 1] == p + [d];
    StrCmpOrders(p, p);
    StrCmpAt(p, c, d);
  }

  /** An instance with the names of three headers. */
  lemma PrefixBreaksVendorOrder()
    ensures !Consistent(LexiCmp, {"x-ms-a:", "x-ms-ac:", "x-ms-ab:"})
  {
    hide Consistent, LexiCmp;
    PrefixBreaksOrder("x-ms-a", 'c', 'b');
    assert "x-ms-a" + ['c'] + ":" == "x-ms-ac:" && "x-ms-a" + ['b'] + ":" == "x-ms-ab:" && "x-ms-a" + ":" == "x-ms-a:";
  }

  // ------------------------------------------------------------ the headers of a request

  type Hdr = Resend.Hdr

  const HDR_PREFIX_AZ := "x-ms-"
  const HDR_PREFIX_S3 := "x-amz-"

  /** No two headers have this name. */
  ghost predicate Once(hs: seq<Hdr>, name: string) {
    forall i, j | 0 <= i < j < |hs| :: !(Lower(hs[i].key) == name && Lower(hs[j].key) == name)
  }

  /** What the assertions in the loop over the headers demand. */
  ghost predicate SetOnce(hs: seq<Hdr>) {
    Once(hs, "content-type") && Once(hs, "content-md5") && Once(hs, "content-length") && Once(hs, "range")
  }

  predicate IsVendor(key: string, pfx: string) {
    pfx <= Lower(key)
  }

  predicate IsVendorDate(key: string, pfx: string) {
    Lower(key) == pfx + "date"
  }

  /** "name:value", in lower case up to the first colon */
  function Entry(h: Hdr): string {
    var s := h.key + ":" + h.val;
    Lower(s[..Colon(s)]) + s[Colon(s)..]
  }

  lemma EntryHasColon(h: Hdr)
    ensures ':' in Entry(h)
    ensures ':' !in h.key ==> Entry(h) == Lower(h.key) + ":" + h.val
  {
    var s := h.key + ":" + h.val;
    assert s[|h.key|] == ':';
    NotFound(s, ':');
    assert Entry(h)[Colon(s)] == ':';
    if ':' !in h.key {
      assert s[..|h.key|] == h.key;
      IndexOfIs(s, ':', |h.key|);
    }
  }

  /** The vendor headers that are signed: all, or all but the vendor's date when it trumps "Date". */
  predicate Kept(h: Hdr, pfx: string, dateTrumps: bool) {
    IsVendor(h.key, pfx) && !(dateTrumps && IsVendorDate(h.key, pfx))
  }

  function VendorOne(h: Hdr, pfx: string, dateTrumps: bool): (es: seq<string>)
    ensures |es| <= 1
  {
    if Kept(h, pfx, dateTrumps) then [Entry(h)] else []
  }

  /** The entries of the vendor headers to be signed, in list order. */
  function Vendor(hs: seq<Hdr>, pfx: string, dateTrumps: bool): (es: seq<string>)
    ensures |es| <= |hs|
  {
    if hs == [] then []
    else VendorOne(hs[0], pfx, dateTrumps) + Vendor(hs[1..], pfx, dateTrumps)
  }

  /** The header's name begins with the vendor's prefix, letters of either case counting as equal; the
      vendor's date is left out when it is signed on its own. */
  ghost predicate Signed(h: Hdr, pfx: string, dateTrumps: bool) {
    && |pfx| <= |h.key| && (forall i | 0 <= i < |pfx| :: ToLower(h.key[i]) == pfx[i])
    && !(dateTrumps && |h.key| == |pfx| + 4 && Lower(h.key[|pfx|..]) == "date")
  }

  /** How many headers are signed with this line. */
  ghost function Positions(hs: seq<Hdr>, pfx: string, dateTrumps: bool, line: string): set<int> {
    set i | 0 <= i < |hs| && Signed(hs[i], pfx, dateTrumps) && Entry(hs[i]) == line
  }

  lemma KeptIsSigned(h: Hdr, pfx: string, dateTrumps: bool)
    ensures Kept(h, pfx, dateTrumps) <==> Signed(h, pfx, dateTrumps)
  {
    var l := Lower(h.key);
    assert |pfx| <= |h.key| ==> l[|pfx|..] == Lower(h.key[|pfx|..]);
    if pfx <= l {
      assert l == pfx + l[|pfx|..];
      assert l == pfx + "date" <==> l[|pfx|..] == "date";
      assert forall i | 0 <= i < |pfx| :: l[i] == pfx[i];
    }
    if Signed(h, pfx, dateTrumps) {
      assert l[..|pfx|] == pfx;
    }
  }

  lemma PositionsSnoc(hs: seq<Hdr>, h: Hdr, pfx: string, dateTrumps: bool, line: string)
    ensures |Positions(hs + [h], pfx, dateTrumps, line)|
         == |Positions(hs, pfx, dateTrumps, line)| + if Signed(h, pfx, dateTrumps) && Entry(h) == line then 1 else 0
  {
    hide Signed, Entry;
    var a, b := Positions(hs, pfx, dateTrumps, line), Positions(hs + [h], pfx, dateTrumps, line);
    assert b == if Signed(h, pfx, dateTrumps) && Entry(h) == line then a + {|hs|} else a;
  }

  /** Each line is signed as often as there are signed headers with it. */
  lemma {:induction false} VendorCounts(hs: seq<Hdr>, pfx: string, dateTrumps: bool, line: string)
    ensures multiset(Vendor(hs, pfx, dateTrumps))[line] == |Positions(hs, pfx, dateTrumps, line)|
  {
    hide Vendor, Signed, Entry, Kept;
    if hs == [] {
      assert Positions(hs, pfx, dateTrumps, line) == {};
      VendorNothing(pfx, dateTrumps);
    } else {
      var front, last := hs[..|hs| - 1], hs[|hs| - 1];
      assert hs == front + [last];
      VendorCounts(front, pfx, dateTrumps, line);
      PositionsSnoc(front, last, pfx, dateTrumps, line);
      VendorJoin(front, [last], pfx, dateTrumps);
      VendorSingle(last, pfx, dateTrumps);
      KeptIsSigned(last, pfx, dateTrumps);
    }
  }

  lemma VendorNothing(pfx: string, dateTrumps: bool)
    ensures Vendor([], pfx, dateTrumps) == []
  {
  }

  lemma VendorSingle(h: Hdr, pfx: string, dateTrumps: bool)
    ensures Vendor([h], pfx, dateTrumps) == VendorOne(h, pfx, dateTrumps)
  {
    assert [h][1..] == [];
  }

  /** The value of the last header of this name. */
  function LastVal(hs: seq<Hdr>, name: string): Option<string> {
    if hs == [] then None
    else if Lower(hs[|hs| - 1].key) == name then Some(hs[|hs| - 1].val)
    else LastVal(hs[..|hs| - 1], name)
  }

  /** The value of the first header of this name. */
  function FirstVal(hs: seq<Hdr>, name: string): Option<string> {
    if hs == [] then None
    else if FirstVal(hs[..|hs| - 1], name).Some? then FirstVal(hs[..|hs| - 1], name)
    else if Lower(hs[|hs| - 1].key) == name then Some(hs[|hs| - 1].val) else None
  }

  datatype Found = Found(ctype: Option<string>, md5: Option<string>, clen: Option<string>, date: Option<string>,
                         range: Option<string>)

  /** The name of the header that gives the date. */
  function DateName(hs: seq<Hdr>, pfx: string, dateTrumps: bool): string {
    if dateTrumps && LastVal(hs, pfx + "date").Some? then pfx + "date" else "date"
  }

  /** The last vendor date if it trumps and there is one, otherwise the first "Date". */
  function DateOf(hs: seq<Hdr>, pfx: string, dateTrumps: bool): Option<string> {
    if dateTrumps && LastVal(hs, pfx + "date").Some? then LastVal(hs, pfx + "date") else FirstVal(hs, "date")
  }

  /** The header values that enter the signature on their own. */
  function Values(hs: seq<Hdr>, pfx: string, dateTrumps: bool): Found {
    Found(LastVal(hs, "content-type"), LastVal(hs, "content-md5"), LastVal(hs, "content-length"),
          DateOf(hs, pfx, dateTrumps), LastVal(hs, "range"))
  }

  /** Header `k` is the last of this name, and `v` its value. */
  ghost predicate IsLast(hs: seq<Hdr>, name: string, k: nat, v: Option<string>) {
    k < |hs| && Lower(hs[k].key) == name && v == Some(hs[k].val) && forall i | k < i < |hs| :: Lower(hs[i].key) != name
  }

  /** Header `k` is the first of this name, and `v` its value. */
  ghost predicate IsFirst(hs: seq<Hdr>, name: string, k: nat, v: Option<string>) {
    k < |hs| && Lower(hs[k].key) == name && v == Some(hs[k].val) && forall i | 0 <= i < k :: Lower(hs[i].key) != name
  }

  ghost predicate Absent(hs: seq<Hdr>, name: string) {
    forall i | 0 <= i < |hs| :: Lower(hs[i].key) != name
  }

  lemma {:induction false} LastValIs(hs: seq<Hdr>, name: string)
    ensures if Absent(hs, name) then LastVal(hs, name).None? else exists k: nat :: IsLast(hs, name, k, LastVal(hs, name))
  {
    if hs != [] {
      var front, n := hs[..|hs| - 1], |hs| - 1;
      assert forall i | 0 <= i < n :: front[i] == hs[i];
      if Lower(hs[n].key) == name {
        assert IsLast(hs, name, n, LastVal(hs, name));
      } else {
        LastValIs(front, name);
        if k: nat :| IsLast(front, name, k, LastVal(front, name)) {
          assert IsLast(hs, name, k, LastVal(hs, name));
        }
      }
    }
  }

  lemma {:induction false} FirstValIs(hs: seq<Hdr>, name: string)
    ensures if Absent(hs, name) then FirstVal(hs, name).None? else exists k: nat :: IsFirst(hs, name, k, FirstVal(hs, name))
  {
    if hs != [] {
      var front, n := hs[..|hs| - 1], |hs| - 1;
      assert forall i | 0 <= i < n :: front[i] == hs[i];
      FirstValIs(front, name);
      if k: nat :| IsFirst(front, name, k, FirstVal(front, name)) {
        assert IsFirst(hs, name, k, FirstVal(hs, name));
      } else if Lower(hs[n].key) == name {
        assert IsFirst(hs, name, n, FirstVal(hs, name));
      }
    }
  }

  /** The value signed for `name` is that of its last header, and none if there is no such header. */
  ghost predicate FromLast(hs: seq<Hdr>, name: string, v: Option<string>) {
    if Absent(hs, name) then v.None? else exists k: nat :: IsLast(hs, name, k, v)
  }

  ghost predicate FromFirst(hs: seq<Hdr>, name: string, v: Option<string>) {
    if Absent(hs, name) then v.None? else exists k: nat :: IsFirst(hs, name, k, v)
  }

  /** Where the values signed on their own come from: each from the header of its name; the date from the
      vendor's date header when that one trumps and is there, else from the first "Date". */
  lemma ValuesAre(hs: seq<Hdr>, pfx: string, dateTrumps: bool)
    ensures var v := Values(hs, pfx, dateTrumps);
            && FromLast(hs, "content-type", v.ctype) && FromLast(hs, "content-md5", v.md5)
            && FromLast(hs, "content-length", v.clen) && FromLast(hs, "range", v.range)
            && if dateTrumps && !Absent(hs, pfx + "date") then FromLast(hs, pfx + "date", v.date)
               else FromFirst(hs, "date", v.date)
  {
    hide LastVal, FirstVal, Absent, IsLast, IsFirst;
    LastValIs(hs, "content-type");
    LastValIs(hs, "content-md5");
    LastValIs(hs, "content-length");
    LastValIs(hs, "range");
    LastValIs(hs, pfx + "date");
    FirstValIs(hs, "date");
    if k: nat :| IsLast(hs, pfx + "date", k, LastVal(hs, pfx + "date")) {
      LastIsSome(hs, pfx + "date", k, LastVal(hs, pfx + "date"));
    }
  }

  lemma LastIsSome(hs: seq<Hdr>, name: string, k: nat, v: Option<string>)
    requires IsLast(hs, name, k, v)
    ensures v.Some?
  {
  }

  /** One turn of the loop over the headers, apart from the list of vendor entries. */
  function Noted(f: Found, h: Hdr, pfx: string, dateTrumps: bool): Found {
    var name := Lower(h.key);
    if IsVendor(h.key, pfx) then (if dateTrumps && IsVendorDate(h.key, pfx) then f.(date := Some(h.val)) else f)
    else if name == "content-type" then f.(ctype := Some(h.val))
    else if name == "content-md5" then f.(md5 := Some(h.val))
    else if name == "date" then (if f.date.Some? then f else f.(date := Some(h.val)))
    else if name == "content-length" then f.(clen := Some(h.val))
    else if name == "range" then f.(range := Some(h.val))
    else f
  }

  lemma {:induction false} ValAbsent(hs: seq<Hdr>, name: string)
    ensures LastVal(hs, name).None? <==> forall i | 0 <= i < |hs| :: Lower(hs[i].key) != name
    ensures FirstVal(hs, name).None? <==> forall i | 0 <= i < |hs| :: Lower(hs[i].key) != name
  {
    if hs != [] {
      ValAbsent(hs[..|hs| - 1], name);
      assert forall i | 0 <= i < |hs| - 1 :: hs[..|hs| - 1][i] == hs[i];
    }
  }

  lemma ValNext(hs: seq<Hdr>, i: nat, name: string)
    requires i < |hs|
    ensures LastVal(hs[..i + 1], name) == if Lower(hs[i].key) == name then Some(hs[i].val) else LastVal(hs[..i], name)
    ensures FirstVal(hs[..i + 1], name)
            == if FirstVal(hs[..i], name).Some? then FirstVal(hs[..i], name)
               else if Lower(hs[i].key) == name then Some(hs[i].val) else None
  {
    assert hs[..i + 1][..i] == hs[..i];
  }

  /** A vendor's prefix is none of the other names. */
  predicate Prefix(pfx: string) {
    pfx == HDR_PREFIX_AZ || pfx == HDR_PREFIX_S3
  }

  lemma ValuesNext(hs: seq<Hdr>, i: nat, pfx: string, dateTrumps: bool)
    requires i < |hs| && Prefix(pfx)
    ensures Values(hs[..i + 1], pfx, dateTrumps) == Noted(Values(hs[..i], pfx, dateTrumps), hs[i], pfx, dateTrumps)
  {
    hide LastVal, FirstVal;
    ValNext(hs, i, "content-type");
    ValNext(hs, i, "content-md5");
    ValNext(hs, i, "content-length");
    ValNext(hs, i, "date");
    ValNext(hs, i, "range");
    ValNext(hs, i, pfx + "date");
    var name := Lower(hs[i].key);
    if IsVendor(hs[i].key, pfx) {
      assert name[0] == 'x';
    }
  }

  // ------------------------------------------------------------ the order of the headers

  /** All headers of this name have the same value. */
  ghost predicate OneValue(hs: seq<Hdr>, name: string) {
    forall i, j | 0 <= i < |hs| && 0 <= j < |hs| && Lower(hs[i].key) == name && Lower(hs[j].key) == name ::
      hs[i].val == hs[j].val
  }

  lemma OnceIsOneValue(hs: seq<Hdr>, name: string)
    requires Once(hs, name)
    ensures OneValue(hs, name)
  {
    forall i, j | 0 <= i < |hs| && 0 <= j < |hs| && Lower(hs[i].key) == name && Lower(hs[j].key) == name
      ensures hs[i].val == hs[j].val
    {
      assert i < j || j < i || i == j;
    }
  }

  lemma {:induction false} ValFrom(hs: seq<Hdr>, name: string)
    ensures LastVal(hs, name).Some? ==>
              exists i :: 0 <= i < |hs| && Lower(hs[i].key) == name && LastVal(hs, name).value == hs[i].val
    ensures FirstVal(hs, name).Some? ==>
              exists i :: 0 <= i < |hs| && Lower(hs[i].key) == name && FirstVal(hs, name).value == hs[i].val
  {
    if hs != [] {
      var front := hs[..|hs| - 1];
      ValFrom(front, name);
      assert forall i | 0 <= i < |front| :: front[i] == hs[i];
      assert Lower(hs[|hs| - 1].key) == name ==> hs[|hs| - 1].val == hs[|hs| - 1].val;
    }
  }

  lemma ValIs(hs: seq<Hdr>, name: string, i: nat)
    requires OneValue(hs, name) && i < |hs| && Lower(hs[i].key) == name
    ensures LastVal(hs, name) == FirstVal(hs, name) == Some(hs[i].val)
  {
    ValAbsent(hs, name);
    ValFrom(hs, name);
  }

  /** Values do not depend on the order of the headers as long as all headers of the name agree. */
  lemma ValPermuted(hs: seq<Hdr>, hs': seq<Hdr>, name: string)
    requires multiset(hs) == multiset(hs')
    ensures LastVal(hs, name).Some? <==> LastVal(hs', name).Some?
    ensures OneValue(hs, name) ==>
              LastVal(hs, name) == LastVal(hs', name) && FirstVal(hs, name) == FirstVal(hs', name)
  {
    ValAbsent(hs, name);
    ValAbsent(hs', name);
    if LastVal(hs, name).Some? {
      var i :| 0 <= i < |hs| && Lower(hs[i].key) == name;
      var j := InPermutation(hs, hs', i);
      if OneValue(hs, name) {
        OneValuePermuted(hs, hs', name);
        ValIs(hs, name, i);
        ValIs(hs', name, j);
      }
    } else if LastVal(hs', name).Some? {
      var i :| 0 <= i < |hs'| && Lower(hs'[i].key) == name;
      var j := InPermutation(hs', hs, i);
      assert false;
    }
  }

  lemma OneValuePermuted(hs: seq<Hdr>, hs': seq<Hdr>, name: string)
    requires OneValue(hs, name) && multiset(hs) == multiset(hs')
    ensures OneValue(hs', name)
  {
    forall i, j | 0 <= i < |hs'| && 0 <= j < |hs'| && Lower(hs'[i].key) == name && Lower(hs'[j].key) == name
      ensures hs'[i].val == hs'[j].val
    {
      var k := InPermutation(hs', hs, i);
      var l := InPermutation(hs', hs, j);
    }
  }

  lemma {:induction false} VendorJoin(a: seq<Hdr>, b: seq<Hdr>, pfx: string, dateTrumps: bool)
    ensures Vendor(a + b, pfx, dateTrumps) == Vendor(a, pfx, dateTrumps) + Vendor(b, pfx, dateTrumps)
  {
    hide VendorOne;
    if a == [] {
      assert a + b == b;
    } else {
      assert (a + b)[1..] == a[1..] + b;
      VendorJoin(a[1..], b, pfx, dateTrumps);
    }
  }

  lemma VendorAround(front: seq<Hdr>, h: Hdr, back: seq<Hdr>, pfx: string, dateTrumps: bool)
    ensures multiset(Vendor(front + ([h] + back), pfx, dateTrumps))
            == multiset(VendorOne(h, pfx, dateTrumps)) + multiset(Vendor(front + back, pfx, dateTrumps))
  {
    hide VendorOne;
    VendorJoin(front, [h] + back, pfx, dateTrumps);
    VendorJoin(front, back, pfx, dateTrumps);
    assert ([h] + back)[1..] == back;
  }

  lemma {:induction false} VendorPermuted(hs: seq<Hdr>, hs': seq<Hdr>, pfx: string, dateTrumps: bool)
    requires multiset(hs) == multiset(hs')
    ensures multiset(Vendor(hs, pfx, dateTrumps)) == multiset(Vendor(hs', pfx, dateTrumps))
    decreases |hs|
  {
    if hs == [] {
      assert hs' == [] by { assert |multiset(hs')| == |hs'|; }
    } else {
      var j := InPermutation(hs, hs', 0);
      WithoutOne(hs, hs', j);
      VendorPermuted([] + hs[1..], hs'[..j] + hs'[j + 1..], pfx, dateTrumps);
      VendorSwapped(hs, hs', [], hs[1..], hs'[..j], hs'[j + 1..], hs[0], pfx, dateTrumps);
    }
  }

  lemma VendorSwapped(hs: seq<Hdr>, hs': seq<Hdr>, a: seq<Hdr>, b: seq<Hdr>, c: seq<Hdr>, d: seq<Hdr>, h: Hdr,
                      pfx: string, dateTrumps: bool)
    requires hs == a + ([h] + b) && hs' == c + ([h] + d)
    requires multiset(Vendor(a + b, pfx, dateTrumps)) == multiset(Vendor(c + d, pfx, dateTrumps))
    ensures multiset(Vendor(hs, pfx, dateTrumps)) == multiset(Vendor(hs', pfx, dateTrumps))
  {
    VendorAround(a, h, b, pfx, dateTrumps);
    VendorAround(c, h, d, pfx, dateTrumps);
  }

  // ------------------------------------------------------------ the canonical string

  /** Every entry on a line of its own. */
  function Lines(es: seq<string>): string {
    if es == [] then "" else es[0] + "\n" + Lines(es[1..])
  }

  function LinesLength(es: seq<string>): (n: nat)
    ensures n == |Lines(es)|
  {
    if es == [] then 0 else |es[0]| + 1 + LinesLength(es[1..])
  }

  /** The vendor entries sorted by name. */
  function CanonHdrs(hs: seq<Hdr>, pfx: string, dateTrumps: bool): string {
    Lines(Sort(LexiCmp, Vendor(hs, pfx, dateTrumps)))
  }

  /** No vendor header has a name that is a prefix of another's, and none occurs twice. */
  ghost predicate Distinguished(es: seq<string>) {
    PrefixFree(Elements(es)) && forall e | e in es :: multiset(es)[e] == 1
  }

  lemma DistinguishedPermuted(es: seq<string>, es': seq<string>)
    requires Distinguished(es) && multiset(es) == multiset(es')
    ensures Distinguished(es') && Elements(es) == Elements(es')
  {
    forall e
      ensures e in es <==> e in es'
    {
      assert e in es <==> e in multiset(es);
      assert e in es' <==> e in multiset(es');
    }
  }

  lemma SortingUnique(es: seq<string>, r: seq<string>, r': seq<string>)
    requires PrefixFree(Elements(es))
    requires SortedPermutation(LexiCmp, es, r) && SortedPermutation(LexiCmp, es, r')
    ensures r == r'
  {
    SeparatesIffPrefixFree(Elements(es));
    forall i | 0 <= i < |r|
      ensures r[i] in Elements(es)
    {
      assert r[i] in multiset(r);
    }
    SortedUnique(LexiCmp, r, r', Elements(es));
  }

  lemma SortIsSorting(es: seq<string>)
    requires PrefixFree(Elements(es))
    ensures SortedPermutation(LexiCmp, es, Sort(LexiCmp, es))
  {
    SeparatesIffPrefixFree(Elements(es));
    SortSorts(LexiCmp, es, Elements(es));
  }

  /** The canonical string does not depend on the order in which the request's headers were added, and
      neither do the values signed beside it, unless headers of one name have different values. */
  lemma OrderDoesNotMatter(hs: seq<Hdr>, hs': seq<Hdr>, pfx: string, dateTrumps: bool)
    requires multiset(hs) == multiset(hs')
    ensures Distinguished(Vendor(hs, pfx, dateTrumps)) ==> CanonHdrs(hs, pfx, dateTrumps) == CanonHdrs(hs', pfx, dateTrumps)
    ensures SetOnce(hs) && OneValue(hs, DateName(hs, pfx, dateTrumps)) ==>
              Values(hs, pfx, dateTrumps) == Values(hs', pfx, dateTrumps)
  {
    if Distinguished(Vendor(hs, pfx, dateTrumps)) {
      CanonPermuted(hs, hs', pfx, dateTrumps);
    }
    if SetOnce(hs) {
      SingleValuesPermuted(hs, hs', pfx, dateTrumps);
    }
    DatePermuted(hs, hs', pfx, dateTrumps);
  }

  lemma CanonPermuted(hs: seq<Hdr>, hs': seq<Hdr>, pfx: string, dateTrumps: bool)
    requires multiset(hs) == multiset(hs') && Distinguished(Vendor(hs, pfx, dateTrumps))
    ensures CanonHdrs(hs, pfx, dateTrumps) == CanonHdrs(hs', pfx, dateTrumps)
  {
    hide Vendor, Lines, Sort;
    VendorPermuted(hs, hs', pfx, dateTrumps);
    var es, es' := Vendor(hs, pfx, dateTrumps), Vendor(hs', pfx, dateTrumps);
    DistinguishedPermuted(es, es');
    SortIsSorting(es);
    SortIsSorting(es');
    SortingUnique(es, Sort(LexiCmp, es), Sort(LexiCmp, es'));
  }

  lemma SingleValuesPermuted(hs: seq<Hdr>, hs': seq<Hdr>, pfx: string, dateTrumps: bool)
    requires multiset(hs) == multiset(hs') && SetOnce(hs)
    ensures var date := DateOf(hs, pfx, dateTrumps);
            Values(hs, pfx, dateTrumps) == Values(hs', pfx, dateTrumps).(date := date)
  {
    hide LastVal, FirstVal, OneValue, Once;
    OnceIsOneValue(hs, "content-type");
    OnceIsOneValue(hs, "content-md5");
    OnceIsOneValue(hs, "content-length");
    OnceIsOneValue(hs, "range");
    ValPermuted(hs, hs', "content-type");
    ValPermuted(hs, hs', "content-md5");
    ValPermuted(hs, hs', "content-length");
    ValPermuted(hs, hs', "range");
  }

  lemma DatePermuted(hs: seq<Hdr>, hs': seq<Hdr>, pfx: string, dateTrumps: bool)
    requires multiset(hs) == multiset(hs')
    ensures DateName(hs, pfx, dateTrumps) == DateName(hs', pfx, dateTrumps)
    ensures OneValue(hs, DateName(hs, pfx, dateTrumps)) ==> DateOf(hs, pfx, dateTrumps) == DateOf(hs', pfx, dateTrumps)
  {
    hide LastVal, FirstVal, OneValue;
    ValPermuted(hs, hs', pfx + "date");
    ValPermuted(hs, hs', "date");
  }

  /** The other way round: if headers of the name that gives the date differ, some order of the headers
      gives another date. */
  lemma DateDependsOnOrder(hs: seq<Hdr>, pfx: string, dateTrumps: bool) returns (hs': seq<Hdr>)
    requires !OneValue(hs, DateName(hs, pfx, dateTrumps))
    ensures multiset(hs) == multiset(hs') && DateOf(hs, pfx, dateTrumps) != DateOf(hs', pfx, dateTrumps)
  {
    var name := DateName(hs, pfx, dateTrumps);
    var i, j :| 0 <= i < |hs| && 0 <= j < |hs| && Lower(hs[i].key) == name && Lower(hs[j].key) == name
                && hs[i].val != hs[j].val;
    var k := if DateOf(hs, pfx, dateTrumps) == Some(hs[i].val) then j else i;
    hs' := Decisive(hs, k, pfx, dateTrumps);
  }

  /** An order in which header `k`, one of those that give the date, decides it. */
  lemma Decisive(hs: seq<Hdr>, k: nat, pfx: string, dateTrumps: bool) returns (hs': seq<Hdr>)
    requires k < |hs| && Lower(hs[k].key) == DateName(hs, pfx, dateTrumps)
    ensures multiset(hs) == multiset(hs') && DateOf(hs', pfx, dateTrumps) == Some(hs[k].val)
  {
    hide LastVal, FirstVal, OneValue, Lower;
    var rest := hs[..k] + hs[k + 1..];
    assert hs == hs[..k] + [hs[k]] + hs[k + 1..];
    var vendor := dateTrumps && LastVal(hs, pfx + "date").Some?;
    hs' := if vendor then rest + [hs[k]] else [hs[k]] + rest;
    assert multiset(hs) == multiset(hs');
    DatePermuted(hs, hs', pfx, dateTrumps);
    ValPermuted(hs, hs', pfx + "date");
    FirstValOfFirst(hs[k], rest);
    LastValOfLast(rest, hs[k]);
  }

  lemma LastValOfLast(rest: seq<Hdr>, h: Hdr)
    ensures LastVal(rest + [h], Lower(h.key)) == Some(h.val)
  {
  }

  lemma {:induction false} FirstValOfFirst(h: Hdr, rest: seq<Hdr>)
    ensures FirstVal([h] + rest, Lower(h.key)) == Some(h.val)
  {
    if rest == [] {
      assert ([h] + rest)[..0] == [];
    } else {
      FirstValOfFirst(h, rest[..|rest| - 1]);
      assert ([h] + rest)[..|rest|] == [h] + rest[..|rest| - 1];
    }
  }

  /** A sorted list of such entries has no neighbours that compare equal, so none is collapsed. */
  lemma NeighboursDiffer(es: seq<string>, i: nat)
    requires Distinguished(es) && 0 < i < |es|
    ensures LexiCmp(es[i - 1], es[i]) != 0
  {
    Occurrences(es, es[i]);
    ComparesEqual(es[i - 1], es[i]);
    assert es[i - 1] in Elements(es) && es[i] in Elements(es);
    assert es[i - 1] == es[i] ==> 0 <= i - 1 < i < |es|;
  }

  /** The names on the signed lines ascend in byte order. */
  lemma NamesAscend(es: seq<string>, i: nat, j: nat)
    requires Distinguished(es) && i < j < |Sort(LexiCmp, es)|
    ensures var r := Sort(LexiCmp, es); exists k: nat :: SmallerAt(Key(r[i]), Key(r[j]), k)
  {
    hide LexiCmp, Consistent, PrefixFree, Key, Distinguished, Related;
    var r := Sort(LexiCmp, es);
    SortedForm(es);
    DistinguishedPermuted(es, r);
    assert LexiCmp(r[i], r[j]) <= 0;
    ApartUnrelated(r, i, j);
    ComparesEqual(r[i], r[j]);
    ComparesNames(r[i], r[j]);
    StrCmpIs(Key(r[i]), Key(r[j]));
  }

  lemma ApartUnrelated(es: seq<string>, i: nat, j: nat)
    requires Distinguished(es) && i < j < |es|
    ensures !Related(es[i], es[j])
  {
    Occurrences(es, es[i]);
    assert es[i] in Elements(es) && es[j] in Elements(es);
    assert es[i] == es[j] ==> 0 <= i < j < |es|;
  }

  lemma {:induction false} LengthJoin(a: seq<string>, b: seq<string>)
    ensures LinesLength(a + b) == LinesLength(a) + LinesLength(b)
  {
    if a == [] {
      assert a + b == b;
    } else {
      assert (a + b)[1..] == a[1..] + b;
      LengthJoin(a[1..], b);
    }
  }

  lemma LengthAround(front: seq<string>, e: string, back: seq<string>)
    ensures LinesLength(front + ([e] + back)) == |e| + 1 + LinesLength(front + back)
  {
    LengthJoin(front, [e] + back);
    LengthJoin(front, back);
    assert ([e] + back)[1..] == back;
  }

  /** The length computed from the unsorted entries is that of the sorted lines. */
  lemma {:induction false} LengthPermuted(es: seq<string>, es': seq<string>)
    requires multiset(es) == multiset(es')
    ensures LinesLength(es) == LinesLength(es')
    decreases |es|
  {
    if es == [] {
      assert es' == [] by { assert |multiset(es')| == |es'|; }
    } else {
      var j := InPermutation(es, es', 0);
      WithoutOne(es, es', j);
      LengthPermuted([] + es[1..], es'[..j] + es'[j + 1..]);
      LengthAround([], es[0], es[1..]);
      LengthAround(es'[..j], es[0], es'[j + 1..]);
    }
  }

  // ------------------------------------------------------------ canon_hdrs_gen

  /** Takes the headers apart: vendor entries into `hdrArray`, other values into `found`.  No value is
      set twice. */
  method Collect(numHdrs: nat, hdrs: seq<Hdr>, pfx: string, dateTrumps: bool)
    returns (hdrArray: array<string>, count: nat, strLen: nat, found: Found)
    requires numHdrs == |hdrs| && SetOnce(hdrs) && Prefix(pfx)
    ensures count <= hdrArray.Length && hdrArray[..count] == Vendor(hdrs, pfx, dateTrumps)
    ensures strLen == LinesLength(hdrArray[..count])
    ensures found == Values(hdrs, pfx, dateTrumps)
  {
    hide Values, Noted, SetOnce, Entry, Kept, VendorOne, Vendor, LinesLength;
    hdrArray := new string[numHdrs];
    count, strLen, found := 0, 0, Found(None, None, None, None, None);
    var n := 0;
    assert hdrs[0..] == hdrs && hdrArray[..0] == [];
    NothingFound(hdrs, pfx, dateTrumps);
    while n < |hdrs|
      invariant 0 <= count <= n <= |hdrs| == hdrArray.Length
      invariant hdrArray[..count] + Vendor(hdrs[n..], pfx, dateTrumps) == Vendor(hdrs, pfx, dateTrumps)
      invariant strLen == LinesLength(hdrArray[..count])
      invariant found == Values(hdrs[..n], pfx, dateTrumps)
    {
      var h := hdrs[n];
      ghost var before := hdrArray[..count];
      VendorStep(before, hdrs, n, pfx, dateTrumps);
      ValuesNext(hdrs, n, pfx, dateTrumps);
      if Kept(h, pfx, dateTrumps) {
        Set(hdrArray, count, Entry(h));
        OneMoreLine(before, Entry(h));
        strLen, count := strLen + |hdrArray[count]| + 1, count + 1;
      }
      found := Note(found, hdrs, n, h, pfx, dateTrumps);
      n := n + 1;
    }
    assert hdrs[..n] == hdrs && hdrs[n..] == [] && hdrArray[..count] + [] == hdrArray[..count];
  }

  method Set(hdrArray: array<string>, i: nat, e: string)
    requires i < hdrArray.Length
    modifies hdrArray
    ensures hdrArray[..i + 1] == old(hdrArray[..i]) + [e] && hdrArray[i] == e
  {
    hdrArray[i] := e;
  }

  lemma NothingFound(hs: seq<Hdr>, pfx: string, dateTrumps: bool)
    ensures Values(hs[..0], pfx, dateTrumps) == Found(None, None, None, None, None)
    ensures LinesLength([]) == 0 && Vendor([], pfx, dateTrumps) == []
  {
  }

  lemma OneMoreLine(es: seq<string>, e: string)
    ensures LinesLength(es + [e]) == LinesLength(es) + |e| + 1
  {
    LengthJoin(es, [e]);
  }

  lemma VendorStep(before: seq<string>, hs: seq<Hdr>, n: nat, pfx: string, dateTrumps: bool)
    requires n < |hs|
    ensures before + Vendor(hs[n..], pfx, dateTrumps)
            == (if Kept(hs[n], pfx, dateTrumps) then before + [Entry(hs[n])] else before)
               + Vendor(hs[n + 1..], pfx, dateTrumps)
  {
    hide Kept, Entry;
    assert hs[n..][1..] == hs[n + 1..];
  }

  /** The value of header `n` is kept if the signature has a place for it. */
  method Note(f: Found, ghost hdrs: seq<Hdr>, ghost n: nat, h: Hdr, pfx: string, dateTrumps: bool) returns (found: Found)
    requires n < |hdrs| && h == hdrs[n] && SetOnce(hdrs) && f == Values(hdrs[..n], pfx, dateTrumps)
    ensures found == Noted(f, h, pfx, dateTrumps)
  {
    hide Values;
    found := f;
    var name := Lower(h.key);
    if IsVendor(h.key, pfx) {
      if IsVendorDate(h.key, pfx) && dateTrumps {
        found := f.(date := Some(h.val));
      }
    } else if name == "content-type" {
      NotSetTwice(hdrs, n, pfx, dateTrumps);
      assert f.ctype.None?;
      found := f.(ctype := Some(h.val));
    } else if name == "content-md5" {
      NotSetTwice(hdrs, n, pfx, dateTrumps);
      assert f.md5.None?;
      found := f.(md5 := Some(h.val));
    } else if name == "date" {
      if f.date.None? {
        found := f.(date := Some(h.val));
      }
    } else if name == "content-length" {
      NotSetTwice(hdrs, n, pfx, dateTrumps);
      assert f.clen.None?;
      found := f.(clen := Some(h.val));
    } else if name == "range" {
      NotSetTwice(hdrs, n, pfx, dateTrumps);
      assert f.range.None?;
      found := f.(range := Some(h.val));
    }
  }

  lemma NotSetTwice(hs: seq<Hdr>, n: nat, pfx: string, dateTrumps: bool)
    requires n < |hs| && SetOnce(hs)
    ensures var f, name := Values(hs[..n], pfx, dateTrumps), Lower(hs[n].key);
            && (name == "content-type" ==> f.ctype.None?) && (name == "content-md5" ==> f.md5.None?)
            && (name == "content-length" ==> f.clen.None?) && (name == "range" ==> f.range.None?)
  {
    hide LastVal, FirstVal, DateOf;
    ValAbsent(hs[..n], Lower(hs[n].key));
  }

  ghost predicate AllEntries(es: seq<string>) {
    forall i | 0 <= i < |es| :: ':' in es[i]
  }

  /** An entry in the buffer, already followed by its newline, compares as before. */
  lemma WrittenCompares(e: string, f: string)
    requires ':' in e
    ensures LexiCmp(e + "\n", f) == LexiCmp(e, f)
  {
    ColonStays(e, "\n");
    var n := Min(Colon(e), Colon(f));
    assert (e + "\n")[..n] == e[..n];
  }

  lemma {:induction false} ColonStays(e: string, t: string)
    requires ':' in e
    ensures Colon(e + t) == Colon(e) < |e|
  {
    if e[0] != ':' {
      assert (e + t)[1..] == e[1..] + t;
      assert e == [e[0]] + e[1..];
      ColonStays(e[1..], t);
    }
  }

  // ------------------------------------------------------------ writing

  function Value(e: string): (v: string)
    requires ':' in e
    ensures |v| < |e|
  {
    NotFound(e, ':');
    e[Colon(e) + 1..]
  }

  /** The text at the place of entry `i` in the buffer: a collapsed entry has lost its name. */
  function TextAt(es: seq<string>, dup: seq<bool>, i: nat): string
    requires i < |es| && i < |dup| && AllEntries(es)
  {
    (if dup[i] then Value(es[i]) else es[i]) + "\n"
  }

  /** Whether entry `i` is collapsed into the one before.  A text without a colon has no name, and what
      the comparison makes of it is open. */
  predicate Same(text: string, e: string, open: bool) {
    if ':' in text then LexiCmp(text, e) == 0 else open
  }

  ghost predicate Decided(es: seq<string>, dup: seq<bool>, open: nat -> bool)
    requires AllEntries(es)
  {
    && |dup| <= |es| && (dup != [] ==> !dup[0])
    && forall i | 0 < i < |dup| :: dup[i] == Same(TextAt(es, dup, i - 1), es[i], open(i))
  }

  /** The entries with each collapsed one behind a comma instead of a newline. */
  function Collapsed(es: seq<string>, dup: seq<bool>): string
    requires |dup| <= |es| && AllEntries(es)
    decreases |dup|
  {
    if dup == [] then ""
    else
      var before, text := Collapsed(es, dup[..|dup| - 1]), TextAt(es, dup, |dup| - 1);
      if dup[|dup| - 1] && before != "" then before[..|before| - 1] + "," + text else before + text
  }

  /** A header repeated once becomes one line with both values. */
  lemma PairCollapses(name: string, v: string, w: string)
    requires ':' !in name
    ensures var es := [name + ":" + v, name + ":" + w];
            AllEntries(es) && Decided(es, [false, true], _ => false)
            && Collapsed(es, [false, true]) == name + ":" + v + "," + w + "\n"
  {
    hide LexiCmp, Colon, Value, Collapsed;
    var es := [name + ":" + v, name + ":" + w];
    NameOf(name, v);
    NameOf(name, w);
    WrittenCompares(es[0], es[1]);
    ComparesEqual(es[0], es[1]);
    PairText(es);
    assert es[0] + "," + (w + "\n") == name + ":" + v + "," + w + "\n";
  }

  lemma NameOf(name: string, v: string)
    requires ':' !in name
    ensures var e := name + ":" + v; ':' in e && Key(e) == name && Value(e) == v
  {
    var e := name + ":" + v;
    assert e[|name|] == ':' && e[..|name|] == name;
    IndexOfIs(e, ':', |name|);
  }

  lemma PairText(es: seq<string>)
    requires |es| == 2 && AllEntries(es)
    ensures Collapsed(es, [false, true]) == es[0] + "," + (Value(es[1]) + "\n")
  {
    hide Value, AllEntries;
    assert [false, true][..1] == [false] && [false][..0] == [];
    assert Collapsed(es, []) == "";
    assert Collapsed(es, [false]) == es[0] + "\n" by { assert "" + (es[0] + "\n") == es[0] + "\n"; }
    assert (es[0] + "\n")[..|es[0]|] == es[0];
  }

  lemma DecidedNext(es: seq<string>, dup: seq<bool>, open: nat -> bool, same: bool)
    requires AllEntries(es) && |dup| < |es| && Decided(es, dup, open)
    requires same == (dup != [] && Same(TextAt(es, dup, |dup| - 1), es[|dup|], open(|dup|)))
    ensures Decided(es, dup + [same], open)
  {
    hide TextAt, Same;
    var d := dup + [same];
    forall i | 0 < i < |d|
      ensures d[i] == Same(TextAt(es, d, i - 1), es[i], open(i))
    {
      TextStays(es, dup, d, i - 1);
      assert i < |dup| ==> dup[i] == Same(TextAt(es, dup, i - 1), es[i], open(i));
    }
  }

  lemma TextStays(es: seq<string>, dup: seq<bool>, d: seq<bool>, i: nat)
    requires AllEntries(es) && i < |es| && i < |dup| && i < |d| && d[i] == dup[i]
    ensures TextAt(es, d, i) == TextAt(es, dup, i)
  {
  }

  lemma CollapsedNext(es: seq<string>, dup: seq<bool>, same: bool)
    requires AllEntries(es) && |dup| < |es|
    ensures var before, text := Collapsed(es, dup), TextAt(es, dup + [same], |dup|);
            && Collapsed(es, dup + [same]) == (if same && before != "" then before[..|before| - 1] + "," else before) + text
            && 0 < |text| <= |es[|dup|]| + 1
  {
    assert (dup + [same])[..|dup|] == dup && (dup + [same])[|dup|] == same;
  }

  /** Writes one entry behind the others, or its value in the line of the one before. */
  method WriteEntry(buf: array<char>, s: nat, text: string, same: bool) returns (s': nat)
    requires s + |text| < buf.Length && (same ==> s > 0)
    modifies buf
    ensures s' == s + |text| && buf[s'] == '\0'
    ensures buf[..s'] == (if same then old(buf[..s])[..s - 1] + "," else old(buf[..s])) + text
  {
    if same {
      buf[s - 1] := ',';
    }
    MemCpy(buf, s, text);
    s' := s + |text|;
    buf[s'] := '\0';
  }

  /** The loop that writes the sorted entries.  Whatever is collapsed, the text and its terminator fit
      the buffer. */
  method WriteLines(sorted: seq<string>, hdrStrLen: nat, open: nat -> bool)
    returns (buf: array<char>, len: nat, ghost dup: seq<bool>)
    requires AllEntries(sorted) && hdrStrLen == LinesLength(sorted)
    ensures buf.Length == hdrStrLen + 1 && len <= hdrStrLen
    ensures |dup| == |sorted| && Decided(sorted, dup, open)
    ensures buf[..len] == Collapsed(sorted, dup) && buf[len] == '\0'
  {
    hide Collapsed, Decided, Same, TextAt, LinesLength;
    buf := new char[hdrStrLen + 1];
    buf[0] := '\0';
    len, dup := 0, [];
    NothingWritten(sorted, open);
    var i: nat, prev := 0, "";
    assert sorted[0..] == sorted && buf[..0] == "";
    while i < |sorted|
      invariant i == |dup| <= |sorted|
      invariant len + LinesLength(sorted[i..]) <= hdrStrLen && (i > 0 ==> len > 0 && prev == TextAt(sorted, dup, i - 1))
      invariant Decided(sorted, dup, open)
      invariant buf[..len] == Collapsed(sorted, dup) && buf[len] == '\0'
    {
      var same := i > 0 && Same(prev, sorted[i], open(i));
      prev := (if same then Value(sorted[i]) else sorted[i]) + "\n";
      DecidedNext(sorted, dup, open, same);
      CollapsedNext(sorted, dup, same);
      LineNext(sorted, dup, same);
      len := WriteEntry(buf, len, prev, same);
      dup, i := dup + [same], i + 1;
    }
  }

  lemma LineNext(es: seq<string>, dup: seq<bool>, same: bool)
    requires AllEntries(es) && |dup| < |es|
    ensures LinesLength(es[|dup|..]) == |es[|dup|]| + 1 + LinesLength(es[|dup| + 1..])
    ensures TextAt(es, dup + [same], |dup|) == (if same then Value(es[|dup|]) else es[|dup|]) + "\n"
  {
    assert es[|dup|..][1..] == es[|dup| + 1..];
  }

  lemma NothingWritten(es: seq<string>, open: nat -> bool)
    requires AllEntries(es)
    ensures Decided(es, [], open) && Collapsed(es, []) == ""
  {
  }

  /** With distinct, prefix-free names nothing is collapsed and the lines fill the buffer. */
  lemma {:induction false} DistinguishedLines(es: seq<string>, dup: seq<bool>, open: nat -> bool)
    requires AllEntries(es) && Distinguished(es) && |dup| <= |es| && Decided(es, dup, open)
    ensures Collapsed(es, dup) == Lines(es[..|dup|])
    ensures dup != [] ==> !dup[|dup| - 1]
  {
    hide Collapsed, Decided, Distinguished, Lines;
    if dup == [] {
      assert es[..0] == [];
      NothingWritten(es, open);
      assert Lines([]) == "" by { NoLines(); }
    } else {
      var n := |dup| - 1;
      DecidedFront(es, dup, open);
      DistinguishedLines(es, dup[..n], open);
      if n > 0 {
        assert !dup[n - 1] by { assert dup[..n][n - 1] == dup[n - 1]; }
        NotTheSame(es, dup, n, open);
      }
      assert dup[..n] + [dup[n]] == dup;
      CollapsedNext(es, dup[..n], dup[n]);
      LinesSnoc(es[..n], es[n]);
      assert es[..n] + [es[n]] == es[..n + 1];
    }
  }

  lemma NoLines()
    ensures Lines([]) == ""
  {
  }

  lemma NotTheSame(es: seq<string>, dup: seq<bool>, n: nat, open: nat -> bool)
    requires AllEntries(es) && Distinguished(es) && 0 < n < |dup| <= |es| && !dup[n - 1]
    ensures !Same(TextAt(es, dup, n - 1), es[n], open(n))
  {
    hide Distinguished, LexiCmp;
    NeighboursDiffer(es, n);
    WrittenCompares(es[n - 1], es[n]);
  }

  lemma DecidedFront(es: seq<string>, dup: seq<bool>, open: nat -> bool)
    requires AllEntries(es) && dup != [] && |dup| <= |es| && Decided(es, dup, open)
    ensures Decided(es, dup[..|dup| - 1], open)
    ensures |dup| == 1 ==> !dup[0]
    ensures |dup| > 1 ==> dup[|dup| - 1] == Same(TextAt(es, dup, |dup| - 2), es[|dup| - 1], open(|dup| - 1))
  {
    var d := dup[..|dup| - 1];
    forall i | 0 < i < |d|
      ensures d[i] == Same(TextAt(es, d, i - 1), es[i], open(i))
    {
      assert dup[i] == Same(TextAt(es, dup, i - 1), es[i], open(i));
    }
  }

  lemma {:induction false} LinesSnoc(es: seq<string>, e: string)
    ensures Lines(es + [e]) == Lines(es) + (e + "\n")
  {
    if es == [] {
      assert Lines([e]) == e + "\n" + Lines([e][1..]);
    } else {
      assert (es + [e])[1..] == es[1..] + [e];
      LinesSnoc(es[1..], e);
    }
  }

  lemma {:induction false} VendorHasColons(hs: seq<Hdr>, pfx: string, dateTrumps: bool)
    ensures AllEntries(Vendor(hs, pfx, dateTrumps))
  {
    if hs != [] {
      VendorHasColons(hs[1..], pfx, dateTrumps);
      EntryHasColon(hs[0]);
    }
  }

  lemma ColonsPermuted(es: seq<string>, r: seq<string>)
    requires AllEntries(es) && multiset(es) == multiset(r)
    ensures AllEntries(r)
  {
    forall i | 0 <= i < |r|
      ensures ':' in r[i]
    {
      var j := InPermutation(r, es, i);
    }
  }

  /** The end of canon_hdrs_gen, from qsort on. */
  method SortAndWrite(es: seq<string>, strLen: nat, open: nat -> bool)
    returns (canonHdrs: array<char>, len: nat, ghost sorted: seq<string>, ghost dup: seq<bool>)
    requires AllEntries(es) && strLen == LinesLength(es)
    ensures canonHdrs.Length == strLen + 1 && len <= strLen && canonHdrs[len] == '\0'
    ensures multiset(sorted) == multiset(es) && AllEntries(sorted)
    ensures |dup| == |sorted| && Decided(sorted, dup, open) && canonHdrs[..len] == Collapsed(sorted, dup)
    ensures Distinguished(es) ==> canonHdrs[..len] == Lines(Sort(LexiCmp, es)) && len == strLen
  {
    hide Distinguished, AllEntries, Collapsed, Decided, Consistent, SortedPermutation, LexiCmp;
    var r := QSort(LexiCmp, es);
    sorted := r;
    ColonsPermuted(es, r);
    LengthPermuted(es, r);
    canonHdrs, len, dup := WriteLines(r, strLen, open);
    if Distinguished(es) {
      SortedForm(es);
      SortedAs(es, sorted);
      DistinguishedLines(sorted, dup, open);
      assert sorted[..|dup|] == sorted;
    }
  }

  lemma SortedAs(es: seq<string>, sorted: seq<string>)
    requires Distinguished(es) && SortedPermutation(LexiCmp, es, sorted)
    ensures sorted == Sort(LexiCmp, es)
    ensures Distinguished(sorted)
  {
    SortedForm(es);
    SortingUnique(es, sorted, Sort(LexiCmp, es));
    DistinguishedPermuted(es, sorted);
  }

  /** canon_hdrs_gen: the string handed out fits its buffer whatever is collapsed; with distinct,
      prefix-free vendor names it is the sorted vendor lines, which the buffer holds exactly. */
  method CanonHdrsGen(numHdrs: nat, hdrs: seq<Hdr>, pfx: string, dateTrumps: bool, open: nat -> bool)
    returns (ret: int, canonHdrs: array<char>, len: nat, found: Found, ghost sorted: seq<string>, ghost dup: seq<bool>)
    requires numHdrs == |hdrs| && SetOnce(hdrs) && Prefix(pfx)
    ensures ret == 0 && len < canonHdrs.Length && canonHdrs[len] == '\0'
    ensures multiset(sorted) == multiset(Vendor(hdrs, pfx, dateTrumps)) && AllEntries(sorted)
    ensures |dup| == |sorted| && Decided(sorted, dup, open) && canonHdrs[..len] == Collapsed(sorted, dup)
    ensures Distinguished(Vendor(hdrs, pfx, dateTrumps)) ==>
              canonHdrs[..len] == CanonHdrs(hdrs, pfx, dateTrumps) && canonHdrs.Length == len + 1
    ensures found == Values(hdrs, pfx, dateTrumps)
  {
    hide Values, SetOnce, Distinguished, AllEntries, Collapsed, Decided;
    sorted, dup := [], [];
    VendorHasColons(hdrs, pfx, dateTrumps);
    if numHdrs == 0 {
      NothingFound(hdrs, pfx, dateTrumps);
      NothingWritten([], open);
      assert hdrs[..0] == hdrs;
      canonHdrs := new char[1](_ => '\0');
      return 0, canonHdrs, 0, Found(None, None, None, None, None), sorted, dup;
    }
    var hdrArray, count, strLen;
    hdrArray, count, strLen, found := Collect(numHdrs, hdrs, pfx, dateTrumps);
    if count == 0 {
      NothingWritten([], open);
      canonHdrs := new char[1](_ => '\0');
      return 0, canonHdrs, 0, found, sorted, dup;
    }
    canonHdrs, len, sorted, dup := SortAndWrite(hdrArray[..count], strLen, open);
    return 0, canonHdrs, len, found, sorted, dup;
  }

  lemma SortedForm(es: seq<string>)
    requires Distinguished(es)
    ensures PrefixFree(Elements(es)) && Consistent(LexiCmp, Elements(es))
    ensures SortedPermutation(LexiCmp, es, Sort(LexiCmp, es))
  {
    SeparatesIffPrefixFree(Elements(es));
    SortIsSorting(es);
  }
}
