/** The body of a put-block-list request: az_req_block_list_put_body_fill in lib/azure_blob_req.c. */
module BlockList {
  import opened Basics
  import opened Strings
  import opened Base64
  import opened BlockListReader

  /** A C string is made of non-zero bytes. */
  type CString = s: string | forall i | 0 <= i < |s| :: 0 < s[i] as int < 256

  function Octets(s: CString): (d: seq<Byte>)
    ensures |d| == |s|
  {
    seq(|s|, i requires 0 <= i < |s| => s[i] as int)
  }

  datatype BlockState = Committed | Uncommitted | Latest | Other(code: int)

  datatype AzureBlock = AzureBlock(id: CString, state: BlockState)

  const PFX := "<?xml version=\"1.0\" encoding=\"utf-8\"?><BlockList>"
  const SFX := "</BlockList>"

  /** Room for `n` entries of (64 * 4 / 3 + 4) + 2 * sizeof("</Uncommitted>") characters. */
  function Room(n: nat): (r: nat)
    ensures r == n * ((64 * 4 / 3 + 4) + 2 * 15)
  {
    n * 119
  }

  /** The element name of a state; there is none for a state the code does not know. */
  function StateName(st: BlockState): (s: string)
    ensures |s| <= 11
  {
    match st
    case Committed => "Committed"
    case Uncommitted => "Uncommitted"
    case Latest => "Latest"
    case Other(_) => ""
  }

  function Entry(b: AzureBlock): (s: string)
    ensures |s| == 5 + 2 * |StateName(b.state)| + |Encode(Octets(b.id))|
  {
    "<" + StateName(b.state) + ">" + Encode(Octets(b.id)) + "</" + StateName(b.state) + ">"
  }

  function Entries(bs: seq<AzureBlock>): string {
    if bs == [] then "" else Entry(bs[0]) + Entries(bs[1..])
  }

  function Body(bs: seq<AzureBlock>): string {
    PFX + Entries(bs) + SFX
  }

  /** The buffer allocated for `n` blocks; sizeof counts each terminator. */
  function Capacity(n: nat): nat {
    |PFX| + 1 + Room(n) + |SFX| + 1
  }

  ghost predicate KnownStates(bs: seq<AzureBlock>) {
    forall i | 0 <= i < |bs| :: !bs[i].state.Other?
  }

  ghost predicate ShortIds(bs: seq<AzureBlock>, max: nat) {
    forall i | 0 <= i < |bs| :: |bs[i].id| <= max
  }

  lemma EntryFits(b: AzureBlock)
    requires |b.id| <= 64
    ensures |Entry(b)| <= Room(1)
  {
    EncodingFits(Octets(b.id));
  }

  lemma {:induction false} EntriesFit(bs: seq<AzureBlock>)
    requires ShortIds(bs, 64)
    ensures |Entries(bs)| <= Room(|bs|)
  {
    if bs != [] {
      EntryFits(bs[0]);
      EntriesFit(bs[1..]);
    }
  }

  /** The body of blocks with ids of at most 64 bytes always fits the buffer made for their number. */
  lemma BodyFits(bs: seq<AzureBlock>)
    requires ShortIds(bs, 64)
    ensures |Body(bs)| < Capacity(|bs|)
  {
    EntriesFit(bs);
  }

  /** snprintf of a string without conversions: what fits is written and terminated, and the length
      of the whole is returned. */
  method SNPrintf(buf: array<char>, off: nat, remain: nat, s: string) returns (ret: int)
    requires off + remain <= buf.Length
    modifies buf
    ensures ret == |s|
    ensures buf[..off] == old(buf[..off])
    ensures |s| < remain ==> buf[..off + |s|] == old(buf[..off]) + s && buf[off + |s|] == '\0'
  {
    if |s| < remain {
      MemCpy(buf, off, s);
      buf[off + |s|] := '\0';
    } else if remain > 0 {
      MemCpy(buf, off, s[..remain - 1]);
      buf[off + remain - 1] := '\0';
    }
    return |s|;
  }

  /** The text still to be written before entry `i`. */
  ghost function Left(blks: seq<AzureBlock>, i: nat): string
    requires i <= |blks|
  {
    Entries(blks[i..])
  }

  lemma LeftNext(blks: seq<AzureBlock>, i: nat)
    requires i < |blks|
    ensures Left(blks, i) == Entry(blks[i]) + Left(blks, i + 1)
  {
    assert blks[i..][1..] == blks[i + 1..];
  }

  /** What is written so far, and what will be behind it. */
  ghost function Whole(done: string, blks: seq<AzureBlock>, i: nat): string
    requires i <= |blks|
  {
    done + Left(blks, i)
  }

  lemma WholeEnds(done: string, blks: seq<AzureBlock>)
    ensures Whole(done, blks, 0) == done + Entries(blks) && Whole(done, blks, |blks|) == done
    ensures Left(blks, 0) == Entries(blks)
  {
    hide Entry;
    assert blks[0..] == blks && done + "" == done;
  }

  /** One turn of the loop moves one entry from what is still to be written to the buffer. */
  method PrintEntry(buf: array<char>, off: nat, remain: nat, blks: seq<AzureBlock>, i: nat) returns (ret: int)
    requires off + remain <= buf.Length && i < |blks|
    requires |blks[i].id| <= INT_MAX / 4
    modifies buf
    ensures ret == if blks[i].state.Other? then -EINVAL else |Entry(blks[i])|
    ensures ret >= 0 ==> ret + |Left(blks, i + 1)| == |Left(blks, i)|
    ensures 0 <= ret < remain ==> Whole(buf[..off + ret], blks, i + 1) == Whole(old(buf[..off]), blks, i)
  {
    hide Left, Encode, StateName;
    var b := blks[i];
    if b.state.Other? {
      return -EINVAL;
    }
    var n, b64 := EncodeBuf(Octets(b.id), |b.id|);
    assert Octets(b.id)[..|b.id|] == Octets(b.id);
    LeftNext(blks, i);
    ghost var done := buf[..off];
    ret := SNPrintf(buf, off, remain, "<" + StateName(b.state) + ">" + b64[..n] + "</" + StateName(b.state) + ">");
    assert done + (Entry(b) + Left(blks, i + 1)) == done + Entry(b) + Left(blks, i + 1);
  }

  /** Filling succeeds exactly when every state is known and the body is shorter than the capacity;
      then the length handed to the request is that of the body written. */
  method BodyFill(numBlks: nat, blks: seq<AzureBlock>) returns (ret: int, buf: array<char>, len: nat)
    requires ShortIds(blks, INT_MAX / 4)
    ensures fresh(buf)
    ensures ret == 0 || ret == -EINVAL || ret == -E2BIG
    ensures ret == 0 <==> KnownStates(blks) && |Body(blks)| < Capacity(numBlks)
    ensures ret == -EINVAL ==> !KnownStates(blks)
    ensures ret == 0 ==> len < buf.Length && buf[..len] == Body(blks)
  {
    hide Entries, Entry, KnownStates;
    var remain: nat := Capacity(numBlks);
    buf, len := new char[remain], 0;
    ret := SNPrintf(buf, 0, remain, PFX);
    var off: nat := ret;
    remain := remain - ret;
    assert buf[..0] + PFX == PFX;
    ret, off := FillEntries(buf, off, blks);
    if ret < 0 {
      return ret, buf, 0;
    }
    remain := buf.Length - off;
    ret := SNPrintf(buf, off, remain, SFX);
    if ret >= remain {
      return -E2BIG, buf, 0;
    }
    return 0, buf, off + ret;
  }

  /** The loop over the blocks. */
  method FillEntries(buf: array<char>, start: nat, blks: seq<AzureBlock>) returns (ret: int, off: nat)
    requires start < buf.Length && ShortIds(blks, INT_MAX / 4)
    modifies buf
    ensures ret == 0 || ret == -EINVAL || ret == -E2BIG
    ensures ret == -EINVAL ==> !KnownStates(blks)
    ensures ret == -E2BIG ==> start + |Entries(blks)| >= buf.Length
    ensures ret == 0 ==> KnownStates(blks) && off < buf.Length && buf[..off] == old(buf[..start]) + Entries(blks)
  {
    hide Left, Whole, Entries, Entry, ShortIds, KnownStates;
    var remain: nat, i := buf.Length - start, 0;
    ghost var first := buf[..start];
    off := start;
    WholeEnds(first, blks);
    NoneKnown();
    assert blks[..0] == [];
    while i < |blks|
      invariant 0 <= i <= |blks| && off + remain == buf.Length && remain > 0
      invariant KnownStates(blks[..i])
      invariant Whole(buf[..off], blks, i) == Whole(first, blks, 0)
      invariant off + |Left(blks, i)| == start + |Left(blks, 0)|
    {
      KnownNext(blks, i);
      ret := PrintEntry(buf, off, remain, blks, i);
      if ret < 0 {
        return -EINVAL, off;
      }
      if ret >= remain {
        return -E2BIG, off;
      }
      off, remain, i := off + ret, remain - ret, i + 1;
    }
    WholeEnds(buf[..off], blks);
    assert blks[..i] == blks;
    return 0, off;
  }

  lemma NoneKnown()
    ensures KnownStates([])
  {
  }

  lemma KnownNext(blks: seq<AzureBlock>, i: nat)
    requires i < |blks| && ShortIds(blks, INT_MAX / 4)
    ensures |blks[i].id| <= INT_MAX / 4
    ensures KnownStates(blks[..i]) && !blks[i].state.Other? ==> KnownStates(blks[..i + 1])
    ensures blks[i].state.Other? ==> !KnownStates(blks)
  {
  }

  // ------------------------------------------------------------ what the body says

  /** Text without '<' ends at the first '<'. */
  lemma {:induction false} CutsAtBracket(s: string, t: string, u: string, v: string)
    requires '<' !in s && '<' !in t
    requires s + "<" + u == t + "<" + v
    ensures s == t && u == v
  {
    if s != "" && t != "" {
      assert (s + "<" + u)[1..] == s[1..] + "<" + u && (t + "<" + v)[1..] == t[1..] + "<" + v;
      CutsAtBracket(s[1..], t[1..], u, v);
      assert (s + "<" + u)[0] == s[0] && (t + "<" + v)[0] == t[0];
    } else {
      BracketFirst(s, u);
      BracketFirst(t, v);
    }
  }

  lemma BracketFirst(s: string, u: string)
    ensures s == "" ==> (s + "<" + u)[0] == '<' && (s + "<" + u)[1..] == u
    ensures s != "" ==> (s + "<" + u)[0] == s[0] && s[0] in s
  {
  }

  lemma EncodedIdEnds(d: seq<Byte>, e: seq<Byte>, u: string, v: string)
    requires Encode(d) + "<" + u == Encode(e) + "<" + v
    ensures d == e && u == v
  {
    NoBracket(d);
    NoBracket(e);
    CutsAtBracket(Encode(d), Encode(e), u, v);
    EncodeInjective(d, e);
  }

  lemma NoBracket(d: seq<Byte>)
    ensures '<' !in Encode(d)
  {
    EncodeAlphabet(d);
  }

  lemma OctetsInjective(a: CString, b: CString)
    requires Octets(a) == Octets(b)
    ensures a == b
  {
    forall i | 0 <= i < |a| ensures a[i] == b[i] {
      assert Octets(a)[i] == Octets(b)[i];
    }
  }

  lemma Unwrapped(name: string, text: string, u: string)
    requires name != ""
    ensures ("<" + name + ">" + text + "</" + name + ">" + u)[1] == name[0]
    ensures ("<" + name + ">" + text + "</" + name + ">" + u)[|name| + 2..] == text + "<" + ("/" + name + ">" + u)
  {
  }

  lemma NamesDiffer(a: BlockState, b: BlockState)
    requires !a.Other? && !b.Other?
    ensures StateName(a) != "" && StateName(a)[0] != '/'
    ensures StateName(a)[0] == StateName(b)[0] ==> a == b
  {
  }

  lemma DropTail(t: string, u: string, v: string)
    requires t + u == t + v
    ensures u == v
  {
    assert u == (t + u)[|t|..] && v == (t + v)[|t|..];
  }

  /** The first entry of a text is determined by the text, and so is the rest. */
  lemma EntryHead(b: AzureBlock, c: AzureBlock, u: string, v: string)
    requires !b.state.Other? && !c.state.Other?
    requires Entry(b) + u == Entry(c) + v
    ensures b == c && u == v
  {
    NamesDiffer(b.state, c.state);
    NamesDiffer(c.state, b.state);
    Unwrapped(StateName(b.state), Encode(Octets(b.id)), u);
    Unwrapped(StateName(c.state), Encode(Octets(c.id)), v);
    var tail := "/" + StateName(b.state) + ">";
    EncodedIdEnds(Octets(b.id), Octets(c.id), tail + u, tail + v);
    DropTail(tail, u, v);
    OctetsInjective(b.id, c.id);
  }

  lemma EntryIsNoEnd(b: AzureBlock, u: string, end: string)
    requires !b.state.Other? && |end| > 1 && end[1] == '/'
    ensures Entry(b) + u != end
  {
    NamesDiffer(b.state, b.state);
    Unwrapped(StateName(b.state), Encode(Octets(b.id)), u);
  }

  lemma {:induction false} EntriesDetermineList(a: seq<AzureBlock>, b: seq<AzureBlock>, end: string)
    requires KnownStates(a) && KnownStates(b) && |end| > 1 && end[1] == '/'
    requires Entries(a) + end == Entries(b) + end
    ensures a == b
  {
    hide Entries, Entry;
    FirstEntry(a, end);
    FirstEntry(b, end);
    if a != [] && b != [] {
      EntryHead(a[0], b[0], Entries(a[1..]) + end, Entries(b[1..]) + end);
      EntriesDetermineList(a[1..], b[1..], end);
      assert a == [a[0]] + a[1..] && b == [b[0]] + b[1..];
    }
  }

  lemma FirstEntry(a: seq<AzureBlock>, end: string)
    requires KnownStates(a) && |end| > 1 && end[1] == '/'
    ensures a == [] ==> Entries(a) + end == end
    ensures a != [] ==> Entries(a) + end == Entry(a[0]) + (Entries(a[1..]) + end) != end
  {
    hide Entries, Entry, KnownStates;
    EntriesStep(a);
    if a == [] {
      assert "" + end == end;
    } else {
      var rest := Entries(a[1..]);
      FirstKnown(a);
      EntryIsNoEnd(a[0], rest + end, end);
      Associate(Entry(a[0]), rest, end);
    }
  }

  lemma EntriesStep(a: seq<AzureBlock>)
    ensures Entries(a) == if a == [] then "" else Entry(a[0]) + Entries(a[1..])
  {
    hide Entry;
  }

  lemma FirstKnown(a: seq<AzureBlock>)
    requires KnownStates(a) && a != []
    ensures !a[0].state.Other?
  {
  }

  lemma Associate(a: string, b: string, c: string)
    ensures (a + b) + c == a + (b + c)
  {
  }

  /** So the body names exactly the listed blocks with their states, in list order. */
  lemma BodyDeterminesList(a: seq<AzureBlock>, b: seq<AzureBlock>)
    requires KnownStates(a) && KnownStates(b)
    requires Body(a) == Body(b)
    ensures a == b
  {
    Bracketed(PFX, Entries(a), SFX);
    Bracketed(PFX, Entries(b), SFX);
    EntriesDetermineList(a, b, SFX);
  }

  lemma Bracketed(p: string, e: string, s: string)
    ensures (p + e + s)[|p|..] == e + s
  {
  }

  // ------------------------------------------------------------ what the service reads

  /** What a block of the list is to the service. */
  function Meant(b: AzureBlock): Listed
    requires !b.state.Other?
  {
    match b.state
    case Committed => Listed(b.id, AmongCommitted)
    case Uncommitted => Listed(b.id, AmongUncommitted)
    case Latest => Listed(b.id, Anywhere)
  }

  ghost function AllMeant(bs: seq<AzureBlock>): (ls: seq<Listed>)
    requires KnownStates(bs)
    ensures |ls| == |bs|
  {
    seq(|bs|, i requires 0 <= i < |bs| => Meant(bs[i]))
  }

  lemma TextOfOctets(id: CString)
    ensures Text(Octets(id)) == id
  {
    forall i | 0 <= i < |id|
      ensures Text(Octets(id))[i] == id[i]
    {
    }
  }

  lemma IdReadsBack(id: CString, from: Where, close: string, rest: string)
    requires close != "" && close[0] == '<'
    ensures ReadId(Encode(Octets(id)) + (close + rest), from, close) == Some((Listed(id, from), rest))
  {
    hide Encode, Decode, Octets, Text;
    var code := Encode(Octets(id));
    var s := code + (close + rest);
    NoBracket(Octets(id));
    assert s[|code|] == '<' && s[..|code|] == code;
    IndexOfIs(s, '<', |code|);
    RoundTrip(Octets(id));
    TextOfOctets(id);
    assert s[|code|..] == close + rest && s[|code| + |close|..] == rest;
  }

  /** The tags around an id, by its state. */
  lemma Tags(st: BlockState)
    requires !st.Other?
    ensures "<" + StateName(st) + ">"
            == match st case Committed => "<Committed>" case Uncommitted => "<Uncommitted>" case Latest => "<Latest>"
    ensures "</" + StateName(st) + ">"
            == match st case Committed => "</Committed>" case Uncommitted => "</Uncommitted>" case Latest => "</Latest>"
  {
    match st
    case Committed => CommittedTags();
    case Uncommitted => UncommittedTags();
    case Latest => LatestTags();
  }

  lemma CommittedTags()
    ensures "<" + "Committed" + ">" == "<Committed>" && "</" + "Committed" + ">" == "</Committed>"
  {
  }

  lemma UncommittedTags()
    ensures "<" + "Uncommitted" + ">" == "<Uncommitted>" && "</" + "Uncommitted" + ">" == "</Uncommitted>"
  {
  }

  lemma LatestTags()
    ensures "<" + "Latest" + ">" == "<Latest>" && "</" + "Latest" + ">" == "</Latest>"
  {
  }

  lemma EntryReadsBack(b: AzureBlock, rest: string)
    requires !b.state.Other?
    ensures ReadEntry(Entry(b) + rest) == Some((Meant(b), rest))
  {
    hide Encode, StateName, ReadEntry, ReadId, Octets;
    Tags(b.state);
    var tail := Encode(Octets(b.id));
    match b.state
    case Committed =>
      assert Entry(b) + rest == "<Committed>" + (tail + ("</Committed>" + rest));
      Opened("<Committed>", AmongCommitted, "</Committed>", tail + ("</Committed>" + rest));
      IdReadsBack(b.id, AmongCommitted, "</Committed>", rest);
    case Uncommitted =>
      assert Entry(b) + rest == "<Uncommitted>" + (tail + ("</Uncommitted>" + rest));
      Opened("<Uncommitted>", AmongUncommitted, "</Uncommitted>", tail + ("</Uncommitted>" + rest));
      IdReadsBack(b.id, AmongUncommitted, "</Uncommitted>", rest);
    case Latest =>
      assert Entry(b) + rest == "<Latest>" + (tail + ("</Latest>" + rest));
      Opened("<Latest>", Anywhere, "</Latest>", tail + ("</Latest>" + rest));
      IdReadsBack(b.id, Anywhere, "</Latest>", rest);
  }

  /** What is read behind each opening tag. */
  lemma Opened(tag: string, from: Where, close: string, tail: string)
    requires (tag, from, close) == ("<Committed>", AmongCommitted, "</Committed>")
             || (tag, from, close) == ("<Uncommitted>", AmongUncommitted, "</Uncommitted>")
             || (tag, from, close) == ("<Latest>", Anywhere, "</Latest>")
    ensures ReadEntry(tag + tail) == ReadId(tail, from, close)
  {
    hide ReadId;
    Opens(tag, tail);
  }

  lemma Opens(tag: string, tail: string)
    requires tag == "<Committed>" || tag == "<Uncommitted>" || tag == "<Latest>"
    ensures var s := tag + tail;
            && tag <= s && s[|tag|..] == tail
            && ("<Committed>" <= s <==> tag == "<Committed>") && ("<Uncommitted>" <= s <==> tag == "<Uncommitted>")
            && ("<Latest>" <= s <==> tag == "<Latest>")
  {
    var s := tag + tail;
    assert s[1] == tag[1];
  }

  lemma {:induction false} EntriesReadBack(bs: seq<AzureBlock>)
    requires KnownStates(bs)
    ensures ReadEntries(Entries(bs) + SFX) == Some(AllMeant(bs))
  {
    hide Entry, Entries, ReadEntry, ReadEntries, Meant, AllMeant, KnownStates;
    EntriesStep(bs);
    MeantStep(bs);
    if bs == [] {
      assert "" + SFX == SFX;
      ReadNothing();
    } else {
      KnownRest(bs);
      var rest := Entries(bs[1..]) + SFX;
      EntriesReadBack(bs[1..]);
      EntryReadsBack(bs[0], rest);
      Associate(Entry(bs[0]), Entries(bs[1..]), SFX);
      EntryIsNoEnd(bs[0], rest, SFX);
      ReadMore(Entries(bs) + SFX, Meant(bs[0]), rest, AllMeant(bs[1..]));
    }
  }

  lemma MeantStep(bs: seq<AzureBlock>)
    requires KnownStates(bs)
    ensures bs == [] ==> AllMeant(bs) == []
    ensures bs != [] ==> KnownStates(bs[1..]) && !bs[0].state.Other? && AllMeant(bs) == [Meant(bs[0])] + AllMeant(bs[1..])
  {
    hide Meant;
  }

  lemma ReadNothing()
    ensures ReadEntries(SFX) == Some([])
  {
  }

  lemma ReadMore(s: string, first: Listed, rest: string, ls: seq<Listed>)
    requires s != SFX && ReadEntry(s) == Some((first, rest)) && ReadEntries(rest) == Some(ls)
    ensures ReadEntries(s) == Some([first] + ls)
  {
    hide ReadEntry;
  }

  lemma KnownRest(bs: seq<AzureBlock>)
    requires KnownStates(bs) && bs != []
    ensures KnownStates(bs[1..]) && !bs[0].state.Other?
  {
  }

  /** The service reads from the body exactly the blocks of the list, in list order, each to be looked for
      where its state says. */
  lemma BodyReadsBack(bs: seq<AzureBlock>)
    requires KnownStates(bs)
    ensures ReadBody(Body(bs)) == Some(AllMeant(bs))
  {
    hide Entries, ReadEntries, KnownStates;
    Bracketed(PFX, Entries(bs), SFX);
    EntriesReadBack(bs);
    assert PFX <= Body(bs);
  }
}
