/** Listing the allocated ranges of a page blob window by window: apb_flist_ranges in
    lib/file/azure/apb_io.c. */
module PageRanges {
  import opened Basics
  import opened Ranges

  const BYTES_IN_GB := 1024 * 1024 * 1024

  /** A range behind the others; one that touches the last is joined with it. */
  function Add(rs: seq<Range>, r: Range): seq<Range> {
    if rs != [] && End(rs[|rs| - 1]) == r.off
    then rs[..|rs| - 1] + [Range(rs[|rs| - 1].off, rs[|rs| - 1].len + r.len)]
    else rs + [r]
  }

  function Merge(rs: seq<Range>, more: seq<Range>): seq<Range> {
    if more == [] then rs else Add(Merge(rs, more[..|more| - 1]), more[|more| - 1])
  }

  /** The maximal runs of allocated bytes between `lo` and `hi`. */
  function Runs(data: nat -> bool, lo: nat, hi: nat): (rs: seq<Range>)
    requires lo <= hi
    ensures rs != [] ==> End(rs[|rs| - 1]) <= hi && rs[|rs| - 1].len > 0
    decreases hi - lo
  {
    if lo == hi then []
    else if data(hi - 1) then Add(Runs(data, lo, hi - 1), Range(hi - 1, 1))
    else Runs(data, lo, hi - 1)
  }

  /** Not empty, in the window, in order, and with a gap between each range and the next. */
  ghost predicate Separate(rs: seq<Range>, lo: nat, hi: nat) {
    && (forall i | 0 <= i < |rs| :: rs[i].len > 0 && lo <= rs[i].off && End(rs[i]) <= hi)
    && (forall i, j | 0 <= i < j < |rs| :: End(rs[i]) < rs[j].off)
  }

  lemma CoversAdd(rs: seq<Range>, r: Range, p: nat)
    ensures Covers(Add(rs, r), p) <==> Covers(rs, p) || r.off <= p < End(r)
  {
    var a := Add(rs, r);
    if Covers(rs, p) {
      var i :| 0 <= i < |rs| && rs[i].off <= p < End(rs[i]);
      assert a[i].off <= p < End(a[i]);
    }
    if r.off <= p < End(r) {
      assert a[|a| - 1].off <= p < End(a[|a| - 1]);
    }
    if Covers(a, p) {
      var i :| 0 <= i < |a| && a[i].off <= p < End(a[i]);
      assert i < |rs| ==> rs[i].off <= p < End(rs[i]) || r.off <= p < End(r);
    }
  }

  lemma SeparateAdd(rs: seq<Range>, lo: nat, hi: nat)
    requires lo < hi && Separate(rs, lo, hi - 1)
    ensures Separate(Add(rs, Range(hi - 1, 1)), lo, hi)
  {
  }

  lemma SeparateWider(rs: seq<Range>, lo: nat, hi: nat)
    requires lo < hi && Separate(rs, lo, hi - 1)
    ensures Separate(rs, lo, hi)
  {
  }

  lemma {:induction false} RunsSeparate(data: nat -> bool, lo: nat, hi: nat)
    requires lo <= hi
    ensures Separate(Runs(data, lo, hi), lo, hi)
    decreases hi - lo
  {
    if lo < hi {
      hide Separate;
      RunsSeparate(data, lo, hi - 1);
      SeparateWider(Runs(data, lo, hi - 1), lo, hi);
      SeparateAdd(Runs(data, lo, hi - 1), lo, hi);
    }
  }

  lemma {:induction false} RunsCoverAt(data: nat -> bool, lo: nat, hi: nat, p: nat)
    requires lo <= hi
    ensures Covers(Runs(data, lo, hi), p) <==> lo <= p < hi && data(p)
    decreases hi - lo
  {
    hide Add;
    if lo < hi {
      hide Covers;
      RunsCoverAt(data, lo, hi - 1, p);
      CoversAdd(Runs(data, lo, hi - 1), Range(hi - 1, 1), p);
    }
  }

  /** The runs cover exactly the allocated bytes of the window, with gaps between them. */
  lemma RunsCover(data: nat -> bool, lo: nat, hi: nat)
    requires lo <= hi
    ensures Separate(Runs(data, lo, hi), lo, hi)
    ensures forall p: nat :: Covers(Runs(data, lo, hi), p) <==> lo <= p < hi && data(p)
  {
    hide Covers, Separate, Runs;
    RunsSeparate(data, lo, hi);
    forall p: nat
      ensures Covers(Runs(data, lo, hi), p) <==> lo <= p < hi && data(p)
    {
      RunsCoverAt(data, lo, hi, p);
    }
  }

  lemma {:induction false} MergeSnoc(rs: seq<Range>, more: seq<Range>, r: Range)
    ensures Merge(rs, more + [r]) == Add(Merge(rs, more), r)
  {
    assert (more + [r])[..|more|] == more;
  }

  lemma AddTwice(rs: seq<Range>, a: Range, b: Range)
    requires End(a) == b.off
    ensures Add(Add(rs, a), b) == Add(rs, Range(a.off, a.len + b.len))
  {
    var x := Add(rs, a);
    var front, last := x[..|x| - 1], x[|x| - 1];
    assert End(last) == b.off;
    if rs != [] && End(rs[|rs| - 1]) == a.off {
      assert front == rs[..|rs| - 1];
    } else {
      assert front == rs;
    }
  }

  lemma AddCases(rs: seq<Range>, r: Range)
    ensures if rs != [] && End(rs[|rs| - 1]) == r.off
            then var last := rs[|rs| - 1];
                 && rs == rs[..|rs| - 1] + [last]
                 && Add(rs, r) == rs[..|rs| - 1] + [Range(last.off, last.len + r.len)]
            else Add(rs, r) == rs + [r]
  {
  }

  /** Merging a list that was itself extended is extending the merged list. */
  lemma MergeAdd(rs: seq<Range>, more: seq<Range>, r: Range)
    ensures Merge(rs, Add(more, r)) == Add(Merge(rs, more), r)
  {
    hide Add, Merge;
    AddCases(more, r);
    if more != [] && End(more[|more| - 1]) == r.off {
      var front, last := more[..|more| - 1], more[|more| - 1];
      MergeSnoc(rs, front, last);
      MergeSnoc(rs, front, Range(last.off, last.len + r.len));
      AddTwice(Merge(rs, front), last, r);
    } else {
      MergeSnoc(rs, more, r);
    }
  }

  /** The runs of adjacent windows merge to the runs of both. */
  lemma {:induction false} WindowsMerge(data: nat -> bool, lo: nat, mid: nat, hi: nat)
    requires lo <= mid <= hi
    ensures Merge(Runs(data, lo, mid), Runs(data, mid, hi)) == Runs(data, lo, hi)
    decreases hi - mid
  {
    if mid < hi {
      WindowsMerge(data, lo, mid, hi - 1);
      if data(hi - 1) {
        MergeAdd(Runs(data, lo, mid), Runs(data, mid, hi - 1), Range(hi - 1, 1));
      }
    }
  }

  lemma {:induction false} MergeJoin(a: seq<Range>, b: seq<Range>, c: seq<Range>)
    ensures Merge(a, b + c) == Merge(Merge(a, b), c)
  {
    hide Add;
    if c == [] {
      assert b + c == b;
    } else {
      MergeJoin(a, b, c[..|c| - 1]);
      assert b + c == (b + c[..|c| - 1]) + [c[|c| - 1]];
      MergeSnoc(a, b + c[..|c| - 1], c[|c| - 1]);
    }
  }

  lemma {:induction false} MergeCovers(rs: seq<Range>, more: seq<Range>, p: nat)
    ensures Covers(Merge(rs, more), p) <==> Covers(rs, p) || Covers(more, p)
  {
    hide Covers, Add;
    if more == [] {
      CoversNothing(p);
    } else {
      var front, last := more[..|more| - 1], more[|more| - 1];
      MergeCovers(rs, front, p);
      CoversAdd(Merge(rs, front), last, p);
      CoversSnoc(front, last, p);
      assert more == front + [last];
    }
  }

  // ------------------------------------------------------------ the listing

  /** A page range as the server reports it, with its last byte. */
  datatype AzPageRange = AzPageRange(startByte: nat, endByte: nat)

  /** The ranges as the callback is given them. */
  function Handed(rs: seq<AzPageRange>): seq<Range> {
    seq(|rs|, i requires 0 <= i < |rs| => Range(rs[i].startByte, Min0(rs[i].endByte - rs[i].startByte + 1)))
  }

  function Min0(n: int): nat {
    if n < 0 then 0 else n
  }

  /** The server's answer for a window: its runs, each with its last byte. */
  function Answer(data: nat -> bool, lo: nat, hi: nat): seq<AzPageRange>
    requires lo <= hi
  {
    var runs := Runs(data, lo, hi);
    seq(|runs|, i requires 0 <= i < |runs| => AzPageRange(runs[i].off, Min0(End(runs[i]) - 1)))
  }

  ghost predicate Proper(rs: seq<AzPageRange>) {
    forall i | 0 <= i < |rs| :: rs[i].startByte <= rs[i].endByte
  }

  lemma AnswerHandsRuns(data: nat -> bool, lo: nat, hi: nat)
    requires lo <= hi
    ensures Proper(Answer(data, lo, hi)) && Handed(Answer(data, lo, hi)) == Runs(data, lo, hi)
  {
    hide Runs;
    RunsSeparate(data, lo, hi);
  }

  /** What goes on outside a listing: which requests succeed and at which call the callback gives up. */
  datatype Env = Env(net: nat -> Outcome, stops: nat -> bool)

  /** The loop of apb_flist_ranges_iter over one response: `reported` is what the callback was given
      before. */
  method HandOver(env: Env, ranges: seq<AzPageRange>, reported: seq<Range>) returns (ret: int, reported': seq<Range>)
    ensures ret <= 0
    ensures ret == 0 ==> Proper(ranges) && reported' == reported + Handed(ranges)
    ensures Proper(ranges) && (forall k: nat :: !env.stops(k)) ==> ret == 0
  {
    reported' := reported;
    var i := 0;
    assert reported + Handed(ranges)[..0] == reported;
    while i < |ranges|
      invariant 0 <= i <= |ranges|
      invariant forall k | 0 <= k < i :: ranges[k].startByte <= ranges[k].endByte
      invariant reported' == reported + Handed(ranges)[..i]
    {
      var range := ranges[i];
      if range.startByte > range.endByte {
        return -EIO, reported';
      }
      HandedNext(reported, ranges, i);
      reported' := reported' + [Range(range.startByte, range.endByte - range.startByte + 1)];
      i := i + 1;
      if env.stops(|reported'| - 1) {
        return -EIO, reported';
      }
    }
    assert Handed(ranges)[..i] == Handed(ranges);
    return 0, reported';
  }

  lemma HandedNext(reported: seq<Range>, ranges: seq<AzPageRange>, i: nat)
    requires i < |ranges|
    ensures reported + Handed(ranges)[..i + 1] == (reported + Handed(ranges)[..i]) + [Handed(ranges)[i]]
  {
  }

  /** apb_flist_ranges_iter */
  method FlistRangesIter(data: nat -> bool, env: Env, sent: nat, thisOff: nat, thisLen: nat, reported: seq<Range>)
    returns (ret: int, reported': seq<Range>)
    ensures ret <= 0
    ensures ret == 0 ==> reported' == reported + Runs(data, thisOff, thisOff + thisLen)
    ensures env.net(sent).Delivered? && (forall k: nat :: !env.stops(k)) ==> ret == 0
  {
    if !env.net(sent).Delivered? {
      return -EIO, reported;
    }
    AnswerHandsRuns(data, thisOff, thisOff + thisLen);
    ret, reported' := HandOver(env, Answer(data, thisOff, thisOff + thisLen), reported);
  }

  /** apb_flist_ranges: however many windows the range is split into, the reports merge to the runs of
      the whole range, and so cover exactly its allocated bytes. */
  method FlistRanges(data: nat -> bool, env: Env, off: nat, len: nat) returns (ret: int, reported: seq<Range>)
    ensures ret <= 0
    ensures ret == 0 ==> Merge([], reported) == Runs(data, off, off + len)
    ensures ret == 0 ==> forall p: nat :: Covers(reported, p) <==> off <= p < off + len && data(p)
    ensures AllDelivered(env.net) && (forall k: nat :: !env.stops(k)) ==> ret == 0
  {
    hide Runs, Merge, Covers;
    var remain: nat, thisOff: nat, sent: nat := len, off, 0;
    reported, ret := [], 0;
    EmptyWindow(data, off);
    while remain > 0
      invariant thisOff + remain == off + len && off <= thisOff
      invariant Merge([], reported) == Runs(data, off, thisOff)
    {
      var thisLen := Min(remain, BYTES_IN_GB);
      ghost var before := reported;
      ret, reported := FlistRangesIter(data, env, sent, thisOff, thisLen, reported);
      if ret < 0 {
        return ret, reported;
      }
      MergeJoin([], before, Runs(data, thisOff, thisOff + thisLen));
      WindowsMerge(data, off, thisOff, thisOff + thisLen);
      thisOff, remain, sent := thisOff + thisLen, remain - thisLen, sent + 1;
    }
    RunsCover(data, off, off + len);
    forall p: nat
      ensures Covers(reported, p) <==> off <= p < off + len && data(p)
    {
      MergeCovers([], reported, p);
      CoversNothing(p);
    }
    return 0, reported;
  }

  lemma EmptyWindow(data: nat -> bool, off: nat)
    ensures Merge([], []) == Runs(data, off, off) == []
  {
  }
}
