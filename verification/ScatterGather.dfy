/** Vectored block IO: tcmu_elasto_fwritev and tcmu_elasto_freadv with their fallbacks in
    tcmu/consumer.c.  Memory is one array of bytes, an iovec names a region of it. */
module ScatterGather {
  import opened Basics
  import opened Chunks

  // ------------------------------------------------------------ regions

  datatype Iovec = Iovec(base: nat, len: nat)

  /** `s` with `d` written over it at `off`. */
  function Patch(s: seq<Byte>, off: nat, d: seq<Byte>): (r: seq<Byte>)
    requires off + |d| <= |s|
    ensures |r| == |s|
  {
    s[..off] + d + s[off + |d|..]
  }

  /** Only what is written over changes. */
  lemma PatchAt(s: seq<Byte>, off: nat, d: seq<Byte>, i: nat)
    requires off + |d| <= |s| && i < |s|
    ensures Patch(s, off, d)[i] == if off <= i < off + |d| then d[i - off] else s[i]
  {
  }

  lemma PatchTwice(s: seq<Byte>, off: nat, a: seq<Byte>, b: seq<Byte>)
    requires off + |a| + |b| <= |s|
    ensures Patch(Patch(s, off, a), off + |a|, b) == Patch(s, off, a + b)
  {
  }

  lemma PatchNone(s: seq<Byte>, off: nat)
    requires off <= |s|
    ensures Patch(s, off, []) == s
  {
  }

  predicate Inside(iovs: seq<Iovec>, size: nat) {
    forall i | 0 <= i < |iovs| :: iovs[i].base + iovs[i].len <= size
  }

  function Size(iovs: seq<Iovec>): nat {
    if iovs == [] then 0 else iovs[0].len + Size(iovs[1..])
  }

  function Region(m: seq<Byte>, v: Iovec): (d: seq<Byte>)
    ensures v.base + v.len <= |m| ==> |d| == v.len
  {
    if v.base + v.len <= |m| then m[v.base..v.base + v.len] else []
  }

  /** The bytes of the regions, one region after another. */
  function Gather(m: seq<Byte>, iovs: seq<Iovec>): seq<Byte> {
    if iovs == [] then [] else Region(m, iovs[0]) + Gather(m, iovs[1..])
  }

  lemma {:induction false} GatherSize(m: seq<Byte>, iovs: seq<Iovec>)
    requires Inside(iovs, |m|)
    ensures |Gather(m, iovs)| == Size(iovs)
  {
    if iovs != [] {
      GatherSize(m, iovs[1..]);
    }
  }

  lemma GatherSplit(m: seq<Byte>, iovs: seq<Iovec>)
    requires iovs != []
    ensures Gather(m, iovs) == Region(m, iovs[0]) + Gather(m, iovs[1..])
  {
  }

  lemma NoSize(iovs: seq<Iovec>)
    ensures Size(iovs[..0]) == 0
  {
  }

  lemma SizeSplit(iovs: seq<Iovec>, i: nat)
    requires 0 < i <= |iovs|
    ensures Size(iovs[..i]) == iovs[0].len + Size(iovs[1..][..i - 1])
  {
    assert iovs[..i][1..] == iovs[1..][..i - 1];
  }

  /** Byte `j` of region `i` stands behind all bytes of the regions before it. */
  lemma {:induction false} GatherAt(m: seq<Byte>, iovs: seq<Iovec>, i: nat, j: nat)
    requires Inside(iovs, |m|) && i < |iovs| && j < iovs[i].len
    ensures Size(iovs[..i]) + j < |Gather(m, iovs)| && Gather(m, iovs)[Size(iovs[..i]) + j] == m[iovs[i].base + j]
  {
    hide Gather, Size;
    GatherSplit(m, iovs);
    var first := Region(m, iovs[0]);
    if i == 0 {
      NoSize(iovs);
    } else {
      GatherAt(m, iovs[1..], i - 1, j);
      SizeSplit(iovs, i);
    }
  }

  function Take(d: seq<Byte>, n: nat): seq<Byte> {
    d[..Min(n, |d|)]
  }

  /** The first `n` bytes of the regions. */
  function Flat(m: seq<Byte>, iovs: seq<Iovec>, n: nat): seq<Byte> {
    Take(Gather(m, iovs), n)
  }

  lemma TakeSum(a: seq<Byte>, b: seq<Byte>, n: nat)
    ensures Take(a + b, n) == Take(a, n) + Take(b, if n < |a| then 0 else n - |a|)
  {
  }

  /** The flat bytes begin with those of the first region. */
  lemma FlatStep(m: seq<Byte>, iovs: seq<Iovec>, k: nat, n: nat)
    requires Inside(iovs, |m|) && k < |iovs|
    ensures var c := Min(n, iovs[k].len);
            && iovs[k].base + c <= |m|
            && Flat(m, iovs[k..], n) == m[iovs[k].base..iovs[k].base + c] + Flat(m, iovs[k + 1..], n - c)
    ensures Size(iovs[k..]) == iovs[k].len + Size(iovs[k + 1..])
  {
    assert iovs[k..][1..] == iovs[k + 1..];
    TakeSum(Region(m, iovs[k]), Gather(m, iovs[k + 1..]), n);
  }

  lemma FlatSize(m: seq<Byte>, iovs: seq<Iovec>, n: nat)
    requires Inside(iovs, |m|)
    ensures |Flat(m, iovs, n)| == Min(n, Size(iovs))
    ensures iovs == [] ==> Flat(m, iovs, n) == []
    ensures n == 0 ==> Flat(m, iovs, n) == []
  {
    GatherSize(m, iovs);
  }

  // ------------------------------------------------------------ the other way

  /** Memory with `d` spread over the regions, in order, until it is used up. */
  function Scatter(m: seq<Byte>, iovs: seq<Iovec>, d: seq<Byte>): (r: seq<Byte>)
    requires Inside(iovs, |m|)
    ensures |r| == |m|
    decreases |iovs|
  {
    if iovs == [] then m
    else
      var c := Min(|d|, iovs[0].len);
      Scatter(Patch(m, iovs[0].base, d[..c]), iovs[1..], d[c..])
  }

  /** No region overlaps another. */
  ghost predicate Apart(iovs: seq<Iovec>) {
    forall i, j | 0 <= i < j < |iovs| ::
      iovs[i].base + iovs[i].len <= iovs[j].base || iovs[j].base + iovs[j].len <= iovs[i].base
  }

  predicate OutsideOf(v: Iovec, off: nat, len: nat) {
    v.base + v.len <= off || off + len <= v.base
  }

  lemma SliceOutside(m: seq<Byte>, off: nat, len: nat, at: nat, d: seq<Byte>)
    requires off + len <= |m| && at + |d| <= |m|
    requires off + len <= at || at + |d| <= off
    ensures Patch(m, at, d)[off..off + len] == m[off..off + len]
  {
  }

  lemma SlicePatched(m: seq<Byte>, at: nat, d: seq<Byte>)
    requires at + |d| <= |m|
    ensures Patch(m, at, d)[at..at + |d|] == d
  {
    assert forall i | 0 <= i < |d| :: Patch(m, at, d)[at + i] == d[i];
  }

  /** Memory that no region touches stays as it is. */
  lemma {:induction false} ScatterElsewhere(m: seq<Byte>, iovs: seq<Iovec>, d: seq<Byte>, off: nat, len: nat)
    requires Inside(iovs, |m|) && off + len <= |m|
    requires forall i | 0 <= i < |iovs| :: OutsideOf(iovs[i], off, len)
    ensures Scatter(m, iovs, d)[off..off + len] == m[off..off + len]
    decreases |iovs|
  {
    if iovs != [] {
      var c := Min(|d|, iovs[0].len);
      assert OutsideOf(iovs[0], off, len);
      SliceOutside(m, off, len, iovs[0].base, d[..c]);
      ScatterElsewhere(Patch(m, iovs[0].base, d[..c]), iovs[1..], d[c..], off, len);
    }
  }

  /** Gathering from separate regions gives back what was spread over them. */
  lemma {:induction false} GatherOfScatter(m: seq<Byte>, iovs: seq<Iovec>, d: seq<Byte>)
    requires Inside(iovs, |m|) && Apart(iovs) && |d| <= Size(iovs)
    ensures Flat(Scatter(m, iovs, d), iovs, |d|) == d
    decreases |iovs|
  {
    hide Patch, Flat, Apart, Scatter, Inside;
    if iovs == [] {
      FlatEnds(m, iovs, 0, 0);
      FlatEnds(Scatter(m, iovs, d), iovs, 0, |d|);
    } else {
      var v := iovs[0];
      var c := Min(|d|, v.len);
      ScatterFirst(m, iovs, d);
      var m' := Patch(m, v.base, d[..c]);
      var r := Scatter(m, iovs, d);
      ApartTail(iovs);
      GatherOfScatter(m', iovs[1..], d[c..]);
      ScatterElsewhere(m', iovs[1..], d[c..], v.base, c);
      SlicePatched(m, v.base, d[..c]);
      assert iovs[0..] == iovs;
      FlatStep(r, iovs, 0, |d|);
      assert d == d[..c] + d[c..];
    }
  }

  lemma ScatterFirst(m: seq<Byte>, iovs: seq<Iovec>, d: seq<Byte>)
    requires Inside(iovs, |m|) && iovs != []
    ensures var v, c := iovs[0], Min(|d|, iovs[0].len);
            && v.base + c <= |m| && Inside(iovs[1..], |m|)
            && Scatter(m, iovs, d) == Scatter(Patch(m, v.base, d[..c]), iovs[1..], d[c..])
  {
    hide Patch;
  }

  lemma ApartTail(iovs: seq<Iovec>)
    requires iovs != [] && Apart(iovs)
    ensures Apart(iovs[1..])
    ensures forall i, n: nat | 0 <= i < |iovs[1..]| && n <= iovs[0].len :: OutsideOf(iovs[1..][i], iovs[0].base, n)
  {
  }

  // ------------------------------------------------------------ the backend

  /** A block device behind elasto_fwrite and elasto_fread.  It is only asked for whole blocks; a
      call fails or is carried out whole, and `works` tells which calls fail. */
  class Device {
    const blockSize: nat
    const works: nat -> bool
    var content: seq<Byte>
    var calls: nat

    constructor (blockSize: nat, works: nat -> bool, content: seq<Byte>)
      requires blockSize > 0
      ensures this.blockSize == blockSize && this.works == works && this.content == content && calls == 0
    {
      this.blockSize, this.works, this.content, calls := blockSize, works, content, 0;
    }

    ghost predicate Aligned(off: nat, len: nat) {
      blockSize > 0 && off % blockSize == 0 && len % blockSize == 0
    }

    method Write(off: nat, d: seq<Byte>) returns (ret: int)
      requires Aligned(off, |d|)
      modifies this
      ensures calls == old(calls) + 1 && ret <= 0
      ensures ret == 0 <==> works(old(calls)) && off + |d| <= |content|
      ensures |content| == |old(content)|
      ensures content == if ret == 0 then Patch(old(content), off, d) else old(content)
    {
      calls := calls + 1;
      if !works(calls - 1) || off + |d| > |content| {
        return -EIO;
      }
      content := Patch(content, off, d);
      return 0;
    }

    method Read(off: nat, len: nat) returns (ret: int, d: seq<Byte>)
      requires Aligned(off, len)
      modifies this`calls
      ensures calls == old(calls) + 1 && ret <= 0
      ensures ret == 0 <==> works(old(calls)) && off + len <= |content|
      ensures ret == 0 ==> d == content[off..off + len]
    {
      calls := calls + 1;
      if !works(calls - 1) || off + len > |content| {
        return -EIO, [];
      }
      return 0, content[off..off + len];
    }
  }

  lemma WholeSum(a: int, b: int, n: nat)
    requires n > 0 && a % n == 0 && b % n == 0
    ensures (a + b) % n == 0 && (a - b) % n == 0
  {
    assert a == (a / n) * n + 0 && b == (b / n) * n + 0;
    assert a + b == (a / n + b / n) * n + 0;
    QuotientIs(a + b, n, a / n + b / n, 0);
    assert a - b == (a / n - b / n) * n + 0;
    QuotientIs(a - b, n, a / n - b / n, 0);
  }

  /** After whole blocks of a whole number of blocks, whole blocks remain. */
  lemma WholeBlocks(remaining: int, toCopy: int, at: int, done: int, n: nat)
    requires n > 0 && remaining % n == 0 && at % n == 0 && done % n == 0
    ensures toCopy % n == 0 ==>
              (remaining - toCopy) % n == 0 && (at + toCopy) % n == 0 && (done + toCopy) % n == 0
    ensures (done + remaining) % n == 0
  {
    if toCopy % n == 0 {
      WholeSum(remaining, toCopy, n);
      WholeSum(at, toCopy, n);
      WholeSum(done, toCopy, n);
    }
    WholeSum(done, remaining, n);
  }

  // ------------------------------------------------------------ writing

  /** tcmu_memcpy_from_iovec: the first `len` bytes of the regions, or all if there are fewer. */
  method MemcpyFromIovec(tmp: array<Byte>, len: nat, mem: array<Byte>, iovs: seq<Iovec>) returns (copied: nat)
    requires len <= tmp.Length && Inside(iovs, mem.Length) && tmp != mem
    modifies tmp
    ensures copied == Min(len, Size(iovs))
    ensures tmp[..copied] == Flat(mem[..], iovs, len)
  {
    hide Flat, Inside, Size;
    var k: nat, remain: nat := 0, len;
    copied := 0;
    ghost var m := mem[..];
    assert iovs[0..] == iovs && tmp[..0] == [];
    while remain > 0 && k < |iovs|
      invariant k <= |iovs| && copied + remain == len
      invariant copied + Min(remain, Size(iovs[k..])) == Min(len, Size(iovs))
      invariant tmp[..copied] + Flat(m, iovs[k..], remain) == Flat(m, iovs, len)
    {
      var toCopy := CopyRegion(tmp, copied, mem, iovs, k, remain);
      copied, remain, k := copied + toCopy, remain - toCopy, k + 1;
    }
    FlatEnds(m, iovs, k, remain);
    assert tmp[..copied] + [] == tmp[..copied];
  }

  method CopyRegion(tmp: array<Byte>, copied: nat, mem: array<Byte>, iovs: seq<Iovec>, k: nat, remain: nat)
    returns (toCopy: nat)
    requires copied + remain <= tmp.Length && Inside(iovs, mem.Length) && tmp != mem && k < |iovs|
    modifies tmp
    ensures toCopy == Min(iovs[k].len, remain)
    ensures tmp[..copied + toCopy] + Flat(mem[..], iovs[k + 1..], remain - toCopy)
            == old(tmp[..copied]) + Flat(mem[..], iovs[k..], remain)
    ensures Size(iovs[k..]) == iovs[k].len + Size(iovs[k + 1..])
  {
    hide Flat, Inside, Size;
    toCopy := Min(iovs[k].len, remain);
    FlatStep(mem[..], iovs, k, remain);
    CopyOut(tmp, copied, mem, iovs[k].base, toCopy);
  }

  lemma FlatEnds(m: seq<Byte>, iovs: seq<Iovec>, k: nat, n: nat)
    requires k <= |iovs| && (k == |iovs| || n == 0)
    ensures Flat(m, iovs[k..], n) == []
    ensures k == |iovs| ==> Size(iovs[k..]) == 0
  {
  }

  method CopyOut(tmp: array<Byte>, at: nat, mem: array<Byte>, base: nat, n: nat)
    requires at + n <= tmp.Length && base + n <= mem.Length && tmp != mem
    modifies tmp
    ensures tmp[..at + n] == old(tmp[..at]) + mem[..][base..base + n]
  {
    forall i | 0 <= i < n {
      tmp[at + i] := mem[base + i];
    }
  }

  /** tcmu_elasto_fwritev_misaligned: the rest of the write goes through one buffer. */
  method WritevMisaligned(dev: Device, mem: array<Byte>, iovs: seq<Iovec>, off: nat, len: nat) returns (ret: int)
    requires dev.Aligned(off, len) && Inside(iovs, mem.Length) && len <= Size(iovs)
    modifies dev
    ensures ret <= 0 && dev.calls == old(dev.calls) + 1
    ensures ret == 0 <==> dev.works(old(dev.calls)) && off + len <= |old(dev.content)|
    ensures |Flat(mem[..], iovs, len)| == len
    ensures dev.content == if ret == 0 then Patch(old(dev.content), off, Flat(mem[..], iovs, len)) else old(dev.content)
  {
    hide Flat;
    var tmp := new Byte[len];
    var copied := MemcpyFromIovec(tmp, len, mem, iovs);
    FlatSize(mem[..], iovs, len);
    assert tmp[..] == tmp[..len];
    ret := dev.Write(off, tmp[..]);
  }

  /** What a vectored write of `d` has done after `n` bytes. */
  ghost predicate Written(content0: seq<Byte>, content: seq<Byte>, off: nat, d: seq<Byte>, n: nat) {
    && n <= |d| && |content| == |content0|
    && (if n == 0 then content == content0 else off + n <= |content0| && content == Patch(content0, off, d[..n]))
  }

  lemma WrittenMore(content0: seq<Byte>, content: seq<Byte>, off: nat, d: seq<Byte>, n: nat, more: seq<Byte>,
                    rest: seq<Byte>)
    requires Written(content0, content, off, d, n)
    requires d[n..] == more + rest && off + n + |more| <= |content0|
    ensures Written(content0, Patch(content, off + n, more), off, d, n + |more|)
    ensures d[n + |more|..] == rest
  {
    assert d[n..n + |more|] == d[n..][..|more|] == more;
    assert d[n + |more|..] == d[n..][|more|..];
    assert d[..n + |more|] == d[..n] + more;
    if n == 0 {
      assert d[..n] == [];
      PatchNone(content0, off);
    }
    PatchTwice(content0, off, d[..n], more);
    if n + |more| == 0 {
      PatchNone(content0, off);
    }
  }

  /** elasto_fwrite of the part of the write that comes from region `k`. */
  method WriteRegion(dev: Device, mem: array<Byte>, iovs: seq<Iovec>, k: nat, at: nat, toCopy: nat, ghost remaining: nat,
                     ghost content0: seq<Byte>, ghost off: nat, ghost d: seq<Byte>)
    returns (ret: int)
    requires Inside(iovs, mem.Length) && k < |iovs| && toCopy == Min(remaining, iovs[k].len)
    requires dev.Aligned(at, toCopy) && off <= at <= off + |d|
    requires Written(content0, dev.content, off, d, at - off)
    requires d[at - off..] == Flat(mem[..], iovs[k..], remaining)
    modifies dev
    ensures ret <= 0 && dev.calls == old(dev.calls) + 1
    ensures ret == 0 <==> dev.works(old(dev.calls)) && at + toCopy <= |content0|
    ensures ret != 0 ==> dev.content == old(dev.content)
    ensures ret == 0 ==>
              && at + toCopy <= off + |d| && Written(content0, dev.content, off, d, at + toCopy - off)
              && d[at + toCopy - off..] == Flat(mem[..], iovs[k + 1..], remaining - toCopy)
    ensures Size(iovs[k..]) == iovs[k].len + Size(iovs[k + 1..])
  {
    hide Flat;
    FlatStep(mem[..], iovs, k, remaining);
    ghost var before := dev.content;
    var data := mem[iovs[k].base..iovs[k].base + toCopy];
    assert data == mem[..][iovs[k].base..iovs[k].base + toCopy];
    ret := dev.Write(at, data);
    if ret == 0 {
      assert |d[at - off..]| == |d| - (at - off);
      WrittenMore(content0, before, off, d, at - off, data, Flat(mem[..], iovs[k + 1..], remaining - toCopy));
    }
  }

  /** From region `k` on, the rest of the write goes out in one call. */
  method WriteRest(dev: Device, mem: array<Byte>, iovs: seq<Iovec>, k: nat, at: nat, remaining: nat,
                   ghost content0: seq<Byte>, ghost off: nat, ghost d: seq<Byte>)
    returns (ret: int)
    requires Inside(iovs, mem.Length) && k < |iovs| && remaining <= Size(iovs[k..])
    requires dev.Aligned(at, remaining) && off <= at && at + remaining == off + |d|
    requires Written(content0, dev.content, off, d, at - off)
    requires d[at - off..] == Flat(mem[..], iovs[k..], remaining)
    modifies dev
    ensures ret <= 0 && (ret == 0 <==> dev.works(old(dev.calls)) && at + remaining <= |content0|)
    ensures ret != 0 ==> dev.content == old(dev.content)
    ensures ret == 0 ==> Written(content0, dev.content, off, d, |d|)
  {
    hide Flat, Patch, Size;
    ghost var before := dev.content;
    ret := WritevMisaligned(dev, mem, iovs[k..], at, remaining);
    if ret == 0 {
      WrittenMore(content0, before, off, d, at - off, Flat(mem[..], iovs[k..], remaining), []);
    }
  }

  /** tcmu_elasto_fwritev.  However the memory is divided, it has the effect of one flat write of the
      first `len` bytes; a failure leaves a whole number of blocks of it written. */
  method Writev(dev: Device, mem: array<Byte>, iovs: seq<Iovec>, off: nat, len: nat) returns (ret: int, ghost done: nat)
    requires dev.Aligned(off, len) && Inside(iovs, mem.Length) && len <= Size(iovs)
    modifies dev
    ensures ret <= 0 && done <= len && done % dev.blockSize == 0
    ensures Written(old(dev.content), dev.content, off, Flat(mem[..], iovs, len), done)
    ensures ret == 0 ==> done == len
    ensures (forall k: nat :: dev.works(k)) && off + len <= |old(dev.content)| ==> ret == 0
  {
    hide Flat, Written, Patch;
    ghost var m, d := mem[..], Flat(mem[..], iovs, len);
    ghost var content0 := dev.content;
    FlatSize(m, iovs, len);
    WrittenNone(content0, off, d);
    var remaining: nat, at: nat, k: nat := len, off, 0;
    done := 0;
    assert iovs[0..] == iovs && d[0..] == d;
    while remaining != 0
      invariant at + remaining == off + len && at == off + done && k <= |iovs|
      invariant dev.Aligned(at, remaining) && done % dev.blockSize == 0
      invariant remaining <= Size(iovs[k..])
      invariant d[done..] == Flat(m, iovs[k..], remaining)
      invariant Written(content0, dev.content, off, d, done) && |dev.content| == |content0|
      decreases |iovs| - k
    {
      var toCopy := Min(remaining, iovs[k].len);
      WholeBlocks(remaining, toCopy, at, done, dev.blockSize);
      if toCopy % dev.blockSize != 0 {
        ret := WriteRest(dev, mem, iovs, k, at, remaining, content0, off, d);
        done := if ret == 0 then len else done;
        return ret, done;
      }
      ret := WriteRegion(dev, mem, iovs, k, at, toCopy, remaining, content0, off, d);
      if ret < 0 {
        return ret, done;
      }
      WrittenSize(content0, dev.content, off, d, done + toCopy);
      remaining, at, k, done := remaining - toCopy, at + toCopy, k + 1, done + toCopy;
    }
    return 0, len;
  }

  lemma WrittenSize(content0: seq<Byte>, content: seq<Byte>, off: nat, d: seq<Byte>, n: nat)
    requires Written(content0, content, off, d, n)
    ensures |content| == |content0|
  {
  }

  lemma WrittenNone(content0: seq<Byte>, off: nat, d: seq<Byte>)
    ensures Written(content0, content0, off, d, 0)
  {
  }

  // ------------------------------------------------------------ reading

  lemma {:induction false} ScatterNone(m: seq<Byte>, iovs: seq<Iovec>)
    requires Inside(iovs, |m|)
    ensures Scatter(m, iovs, []) == m
  {
    if iovs != [] {
      PatchNone(m, iovs[0].base);
      ScatterNone(m, iovs[1..]);
    }
  }

  /** The first part of the data goes to the first region, the rest to the other regions. */
  lemma ScatterStep(m: seq<Byte>, iovs: seq<Iovec>, k: nat, d: seq<Byte>)
    requires Inside(iovs, |m|) && k < |iovs|
    ensures var c := Min(|d|, iovs[k].len);
            && iovs[k].base + c <= |m|
            && Scatter(m, iovs[k..], d) == Scatter(Patch(m, iovs[k].base, d[..c]), iovs[k + 1..], d[c..])
    ensures Size(iovs[k..]) == iovs[k].len + Size(iovs[k + 1..])
  {
    assert iovs[k..][1..] == iovs[k + 1..];
  }

  method CopyIn(mem: array<Byte>, base: nat, d: seq<Byte>)
    requires base + |d| <= mem.Length
    modifies mem
    ensures mem[..] == Patch(old(mem[..]), base, d)
  {
    forall i | 0 <= i < |d| {
      mem[base + i] := d[i];
    }
  }

  /** tcmu_memcpy_into_iovec: the buffer is spread over the regions as far as it goes. */
  method MemcpyIntoIovec(mem: array<Byte>, iovs: seq<Iovec>, tmp: seq<Byte>) returns (copied: nat)
    requires Inside(iovs, mem.Length)
    modifies mem
    ensures copied == Min(|tmp|, Size(iovs))
    ensures mem[..] == Scatter(old(mem[..]), iovs, tmp)
  {
    hide Scatter, Patch;
    var k: nat := 0;
    copied := 0;
    assert iovs[0..] == iovs && tmp[0..] == tmp;
    while copied < |tmp| && k < |iovs|
      invariant k <= |iovs| && copied <= |tmp|
      invariant copied + Min(|tmp| - copied, Size(iovs[k..])) == Min(|tmp|, Size(iovs))
      invariant Scatter(mem[..], iovs[k..], tmp[copied..]) == Scatter(old(mem[..]), iovs, tmp)
    {
      var toCopy := Min(iovs[k].len, |tmp| - copied);
      ScatterStep(mem[..], iovs, k, tmp[copied..]);
      assert tmp[copied..][..toCopy] == tmp[copied..copied + toCopy] && tmp[copied..][toCopy..] == tmp[copied + toCopy..];
      CopyIn(mem, iovs[k].base, tmp[copied..copied + toCopy]);
      copied, k := copied + toCopy, k + 1;
    }
    ScatterEnds(mem[..], iovs[k..], tmp[copied..]);
  }

  lemma ScatterEnds(m: seq<Byte>, iovs: seq<Iovec>, d: seq<Byte>)
    requires Inside(iovs, |m|) && (iovs == [] || d == [])
    ensures Scatter(m, iovs, d) == m
    ensures iovs == [] ==> Size(iovs) == 0
  {
    if d == [] {
      ScatterNone(m, iovs);
    }
  }

  /** tcmu_elasto_freadv_misaligned */
  method ReadvMisaligned(dev: Device, mem: array<Byte>, iovs: seq<Iovec>, off: nat, len: nat) returns (ret: int)
    requires dev.Aligned(off, len) && Inside(iovs, mem.Length) && len <= Size(iovs)
    modifies mem, dev`calls
    ensures ret <= 0 && dev.calls == old(dev.calls) + 1
    ensures ret == 0 <==> dev.works(old(dev.calls)) && off + len <= |dev.content|
    ensures ret == 0 ==> mem[..] == Scatter(old(mem[..]), iovs, dev.content[off..off + len])
  {
    var tmp;
    ret, tmp := dev.Read(off, len);
    if ret < 0 {
      return ret;
    }
    var copied := MemcpyIntoIovec(mem, iovs, tmp);
  }

  /** tcmu_elasto_freadv.  However the memory is divided, the regions together receive `len` bytes of
      the device. */
  method Readv(dev: Device, mem: array<Byte>, iovs: seq<Iovec>, off: nat, len: nat) returns (ret: int)
    requires dev.Aligned(off, len) && Inside(iovs, mem.Length) && len <= Size(iovs)
    modifies mem, dev`calls
    ensures ret <= 0
    ensures ret == 0 && len > 0 ==>
              && off + len <= |dev.content|
              && mem[..] == Scatter(old(mem[..]), iovs, dev.content[off..off + len])
    ensures ret == 0 && len == 0 ==> mem[..] == old(mem[..])
    ensures (forall k: nat :: dev.works(k)) && off + len <= |dev.content| ==> ret == 0
  {
    hide Scatter, Patch;
    var remaining: nat, at: nat, k: nat := len, off, 0;
    ghost var d := if off + len <= |dev.content| then dev.content[off..off + len] else [];
    ghost var inRange := off + len <= |dev.content|;
    assert iovs[0..] == iovs;
    assert inRange ==> dev.content[off..off + len] == d;
    while remaining != 0
      invariant at + remaining == off + len && off <= at && k <= |iovs|
      invariant dev.Aligned(at, remaining) && (at - off) % dev.blockSize == 0
      invariant remaining <= Size(iovs[k..])
      invariant at > off ==> at <= |dev.content|
      invariant at == off ==> mem[..] == old(mem[..])
      invariant inRange ==> Scatter(mem[..], iovs[k..], dev.content[at..at + remaining]) == Scatter(old(mem[..]), iovs, d)
      decreases |iovs| - k
    {
      var toCopy := Min(remaining, iovs[k].len);
      WholeBlocks(remaining, toCopy, at, at - off, dev.blockSize);
      if toCopy % dev.blockSize != 0 {
        assert remaining % dev.blockSize == 0;
        ret := ReadvMisaligned(dev, mem, iovs[k..], at, remaining);
        return ret;
      }
      ret := ReadRegion(dev, mem, iovs, k, at, toCopy, remaining);
      if ret < 0 {
        return ret;
      }
      remaining, at, k := remaining - toCopy, at + toCopy, k + 1;
    }
    if inRange {
      assert dev.content[at..at + 0] == [];
      ScatterEnds(mem[..], iovs[k..], []);
    }
    return 0;
  }

  /** elasto_fread of the part of the read that goes to region `k`. */
  method ReadRegion(dev: Device, mem: array<Byte>, iovs: seq<Iovec>, k: nat, at: nat, toCopy: nat, ghost remaining: nat)
    returns (ret: int)
    requires Inside(iovs, mem.Length) && k < |iovs| && toCopy == Min(remaining, iovs[k].len)
    requires dev.Aligned(at, toCopy)
    modifies mem, dev`calls
    ensures ret <= 0 && dev.calls == old(dev.calls) + 1
    ensures ret == 0 <==> dev.works(old(dev.calls)) && at + toCopy <= |dev.content|
    ensures ret != 0 || toCopy == 0 ==> mem[..] == old(mem[..])
    ensures Size(iovs[k..]) == iovs[k].len + Size(iovs[k + 1..])
    ensures ret == 0 && at + remaining <= |dev.content| ==>
              Scatter(mem[..], iovs[k + 1..], dev.content[at + toCopy..at + remaining])
              == Scatter(old(mem[..]), iovs[k..], dev.content[at..at + remaining])
  {
    hide Scatter;
    ghost var m := mem[..];
    ScatterStep(m, iovs, k, []);
    var d;
    ret, d := dev.Read(at, toCopy);
    if ret < 0 {
      return ret;
    }
    if at + remaining <= |dev.content| {
      ghost var rest := dev.content[at..at + remaining];
      ScatterStep(m, iovs, k, rest);
      assert rest[..toCopy] == d && rest[toCopy..] == dev.content[at + toCopy..at + remaining];
    }
    CopyIn(mem, iovs[k].base, d);
  }

  /** A write and a read of the same blocks transfer the same bytes, whatever the two divisions of
      memory. */
  method WriteThenRead(dev: Device, mem: array<Byte>, from: seq<Iovec>, to: seq<Iovec>, off: nat, len: nat)
    returns (wrote: int, read: int)
    requires dev.Aligned(off, len) && Inside(from, mem.Length) && Inside(to, mem.Length) && Apart(to)
    requires len <= Size(from) && len <= Size(to)
    modifies dev, mem
    ensures wrote == 0 && read == 0 ==> Flat(mem[..], to, len) == Flat(old(mem[..]), from, len)
    ensures (forall k: nat :: dev.works(k)) && off + len <= |old(dev.content)| ==> wrote == 0 && read == 0
  {
    hide Scatter, Patch, Flat;
    ghost var m, d, content := mem[..], Flat(mem[..], from, len), dev.content;
    FlatSize(m, from, len);
    FlatSize(m, to, len);
    read := -EIO;
    ghost var done;
    wrote, done := Writev(dev, mem, from, off, len);
    if wrote == 0 {
      read := Readv(dev, mem, to, off, len);
      if read == 0 && len > 0 {
        assert d[..len] == d;
        SlicePatched(content, off, d);
        GatherOfScatter(m, to, d);
      }
    }
  }
}
