/** Writing an Azure block blob: lib/file/azure/apb_io.c with the put requests of
    lib/azure_blob_req.c, against a server that keeps uncommitted blocks beside the blob's content.
    Requests reach the server one after another and nobody else writes the blob. */
module BlockBlob {
  import opened Basics
  import opened Chunks
  import opened Strings
  import opened BlockList
  import opened BlockListReader

  // ------------------------------------------------------------ the server

  const BLOB_BLOCK_MAX := 4 * 1024 * 1024
  const BLOCK_ID_MAX := 64
  const UNCOMMITTED_MAX := 100_000

  datatype Blob = Blob(content: seq<Byte>, uncommitted: map<string, seq<Byte>>)

  datatype Request =
    | BlockPut(id: string, data: seq<Byte>)
    | BlockListPut(text: string)
    | BlobPut(data: seq<Byte>)

  /** A block needs an id as long as every other staged id and a free place among the uncommitted
      blocks; the body of a block list must be readable and may only name staged blocks, the one kind
      this client names. */
  predicate Accepts(b: Blob, r: Request) {
    match r
    case BlockPut(id, data) =>
      && |id| <= BLOCK_ID_MAX && |data| <= BLOB_BLOCK_MAX
      && (forall u <- b.uncommitted :: |u| == |id|)
      && (id in b.uncommitted || |b.uncommitted| < UNCOMMITTED_MAX)
    case BlockListPut(text) => ReadBody(text).Some? && Available(ReadBody(text).value, b.uncommitted)
    case BlobPut(_) => true
  }

  predicate Available(blocks: seq<Listed>, m: map<string, seq<Byte>>) {
    forall i | 0 <= i < |blocks| :: blocks[i].from == AmongUncommitted && blocks[i].id in m
  }

  /** The listed blocks joined in list order. */
  function Assembled(blocks: seq<Listed>, m: map<string, seq<Byte>>): seq<Byte>
    requires Available(blocks, m)
  {
    if blocks == [] then [] else m[blocks[0].id] + Assembled(blocks[1..], m)
  }

  function Applied(b: Blob, r: Request): Blob
    requires Accepts(b, r)
  {
    match r
    case BlockPut(id, data) => b.(uncommitted := b.uncommitted[id := data])
    case BlockListPut(text) => Blob(Assembled(ReadBody(text).value, b.uncommitted), map[])
    case BlobPut(data) => Blob(data, map[])
  }

  function Effect(b: Blob, r: Request, o: Outcome): Blob {
    if o.Refused? || !Accepts(b, r) then b else Applied(b, r)
  }

  predicate Acknowledged(b: Blob, r: Request, o: Outcome) {
    o.Delivered? && Accepts(b, r)
  }

  class Connection {
    const net: nat -> Outcome
    var sent: nat
    var blob: Blob
    /** Every content the blob has had since the connection was made, one entry per commit. */
    ghost var versions: seq<seq<Byte>>
    ghost var log: seq<Request>

    constructor (net: nat -> Outcome, blob: Blob)
      ensures this.net == net && this.blob == blob && sent == 0 && versions == [] && log == []
    {
      this.net := net;
      this.blob := blob;
      sent := 0;
      versions, log := [], [];
    }

    /** elasto_fop_send_recv of one put request. */
    method SendRecv(r: Request) returns (ret: int)
      modifies this
      ensures sent == old(sent) + 1 && log == old(log) + [r]
      ensures blob == Effect(old(blob), r, net(old(sent)))
      ensures ret == 0 <==> Acknowledged(old(blob), r, net(old(sent)))
      ensures ret <= 0
      ensures versions == if r.BlockPut? || net(old(sent)).Refused? || !Accepts(old(blob), r) then old(versions)
                          else old(versions) + [blob.content]
    {
      var outcome := net(sent);
      ret := if Acknowledged(blob, r, outcome) then 0 else -EIO;
      if !outcome.Refused? && Accepts(blob, r) {
        blob := Applied(blob, r);
        if !r.BlockPut? {
          versions := versions + [blob.content];
        }
      }
      sent, log := sent + 1, log + [r];
    }

    /** The size abb_fstat reports when the blob can be reached. */
    method Stat() returns (ret: int, size: nat)
      modifies this`sent
      ensures sent == old(sent) + 1
      ensures ret == 0 <==> net(old(sent)).Delivered?
      ensures ret <= 0
      ensures ret == 0 ==> size == |blob.content|
    {
      ret, size := if net(sent).Delivered? then 0 else -EIO, |blob.content|;
      sent := sent + 1;
    }
  }

  // ------------------------------------------------------------ block ids

  function Digits(n: nat, width: nat): (s: CString)
    ensures |s| == width
  {
    if width == 0 then "" else Digits(n / 10, width - 1) + ['0' + (n % 10) as char]
  }

  function Power10(w: nat): (p: nat)
    ensures p > 0
  {
    if w == 0 then 1 else 10 * Power10(w - 1)
  }

  lemma {:induction false} DigitsInjective(m: nat, n: nat, width: nat)
    requires m < Power10(width) && n < Power10(width)
    requires Digits(m, width) == Digits(n, width)
    ensures m == n
  {
    if width > 0 {
      var s, t := Digits(m, width), Digits(n, width);
      assert s[..width - 1] == Digits(m / 10, width - 1) && t[..width - 1] == Digits(n / 10, width - 1);
      assert s[width - 1] == '0' + (m % 10) as char && t[width - 1] == '0' + (n % 10) as char;
      DigitsInjective(m / 10, n / 10, width - 1);
    }
  }

  /** "block%06d" */
  function BlockId(n: nat): (s: CString)
    requires n < 1_000_000
    ensures |s| == 11
  {
    "block" + Digits(n, 6)
  }

  lemma {:induction false} DigitsAre(n: nat, width: nat)
    requires n < Power10(width)
    ensures Number(Digits(n, width)) == n && forall c | c in Digits(n, width) :: '0' <= c <= '9'
  {
    if width > 0 {
      DigitsAre(n / 10, width - 1);
      assert Digits(n, width)[..width - 1] == Digits(n / 10, width - 1);
    }
  }

  /** An id is "block" and the number in six decimal digits. */
  lemma BlockIdIs(n: nat)
    requires n < 1_000_000
    ensures var id := BlockId(n);
            id[..5] == "block" && |id| == 11 && Number(id[5..]) == n && forall c | c in id[5..] :: '0' <= c <= '9'
  {
    hide Digits, Number;
    assert BlockId(n)[5..] == Digits(n, 6);
    SixDigits();
    DigitsAre(n, 6);
  }

  lemma SixDigits()
    ensures Power10(6) == 1_000_000
  {
    assert Power10(6) == 10 * (10 * (10 * (10 * (10 * (10 * Power10(0))))));
  }

  /** Ids of different blocks differ. */
  lemma BlockIds(m: nat, n: nat)
    requires m < 1_000_000 && n < 1_000_000
    ensures BlockId(m) == BlockId(n) <==> m == n
  {
    if BlockId(m) == BlockId(n) {
      assert BlockId(m)[5..] == Digits(m, 6) && BlockId(n)[5..] == Digits(n, 6);
      SixDigits();
      DigitsInjective(m, n, 6);
    }
  }

  // ------------------------------------------------------------ staging blocks

  function Staged(n: nat): (bs: seq<AzureBlock>)
    requires n <= 1_000_000
  {
    seq(n, k requires 0 <= k < n => AzureBlock(BlockId(k), Uncommitted))
  }

  /** What the service must read from the list of the first `n` blocks. */
  function Wanted(n: nat): (ls: seq<Listed>)
    requires n <= 1_000_000
  {
    seq(n, k requires 0 <= k < n => Listed(BlockId(k), AmongUncommitted))
  }

  /** It does read that. */
  lemma StagedReadsBack(n: nat)
    requires n <= 1_000_000
    ensures ReadBody(Body(Staged(n))) == Some(Wanted(n))
  {
    hide BlockId, ReadBody, Body;
    BodyReadsBack(Staged(n));
    assert AllMeant(Staged(n)) == Wanted(n);
  }

  /** The first `n` blocks are on the server and hold `data`. */
  ghost predicate Holds(b: Blob, n: nat, data: seq<Byte>)
    requires n <= 1_000_000
  {
    Available(Wanted(n), b.uncommitted) && Assembled(Wanted(n), b.uncommitted) == data
  }

  lemma {:induction false} AssembledMore(ls: seq<Listed>, m: map<string, seq<Byte>>, id: string, data: seq<Byte>)
    requires Available(ls, m)
    requires forall i | 0 <= i < |ls| :: ls[i].id != id
    ensures Available(ls + [Listed(id, AmongUncommitted)], m[id := data])
    ensures Assembled(ls + [Listed(id, AmongUncommitted)], m[id := data]) == Assembled(ls, m) + data
  {
    var last := Listed(id, AmongUncommitted);
    if ls == [] {
      assert Assembled([last], m[id := data]) == data + Assembled([last][1..], m[id := data]);
    } else {
      AssembledMore(ls[1..], m, id, data);
      assert (ls + [last])[1..] == ls[1..] + [last];
    }
  }

  lemma StagedNext(b: Blob, n: nat, data: seq<Byte>, piece: seq<Byte>)
    requires n < 1_000_000 && Holds(b, n, data)
    ensures Holds(b.(uncommitted := b.uncommitted[BlockId(n) := piece]), n + 1, data + piece)
  {
    hide Available, Assembled;
    assert Wanted(n + 1) == Wanted(n) + [Listed(BlockId(n), AmongUncommitted)];
    forall i | 0 <= i < n ensures Wanted(n)[i].id != BlockId(n) {
      BlockIds(i, n);
    }
    AssembledMore(Wanted(n), b.uncommitted, BlockId(n), piece);
  }

  ghost predicate IsOurs(u: string, n: nat)
    requires n <= 1_000_000
  {
    exists k :: 0 <= k < n && u == BlockId(k)
  }

  lemma OursGrow(u: string, n: nat)
    requires n < 1_000_000
    ensures IsOurs(u, n) ==> IsOurs(u, n + 1) && |u| == 11
    ensures IsOurs(BlockId(n), n + 1)
    ensures !IsOurs(BlockId(n), n)
  {
    assert 0 <= n < n + 1 && BlockId(n) == BlockId(n);
    forall k | 0 <= k < n ensures BlockId(k) != BlockId(n) {
      BlockIds(k, n);
    }
  }

  /** Nothing but the first `n` blocks of this upload is staged. */
  ghost predicate OnlyOurs(b: Blob, n: nat)
    requires n <= 1_000_000
  {
    |b.uncommitted| == n && forall u <- b.uncommitted :: IsOurs(u, n)
  }

  lemma SizeNext(m: map<string, seq<Byte>>, id: string, piece: seq<Byte>)
    requires id !in m
    ensures |m[id := piece]| == |m| + 1
  {
    assert m[id := piece].Keys == m.Keys + {id};
    assert |m[id := piece].Keys| == |m.Keys| + 1;
  }

  lemma OnlyOursNext(b: Blob, n: nat, piece: seq<Byte>)
    requires n < 1_000_000 && OnlyOurs(b, n)
    ensures OnlyOurs(b.(uncommitted := b.uncommitted[BlockId(n) := piece]), n + 1)
  {
    var m := b.uncommitted[BlockId(n) := piece];
    OursGrow(BlockId(n), n);
    SizeNext(b.uncommitted, BlockId(n), piece);
    forall u | u in m ensures IsOurs(u, n + 1) {
      OursGrow(u, n);
    }
  }

  lemma OnlyOursAccepted(b: Blob, n: nat, piece: seq<Byte>)
    requires n < 1_000_000 && OnlyOurs(b, n) && |piece| <= BLOB_BLOCK_MAX
    ensures Accepts(b, BlockPut(BlockId(n), piece)) <==> n < UNCOMMITTED_MAX
  {
    OursGrow(BlockId(n), n);
    forall u | u in b.uncommitted ensures |u| == 11 {
      OursGrow(u, n);
    }
  }

  // ------------------------------------------------------------ abb_fwrite_multi

  const INT64_MAX := 0x7fff_ffff_ffff_ffff
  const ABB_MAX_PART := 4 * 1024 * 1024

  /** abb_fwrite_multi_handle: one block is put, unless it is too long or not covered by the source. */
  method PutBlock(conn: Connection, blkNum: nat, src: seq<Byte>, off: nat, len: nat)
    returns (ret: int, blk: AzureBlock)
    requires blkNum < 1_000_000
    modifies conn
    ensures ret <= 0
    ensures !Sendable(src, off, len, BLOB_BLOCK_MAX) ==> ret != 0 && unchanged(conn)
    ensures Sendable(src, off, len, BLOB_BLOCK_MAX) ==>
              var r := BlockPut(BlockId(blkNum), src[off..off + len]);
              && conn.sent == old(conn.sent) + 1 && conn.log == old(conn.log) + [r]
              && conn.blob == Effect(old(conn.blob), r, conn.net(old(conn.sent)))
              && (ret == 0 <==> Acknowledged(old(conn.blob), r, conn.net(old(conn.sent))))
              && conn.versions == old(conn.versions)
    ensures blk == AzureBlock(BlockId(blkNum), Uncommitted)
  {
    blk := AzureBlock(BlockId(blkNum), Uncommitted);
    if |blk.id| > BLOCK_ID_MAX || len > BLOB_BLOCK_MAX {
      return -EINVAL, blk;
    }
    var out;
    ret, out := DataOut(src, off, 0, len, ABB_MAX_PART);
    if ret < 0 {
      return -EIO, blk;
    }
    ret := conn.SendRecv(BlockPut(blk.id, out));
  }

  /** The client's guard: more than 100000 whole blocks are refused. */
  predicate Admitted(destLen: nat, maxIo: nat)
    requires maxIo > 0
  {
    destLen / maxIo <= 100_000 && destLen <= INT64_MAX
  }

  /** So a write has at most 100001 blocks, one more than a blob can have uncommitted; it has that
      many exactly when 100000 whole blocks leave a remainder. */
  lemma BlockCount(destLen: nat, maxIo: nat)
    requires maxIo > 0 && Admitted(destLen, maxIo)
    ensures CeilDiv(destLen, maxIo) <= 100_001
    ensures CeilDiv(destLen, maxIo) == 100_001 <==> destLen / maxIo == 100_000 && destLen % maxIo != 0
  {
  }

  /** The requests that stage `ps` as blocks 0, 1, ... */
  ghost function Puts(ps: seq<seq<Byte>>): seq<Request>
    requires |ps| <= 1_000_000
  {
    seq(|ps|, k requires 0 <= k < |ps| => BlockPut(BlockId(k), ps[k]))
  }

  /** When every block can be staged on a blob without uncommitted blocks. */
  predicate Stageable(destOff: nat, destLen: nat, src: seq<Byte>, maxIo: nat)
    requires maxIo > 0
  {
    && (destLen > 0 ==> destOff + destLen <= |src|)
    && Min(maxIo, destLen) <= BLOB_BLOCK_MAX
    && CeilDiv(destLen, maxIo) <= UNCOMMITTED_MAX
  }

  /** The pieces `done` are staged as the first blocks, and nothing else happened since `blob0`, `log0`. */
  ghost predicate Uploaded(blob0: Blob, log0: seq<Request>, blob: Blob, log: seq<Request>, done: seq<seq<Byte>>) {
    && |done| <= 1_000_000
    && blob.content == blob0.content
    && Holds(blob, |done|, Flatten(done))
    && log == log0 + Puts(done)
  }

  lemma UploadedNone(blob: Blob, log: seq<Request>)
    ensures Uploaded(blob, log, blob, log, [])
  {
    assert log + Puts([]) == log;
  }

  lemma UploadedNext(blob0: Blob, log0: seq<Request>, blob: Blob, log: seq<Request>, done: seq<seq<Byte>>, piece: seq<Byte>)
    requires |done| < 1_000_000 && Uploaded(blob0, log0, blob, log, done)
    requires Accepts(blob, BlockPut(BlockId(|done|), piece))
    ensures var r := BlockPut(BlockId(|done|), piece);
            Uploaded(blob0, log0, Applied(blob, r), log + [r], done + [piece])
  {
    StagedNext(blob, |done|, Flatten(done), piece);
    FlattenSnoc(done, piece);
    PutsNext(log0, done, piece);
  }

  lemma PutsNext(log0: seq<Request>, ps: seq<seq<Byte>>, piece: seq<Byte>)
    requires |ps| < 1_000_000
    ensures log0 + Puts(ps + [piece]) == (log0 + Puts(ps)) + [BlockPut(BlockId(|ps|), piece)]
  {
    assert Puts(ps + [piece]) == Puts(ps) + [BlockPut(BlockId(|ps|), piece)];
  }

  lemma StagedSnoc(n: nat)
    requires n < 1_000_000
    ensures Staged(n) + [AzureBlock(BlockId(n), Uncommitted)] == Staged(n + 1)
  {
  }

  /** On a blob that held no other blocks, a block that cannot be put means the write cannot be staged. */
  lemma StagingFails(b: Blob, src: seq<Byte>, destOff: nat, destLen: nat, maxIo: nat, off: nat, done: seq<seq<Byte>>,
                     piece: seq<Byte>)
    requires maxIo > 0 && off < destLen && Cut(src, destOff, destLen, maxIo, BLOB_BLOCK_MAX, off, done)
    requires |done| < 1_000_000 && OnlyOurs(b, |done|)
    requires Sendable(src, destOff + off, Min(maxIo, destLen - off), BLOB_BLOCK_MAX) ==>
               |piece| <= BLOB_BLOCK_MAX && !Accepts(b, BlockPut(BlockId(|done|), piece))
    ensures !Stageable(destOff, destLen, src, maxIo)
  {
    CeilStep(destLen - off, maxIo);
    if Sendable(src, destOff + off, Min(maxIo, destLen - off), BLOB_BLOCK_MAX) {
      OnlyOursAccepted(b, |done|, piece);
    }
  }

  lemma StagingSucceeds(src: seq<Byte>, destOff: nat, destLen: nat, maxIo: nat, done: seq<seq<Byte>>)
    requires maxIo > 0 && Cut(src, destOff, destLen, maxIo, BLOB_BLOCK_MAX, destLen, done)
    requires |done| <= UNCOMMITTED_MAX
    ensures Stageable(destOff, destLen, src, maxIo)
  {
    CutAll(src, destOff, destLen, maxIo, BLOB_BLOCK_MAX, done);
  }

  /** One turn of the upload loop: the next piece is staged, or the write cannot go on. */
  method StageOne(conn: Connection, ghost blob0: Blob, ghost log0: seq<Request>, destOff: nat, destLen: nat,
                  src: seq<Byte>, maxIo: nat, off: nat, blkNum: nat, ghost done: seq<seq<Byte>>)
    returns (ret: int, blk: AzureBlock, thisLen: nat, ghost done': seq<seq<Byte>>)
    requires maxIo > 0 && off < destLen && |done| == blkNum < 1_000_000
    requires Cut(src, destOff, destLen, maxIo, BLOB_BLOCK_MAX, off, done)
    requires Uploaded(blob0, log0, conn.blob, conn.log, done)
    modifies conn
    ensures ret <= 0 && blk == AzureBlock(BlockId(blkNum), Uncommitted)
    ensures conn.versions == old(conn.versions) && conn.blob.content == old(conn.blob.content)
    ensures ret == 0 ==> |done'| == blkNum + 1 && 0 < thisLen <= destLen - off
    ensures ret == 0 ==> Cut(src, destOff, destLen, maxIo, BLOB_BLOCK_MAX, off + thisLen, done')
    ensures ret == 0 ==> Uploaded(blob0, log0, conn.blob, conn.log, done')
    ensures AllDelivered(conn.net) && OnlyOurs(old(conn.blob), blkNum) ==>
              if ret == 0 then OnlyOurs(conn.blob, blkNum + 1) && blkNum < UNCOMMITTED_MAX
              else !Stageable(destOff, destLen, src, maxIo)
  {
    hide Cut, Uploaded, Stageable, OnlyOurs;
    thisLen := Min(maxIo, destLen - off);
    ghost var piece := if destOff + off + thisLen <= |src| then src[destOff + off..destOff + off + thisLen] else [];
    ghost var blob, log := conn.blob, conn.log;
    done' := done + [piece];
    ret, blk := PutBlock(conn, blkNum, src, destOff + off, thisLen);
    if ret == 0 {
      UploadedNext(blob0, log0, blob, log, done, piece);
      CutNext(src, destOff, destLen, maxIo, BLOB_BLOCK_MAX, off, done);
    }
    if AllDelivered(conn.net) && OnlyOurs(blob, blkNum) {
      if ret == 0 {
        OnlyOursNext(blob, blkNum, piece);
        OnlyOursAccepted(blob, blkNum, piece);
      } else {
        StagingFails(blob, src, destOff, destLen, maxIo, off, done, piece);
      }
    }
  }

  /** The loop of abb_fwrite_multi. */
  method StageBlocks(conn: Connection, destOff: nat, destLen: nat, src: seq<Byte>, maxIo: nat)
    returns (ret: int, blks: seq<AzureBlock>)
    requires maxIo > 0 && Admitted(destLen, maxIo)
    modifies conn
    ensures ret <= 0
    ensures conn.blob.content == old(conn.blob.content) && conn.versions == old(conn.versions)
    ensures ret == 0 ==>
              && (destLen > 0 ==> destOff + destLen <= |src|)
              && |blks| == CeilDiv(destLen, maxIo) <= 100_001 && blks == Staged(|blks|)
              && |Pieces(Source(src, destOff, destLen), maxIo)| == |blks|
    ensures ret == 0 ==>
              Uploaded(old(conn.blob), old(conn.log), conn.blob, conn.log, Pieces(Source(src, destOff, destLen), maxIo))
    ensures AllDelivered(conn.net) && old(conn.blob.uncommitted) == map[] ==>
              (ret == 0 <==> Stageable(destOff, destLen, src, maxIo))
  {
    hide Cut, Uploaded, Stageable, Pieces, Source, CeilDiv, Admitted;
    var dataRemain: nat, dataOff: nat := destLen, 0;
    UploadedNone(conn.blob, conn.log);
    blks := [];
    ret := 0;
    ghost var ideal := AllDelivered(conn.net) && conn.blob.uncommitted == map[];
    ghost var done: seq<seq<Byte>> := [];
    BlockCount(destLen, maxIo);
    CutWhole(src, destOff, destLen, maxIo, BLOB_BLOCK_MAX);
    while dataRemain > 0
      invariant ret == 0 && dataOff + dataRemain == destLen
      invariant Cut(src, destOff, destLen, maxIo, BLOB_BLOCK_MAX, dataOff, done)
      invariant Uploaded(old(conn.blob), old(conn.log), conn.blob, conn.log, done)
      invariant conn.versions == old(conn.versions) && conn.blob.content == old(conn.blob.content)
      invariant |blks| == |done| <= 100_001 && blks == Staged(|done|)
      invariant ideal ==> OnlyOurs(conn.blob, |done|) && |done| <= UNCOMMITTED_MAX
    {
      var blk, thisLen;
      CutGoesOn(src, destOff, destLen, maxIo, BLOB_BLOCK_MAX, dataOff, done);
      StagedSnoc(|blks|);
      ret, blk, thisLen, done :=
        StageOne(conn, old(conn.blob), old(conn.log), destOff, destLen, src, maxIo, dataOff, |blks|, done);
      if ret < 0 {
        return ret, blks;
      }
      dataOff, dataRemain := dataOff + thisLen, dataRemain - thisLen;
      blks := blks + [blk];
    }
    CutAll(src, destOff, destLen, maxIo, BLOB_BLOCK_MAX, done);
    if ideal {
      StagingSucceeds(src, destOff, destLen, maxIo, done);
    }
  }

  lemma StagedFits(n: nat)
    requires n <= 1_000_000
    ensures ShortIds(Staged(n), 64) && ShortIds(Staged(n), INT_MAX / 4) && KnownStates(Staged(n))
    ensures |Body(Staged(n))| < Capacity(n)
  {
    BodyFits(Staged(n));
  }

  /** abb_fwrite_multi_finish: the list of `numBlks` blocks is committed. */
  method Finish(conn: Connection, numBlks: nat, blks: seq<AzureBlock>) returns (ret: int)
    requires numBlks <= 1_000_000 && blks == Staged(numBlks)
    modifies conn
    ensures ret <= 0
    ensures var r := BlockListPut(Body(blks));
            && conn.log == old(conn.log) + [r]
            && conn.blob == Effect(old(conn.blob), r, conn.net(old(conn.sent)))
            && (ret == 0 <==> Acknowledged(old(conn.blob), r, conn.net(old(conn.sent))))
            && conn.versions == if conn.net(old(conn.sent)).Refused? || !Accepts(old(conn.blob), r) then old(conn.versions)
                                else old(conn.versions) + [conn.blob.content]
  {
    hide Body, Capacity, Staged, Accepts, Applied;
    StagedFits(numBlks);
    var buf, len;
    ret, buf, len := BodyFill(numBlks, blks);
    if ret < 0 {
      return ret;
    }
    ret := conn.SendRecv(BlockListPut(buf[..len]));
  }

  lemma Commit(blob0: Blob, log0: seq<Request>, blob: Blob, log: seq<Request>, src: seq<Byte>, maxIo: nat)
    requires maxIo > 0 && |Pieces(src, maxIo)| <= 1_000_000
    requires Uploaded(blob0, log0, blob, log, Pieces(src, maxIo))
    ensures var r := BlockListPut(Body(Staged(|Pieces(src, maxIo)|)));
            && Accepts(blob, r) && Applied(blob, r) == Blob(src, map[])
            && log + [r] == log0 + (Puts(Pieces(src, maxIo)) + [r])
  {
    hide ReadBody, Body, Staged, Wanted, Available, Assembled, Puts, Pieces;
    PiecesJoin(src, maxIo);
    StagedReadsBack(|Pieces(src, maxIo)|);
  }

  /** What a successful upload has sent: block k carries the k-th stretch of `maxIo` bytes of the source. */
  lemma PutRequests(log0: seq<Request>, src: seq<Byte>, destOff: nat, destLen: nat, maxIo: nat, k: nat)
    requires maxIo > 0 && destOff + destLen <= |src|
    requires var ps := Pieces(Source(src, destOff, destLen), maxIo); k < |ps| <= 100_001
    ensures 0 <= k * maxIo < destLen
    ensures (log0 + Puts(Pieces(Source(src, destOff, destLen), maxIo)))[|log0| + k]
         == BlockPut(BlockId(k), src[destOff + k * maxIo..destOff + Min(k * maxIo + maxIo, destLen)])
  {
    hide Pieces, Source, BlockId;
    PieceAt(Source(src, destOff, destLen), maxIo, k);
    var from, to := k * maxIo, Min(k * maxIo + maxIo, destLen);
    SourceSlice(src, destOff, destLen, from, to - from);
    assert (log0 + Puts(Pieces(Source(src, destOff, destLen), maxIo)))[|log0| + k]
        == Puts(Pieces(Source(src, destOff, destLen), maxIo))[k];
  }

  /** The write as a whole is atomic: success leaves exactly the source bytes, put as numbered blocks
      of at most `maxIo` bytes and committed in order; after a failure the blob holds its old content
      or the complete new one, and at no time did it hold anything else. */
  method FwriteMulti(conn: Connection, destOff: nat, destLen: nat, src: seq<Byte>, maxIo: nat) returns (ret: int)
    requires maxIo > 0
    modifies conn
    ensures ret <= 0
    ensures !Admitted(destLen, maxIo) ==> ret == -EINVAL && unchanged(conn)
    ensures ret == 0 ==>
              && (destLen > 0 ==> destOff + destLen <= |src|)
              && conn.blob == Blob(Source(src, destOff, destLen), map[])
              && |Pieces(Source(src, destOff, destLen), maxIo)| <= 100_001
              && conn.log == old(conn.log) + (Puts(Pieces(Source(src, destOff, destLen), maxIo))
                             + [BlockListPut(Body(Staged(|Pieces(Source(src, destOff, destLen), maxIo)|)))])
    ensures if conn.versions == old(conn.versions) then ret != 0 && conn.blob.content == old(conn.blob.content)
            else && conn.versions == old(conn.versions) + [Source(src, destOff, destLen)]
                 && conn.blob.content == Source(src, destOff, destLen)
                 && (destLen > 0 ==> destOff + destLen <= |src|)
    ensures AllDelivered(conn.net) && old(conn.blob.uncommitted) == map[] ==>
              (ret == 0 <==> Admitted(destLen, maxIo) && Stageable(destOff, destLen, src, maxIo))
  {
    hide Uploaded, Stageable, Puts, Pieces, Staged, Applied, Accepts, Body;
    if destLen / maxIo > 100_000 || destLen > INT64_MAX {
      return -EINVAL;
    }
    var blks;
    ret, blks := StageBlocks(conn, destOff, destLen, src, maxIo);
    if ret < 0 {
      return ret;
    }
    ghost var source := Source(src, destOff, destLen);
    Commit(old(conn.blob), old(conn.log), conn.blob, conn.log, source, maxIo);
    ret := Finish(conn, |blks|, blks);
  }

  // ------------------------------------------------------------ abb_fwrite

  /** ABB_IO_SIZE_HTTP and ABB_IO_SIZE_HTTPS */
  const ABB_IO_SIZE := 2 * 1024 * 1024

  lemma SmallWrite(src: seq<Byte>)
    requires |src| <= ABB_IO_SIZE
    ensures Admitted(|src|, ABB_IO_SIZE) && Stageable(0, |src|, src, ABB_IO_SIZE)
  {
    if 0 < |src| < ABB_IO_SIZE {
      QuotientIs(|src|, ABB_IO_SIZE, 0, |src|);
    }
  }

  /** Writes `src`, which the file layer makes `destLen` bytes long, over the whole blob: what is
      there is kept or replaced in one step by all of `src`, and never gets shorter. */
  method Fwrite(conn: Connection, destOff: nat, destLen: nat, src: seq<Byte>) returns (ret: int)
    requires |src| == destLen
    modifies conn
    ensures ret <= 0
    ensures destLen == 0 ==> ret == 0 && unchanged(conn)
    ensures destLen > 0 && destOff != 0 ==> ret == -EINVAL && unchanged(conn)
    ensures destLen > 0 && ret == 0 ==> conn.blob == Blob(src, map[]) && conn.versions == old(conn.versions) + [src]
    ensures conn.versions == old(conn.versions) || conn.versions == old(conn.versions) + [src]
    ensures conn.blob.content == if conn.versions == old(conn.versions) then old(conn.blob.content) else src
    ensures |conn.blob.content| >= |old(conn.blob.content)|
    ensures AllDelivered(conn.net) && old(conn.blob.uncommitted) == map[] ==>
              (ret == 0 <==>
               destLen == 0 || (destOff == 0 && |old(conn.blob.content)| <= destLen
                                && Admitted(destLen, ABB_IO_SIZE) && CeilDiv(destLen, ABB_IO_SIZE) <= UNCOMMITTED_MAX))
  {
    if destLen == 0 {
      return 0;
    }
    if destOff != 0 {
      return -EINVAL;
    }
    var size;
    ret, size := conn.Stat();
    if ret < 0 {
      return ret;
    }
    if size > destLen {
      return -EINVAL;
    }
    var maxIo := ABB_IO_SIZE;
    if destLen > maxIo {
      ret := FwriteMulti(conn, destOff, destLen, src, maxIo);
      assert src[0..destLen] == src;
      return ret;
    }
    SmallWrite(src);
    ret := conn.SendRecv(BlobPut(src));
  }
}
