/** Writing an S3 object: lib/file/amazon/s3_io.c with the part request of lib/s3_req.c, against a
    server that keeps multipart uploads beside the object's content.  Requests reach the server one
    after another and nobody else writes the object. */
module S3Object {
  import opened Basics
  import opened Chunks

  // ------------------------------------------------------------ the server

  const S3_MAX_PART := 5 * 1024 * 1024
  const PART_NUMBER_MAX := 10_000

  /** A stored part; the etag tells the bytes stored under one part number at different times apart. */
  datatype Stored = Stored(etag: nat, data: seq<Byte>)

  datatype Bucket = Bucket(content: seq<Byte>, uploads: map<nat, map<nat, Stored>>, nextId: nat, nextTag: nat)

  datatype Part = Part(pnum: nat, etag: nat)

  datatype Request =
    | Start
    | PartPut(uid: nat, pnum: nat, data: seq<Byte>)
    | Complete(uid: nat, parts: seq<Part>)
    | Abort(uid: nat)
    | ObjPut(data: seq<Byte>)

  /** The listed parts are stored under their numbers with the etags given. */
  predicate Matches(parts: seq<Part>, stored: map<nat, Stored>) {
    forall i | 0 <= i < |parts| :: parts[i].pnum in stored && stored[parts[i].pnum].etag == parts[i].etag
  }

  predicate Ascending(parts: seq<Part>) {
    forall i | 0 < i < |parts| :: parts[i - 1].pnum < parts[i].pnum
  }

  /** Only the last part may be smaller than 5MB. */
  predicate LargeEnough(parts: seq<Part>, stored: map<nat, Stored>)
    requires Matches(parts, stored)
  {
    forall i | 0 <= i < |parts| - 1 :: |stored[parts[i].pnum].data| >= S3_MAX_PART
  }

  predicate Accepts(b: Bucket, r: Request) {
    match r
    case Start => true
    case PartPut(uid, pnum, data) => uid in b.uploads && 1 <= pnum <= PART_NUMBER_MAX
    case Complete(uid, parts) =>
      && uid in b.uploads && parts != [] && Ascending(parts)
      && Matches(parts, b.uploads[uid]) && LargeEnough(parts, b.uploads[uid])
    case Abort(uid) => uid in b.uploads
    case ObjPut(_) => true
  }

  function Joined(parts: seq<Part>, stored: map<nat, Stored>): seq<Byte>
    requires Matches(parts, stored)
  {
    if parts == [] then [] else stored[parts[0].pnum].data + Joined(parts[1..], stored)
  }

  function WithPart(stored: map<nat, Stored>, pnum: nat, part: Stored): map<nat, Stored> {
    stored[pnum := part]
  }

  function Applied(b: Bucket, r: Request): Bucket
    requires Accepts(b, r)
  {
    match r
    case Start => b.(uploads := b.uploads[b.nextId := map[]], nextId := b.nextId + 1)
    case PartPut(uid, pnum, data) =>
      b.(uploads := b.uploads[uid := WithPart(b.uploads[uid], pnum, Stored(b.nextTag, data))], nextTag := b.nextTag + 1)
    case Complete(uid, parts) => b.(content := Joined(parts, b.uploads[uid]), uploads := b.uploads - {uid})
    case Abort(uid) => b.(uploads := b.uploads - {uid})
    case ObjPut(data) => b.(content := data)
  }

  function Effect(b: Bucket, r: Request, o: Outcome): Bucket {
    if o.Refused? || !Accepts(b, r) then b else Applied(b, r)
  }

  predicate Acknowledged(b: Bucket, r: Request, o: Outcome) {
    o.Delivered? && Accepts(b, r)
  }

  /** The upload id or etag in a response. */
  function Answer(b: Bucket, r: Request): nat {
    if r.Start? then b.nextId else b.nextTag
  }

  predicate Overwrites(b: Bucket, r: Request, o: Outcome) {
    (r.Complete? || r.ObjPut?) && !o.Refused? && Accepts(b, r)
  }

  class Connection {
    const net: nat -> Outcome
    var sent: nat
    var bucket: Bucket
    /** Every content the object has had since the connection was made, one entry per overwrite. */
    ghost var versions: seq<seq<Byte>>
    ghost var log: seq<Request>

    constructor (net: nat -> Outcome, bucket: Bucket)
      ensures this.net == net && this.bucket == bucket && sent == 0 && versions == [] && log == []
    {
      this.net := net;
      this.bucket := bucket;
      sent := 0;
      versions, log := [], [];
    }

    /** elasto_fop_send_recv of one request. */
    method SendRecv(r: Request) returns (ret: int, answer: nat)
      modifies this
      ensures sent == old(sent) + 1 && log == old(log) + [r]
      ensures bucket == Effect(old(bucket), r, net(old(sent)))
      ensures ret == 0 <==> Acknowledged(old(bucket), r, net(old(sent)))
      ensures ret <= 0
      ensures answer == Answer(old(bucket), r)
      ensures versions == if Overwrites(old(bucket), r, net(old(sent))) then old(versions) + [bucket.content]
                          else old(versions)
    {
      hide Applied, Accepts;
      var outcome := net(sent);
      ret := if Acknowledged(bucket, r, outcome) then 0 else -EIO;
      answer := Answer(bucket, r);
      ghost var overwrites := Overwrites(bucket, r, outcome);
      bucket := Effect(bucket, r, outcome);
      versions := if overwrites then versions + [bucket.content] else versions;
      sent, log := sent + 1, log + [r];
    }

    /** The size s3_fstat reports when the object can be reached. */
    method Stat() returns (ret: int, size: nat)
      modifies this`sent
      ensures sent == old(sent) + 1
      ensures ret == 0 <==> net(old(sent)).Delivered?
      ensures ret <= 0
      ensures ret == 0 ==> size == |bucket.content|
    {
      ret, size := if net(sent).Delivered? then 0 else -EIO, |bucket.content|;
      sent := sent + 1;
    }
  }

  // ------------------------------------------------------------ parts

  /** Parts numbered from 1 in list order. */
  ghost predicate Numbered(parts: seq<Part>) {
    forall i | 0 <= i < |parts| :: parts[i].pnum == i + 1
  }

  /** The listed parts hold `done`, piece by piece. */
  ghost predicate Holds(parts: seq<Part>, stored: map<nat, Stored>, done: seq<seq<Byte>>) {
    && |parts| == |done| && Numbered(parts) && Matches(parts, stored)
    && forall i | 0 <= i < |done| :: stored[parts[i].pnum].data == done[i]
  }

  lemma HoldsNext(parts: seq<Part>, stored: map<nat, Stored>, done: seq<seq<Byte>>, tag: nat, piece: seq<Byte>)
    requires Holds(parts, stored, done)
    ensures Holds(parts + [Part(|parts| + 1, tag)], WithPart(stored, |parts| + 1, Stored(tag, piece)), done + [piece])
  {
  }

  lemma NumberedTail(parts: seq<Part>)
    requires Numbered(parts)
    ensures Ascending(parts)
  {
  }

  ghost predicate HoldsFrom(parts: seq<Part>, stored: map<nat, Stored>, done: seq<seq<Byte>>) {
    && |parts| == |done| && Matches(parts, stored)
    && forall i | 0 <= i < |done| :: stored[parts[i].pnum].data == done[i]
  }

  lemma {:induction false} JoinedIsFlat(parts: seq<Part>, stored: map<nat, Stored>, done: seq<seq<Byte>>)
    requires HoldsFrom(parts, stored, done)
    ensures Joined(parts, stored) == Flatten(done)
  {
    if parts != [] {
      JoinedIsFlat(parts[1..], stored, done[1..]);
      assert stored[parts[0].pnum].data == done[0];
    }
  }

  // ------------------------------------------------------------ s3_fwrite_multi

  /** s3_fwrite_multi_handle: one part is put, unless its number is out of range or the source lacks it. */
  method PutPart(conn: Connection, uid: nat, pnum: nat, src: seq<Byte>, off: nat, len: nat)
    returns (ret: int, part: Part)
    modifies conn
    ensures ret <= 0
    ensures !(1 <= pnum <= PART_NUMBER_MAX && Sendable(src, off, len, S3_MAX_PART)) ==> ret != 0 && unchanged(conn)
    ensures 1 <= pnum <= PART_NUMBER_MAX && Sendable(src, off, len, S3_MAX_PART) ==>
              var r := Request.PartPut(uid, pnum, src[off..off + len]);
              && conn.sent == old(conn.sent) + 1 && conn.log == old(conn.log) + [r]
              && conn.bucket == Effect(old(conn.bucket), r, conn.net(old(conn.sent)))
              && (ret == 0 <==> Acknowledged(old(conn.bucket), r, conn.net(old(conn.sent))))
              && conn.versions == old(conn.versions)
    ensures part == Part(pnum, old(conn.bucket).nextTag)
  {
    hide Applied, Accepts;
    part := Part(pnum, conn.bucket.nextTag);
    if pnum < 1 || pnum > PART_NUMBER_MAX {
      return -EINVAL, part;
    }
    var out, etag;
    ret, out := DataOut(src, off, 0, len, S3_MAX_PART);
    if ret < 0 {
      return -EIO, part;
    }
    ret, etag := conn.SendRecv(PartPut(uid, pnum, out));
    part := Part(pnum, etag);
  }

  /** The requests that store `ps` as parts 1, 2, ... of an upload. */
  ghost function PartPuts(uid: nat, ps: seq<seq<Byte>>): seq<Request> {
    seq(|ps|, k requires 0 <= k < |ps| => Request.PartPut(uid, k + 1, ps[k]))
  }

  /** The pieces `done` are stored as `parts` of the upload, and nothing else happened to the object. */
  ghost predicate Uploaded(b0: Bucket, log0: seq<Request>, uid: nat, b: Bucket, log: seq<Request>,
                           parts: seq<Part>, done: seq<seq<Byte>>)
  {
    && b.content == b0.content
    && uid in b.uploads && Holds(parts, b.uploads[uid], done)
    && log == log0 + PartPuts(uid, done)
  }

  lemma UploadedNone(b0: Bucket, log0: seq<Request>, b: Bucket, uid: nat)
    requires b.content == b0.content && uid in b.uploads
    ensures Uploaded(b0, log0, uid, b, log0, [], [])
  {
    assert log0 + PartPuts(uid, []) == log0;
  }

  lemma PartPutsNext(log0: seq<Request>, uid: nat, ps: seq<seq<Byte>>, piece: seq<Byte>)
    ensures log0 + PartPuts(uid, ps + [piece]) == (log0 + PartPuts(uid, ps)) + [Request.PartPut(uid, |ps| + 1, piece)]
  {
    assert PartPuts(uid, ps + [piece]) == PartPuts(uid, ps) + [Request.PartPut(uid, |ps| + 1, piece)];
  }

  lemma UploadedNext(b0: Bucket, log0: seq<Request>, uid: nat, b: Bucket, log: seq<Request>,
                     parts: seq<Part>, done: seq<seq<Byte>>, piece: seq<Byte>)
    requires Uploaded(b0, log0, uid, b, log, parts, done)
    requires |done| < PART_NUMBER_MAX
    ensures var r := Request.PartPut(uid, |done| + 1, piece);
            && Accepts(b, r)
            && Uploaded(b0, log0, uid, Applied(b, r), log + [r], parts + [Part(|done| + 1, b.nextTag)], done + [piece])
  {
    HoldsNext(parts, b.uploads[uid], done, b.nextTag, piece);
    PartPutsNext(log0, uid, done, piece);
  }

  /** When every part can be stored. */
  predicate Stageable(destOff: nat, destLen: nat, src: seq<Byte>, maxIo: nat)
    requires maxIo > 0
  {
    && (destLen > 0 ==> destOff + destLen <= |src|)
    && Min(maxIo, destLen) <= S3_MAX_PART
    && CeilDiv(destLen, maxIo) <= PART_NUMBER_MAX
  }

  lemma StagingFails(src: seq<Byte>, destOff: nat, destLen: nat, maxIo: nat, off: nat, done: seq<seq<Byte>>)
    requires maxIo > 0 && off < destLen && Cut(src, destOff, destLen, maxIo, S3_MAX_PART, off, done)
    requires !(|done| < PART_NUMBER_MAX && Sendable(src, destOff + off, Min(maxIo, destLen - off), S3_MAX_PART))
    ensures !Stageable(destOff, destLen, src, maxIo)
  {
    CeilStep(destLen - off, maxIo);
  }

  lemma StagingSucceeds(src: seq<Byte>, destOff: nat, destLen: nat, maxIo: nat, done: seq<seq<Byte>>)
    requires maxIo > 0 && Cut(src, destOff, destLen, maxIo, S3_MAX_PART, destLen, done)
    requires |done| <= PART_NUMBER_MAX
    ensures Stageable(destOff, destLen, src, maxIo)
  {
    CutAll(src, destOff, destLen, maxIo, S3_MAX_PART, done);
  }

  /** One turn of the upload loop: the next piece is stored as the next part, or the write gives up. */
  method StageOne(conn: Connection, ghost b0: Bucket, ghost log0: seq<Request>, uid: nat, destOff: nat, destLen: nat,
                  src: seq<Byte>, maxIo: nat, off: nat, ghost parts: seq<Part>, partNum: nat, ghost done: seq<seq<Byte>>)
    returns (ret: int, part: Part, thisLen: nat, ghost done': seq<seq<Byte>>)
    requires maxIo > 0 && off < destLen && |done| + 1 == partNum
    requires Cut(src, destOff, destLen, maxIo, S3_MAX_PART, off, done)
    requires Uploaded(b0, log0, uid, conn.bucket, conn.log, parts, done)
    modifies conn
    ensures ret <= 0 && conn.sent >= old(conn.sent)
    ensures conn.versions == old(conn.versions)
    ensures conn.bucket.content == b0.content && uid in conn.bucket.uploads
    ensures ret == 0 ==> |done'| == partNum <= PART_NUMBER_MAX && 0 < thisLen <= destLen - off
    ensures ret == 0 ==> Cut(src, destOff, destLen, maxIo, S3_MAX_PART, off + thisLen, done')
    ensures ret == 0 ==> Uploaded(b0, log0, uid, conn.bucket, conn.log, parts + [part], done')
    ensures AllDelivered(conn.net) && ret != 0 ==> !Stageable(destOff, destLen, src, maxIo)
  {
    hide Cut, Stageable, Holds, PartPuts;
    thisLen := Min(maxIo, destLen - off);
    ghost var piece := if destOff + off + thisLen <= |src| then src[destOff + off..destOff + off + thisLen] else [];
    ghost var b, log := conn.bucket, conn.log;
    done' := done + [piece];
    ret, part := PutPart(conn, uid, partNum, src, destOff + off, thisLen);
    if partNum <= PART_NUMBER_MAX && Sendable(src, destOff + off, thisLen, S3_MAX_PART) {
      UploadedNext(b0, log0, uid, b, log, parts, done, piece);
      CutNext(src, destOff, destLen, maxIo, S3_MAX_PART, off, done);
    } else {
      StagingFails(src, destOff, destLen, maxIo, off, done);
    }
  }

  /** The upload loop of s3_fwrite_multi. */
  method StageParts(conn: Connection, uid: nat, destOff: nat, destLen: nat, src: seq<Byte>, maxIo: nat)
    returns (ret: int, parts: seq<Part>)
    requires maxIo > 0
    requires uid in conn.bucket.uploads && conn.bucket.uploads[uid] == map[]
    modifies conn
    ensures ret <= 0 && conn.sent >= old(conn.sent)
    ensures conn.versions == old(conn.versions) && conn.bucket.content == old(conn.bucket.content)
    ensures uid in conn.bucket.uploads
    ensures ret == 0 ==> Stageable(destOff, destLen, src, maxIo)
    ensures ret == 0 ==>
              Uploaded(old(conn.bucket), old(conn.log), uid, conn.bucket, conn.log, parts,
                       Pieces(Source(src, destOff, destLen), maxIo))
    ensures AllDelivered(conn.net) && ret != 0 ==> !Stageable(destOff, destLen, src, maxIo)
  {
    hide Cut, Uploaded, Stageable;
    var dataRemain: nat, dataOff: nat, partNum: nat := destLen, 0, 1;
    parts, ret := [], 0;
    ghost var done: seq<seq<Byte>> := [];
    CutWhole(src, destOff, destLen, maxIo, S3_MAX_PART);
    UploadedNone(conn.bucket, conn.log, conn.bucket, uid);
    while dataRemain > 0
      invariant ret == 0 && dataOff + dataRemain == destLen
      invariant Cut(src, destOff, destLen, maxIo, S3_MAX_PART, dataOff, done)
      invariant Uploaded(old(conn.bucket), old(conn.log), uid, conn.bucket, conn.log, parts, done)
      invariant conn.versions == old(conn.versions) && conn.bucket.content == old(conn.bucket.content)
      invariant uid in conn.bucket.uploads && conn.sent >= old(conn.sent)
      invariant |done| + 1 == partNum && |done| <= PART_NUMBER_MAX
    {
      var part, thisLen;
      ret, part, thisLen, done :=
        StageOne(conn, old(conn.bucket), old(conn.log), uid, destOff, destLen, src, maxIo, dataOff, parts, partNum, done);
      if ret < 0 {
        return ret, parts;
      }
      dataOff, dataRemain := dataOff + thisLen, dataRemain - thisLen;
      parts, partNum := parts + [part], partNum + 1;
    }
    CutAll(src, destOff, destLen, maxIo, S3_MAX_PART, done);
    StagingSucceeds(src, destOff, destLen, maxIo, done);
  }

  /** When the server assembles the parts: there is one, and none but the last is under 5MB. */
  predicate Completable(destLen: nat, maxIo: nat) {
    destLen > 0 && (destLen > maxIo ==> maxIo >= S3_MAX_PART)
  }

  lemma CompletesOnlyIf(b: Bucket, uid: nat, parts: seq<Part>, src: seq<Byte>, maxIo: nat)
    requires maxIo > 0 && uid in b.uploads && Holds(parts, b.uploads[uid], Pieces(src, maxIo))
    ensures Accepts(b, Complete(uid, parts)) <==> Completable(|src|, maxIo)
  {
    NumberedTail(parts);
    PieceLengths(src, maxIo);
    SeveralPieces(src, maxIo);
    if |src| > maxIo {
      assert |b.uploads[uid][parts[0].pnum].data| == maxIo;
    }
  }

  lemma SeveralPieces(src: seq<Byte>, maxIo: nat)
    requires maxIo > 0
    ensures src == [] <==> |Pieces(src, maxIo)| == 0
    ensures |src| > maxIo <==> |Pieces(src, maxIo)| > 1
  {
    if src != [] && |src| <= maxIo {
      assert src[|src|..] == [];
    }
  }

  /** Completing an upload that holds all pieces makes the object exactly the source. */
  lemma Assembled(b: Bucket, uid: nat, parts: seq<Part>, src: seq<Byte>, maxIo: nat)
    requires maxIo > 0 && uid in b.uploads && Holds(parts, b.uploads[uid], Pieces(src, maxIo))
    requires Accepts(b, Complete(uid, parts))
    ensures Applied(b, Complete(uid, parts)).content == src
    ensures uid !in Applied(b, Complete(uid, parts)).uploads
  {
    JoinedIsFlat(parts, b.uploads[uid], Pieces(src, maxIo));
    PiecesJoin(src, maxIo);
  }

  /** s3_fwrite_multi_finish: when the parts hold `src` the object becomes `src` in one step, or stays. */
  method Finish(conn: Connection, uid: nat, parts: seq<Part>, ghost src: seq<Byte>, ghost maxIo: nat) returns (ret: int)
    requires maxIo > 0 && uid in conn.bucket.uploads
    requires Holds(parts, conn.bucket.uploads[uid], Pieces(src, maxIo))
    modifies conn
    ensures ret <= 0 && conn.sent > old(conn.sent)
    ensures conn.log == old(conn.log) + [Complete(uid, parts)]
    ensures |parts| == |Pieces(src, maxIo)| && Numbered(parts)
    ensures ret == 0 ==> Completable(|src|, maxIo) && uid !in conn.bucket.uploads
    ensures if conn.versions == old(conn.versions) then ret != 0 && conn.bucket.content == old(conn.bucket.content)
            else conn.versions == old(conn.versions) + [src] && conn.bucket.content == src
    ensures AllDelivered(conn.net) ==> (ret == 0 <==> Completable(|src|, maxIo))
  {
    hide Applied, Accepts, Pieces;
    CompletesOnlyIf(conn.bucket, uid, parts, src, maxIo);
    if Accepts(conn.bucket, Complete(uid, parts)) {
      Assembled(conn.bucket, uid, parts, src, maxIo);
    }
    var answer;
    ret, answer := conn.SendRecv(Complete(uid, parts));
  }

  /** s3_fwrite_multi_abort: once the request has arrived, the upload is gone. */
  method AbortUpload(conn: Connection, uid: nat) returns (ret: int)
    modifies conn
    ensures conn.log == old(conn.log) + [Abort(uid)]
    ensures conn.versions == old(conn.versions) && conn.bucket.content == old(conn.bucket.content)
    ensures !conn.net(old(conn.sent)).Refused? ==> uid !in conn.bucket.uploads
    ensures conn.sent == old(conn.sent) + 1
  {
    var answer;
    ret, answer := conn.SendRecv(Abort(uid));
  }

  /** The requests of an upload of `ps` that was completed. */
  ghost predicate CompletedLog(log0: seq<Request>, log: seq<Request>, uid: nat, parts: seq<Part>, ps: seq<seq<Byte>>) {
    && log == log0 + [Start] + PartPuts(uid, ps) + [Complete(uid, parts)]
    && |parts| == |ps| && Numbered(parts)
  }

  /** What a completed upload has sent: part k + 1 is the k-th stretch of `maxIo` bytes of the source, and
      the completion lists the part numbers from 1 on. */
  lemma CompletedRequests(log0: seq<Request>, log: seq<Request>, uid: nat, parts: seq<Part>, src: seq<Byte>,
                          destOff: nat, destLen: nat, maxIo: nat, k: nat)
    requires maxIo > 0 && destOff + destLen <= |src|
    requires CompletedLog(log0, log, uid, parts, Pieces(Source(src, destOff, destLen), maxIo)) && k < |parts|
    ensures 0 <= k * maxIo < destLen && |log| == |log0| + 1 + |parts| + 1 && parts[k].pnum == k + 1
    ensures log[|log0| + 1 + k]
         == Request.PartPut(uid, k + 1, src[destOff + k * maxIo..destOff + Min(k * maxIo + maxIo, destLen)])
    ensures log[|log0| + 1 + |parts|] == Complete(uid, parts)
  {
    hide Pieces, Source;
    PieceAt(Source(src, destOff, destLen), maxIo, k);
    var from, to := k * maxIo, Min(k * maxIo + maxIo, destLen);
    SourceSlice(src, destOff, destLen, from, to - from);
    assert log[|log0| + 1 + k] == PartPuts(uid, Pieces(Source(src, destOff, destLen), maxIo))[k];
  }

  lemma SourceLength(src: seq<Byte>, destOff: nat, destLen: nat, maxIo: nat)
    requires maxIo > 0 && Stageable(destOff, destLen, src, maxIo)
    ensures |Source(src, destOff, destLen)| == destLen
  {
  }

  /** The request for an upload id, which the server makes up. */
  method StartUpload(conn: Connection) returns (ret: int, uid: nat)
    modifies conn
    ensures ret <= 0 && (ret == 0 <==> conn.net(old(conn.sent)).Delivered?)
    ensures conn.sent == old(conn.sent) + 1 && conn.log == old(conn.log) + [Start]
    ensures conn.versions == old(conn.versions) && conn.bucket.content == old(conn.bucket.content)
    ensures uid == old(conn.bucket).nextId
    ensures ret == 0 ==> uid in conn.bucket.uploads && conn.bucket.uploads[uid] == map[]
  {
    ret, uid := conn.SendRecv(Start);
  }

  /** The write as a whole is atomic, and an upload that was started ends with a completion the server
      confirmed or with an abort. */
  method FwriteMulti(conn: Connection, destOff: nat, destLen: nat, src: seq<Byte>, maxIo: nat)
    returns (ret: int, ghost uid: nat, ghost parts: seq<Part>)
    requires maxIo > 0
    modifies conn
    ensures ret <= 0
    ensures !conn.net(old(conn.sent)).Delivered? ==> ret != 0 && conn.log == old(conn.log) + [Start]
    ensures conn.net(old(conn.sent)).Delivered? ==> uid == old(conn.bucket).nextId
    ensures conn.net(old(conn.sent)).Delivered? && ret != 0 ==>
              && conn.sent > old(conn.sent) && conn.log != [] && conn.log[|conn.log| - 1] == Abort(uid)
              && (!conn.net(conn.sent - 1).Refused? ==> uid !in conn.bucket.uploads)
    ensures ret == 0 ==>
              && CompletedLog(old(conn.log), conn.log, uid, parts, Pieces(Source(src, destOff, destLen), maxIo))
              && uid !in conn.bucket.uploads
              && Stageable(destOff, destLen, src, maxIo) && Completable(destLen, maxIo)
    ensures if conn.versions == old(conn.versions)
            then ret != 0 && conn.bucket.content == old(conn.bucket.content)
            else && conn.versions == old(conn.versions) + [Source(src, destOff, destLen)]
                 && conn.bucket.content == Source(src, destOff, destLen)
                 && Stageable(destOff, destLen, src, maxIo)
    ensures AllDelivered(conn.net) ==>
              (ret == 0 <==> Stageable(destOff, destLen, src, maxIo) && Completable(destLen, maxIo))
  {
    hide Holds, PartPuts, Pieces, Source, Numbered, Stageable, Completable;
    var answer;
    parts := [];
    ret, answer := StartUpload(conn);
    uid := answer;
    if ret < 0 {
      return ret, uid, parts;
    }
    var ps;
    ret, ps := StageParts(conn, answer, destOff, destLen, src, maxIo);
    if ret == 0 {
      parts := ps;
      SourceLength(src, destOff, destLen, maxIo);
      ret := Finish(conn, answer, ps, Source(src, destOff, destLen), maxIo);
    }
    if ret < 0 {
      var aborted := AbortUpload(conn, answer);
    }
  }

  // ------------------------------------------------------------ s3_fwrite

  lemma SmallWrite(n: nat)
    requires n <= S3_MAX_PART
    ensures CeilDiv(n, S3_MAX_PART) <= PART_NUMBER_MAX
  {
    if 0 < n < S3_MAX_PART {
      QuotientIs(n, S3_MAX_PART, 0, n);
    }
  }

  /** Writes `src`, which the file layer makes `destLen` bytes long, over the whole object: what is
      there is kept or replaced in one step by all of `src`, and never gets shorter. */
  method Fwrite(conn: Connection, destOff: nat, destLen: nat, src: seq<Byte>) returns (ret: int)
    requires |src| == destLen
    modifies conn
    ensures ret <= 0
    ensures destLen == 0 ==> ret == 0 && unchanged(conn)
    ensures destLen > 0 && destOff != 0 ==> ret == -EINVAL && unchanged(conn)
    ensures destLen > 0 && ret == 0 ==> conn.bucket.content == src && conn.versions == old(conn.versions) + [src]
    ensures conn.versions == old(conn.versions) || conn.versions == old(conn.versions) + [src]
    ensures conn.bucket.content == if conn.versions == old(conn.versions) then old(conn.bucket.content) else src
    ensures |conn.bucket.content| >= |old(conn.bucket.content)|
    ensures AllDelivered(conn.net) ==>
              (ret == 0 <==>
               destLen == 0 || (destOff == 0 && |old(conn.bucket.content)| <= destLen
                                && CeilDiv(destLen, S3_MAX_PART) <= PART_NUMBER_MAX))
  {
    if destLen == 0 {
      return 0;
    }
    if destOff != 0 {
      return -EINVAL;
    }
    var size;
    ret, size := conn.Stat();
    if ret < 0 {
      return ret;
    }
    if size > destLen {
      return -EINVAL;
    }
    var maxIo := S3_MAX_PART;
    if destLen > maxIo {
      ghost var uid, parts;
      ret, uid, parts := FwriteMulti(conn, destOff, destLen, src, maxIo);
      assert src[0..destLen] == src;
      return ret;
    }
    SmallWrite(destLen);
    var answer;
    ret, answer := conn.SendRecv(ObjPut(src));
  }
}
