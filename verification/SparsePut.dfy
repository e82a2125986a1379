/** Uploading the allocated parts of a sparse file: cli_seek_data_put in client/cli_put.c. */
module SparsePut {
  import opened Basics
  import opened Ranges

  const ENXIO := 6

  // ------------------------------------------------------------ the local file

  /** A file and its extent map: a byte outside the allocated data reads as zero. */
  datatype File = File(bytes: seq<Byte>, data: seq<bool>)

  ghost predicate ValidFile(f: File) {
    |f.data| == |f.bytes| && forall i | 0 <= i < |f.bytes| && !f.data[i] :: f.bytes[i] == 0
  }

  /** The first position from `off` on whose extent is data (`v`) or a hole, or the end. */
  function NextAt(data: seq<bool>, v: bool, off: nat): (n: nat)
    requires off <= |data|
    ensures off <= n <= |data|
    ensures forall i | off <= i < n :: data[i] != v
    ensures n < |data| ==> data[n] == v
    decreases |data| - off
  {
    if off == |data| || data[off] == v then off else NextAt(data, v, off + 1)
  }

  /** lseek with SEEK_DATA: there is nothing to find at or beyond the end of the file, or behind the
      last data. */
  function SeekData(f: File, off: nat): (r: int)
    requires |f.data| == |f.bytes|
  {
    if off >= |f.bytes| || NextAt(f.data, true, off) == |f.data| then -ENXIO else NextAt(f.data, true, off)
  }

  /** lseek with SEEK_HOLE: the end of the file counts as a hole, but cannot be searched from. */
  function SeekHole(f: File, off: nat): (r: int)
    requires |f.data| == |f.bytes|
  {
    if off >= |f.bytes| then -ENXIO else NextAt(f.data, false, off)
  }

  // ------------------------------------------------------------ what is to be uploaded

  /** Not empty, within the file, and each range behind the one before. */
  ghost predicate Increasing(rs: seq<Range>, size: nat) {
    && (forall i | 0 <= i < |rs| :: rs[i].len > 0 && rs[i].off + rs[i].len <= size)
    && (forall i, j | 0 <= i < j < |rs| :: rs[i].off + rs[i].len <= rs[j].off)
  }

  /** The file's last byte is a data region of its own. */
  predicate LoneLastByte(data: seq<bool>) {
    data != [] && data[|data| - 1] && (|data| > 1 ==> !data[|data| - 2])
  }

  /** What arrives: the file, but a lone last byte stays zero. */
  function Arrived(f: File): seq<Byte>
    requires |f.data| == |f.bytes|
  {
    if LoneLastByte(f.data) then f.bytes[..|f.bytes| - 1] + [0] else f.bytes
  }

  /** The upload is complete exactly when no data region starts at the last byte, or that byte is zero. */
  lemma ArrivedWhole(f: File)
    requires ValidFile(f)
    ensures Arrived(f) == f.bytes <==> !LoneLastByte(f.data) || f.bytes[|f.bytes| - 1] == 0
  {
    if LoneLastByte(f.data) {
      var n := |f.bytes| - 1;
      assert f.bytes == f.bytes[..n] + [f.bytes[n]];
      assert Arrived(f)[n] == 0;
    }
  }

  /** The upload up to position `cur`: there the remote has the file's bytes, behind it zeros; the
      ranges cover exactly the data before `cur`, where a hole or the end begins. */
  ghost predicate UploadedTo(f: File, remote: seq<Byte>, rs: seq<Range>, cur: nat)
    requires |f.data| == |f.bytes|
  {
    && cur <= |f.bytes| == |remote|
    && (forall i | 0 <= i < cur :: remote[i] == f.bytes[i])
    && (forall i | cur <= i < |remote| :: remote[i] == 0)
    && Increasing(rs, cur)
    && (forall p: nat :: Covers(rs, p) <==> p < cur && f.data[p])
    && (0 < cur < |f.bytes| ==> !f.data[cur])
    && (0 < cur == |f.bytes| ==> !LoneLastByte(f.data))
  }

  // ------------------------------------------------------------ the remote file

  /** A remote file that was just truncated to its length.  A write fails or is carried out. */
  class Remote {
    const works: nat -> bool
    var bytes: seq<Byte>
    var ranges: seq<Range>

    constructor (works: nat -> bool, size: nat)
      ensures this.works == works && ranges == [] && bytes == Zeros(size)
    {
      this.works, ranges, bytes := works, [], Zeros(size);
    }

    /** cli_put_range_ctx_setup and elasto_fwrite_cb with cli_put_data_out_cb. */
    method PutRange(f: File, off: nat, len: nat) returns (ret: int)
      requires off + len <= |f.bytes| == |bytes|
      modifies this
      ensures ret <= 0 && (ret == 0 <==> works(|old(ranges)|))
      ensures ranges == old(ranges) + [Range(off, len)] && ranges[..|ranges| - 1] == old(ranges)
      ensures bytes == if ret == 0 then old(bytes)[..off] + f.bytes[off..off + len] + old(bytes)[off + len..] else old(bytes)
    {
      ranges := ranges + [Range(off, len)];
      if !works(|ranges| - 1) {
        return -EIO;
      }
      bytes := bytes[..off] + f.bytes[off..off + len] + bytes[off + len..];
      return 0;
    }
  }

  function Zeros(n: nat): (z: seq<Byte>)
    ensures |z| == n && forall i | 0 <= i < n :: z[i] == 0
  {
    seq(n, _ => 0)
  }

  // ------------------------------------------------------------ the loop

  lemma NothingUploaded(f: File)
    requires |f.data| == |f.bytes|
    ensures UploadedTo(f, Zeros(|f.bytes|), [], 0)
  {
  }

  /** Behind `start`, the next data, the run of data up to `end` is one more range. */
  lemma RangeUploaded(f: File, remote: seq<Byte>, rs: seq<Range>, cur: nat, start: nat, end: nat)
    requires ValidFile(f) && UploadedTo(f, remote, rs, cur)
    requires cur <= start < end <= |f.bytes| && start + 1 < |f.bytes|
    requires forall i | cur <= i < start :: !f.data[i]
    requires forall i | start <= i < end :: f.data[i]
    requires end < |f.bytes| ==> !f.data[end]
    ensures UploadedTo(f, remote[..start] + f.bytes[start..end] + remote[end..], rs + [Range(start, end - start)], end)
  {
    hide Covers, Increasing;
    var r := Range(start, end - start);
    IncreasingSnoc(rs, r, cur);
    forall p: nat
      ensures Covers(rs + [r], p) <==> p < end && f.data[p]
    {
      CoversSnoc(rs, r, p);
    }
  }

  lemma IncreasingSnoc(rs: seq<Range>, r: Range, cur: nat)
    requires Increasing(rs, cur) && cur <= r.off && r.len > 0
    ensures Increasing(rs + [r], r.off + r.len)
  {
  }

  /** Nothing but holes behind `cur`, apart from a last byte that cannot be searched behind: the upload
      is as complete as it gets. */
  lemma UploadEnds(f: File, remote: seq<Byte>, rs: seq<Range>, cur: nat)
    requires ValidFile(f) && UploadedTo(f, remote, rs, cur)
    requires forall i | cur <= i < |f.bytes| - 1 :: !f.data[i]
    requires f.bytes != []
    ensures remote == Arrived(f)
    ensures forall p: nat :: Covers(rs, p) <==> p < |Arrived(f)| && f.data[p] && !(LoneLastByte(f.data) && p == |f.data| - 1)
  {
    var n := |f.bytes| - 1;
    if cur <= n && f.data[n] {
      assert LoneLastByte(f.data);
      assert remote == f.bytes[..n] + [0];
    } else {
      assert remote == f.bytes;
    }
  }

  /** One turn of the loop: the next run of data is sent, or there is none that can be. */
  method PutNext(f: File, remote: Remote, totalLen: nat, dataCur: nat) returns (ret: int, more: bool, next: nat)
    requires ValidFile(f) && totalLen == |f.bytes| && dataCur < totalLen
    requires UploadedTo(f, remote.bytes, remote.ranges, dataCur)
    modifies remote
    ensures ret <= 0 && (ret != 0 ==> more) && ((forall k: nat :: remote.works(k)) ==> ret == 0)
    ensures !more ==> unchanged(remote) && forall i | dataCur <= i < totalLen - 1 :: !f.data[i]
    ensures more && ret == 0 ==> dataCur < next <= totalLen && UploadedTo(f, remote.bytes, remote.ranges, next)
    ensures ret != 0 ==>
              remote.ranges != [] && UploadedTo(f, remote.bytes, remote.ranges[..|remote.ranges| - 1], dataCur)
  {
    hide Covers, LoneLastByte, UploadedTo, Increasing;
    UploadedBounds(f, remote.bytes, remote.ranges, dataCur);
    var dataStart := SeekData(f, dataCur);
    if dataStart == -ENXIO {
      return 0, false, dataCur;
    }
    if dataStart >= totalLen {
      return 0, false, dataCur;
    }
    var nextHole := SeekHole(f, dataStart + 1);
    if nextHole == -ENXIO {
      return 0, false, dataCur;
    }
    var dataEnd := if nextHole >= totalLen then totalLen - 1 else nextHole - 1;
    assert dataEnd >= dataStart;
    var rangeLen := dataEnd - dataStart + 1;
    RangeUploaded(f, remote.bytes, remote.ranges, dataCur, dataStart, dataEnd + 1);
    ret := remote.PutRange(f, dataStart, rangeLen);
    return ret, true, dataEnd + 1;
  }

  /** cli_seek_data_put on a remote file of zeros: exactly the data runs of the file are sent, in order;
      without a failing write the remote becomes the file, up to a lone last byte, and a failing one
      leaves all ranges before it uploaded. */
  method SeekDataPut(f: File, remote: Remote, totalLen: nat) returns (ret: int, ghost cur: nat)
    requires ValidFile(f) && totalLen == |f.bytes|
    requires remote.bytes == Zeros(totalLen) && remote.ranges == []
    modifies remote
    ensures ret <= 0
    ensures ret == 0 ==> remote.bytes == Arrived(f) && Increasing(remote.ranges, totalLen)
    ensures ret == 0 ==>
              forall p: nat :: Covers(remote.ranges, p) <==>
                               p < totalLen && f.data[p] && !(LoneLastByte(f.data) && p == totalLen - 1)
    ensures ret != 0 ==>
              remote.ranges != [] && UploadedTo(f, remote.bytes, remote.ranges[..|remote.ranges| - 1], cur)
    ensures (forall k: nat :: remote.works(k)) ==> ret == 0
  {
    hide Covers, Arrived, LoneLastByte, UploadedTo, Increasing;
    NothingUploaded(f);
    if totalLen == 0 {
      EmptyFile(f);
      return 0, 0;
    }
    var dataCur: nat, more := 0, true;
    while more && dataCur < totalLen
      invariant UploadedTo(f, remote.bytes, remote.ranges, dataCur) && dataCur <= totalLen
      invariant !more ==> forall i | dataCur <= i < totalLen - 1 :: !f.data[i]
      decreases totalLen - dataCur, more
    {
      var next;
      cur := dataCur;
      ret, more, next := PutNext(f, remote, totalLen, dataCur);
      if ret < 0 {
        return;
      }
      if more {
        dataCur := next;
      }
    }
    UploadedBounds(f, remote.bytes, remote.ranges, dataCur);
    UploadEnds(f, remote.bytes, remote.ranges, dataCur);
    return 0, dataCur;
  }

  lemma UploadedBounds(f: File, remote: seq<Byte>, rs: seq<Range>, cur: nat)
    requires |f.data| == |f.bytes| && UploadedTo(f, remote, rs, cur)
    ensures cur <= |f.bytes| == |remote| && (Increasing(rs, cur) ==> Increasing(rs, |f.bytes|)) && Increasing(rs, cur)
  {
  }

  lemma EmptyFile(f: File)
    requires f.bytes == [] && f.data == []
    ensures Arrived(f) == Zeros(0) && forall p: nat :: !Covers([], p)
  {
  }
}
