/** Reassembly of a response body from the chunks libevent hands over: ev_write_cb and its helpers in
    lib/conn.c, with the data buffers of lib/data.c.  Allocations succeed. */
module Response {
  import opened Basics
  import opened Chunks

  // ------------------------------------------------------------ what a response keeps

  /** Where a response body goes: a buffer without bound, one of fixed size, or the requester's
      callback, which may refuse a chunk and may be missing. */
  datatype Sink = Unbounded | Bounded(limit: nat) | Callback(inCb: Option<(nat, seq<Byte>) -> bool>)

  /** Whether a chunk is taken after `off` bytes. */
  predicate Takes(sink: Sink, off: nat, chunk: seq<Byte>) {
    match sink
    case Unbounded => true
    case Bounded(limit) => off + |chunk| <= limit
    case Callback(inCb) => inCb.Some? && inCb.value(off, chunk)
  }

  /** How many chunks are taken before the first refusal. */
  function Taken(sink: Sink, off: nat, chunks: seq<seq<Byte>>): (n: nat)
    ensures n <= |chunks|
    decreases |chunks|
  {
    if chunks == [] || !Takes(sink, off, chunks[0]) then 0
    else 1 + Taken(sink, off + |chunks[0]|, chunks[1..])
  }

  /** All chunks are taken by a buffer that grows, and by one of fixed size exactly when their total
      fits; what is taken never exceeds the size. */
  lemma {:induction false} TakenAll(sink: Sink, off: nat, chunks: seq<seq<Byte>>)
    requires !sink.Callback?
    requires sink.Bounded? ==> off <= sink.limit
    ensures Taken(sink, off, chunks) == |chunks| <==> (sink.Bounded? ==> off + |Flatten(chunks)| <= sink.limit)
    ensures sink.Bounded? ==> off + |Flatten(chunks[..Taken(sink, off, chunks)])| <= sink.limit
    decreases |chunks|
  {
    if chunks != [] && Takes(sink, off, chunks[0]) {
      TakenAll(sink, off + |chunks[0]|, chunks[1..]);
      var n := Taken(sink, off, chunks);
      assert chunks[..n][1..] == chunks[1..][..n - 1];
    }
  }

  predicate IsError(code: int) {
    code != 0 && !(200 <= code < 300)
  }

  // ------------------------------------------------------------ struct elasto_data

  /** A buffer whose length is that of `buf`, or a callback; `off` bytes have been received. */
  class Data {
    const inCb: Option<Option<(nat, seq<Byte>) -> bool>>
    const foreign: bool
    var buf: array<Byte>
    var off: nat
    /** What a callback has been given so far. */
    ghost var given: seq<Byte>

    ghost predicate Valid()
      reads this
    {
      if inCb.Some? then |given| == off else off <= buf.Length
    }

    ghost function Contents(): (s: seq<Byte>)
      reads this, buf
      requires Valid()
      ensures |s| == off
    {
      if inCb.Some? then given else buf[..off]
    }

    /** elasto_data_iov_new with buf_alloc set. */
    constructor Alloc(len: nat)
      ensures Valid() && fresh(buf) && inCb.None? && !foreign && buf.Length == len && off == 0
    {
      inCb, foreign, off, given := None, false, 0, [];
      buf := new Byte[len];
    }

    /** elasto_data_iov_new with a buffer of the requester's. */
    constructor Foreign(buf: array<Byte>)
      ensures Valid() && this.buf == buf && inCb.None? && foreign && off == 0
    {
      inCb, foreign, off, given := None, true, 0, [];
      this.buf := buf;
    }

    /** elasto_data_cb_new for receiving. */
    constructor Cb(inCb: Option<(nat, seq<Byte>) -> bool>)
      ensures Valid() && this.inCb == Some(inCb) && !foreign && off == 0 && given == []
    {
      this.inCb, foreign, off, given := Some(inCb), false, 0, [];
      buf := new Byte[0];
    }

    /** elasto_data_iov_grow: refused for a callback and for a buffer of the requester's. */
    method IovGrow(growBy: nat) returns (ret: int)
      requires Valid()
      modifies this`buf
      ensures Valid() && ret == if inCb.Some? || foreign then -EINVAL else 0
      ensures buf.Length == old(buf.Length) + (if ret == 0 then growBy else 0)
      ensures buf == old(buf) || fresh(buf)
      ensures Contents() == old(Contents())
    {
      if inCb.Some? || foreign {
        return -EINVAL;
      }
      if growBy == 0 {
        return 0;
      }
      buf := Realloc(buf, buf.Length + growBy);
      return 0;
    }
  }

  /** realloc to a larger size */
  method Realloc(buf: array<Byte>, len: nat) returns (buf': array<Byte>)
    requires buf.Length <= len
    ensures fresh(buf') && buf'.Length == len
    ensures buf'[..buf.Length] == buf[..]
  {
    buf' := new Byte[len];
    forall i | 0 <= i < buf.Length {
      buf'[i] := buf[i];
    }
  }

  /** evbuffer_remove of a whole chunk into a buffer at `off`. */
  method Remove(buf: array<Byte>, off: nat, chunk: seq<Byte>)
    requires off + |chunk| <= buf.Length
    modifies buf
    ensures buf[..off + |chunk|] == old(buf[..off]) + chunk
    ensures forall i | off + |chunk| <= i < buf.Length :: buf[i] == old(buf[i])
  {
    forall i | 0 <= i < |chunk| {
      buf[off + i] := chunk[i];
    }
  }

  // ------------------------------------------------------------ the response part of struct op

  class Rsp {
    const clenRecvd: bool
    const clen: nat
    var isError: bool
    var errCode: int
    var writeCbs: nat
    var data: Data?
    /** The data buffer was allocated here, not by the requester. */
    var recvCbAlloced: bool
    var errBuf: array?<Byte>
    var errOff: nat
    /** conn_op_cancel was called: no further chunk is handed over. */
    var cancelled: bool

    /** A response about to be received, with the requester's data or none. */
    constructor (clenRecvd: bool, clen: nat, data: Data?)
      requires data != null ==> data.Valid()
      ensures this.clenRecvd == clenRecvd && this.clen == clen && this.data == data
      ensures writeCbs == 0 && !recvCbAlloced && errBuf == null && errOff == 0 && !cancelled && !isError
    {
      this.clenRecvd, this.clen, this.data := clenRecvd, clen, data;
      isError, errCode, writeCbs, recvCbAlloced, errBuf, errOff, cancelled := false, 0, 0, false, null, 0, false;
    }

    ghost function Repr(): set<object>
      reads this, data
    {
      var d: set<object> := if data == null then {} else var d: Data := data; {d, d.buf};
      var e: set<object> := if errBuf == null then {} else var b: array<Byte> := errBuf; {b};
      {this} + d + e
    }

    ghost predicate Sound()
      reads this, data
    {
      && (data != null ==> data.Valid())
      && (recvCbAlloced ==> data != null && data.inCb.None? && !data.foreign && (clenRecvd ==> data.buf.Length == clen))
      && (errBuf != null ==> errOff <= errBuf.Length && (clenRecvd ==> errBuf.Length == clen))
      && (errBuf == null ==> errOff == 0)
      && (errBuf != null && data != null ==> errBuf != data.buf)
    }

    /** Once a chunk was handed over the buffer for the body is there. */
    ghost predicate Ready()
      reads this, data
      requires Sound()
    {
      && isError == IsError(errCode)
      && (isError ==> errBuf != null)
      && (!isError ==> data != null)
      && (!isError && !recvCbAlloced && data.inCb.None? && clenRecvd ==> clen <= data.buf.Length)
    }

    ghost predicate Valid()
      reads this, data
    {
      && Sound()
      && (writeCbs == 0 ==> errBuf == null && !recvCbAlloced)
      && (writeCbs > 0 && !cancelled ==> Ready())
    }

    /** Where the body of a response with status `code` goes.  A buffer of the requester's that is
        shorter than the announced length takes nothing. */
    ghost function SinkFor(code: int): Sink
      reads this, data
      requires Sound()
    {
      if IsError(code) || data == null || recvCbAlloced then
        (if clenRecvd then Bounded(clen) else Unbounded)
      else if data.inCb.Some? then Callback(data.inCb.value)
      else if clenRecvd && clen > data.buf.Length then Bounded(0)
      else Bounded(data.buf.Length)
    }

    ghost function Received(code: int): (s: seq<Byte>)
      reads this, data, if data == null then {} else {data.buf}, errBuf
      requires Sound()
      ensures |s| == if IsError(code) then errOff else if data == null then 0 else data.off
    {
      if IsError(code) then (if errBuf == null then [] else errBuf[..errOff])
      else if data == null then [] else data.Contents()
    }

    /** ev_write_alloc_err */
    method WriteAllocErr(cbNbytes: nat)
      modifies this`errBuf, this`errOff
      requires errBuf != null ==> errOff <= errBuf.Length
      ensures errBuf != null && (errBuf == old(errBuf) || fresh(errBuf))
      ensures old(errBuf) == null ==> errOff == 0 && errBuf.Length == if clenRecvd then clen else cbNbytes
      ensures old(errBuf) != null ==>
                && errOff == old(errOff) && errBuf.Length >= old(errBuf).Length && errOff + cbNbytes <= errBuf.Length
                && errBuf[..errOff] == old(errBuf[..errOff])
    {
      if errBuf != null && cbNbytes > errBuf.Length - errOff {
        var buf := Realloc(errBuf, errBuf.Length + cbNbytes);
        assert buf[..errOff] == buf[..errBuf.Length][..errOff];
        errBuf := buf;
      } else if errBuf == null {
        errBuf := new Byte[if clenRecvd then clen else cbNbytes];
        errOff := 0;
      }
    }

    /** ev_write_alloc_std */
    method WriteAllocStd(cbNbytes: nat) returns (ret: int)
      requires data != null ==> data.Valid()
      requires recvCbAlloced ==> !clenRecvd && data != null && data.inCb.None? && !data.foreign
      modifies this`data, this`recvCbAlloced, data
      ensures ret <= 0 && data != null && data.Valid() && (data == old(data) || fresh(data))
      ensures old(data) == null ==>
                && ret == 0 && recvCbAlloced && fresh(data) && fresh(data.buf) && data.inCb.None? && !data.foreign
                && data.off == 0 && data.buf.Length == if clenRecvd then clen else cbNbytes
      ensures old(data) != null ==>
                && data == old(data) && recvCbAlloced == old(recvCbAlloced)
                && data.off == old(data.off) && data.Contents() == old(data.Contents())
                && (data.buf == old(data.buf) || fresh(data.buf))
                && (!recvCbAlloced ==> data.buf == old(data.buf))
                && (recvCbAlloced && ret == 0 ==> data.off + cbNbytes <= data.buf.Length)
                && (ret == 0 <==> !(!recvCbAlloced && data.inCb.None? && clenRecvd && clen > data.buf.Length))
    {
      if data == null {
        var sz := if clenRecvd then clen else cbNbytes;
        data := new Data.Alloc(sz);
        recvCbAlloced := true;
        return 0;
      }
      if data.inCb.None? {
        var rem := data.buf.Length - data.off;
        if recvCbAlloced {
          if cbNbytes > rem {
            ret := data.IovGrow(cbNbytes - rem);
            return ret;
          }
          return 0;
        }
        if clenRecvd && clen > data.buf.Length {
          return -E2BIG;
        }
      }
      return 0;
    }

    /** ev_write_err */
    method WriteErr(chunk: seq<Byte>) returns (ret: int)
      requires errBuf != null && errOff <= errBuf.Length
      modifies this`errOff, errBuf
      ensures ret == if old(errOff) + |chunk| <= errBuf.Length then 0 else -E2BIG
      ensures ret == 0 ==> errOff == old(errOff) + |chunk| && errBuf[..errOff] == old(errBuf[..errOff]) + chunk
      ensures ret != 0 ==> errOff == old(errOff) && errBuf[..] == old(errBuf[..])
    {
      if errOff + |chunk| > errBuf.Length {
        return -E2BIG;
      }
      Remove(errBuf, errOff, chunk);
      errOff := errOff + |chunk|;
      return 0;
    }

    /** ev_write_std */
    method WriteStd(chunk: seq<Byte>) returns (ret: int)
      requires data != null && data.Valid()
      modifies data`off, data`given, data.buf
      ensures data.Valid()
      ensures ret <= 0
      ensures ret == 0 <==> match data.inCb
                            case None => old(data.off) + |chunk| <= data.buf.Length
                            case Some(inCb) => inCb.Some? && inCb.value(old(data.off), chunk)
      ensures ret == 0 ==> data.Contents() == old(data.Contents()) + chunk
      ensures ret != 0 ==> data.Contents() == old(data.Contents())
    {
      var writeOff := data.off;
      if data.inCb.None? {
        if writeOff + |chunk| > data.buf.Length {
          return -E2BIG;
        }
        Remove(data.buf, writeOff, chunk);
      } else if data.inCb.value.None? || !data.inCb.value.value(writeOff, chunk) {
        return -EIO;
      } else {
        data.given := data.given + chunk;
      }
      data.off := data.off + |chunk|;
      return 0;
    }

    /** conn_op_cancel */
    method Cancel(ghost code: int)
      requires Sound() && (writeCbs > 0)
      modifies this`cancelled, this`isError, this`errCode
      ensures cancelled && Valid() && Repr() == old(Repr())
      ensures SinkFor(code) == old(SinkFor(code)) && Received(code) == old(Received(code))
      ensures isError && errCode == if old(isError) then old(errCode) else 400
    {
      cancelled := true;
      if !isError {
        isError, errCode := true, 400;
      }
    }

    /** A place for `n` bytes of an error's body. */
    method PlaceError(ghost code: int, n: nat)
      requires Sound() && IsError(code) && (errBuf == null || !clenRecvd)
      modifies this`errBuf, this`errOff
      ensures Sound() && fresh(Repr() - old(Repr())) && errBuf != null
      ensures SinkFor(code) == old(SinkFor(code)) && Received(code) == old(Received(code))
      ensures if clenRecvd then errBuf.Length == clen else errOff + n <= errBuf.Length
    {
      hide IsError;
      WriteAllocErr(n);
    }

    /** The part of ev_write_cb that finds a place for a chunk of `n` bytes. */
    method PrepareWrite(code: int, n: nat) returns (ret: int)
      requires Valid() && !cancelled
      requires writeCbs > 0 ==> code == errCode
      modifies this, data
      ensures Sound() && fresh(Repr() - old(Repr())) && writeCbs > 0 && !cancelled
      ensures SinkFor(code) == old(SinkFor(code)) && Received(code) == old(Received(code))
      ensures ret != 0 ==> ret < 0 && SinkFor(code) == Bounded(0) && !isError && !IsError(code)
      ensures ret == 0 ==> Ready() && errCode == code && isError == IsError(code)
      ensures ret == 0 && isError ==> if clenRecvd then errBuf.Length == clen else errOff + n <= errBuf.Length
      ensures !IsError(code) ==> errBuf == old(errBuf) && errOff == old(errOff)
      ensures old(data) != null ==> data == old(data)
      ensures IsError(code) ==>
                data == old(data) && (data != null ==> data.off == old(data.off) && data.Contents() == old(data.Contents()))
      ensures ret == 0 && !isError && data.inCb.None? ==>
                if SinkFor(code).Unbounded? then data.off + n <= data.buf.Length
                else SinkFor(code) == Bounded(data.buf.Length)
    {
      hide IsError;
      writeCbs := writeCbs + 1;
      ret := 0;
      if writeCbs == 1 || !clenRecvd {
        errCode, isError := code, IsError(code);
        if isError {
          PlaceError(code, n);
        } else {
          ret := WriteAllocStd(n);
        }
      }
    }

    /** The part of ev_write_cb that stores a chunk in the place prepared for it. */
    method StoreChunk(code: int, chunk: seq<Byte>) returns (ret: int)
      requires Sound() && Ready() && errCode == code && writeCbs > 0 && !cancelled
      requires isError ==> if clenRecvd then errBuf.Length == clen else errOff + |chunk| <= errBuf.Length
      requires !isError && data.inCb.None? ==>
                if SinkFor(code).Unbounded? then data.off + |chunk| <= data.buf.Length
                else SinkFor(code) == Bounded(data.buf.Length)
      modifies this`errOff, if isError then {errBuf} else {data, data.buf}
      ensures Sound() && Ready() && Repr() == old(Repr()) && isError == old(isError) && errCode == old(errCode)
      ensures SinkFor(code) == old(SinkFor(code))
      ensures ret <= 0 && (ret == 0 <==> Takes(SinkFor(code), |old(Received(code))|, chunk))
      ensures Received(code) == old(Received(code)) + (if ret == 0 then chunk else [])
      ensures !IsError(code) ==> errBuf == old(errBuf) && errOff == old(errOff)
      ensures old(data) != null ==> data == old(data)
      ensures IsError(code) ==>
                data == old(data) && (data != null ==> data.off == old(data.off) && data.Contents() == old(data.Contents()))
    {
      hide IsError;
      if isError {
        ret := WriteErr(chunk);
        assert ret != 0 ==> errBuf[..errOff] == errBuf[..][..errOff];
      } else {
        ret := WriteStd(chunk);
      }
    }

    /** ev_write_cb: a chunk of a response with status `code` is added to what was received, or the
        request is cancelled and nothing changes. */
    method WriteCb(code: int, chunk: seq<Byte>)
      requires Valid() && !cancelled && chunk != []
      requires writeCbs > 0 ==> code == errCode
      modifies Repr()
      ensures Valid() && fresh(Repr() - old(Repr()))
      ensures SinkFor(code) == old(SinkFor(code))
      ensures cancelled <==> !Takes(old(SinkFor(code)), |old(Received(code))|, chunk)
      ensures Received(code) == old(Received(code)) + (if cancelled then [] else chunk)
      ensures !cancelled ==> errCode == code && writeCbs > 0
      ensures cancelled ==> isError && errCode == if IsError(code) then code else 400
      ensures code == 0 || 200 <= code < 300 ==> errBuf == old(errBuf) && errOff == old(errOff)
      ensures old(data) != null ==> data == old(data)
      ensures !(code == 0 || 200 <= code < 300) ==>
                data == old(data) && (data != null ==> data.off == old(data.off) && data.Contents() == old(data.Contents()))
    {
      hide SinkFor, Received;
      var ret := PrepareWrite(code, |chunk|);
      if ret == 0 {
        ret := StoreChunk(code, chunk);
      }
      if ret < 0 {
        Cancel(code);
      }
    }

    /** A response with status `code` whose body arrives as `chunks`, none of them empty: what is
        received is the chunks up to the first one the sink does not take, which ends the transfer. */
    method Receive(code: int, chunks: seq<seq<Byte>>)
      requires Valid() && !cancelled && writeCbs == 0
      requires forall i | 0 <= i < |chunks| :: chunks[i] != []
      modifies Repr()
      ensures Valid() && fresh(Repr() - old(Repr()))
      ensures SinkFor(code) == old(SinkFor(code))
      ensures var n := Taken(old(SinkFor(code)), |old(Received(code))|, chunks);
              Received(code) == old(Received(code)) + Flatten(chunks[..n]) && (cancelled <==> n < |chunks|)
      ensures cancelled ==> isError && errCode == if IsError(code) then code else 400
      ensures code == 0 || 200 <= code < 300 ==> errBuf == old(errBuf) && errOff == old(errOff)
      ensures old(data) != null ==> data == old(data)
      ensures !(code == 0 || 200 <= code < 300) ==>
                data == old(data) && (data != null ==> data.off == old(data.off) && data.Contents() == old(data.Contents()))
    {
      hide Ready, SinkFor, Received, Takes, Taken, Flatten;
      ghost var sink, was := SinkFor(code), Received(code);
      var i := 0;
      FlattenNone(chunks, was);
      while i < |chunks| && !cancelled
        invariant Valid() && fresh(Repr() - old(Repr())) && 0 <= i <= |chunks|
        invariant SinkFor(code) == sink
        invariant !cancelled && writeCbs > 0 ==> errCode == code
        invariant !cancelled ==>
                    && Received(code) == was + Flatten(chunks[..i])
                    && Taken(sink, |was|, chunks) == i + Taken(sink, |Received(code)|, chunks[i..])
        invariant cancelled ==> isError && errCode == if IsError(code) then code else 400
        invariant code == 0 || 200 <= code < 300 ==> errBuf == old(errBuf) && errOff == old(errOff)
        invariant old(data) != null ==> data == old(data)
        invariant !(code == 0 || 200 <= code < 300) ==>
                    && data == old(data)
                    && (data != null ==> data.off == old(data.off) && data.Contents() == old(data.Contents()))
        invariant cancelled ==>
                    && Taken(sink, |was|, chunks) < |chunks|
                    && Received(code) == was + Flatten(chunks[..Taken(sink, |was|, chunks)])
      {
        TakenStep(sink, |Received(code)|, chunks, i);
        FlattenStep(was, chunks, i);
        WriteCb(code, chunks[i]);
        i := i + 1;
      }
    }
  }

  /** The chunks taken: each of those before the first refusal at its own offset. */
  lemma {:induction false} TakenIs(sink: Sink, off: nat, chunks: seq<seq<Byte>>)
    ensures var n := Taken(sink, off, chunks);
            && (forall j | 0 <= j < n :: Takes(sink, off + |Flatten(chunks[..j])|, chunks[j]))
            && (n < |chunks| ==> !Takes(sink, off + |Flatten(chunks[..n])|, chunks[n]))
    decreases |chunks|
  {
    hide Takes;
    if chunks != [] && Takes(sink, off, chunks[0]) {
      TakenIs(sink, off + |chunks[0]|, chunks[1..]);
      var n := Taken(sink, off, chunks);
      forall j | 0 < j <= |chunks|
        ensures |Flatten(chunks[..j])| == |chunks[0]| + |Flatten(chunks[1..][..j - 1])|
      {
        assert chunks[..j][1..] == chunks[1..][..j - 1];
      }
    }
  }

  /** A body with status `code` received into what the requester supplied.  A status of 0 or from 200 to
      299 brings it there: to a buffer if the announced length and the body fit, to a callback chunk by
      chunk at increasing offsets until one is refused.  Any other status leaves the requester's data
      alone, and the body goes to a buffer of its own. */
  method ReceiveInto(data: Data, code: int, clenRecvd: bool, clen: nat, chunks: seq<seq<Byte>>) returns (r: Rsp)
    requires data.Valid() && data.off == 0
    requires forall i | 0 <= i < |chunks| :: chunks[i] != []
    modifies data, data.buf
    ensures r.Valid() && r.data == data && data.Valid()
    ensures code == 0 || 200 <= code < 300 ==>
              && r.errBuf == null && data.Contents() <= Flatten(chunks)
              && (!r.cancelled ==> data.Contents() == Flatten(chunks))
    ensures (code == 0 || 200 <= code < 300) && data.inCb.None? ==>
              (r.cancelled <==> |Flatten(chunks)| > if clenRecvd && clen > old(data.buf.Length) then 0 else old(data.buf.Length))
    ensures (code == 0 || 200 <= code < 300) && data.inCb.Some? ==>
              exists n :: 0 <= n <= |chunks| && HandedOver(data.inCb.value, chunks, n)
                          && data.Contents() == Flatten(chunks[..n]) && (r.cancelled <==> n < |chunks|)
    ensures !(code == 0 || 200 <= code < 300) ==>
              && data.off == 0 && data.Contents() == []
              && (r.cancelled <==> clenRecvd && |Flatten(chunks)| > clen)
              && (!r.cancelled && chunks != [] ==> r.errBuf != null && r.errOff <= r.errBuf.Length
                                                   && r.errBuf[..r.errOff] == Flatten(chunks))
  {
    hide Taken, Takes, Flatten, HandedOver;
    r := new Rsp(clenRecvd, clen, data);
    assert r.Received(code) == [];
    TakenInto(r.SinkFor(code), chunks);
    r.Receive(code, chunks);
  }

  lemma TakenInto(sink: Sink, chunks: seq<seq<Byte>>)
    requires forall i | 0 <= i < |chunks| :: chunks[i] != []
    ensures var n := Taken(sink, 0, chunks);
            && [] + Flatten(chunks[..n]) == Flatten(chunks[..n]) <= Flatten(chunks)
            && (n == |chunks| ==> Flatten(chunks[..n]) == Flatten(chunks))
            && (chunks != [] <==> Flatten(chunks) != [])
            && if sink.Callback? then HandedOver(sink.inCb, chunks, n)
               else n == |chunks| <==> (sink.Bounded? ==> |Flatten(chunks)| <= sink.limit)
  {
    hide Takes, Taken, Flatten, HandedOver;
    TakenPrefix(chunks, Taken(sink, 0, chunks));
    assert chunks[..|chunks|] == chunks;
    SomeBytes(chunks);
    if sink.Callback? {
      CallbackHandedOver(sink, chunks);
    } else {
      TakenAll(sink, 0, chunks);
    }
  }

  lemma SomeBytes(chunks: seq<seq<Byte>>)
    requires forall i | 0 <= i < |chunks| :: chunks[i] != []
    ensures chunks != [] <==> Flatten(chunks) != []
  {
    if chunks != [] {
      assert Flatten(chunks) == chunks[0] + Flatten(chunks[1..]);
      assert |chunks[0]| > 0;
    }
  }

  lemma CallbackHandedOver(sink: Sink, chunks: seq<seq<Byte>>)
    requires sink.Callback?
    ensures HandedOver(sink.inCb, chunks, Taken(sink, 0, chunks))
  {
    var n := Taken(sink, 0, chunks);
    forall j | 0 <= j <= n && j < |chunks|
      ensures j < n <==> sink.inCb.Some? && sink.inCb.value(|Flatten(chunks[..j])|, chunks[j])
    {
      TakesAt(sink, chunks, j);
    }
  }

  lemma TakesAt(sink: Sink, chunks: seq<seq<Byte>>, j: nat)
    requires sink.Callback? && j <= Taken(sink, 0, chunks) && j < |chunks|
    ensures j < Taken(sink, 0, chunks) <==> sink.inCb.Some? && sink.inCb.value(|Flatten(chunks[..j])|, chunks[j])
  {
    hide Takes, Taken, Flatten;
    TakenIs(sink, 0, chunks);
    var m := |Flatten(chunks[..j])|;
    assert 0 + m == m;
    CallbackTakes(sink, m, chunks[j]);
  }

  lemma CallbackTakes(sink: Sink, off: nat, chunk: seq<Byte>)
    requires sink.Callback?
    ensures Takes(sink, off, chunk) <==> sink.inCb.Some? && sink.inCb.value(off, chunk)
  {
  }

  /** The callback accepted the first `n` chunks, each at its offset in the body, and not the next. */
  ghost predicate HandedOver(inCb: Option<(nat, seq<Byte>) -> bool>, chunks: seq<seq<Byte>>, n: nat)
    requires n <= |chunks|
  {
    && (forall j | 0 <= j < n :: inCb.Some? && inCb.value(|Flatten(chunks[..j])|, chunks[j]))
    && (n < |chunks| ==> inCb.None? || !inCb.value(|Flatten(chunks[..n])|, chunks[n]))
  }

  /** A body with status `code` received without a buffer of the requester's: without a
      Content-Length nothing is refused, with one the body is cut off exactly when it is longer. */
  method ReceiveNew(code: int, clenRecvd: bool, clen: nat, chunks: seq<seq<Byte>>) returns (r: Rsp)
    requires forall i | 0 <= i < |chunks| :: chunks[i] != []
    ensures r.Valid()
    ensures r.cancelled <==> clenRecvd && |Flatten(chunks)| > clen
    ensures r.Received(code) <= Flatten(chunks)
    ensures !r.cancelled ==> r.Received(code) == Flatten(chunks)
    ensures clenRecvd ==> |r.Received(code)| <= clen
    ensures code == 0 || 200 <= code < 300 ==>
              r.errBuf == null && (chunks != [] && !r.cancelled ==> r.data != null && r.data.Contents() == Flatten(chunks))
    ensures !(code == 0 || 200 <= code < 300) ==>
              r.data == null && (chunks != [] && !r.cancelled ==> r.errBuf != null && r.errBuf[..r.errOff] == Flatten(chunks))
  {
    r := new Rsp(clenRecvd, clen, null);
    r.Receive(code, chunks);
    TakenAll(if clenRecvd then Bounded(clen) else Unbounded, 0, chunks);
    TakenPrefix(chunks, Taken(r.SinkFor(code), 0, chunks));
    assert chunks[..|chunks|] == chunks;
  }

  /** What op_req_retry and op_req_redirect leave of the response for the next attempt: a cleared
      response part that keeps the data buffer as it is, the bytes received included. */
  method ResetResponse(r: Rsp, clenRecvd: bool, clen: nat) returns (r': Rsp)
    requires r.Valid()
    ensures fresh(r') && r'.Valid() && r'.writeCbs == 0 && !r'.cancelled && !r'.recvCbAlloced
    ensures r'.clenRecvd == clenRecvd && r'.clen == clen && r'.data == r.data && r'.errBuf == null
  {
    r' := new Rsp(clenRecvd, clen, r.data);
  }

  /** The body of the next attempt goes behind what the last one received: into a buffer that no
      longer grows, or to the requester's callback at offsets that go on from there.  So it arrives as
      sent exactly when the last attempt received nothing and the sink takes every chunk. */
  method ReceiveAgain(r: Rsp, code: int, clenRecvd: bool, clen: nat, chunks: seq<seq<Byte>>)
    returns (r': Rsp, ghost sink: Sink)
    requires r.Valid() && !IsError(code)
    requires forall i | 0 <= i < |chunks| :: chunks[i] != []
    requires clenRecvd ==> |Flatten(chunks)| == clen
    requires chunks != []
    modifies r.Repr()
    ensures r'.Valid()
    ensures var stale, n := old(r.Received(code)), Taken(sink, |old(r.Received(code))|, chunks);
            r'.Received(code) == stale + Flatten(chunks[..n]) && (r'.cancelled <==> n < |chunks|)
    ensures !r'.cancelled && r'.Received(code) == Flatten(chunks) <==>
            old(r.Received(code)) == [] && Taken(sink, 0, chunks) == |chunks|
    ensures old(r.data) == null || old(r.data).inCb.None? ==>
              (Taken(sink, 0, chunks) == |chunks| <==>
               old(r.data) != null ==> |Flatten(chunks)| <= old(r.data.buf.Length))
    ensures old(r.data) != null && old(r.data).inCb.Some? ==> sink == Callback(old(r.data).inCb.value)
  {
    ghost var stale := r.Received(code);
    r' := ResetResponse(r, clenRecvd, clen);
    sink := r'.SinkFor(code);
    assert r'.Received(code) == stale;
    r'.Receive(code, chunks);
    BehindStale(sink, stale, chunks);
    assert clenRecvd && sink == Bounded(0) ==> |Flatten(chunks)| > sink.limit;
  }

  lemma BehindStale(sink: Sink, stale: seq<Byte>, chunks: seq<seq<Byte>>)
    requires chunks != []
    requires forall i | 0 <= i < |chunks| :: chunks[i] != []
    ensures stale + Flatten(chunks[..Taken(sink, |stale|, chunks)]) == Flatten(chunks)
            && Taken(sink, |stale|, chunks) == |chunks|
            <==> stale == [] && Taken(sink, 0, chunks) == |chunks|
    ensures !sink.Callback? ==>
              (Taken(sink, 0, chunks) == |chunks| <==> (sink.Bounded? ==> |Flatten(chunks)| <= sink.limit))
    ensures |Flatten(chunks)| > 0
  {
    if Taken(sink, |stale|, chunks) == |chunks| {
      assert chunks[..|chunks|] == chunks;
      assert |stale + Flatten(chunks)| == |stale| + |Flatten(chunks)|;
    }
    if stale == [] {
      assert stale + Flatten(chunks) == Flatten(chunks);
    }
    if !sink.Callback? {
      TakenAll(sink, 0, chunks);
    }
  }

  lemma {:induction false} TakenPrefix(chunks: seq<seq<Byte>>, n: nat)
    requires n <= |chunks|
    ensures Flatten(chunks[..n]) <= Flatten(chunks)
  {
    if n == |chunks| {
      assert chunks[..n] == chunks;
    } else {
      TakenPrefix(chunks[..|chunks| - 1], n);
      assert chunks[..|chunks| - 1][..n] == chunks[..n];
      assert chunks == chunks[..|chunks| - 1] + [chunks[|chunks| - 1]];
      FlattenSnoc(chunks[..|chunks| - 1], chunks[|chunks| - 1]);
    }
  }

  lemma FlattenNone(chunks: seq<seq<Byte>>, was: seq<Byte>)
    ensures was + Flatten(chunks[..0]) == was
    ensures chunks[0..] == chunks && chunks[|chunks|..] == []
  {
  }

  lemma FlattenStep(was: seq<Byte>, chunks: seq<seq<Byte>>, i: nat)
    requires i < |chunks|
    ensures was + Flatten(chunks[..i + 1]) == (was + Flatten(chunks[..i])) + chunks[i]
  {
    assert chunks[..i + 1] == chunks[..i] + [chunks[i]];
    FlattenSnoc(chunks[..i], chunks[i]);
  }

  lemma TakenStep(sink: Sink, off: nat, chunks: seq<seq<Byte>>, i: nat)
    requires i < |chunks|
    ensures Taken(sink, off, chunks[i..])
            == if Takes(sink, off, chunks[i]) then 1 + Taken(sink, off + |chunks[i]|, chunks[i + 1..]) else 0
  {
    assert chunks[i..][1..] == chunks[i + 1..];
  }
}
