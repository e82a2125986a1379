/** Sending a request until it is answered: elasto_conn_op_txrx and the header part of
    elasto_conn_send_prepare in lib/conn.c, with the header lists and the retry and redirect steps of
    lib/op.c. */
module Resend {
  import opened Basics

  const EBADF := 9
  const EAGAIN := 11
  const EFAULT := 14
  const ELOOP := 40
  const ECONNABORTED := 103
  const ETIMEDOUT := 110

  // ------------------------------------------------------------ header lists

  datatype Hdr = Hdr(key: string, val: string)

  ghost predicate Lacks(hs: seq<Hdr>, key: string) {
    forall i | 0 <= i < |hs| :: hs[i].key != key
  }

  /** The position of the first header with this key, or the length of the list. */
  function FirstOf(hs: seq<Hdr>, key: string): (i: nat)
    ensures i <= |hs| && Lacks(hs[..i], key) && (i < |hs| ==> hs[i].key == key)
    ensures i == |hs| <==> Lacks(hs, key)
  {
    if hs == [] then 0
    else if hs[0].key == key then 0
    else
      var n := 1 + FirstOf(hs[1..], key);
      assert hs[..n] == [hs[0]] + hs[1..][..n - 1];
      assert hs == [hs[0]] + hs[1..];
      n
  }

  /** The list without its first header of this key. */
  function Deleted(hs: seq<Hdr>, key: string): seq<Hdr> {
    var i := FirstOf(hs, key);
    if i == |hs| then hs else hs[..i] + hs[i + 1..]
  }

  /** Deleting by key undoes adding a header at the end exactly when no earlier header has the key,
      or the first one that has it is followed by nothing but copies of the one added. */
  lemma {:induction false} DeleteUndoesAdd(hs: seq<Hdr>, h: Hdr)
    ensures Deleted(hs + [h], h.key) == hs <==> forall i | FirstOf(hs, h.key) <= i < |hs| :: hs[i] == h
  {
    hide FirstOf;
    var n := FirstOf(hs, h.key);
    FirstWithLast(hs, h);
    var d := Deleted(hs + [h], h.key);
    assert (hs + [h])[..n] == hs[..n];
    assert d == hs[..n] + (hs + [h])[n + 1..];
    if forall i | n <= i < |hs| :: hs[i] == h {
      assert d == hs;
    } else if d == hs {
      var i :| n <= i < |hs| && hs[i] != h;
      CopiesBehind(hs, h, n, i);
      assert false;
    }
  }

  lemma {:induction false} FirstWithLast(hs: seq<Hdr>, h: Hdr)
    ensures FirstOf(hs + [h], h.key) == FirstOf(hs, h.key)
  {
    if hs != [] && hs[0].key != h.key {
      FirstWithLast(hs[1..], h);
      assert (hs + [h])[1..] == hs[1..] + [h];
    }
  }

  lemma {:induction false} CopiesBehind(hs: seq<Hdr>, h: Hdr, n: nat, i: nat)
    requires n <= i < |hs| && hs[..n] + (hs + [h])[n + 1..] == hs
    ensures hs[i] == h
    decreases |hs| - i
  {
    assert hs[i] == (hs[..n] + (hs + [h])[n + 1..])[i] == (hs + [h])[i + 1];
    if i + 1 < |hs| {
      CopiesBehind(hs, h, n, i + 1);
    }
  }

  // ------------------------------------------------------------ struct op

  const CLEN := "Content-Length"
  const AUTH := "Authorization"

  const OP_MAX_REDIRECTS := 2
  const OP_MAX_RETRIES := 2

  /** The part of struct op the send loop works on.  `signs` tells whether req_sign is set. */
  class Op {
    const signs: bool
    const httpsOnly: bool
    var hdrs: seq<Hdr>
    var numHdrs: nat
    var urlHost: string
    var redirects: nat
    var retries: nat

    constructor (signs: bool, httpsOnly: bool, urlHost: string, hdrs: seq<Hdr>)
      ensures this.signs == signs && this.httpsOnly == httpsOnly && this.urlHost == urlHost && this.hdrs == hdrs
      ensures Valid() && redirects == 0 && retries == 0
    {
      this.signs, this.httpsOnly, this.urlHost, this.hdrs := signs, httpsOnly, urlHost, hdrs;
      numHdrs, redirects, retries := |hdrs|, 0, 0;
    }

    ghost predicate Valid()
      reads this
    {
      numHdrs == |hdrs| && redirects <= OP_MAX_REDIRECTS && retries <= OP_MAX_RETRIES
    }

    /** op_req_hdr_add */
    method HdrAdd(key: string, val: string)
      requires Valid()
      modifies this`hdrs, this`numHdrs
      ensures Valid() && hdrs == old(hdrs) + [Hdr(key, val)]
    {
      hdrs := hdrs + [Hdr(key, val)];
      numHdrs := numHdrs + 1;
    }

    /** op_req_hdr_del: the first header with the key goes. */
    method HdrDel(key: string) returns (ret: int)
      requires Valid()
      modifies this`hdrs, this`numHdrs
      ensures Valid() && hdrs == Deleted(old(hdrs), key)
      ensures ret == if Lacks(old(hdrs), key) then -ENOENT else 0
    {
      var i := 0;
      while i < |hdrs|
        invariant i <= |hdrs| && hdrs == old(hdrs) && numHdrs == old(numHdrs)
        invariant Lacks(hdrs[..i], key)
      {
        if hdrs[i].key == key {
          FirstIs(hdrs, key, i);
          hdrs := hdrs[..i] + hdrs[i + 1..];
          numHdrs := numHdrs - 1;
          return 0;
        }
        i := i + 1;
      }
      assert hdrs[..i] == hdrs;
      return -ENOENT;
    }

    /** op_req_dup_hdrs_del: the headers the connection layer added go, the builder's stay. */
    method DupHdrsDel(ghost built: seq<Hdr>, ghost clen: string, ghost auth: string)
      requires Valid() && Lacks(built, CLEN) && Lacks(built, AUTH)
      requires hdrs == Prepared(built, clen, if signs then Some(auth) else None)
      modifies this`hdrs, this`numHdrs
      ensures Valid() && hdrs == built
    {
      DeletePrepared(built, clen, auth, signs);
      var ret := HdrDel(CLEN);
      if signs {
        ret := HdrDel(AUTH);
      }
    }
  }

  lemma {:induction false} FirstIs(hs: seq<Hdr>, key: string, i: nat)
    requires i < |hs| && hs[i].key == key && Lacks(hs[..i], key)
    ensures FirstOf(hs, key) == i
  {
    if i > 0 {
      assert hs[0] == hs[..i][0];
      assert hs[1..][..i - 1] == hs[..i][1..];
      FirstIs(hs[1..], key, i - 1);
    }
  }

  /** The headers of a request as sent: the builder's, one Content-Length and, if the request is
      signed, one Authorization. */
  function Prepared(built: seq<Hdr>, clen: string, auth: Option<string>): seq<Hdr> {
    built + [Hdr(CLEN, clen)] + (if auth.Some? then [Hdr(AUTH, auth.value)] else [])
  }

  /** In full: what the builder put in, then the length, then the signature. */
  lemma PreparedIs(built: seq<Hdr>, clen: string, auth: string)
    ensures Prepared(built, clen, None) == built + [Hdr("Content-Length", clen)]
    ensures Prepared(built, clen, Some(auth)) == built + [Hdr("Content-Length", clen), Hdr("Authorization", auth)]
  {
  }

  lemma DeletePrepared(built: seq<Hdr>, clen: string, auth: string, signs: bool)
    requires Lacks(built, CLEN) && Lacks(built, AUTH)
    ensures var d := Deleted(Prepared(built, clen, if signs then Some(auth) else None), CLEN);
            if signs then d == built + [Hdr(AUTH, auth)] && Deleted(d, AUTH) == built else d == built
  {
    var c, a := Hdr(CLEN, clen), Hdr(AUTH, auth);
    DeleteUndoesAdd(built, c);
    DeleteUndoesAdd(built, a);
    if signs {
      FirstIs(built + [c] + [a], CLEN, |built|);
      assert (built + [c] + [a])[..|built|] == built;
    } else {
      assert built + [c] + [] == built + [c];
    }
  }

  // ------------------------------------------------------------ responses

  /** How parsing a body can fail. */
  type XmlErrno = e: int | e == -EIO || e == -ENOMEM || e == -EINVAL witness -EIO

  /** The body of an error response: none, XML that cannot be parsed, or a document with or without
      the redirect endpoint. */
  datatype ErrorBody = Empty | Unparsable(errno: XmlErrno) | Document(endpoint: Option<string>)

  /** A response: `ret` is what the request's own unmarshalling returns, `code` the HTTP status. */
  datatype Answer = Success(ret: int) | Failure(code: int, body: ErrorBody)

  /** op_rsp_process, with op_rsp_error_process for errors */
  function Process(a: Answer): int {
    match a
    case Success(ret) => ret
    case Failure(code, body) =>
      if code == 503 then -ECONNABORTED
      else if body.Empty? then 0
      else if body.Unparsable? then body.errno
      else if code != 307 then 0
      else if body.endpoint.None? then -ENOENT
      else -EAGAIN
  }

  /** The answers the connection layer follows to another host. */
  predicate Redirects(a: Answer) {
    a.Failure? && a.code == 307 && a.body.Document? && a.body.endpoint.Some?
  }

  /** The answers after which the request is sent again to the original host: a lost connection, or
      unmarshalling that reports one. */
  predicate Aborts(a: Answer) {
    (a.Failure? && a.code == 503) || (a.Success? && a.ret == -ECONNABORTED)
  }

  /** The result of a request whose answer asks for no other send: a failure without a usable body, or with
      one that is no redirect, is left for the caller to look at. */
  function Final(a: Answer): int {
    match a
    case Success(ret) => if ret == -EAGAIN then -EINVAL else if ret < 0 then ret else 0
    case Failure(_, Empty) => 0
    case Failure(_, Unparsable(errno)) => errno
    case Failure(code, Document(_)) => if code == 307 then -ENOENT else 0
  }

  lemma ProcessTells(a: Answer)
    ensures Process(a) == -ECONNABORTED <==> Aborts(a)
    ensures Process(a) == -EAGAIN <==> Redirects(a) || a == Success(-EAGAIN)
    ensures Process(a) != -ECONNABORTED && Process(a) != -EAGAIN ==> Final(a) == if Process(a) < 0 then Process(a) else 0
  {
  }

  /** What happens around one send. */
  datatype Turn =
    Turn(prepareRet: int, signature: Option<string>, requestRet: int, dispatchRet: int, answer: Answer, connectRet: int)

  /** A send: the host connected to, the host the request names, and its headers. */
  datatype Send = Send(connHost: string, host: string, hdrs: seq<Hdr>)

  /** The host the request names at send `k`: the endpoint of the last redirect. */
  function HostAt(host: string, env: nat -> Turn, k: nat): string {
    if k == 0 then host
    else if Redirects(env(k - 1).answer) then env(k - 1).answer.body.endpoint.value
    else HostAt(host, env, k - 1)
  }

  function Signature(signs: bool, t: Turn): Option<string> {
    if signs then t.signature else None
  }

  /** What send `k` of a request looks like: after a redirect it goes to the host it names, otherwise,
      so after a lost connection too, to the original host. */
  function SendAt(host: string, built: seq<Hdr>, clen: string, signs: bool, env: nat -> Turn, k: nat): Send {
    var named := HostAt(host, env, k);
    Send(if k > 0 && Redirects(env(k - 1).answer) then named else host, named,
         Prepared(built, clen, Signature(signs, env(k))))
  }

  /** Behind the last redirect the request keeps naming its endpoint; without one, the original host. */
  lemma {:induction false} NamedByLastRedirect(host: string, env: nat -> Turn, j: nat, k: nat)
    requires j <= k && forall i: nat | j <= i < k :: !Redirects(env(i).answer)
    ensures HostAt(host, env, k) == HostAt(host, env, j)
    ensures j == 0 ==> HostAt(host, env, k) == host
    ensures j > 0 && Redirects(env(j - 1).answer) ==> HostAt(host, env, k) == env(j - 1).answer.body.endpoint.value
  {
    if j < k {
      NamedByLastRedirect(host, env, j, k - 1);
    }
  }

  /** A send goes to the host it names exactly when it is the first, follows a redirect, or still names
      the original host: a retry behind a redirect to another host goes to the wrong one. */
  lemma GoesWhereItNames(host: string, built: seq<Hdr>, clen: string, signs: bool, env: nat -> Turn, k: nat)
    ensures var send := SendAt(host, built, clen, signs, env, k);
            send.connHost == send.host <==>
              k == 0 || Redirects(env(k - 1).answer)
              || (forall i: nat | i < k :: !Redirects(env(i).answer))
              || HostAt(host, env, k) == host
  {
    if forall i: nat | i < k :: !Redirects(env(i).answer) {
      NamedByLastRedirect(host, env, 0, k);
    }
  }

  function AnswerTurn(a: Answer): Turn {
    Turn(0, None, 0, 0, a, 0)
  }

  /** A redirect to another host, then a lost connection. */
  function RedirectThenLost(endpoint: string, k: nat): Answer {
    if k == 0 then Failure(307, Document(Some(endpoint))) else if k == 1 then Failure(503, Empty) else Success(0)
  }

  /** An instance: the third send of such a request names the endpoint and goes to the original host. */
  lemma RetryGoesToTheWrongHost(host: string, endpoint: string, built: seq<Hdr>, clen: string, env: nat -> Turn)
    requires endpoint != host && forall k: nat :: env(k) == AnswerTurn(RedirectThenLost(endpoint, k))
    ensures Resent(env, 2)
    ensures SendAt(host, built, clen, false, env, 2).host == endpoint
    ensures SendAt(host, built, clen, false, env, 2).connHost == host
  {
    assert env(0).answer == Failure(307, Document(Some(endpoint))) && env(1).answer == Failure(503, Empty);
    NamedByLastRedirect(host, env, 1, 2);
  }

  datatype Conn = Conn(hostname: string, insecureHttp: bool, isS3: bool)

  /** elasto_conn_send_prepare as far as headers go: Content-Length, then the signature over them. */
  method SendPrepare(op: Op, clen: string, t: Turn) returns (ret: int)
    requires op.Valid()
    modifies op`hdrs, op`numHdrs
    ensures op.Valid()
    ensures ret == 0 ==> op.hdrs == Prepared(old(op.hdrs), clen, Signature(op.signs, t)) && (op.signs ==> t.signature.Some?)
    ensures ret == if t.prepareRet < 0 then t.prepareRet else if op.signs && t.signature.None? then -EINVAL else 0
  {
    if t.prepareRet < 0 {
      return t.prepareRet;
    }
    op.HdrAdd(CLEN, clen);
    if op.signs {
      if t.signature.None? {
        return -EINVAL;
      }
      op.HdrAdd(AUTH, t.signature.value);
    }
    return 0;
  }

  /** op_req_redirect */
  method ReqRedirect(op: Op, a: Answer, ghost built: seq<Hdr>, ghost clen: string, ghost auth: string) returns (ret: int)
    requires op.Valid() && Lacks(built, CLEN) && Lacks(built, AUTH)
    requires op.hdrs == Prepared(built, clen, if op.signs then Some(auth) else None)
    modifies op
    ensures op.Valid() && op.retries == old(op.retries)
    ensures ret == 0 <==> Redirects(a) && old(op.redirects) < OP_MAX_REDIRECTS
    ensures ret == 0 ==> op.redirects == old(op.redirects) + 1 && op.urlHost == a.body.endpoint.value && op.hdrs == built
    ensures ret <= 0 && (Redirects(a) && ret != 0 ==> ret == -ELOOP) && (a.Success? ==> ret == -EINVAL)
    ensures ret != 0 ==> unchanged(op)
  {
    if !a.Failure? || a.code != 307 {
      return -EINVAL;
    }
    if !a.body.Document? || a.body.endpoint.None? {
      return -EFAULT;
    }
    if op.redirects >= OP_MAX_REDIRECTS {
      return -ELOOP;
    }
    op.redirects := op.redirects + 1;
    op.urlHost := a.body.endpoint.value;
    op.DupHdrsDel(built, clen, auth);
    return 0;
  }

  /** op_req_retry */
  method ReqRetry(op: Op, ghost built: seq<Hdr>, ghost clen: string, ghost auth: string) returns (ret: int)
    requires op.Valid() && Lacks(built, CLEN) && Lacks(built, AUTH)
    requires op.hdrs == Prepared(built, clen, if op.signs then Some(auth) else None)
    modifies op
    ensures op.Valid() && op.redirects == old(op.redirects) && op.urlHost == old(op.urlHost)
    ensures ret == if old(op.retries) < OP_MAX_RETRIES then 0 else -ETIMEDOUT
    ensures ret == 0 ==> op.retries == old(op.retries) + 1 && op.hdrs == built
    ensures ret != 0 ==> unchanged(op)
  {
    if op.retries >= OP_MAX_RETRIES {
      return -ETIMEDOUT;
    }
    op.retries := op.retries + 1;
    op.DupHdrsDel(built, clen, auth);
    return 0;
  }

  /** The end of a turn of the loop: the request is prepared for another send and the host to connect
      to chosen, or the loop ends. */
  method Follow(conn: Conn, op: Op, t: Turn, ghost built: seq<Hdr>, ghost clen: string, ghost auth: string)
    returns (ret: int, again: bool, connHost: string)
    requires op.Valid() && Lacks(built, CLEN) && Lacks(built, AUTH)
    requires op.hdrs == Prepared(built, clen, if op.signs then Some(auth) else None)
    modifies op
    ensures op.Valid() && ret <= 0
    ensures if ret == 0 && again then Continues(conn.isS3, t, old(op.redirects), old(op.retries))
            else Ends(conn.isS3, t, old(op.redirects), old(op.retries), ret)
    ensures ret == 0 && again ==>
              && op.redirects == old(op.redirects) + (if Redirects(t.answer) then 1 else 0)
              && op.retries == old(op.retries) + (if Redirects(t.answer) then 0 else 1)
              && op.hdrs == built && (Redirects(t.answer) || Aborts(t.answer))
              && op.urlHost == (if Redirects(t.answer) then t.answer.body.endpoint.value else old(op.urlHost))
              && connHost == (if Redirects(t.answer) then op.urlHost else conn.hostname)
    ensures ret != 0 || !again ==> op.redirects >= old(op.redirects) && op.retries >= old(op.retries)
  {
    hide Process;
    ProcessTells(t.answer);
    again, connHost := true, conn.hostname;
    ret := Process(t.answer);
    if ret == -EAGAIN {
      ret := ReqRedirect(op, t.answer, built, clen, auth);
      if ret < 0 {
        return;
      }
      if !conn.isS3 {
        return -EINVAL, again, connHost;
      }
      if t.connectRet < 0 {
        return t.connectRet, again, connHost;
      }
      connHost := op.urlHost;
    } else if ret == -ECONNABORTED {
      if t.connectRet < 0 {
        return t.connectRet, again, connHost;
      }
      ret := ReqRetry(op, built, clen, auth);
    } else if ret >= 0 {
      ret, again := 0, false;
    }
  }

  /** After such a turn, with so many redirects and retries before it, the request is sent again. */
  predicate Continues(isS3: bool, t: Turn, redirects: nat, retries: nat) {
    && t.connectRet >= 0
    && if Redirects(t.answer) then isS3 && redirects < 2 else Aborts(t.answer) && retries < 2
  }

  /** After such a turn the loop ends with `ret`: the limit is reached, the reconnection fails, or the
      answer asks for no other send. */
  predicate Ends(isS3: bool, t: Turn, redirects: nat, retries: nat, ret: int) {
    if Redirects(t.answer) then
      if redirects >= 2 then ret == -ELOOP
      else if !isS3 then ret == -EINVAL
      else t.connectRet < 0 && ret == t.connectRet
    else if Aborts(t.answer) then
      if t.connectRet < 0 then ret == t.connectRet else retries >= 2 && ret == -ETIMEDOUT
    else ret == Final(t.answer)
  }

  /** How many of the first `n` answers were redirects. */
  function Redirections(env: nat -> Turn, n: nat): nat {
    if n == 0 then 0 else Redirections(env, n - 1) + if Redirects(env(n - 1).answer) then 1 else 0
  }

  /** How many of the first `n` answers reported a lost connection. */
  function Losses(env: nat -> Turn, n: nat): nat {
    if n == 0 then 0 else Losses(env, n - 1) + if Aborts(env(n - 1).answer) then 1 else 0
  }

  /** The turn gets as far as a send. */
  predicate Sends(signs: bool, t: Turn) {
    t.prepareRet >= 0 && (signs ==> t.signature.Some?) && t.requestRet >= 0
  }

  /** Why a turn gets not so far. */
  function SendError(signs: bool, t: Turn): int {
    if t.prepareRet < 0 then t.prepareRet else if signs && t.signature.None? then -EINVAL else -ENOMEM
  }

  /** The first `n` turns were all sends that led to another send. */
  ghost predicate WentOn(isS3: bool, signs: bool, env: nat -> Turn, n: nat, redirects: nat, retries: nat) {
    forall k: nat {:trigger env(k)} | k < n ::
      && Sends(signs, env(k)) && env(k).dispatchRet >= 0
      && Continues(isS3, env(k), redirects + Redirections(env, k), retries + Losses(env, k))
  }

  /** What stops a loop that made `n` sends, with `ret`. */
  ghost predicate Stops(isS3: bool, signs: bool, env: nat -> Turn, n: nat, redirects: nat, retries: nat, ret: int) {
    || (WentOn(isS3, signs, env, n, redirects, retries) && !Sends(signs, env(n)) && ret == SendError(signs, env(n)))
    || (n > 0 && WentOn(isS3, signs, env, n - 1, redirects, retries) && Sends(signs, env(n - 1))
        && if env(n - 1).dispatchRet < 0 then ret == -EBADF
           else Ends(isS3, env(n - 1), redirects + Redirections(env, n - 1), retries + Losses(env, n - 1), ret))
  }

  /** Nothing but the answers can end the loop. */
  ghost predicate AllWorks(env: nat -> Turn) {
    forall k: nat {:trigger env(k)} ::
      env(k).prepareRet >= 0 && env(k).signature.Some? && env(k).requestRet >= 0 && env(k).dispatchRet >= 0
      && env(k).connectRet >= 0
  }

  /** What the answers alone say about a new request that was sent `n` times with result `ret`: it is sent
      again after each lost connection while fewer than two retries were made, and after each redirect
      while fewer than two redirects were; the first other answer, or the third of a kind, ends it. */
  ghost predicate Answered(env: nat -> Turn, n: nat, ret: int) {
    && n > 0 && Redirections(env, n - 1) <= 2 && Losses(env, n - 1) <= 2
    && (forall k: nat {:trigger env(k)} | k < n - 1 ::
          var a := env(k).answer;
          || (a.Failure? && a.code == 503) || a == Success(-ECONNABORTED)
          || (a.Failure? && a.code == 307 && a.body.Document? && a.body.endpoint.Some?))
    && var last := env(n - 1).answer;
       if (last.Failure? && last.code == 503) || last == Success(-ECONNABORTED) then
         Losses(env, n - 1) == 2 && ret == -ETIMEDOUT
       else if last.Failure? && last.code == 307 && last.body.Document? && last.body.endpoint.Some? then
         Redirections(env, n - 1) == 2 && ret == -ELOOP
       else ret == Final(last)
  }

  lemma AnswersDecide(env: nat -> Turn, signs: bool, n: nat, ret: int)
    requires AllWorks(env)
    ensures Stops(true, signs, env, n, 0, 0, ret) <==> Answered(env, n, ret)
  {
    hide Stops, Redirections, Losses, Final, AllWorks;
    if n == 0 {
      NothingStops(env, signs, ret);
    } else {
      StopsByAnswers(env, signs, n, ret);
    }
  }

  /** An instance: a lost connection and then a success are two sends and the result 0. */
  lemma LostThenAnswered(env: nat -> Turn, signs: bool, n: nat, ret: int)
    requires AllWorks(env) && env(0).answer == Failure(503, Empty) && env(1).answer == Success(0)
    requires Stops(true, signs, env, n, 0, 0, ret)
    ensures n == 2 && ret == 0
  {
    assert Redirections(env, 1) == Redirections(env, 0) && Losses(env, 1) == Losses(env, 0) + 1;
    assert forall k: nat {:trigger env(k)} | k < 1 :: k == 0;
    AnswersDecide(env, signs, 2, 0);
    StopsOnce(true, signs, env, 0, 0, n, ret, 2, 0);
  }

  lemma NothingStops(env: nat -> Turn, signs: bool, ret: int)
    requires AllWorks(env)
    ensures !Stops(true, signs, env, 0, 0, 0, ret)
  {
    assert env(0).prepareRet >= 0;
  }

  lemma StopsByAnswers(env: nat -> Turn, signs: bool, n: nat, ret: int)
    requires AllWorks(env) && n > 0
    ensures Stops(true, signs, env, n, 0, 0, ret) <==>
              && Redirections(env, n - 1) <= 2 && Losses(env, n - 1) <= 2 && Resent(env, n - 1)
              && var last := env(n - 1).answer;
                 if Aborts(last) then Losses(env, n - 1) == 2 && ret == -ETIMEDOUT
                 else if Redirects(last) then Redirections(env, n - 1) == 2 && ret == -ELOOP
                 else ret == Final(last)
  {
    hide WentOn, Redirections, Losses, Final, Redirects, Aborts, Resent;
    assert env(n).prepareRet >= 0 && env(n - 1).prepareRet >= 0;
    WentOnByAnswers(env, signs, n - 1);
    NotBoth(env(n - 1).answer);
  }

  lemma NotBoth(a: Answer)
    ensures !(Redirects(a) && Aborts(a))
  {
  }

  lemma {:induction false} WentOnByAnswers(env: nat -> Turn, signs: bool, n: nat)
    requires AllWorks(env)
    ensures WentOn(true, signs, env, n, 0, 0) <==> Resent(env, n) && Redirections(env, n) <= 2 && Losses(env, n) <= 2
  {
    hide WentOn, Resent, Redirects, Aborts;
    if n == 0 {
      NoneWentOn(true, signs, env, 0, 0);
      NothingResent(env);
    } else {
      WentOnByAnswers(env, signs, n - 1);
      WentOnNext(true, signs, env, n - 1, 0, 0);
      ResentOneMore(env, n - 1);
      NotBoth(env(n - 1).answer);
      assert env(n - 1).prepareRet >= 0;
    }
  }

  lemma NothingResent(env: nat -> Turn)
    ensures Resent(env, 0)
  {
  }

  lemma ResentOneMore(env: nat -> Turn, n: nat)
    ensures Resent(env, n + 1) <==> Resent(env, n) && (Redirects(env(n).answer) || Aborts(env(n).answer))
  {
  }

  lemma WentOnNext(isS3: bool, signs: bool, env: nat -> Turn, n: nat, redirects: nat, retries: nat)
    ensures WentOn(isS3, signs, env, n + 1, redirects, retries) <==>
              && WentOn(isS3, signs, env, n, redirects, retries)
              && Sends(signs, env(n)) && env(n).dispatchRet >= 0
              && Continues(isS3, env(n), redirects + Redirections(env, n), retries + Losses(env, n))
  {
    hide Sends, Continues, Redirections, Losses;
  }

  lemma NoneWentOn(isS3: bool, signs: bool, env: nat -> Turn, redirects: nat, retries: nat)
    ensures WentOn(isS3, signs, env, 0, redirects, retries) && Redirections(env, 0) == Losses(env, 0) == 0
  {
  }

  lemma GoesOn(isS3: bool, signs: bool, env: nat -> Turn, n: nat, redirects: nat, retries: nat)
    requires n > 0 && WentOn(isS3, signs, env, n - 1, redirects, retries)
    requires Sends(signs, env(n - 1)) && env(n - 1).dispatchRet >= 0
    requires Continues(isS3, env(n - 1), redirects + Redirections(env, n - 1), retries + Losses(env, n - 1))
    ensures WentOn(isS3, signs, env, n, redirects, retries)
    ensures Redirections(env, n) == Redirections(env, n - 1) + if Redirects(env(n - 1).answer) then 1 else 0
    ensures Losses(env, n) == Losses(env, n - 1) + if Redirects(env(n - 1).answer) then 0 else 1
  {
    hide WentOn, Sends, Redirects, Aborts;
    WentOnNext(isS3, signs, env, n - 1, redirects, retries);
    NotBoth(env(n - 1).answer);
  }

  /** A loop stops in one way only. */
  lemma StopsOnce(isS3: bool, signs: bool, env: nat -> Turn, redirects: nat, retries: nat, n: nat, ret: int, m: nat, ret': int)
    requires Stops(isS3, signs, env, n, redirects, retries, ret) && Stops(isS3, signs, env, m, redirects, retries, ret')
    ensures n == m && ret == ret'
  {
    hide Stops;
    NotStoppedBefore(isS3, signs, env, redirects, retries, n, ret, m, ret');
    NotStoppedBefore(isS3, signs, env, redirects, retries, m, ret', n, ret);
    StopsWith(isS3, signs, env, redirects, retries, n, ret, ret');
  }

  lemma NotStoppedBefore(isS3: bool, signs: bool, env: nat -> Turn, redirects: nat, retries: nat, n: nat, ret: int,
                         m: nat, ret': int)
    requires Stops(isS3, signs, env, n, redirects, retries, ret) && Stops(isS3, signs, env, m, redirects, retries, ret')
    ensures !(n < m)
  {
    hide Sends, SendError, Redirections, Losses, Ends, Continues;
    if n < m {
      if n < m - 1 || WentOn(isS3, signs, env, m, redirects, retries) {
        assert Sends(signs, env(n));
      }
      if n > 0 {
        EndsOrContinues(isS3, env(n - 1), redirects + Redirections(env, n - 1), retries + Losses(env, n - 1), ret, ret);
      }
    }
  }

  lemma StopsWith(isS3: bool, signs: bool, env: nat -> Turn, redirects: nat, retries: nat, n: nat, ret: int, ret': int)
    requires Stops(isS3, signs, env, n, redirects, retries, ret) && Stops(isS3, signs, env, n, redirects, retries, ret')
    ensures ret == ret'
  {
    hide Sends, SendError, Redirections, Losses, Ends, Continues;
    if n > 0 {
      var t, r, l := env(n - 1), redirects + Redirections(env, n - 1), retries + Losses(env, n - 1);
      EndsOrContinues(isS3, t, r, l, ret, ret');
      EndsOrContinues(isS3, t, r, l, ret', ret);
      WentOnNext(isS3, signs, env, n - 1, redirects, retries);
    }
  }

  lemma EndsOrContinues(isS3: bool, t: Turn, redirects: nat, retries: nat, ret: int, ret': int)
    ensures Ends(isS3, t, redirects, retries, ret) ==> !Continues(isS3, t, redirects, retries)
    ensures Ends(isS3, t, redirects, retries, ret) && Ends(isS3, t, redirects, retries, ret') ==> ret == ret'
  {
  }

  ghost predicate Traced(sends: seq<Send>, host: string, built: seq<Hdr>, clen: string, signs: bool, env: nat -> Turn) {
    forall k | 0 <= k < |sends| :: sends[k] == SendAt(host, built, clen, signs, env, k)
  }

  /** The first `n` answers ask for another send. */
  ghost predicate Resent(env: nat -> Turn, n: int) {
    forall k: nat | k < n :: Redirects(env(k).answer) || Aborts(env(k).answer)
  }

  lemma TraceNext(sends: seq<Send>, host: string, built: seq<Hdr>, clen: string, signs: bool, env: nat -> Turn, send: Send)
    requires Traced(sends, host, built, clen, signs, env)
    requires send.host == HostAt(host, env, |sends|)
    requires send.connHost == if |sends| > 0 && Redirects(env(|sends| - 1).answer) then send.host else host
    requires send.hdrs == Prepared(built, clen, Signature(signs, env(|sends|)))
    ensures Traced(sends + [send], host, built, clen, signs, env)
  {
  }

  lemma HostNext(host: string, env: nat -> Turn, k: nat)
    ensures HostAt(host, env, 0) == host
    ensures HostAt(host, env, k + 1)
            == if Redirects(env(k).answer) then env(k).answer.body.endpoint.value else HostAt(host, env, k)
  {
  }

  /** The send loop.  Whatever the answers, there are at most five sends of a new request, each with
      exactly the builder's headers and the ones the connection layer adds; all but the last were
      answered with a redirect or a lost connection. */
  method Txrx(conn: Conn, op: Op, clen: string, connected: bool, connectRet: int, env: nat -> Turn)
    returns (ret: int, ghost sends: seq<Send>)
    requires op.Valid() && Lacks(op.hdrs, CLEN) && Lacks(op.hdrs, AUTH)
    modifies op
    ensures op.Valid()
    ensures |sends| <= 1 + (op.redirects - old(op.redirects)) + (op.retries - old(op.retries))
    ensures old(op.redirects) == 0 && old(op.retries) == 0 ==> |sends| <= 5
    ensures conn.hostname == old(op.urlHost) && !(conn.insecureHttp && op.httpsOnly) ==>
              if !connected && connectRet < 0 then ret == connectRet && sends == []
              else Stops(conn.isS3, op.signs, env, |sends|, old(op.redirects), old(op.retries), ret)
    ensures conn.hostname == old(op.urlHost) && !(conn.insecureHttp && op.httpsOnly) && (connected || connectRet >= 0)
            && conn.isS3 && old(op.redirects) == 0 && old(op.retries) == 0 && AllWorks(env) ==>
              Answered(env, |sends|, ret)
    ensures Traced(sends, conn.hostname, old(op.hdrs), clen, op.signs, env)
    ensures Resent(env, |sends| - 1)
    ensures conn.hostname != old(op.urlHost) || (conn.insecureHttp && op.httpsOnly) ==> ret == -EINVAL && sends == []
    ensures ret <= 0
  {
    hide Redirects, Aborts, Prepared, Lacks, Traced, Resent, HostAt, Stops, Answered, AllWorks;
    sends := [];
    assert Traced(sends, conn.hostname, op.hdrs, clen, op.signs, env) && Resent(env, -1) && Resent(env, 0) by {
      NothingSent(conn.hostname, op.hdrs, clen, op.signs, env);
    }
    if conn.hostname != op.urlHost || (conn.insecureHttp && op.httpsOnly) {
      return -EINVAL, sends;
    }
    if !connected && connectRet < 0 {
      return connectRet, sends;
    }
    HostNext(conn.hostname, env, 0);
    ret, sends := SendAll(conn, op, clen, env);
    if AllWorks(env) {
      AnswersDecide(env, op.signs, |sends|, ret);
    }
  }

  /** The loop itself. */
  method SendAll(conn: Conn, op: Op, clen: string, env: nat -> Turn) returns (ret: int, ghost sends: seq<Send>)
    requires op.Valid() && Lacks(op.hdrs, CLEN) && Lacks(op.hdrs, AUTH)
    requires op.urlHost == HostAt(conn.hostname, env, 0)
    modifies op
    ensures op.Valid()
    ensures |sends| <= 1 + (op.redirects - old(op.redirects)) + (op.retries - old(op.retries))
    ensures Traced(sends, conn.hostname, old(op.hdrs), clen, op.signs, env) && Resent(env, |sends| - 1)
    ensures ret <= 0 && Stops(conn.isS3, op.signs, env, |sends|, old(op.redirects), old(op.retries), ret)
  {
    hide Redirects, Aborts, Prepared, Lacks, Traced, Resent, HostAt, Stops, Sends, SendError, Ends, Continues, Signature,
      Course;
    ghost var built, redirects, retries := op.hdrs, op.redirects, op.retries;
    sends := [];
    CourseBegins(conn.hostname, built, clen, conn.isS3, op.signs, env, redirects, retries);
    var k: nat, connHost, again := 0, conn.hostname, true;
    while again
      invariant op.Valid() && |sends| == k == (op.redirects - redirects) + (op.retries - retries) && again
      invariant op.hdrs == built && op.urlHost == HostAt(conn.hostname, env, k)
      invariant connHost == if k > 0 && Redirects(env(k - 1).answer) then op.urlHost else conn.hostname
      invariant Course(sends, conn.hostname, built, clen, conn.isS3, op.signs, env, redirects, retries, op.redirects, op.retries)
      decreases (OP_MAX_REDIRECTS - op.redirects) + (OP_MAX_RETRIES - op.retries)
    {
      var t := env(k);
      var sent;
      ret, sent := SendOnce(op, clen, t);
      if !sent {
        CourseBreaks(sends, conn.hostname, built, clen, conn.isS3, op.signs, env, redirects, retries, op.redirects, op.retries);
        return ret, sends;
      }
      sends := CourseNext(sends, connHost, op.urlHost, op.hdrs, conn.hostname, built, clen, conn.isS3, op.signs, env,
                          redirects, retries, op.redirects, op.retries);
      k := k + 1;
      if ret < 0 {
        return ret, sends;
      }
      ghost var auth := if op.signs then t.signature.value else "";
      ret, again, connHost := Follow(conn, op, t, built, clen, auth);
      if ret < 0 || !again {
        return ret, sends;
      }
    }
  }

  /** Where the loop stands after the given sends, when it began with the first numbers of redirects and
      retries and has the last ones now. */
  ghost predicate Course(sends: seq<Send>, host: string, built: seq<Hdr>, clen: string, isS3: bool, signs: bool,
                         env: nat -> Turn, redirects0: nat, retries0: nat, redirects: nat, retries: nat) {
    && Traced(sends, host, built, clen, signs, env) && Resent(env, |sends|)
    && WentOn(isS3, signs, env, |sends|, redirects0, retries0)
    && redirects == redirects0 + Redirections(env, |sends|) && retries == retries0 + Losses(env, |sends|)
  }

  lemma CourseBegins(host: string, built: seq<Hdr>, clen: string, isS3: bool, signs: bool, env: nat -> Turn,
                     redirects: nat, retries: nat)
    ensures Course([], host, built, clen, isS3, signs, env, redirects, retries, redirects, retries)
  {
  }

  /** The next turn makes no send. */
  lemma CourseBreaks(sends: seq<Send>, host: string, built: seq<Hdr>, clen: string, isS3: bool, signs: bool,
                     env: nat -> Turn, redirects0: nat, retries0: nat, redirects: nat, retries: nat)
    requires Course(sends, host, built, clen, isS3, signs, env, redirects0, retries0, redirects, retries)
    requires !Sends(signs, env(|sends|))
    ensures Traced(sends, host, built, clen, signs, env) && Resent(env, |sends| - 1)
    ensures Stops(isS3, signs, env, |sends|, redirects0, retries0, SendError(signs, env(|sends|)))
  {
    hide Traced, Sends, SendError, WentOn, Redirections, Losses, Redirects, Aborts;
  }

  /** The next send is the one the answers so far lead to, and its turn decides how the loop goes on. */
  lemma CourseNext(sends: seq<Send>, connHost: string, named: string, hdrs: seq<Hdr>, host: string, built: seq<Hdr>,
                   clen: string, isS3: bool, signs: bool, env: nat -> Turn, redirects0: nat, retries0: nat,
                   redirects: nat, retries: nat)
    returns (sends': seq<Send>)
    requires Course(sends, host, built, clen, isS3, signs, env, redirects0, retries0, redirects, retries)
    requires named == HostAt(host, env, |sends|) && Sends(signs, env(|sends|))
    requires hdrs == Prepared(built, clen, Signature(signs, env(|sends|)))
    requires connHost == if |sends| > 0 && Redirects(env(|sends| - 1).answer) then named else host
    ensures var n, t := |sends'|, env(|sends|);
            && n == |sends| + 1 && Traced(sends', host, built, clen, signs, env) && Resent(env, n - 1)
            && HostAt(host, env, n) == (if Redirects(t.answer) then t.answer.body.endpoint.value else named)
            && (t.dispatchRet < 0 ==> Stops(isS3, signs, env, n, redirects0, retries0, -EBADF))
            && (forall ret {:trigger Ends(isS3, t, redirects, retries, ret)} | t.dispatchRet >= 0 && Ends(isS3, t, redirects, retries, ret) ::
                  Stops(isS3, signs, env, n, redirects0, retries0, ret))
            && (t.dispatchRet >= 0 && Continues(isS3, t, redirects, retries) ==>
                  Course(sends', host, built, clen, isS3, signs, env, redirects0, retries0,
                         redirects + (if Redirects(t.answer) then 1 else 0), retries + (if Redirects(t.answer) then 0 else 1)))
  {
    hide Traced, Resent, WentOn, Sends, Ends, Redirections, Losses, HostAt, Prepared, Signature, Redirects, Aborts;
    var t := env(|sends|);
    var send := Send(connHost, named, hdrs);
    sends' := sends + [send];
    TraceNext(sends, host, built, clen, signs, env, send);
    HostNext(host, env, |sends|);
    ResentOneMore(env, |sends|);
    if t.dispatchRet >= 0 && Continues(isS3, t, redirects, retries) {
      GoesOn(isS3, signs, env, |sends'|, redirects0, retries0);
    }
  }

  /** One send, up to the return of the event loop. */
  method SendOnce(op: Op, clen: string, t: Turn) returns (ret: int, sent: bool)
    requires op.Valid()
    modifies op`hdrs, op`numHdrs
    ensures op.Valid() && (sent <==> Sends(op.signs, t))
    ensures !sent ==> ret == SendError(op.signs, t) < 0
    ensures sent ==> ret == if t.dispatchRet < 0 then -EBADF else 0
    ensures sent ==>
              && op.hdrs == Prepared(old(op.hdrs), clen, Signature(op.signs, t)) && (op.signs ==> t.signature.Some?)
              && Signature(op.signs, t) == if op.signs then Some(t.signature.value) else None
  {
    ret := SendPrepare(op, clen, t);
    if ret < 0 {
      return ret, false;
    }
    if t.requestRet < 0 {
      return -ENOMEM, false;
    }
    ret, sent := if t.dispatchRet < 0 then -EBADF else 0, true;
  }

  lemma NothingSent(host: string, built: seq<Hdr>, clen: string, signs: bool, env: nat -> Turn)
    ensures Traced([], host, built, clen, signs, env) && Resent(env, -1) && Resent(env, 0)
  {
  }
}
