/** `SIO_SendRequest`: argument checks, the device lock, the transaction id,
    the send loop over the fragments and the read loop, as one pure function
    of the device's current transaction id and a scripted environment. */
module Transport {
  import opened Base
  import opened Errors
  import opened Protocol
  import opened Fragmentation
  import opened Reassembly

  /** The result of the `i`-th `hid_write`; a script that runs out fails. */
  function WriteAt(writes: seq<int>, i: nat): int
  {
    if i < |writes| then writes[i] else -1
  }

  /** The result of the last write and how many reports were written. */
  datatype SendOutcome = SendOutcome(res: int, count: nat)

  /** The send loop from report `i` on: each report is written, and the loop
      stops after the last report or after the first write that does not
      return a positive count. */
  function SendFrom(n: nat, writes: seq<int>, i: nat): (s: SendOutcome)
    requires i < n
    ensures i < s.count <= n
    ensures s.res == WriteAt(writes, s.count - 1)
    ensures forall j | i <= j < s.count - 1 :: WriteAt(writes, j) > 0
    ensures s.count < n ==> s.res <= 0
    decreases n - i
  {
    var res := WriteAt(writes, i);
    if res > 0 && i + 1 < n then SendFrom(n, writes, i + 1) else SendOutcome(res, i + 1)
  }

  /** What one call leaves behind: its status (0 on success, the byte count
      going to `*inLen`), the reports written, the bytes received and the
      device's transaction id afterwards. */
  datatype Exchange = Exchange(status: int, sent: seq<OutReport>, received: seq<byte>, nextTransId: uint8)

  /** The argument check at the top of the function: a non-empty payload
      behind a null pointer, or an `inLen` without a buffer. */
  predicate BadArgs(out: OutArg, inArg: InArg)
  {
    (out.OutNull? && out.len > 0) || inArg.ReplyNull?
  }

  /** Where the received bytes go for a caller's response arguments. */
  function SinkOf(checked: bool, inArg: InArg): Sink
  {
    match inArg
    case ReplyInto(cap) => if checked then Bounded(cap) else Unbounded
    case _ => Discard
  }

  /** The part of the request that runs under the lock: the reports are
      written, then read back if the last write succeeded. */
  function Locked(g: Geometry, tid: uint8, ses: uint8, req: Req, payload: seq<byte>, sink: Sink, env: Env)
    : (x: Exchange)
    requires ValidGeometry(g)
    ensures x.status <= OK
    ensures x.nextTransId == (tid + 1) % 256
    ensures 1 <= |x.sent| && x.sent <= Fragments(g, tid, ses, req, payload)
    ensures !env.unlockOk ==> x.status == ERR_SYNCHRONIZATION
    ensures sink.Discard? ==> x.received == []
    ensures sink.Bounded? ==> |x.received| <= sink.capacity
  {
    var frags := Fragments(g, tid, ses, req, payload);
    var s := SendFrom(|frags|, env.writes, 0);
    var o := if s.res > 0 then ReadPhase(g, tid, sink, env.replies, []) else ReadOutcome(s.res, []);
    Exchange(if env.unlockOk then o.status else ERR_SYNCHRONIZATION, frags[..s.count], o.data, (tid + 1) % 256)
  }

  /** The request as the source performs it (`checked` false: the reply is
      copied into the buffer however long it is) or with the buffer capacity
      checked before each copy (`checked` true). */
  function Perform(g: Geometry, checked: bool, tid: uint8, ses: uint8, req: Req, out: OutArg, inArg: InArg, env: Env)
    : (x: Exchange)
    requires ValidGeometry(g)
  {
    if BadArgs(out, inArg) then Exchange(ERR_INVALID_PARAM, [], [], tid)
    else if !env.lockOk then Exchange(ERR_SYNCHRONIZATION, [], [], tid)
    else Locked(g, tid, ses, req, PayloadOf(out), SinkOf(checked, inArg), env)
  }

  /** The request exactly as the source performs it. */
  function SendRequestAsWritten(g: Geometry, tid: uint8, ses: uint8, req: Req, out: OutArg, inArg: InArg, env: Env)
    : (x: Exchange)
    requires ValidGeometry(g)
    ensures x.status <= OK
    ensures inArg.NoReply? ==> x.received == []
  {
    Perform(g, false, tid, ses, req, out, inArg, env)
  }

  /** The request with the received bytes bounded by the buffer's capacity;
      a reply that would overflow the buffer ends the exchange with
      ERR_PARTIAL_DATA. The rest of the model uses this one. */
  function SendRequest(g: Geometry, tid: uint8, ses: uint8, req: Req, out: OutArg, inArg: InArg, env: Env)
    : (x: Exchange)
    requires ValidGeometry(g)
    ensures x.status <= OK
    // Argument errors and lock failures come first and consume no id.
    ensures BadArgs(out, inArg) ==> x == Exchange(ERR_INVALID_PARAM, [], [], tid)
    ensures !BadArgs(out, inArg) && !env.lockOk ==> x == Exchange(ERR_SYNCHRONIZATION, [], [], tid)
    // Past the lock, the id advances by one whatever the outcome.
    ensures !BadArgs(out, inArg) && env.lockOk ==>
              && x.nextTransId == (tid + 1) % 256
              && 1 <= |x.sent| && x.sent <= Fragments(g, tid, ses, req, PayloadOf(out))
              && (!env.unlockOk ==> x.status == ERR_SYNCHRONIZATION)
    // Bytes arrive only for a caller that asked for them, and never more than fit.
    ensures !inArg.ReplyInto? ==> x.received == []
    ensures inArg.ReplyInto? ==> |x.received| <= inArg.capacity
  {
    Perform(g, true, tid, ses, req, out, inArg, env)
  }

  /** A successful request consumed exactly one transaction id. */
  lemma SuccessConsumesOneId(g: Geometry, tid: uint8, ses: uint8, req: Req, out: OutArg, inArg: InArg, env: Env)
    requires ValidGeometry(g)
    ensures SendRequest(g, tid, ses, req, out, inArg, env).status == OK ==>
              SendRequest(g, tid, ses, req, out, inArg, env).nextTransId == (tid + 1) % 256
  {
  }

  /** Past the lock, the reports written are a non-empty prefix of the
      request's fragments, each stamped with the current transaction id,
      the session and the request code. */
  lemma StampsEveryReport(g: Geometry, tid: uint8, ses: uint8, req: Req, out: OutArg, inArg: InArg, env: Env)
    requires ValidGeometry(g) && !BadArgs(out, inArg) && env.lockOk
    ensures var x := SendRequest(g, tid, ses, req, out, inArg, env);
            && 1 <= |x.sent| <= FragmentCount(g, |PayloadOf(out)|)
            && (forall i | 0 <= i < |x.sent| :: x.sent[i].transId == tid && x.sent[i].sesId == ses && x.sent[i].req == req)
  {
    var x := SendRequest(g, tid, ses, req, out, inArg, env);
    var frags := Fragments(g, tid, ses, req, PayloadOf(out));
    forall i | 0 <= i < |x.sent|
      ensures x.sent[i] == frags[i]
    {
    }
  }

  /** Stopping the send loop: a write that does not return a positive count
      ends sending, and then nothing is read: the write's result is the
      status (when the lock is released cleanly). */
  lemma SendStopsAtFailedWrite(g: Geometry, tid: uint8, ses: uint8, req: Req, out: OutArg, inArg: InArg, env: Env, i: nat)
    requires ValidGeometry(g) && !BadArgs(out, inArg) && env.lockOk && env.unlockOk
    requires i < FragmentCount(g, |PayloadOf(out)|)
    requires forall j | 0 <= j < i :: WriteAt(env.writes, j) > 0
    requires WriteAt(env.writes, i) <= 0
    ensures var x := SendRequest(g, tid, ses, req, out, inArg, env);
            |x.sent| == i + 1 && x.status == WriteAt(env.writes, i) && x.received == []
  {
    var frags := Fragments(g, tid, ses, req, PayloadOf(out));
    var s := SendFrom(|frags|, env.writes, 0);
    assert s.count == i + 1;
  }

  /** A first write that reports 0 bytes is not treated as a failure: no
      read is attempted, and the exchange reports success with no data. */
  lemma ZeroByteWriteReadsAsSuccess(g: Geometry, tid: uint8, ses: uint8, req: Req, out: OutArg, inArg: InArg, env: Env)
    requires ValidGeometry(g) && !BadArgs(out, inArg) && env.lockOk && env.unlockOk
    requires |env.writes| > 0 && env.writes[0] == 0
    ensures var x := SendRequest(g, tid, ses, req, out, inArg, env);
            x.status == OK && x.received == [] && |x.sent| == 1
  {
    SendStopsAtFailedWrite(g, tid, ses, req, out, inArg, env, 0);
  }

  /** When every report is written, the exchange completes with OK exactly
      when a matching final fragment arrives before anything else ends the
      read loop (for a caller whose buffer takes the reply, or who asked for
      none). */
  lemma {:induction false} CompletesIffFinalFragmentArrives(g: Geometry, tid: uint8, ses: uint8, req: Req, out: OutArg, inArg: InArg, env: Env)
    requires ValidGeometry(g) && !BadArgs(out, inArg) && env.lockOk && env.unlockOk
    requires forall j | 0 <= j < FragmentCount(g, |PayloadOf(out)|) :: WriteAt(env.writes, j) > 0
    requires inArg.ReplyInto? ==> |Received(g, tid, env.replies)| <= inArg.capacity
    ensures var x := SendRequest(g, tid, ses, req, out, inArg, env);
            var k := FirstStop(g, tid, env.replies);
            (x.status == OK <==> k < |env.replies| && Accepted(tid, env.replies[k]) && IsFinal(g, env.replies[k].report))
  {
    var frags := Fragments(g, tid, ses, req, PayloadOf(out));
    var s := SendFrom(|frags|, env.writes, 0);
    assert s.res > 0;
    CompletesIffFinalFragment(g, tid, env.replies, []);
    if inArg.ReplyInto? {
      BoundedAgreesWhenItFits(g, tid, inArg.capacity, env.replies, []);
    } else {
      DiscardAgreesOnStatus(g, tid, env.replies, [], []);
    }
  }

  /** The reply round trip through the whole exchange: when every report is
      written and the device answers with a reply carrying `data` that fits
      the buffer, the caller receives exactly `data` and the status is OK. */
  lemma RequestReceivesReply(g: Geometry, tid: uint8, ses: uint8, req: Req, out: OutArg, cap: nat, env: Env, data: seq<byte>)
    requires ValidGeometry(g) && g.packetSz >= g.dataSz
    requires !BadArgs(out, ReplyInto(cap)) && env.lockOk && env.unlockOk
    requires forall j | 0 <= j < FragmentCount(g, |PayloadOf(out)|) :: WriteAt(env.writes, j) > 0
    requires env.replies == Reply(g, tid, data) && |data| <= cap
    ensures var x := SendRequest(g, tid, ses, req, out, ReplyInto(cap), env);
            x.status == OK && x.received == data
  {
    var frags := Fragments(g, tid, ses, req, PayloadOf(out));
    var s := SendFrom(|frags|, env.writes, 0);
    assert s.res > 0;
    ReplyRoundTrip(g, tid, data);
    UnboundedData(g, tid, env.replies, []);
    BoundedAgreesWhenItFits(g, tid, cap, env.replies, []);
  }

  /** As written, a device whose reply is longer than the caller's buffer
      gets all of it copied: here a 2-byte reply into a 1-byte buffer. */
  lemma AsWrittenOverrunsTheBuffer()
    ensures var g := Geometry(64, 8, 56, n => n);
            var r := InReport(0, 0, 0, 10, [1, 2]);
            var env := Env(true, true, [65], [Report(r)]);
            |SendRequestAsWritten(g, 0, 0, DevInfo, OutNull(0), ReplyInto(1), env).received| == 2
  {
    var g := Geometry(64, 8, 56, n => n);
    var r := InReport(0, 0, 0, 10, [1, 2]);
    assert IsFinal(g, r);
  }

  /** The two versions agree whenever the reply fits the buffer. */
  lemma CheckedAgreesWhenReplyFits(g: Geometry, tid: uint8, ses: uint8, req: Req, out: OutArg, inArg: InArg, env: Env)
    requires ValidGeometry(g)
    requires inArg.ReplyInto? ==> |Received(g, tid, env.replies)| <= inArg.capacity
    ensures SendRequest(g, tid, ses, req, out, inArg, env) == SendRequestAsWritten(g, tid, ses, req, out, inArg, env)
  {
    if !BadArgs(out, inArg) && env.lockOk {
      var payload := PayloadOf(out);
      assert SendRequest(g, tid, ses, req, out, inArg, env) == Locked(g, tid, ses, req, payload, SinkOf(true, inArg), env);
      assert SendRequestAsWritten(g, tid, ses, req, out, inArg, env) == Locked(g, tid, ses, req, payload, SinkOf(false, inArg), env);
      if inArg.ReplyInto? {
        LockedAgreesWhenItFits(g, tid, ses, req, payload, inArg.capacity, env);
      } else {
        assert SinkOf(true, inArg) == SinkOf(false, inArg);
      }
    }
  }

  /** Under the lock, a reply that fits makes the capacity check moot. */
  lemma LockedAgreesWhenItFits(g: Geometry, tid: uint8, ses: uint8, req: Req, payload: seq<byte>, cap: nat, env: Env)
    requires ValidGeometry(g)
    requires |Received(g, tid, env.replies)| <= cap
    ensures Locked(g, tid, ses, req, payload, Bounded(cap), env) == Locked(g, tid, ses, req, payload, Unbounded, env)
  {
    BoundedAgreesWhenItFits(g, tid, cap, env.replies, []);
    assert [] + Received(g, tid, env.replies) == Received(g, tid, env.replies);
  }

  /** One call of a series on the same device. */
  datatype Call = Call(ses: uint8, req: Req, out: OutArg, inArg: InArg, env: Env)

  /** A call that gets past the argument check and the lock. */
  predicate Proceeds(c: Call)
  {
    !BadArgs(c.out, c.inArg) && c.env.lockOk
  }

  function CountProceeding(cs: seq<Call>): nat
  {
    if |cs| == 0 then 0 else (if Proceeds(cs[0]) then 1 else 0) + CountProceeding(cs[1..])
  }

  /** The device's transaction id after a series of calls. */
  function IdAfter(g: Geometry, tid: uint8, cs: seq<Call>): uint8
    requires ValidGeometry(g)
    decreases |cs|
  {
    if |cs| == 0 then tid
    else IdAfter(g, SendRequest(g, tid, cs[0].ses, cs[0].req, cs[0].out, cs[0].inArg, cs[0].env).nextTransId, cs[1..])
  }

  /** The id one call leaves behind. */
  lemma NextIdOfCall(g: Geometry, tid: uint8, c: Call)
    requires ValidGeometry(g)
    ensures SendRequest(g, tid, c.ses, c.req, c.out, c.inArg, c.env).nextTransId
              == if Proceeds(c) then (tid + 1) % 256 else tid
  {
  }

  /** The id a series of calls leaves behind, from `Proceeds` alone. */
  function IdByProceeding(tid: uint8, cs: seq<Call>): uint8
    decreases |cs|
  {
    if |cs| == 0 then tid
    else IdByProceeding(if Proceeds(cs[0]) then (tid + 1) % 256 else tid, cs[1..])
  }

  /** The id after a series of calls depends only on which calls proceed. */
  lemma {:induction false} IdAfterByProceeding(g: Geometry, tid: uint8, cs: seq<Call>)
    requires ValidGeometry(g)
    ensures IdAfter(g, tid, cs) == IdByProceeding(tid, cs)
    decreases |cs|
  {
    if |cs| > 0 {
      NextIdOfCall(g, tid, cs[0]);
      IdAfterByProceeding(g, if Proceeds(cs[0]) then (tid + 1) % 256 else tid, cs[1..]);
    }
  }

  lemma ModShift(t: int, n: int)
    ensures ((t + 1) % 256 + n) % 256 == (t + 1 + n) % 256
  {
  }

  /** Counting form of `IdByProceeding`. */
  lemma {:induction false} IdByProceedingCounts(tid: uint8, cs: seq<Call>)
    ensures IdByProceeding(tid, cs) == (tid + CountProceeding(cs)) % 256
    decreases |cs|
  {
    if |cs| > 0 {
      if Proceeds(cs[0]) {
        IdByProceedingCounts((tid + 1) % 256, cs[1..]);
        ModShift(tid, CountProceeding(cs[1..]));
      } else {
        IdByProceedingCounts(tid, cs[1..]);
      }
    }
  }

  /** Over any series of calls the transaction id advances by the number of
      calls that got past the argument check and the lock, modulo 256. */
  lemma IdCountsProceedingCalls(g: Geometry, tid: uint8, cs: seq<Call>)
    requires ValidGeometry(g)
    ensures IdAfter(g, tid, cs) == (tid + CountProceeding(cs)) % 256
  {
    IdAfterByProceeding(g, tid, cs);
    IdByProceedingCounts(tid, cs);
  }
}
