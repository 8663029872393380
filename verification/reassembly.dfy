/** The read half of `SIO_SendRequest`: reports are read until a matching
    final fragment, a matching error response, a timeout or a read failure,
    and the payloads of the matching reports are gathered in order. */
module Reassembly {
  import opened Base
  import opened Errors
  import opened Protocol
  import opened Fragmentation

  /** Where received bytes go: nowhere (the caller passed no `inLen`), into a
      buffer with no bound on what is copied (as the source does), or into a
      buffer whose capacity is checked before each copy. */
  datatype Sink = Discard | Unbounded | Bounded(capacity: nat)

  /** The status the read loop ends with and the bytes gathered. */
  datatype ReadOutcome = ReadOutcome(status: int, data: seq<byte>)

  /** A report answering this request (same transaction id). */
  predicate Matches(tid: uint8, x: ReadResult)
  {
    x.Report? && x.report.transId == tid
  }

  /** A matching report that carries data (response code OK). */
  predicate Accepted(tid: uint8, x: ReadResult)
  {
    Matches(tid, x) && x.report.resp == 0
  }

  /** A read result after which the loop reads again: a stale report, or an
      OK fragment that is not the last one. */
  predicate KeepsReading(g: Geometry, tid: uint8, x: ReadResult)
  {
    x.Report? && (x.report.transId != tid || (x.report.resp == 0 && !IsFinal(g, x.report)))
  }

  /** The bytes one read result contributes. */
  function Delivered(tid: uint8, x: ReadResult): seq<byte>
  {
    if Accepted(tid, x) then x.report.payload else []
  }

  /** The bytes a run of read results contributes, in order. */
  function Gathered(tid: uint8, xs: seq<ReadResult>): seq<byte>
  {
    if |xs| == 0 then [] else Delivered(tid, xs[0]) + Gathered(tid, xs[1..])
  }

  /** The status a read result that ends the loop leaves behind. */
  function Verdict(x: ReadResult): int
  {
    match x
    case Timeout => ERR_TIMEOUT
    case ReadFailed(n) => n
    case Report(r) => ConvertResp(r.resp)
  }

  /** The position of the first read result that ends the loop (the length
      of the script if none does). */
  function FirstStop(g: Geometry, tid: uint8, xs: seq<ReadResult>): (k: nat)
    ensures k <= |xs|
    ensures forall j | 0 <= j < k :: KeepsReading(g, tid, xs[j])
    ensures k < |xs| ==> !KeepsReading(g, tid, xs[k])
  {
    if |xs| == 0 || !KeepsReading(g, tid, xs[0]) then 0 else 1 + FirstStop(g, tid, xs[1..])
  }

  /** How many read results the loop consumes. */
  function Consumed(g: Geometry, tid: uint8, xs: seq<ReadResult>): nat
  {
    var k := FirstStop(g, tid, xs);
    if k < |xs| then k + 1 else k
  }

  /** The bytes the read loop gathers from a script: what each result
      delivers, up to and including the first result that ends the loop. */
  function Received(g: Geometry, tid: uint8, xs: seq<ReadResult>): seq<byte>
    decreases |xs|
  {
    if |xs| == 0 then []
    else Delivered(tid, xs[0]) + (if KeepsReading(g, tid, xs[0]) then Received(g, tid, xs[1..]) else [])
  }

  /** The read loop, given the transaction id of the request, the sink, the
      scripted read results and the bytes gathered so far. A script that runs
      out reads as a timeout. */
  function ReadPhase(g: Geometry, tid: uint8, sink: Sink, replies: seq<ReadResult>, acc: seq<byte>): (o: ReadOutcome)
    ensures o.status <= OK
    ensures acc <= o.data
    ensures sink.Discard? ==> o.data == acc
    ensures sink.Bounded? && |acc| <= sink.capacity ==> |o.data| <= sink.capacity
    decreases |replies|
  {
    if |replies| == 0 then ReadOutcome(ERR_TIMEOUT, acc)
    else
      match replies[0]
      case Timeout => ReadOutcome(ERR_TIMEOUT, acc)
      case ReadFailed(n) => ReadOutcome(n, acc)
      case Report(r) =>
        if r.transId != tid then ReadPhase(g, tid, sink, replies[1..], acc)
        else if r.resp != 0 then ReadOutcome(ConvertResp(r.resp), acc)
        else if sink.Bounded? && |acc| + |r.payload| > sink.capacity then ReadOutcome(ERR_PARTIAL_DATA, acc)
        else
          var acc' := if sink.Discard? then acc else acc + r.payload;
          if IsFinal(g, r) then ReadOutcome(OK, acc')
          else ReadPhase(g, tid, sink, replies[1..], acc')
  }

  /** One step of the unbounded loop: a result that keeps it reading adds
      its delivered bytes and moves on; any other result ends it with its
      verdict. */
  lemma UnboundedStep(g: Geometry, tid: uint8, xs: seq<ReadResult>, acc: seq<byte>)
    requires |xs| > 0
    ensures KeepsReading(g, tid, xs[0]) ==>
              ReadPhase(g, tid, Unbounded, xs, acc) == ReadPhase(g, tid, Unbounded, xs[1..], acc + Delivered(tid, xs[0]))
    ensures !KeepsReading(g, tid, xs[0]) ==>
              ReadPhase(g, tid, Unbounded, xs, acc) == ReadOutcome(Verdict(xs[0]), acc + Delivered(tid, xs[0]))
  {
    if !Accepted(tid, xs[0]) {
      assert acc + Delivered(tid, xs[0]) == acc;
    }
  }

  /** What the first `Consumed` results gather splits after the first one. */
  lemma GatheredStep(g: Geometry, tid: uint8, xs: seq<ReadResult>)
    requires |xs| > 0 && KeepsReading(g, tid, xs[0])
    ensures Gathered(tid, xs[..Consumed(g, tid, xs)])
              == Delivered(tid, xs[0]) + Gathered(tid, xs[1..][..Consumed(g, tid, xs[1..])])
  {
    var c := Consumed(g, tid, xs);
    assert c == 1 + Consumed(g, tid, xs[1..]);
    assert xs[..c][0] == xs[0];
    assert xs[..c][1..] == xs[1..][..c - 1];
  }

  /** When the first result ends the loop, the loop gathers what it delivers. */
  lemma GatheredStop(g: Geometry, tid: uint8, xs: seq<ReadResult>)
    requires |xs| > 0 && !KeepsReading(g, tid, xs[0])
    ensures Gathered(tid, xs[..Consumed(g, tid, xs)]) == Delivered(tid, xs[0])
  {
    assert Consumed(g, tid, xs) == 1;
    assert xs[..1][1..] == [];
    assert Gathered(tid, xs[..1]) == Delivered(tid, xs[0]) + Gathered(tid, []);
  }

  /** The status of the loop against its reference description: it stops at
      the first read result that does not keep it reading and ends with that
      result's verdict, or with a timeout if the script runs out first. */
  lemma {:induction false} UnboundedStatus(g: Geometry, tid: uint8, xs: seq<ReadResult>, acc: seq<byte>)
    ensures var k := FirstStop(g, tid, xs);
            ReadPhase(g, tid, Unbounded, xs, acc).status == (if k < |xs| then Verdict(xs[k]) else ERR_TIMEOUT)
    decreases |xs|
  {
    if |xs| > 0 {
      UnboundedStep(g, tid, xs, acc);
      if KeepsReading(g, tid, xs[0]) {
        UnboundedStatus(g, tid, xs[1..], acc + Delivered(tid, xs[0]));
      }
    }
  }

  /** The bytes the loop gathers are the ones the script delivers before the
      loop stops, appended to what was there. */
  lemma {:induction false} UnboundedData(g: Geometry, tid: uint8, xs: seq<ReadResult>, acc: seq<byte>)
    ensures ReadPhase(g, tid, Unbounded, xs, acc).data == acc + Received(g, tid, xs)
    decreases |xs|
  {
    if |xs| > 0 {
      UnboundedStep(g, tid, xs, acc);
      var d := Delivered(tid, xs[0]);
      if KeepsReading(g, tid, xs[0]) {
        var rest := Received(g, tid, xs[1..]);
        assert Received(g, tid, xs) == d + rest;
        UnboundedData(g, tid, xs[1..], acc + d);
        assert (acc + d) + rest == acc + (d + rest);
      } else {
        assert Received(g, tid, xs) == d;
      }
    }
  }

  /** What the loop receives, against its reference description: exactly
      the payloads of the accepted reports among the results it consumes,
      in order. */
  lemma {:induction false} ReceivedIsConsumedPayloads(g: Geometry, tid: uint8, xs: seq<ReadResult>)
    ensures Received(g, tid, xs) == Gathered(tid, xs[..Consumed(g, tid, xs)])
    decreases |xs|
  {
    if |xs| > 0 {
      if KeepsReading(g, tid, xs[0]) {
        ReceivedIsConsumedPayloads(g, tid, xs[1..]);
        GatheredStep(g, tid, xs);
      } else {
        GatheredStop(g, tid, xs);
        assert Delivered(tid, xs[0]) + [] == Delivered(tid, xs[0]);
      }
    }
  }

  /** The exchange completes with OK exactly when a matching OK report whose
      position plus length reaches the transfer length arrives before anything
      else ends the loop. */
  lemma CompletesIffFinalFragment(g: Geometry, tid: uint8, xs: seq<ReadResult>, acc: seq<byte>)
    ensures var k := FirstStop(g, tid, xs);
            (ReadPhase(g, tid, Unbounded, xs, acc).status == OK
             <==> k < |xs| && Accepted(tid, xs[k]) && IsFinal(g, xs[k].report))
  {
    UnboundedStatus(g, tid, xs, acc);
  }

  /** Without a buffer the loop ends the same way; only nothing is gathered. */
  lemma {:induction false} DiscardAgreesOnStatus(g: Geometry, tid: uint8, xs: seq<ReadResult>, acc: seq<byte>, acc2: seq<byte>)
    ensures ReadPhase(g, tid, Discard, xs, acc).status == ReadPhase(g, tid, Unbounded, xs, acc2).status
    decreases |xs|
  {
    if |xs| > 0 && xs[0].Report? {
      var r := xs[0].report;
      if r.transId != tid {
        DiscardAgreesOnStatus(g, tid, xs[1..], acc, acc2);
      } else if r.resp == 0 && !IsFinal(g, r) {
        DiscardAgreesOnStatus(g, tid, xs[1..], acc, acc2 + r.payload);
      }
    }
  }

  /** Checking the capacity changes nothing when everything the loop gathers
      fits the buffer. */
  lemma {:induction false} BoundedAgreesWhenItFits(g: Geometry, tid: uint8, cap: nat, xs: seq<ReadResult>, acc: seq<byte>)
    requires |acc + Received(g, tid, xs)| <= cap
    ensures ReadPhase(g, tid, Bounded(cap), xs, acc) == ReadPhase(g, tid, Unbounded, xs, acc)
    decreases |xs|
  {
    if |xs| > 0 {
      UnboundedStep(g, tid, xs, acc);
      if KeepsReading(g, tid, xs[0]) {
        assert acc + Received(g, tid, xs) == (acc + Delivered(tid, xs[0])) + Received(g, tid, xs[1..]);
        if !Accepted(tid, xs[0]) {
          assert acc + Delivered(tid, xs[0]) == acc;
        }
        BoundedAgreesWhenItFits(g, tid, cap, xs[1..], acc + Delivered(tid, xs[0]));
      }
    }
  }

  /** A report from an earlier transaction is dropped: the loop goes on as if
      it had never been read, with the gathered bytes unchanged. */
  lemma StaleReportIgnored(g: Geometry, tid: uint8, sink: Sink, r: InReport, xs: seq<ReadResult>, acc: seq<byte>)
    requires r.transId != tid
    ensures ReadPhase(g, tid, sink, [Report(r)] + xs, acc) == ReadPhase(g, tid, sink, xs, acc)
  {
    assert ([Report(r)] + xs)[1..] == xs;
  }

  /** A matching OK fragment that is not the last appends its
      `packet_len - HEADER_SZ` bytes and the loop reads on. */
  lemma FragmentAppends(g: Geometry, tid: uint8, r: InReport, xs: seq<ReadResult>, acc: seq<byte>)
    requires r.transId == tid && r.resp == 0 && !IsFinal(g, r)
    ensures ReadPhase(g, tid, Unbounded, [Report(r)] + xs, acc) == ReadPhase(g, tid, Unbounded, xs, acc + r.payload)
    ensures |acc + r.payload| == |acc| + InPacketLen(g, r) - g.headerSz
  {
    assert ([Report(r)] + xs)[1..] == xs;
  }

  /** The bytes the last report of an `n`-byte transfer carries. */
  function LastChunk(g: Geometry, n: nat): (c: nat)
    requires ValidGeometry(g)
    ensures c <= g.dataSz && (n > 0 ==> c > 0)
    decreases n
  {
    if n <= g.dataSz then n else LastChunk(g, n - g.dataSz)
  }

  /** The reports of a reply from report number `k` on, framed the way
      `SIO_SendRequest` frames a request: DATA_SZ bytes per report, the last
      one taking the rest. */
  function ReplyFrom(g: Geometry, tid: uint8, rest: seq<byte>, k: nat, tlen: nat): (xs: seq<ReadResult>)
    requires ValidGeometry(g)
    ensures |xs| == FragmentCount(g, |rest|)
    decreases |rest|
  {
    if |rest| <= g.dataSz then [Report(InReport(0, tid, k, tlen, rest))]
    else [Report(InReport(0, tid, k, tlen, rest[..g.dataSz]))] + ReplyFrom(g, tid, rest[g.dataSz..], k + 1, tlen)
  }

  /** A successful reply carrying `data`. */
  function Reply(g: Geometry, tid: uint8, data: seq<byte>): seq<ReadResult>
    requires ValidGeometry(g)
  {
    ReplyFrom(g, tid, data, 0, TLenFrom(g, 0, |data|))
  }

  /** The `transfer_len` of the reports from number `k` on that carry `n`
      more bytes. */
  function TLenFrom(g: Geometry, k: nat, n: nat): nat
    requires ValidGeometry(g)
  {
    (k + FragmentCount(g, n) - 1) * g.packetSz + g.headerSz + LastChunk(g, n)
  }

  /** A report that is not the last one of its reply does not look final,
      and the transfer length seen from the next report is the same. */
  lemma EarlierReportNotFinal(g: Geometry, tid: uint8, rest: seq<byte>, k: nat)
    requires ValidGeometry(g) && g.packetSz >= g.dataSz && |rest| > g.dataSz
    ensures TLenFrom(g, k, |rest|) == TLenFrom(g, k + 1, |rest| - g.dataSz)
    ensures !IsFinal(g, InReport(0, tid, k, TLenFrom(g, k, |rest|), rest[..g.dataSz]))
  {
    var d := g.dataSz;
    var n := |rest| - d;
    var c := FragmentCount(g, |rest|);
    assert c == 1 + FragmentCount(g, n);
    assert LastChunk(g, |rest|) == LastChunk(g, n) && LastChunk(g, n) > 0;
    assert (k + 1) * g.packetSz <= (k + c - 1) * g.packetSz;
    assert (k + 1) * g.packetSz == k * g.packetSz + g.packetSz;
  }

  /** The last report of a reply looks final and delivers its bytes. */
  lemma LastReportFinal(g: Geometry, tid: uint8, rest: seq<byte>, k: nat, acc: seq<byte>)
    requires ValidGeometry(g) && |rest| <= g.dataSz
    ensures ReadPhase(g, tid, Unbounded, ReplyFrom(g, tid, rest, k, TLenFrom(g, k, |rest|)), acc) == ReadOutcome(OK, acc + rest)
  {
    assert FragmentCount(g, |rest|) == 1;
    assert IsFinal(g, InReport(0, tid, k, TLenFrom(g, k, |rest|), rest));
  }

  lemma {:induction false} ReplyFromRoundTrip(g: Geometry, tid: uint8, rest: seq<byte>, k: nat, acc: seq<byte>)
    requires ValidGeometry(g) && g.packetSz >= g.dataSz
    ensures ReadPhase(g, tid, Unbounded, ReplyFrom(g, tid, rest, k, TLenFrom(g, k, |rest|)), acc) == ReadOutcome(OK, acc + rest)
    decreases |rest|
  {
    if |rest| <= g.dataSz {
      LastReportFinal(g, tid, rest, k, acc);
    } else {
      var d := g.dataSz;
      var tlen := TLenFrom(g, k, |rest|);
      var r := InReport(0, tid, k, tlen, rest[..d]);
      var tail := rest[d..];
      assert (acc + rest[..d]) + tail == acc + rest by {
        assert rest[..d] + tail == rest;
      }
      EarlierReportNotFinal(g, tid, rest, k);
      var more := ReplyFrom(g, tid, tail, k + 1, tlen);
      assert ReplyFrom(g, tid, rest, k, tlen) == [Report(r)] + more;
      FragmentAppends(g, tid, r, more, acc);
      ReplyFromRoundTrip(g, tid, tail, k + 1, acc + rest[..d]);
    }
  }

  /** Round trip: a reply framed the way requests are framed (with a report
      at least as long as its data area) is reassembled into exactly its
      data, and the exchange completes with OK. */
  lemma ReplyRoundTrip(g: Geometry, tid: uint8, data: seq<byte>)
    requires ValidGeometry(g) && g.packetSz >= g.dataSz
    ensures ReadPhase(g, tid, Unbounded, Reply(g, tid, data), []) == ReadOutcome(OK, data)
  {
    ReplyFromRoundTrip(g, tid, data, 0, []);
  }
  /** A reply report framed as request report `f` is: an OK report with the
      same transaction id and number, the same `packet_len`, and as payload
      the bytes `f` carries. */
  predicate FramedAs(g: Geometry, x: ReadResult, f: OutReport)
  {
    && x.Report? && x.report.resp == 0 && x.report.transId == f.transId
    && x.report.packetNum == f.packetNum && InPacketLen(g, x.report) == f.packetLen
    && x.report.payload == Carried(g, f)
  }

  /** Report for report, the reply `xs` is framed as the request `fs`, and
      every reply report carries the transfer length `tlen`. */
  predicate FramedAll(g: Geometry, xs: seq<ReadResult>, fs: seq<OutReport>, tlen: nat)
    decreases |xs|
  {
    && |xs| == |fs|
    && (|xs| > 0 ==>
          && FramedAs(g, xs[0], fs[0]) && xs[0].report.transferLen == tlen
          && FramedAll(g, xs[1..], fs[1..], tlen))
  }

  lemma {:induction false} FramedAllAt(g: Geometry, xs: seq<ReadResult>, fs: seq<OutReport>, tlen: nat, i: nat)
    requires FramedAll(g, xs, fs, tlen) && i < |xs|
    ensures FramedAs(g, xs[i], fs[i]) && xs[i].report.transferLen == tlen
    decreases i
  {
    if i > 0 {
      FramedAllAt(g, xs[1..], fs[1..], tlen, i - 1);
    }
  }

  /** `ReplyFrom` splits a reply as the request loop splits a payload,
      report for report, with the transfer length `tlen` on every report. */
  lemma {:induction false} ReplyFromFramed(g: Geometry, tid: uint8, ses: uint8, req: Req, tlen: nat, reqTlen: nat, rest: seq<byte>, k: nat)
    requires ValidGeometry(g)
    ensures FramedAll(g, ReplyFrom(g, tid, rest, k, tlen), FragmentsFrom(g, tid, ses, req, reqTlen, rest, k), tlen)
    decreases |rest|
  {
    var xs := ReplyFrom(g, tid, rest, k, tlen);
    var fs := FragmentsFrom(g, tid, ses, req, reqTlen, rest, k);
    if |rest| > g.dataSz {
      var d := g.dataSz;
      ReplyFromFramed(g, tid, ses, req, tlen, reqTlen, rest[d..], k + 1);
      assert xs[1..] == ReplyFrom(g, tid, rest[d..], k + 1, tlen);
      assert fs[1..] == FragmentsFrom(g, tid, ses, req, reqTlen, rest[d..], k + 1);
    } else {
      assert rest[..|rest|] == rest;
    }
  }

  /** The last report of the request loop carries the last chunk. */
  lemma {:induction false} LastFragmentLen(g: Geometry, tid: uint8, ses: uint8, req: Req, tlen: nat, rest: seq<byte>, k: nat)
    requires ValidGeometry(g)
    ensures var fs := FragmentsFrom(g, tid, ses, req, tlen, rest, k);
            fs[|fs| - 1].packetLen == g.headerSz + LastChunk(g, |rest|)
    decreases |rest|
  {
    if |rest| > g.dataSz {
      var d := g.dataSz;
      var fs := FragmentsFrom(g, tid, ses, req, tlen, rest, k);
      LastFragmentLen(g, tid, ses, req, tlen, rest[d..], k + 1);
      assert fs[1..] == FragmentsFrom(g, tid, ses, req, tlen, rest[d..], k + 1);
      assert fs[|fs| - 1] == fs[1..][|fs| - 2];
    }
  }

  /** The reports of a successful reply are framed exactly as the reports
      of a request with the same bytes: one per DATA_SZ bytes, numbered
      alike, with the same `packet_len` and carried bytes. Their transfer
      length is the last report's position plus its `packet_len`, the
      value the completion test looks for. */
  lemma ReplyFramedLikeRequest(g: Geometry, tid: uint8, ses: uint8, req: Req, data: seq<byte>)
    requires ValidGeometry(g)
    ensures FramedLike(g, Reply(g, tid, data), Fragments(g, tid, ses, req, data))
  {
    var reqTlen := g.calcTransferLen(|data|);
    assert Fragments(g, tid, ses, req, data) == FragmentsFrom(g, tid, ses, req, reqTlen, data, 0);
    ReplyFromFramedEach(g, tid, ses, req, reqTlen, data);
  }

  /** Reply reports `xs` framed as request reports `fs`, report for report,
      each carrying as transfer length the last report's position plus its
      `packet_len`. */
  predicate FramedLike(g: Geometry, xs: seq<ReadResult>, fs: seq<OutReport>)
  {
    && |xs| == |fs|
    && (forall i | 0 <= i < |xs| :: FramedAs(g, xs[i], fs[i]))
    && (forall i | 0 <= i < |xs| :: xs[i].report.transferLen == (|fs| - 1) * g.packetSz + fs[|fs| - 1].packetLen)
  }

  /** `ReplyFramedLikeRequest` stated on the loop's reports from number 0. */
  lemma ReplyFromFramedEach(g: Geometry, tid: uint8, ses: uint8, req: Req, reqTlen: nat, data: seq<byte>)
    requires ValidGeometry(g)
    ensures FramedLike(g, ReplyFrom(g, tid, data, 0, TLenFrom(g, 0, |data|)), FragmentsFrom(g, tid, ses, req, reqTlen, data, 0))
  {
    var tl := TLenFrom(g, 0, |data|);
    var xs := ReplyFrom(g, tid, data, 0, tl);
    var fs := FragmentsFrom(g, tid, ses, req, reqTlen, data, 0);
    ReplyFromFramed(g, tid, ses, req, tl, reqTlen, data, 0);
    TLenIsLastPosition(g, tid, ses, req, reqTlen, data);
    forall i | 0 <= i < |xs|
      ensures FramedAs(g, xs[i], fs[i]) && xs[i].report.transferLen == tl
    {
      FramedAllAt(g, xs, fs, tl, i);
    }
  }

  /** The transfer length of a reply is the last request report's position
      plus its `packet_len`. */
  lemma TLenIsLastPosition(g: Geometry, tid: uint8, ses: uint8, req: Req, reqTlen: nat, data: seq<byte>)
    requires ValidGeometry(g)
    ensures var fs := FragmentsFrom(g, tid, ses, req, reqTlen, data, 0);
            TLenFrom(g, 0, |data|) == (|fs| - 1) * g.packetSz + fs[|fs| - 1].packetLen
  {
    FragmentsFromCount(g, tid, ses, req, reqTlen, data, 0);
    LastFragmentLen(g, tid, ses, req, reqTlen, data, 0);
  }
}

