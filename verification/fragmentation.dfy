/** Splitting an outgoing payload into fixed-size, zero-padded reports. */
module Fragmentation {
  import opened Base
  import opened Protocol

  /** The payload bytes a report actually carries: the first
      `packet_len - HEADER_SZ` bytes of its data area (nothing if the length
      field does not fit the report). */
  function Carried(g: Geometry, f: OutReport): seq<byte>
  {
    if g.headerSz <= f.packetLen <= g.headerSz + |f.data| then f.data[..f.packetLen - g.headerSz] else []
  }

  /** Everything a sequence of reports carries, in order. */
  function CarriedAll(g: Geometry, fs: seq<OutReport>): seq<byte>
  {
    if |fs| == 0 then [] else Carried(g, fs[0]) + CarriedAll(g, fs[1..])
  }

  /** The number of reports a payload of `n` bytes needs: one per DATA_SZ
      bytes, the last one taking the remainder, and one even for an empty
      payload. */
  function FragmentCount(g: Geometry, n: nat): nat
    requires ValidGeometry(g)
    decreases n
  {
    if n <= g.dataSz then 1 else 1 + FragmentCount(g, n - g.dataSz)
  }

  lemma MulAtLeast(d: nat, k: int)
    requires d > 0 && k >= 1
    ensures d * k >= d
  {
    assert d * k == d * (k - 1) + d;
    if k > 1 {
      MulAtLeast(d, k - 1);
    }
  }

  lemma DivAddDivisor(y: nat, d: nat)
    requires d > 0
    ensures (y + d) / d == y / d + 1
  {
    var q, r := y / d, y % d;
    var q2, r2 := (y + d) / d, (y + d) % d;
    assert d * (q2 - q - 1) == r - r2;
    if q2 - q - 1 > 0 {
      MulAtLeast(d, q2 - q - 1);
    }
    if q2 - q - 1 < 0 {
      MulAtLeast(d, q + 1 - q2);
    }
  }

  /** The report count is n / DATA_SZ rounded up (and 1 for no payload). */
  lemma {:induction false} FragmentCountIsCeiling(g: Geometry, n: nat)
    requires ValidGeometry(g)
    ensures FragmentCount(g, n) == if n == 0 then 1 else (n + g.dataSz - 1) / g.dataSz
    decreases n
  {
    var d := g.dataSz;
    if n > d {
      FragmentCountIsCeiling(g, n - d);
      DivAddDivisor(n - 1, d);
      assert n + d - 1 == (n - 1) + d;
      assert n - d + d - 1 == n - 1;
    } else if n > 0 {
      assert n + d - 1 == (n - 1) + d;
      DivAddDivisor(n - 1, d);
      assert (n - 1) / d == 0;
    }
  }

  /** The header fields every report of one request shares. */
  predicate Stamped(fs: seq<OutReport>, tid: uint8, ses: uint8, req: Req, tlen: nat)
  {
    forall i | 0 <= i < |fs| ::
      fs[i].transId == tid && fs[i].sesId == ses && fs[i].req == req && fs[i].transferLen == tlen
  }

  /** The shape of each report: numbered from `first` on, a full data area,
      a length field covering the header plus 0..DATA_SZ bytes, and zeros
      after the carried bytes. */
  predicate WellShaped(g: Geometry, fs: seq<OutReport>, first: nat)
  {
    forall i | 0 <= i < |fs| ::
      && fs[i].packetNum == first + i
      && |fs[i].data| == g.dataSz
      && g.headerSz <= fs[i].packetLen <= g.headerSz + g.dataSz
      && (forall j | fs[i].packetLen - g.headerSz <= j < g.dataSz :: fs[i].data[j] == 0)
  }

  /** One report carrying `chunk` (at most DATA_SZ bytes), zero-padded. */
  function Frame(g: Geometry, tid: uint8, ses: uint8, req: Req, tlen: nat, chunk: seq<byte>, k: nat): (f: OutReport)
    requires |chunk| <= g.dataSz
    ensures WellShaped(g, [f], k) && Stamped([f], tid, ses, req, tlen)
    ensures f.packetLen == g.headerSz + |chunk|
    ensures Carried(g, f) == chunk
  {
    var f := OutReport(tid, ses, req, tlen, k, |chunk| + g.headerSz, chunk + Zeros(g.dataSz - |chunk|));
    assert f.data[..|chunk|] == chunk;
    f
  }

  /** Every report but the last is full. */
  predicate FullButLast(g: Geometry, fs: seq<OutReport>)
  {
    forall i | 0 <= i < |fs| - 1 :: fs[i].packetLen == g.headerSz + g.dataSz
  }

  lemma ConsShaped(g: Geometry, f: OutReport, tail: seq<OutReport>, tid: uint8, ses: uint8, req: Req, tlen: nat, k: nat)
    requires WellShaped(g, [f], k) && Stamped([f], tid, ses, req, tlen)
    requires WellShaped(g, tail, k + 1) && Stamped(tail, tid, ses, req, tlen)
    ensures WellShaped(g, [f] + tail, k) && Stamped([f] + tail, tid, ses, req, tlen)
  {
    forall i | 1 <= i < |tail| + 1
      ensures ([f] + tail)[i] == tail[i - 1]
    {
    }
  }

  lemma ConsFull(g: Geometry, f: OutReport, tail: seq<OutReport>)
    requires f.packetLen == g.headerSz + g.dataSz && FullButLast(g, tail) && |tail| > 0
    ensures FullButLast(g, [f] + tail) && ([f] + tail)[|tail|] == tail[|tail| - 1]
  {
    forall i | 1 <= i < |tail| + 1
      ensures ([f] + tail)[i] == tail[i - 1]
    {
    }
  }

  /** The do-while loop of `SIO_SendRequest` that builds reports: each takes
      `min(remaining, DATA_SZ)` bytes, and the loop goes on while bytes
      remain, so at least one report is built. */
  function FragmentsFrom(g: Geometry, tid: uint8, ses: uint8, req: Req, tlen: nat, rest: seq<byte>, first: nat)
    : (fs: seq<OutReport>)
    requires ValidGeometry(g)
    decreases |rest|
    ensures |fs| >= 1
  {
    var oneTx := if |rest| > g.dataSz then g.dataSz else |rest|;
    var f := Frame(g, tid, ses, req, tlen, rest[..oneTx], first);
    if |rest| - oneTx > 0 then [f] + FragmentsFrom(g, tid, ses, req, tlen, rest[oneTx..], first + 1) else [f]
  }

  /** The loop builds one report per DATA_SZ bytes, the last one taking the
      remainder. */
  lemma {:induction false} FragmentsFromCount(g: Geometry, tid: uint8, ses: uint8, req: Req, tlen: nat, rest: seq<byte>, first: nat)
    requires ValidGeometry(g)
    ensures |FragmentsFrom(g, tid, ses, req, tlen, rest, first)| == FragmentCount(g, |rest|)
    decreases |rest|
  {
    if |rest| > g.dataSz {
      FragmentsFromCount(g, tid, ses, req, tlen, rest[g.dataSz..], first + 1);
    }
  }

  /** Every report carries the request's header fields and is numbered in
      sequence, with a full data area that is zero after the carried bytes. */
  lemma {:induction false} FragmentsFromStamped(g: Geometry, tid: uint8, ses: uint8, req: Req, tlen: nat, rest: seq<byte>, first: nat)
    requires ValidGeometry(g)
    ensures var fs := FragmentsFrom(g, tid, ses, req, tlen, rest, first);
      Stamped(fs, tid, ses, req, tlen) && WellShaped(g, fs, first)
    decreases |rest|
  {
    var oneTx := if |rest| > g.dataSz then g.dataSz else |rest|;
    var f := Frame(g, tid, ses, req, tlen, rest[..oneTx], first);
    if |rest| > g.dataSz {
      var tail := FragmentsFrom(g, tid, ses, req, tlen, rest[oneTx..], first + 1);
      FragmentsFromStamped(g, tid, ses, req, tlen, rest[oneTx..], first + 1);
      ConsShaped(g, f, tail, tid, ses, req, tlen, first);
    }
  }

  /** Every report but the last is full, and the last is non-empty unless
      the payload is. */
  lemma {:induction false} FragmentsFromFull(g: Geometry, tid: uint8, ses: uint8, req: Req, tlen: nat, rest: seq<byte>, first: nat)
    requires ValidGeometry(g)
    ensures var fs := FragmentsFrom(g, tid, ses, req, tlen, rest, first);
      FullButLast(g, fs) && (|rest| > 0 ==> fs[|fs| - 1].packetLen > g.headerSz)
    decreases |rest|
  {
    var oneTx := if |rest| > g.dataSz then g.dataSz else |rest|;
    var f := Frame(g, tid, ses, req, tlen, rest[..oneTx], first);
    if |rest| > g.dataSz {
      var tail := FragmentsFrom(g, tid, ses, req, tlen, rest[oneTx..], first + 1);
      FragmentsFromFull(g, tid, ses, req, tlen, rest[oneTx..], first + 1);
      ConsFull(g, f, tail);
    }
  }

  /** The carried bytes of the reports, in order, are the payload. */
  lemma {:induction false} FragmentsFromCarry(g: Geometry, tid: uint8, ses: uint8, req: Req, tlen: nat, rest: seq<byte>, first: nat)
    requires ValidGeometry(g)
    ensures CarriedAll(g, FragmentsFrom(g, tid, ses, req, tlen, rest, first)) == rest
    decreases |rest|
  {
    var oneTx := if |rest| > g.dataSz then g.dataSz else |rest|;
    var f := Frame(g, tid, ses, req, tlen, rest[..oneTx], first);
    if |rest| > g.dataSz {
      var tail := FragmentsFrom(g, tid, ses, req, tlen, rest[oneTx..], first + 1);
      FragmentsFromCarry(g, tid, ses, req, tlen, rest[oneTx..], first + 1);
      assert ([f] + tail)[1..] == tail;
      assert rest[..oneTx] + rest[oneTx..] == rest;
    } else {
      assert rest[..oneTx] == rest;
      assert CarriedAll(g, [f]) == Carried(g, f) + CarriedAll(g, []);
    }
  }

  /** All reports of one request, stamped with the transaction id, session
      id, request code and `HID_SIO_CALC_TRANSFER_LEN` of the payload. */
  function Fragments(g: Geometry, tid: uint8, ses: uint8, req: Req, payload: seq<byte>): (fs: seq<OutReport>)
    requires ValidGeometry(g)
    ensures |fs| >= 1
    ensures |fs| == FragmentCount(g, |payload|)
    ensures Stamped(fs, tid, ses, req, g.calcTransferLen(|payload|))
    ensures WellShaped(g, fs, 0)
    ensures FullButLast(g, fs)
    ensures |payload| > 0 ==> fs[|fs| - 1].packetLen > g.headerSz
    ensures CarriedAll(g, fs) == payload
  {
    var tlen := g.calcTransferLen(|payload|);
    FragmentsFromCount(g, tid, ses, req, tlen, payload, 0);
    FragmentsFromStamped(g, tid, ses, req, tlen, payload, 0);
    FragmentsFromFull(g, tid, ses, req, tlen, payload, 0);
    FragmentsFromCarry(g, tid, ses, req, tlen, payload, 0);
    FragmentsFrom(g, tid, ses, req, tlen, payload, 0)
  }

  /** What a prefix of the reports carries is a prefix of the whole. */
  lemma {:induction false} CarriedPrefix(g: Geometry, fs: seq<OutReport>, n: nat)
    requires n <= |fs|
    ensures CarriedAll(g, fs[..n]) <= CarriedAll(g, fs)
    decreases n
  {
    if n > 0 {
      assert fs[..n][1..] == fs[1..][..n - 1];
      CarriedPrefix(g, fs[1..], n - 1);
    }
  }
}
