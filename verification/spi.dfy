/** The SPI data calls (`SPI_Transfer`, `SPI_Reset`). */
module Spi {
  import opened Base
  import opened Errors
  import opened Protocol
  import opened Fragmentation
  import opened Reassembly
  import opened Transport
  import opened Registry
  import opened Command

  /** The checks `SPI_Transfer` makes before any exchange: a length above
      the device's maximum, or a non-empty transfer missing either buffer
      (SPI always transmits and receives together). */
  predicate XferRejected(d: Device, length: uint16, hasTx: bool, hasRx: bool)
  {
    length > d.maxDataSize || (length > 0 && (!hasTx || !hasRx))
  }

  /** The payload of a transfer: the parameter block, then the bytes to
      transmit. */
  function XferPayload(lay: Layout, params: SpiParams, tx: Option<seq<byte>>): seq<byte>
    requires tx.Some? ==> params.length <= |tx.value|
  {
    lay.spi(params) + Supplied(tx, params.length)
  }

  /** `SPI_Transfer`: sends `length` bytes to the selected device and reads
      as many back; on OK the received bytes are copied out and their count
      returned. */
  function Transfer(g: Geometry, lay: Layout, ctx: Ctx, p: PortRef, length: uint16, options: bv8, device: bv8,
                    tx: Option<seq<byte>>, hasRx: bool, env: Env)
    : (r: PortCall)
    requires ValidGeometry(g) && Inv(ctx)
    requires tx.Some? ==> length <= |tx.value|
    ensures Inv(r.ctx)
    ensures !ValidPort(ctx, p, SPI) ==> r == PortCall(ctx, ERR_BAD_HANDLE, [])
    ensures ValidPort(ctx, p, SPI) && XferRejected(ctx.devices[p.dev], length, tx.Some?, hasRx) ==> r == PortCall(ctx, ERR_INVALID_PARAM, [])
    ensures r.res >= 0 ==> r.res == |r.data| <= length
    ensures r.res < 0 ==> r.data == []
  {
    if !ValidPort(ctx, p, SPI) then Rejected(ctx, ERR_BAD_HANDLE)
    else if XferRejected(ctx.devices[p.dev], length, tx.Some?, hasRx) then Rejected(ctx, ERR_INVALID_PARAM)
    else
      var params := SpiParams(length, options, device);
      var (c, x) := PortExchange(g, ctx, p, SPI, SPIDeviceXfer, OutBytes(XferPayload(lay, params, tx)), ReplyInto(length), env);
      ReceiveResult(c, x)
  }

  /** The transfer round trip: when the request goes out whole and the
      device answers with `data` of at most `length` bytes, the caller gets
      `data` and its length. */
  lemma TransferDeliversReply(g: Geometry, lay: Layout, ctx: Ctx, p: PortRef, length: uint16, options: bv8, device: bv8,
                              tx: seq<byte>, env: Env, data: seq<byte>)
    requires ValidGeometry(g) && g.packetSz >= g.dataSz && Inv(ctx) && ValidPort(ctx, p, SPI)
    requires length <= |tx| && !XferRejected(ctx.devices[p.dev], length, true, true)
    requires env.lockOk && env.unlockOk
    requires var payload := XferPayload(lay, SpiParams(length, options, device), Some(tx));
             forall j | 0 <= j < FragmentCount(g, |payload|) :: WriteAt(env.writes, j) > 0
    requires env.replies == Reply(g, ctx.devices[p.dev].transId, data) && |data| <= length
    ensures var r := Transfer(g, lay, ctx, p, length, options, device, Some(tx), true, env);
            r.res == |data| && r.data == data
  {
    OpenPortIsSession(ctx, p, SPI);
    var tid := ctx.devices[p.dev].transId;
    var out := OutBytes(XferPayload(lay, SpiParams(length, options, device), Some(tx)));
    RequestReceivesReply(g, tid, p.index, SPIDeviceXfer, out, length, env, data);
    var x := SendRequest(g, tid, p.index, SPIDeviceXfer, out, ReplyInto(length), env);
    assert PortExchange(g, ctx, p, SPI, SPIDeviceXfer, out, ReplyInto(length), env).1 == x;
  }

  /** What the transfer's reports carry is the parameter block followed by
      exactly the `length` bytes to transmit. */
  lemma TransferCarriesData(g: Geometry, lay: Layout, tid: uint8, ses: uint8, params: SpiParams, tx: seq<byte>)
    requires ValidGeometry(g) && params.length <= |tx|
    ensures var carried := CarriedAll(g, Fragments(g, tid, ses, SPIDeviceXfer, XferPayload(lay, params, Some(tx))));
            var n := |lay.spi(params)|;
            && |carried| == n + params.length
            && carried[..n] == lay.spi(params)
            && carried[n..] == tx[..params.length]
  {
  }

  /** `SPI_Reset`: a reset request with no payload; its status is the
      result. */
  function Reset(g: Geometry, ctx: Ctx, p: PortRef, env: Env): (r: PortCall)
    requires ValidGeometry(g) && Inv(ctx)
    ensures Inv(r.ctx) && r.data == [] && r.res <= OK
    ensures !ValidPort(ctx, p, SPI) ==> r == PortCall(ctx, ERR_BAD_HANDLE, [])
    ensures ValidPort(ctx, p, SPI) ==>
              p.index < 8 &&
              r.res == SendRequest(g, ctx.devices[p.dev].transId, p.index, SPIReset, OutNull(0), NoReply, env).status
  {
    if !ValidPort(ctx, p, SPI) then Rejected(ctx, ERR_BAD_HANDLE)
    else
      var (c, x) := PortExchange(g, ctx, p, SPI, SPIReset, OutNull(0), NoReply, env);
      PortCall(c, x.status, [])
  }
}
