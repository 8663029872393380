/** The I2C data calls (`I2C_DeviceRead`, `I2C_DeviceWrite`, `I2C_FastXfer`,
    `I2C_Reset`): the port check, the argument checks, the request layout,
    one exchange and the reading of its result. */
module I2c {
  import opened Base
  import opened Errors
  import opened Protocol
  import opened Fragmentation
  import opened Reassembly
  import opened Transport
  import opened Registry
  import opened Command

  /** The highest 7-bit slave address. */
  const MAX_SLAVE_ADDR: nat := 127

  /** The checks `I2C_DeviceRead` and `I2C_DeviceWrite` make before any
      exchange: a length above the device's maximum, a missing buffer for a
      non-empty transfer, or an address wider than 7 bits. */
  predicate RwRejected(d: Device, addr: bv8, size: uint16, hasBuffer: bool)
  {
    size > d.maxDataSize || (size > 0 && !hasBuffer) || addr as nat > MAX_SLAVE_ADDR
  }

  /** The parameter block of a read or write request. */
  function RwRequest(lay: Layout, addr: bv8, size: uint16, options: bv8): seq<byte>
  {
    lay.rw(RwParams(size, options, addr))
  }

  /** `I2C_DeviceRead`: asks for `size` bytes from `addr`; on OK the received
      bytes are copied out and their count returned. */
  function DeviceRead(g: Geometry, lay: Layout, ctx: Ctx, p: PortRef, addr: bv8, size: uint16, options: bv8, hasBuffer: bool, env: Env)
    : (r: PortCall)
    requires ValidGeometry(g) && Inv(ctx)
    ensures Inv(r.ctx)
    ensures !ValidPort(ctx, p, I2C) ==> r == PortCall(ctx, ERR_BAD_HANDLE, [])
    ensures ValidPort(ctx, p, I2C) && RwRejected(ctx.devices[p.dev], addr, size, hasBuffer) ==> r == PortCall(ctx, ERR_INVALID_PARAM, [])
    ensures r.res >= 0 ==> r.res == |r.data| <= size
    ensures r.res < 0 ==> r.data == []
  {
    if !ValidPort(ctx, p, I2C) then Rejected(ctx, ERR_BAD_HANDLE)
    else if RwRejected(ctx.devices[p.dev], addr, size, hasBuffer) then Rejected(ctx, ERR_INVALID_PARAM)
    else
      var (c, x) := PortExchange(g, ctx, p, I2C, I2CDeviceRead, OutBytes(RwRequest(lay, addr, size, options)), ReplyInto(size), env);
      ReceiveResult(c, x)
  }

  /** A read that gets past the checks is one exchange with the parameter
      block as payload and a `size`-byte receive buffer. */
  lemma ReadIsOneExchange(g: Geometry, lay: Layout, ctx: Ctx, p: PortRef, addr: bv8, size: uint16, options: bv8, hasBuffer: bool, env: Env)
    requires ValidGeometry(g) && Inv(ctx) && ValidPort(ctx, p, I2C)
    requires !RwRejected(ctx.devices[p.dev], addr, size, hasBuffer)
    ensures p.dev in ctx.devices && p.index < 8
    ensures var x := SendRequest(g, ctx.devices[p.dev].transId, p.index, I2CDeviceRead, OutBytes(RwRequest(lay, addr, size, options)), ReplyInto(size), env);
            var r := DeviceRead(g, lay, ctx, p, addr, size, options, hasBuffer, env);
            && r.ctx == ctx.(devices := ctx.devices[p.dev := ctx.devices[p.dev].(transId := x.nextTransId)])
            && (x.status == OK ==> r.res == |x.received| && r.data == x.received)
            && (x.status != OK ==> r.res == x.status)
  {
    OpenPortIsSession(ctx, p, I2C);
  }

  /** The read round trip: when the request goes out whole and the device
      answers with `data` of at most `size` bytes, the caller gets `data`
      and its length. */
  lemma ReadDeliversReply(g: Geometry, lay: Layout, ctx: Ctx, p: PortRef, addr: bv8, size: uint16, options: bv8, env: Env, data: seq<byte>)
    requires ValidGeometry(g) && g.packetSz >= g.dataSz && Inv(ctx) && ValidPort(ctx, p, I2C)
    requires !RwRejected(ctx.devices[p.dev], addr, size, true)
    requires env.lockOk && env.unlockOk
    requires forall j | 0 <= j < FragmentCount(g, |RwRequest(lay, addr, size, options)|) :: WriteAt(env.writes, j) > 0
    requires env.replies == Reply(g, ctx.devices[p.dev].transId, data) && |data| <= size
    ensures var r := DeviceRead(g, lay, ctx, p, addr, size, options, true, env);
            r.res == |data| && r.data == data
  {
    OpenPortIsSession(ctx, p, I2C);
    var tid := ctx.devices[p.dev].transId;
    var out := OutBytes(RwRequest(lay, addr, size, options));
    RequestReceivesReply(g, tid, p.index, I2CDeviceRead, out, size, env, data);
    ReadIsOneExchange(g, lay, ctx, p, addr, size, options, true, env);
  }

  /** The payload of a write: the parameter block, then the data. */
  function WritePayload(lay: Layout, addr: bv8, size: uint16, options: bv8, buffer: Option<seq<byte>>): seq<byte>
    requires buffer.Some? ==> size <= |buffer.value|
  {
    RwRequest(lay, addr, size, options) + Supplied(buffer, size)
  }

  /** `I2C_DeviceWrite`: sends the parameter block followed by the first
      `size` bytes of the buffer; on OK the call returns `size`. */
  function DeviceWrite(g: Geometry, lay: Layout, ctx: Ctx, p: PortRef, addr: bv8, size: uint16, options: bv8, buffer: Option<seq<byte>>, env: Env)
    : (r: PortCall)
    requires ValidGeometry(g) && Inv(ctx)
    requires buffer.Some? ==> size <= |buffer.value|
    ensures Inv(r.ctx) && r.data == []
    ensures !ValidPort(ctx, p, I2C) ==> r == PortCall(ctx, ERR_BAD_HANDLE, [])
    ensures ValidPort(ctx, p, I2C) && RwRejected(ctx.devices[p.dev], addr, size, buffer.Some?) ==> r == PortCall(ctx, ERR_INVALID_PARAM, [])
    ensures r.res >= 0 ==> r.res == size
    ensures ValidPort(ctx, p, I2C) && !RwRejected(ctx.devices[p.dev], addr, size, buffer.Some?) ==>
              p.index < 8 &&
              var x := SendRequest(g, ctx.devices[p.dev].transId, p.index, I2CDeviceWrite, OutBytes(WritePayload(lay, addr, size, options, buffer)), NoReply, env);
              r.res == if x.status == OK then size else x.status
  {
    if !ValidPort(ctx, p, I2C) then Rejected(ctx, ERR_BAD_HANDLE)
    else if RwRejected(ctx.devices[p.dev], addr, size, buffer.Some?) then Rejected(ctx, ERR_INVALID_PARAM)
    else
      var (c, x) := PortExchange(g, ctx, p, I2C, I2CDeviceWrite, OutBytes(WritePayload(lay, addr, size, options, buffer)), NoReply, env);
      PortCall(c, if x.status == OK then size else x.status, [])
  }

  /** What the write's reports carry is the parameter block followed by
      exactly the `size` data bytes of the caller's buffer. */
  lemma WriteCarriesData(g: Geometry, lay: Layout, tid: uint8, ses: uint8, addr: bv8, size: uint16, options: bv8, data: seq<byte>)
    requires ValidGeometry(g) && size <= |data|
    ensures var carried := CarriedAll(g, Fragments(g, tid, ses, I2CDeviceWrite, WritePayload(lay, addr, size, options, Some(data))));
            var n := |RwRequest(lay, addr, size, options)|;
            && |carried| == n + size
            && carried[..n] == RwRequest(lay, addr, size, options)
            && carried[n..] == data[..size]
  {
  }

  /** The checks `I2C_FastXfer` makes before any exchange. */
  predicate XferRejected(d: Device, xfer: XferParams, hasTx: bool, hasRx: bool)
  {
    || xfer.txLength > d.maxDataSize || xfer.rxLength > d.maxDataSize
    || (xfer.txLength > 0 && !hasTx) || (xfer.rxLength > 0 && !hasRx)
    || xfer.slaveAddr > MAX_SLAVE_ADDR
  }

  /** The payload of a fast transfer: the parameter block, then the bytes
      to transmit. */
  function XferPayload(lay: Layout, xfer: XferParams, tx: Option<seq<byte>>): seq<byte>
    requires tx.Some? ==> xfer.txLength <= |tx.value|
  {
    lay.xfer(xfer) + Supplied(tx, xfer.txLength)
  }

  /** A fast transfer's result: on OK the received count with the bytes, or,
      when nothing came back, the transmit count (a transmit-only transfer);
      otherwise the error. */
  function XferResult(c: Ctx, x: Exchange, txSz: nat): (r: PortCall)
    ensures r.ctx == c
    ensures x.status == OK && |x.received| > 0 ==> r.res == |x.received| && r.data == x.received
    ensures x.status == OK && |x.received| == 0 ==> r.res == txSz && r.data == []
    ensures x.status != OK ==> r.res == x.status && r.data == []
  {
    if x.status != OK then PortCall(c, x.status, [])
    else if |x.received| != 0 then PortCall(c, |x.received|, x.received)
    else PortCall(c, txSz, [])
  }

  /** `I2C_FastXfer`: one combined write-then-read transaction. The
      parameters are `uint16_t` fields. */
  function FastXfer(g: Geometry, lay: Layout, ctx: Ctx, p: PortRef, xfer: XferParams, tx: Option<seq<byte>>, hasRx: bool, env: Env)
    : (r: PortCall)
    requires ValidGeometry(g) && Inv(ctx)
    requires xfer.txLength < 0x1_0000 && xfer.rxLength < 0x1_0000
    requires tx.Some? ==> xfer.txLength <= |tx.value|
    ensures Inv(r.ctx)
    ensures !ValidPort(ctx, p, I2C) ==> r == PortCall(ctx, ERR_BAD_HANDLE, [])
    ensures ValidPort(ctx, p, I2C) && XferRejected(ctx.devices[p.dev], xfer, tx.Some?, hasRx) ==> r == PortCall(ctx, ERR_INVALID_PARAM, [])
    ensures |r.data| <= xfer.rxLength
    ensures r.res >= 0 ==> (r.data != [] && r.res == |r.data|) || (r.data == [] && r.res == xfer.txLength)
  {
    if !ValidPort(ctx, p, I2C) then Rejected(ctx, ERR_BAD_HANDLE)
    else if XferRejected(ctx.devices[p.dev], xfer, tx.Some?, hasRx) then Rejected(ctx, ERR_INVALID_PARAM)
    else
      var (c, x) := PortExchange(g, ctx, p, I2C, I2CDeviceXfer, OutBytes(XferPayload(lay, xfer, tx)), ReplyInto(xfer.rxLength), env);
      XferResult(c, x, xfer.txLength)
  }

  /** A transfer that asked for bytes but got an OK with none back is
      reported as if it were transmit-only: the call returns the transmit
      count, which the caller cannot tell from a received count. */
  lemma EmptyReplyReadsAsTransmitCount(g: Geometry, lay: Layout, ctx: Ctx, p: PortRef, xfer: XferParams, tx: Option<seq<byte>>, env: Env)
    requires ValidGeometry(g) && Inv(ctx) && ValidPort(ctx, p, I2C)
    requires xfer.txLength < 0x1_0000 && xfer.rxLength < 0x1_0000
    requires tx.Some? ==> xfer.txLength <= |tx.value|
    requires !XferRejected(ctx.devices[p.dev], xfer, tx.Some?, true)
    requires var x := SendRequest(g, ctx.devices[p.dev].transId, p.index, I2CDeviceXfer, OutBytes(XferPayload(lay, xfer, tx)), ReplyInto(xfer.rxLength), env);
             x.status == OK && x.received == []
    ensures FastXfer(g, lay, ctx, p, xfer, tx, true, env).res == xfer.txLength
  {
  }

  /** What a fast transfer's reports carry is the parameter block followed
      by exactly the `txLength` bytes to transmit. */
  lemma FastXferCarriesData(g: Geometry, lay: Layout, tid: uint8, ses: uint8, xfer: XferParams, tx: seq<byte>)
    requires ValidGeometry(g) && xfer.txLength <= |tx|
    ensures var carried := CarriedAll(g, Fragments(g, tid, ses, I2CDeviceXfer, XferPayload(lay, xfer, Some(tx))));
            var n := |lay.xfer(xfer)|;
            && |carried| == n + xfer.txLength
            && carried[..n] == lay.xfer(xfer)
            && carried[n..] == tx[..xfer.txLength]
  {
  }

  /** The fast-transfer round trip: when the request goes out whole and the
      device answers with `data` of 1 to `rxLength` bytes, the caller gets
      `data` and its length. */
  lemma FastXferDeliversReply(g: Geometry, lay: Layout, ctx: Ctx, p: PortRef, xfer: XferParams, tx: seq<byte>, env: Env, data: seq<byte>)
    requires ValidGeometry(g) && g.packetSz >= g.dataSz && Inv(ctx) && ValidPort(ctx, p, I2C)
    requires xfer.txLength < 0x1_0000 && xfer.rxLength < 0x1_0000
    requires xfer.txLength <= |tx| && !XferRejected(ctx.devices[p.dev], xfer, true, true)
    requires env.lockOk && env.unlockOk
    requires forall j | 0 <= j < FragmentCount(g, |XferPayload(lay, xfer, Some(tx))|) :: WriteAt(env.writes, j) > 0
    requires env.replies == Reply(g, ctx.devices[p.dev].transId, data) && 0 < |data| <= xfer.rxLength
    ensures var r := FastXfer(g, lay, ctx, p, xfer, Some(tx), true, env);
            r.res == |data| && r.data == data
  {
    OpenPortIsSession(ctx, p, I2C);
    var tid := ctx.devices[p.dev].transId;
    var out := OutBytes(XferPayload(lay, xfer, Some(tx)));
    RequestReceivesReply(g, tid, p.index, I2CDeviceXfer, out, xfer.rxLength, env, data);
    var x := SendRequest(g, tid, p.index, I2CDeviceXfer, out, ReplyInto(xfer.rxLength), env);
    assert PortExchange(g, ctx, p, I2C, I2CDeviceXfer, out, ReplyInto(xfer.rxLength), env).1 == x;
  }

  /** `I2C_Reset`: a reset request with no payload; its status is the
      result. */
  function Reset(g: Geometry, ctx: Ctx, p: PortRef, env: Env): (r: PortCall)
    requires ValidGeometry(g) && Inv(ctx)
    ensures Inv(r.ctx) && r.data == [] && r.res <= OK
    ensures !ValidPort(ctx, p, I2C) ==> r == PortCall(ctx, ERR_BAD_HANDLE, [])
    ensures ValidPort(ctx, p, I2C) ==>
              p.index < 8 &&
              r.res == SendRequest(g, ctx.devices[p.dev].transId, p.index, I2CReset, OutNull(0), NoReply, env).status
  {
    if !ValidPort(ctx, p, I2C) then Rejected(ctx, ERR_BAD_HANDLE)
    else
      var (c, x) := PortExchange(g, ctx, p, I2C, I2CReset, OutNull(0), NoReply, env);
      PortCall(c, x.status, [])
  }
}
