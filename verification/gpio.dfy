/** The GPIO calls: the set/clear mask command shared by the port and pin
    calls (`GPIO_SendCmd`), and the pin toggle and pin configuration
    requests. GPIO calls take the device handle and a port number, which
    is sent as the session id unchecked. */
module Gpio {
  import opened Base
  import opened Errors
  import opened Protocol
  import opened Transport
  import opened Registry
  import opened GpioMasks

  /** The 8-byte command payload: the set mask, then the clear mask, each
      as the host's little-endian `uint32_t`. */
  function CmdPayload(setMask: bv32, clrMask: bv32): (b: seq<byte>)
    ensures |b| == 8
  {
    Le32(setMask) + Le32(clrMask)
  }

  /** The firmware reads both masks back from the payload. */
  lemma CmdPayloadRoundTrip(setMask: bv32, clrMask: bv32)
    ensures var b := CmdPayload(setMask, clrMask);
            FromLe32(b[..4]) == setMask && FromLe32(b[4..]) == clrMask
  {
    var b := CmdPayload(setMask, clrMask);
    assert b[..4] == Le32(setMask);
    assert b[4..] == Le32(clrMask);
    Le32RoundTrip(setMask);
    Le32RoundTrip(clrMask);
  }

  /** The status word the call reads out of its 4-byte receive buffer: the
      received bytes, then whatever the buffer held before (`stale`). */
  function StatusWord(received: seq<byte>, stale: seq<byte>): bv32
    requires |received| <= 4 && |stale| == 4
  {
    FromLe32(received + stale[|received|..])
  }

  /** A full 4-byte reply is the status word, whatever the buffer held. */
  lemma FullReplyIsStatus(received: seq<byte>, stale: seq<byte>)
    requires |received| == 4 && |stale| == 4
    ensures StatusWord(received, stale) == FromLe32(received)
  {
    assert received + stale[4..] == received;
  }

  /** What one mask command leaves: the state, the return value (the reply
      length or an error) and the status word written to the caller's
      variable, if any. */
  datatype GpioCall = GpioCall(ctx: Ctx, res: int, status: Option<bv32>)

  /** `GPIO_SendCmd`: sends the set and clear masks on port `port` and reads
      back up to four bytes; on OK the reply length is returned and, when it
      is not zero, the status word is written. */
  function SendCmd(g: Geometry, ctx: Ctx, h: Option<DevId>, port: uint8, cmd: Req, setMask: bv32, clrMask: bv32, stale: seq<byte>, env: Env)
    : (r: GpioCall)
    requires ValidGeometry(g) && Inv(ctx) && |stale| == 4
    ensures Inv(r.ctx)
    ensures !ValidHandle(ctx, h) ==> r == GpioCall(ctx, ERR_BAD_HANDLE, None)
    ensures ValidHandle(ctx, h) ==>
              h.value in ctx.devices &&
              var x := SendRequest(g, ctx.devices[h.value].transId, port, cmd, OutBytes(CmdPayload(setMask, clrMask)), ReplyInto(4), env);
              && r.ctx == ctx.(devices := ctx.devices[h.value := ctx.devices[h.value].(transId := x.nextTransId)])
              && r.res == (if x.status == OK then |x.received| else x.status)
              && r.status == (if x.status == OK && |x.received| != 0 then Some(StatusWord(x.received, stale)) else None)
    ensures r.res <= 4
    ensures r.status.Some? <==> r.res > 0
  {
    if !ValidHandle(ctx, h) then GpioCall(ctx, ERR_BAD_HANDLE, None)
    else
      var (c, x) := Transact(g, ctx, h.value, port, cmd, OutBytes(CmdPayload(setMask, clrMask)), ReplyInto(4), env);
      if x.status != OK then GpioCall(c, x.status, None)
      else GpioCall(c, |x.received|, if |x.received| != 0 then Some(StatusWord(x.received, stale)) else None)
  }

  /** The request a port or pin call goes out as. */
  function RequestOf(op: PortOp): (r: Req)
    ensures r == GpioPortDir <==> OnDirection(op)
    ensures r == GpioPortValue <==> !OnDirection(op)
  {
    if op.GetPortDir? || op.SetPortOutDir? || op.SetPortInDir? then GpioPortDir else GpioPortValue
  }

  /** One port or pin call: its masks through `SendCmd`, with the status
      word kept only where the caller sees it. */
  function PortCall(g: Geometry, ctx: Ctx, h: Option<DevId>, port: uint8, op: PortOp, stale: seq<byte>, env: Env)
    : (r: GpioCall)
    requires ValidGeometry(g) && Inv(ctx) && |stale| == 4
    ensures Inv(r.ctx) && r.res <= 4
    ensures !ValidHandle(ctx, h) ==> r == GpioCall(ctx, ERR_BAD_HANDLE, None)
    ensures r.status.Some? ==> ReturnsStatus(op) && r.res > 0
    ensures ReturnsStatus(op) && r.res > 0 ==> r.status.Some?
  {
    var (setMask, clrMask) := MaskPair(op);
    var c := SendCmd(g, ctx, h, port, RequestOf(op), setMask, clrMask, stale, env);
    if ReturnsStatus(op) then c else c.(status := None)
  }

  /** `GPIO_GetPin`: reads the port; a positive result becomes bit `pin` of
      the status word (1 or 0), anything else is returned as it is. */
  function GetPin(g: Geometry, ctx: Ctx, h: Option<DevId>, port: uint8, pin: PinIndex, stale: seq<byte>, env: Env)
    : (r: (Ctx, int))
    requires ValidGeometry(g) && Inv(ctx) && |stale| == 4
    ensures Inv(r.0)
    ensures var c := SendCmd(g, ctx, h, port, GpioPortValue, 0, 0, stale, env);
            && r.0 == c.ctx
            && (c.res > 0 ==> (r.1 == 1 <==> Bit(c.status.value, pin)) && (r.1 == 0 <==> !Bit(c.status.value, pin)))
            && (c.res <= 0 ==> r.1 == c.res)
    ensures r.1 <= 1
  {
    var c := SendCmd(g, ctx, h, port, GpioPortValue, 0, 0, stale, env);
    (c.ctx, if c.res > 0 then PinLevel(c.status.value, pin) else c.res)
  }

  /** An OK reply with no data makes `GetPin` return 0, the same as a low
      pin. */
  lemma EmptyReplyReadsAsLowPin(g: Geometry, ctx: Ctx, id: DevId, port: uint8, pin: PinIndex, stale: seq<byte>, env: Env)
    requires ValidGeometry(g) && Inv(ctx) && |stale| == 4 && id in ctx.devList
    requires var x := SendRequest(g, ctx.devices[id].transId, port, GpioPortValue, OutBytes(CmdPayload(0, 0)), ReplyInto(4), env);
             x.status == OK && x.received == []
    ensures GetPin(g, ctx, Some(id), port, pin, stale, env).1 == 0
  {
  }

  /** `GPIO_TogglePin`: sends the pin number as a one-byte request; its
      status is the result. The pin is not range-checked. */
  function TogglePin(g: Geometry, ctx: Ctx, h: Option<DevId>, port: uint8, pin: bv8, env: Env): (r: (Ctx, int))
    requires ValidGeometry(g) && Inv(ctx)
    ensures Inv(r.0) && r.1 <= OK
    ensures !ValidHandle(ctx, h) ==> r == (ctx, ERR_BAD_HANDLE)
    ensures ValidHandle(ctx, h) ==>
              h.value in ctx.devices &&
              r.1 == SendRequest(g, ctx.devices[h.value].transId, port, GpioTogglePin, OutBytes([pin]), NoReply, env).status
  {
    if !ValidHandle(ctx, h) then (ctx, ERR_BAD_HANDLE)
    else
      var (c, x) := Transact(g, ctx, h.value, port, GpioTogglePin, OutBytes([pin]), NoReply, env);
      (c, x.status)
  }

  /** The 5-byte configuration payload: the mode least-significant byte
      first, then the pin. */
  function ConfigPayload(pin: bv8, mode: bv32): (b: seq<byte>)
    ensures |b| == 5
  {
    [ (mode & 0xFF) as byte, ((mode >> 8) & 0xFF) as byte,
      ((mode >> 16) & 0xFF) as byte, ((mode >> 24) & 0xFF) as byte, pin ]
  }

  /** The firmware reads the mode and the pin back from the payload. */
  lemma ConfigPayloadRoundTrip(pin: bv8, mode: bv32)
    ensures var b := ConfigPayload(pin, mode);
            FromLe32(b[..4]) == mode && b[4] == pin
  {
    var b := ConfigPayload(pin, mode);
    assert b[..4] == Le32(mode);
    Le32RoundTrip(mode);
  }

  /** `GPIO_ConfigIOPin`: sends the pin's mode; its status is the result. */
  function ConfigIOPin(g: Geometry, ctx: Ctx, h: Option<DevId>, port: uint8, pin: bv8, mode: bv32, env: Env): (r: (Ctx, int))
    requires ValidGeometry(g) && Inv(ctx)
    ensures Inv(r.0) && r.1 <= OK
    ensures !ValidHandle(ctx, h) ==> r == (ctx, ERR_BAD_HANDLE)
    ensures ValidHandle(ctx, h) ==>
              h.value in ctx.devices &&
              r.1 == SendRequest(g, ctx.devices[h.value].transId, port, GpioIoConfig, OutBytes(ConfigPayload(pin, mode)), NoReply, env).status
  {
    if !ValidHandle(ctx, h) then (ctx, ERR_BAD_HANDLE)
    else
      var (c, x) := Transact(g, ctx, h.value, port, GpioIoConfig, OutBytes(ConfigPayload(pin, mode)), NoReply, env);
      (c, x.status)
  }
}
