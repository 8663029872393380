/** What the I2C and SPI data calls share: the exchange on an open port and
    the reading of its result into the value the call returns. */
module Command {
  import opened Base
  import opened Errors
  import opened Protocol
  import opened Transport
  import opened Registry

  /** What a data call leaves: the state, its return value (a byte count or
      a negative error code) and the bytes copied into the caller's receive
      buffer. */
  datatype PortCall = PortCall(ctx: Ctx, res: int, data: seq<byte>)

  /** An open port designates a registered device and one of its eight
      session numbers. */
  lemma OpenPortIsSession(ctx: Ctx, p: PortRef, kind: PortKind)
    requires Inv(ctx) && ValidPort(ctx, p, kind)
    ensures p.dev in ctx.devices && p.index < 8
  {
  }

  /** The one exchange of a data call, on the port's session, with the
      device's transaction id advanced as the exchange leaves it. */
  function PortExchange(g: Geometry, ctx: Ctx, p: PortRef, kind: PortKind, req: Req, out: OutArg, inArg: InArg, env: Env)
    : (r: (Ctx, Exchange))
    requires ValidGeometry(g) && Inv(ctx) && ValidPort(ctx, p, kind)
    ensures p.dev in ctx.devices && p.index < 8
    ensures Inv(r.0)
    ensures r.1 == SendRequest(g, ctx.devices[p.dev].transId, p.index, req, out, inArg, env)
    ensures r.0 == ctx.(devices := ctx.devices[p.dev := ctx.devices[p.dev].(transId := r.1.nextTransId)])
  {
    OpenPortIsSession(ctx, p, kind);
    Transact(g, ctx, p.dev, p.index, req, out, inArg, env)
  }

  /** A receiving call's result: on OK the received byte count, with the
      bytes copied out; otherwise the exchange's error code and nothing. */
  function ReceiveResult(c: Ctx, x: Exchange): (r: PortCall)
    ensures r.ctx == c
    ensures x.status == OK ==> r.res == |x.received| && r.data == x.received
    ensures x.status != OK ==> r.res == x.status && r.data == []
  {
    if x.status == OK then PortCall(c, |x.received|, x.received) else PortCall(c, x.status, [])
  }

  /** A call that is rejected before any exchange: nothing changes. */
  function Rejected(ctx: Ctx, code: int): (r: PortCall)
    ensures r.ctx == ctx && r.res == code && r.data == []
  {
    PortCall(ctx, code, [])
  }

  /** The bytes a caller's buffer supplies for a send of `size` bytes: none
      when there is no buffer (which the argument checks allow only for
      size 0). */
  function Supplied(buffer: Option<seq<byte>>, size: nat): (b: seq<byte>)
    requires buffer.Some? ==> size <= |buffer.value|
    ensures buffer.Some? ==> b == buffer.value[..size]
    ensures buffer.None? ==> b == []
  {
    if buffer.Some? then buffer.value[..size] else []
  }
}
