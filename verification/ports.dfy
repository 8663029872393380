/** Opening and closing I2C and SPI ports (`I2C_Open`, `I2C_Close`,
    `SPI_Open`, `SPI_Close`): the two kinds differ only in their request
    codes, their port-count field and their slot array. */
module Ports {
  import opened Base
  import opened Errors
  import opened Protocol
  import opened Transport
  import opened Registry

  function InitReq(kind: PortKind): Req
  {
    if kind == I2C then I2CInitPort else SPIInitPort
  }

  function DeinitReq(kind: PortKind): Req
  {
    if kind == I2C then I2CDeinitPort else SPIDeinitPort
  }

  /** The slot array of one kind. */
  function Slots(d: Device, kind: PortKind): seq<PortSlot>
  {
    if kind == I2C then d.i2cPorts else d.spiPorts
  }

  /** The device with one slot of one kind replaced. */
  function WithSlot(d: Device, kind: PortKind, i: nat, s: PortSlot): (d': Device)
    requires i < |Slots(d, kind)|
    ensures Slots(d', kind) == Slots(d, kind)[i := s]
    ensures Slots(d', Other(kind)) == Slots(d, Other(kind))
    ensures d'.transId == d.transId
  {
    if kind == I2C then d.(i2cPorts := d.i2cPorts[i := s]) else d.(spiPorts := d.spiPorts[i := s])
  }

  /** Freeing a slot, or binding it to its own device under its own index,
      keeps the device well-formed. */
  lemma WithSlotOk(id: DevId, d: Device, kind: PortKind, i: nat, s: PortSlot)
    requires DeviceOk(id, d) && i < 8 && (s == Free || s == Bound(id, i))
    ensures DeviceOk(id, WithSlot(d, kind, i, s))
  {
  }

  /** The number of ports of a kind the device reported, capped by the
      eight slots the device structure holds. */
  function PortLimit(d: Device, kind: PortKind): (n: nat)
    ensures n <= 8
  {
    var m := if kind == I2C then d.maxI2CPorts else d.maxSPIPorts;
    if m < 8 then m else 8
  }

  /** What opening a port leaves: the state, the port handle (none on
      failure) and the code recorded as the last error. */
  datatype OpenResult = OpenResult(ctx: Ctx, handle: Option<PortRef>, status: int)

  /** The arguments `I2C_Open`/`SPI_Open` reject before any exchange: an
      unknown device, no configuration, or a port number the device does not
      have. */
  predicate OpenRejected(ctx: Ctx, h: Option<DevId>, config: Option<seq<byte>>, portNum: uint8, kind: PortKind)
  {
    !ValidHandle(ctx, h) || config.None? || h.value !in ctx.devices || portNum >= PortLimit(ctx.devices[h.value], kind)
  }

  /** The device with its transaction id replaced and, if the exchange
      succeeded, one slot replaced. */
  function AfterPortRequest(d: Device, kind: PortKind, i: nat, s: PortSlot, x: Exchange): (d': Device)
    requires i < |Slots(d, kind)|
    ensures d'.transId == x.nextTransId
    ensures Slots(d', kind) == if x.status == OK then Slots(d, kind)[i := s] else Slots(d, kind)
    ensures Slots(d', Other(kind)) == Slots(d, Other(kind))
  {
    var d1 := d.(transId := x.nextTransId);
    if x.status == OK then WithSlot(d1, kind, i, s) else d1
  }

  /** A port request changes nothing of the device but its transaction id
      and its slot arrays. */
  lemma AfterPortRequestFrame(d: Device, kind: PortKind, i: nat, s: PortSlot, x: Exchange)
    requires i < |Slots(d, kind)|
    ensures AfterPortRequest(d, kind, i, s, x).(transId := d.transId, i2cPorts := d.i2cPorts, spiPorts := d.spiPorts) == d
  {
  }

  function Other(kind: PortKind): PortKind
  {
    if kind == I2C then SPI else I2C
  }

  /** The state after a request on device `id`'s port `i`. */
  function PortRequestState(ctx: Ctx, id: DevId, kind: PortKind, i: nat, s: PortSlot, x: Exchange): (c: Ctx)
    requires id in ctx.devices && i < |Slots(ctx.devices[id], kind)|
  {
    ctx.(devices := ctx.devices[id := AfterPortRequest(ctx.devices[id], kind, i, s, x)])
  }

  /** A port request keeps the registry well-formed; on success it binds
      or frees the slot, and on failure the slot keeps its state. */
  lemma PortRequestKeepsInv(ctx: Ctx, id: DevId, kind: PortKind, i: nat, s: PortSlot, x: Exchange)
    requires Inv(ctx) && id in ctx.devices && i < 8 && (s == Free || s == Bound(id, i))
    ensures var c := PortRequestState(ctx, id, kind, i, s, x);
            && Inv(c)
            && (x.status == OK && s.Bound? ==> ValidPort(c, PortRef(id, kind, i), kind))
            && (x.status != OK ==> SlotOf(c, PortRef(id, kind, i)) == SlotOf(ctx, PortRef(id, kind, i)))
            && (x.status == OK && s == Free ==> !ValidPort(c, PortRef(id, kind, i), kind))
  {
    RequestStateInv(ctx, id, kind, i, s, x);
    RequestStateSlot(ctx, id, kind, i, s, x);
  }

  lemma RequestStateInv(ctx: Ctx, id: DevId, kind: PortKind, i: nat, s: PortSlot, x: Exchange)
    requires Inv(ctx) && id in ctx.devices && i < 8 && (s == Free || s == Bound(id, i))
    ensures Inv(PortRequestState(ctx, id, kind, i, s, x))
  {
    var d := ctx.devices[id];
    WithSlotOk(id, d.(transId := x.nextTransId), kind, i, s);
    UpdateKeepsInv(ctx, id, AfterPortRequest(d, kind, i, s, x));
  }

  /** The slot a port request leaves: `s` after success, the old one after
      failure. */
  lemma RequestStateSlot(ctx: Ctx, id: DevId, kind: PortKind, i: nat, s: PortSlot, x: Exchange)
    requires id in ctx.devices && i < |Slots(ctx.devices[id], kind)|
    ensures SlotOf(ctx, PortRef(id, kind, i)) == Some(Slots(ctx.devices[id], kind)[i])
    ensures SlotOf(PortRequestState(ctx, id, kind, i, s, x), PortRef(id, kind, i))
              == Some(if x.status == OK then s else Slots(ctx.devices[id], kind)[i])
  {
  }

  /** `I2C_Open` / `SPI_Open`: sends the configuration as an init-port
      request on session `portNum`; on OK the slot is bound to the device
      and its handle returned. */
  function PortOpen(g: Geometry, ctx: Ctx, h: Option<DevId>, kind: PortKind, config: Option<seq<byte>>, portNum: uint8, env: Env)
    : (r: OpenResult)
    requires ValidGeometry(g) && Inv(ctx)
    ensures Inv(r.ctx)
    ensures OpenRejected(ctx, h, config, portNum, kind) ==> r == OpenResult(ctx, None, ERR_INVALID_PARAM)
    ensures !OpenRejected(ctx, h, config, portNum, kind) ==>
              var x := SendRequest(g, ctx.devices[h.value].transId, portNum, InitReq(kind), OutBytes(config.value), NoReply, env);
              && r.status == x.status
              && (r.handle.Some? <==> x.status == OK)
              && r.ctx == ctx.(devices := ctx.devices[h.value := AfterPortRequest(ctx.devices[h.value], kind, portNum, Bound(h.value, portNum), x)])
    ensures r.handle.Some? ==> r.handle.value == PortRef(h.value, kind, portNum) && ValidPort(r.ctx, r.handle.value, kind)
  {
    if OpenRejected(ctx, h, config, portNum, kind) then OpenResult(ctx, None, ERR_INVALID_PARAM)
    else
      var id := h.value;
      var x := SendRequest(g, ctx.devices[id].transId, portNum, InitReq(kind), OutBytes(config.value), NoReply, env);
      var c := PortRequestState(ctx, id, kind, portNum, Bound(id, portNum), x);
      PortRequestKeepsInv(ctx, id, kind, portNum, Bound(id, portNum), x);
      OpenResult(c, if x.status == OK then Some(PortRef(id, kind, portNum)) else None, x.status)
  }

  /** `I2C_Close` / `SPI_Close` with the intended port check: sends a
      deinit-port request on the port's session; only on OK is the slot
      freed. */
  function PortClose(g: Geometry, ctx: Ctx, p: PortRef, kind: PortKind, env: Env): (r: (Ctx, int))
    requires ValidGeometry(g) && Inv(ctx)
    ensures Inv(r.0)
    ensures !ValidPort(ctx, p, kind) ==> r == (ctx, ERR_BAD_HANDLE)
    ensures ValidPort(ctx, p, kind) ==>
              var x := SendRequest(g, ctx.devices[p.dev].transId, p.index, DeinitReq(kind), OutNull(0), NoReply, env);
              && r.1 == x.status
              && r.0 == ctx.(devices := ctx.devices[p.dev := AfterPortRequest(ctx.devices[p.dev], kind, p.index, Free, x)])
              && (ValidPort(r.0, p, kind) <==> x.status != OK)
  {
    if !ValidPort(ctx, p, kind) then (ctx, ERR_BAD_HANDLE)
    else
      var x := SendRequest(g, ctx.devices[p.dev].transId, p.index, DeinitReq(kind), OutNull(0), NoReply, env);
      PortRequestKeepsInv(ctx, p.dev, kind, p.index, Free, x);
      (PortRequestState(ctx, p.dev, kind, p.index, Free, x), x.status)
  }

  /** Closing a port changes only the port's own device. */
  lemma CloseFrame(g: Geometry, ctx: Ctx, p: PortRef, kind: PortKind, env: Env)
    requires ValidGeometry(g) && Inv(ctx)
    ensures var c := PortClose(g, ctx, p, kind, env).0;
            && c == ctx.(devices := c.devices) && c.devices.Keys == ctx.devices.Keys
            && forall x | x in ctx.devices && x != p.dev :: c.devices[x] == ctx.devices[x]
  {
    if ValidPort(ctx, p, kind) {
      var x := SendRequest(g, ctx.devices[p.dev].transId, p.index, DeinitReq(kind), OutNull(0), NoReply, env);
      UpdateFrame(ctx, p.dev, AfterPortRequest(ctx.devices[p.dev], kind, p.index, Free, x));
    }
  }

  /** Replacing one device leaves the other devices and the rest of the
      context as they were. */
  lemma UpdateFrame(ctx: Ctx, id: DevId, d: Device)
    requires id in ctx.devices
    ensures var c := ctx.(devices := ctx.devices[id := d]);
            && c == ctx.(devices := c.devices) && c.devices.Keys == ctx.devices.Keys
            && forall x | x in ctx.devices && x != id :: c.devices[x] == ctx.devices[x]
  {
  }

  /** Closing a port right after opening it gives the slot back: both
      succeeding, the state is the one before the open except that the
      device's transaction id has advanced by two. */
  lemma OpenThenCloseRestores(g: Geometry, ctx: Ctx, id: DevId, kind: PortKind, config: seq<byte>, portNum: uint8, env1: Env, env2: Env)
    requires ValidGeometry(g) && Inv(ctx) && id in ctx.devList
    requires portNum < PortLimit(ctx.devices[id], kind) && Slots(ctx.devices[id], kind)[portNum] == Free
    requires var r := PortOpen(g, ctx, Some(id), kind, Some(config), portNum, env1);
             r.handle.Some? && PortClose(g, r.ctx, r.handle.value, kind, env2).1 == OK
    ensures var r := PortOpen(g, ctx, Some(id), kind, Some(config), portNum, env1);
            var d := ctx.devices[id];
            PortClose(g, r.ctx, r.handle.value, kind, env2).0
              == ctx.(devices := ctx.devices[id := d.(transId := (d.transId + 2) % 256)])
  {
    var r := PortOpen(g, ctx, Some(id), kind, Some(config), portNum, env1);
    OpenSucceeded(g, ctx, id, kind, config, portNum, env1);
    CloseSucceeded(g, r.ctx, r.handle.value, kind, env2);
    ComposeStates(ctx, id, kind, portNum, r.ctx, PortClose(g, r.ctx, r.handle.value, kind, env2).0);
  }

  /** The device after a successful request on slot `i`: the slot set to
      `s` and the transaction id advanced by one. */
  function Advanced(d: Device, kind: PortKind, i: nat, s: PortSlot): (d': Device)
    requires i < |Slots(d, kind)|
  {
    WithSlot(d, kind, i, s).(transId := (d.transId + 1) % 256)
  }

  /** After a successful exchange that consumed one id, the device is the
      advanced one. */
  lemma AfterSuccess(d: Device, kind: PortKind, i: nat, s: PortSlot, x: Exchange)
    requires i < |Slots(d, kind)| && x.status == OK && x.nextTransId == (d.transId + 1) % 256
    ensures AfterPortRequest(d, kind, i, s, x) == Advanced(d, kind, i, s)
  {
  }

  /** A successful port open binds the slot and advances the device's
      transaction id by one. */
  lemma OpenSucceeded(g: Geometry, ctx: Ctx, id: DevId, kind: PortKind, config: seq<byte>, portNum: uint8, env: Env)
    requires ValidGeometry(g) && Inv(ctx) && id in ctx.devList && portNum < PortLimit(ctx.devices[id], kind)
    requires PortOpen(g, ctx, Some(id), kind, Some(config), portNum, env).handle.Some?
    ensures var r := PortOpen(g, ctx, Some(id), kind, Some(config), portNum, env);
            && r.handle == Some(PortRef(id, kind, portNum))
            && r.ctx == ctx.(devices := ctx.devices[id := Advanced(ctx.devices[id], kind, portNum, Bound(id, portNum))])
  {
    var d := ctx.devices[id];
    SuccessConsumesOneId(g, d.transId, portNum, InitReq(kind), OutBytes(config), NoReply, env);
    var x := SendRequest(g, d.transId, portNum, InitReq(kind), OutBytes(config), NoReply, env);
    AfterSuccess(d, kind, portNum, Bound(id, portNum), x);
  }

  /** A successful port close frees the slot and advances the device's
      transaction id by one. */
  lemma CloseSucceeded(g: Geometry, ctx: Ctx, p: PortRef, kind: PortKind, env: Env)
    requires ValidGeometry(g) && Inv(ctx) && PortClose(g, ctx, p, kind, env).1 == OK
    ensures ValidPort(ctx, p, kind)
    ensures PortClose(g, ctx, p, kind, env).0 == ctx.(devices := ctx.devices[p.dev := Advanced(ctx.devices[p.dev], kind, p.index, Free)])
  {
    var r := PortClose(g, ctx, p, kind, env);
    assert ValidPort(ctx, p, kind);
    var d := ctx.devices[p.dev];
    var x := SendRequest(g, d.transId, p.index, DeinitReq(kind), OutNull(0), NoReply, env);
    SuccessConsumesOneId(g, d.transId, p.index, DeinitReq(kind), OutNull(0), NoReply, env);
    SuccessAdvances(ctx, p.dev, kind, p.index, Free, x, r.0);
  }

  /** A state left by a successful exchange that consumed one id is the
      one with the device advanced. */
  lemma SuccessAdvances(ctx: Ctx, id: DevId, kind: PortKind, i: nat, s: PortSlot, x: Exchange, c: Ctx)
    requires id in ctx.devices && i < |Slots(ctx.devices[id], kind)|
    requires x.status == OK && x.nextTransId == (ctx.devices[id].transId + 1) % 256
    requires c == ctx.(devices := ctx.devices[id := AfterPortRequest(ctx.devices[id], kind, i, s, x)])
    ensures c == ctx.(devices := ctx.devices[id := Advanced(ctx.devices[id], kind, i, s)])
  {
    AfterSuccess(ctx.devices[id], kind, i, s, x);
  }

  /** The state part of `OpenThenCloseRestores`: binding a free slot
      (giving `c1`) and then freeing it (giving `c2`) leaves only the
      device's transaction id changed. */
  lemma ComposeStates(ctx: Ctx, id: DevId, kind: PortKind, i: uint8, c1: Ctx, c2: Ctx)
    requires id in ctx.devices && i < |Slots(ctx.devices[id], kind)| && Slots(ctx.devices[id], kind)[i] == Free
    requires c1 == ctx.(devices := ctx.devices[id := Advanced(ctx.devices[id], kind, i, Bound(id, i))])
    requires c2 == c1.(devices := c1.devices[id := Advanced(c1.devices[id], kind, i, Free)])
    ensures var d := ctx.devices[id];
            c2 == ctx.(devices := ctx.devices[id := d.(transId := (d.transId + 2) % 256)])
  {
    var d := ctx.devices[id];
    var d1 := Advanced(d, kind, i, Bound(id, i));
    assert c1.devices[id] == d1;
    DeviceRoundTrip(d, kind, i, Bound(id, i));
    assert ctx.devices[id := d1][id := Advanced(d1, kind, i, Free)] == ctx.devices[id := Advanced(d1, kind, i, Free)];
  }

  /** On one device: binding a free slot and then freeing it leaves only
      the transaction id advanced, by two. */
  lemma DeviceRoundTrip(d: Device, kind: PortKind, i: nat, s: PortSlot)
    requires i < |Slots(d, kind)| && Slots(d, kind)[i] == Free
    ensures Advanced(Advanced(d, kind, i, s), kind, i, Free) == d.(transId := (d.transId + 2) % 256)
  {
    var d2 := Advanced(Advanced(d, kind, i, s), kind, i, Free);
    assert Slots(d2, kind) == Slots(d, kind);
    ModShift(d.transId, 1);
  }
}
