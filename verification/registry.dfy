/** The library's global state: the retained enumeration list, the list of
    open devices (kept as a map from device id to device state plus the
    list order), and the chain of HID enumeration cursors. Handles are ids,
    and a port handle is an explicit (device, kind, index) triple. */
module Registry {
  import opened Base
  import opened Errors
  import opened Protocol
  import opened Transport

  /** The port arrays of a device have room for this many ports each. */
  const MAX_I2C_PORTS: nat := 8
  const MAX_SPI_PORTS: nat := 8

  /** The fields of one `hid_device_info` entry the library looks at. */
  datatype HidInfo = HidInfo(path: string, vendorId: nat, productId: nat, productString: string, interfaceNumber: int)

  type DevId = nat
  type EnumId = nat

  datatype PortKind = I2C | SPI

  /** One port slot: free (null back-reference) or bound to its device with
      its port number. */
  datatype PortSlot = Free | Bound(owner: DevId, portNum: uint8)

  /** The firmware build string: never set, the "FW Ver Unavailable"
      placeholder, or "FW <major>.<minor> <suffix>" from the device-info
      reply. */
  datatype FwBuild = NoBuild | Unavailable | Build(major: nat, minor: nat, suffix: seq<byte>)

  /** One open device (`LPCUSBSIO_Ctrl_t`). */
  datatype Device = Device(
    info: HidInfo,
    transId: uint8,
    maxI2CPorts: nat, maxSPIPorts: nat, maxGPIOPorts: nat,
    maxDataSize: nat, fwVersion: bv32, fwBuild: FwBuild,
    i2cPorts: seq<PortSlot>, spiPorts: seq<PortSlot>)

  /** One enumeration cursor (`HIDAPI_ENUM_T`): the entries, the position of
      the next one (`|head|` is the null position) and the extra-info flag. */
  datatype Cursor = Cursor(head: seq<HidInfo>, pos: nat, exInfo: bool)

  /** The global state. `devList` is the order of the device list (newest
      first); `enums` is the cursor chain (newest first); `hidActive` says
      whether the HID library is initialised. Fresh ids stand for fresh
      allocations. */
  datatype Ctx = Ctx(
    devInfoList: seq<HidInfo>,
    devList: seq<DevId>, devices: map<DevId, Device>, nextDev: DevId,
    enums: seq<EnumId>, cursors: map<EnumId, Cursor>, nextEnum: EnumId,
    hidActive: bool)

  /** A port handle: the slot `index` of the given kind on device `dev`. */
  datatype PortRef = PortRef(dev: DevId, kind: PortKind, index: nat)

  predicate Distinct<T(==)>(s: seq<T>)
  {
    forall i, j | 0 <= i < j < |s| :: s[i] != s[j]
  }

  /** Port slots of a device: eight of them, each free or bound to this
      device under its own index. */
  predicate SlotsOk(id: DevId, slots: seq<PortSlot>)
  {
    && |slots| == 8
    && forall i | 0 <= i < |slots| :: slots[i].Bound? ==> slots[i].owner == id && slots[i].portNum == i
  }

  predicate DeviceOk(id: DevId, d: Device)
  {
    SlotsOk(id, d.i2cPorts) && SlotsOk(id, d.spiPorts)
  }

  /** The registry invariant: the device list and the device map describe
      the same devices, once each, under ids already handed out; likewise
      the cursor chain and the cursor map. */
  ghost predicate Inv(ctx: Ctx)
  {
    && Distinct(ctx.devList)
    && (forall id :: id in ctx.devices <==> id in ctx.devList)
    && (forall id | id in ctx.devices :: id < ctx.nextDev && DeviceOk(id, ctx.devices[id]))
    && Distinct(ctx.enums)
    && (forall e :: e in ctx.cursors <==> e in ctx.enums)
    && (forall e | e in ctx.cursors :: e < ctx.nextEnum && ctx.cursors[e].pos <= |ctx.cursors[e].head|)
  }

  /** The state before any call. */
  function Initial(): (ctx: Ctx)
    ensures Inv(ctx) && ctx.devList == [] && ctx.enums == []
  {
    Ctx([], [], map[], 0, [], map[], 0, false)
  }

  // ----- Handle checks -----

  /** What walking the device list for a handle ends in. */
  datatype Probe = Registered | NotRegistered | NullDeref

  /** `validHandle` as written: the walk stops only when it meets the handle,
      so a null handle walks to the end and is rejected, and any other handle
      that is not in the list walks off its end and dereferences null. */
  function WalkValidHandle(list: seq<DevId>, h: Option<DevId>): (p: Probe)
    ensures p == Registered <==> h.Some? && h.value in list
    ensures p == NotRegistered <==> h.None?
    decreases |list|
  {
    if |list| == 0 then (if h.None? then NotRegistered else NullDeref)
    else if h == Some(list[0]) then Registered
    else WalkValidHandle(list[1..], h)
  }

  /** The intended check: a handle is valid when it is in the device list. */
  predicate ValidHandle(ctx: Ctx, h: Option<DevId>)
  {
    h.Some? && h.value in ctx.devList
  }

  /** The walk answers the intended question whenever it answers at all, and
      it fails to answer exactly for a stale or foreign non-null handle. */
  lemma WalkAgreesOrCrashes(ctx: Ctx, h: Option<DevId>)
    ensures WalkValidHandle(ctx.devList, h) != NullDeref ==>
              (WalkValidHandle(ctx.devList, h) == Registered <==> ValidHandle(ctx, h))
    ensures WalkValidHandle(ctx.devList, h) == NullDeref <==> h.Some? && !ValidHandle(ctx, h)
  {
  }

  /** The concrete case: with no device open, checking any non-null handle
      dereferences null. */
  lemma StaleHandleWalksOffTheList(id: DevId)
    ensures WalkValidHandle(Initial().devList, Some(id)) == NullDeref
  {
  }

  /** The slot position of a port within the device's contiguous port
      arrays (the I2C slots, then the SPI slots). */
  function SlotOffset(p: PortRef): nat
  {
    if p.kind == I2C then p.index else MAX_I2C_PORTS + p.index
  }

  /** `validPortHandle` as written: any address from the first I2C slot of
      a listed device up to and including one past its last SPI slot, open
      or not, of either kind. */
  predicate PortAddrAccepted(ctx: Ctx, p: PortRef)
  {
    p.dev in ctx.devList && SlotOffset(p) <= MAX_I2C_PORTS + MAX_SPI_PORTS
  }

  /** The slot a port handle designates, if there is one. */
  function SlotOf(ctx: Ctx, p: PortRef): (s: Option<PortSlot>)
    ensures s.Some? ==> p.dev in ctx.devices
  {
    if p.dev !in ctx.devices then None
    else
      var d := ctx.devices[p.dev];
      var slots := if p.kind == I2C then d.i2cPorts else d.spiPorts;
      if p.index < |slots| then Some(slots[p.index]) else None
  }

  /** The intended port check: a registered device's slot of the expected
      kind that is currently open. */
  predicate ValidPort(ctx: Ctx, p: PortRef, kind: PortKind)
  {
    && p.dev in ctx.devList
    && p.kind == kind
    && SlotOf(ctx, p).Some? && SlotOf(ctx, p).value.Bound?
  }

  /** Every port the intended check accepts, the address-range check accepts
      too (it is sound, only too permissive). */
  lemma ValidPortIsAccepted(ctx: Ctx, p: PortRef, kind: PortKind)
    requires Inv(ctx) && ValidPort(ctx, p, kind)
    ensures PortAddrAccepted(ctx, p)
  {
  }

  /** A device with every slot free. */
  function FreshDevice(info: HidInfo): (d: Device)
    ensures forall id :: DeviceOk(id, d)
  {
    Device(info, 0, 0, 0, 0, 0, 0, NoBuild, seq(8, _ => Free), seq(8, _ => Free))
  }

  /** A registry holding one device with no port open. */
  function OneDevice(): (ctx: Ctx)
    ensures Inv(ctx) && ctx.devList == [0]
  {
    Ctx([], [0], map[0 := FreshDevice(HidInfo("", 0, 0, "", 0))], 1, [], map[], 0, true)
  }

  /** The address-range check accepts a closed I2C slot, an SPI slot offered
      as an I2C port, and the position one past the last SPI slot, none of
      which the intended check accepts. */
  lemma PortCheckTooPermissive()
    ensures PortAddrAccepted(OneDevice(), PortRef(0, I2C, 0)) && !ValidPort(OneDevice(), PortRef(0, I2C, 0), I2C)
    ensures PortAddrAccepted(OneDevice(), PortRef(0, SPI, 0)) && !ValidPort(OneDevice(), PortRef(0, SPI, 0), I2C)
    ensures PortAddrAccepted(OneDevice(), PortRef(0, SPI, 8)) && SlotOf(OneDevice(), PortRef(0, SPI, 8)).None?
  {
  }

  // ----- Enumeration list -----

  /** `GetDevAtIndex`: walks the retained list counting entries. */
  function GetDevAtIndex(list: seq<HidInfo>, index: nat): (r: Option<HidInfo>)
    ensures r.Some? <==> index < |list|
    ensures r.Some? ==> r.value == list[index]
    decreases |list|
  {
    if |list| == 0 then None
    else if index == 0 then Some(list[0])
    else GetDevAtIndex(list[1..], index - 1)
  }

  /** The product-string test of `LPCUSBSIO_GetNumPorts`: the first six
      characters are "LPCSIO" or "MCUSIO". */
  predicate IsSioDevice(info: HidInfo)
  {
    var s := info.productString;
    |s| >= 6 && (s[..6] == "LPCSIO" || s[..6] == "MCUSIO")
  }

  /** The entries of an enumeration that pass the test, in order. */
  function KeepSio(devs: seq<HidInfo>): (kept: seq<HidInfo>)
    ensures |kept| <= |devs|
    ensures forall i | 0 <= i < |kept| :: IsSioDevice(kept[i])
    decreases |devs|
  {
    if |devs| == 0 then []
    else if IsSioDevice(devs[0]) then [devs[0]] + KeepSio(devs[1..])
    else KeepSio(devs[1..])
  }

  /** How many entries of an enumeration pass the test. */
  function CountSio(devs: seq<HidInfo>): nat
  {
    if |devs| == 0 then 0 else (if IsSioDevice(devs[0]) then 1 else 0) + CountSio(devs[1..])
  }

  /** The filter keeps an entry exactly when it passes the test. */
  lemma {:induction false} KeepSioMembers(devs: seq<HidInfo>, x: HidInfo)
    ensures x in KeepSio(devs) <==> x in devs && IsSioDevice(x)
    decreases |devs|
  {
    if |devs| > 0 {
      KeepSioMembers(devs[1..], x);
      assert devs == [devs[0]] + devs[1..];
    }
  }

  /** The filter drops nothing that passes: its length is the number of
      entries that pass the test. */
  lemma {:induction false} KeepSioCount(devs: seq<HidInfo>)
    ensures |KeepSio(devs)| == CountSio(devs)
    decreases |devs|
  {
    if |devs| > 0 {
      KeepSioCount(devs[1..]);
    }
  }

  /** `LPCUSBSIO_GetNumPorts`: drops the previous retained list, enumerates
      (initialising the HID library), keeps the bridge devices, in order, and
      returns how many there are. */
  function GetNumPorts(ctx: Ctx, enumerated: seq<HidInfo>): (r: (Ctx, nat))
    ensures r.0 == ctx.(devInfoList := r.0.devInfoList, hidActive := true)
    ensures r.1 == |r.0.devInfoList| == CountSio(enumerated)
    ensures forall x :: x in r.0.devInfoList <==> x in enumerated && IsSioDevice(x)
  {
    KeepSioCount(enumerated);
    forall x {
      KeepSioMembers(enumerated, x);
    }
    var kept := KeepSio(enumerated);
    (ctx.(devInfoList := kept, hidActive := true), |kept|)
  }

  // ----- Releasing devices -----

  /** `LibCleanup`: shuts the HID library down only when no enumeration list
      and no cursor is held; answers whether it did. */
  function LibCleanup(ctx: Ctx): (r: (Ctx, bool))
    ensures r.1 <==> ctx.devInfoList == [] && ctx.enums == []
    ensures r.0 == if r.1 then ctx.(hidActive := false) else ctx
  {
    if ctx.devInfoList != [] then (ctx, false)
    else if ctx.enums != [] then (ctx, false)
    else (ctx.(hidActive := false), true)
  }

  /** `s` without the element `x`. */
  function Remove(s: seq<nat>, x: nat): (r: seq<nat>)
    ensures forall y :: y in r <==> y in s && y != x
    ensures |r| <= |s|
    decreases |s|
  {
    if |s| == 0 then [] else if s[0] == x then Remove(s[1..], x) else [s[0]] + Remove(s[1..], x)
  }

  lemma {:induction false} RemoveKeepsDistinct(s: seq<nat>, x: nat)
    requires Distinct(s)
    ensures Distinct(Remove(s, x))
    decreases |s|
  {
    if |s| > 0 {
      RemoveKeepsDistinct(s[1..], x);
      var r := Remove(s[1..], x);
      if s[0] != x {
        assert s[0] !in s[1..] by {
          forall i | 0 <= i < |s[1..]|
            ensures s[1..][i] != s[0]
          {
            assert s[1..][i] == s[i + 1];
          }
        }
        assert s[0] !in r;
        forall i, j | 0 <= i < j < |[s[0]] + r|
          ensures ([s[0]] + r)[i] != ([s[0]] + r)[j]
        {
          if i == 0 {
            assert ([s[0]] + r)[j] == r[j - 1];
          } else {
            assert ([s[0]] + r)[i] == r[i - 1] && ([s[0]] + r)[j] == r[j - 1];
          }
        }
      }
    }
  }

  /** `freeDevice`: unlinks the device; when that empties the list, the
      retained enumeration list goes too and `LibCleanup` runs. */
  function FreeDevice(ctx: Ctx, id: DevId): (r: Ctx)
    requires Inv(ctx)
    ensures Inv(r)
    ensures forall x :: x in r.devList <==> x in ctx.devList && x != id
    ensures forall x | x in r.devices :: r.devices[x] == ctx.devices[x]
    ensures r.devList == [] ==> r.devInfoList == [] && (r.hidActive <==> r.enums != [] && ctx.hidActive)
    ensures r.devList != [] ==> r.devInfoList == ctx.devInfoList && r.hidActive == ctx.hidActive
    ensures r.enums == ctx.enums && r.cursors == ctx.cursors
  {
    RemoveKeepsDistinct(ctx.devList, id);
    var c := ctx.(devList := Remove(ctx.devList, id), devices := ctx.devices - {id});
    if c.devList == [] then LibCleanup(c.(devInfoList := [])).0 else c
  }

  /** Freeing takes exactly the device out of the list and the map. */
  lemma FreeDeviceDrops(ctx: Ctx, id: DevId)
    requires Inv(ctx)
    ensures FreeDevice(ctx, id).devList == Remove(ctx.devList, id)
    ensures FreeDevice(ctx, id).devices == ctx.devices - {id}
  {
  }

  // ----- Requests on a device -----

  /** Replacing a registered device by a well-formed one keeps the
      invariant. */
  lemma UpdateKeepsInv(ctx: Ctx, id: DevId, d: Device)
    requires Inv(ctx) && id in ctx.devices && DeviceOk(id, d)
    ensures Inv(ctx.(devices := ctx.devices[id := d]))
  {
    var c := ctx.(devices := ctx.devices[id := d]);
    assert forall x :: x in c.devices <==> x in ctx.devices;
  }

  /** One request on a registered device; the device keeps the transaction
      id the exchange leaves behind, and nothing else changes. */
  function Transact(g: Geometry, ctx: Ctx, id: DevId, ses: uint8, req: Req, out: OutArg, inArg: InArg, env: Env)
    : (r: (Ctx, Exchange))
    requires ValidGeometry(g) && Inv(ctx) && id in ctx.devices
    ensures r.1 == SendRequest(g, ctx.devices[id].transId, ses, req, out, inArg, env)
    ensures r.0 == ctx.(devices := ctx.devices[id := ctx.devices[id].(transId := r.1.nextTransId)])
    ensures Inv(r.0)
  {
    var d := ctx.devices[id];
    var x := SendRequest(g, d.transId, ses, req, out, inArg, env);
    UpdateKeepsInv(ctx, id, d.(transId := x.nextTransId));
    (ctx.(devices := ctx.devices[id := d.(transId := x.nextTransId)]), x)
  }
}
