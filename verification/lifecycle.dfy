/** Opening and closing a bridge device (`LPCUSBSIO_Open`,
    `LPCUSBSIO_Close`) and reading a retained enumeration entry
    (`LPCUSBSIO_GetDeviceInfo`). */
module Lifecycle {
  import opened Base
  import opened Errors
  import opened Protocol
  import opened Transport
  import opened Registry
  import opened Ports
  import opened Fragmentation
  import opened Reassembly

  /** Room for the firmware build text in the device structure. */
  const MAX_FWVER_STRLEN: nat := 60
  /** The device-info reply buffer: twelve bytes of fields, then the text. */
  const DEV_INFO_LEN: nat := 12 + MAX_FWVER_STRLEN

  /** `LPCUSBSIO_GetDeviceInfo`: the entry at `index` of the retained list
      and OK, or BAD_HANDLE when the list is shorter. */
  function GetDeviceInfo(ctx: Ctx, index: nat): (r: (Option<HidInfo>, int))
    ensures r.1 == OK <==> index < |ctx.devInfoList|
    ensures r.1 == OK ==> r.0 == Some(ctx.devInfoList[index])
    ensures r.1 != OK ==> r == (None, ERR_BAD_HANDLE)
  {
    match GetDevAtIndex(ctx.devInfoList, index)
    case Some(info) => (Some(info), OK)
    case None => (None, ERR_BAD_HANDLE)
  }

  // ----- The device-info reply -----

  /** The text a zero-filled buffer holds as a C string: everything before
      the first zero byte. */
  function UpToNul(s: seq<byte>): (t: seq<byte>)
    ensures t <= s
    ensures forall i | 0 <= i < |t| :: t[i] != 0
    ensures |t| < |s| ==> s[|t|] == 0
    decreases |s|
  {
    if |s| == 0 || s[0] == 0 then [] else [s[0]] + UpToNul(s[1..])
  }

  /** The decimal digits `%d` prints for a non-negative number. */
  function Decimal(n: nat): (s: seq<byte>)
    ensures |s| >= 1
    decreases n
  {
    if n < 10 then [(48 + n) as byte] else Decimal(n / 10) + [(48 + n % 10) as byte]
  }

  function Pow10(k: nat): nat
  {
    if k == 0 then 1 else 10 * Pow10(k - 1)
  }

  /** A number below 10^k takes at most k digits. */
  lemma {:induction false} DecimalWidth(n: nat, k: nat)
    requires 1 <= k && n < Pow10(k)
    ensures |Decimal(n)| <= k
    decreases k
  {
    if n >= 10 {
      DecimalWidth(n / 10, k - 1);
    }
  }

  /** The text `"FW %d.%d %s"` formats, without its terminating zero. */
  function BuildText(major: nat, minor: nat, text: seq<byte>): seq<byte>
  {
    [70, 87, 32] + Decimal(major) + [46] + Decimal(minor) + [32] + text
  }

  /** The characters left for the text in `fwBuild` after the version
      prefix and before the terminating zero. */
  function BuildRoom(major: nat, minor: nat): (n: nat)
    requires major < 0x1_0000 && minor < 0x1_0000
    ensures |BuildText(major, minor, [])| + n == MAX_FWVER_STRLEN - 1
  {
    DecimalWidth(major, 5);
    DecimalWidth(minor, 5);
    MAX_FWVER_STRLEN - 1 - |BuildText(major, minor, [])|
  }

  /** The build text as `fwBuild` can hold it: cut to the room left after
      the version prefix. */
  function ClipBuild(major: nat, minor: nat, text: seq<byte>): (t: seq<byte>)
    requires major < 0x1_0000 && minor < 0x1_0000
    ensures t <= text
    ensures |BuildText(major, minor, t)| < MAX_FWVER_STRLEN
    ensures |BuildText(major, minor, text)| < MAX_FWVER_STRLEN ==> t == text
  {
    var room := BuildRoom(major, minor);
    if |text| <= room then text else text[..room]
  }

  /** What the build text stored in a device formats to, when it has one. */
  function StoredText(b: FwBuild): seq<byte>
    requires b.Build?
  {
    BuildText(b.major, b.minor, b.suffix)
  }

  /** The clipped text is the formatted text cut to `MAX_FWVER_STRLEN - 1`
      characters, as `snprintf` with the field's size leaves it. */
  lemma ClippedBuildIsTruncation(major: nat, minor: nat, text: seq<byte>)
    requires major < 0x1_0000 && minor < 0x1_0000
    ensures var full := BuildText(major, minor, text);
            BuildText(major, minor, ClipBuild(major, minor, text))
              == if |full| < MAX_FWVER_STRLEN then full else full[..MAX_FWVER_STRLEN - 1]
  {
    var pre := BuildText(major, minor, []);
    var room := BuildRoom(major, minor);
    assert BuildText(major, minor, text) == pre + text;
    if |text| > room {
      assert BuildText(major, minor, text[..room]) == pre + text[..room];
      assert (pre + text)[..MAX_FWVER_STRLEN - 1] == pre + text[..room];
    }
  }

  /** The device fields of a successful reply of at least twelve bytes:
      the port counts (bytes 0..2), the maximum transfer size (bytes 4..7),
      the firmware version (bytes 8..11) and a build text from the
      version's two halves and `suffix`. */
  function WithFields(d: Device, b: seq<byte>, suffix: seq<byte>): (d': Device)
    requires |b| >= 12
    ensures d'.info == d.info && d'.transId == d.transId
    ensures d'.i2cPorts == d.i2cPorts && d'.spiPorts == d.spiPorts
  {
    var v := FromLe32(b[8..12]);
    d.(maxI2CPorts := b[0] as nat, maxSPIPorts := b[1] as nat, maxGPIOPorts := b[2] as nat,
       maxDataSize := FromLe32(b[4..8]) as nat, fwVersion := v,
       fwBuild := Build(Major(v), Minor(v), suffix))
  }

  /** What `LPCUSBSIO_Open` as written takes from the device-info exchange:
      on failure only the "FW Ver Unavailable" text; on success with at
      least twelve bytes every field, with the whole C string after byte 12
      formatted into `fwBuild` by an unbounded `sprintf`; a shorter
      successful reply changes nothing. */
  function ParseDevInfoAsWritten(d: Device, x: Exchange): (d': Device)
    ensures d'.info == d.info && d'.transId == d.transId
    ensures d'.i2cPorts == d.i2cPorts && d'.spiPorts == d.spiPorts
    ensures x.status != OK ==> d' == d.(fwBuild := Unavailable)
    ensures x.status == OK && |x.received| >= 12 ==> d'.fwBuild.Build? && d'.fwBuild.suffix == UpToNul(x.received[12..])
  {
    if x.status != OK then d.(fwBuild := Unavailable)
    else if |x.received| < 12 then d
    else WithFields(d, x.received, UpToNul(x.received[12..]))
  }

  /** What `LPCUSBSIO_Open` as intended takes from the device-info
      exchange: the same fields, with the build text cut so that the
      formatted text and its terminating zero fit the `MAX_FWVER_STRLEN`
      bytes of `fwBuild`. */
  function ParseDevInfo(d: Device, x: Exchange): (d': Device)
    ensures d'.info == d.info && d'.transId == d.transId
    ensures d'.i2cPorts == d.i2cPorts && d'.spiPorts == d.spiPorts
    ensures x.status != OK ==> d' == d.(fwBuild := Unavailable)
    ensures x.status == OK && |x.received| >= 12 ==>
              d'.fwBuild.Build? && |StoredText(d'.fwBuild)| < MAX_FWVER_STRLEN
              && d'.fwBuild.suffix <= UpToNul(x.received[12..])
  {
    if x.status != OK then d.(fwBuild := Unavailable)
    else if |x.received| < 12 then d
    else
      var v := FromLe32(x.received[8..12]);
      WithFields(d, x.received, ClipBuild(Major(v), Minor(v), UpToNul(x.received[12..])))
  }

  /** As written, a 53-character build text from firmware 0.0 formats to 60
      characters, which with the terminating zero is one byte more than
      `fwBuild` holds; the intended parse keeps the first 59. */
  lemma BuildTextOverflows(d: Device, text: seq<byte>)
    requires |text| == 53 && forall i | 0 <= i < |text| :: text[i] != 0
    ensures var x := Exchange(OK, [], DevInfoBytes(0, 0, 0, 0, 0, text), 1);
            var b := ParseDevInfoAsWritten(d, x).fwBuild;
            && b.Build? && |StoredText(b)| == MAX_FWVER_STRLEN
            && StoredText(ParseDevInfo(d, x).fwBuild) == StoredText(b)[..MAX_FWVER_STRLEN - 1]
  {
    var x := Exchange(OK, [], DevInfoBytes(0, 0, 0, 0, 0, text), 1);
    ParseAsWrittenKeepsWholeText(d, x, 0, 0, 0, 0, 0, text);
    ParseDevInfoRecovers(d, x, 0, 0, 0, 0, 0, text);
    assert Decimal(0) == [48];
    ClippedBuildIsTruncation(0, 0, text);
  }

  /** The intended parse is the parse as written whenever the formatted
      build text fits `fwBuild`. */
  lemma ParseAgreesWhenBuildFits(d: Device, x: Exchange)
    requires x.status == OK && |x.received| >= 12 ==>
               var v := FromLe32(x.received[8..12]);
               |BuildText(Major(v), Minor(v), UpToNul(x.received[12..]))| < MAX_FWVER_STRLEN
    ensures ParseDevInfo(d, x) == ParseDevInfoAsWritten(d, x)
  {
  }

  /** The reply a device with the given counts, sizes and build text sends. */
  function DevInfoBytes(i2c: byte, spi: byte, gpio: byte, maxData: bv32, fwVersion: bv32, text: seq<byte>): (b: seq<byte>)
    ensures |b| == 12 + |text|
  {
    [i2c, spi, gpio, 0] + Le32(maxData) + Le32(fwVersion) + text
  }

  /** Parsing a successful reply recovers every field the device sent, and
      the whole build text whenever it fits `fwBuild`. */
  lemma ParseDevInfoRecovers(d: Device, x: Exchange, i2c: byte, spi: byte, gpio: byte, maxData: bv32, fwVersion: bv32, text: seq<byte>)
    requires x.status == OK && x.received == DevInfoBytes(i2c, spi, gpio, maxData, fwVersion, text)
    requires forall i | 0 <= i < |text| :: text[i] != 0
    ensures var d' := ParseDevInfo(d, x);
            && d'.maxI2CPorts == i2c as nat && d'.maxSPIPorts == spi as nat && d'.maxGPIOPorts == gpio as nat
            && d'.maxDataSize == maxData as nat && d'.fwVersion == fwVersion
            && d'.fwBuild == Build(Major(fwVersion), Minor(fwVersion), ClipBuild(Major(fwVersion), Minor(fwVersion), text))
            && (|BuildText(Major(fwVersion), Minor(fwVersion), text)| < MAX_FWVER_STRLEN ==> d'.fwBuild.suffix == text)
  {
    DevInfoFields(i2c, spi, gpio, maxData, fwVersion, text);
    Le32RoundTrip(maxData);
    Le32RoundTrip(fwVersion);
    UpToNulWhole(text);
  }

  /** As written, the whole build text of a successful reply is kept,
      whatever its length. */
  lemma ParseAsWrittenKeepsWholeText(d: Device, x: Exchange, i2c: byte, spi: byte, gpio: byte, maxData: bv32, fwVersion: bv32, text: seq<byte>)
    requires x.status == OK && x.received == DevInfoBytes(i2c, spi, gpio, maxData, fwVersion, text)
    requires forall i | 0 <= i < |text| :: text[i] != 0
    ensures ParseDevInfoAsWritten(d, x).fwBuild == Build(Major(fwVersion), Minor(fwVersion), text)
  {
    DevInfoFields(i2c, spi, gpio, maxData, fwVersion, text);
    Le32RoundTrip(fwVersion);
    UpToNulWhole(text);
  }

  /** Where each field sits in the reply. */
  lemma DevInfoFields(i2c: byte, spi: byte, gpio: byte, maxData: bv32, fwVersion: bv32, text: seq<byte>)
    ensures var b := DevInfoBytes(i2c, spi, gpio, maxData, fwVersion, text);
            && b[0] == i2c && b[1] == spi && b[2] == gpio
            && b[4..8] == Le32(maxData) && b[8..12] == Le32(fwVersion) && b[12..] == text
  {
    var b := DevInfoBytes(i2c, spi, gpio, maxData, fwVersion, text);
    assert b == ([i2c, spi, gpio, 0] + Le32(maxData)) + (Le32(fwVersion) + text);
  }

  /** Text without a zero byte is read whole. */
  lemma {:induction false} UpToNulWhole(s: seq<byte>)
    requires forall i | 0 <= i < |s| :: s[i] != 0
    ensures UpToNul(s) == s
    decreases |s|
  {
    if |s| > 0 {
      UpToNulWhole(s[1..]);
    }
  }

  // ----- Opening -----

  /** The device-info exchange of a fresh device: transaction id 0,
      session 0, no payload, the reply buffer of `DEV_INFO_LEN` bytes. */
  function DevInfoExchange(g: Geometry, env: Env): (x: Exchange)
    requires ValidGeometry(g)
    ensures x.status <= OK && |x.received| <= DEV_INFO_LEN
  {
    SendRequest(g, 0, 0, DevInfo, OutNull(0), ReplyInto(DEV_INFO_LEN), env)
  }

  /** The registry with device `d` added at the head of the list under the
      next unused id. */
  function Insert(ctx: Ctx, d: Device): (r: Ctx)
    requires Inv(ctx) && DeviceOk(ctx.nextDev, d)
    ensures Inv(r)
    ensures ctx.nextDev !in ctx.devList && ctx.nextDev !in ctx.devices
    ensures r == ctx.(devList := [ctx.nextDev] + ctx.devList, devices := ctx.devices[ctx.nextDev := d], nextDev := ctx.nextDev + 1)
  {
    var id := ctx.nextDev;
    var r := ctx.(devList := [id] + ctx.devList, devices := ctx.devices[id := d], nextDev := id + 1);
    assert id !in ctx.devices;
    forall i, j | 0 <= i < j < |r.devList|
      ensures r.devList[i] != r.devList[j]
    {
      if i == 0 {
        assert r.devList[j] == ctx.devList[j - 1];
        assert r.devList[j] in ctx.devList;
      } else {
        assert r.devList[i] == ctx.devList[i - 1] && r.devList[j] == ctx.devList[j - 1];
      }
    }
    r
  }

  /** What opening a device leaves: the state, the device handle (none on
      failure) and what was recorded as the last error (none: untouched). */
  datatype DevOpen = DevOpen(ctx: Ctx, handle: Option<DevId>, lastError: Option<int>)

  /** The state after a device is registered and its device-info exchange
      `x` has run. */
  function Registered(ctx: Ctx, info: HidInfo, x: Exchange): (r: DevOpen)
    requires Inv(ctx)
    ensures Inv(r.ctx) && r.handle == Some(ctx.nextDev) && r.lastError == Some(x.status)
    ensures r.ctx == Insert(ctx, ParseDevInfo(FreshDevice(info).(transId := x.nextTransId), x))
  {
    var d := ParseDevInfo(FreshDevice(info).(transId := x.nextTransId), x);
    DevOpen(Insert(ctx, d), Some(ctx.nextDev), Some(x.status))
  }

  /** `LPCUSBSIO_Open` as written: the entry at `index` of the retained
      list is opened (`hidOpenOk` is the outcome of `hid_open_path`), a
      device is put at the head of the list, and only then is its mutex
      created (`mutexOk`); if that fails, NULL is returned with
      MUTEX_CREATE, but the device stays in the list. Otherwise the
      device-info exchange fills in the device. */
  function OpenAsWritten(g: Geometry, ctx: Ctx, index: nat, hidOpenOk: bool, mutexOk: bool, env: Env): (r: DevOpen)
    requires ValidGeometry(g) && Inv(ctx)
    ensures Inv(r.ctx)
    ensures r.handle.Some? <==> index < |ctx.devInfoList| && hidOpenOk && mutexOk
    ensures !(index < |ctx.devInfoList| && hidOpenOk) ==> r == DevOpen(ctx, None, None)
    ensures index < |ctx.devInfoList| && hidOpenOk ==>
              r.ctx.devList == [ctx.nextDev] + ctx.devList && r.ctx.devices[ctx.nextDev].info == ctx.devInfoList[index]
  {
    match GetDevAtIndex(ctx.devInfoList, index)
    case None => DevOpen(ctx, None, None)
    case Some(info) =>
      if !hidOpenOk then DevOpen(ctx, None, None)
      else if !mutexOk then DevOpen(Insert(ctx, FreshDevice(info)), None, Some(ERR_MUTEX_CREATE))
      else Registered(ctx, info, DevInfoExchange(g, env))
  }

  /** `LPCUSBSIO_Open` as intended: a mutex failure leaves the registry as
      it was. */
  function Open(g: Geometry, ctx: Ctx, index: nat, hidOpenOk: bool, mutexOk: bool, env: Env): (r: DevOpen)
    requires ValidGeometry(g) && Inv(ctx)
    ensures Inv(r.ctx)
    ensures r.handle.Some? <==> index < |ctx.devInfoList| && hidOpenOk && mutexOk
    ensures r.handle.None? ==> r.ctx == ctx
    ensures index < |ctx.devInfoList| && hidOpenOk && !mutexOk ==> r.lastError == Some(ERR_MUTEX_CREATE)
    ensures r.handle.Some? ==>
              var id := r.handle.value;
              && id !in ctx.devList && ValidHandle(r.ctx, r.handle)
              && r.ctx.devList == [id] + ctx.devList
              && r.ctx.devices[id].info == ctx.devInfoList[index]
              && (forall i | 0 <= i < 8 :: r.ctx.devices[id].i2cPorts[i] == Free && r.ctx.devices[id].spiPorts[i] == Free)
              && (forall x | x in ctx.devices :: x in r.ctx.devices && r.ctx.devices[x] == ctx.devices[x])
  {
    if index < |ctx.devInfoList| && hidOpenOk && !mutexOk then DevOpen(ctx, None, Some(ERR_MUTEX_CREATE))
    else OpenAsWritten(g, ctx, index, hidOpenOk, mutexOk, env)
  }

  /** The as-written open, on a mutex failure, returns no handle yet leaves
      a registered device behind that no caller can reach. */
  lemma MutexFailureLeavesStaleDevice(g: Geometry, ctx: Ctx, index: nat, env: Env)
    requires ValidGeometry(g) && Inv(ctx) && index < |ctx.devInfoList|
    ensures var r := OpenAsWritten(g, ctx, index, true, false, env);
            && r.handle.None? && r.lastError == Some(ERR_MUTEX_CREATE)
            && ValidHandle(r.ctx, Some(ctx.nextDev)) && !ValidHandle(ctx, Some(ctx.nextDev))
            && |r.ctx.devList| == |ctx.devList| + 1
  {
    var r := OpenAsWritten(g, ctx, index, true, false, env);
    assert r.ctx.devList == [ctx.nextDev] + ctx.devList;
  }

  /** Apart from the mutex failure, the intended open is the open as
      written. */
  lemma OpenAgreesUnlessMutexFails(g: Geometry, ctx: Ctx, index: nat, hidOpenOk: bool, env: Env)
    requires ValidGeometry(g) && Inv(ctx)
    ensures Open(g, ctx, index, hidOpenOk, true, env) == OpenAsWritten(g, ctx, index, hidOpenOk, true, env)
    ensures Open(g, ctx, index, hidOpenOk, false, env).ctx == ctx
  {
  }

  /** A failed device-info exchange still yields a device, with build text
      "FW Ver Unavailable"; the exchange used transaction id 0, so the
      device goes on with id 1. */
  lemma FailedDevInfoStillOpens(g: Geometry, ctx: Ctx, index: nat, env: Env)
    requires ValidGeometry(g) && Inv(ctx) && index < |ctx.devInfoList|
    requires env.lockOk && DevInfoExchange(g, env).status != OK
    ensures var r := Open(g, ctx, index, true, true, env);
            && r.handle == Some(ctx.nextDev)
            && r.ctx.devices[ctx.nextDev].fwBuild == Unavailable
            && r.ctx.devices[ctx.nextDev].transId == 1
            && r.lastError == Some(DevInfoExchange(g, env).status)
  {
    var x := DevInfoExchange(g, env);
    assert !BadArgs(OutNull(0), ReplyInto(DEV_INFO_LEN));
  }

  /** A device that answers the device-info request with the reply for its
      counts, sizes and build text is opened with exactly those values, the
      build text cut to what `fwBuild` holds. */
  lemma OpenReadsDevInfo(g: Geometry, ctx: Ctx, index: nat, env: Env,
                         i2c: byte, spi: byte, gpio: byte, maxData: bv32, fwVersion: bv32, text: seq<byte>)
    requires ValidGeometry(g) && g.packetSz >= g.dataSz && Inv(ctx) && index < |ctx.devInfoList|
    requires env.lockOk && env.unlockOk && WriteAt(env.writes, 0) > 0
    requires |text| <= MAX_FWVER_STRLEN && forall i | 0 <= i < |text| :: text[i] != 0
    requires env.replies == Reply(g, 0, DevInfoBytes(i2c, spi, gpio, maxData, fwVersion, text))
    ensures var r := Open(g, ctx, index, true, true, env);
            var d := r.ctx.devices[ctx.nextDev];
            && r.handle == Some(ctx.nextDev) && r.lastError == Some(OK)
            && d.maxI2CPorts == i2c as nat && d.maxSPIPorts == spi as nat && d.maxGPIOPorts == gpio as nat
            && d.maxDataSize == maxData as nat && d.fwVersion == fwVersion
            && d.fwBuild == Build(Major(fwVersion), Minor(fwVersion), ClipBuild(Major(fwVersion), Minor(fwVersion), text))
            && (|BuildText(Major(fwVersion), Minor(fwVersion), text)| < MAX_FWVER_STRLEN ==> d.fwBuild.suffix == text)
  {
    var bytes := DevInfoBytes(i2c, spi, gpio, maxData, fwVersion, text);
    FragmentCountIsCeiling(g, 0);
    RequestReceivesReply(g, 0, 0, DevInfo, OutNull(0), DEV_INFO_LEN, env, bytes);
    var x := DevInfoExchange(g, env);
    ParseDevInfoRecovers(FreshDevice(ctx.devInfoList[index]).(transId := x.nextTransId), x, i2c, spi, gpio, maxData, fwVersion, text);
  }

  // ----- Closing -----

  /** The bound slots among the first `n` of `slots`, from slot `i` on, as
      port handles of device `id`. */
  function BoundFrom(id: DevId, kind: PortKind, slots: seq<PortSlot>, i: nat, n: nat): (ps: seq<PortRef>)
    requires n <= |slots|
    ensures forall p :: p in ps <==> p.dev == id && p.kind == kind && i <= p.index < n && slots[p.index].Bound?
    decreases n - i
  {
    if i >= n then []
    else (if slots[i].Bound? then [PortRef(id, kind, i)] else []) + BoundFrom(id, kind, slots, i + 1, n)
  }

  /** The ports `LPCUSBSIO_Close` closes, in its order: the bound I2C slots
      below the reported I2C count, then the bound SPI slots below the SPI
      count. */
  function OpenPortsOf(id: DevId, d: Device): (ps: seq<PortRef>)
    requires DeviceOk(id, d)
    ensures forall p :: p in ps <==>
              p.dev == id && p.index < PortLimit(d, p.kind) && Slots(d, p.kind)[p.index].Bound?
  {
    BoundFrom(id, I2C, d.i2cPorts, 0, PortLimit(d, I2C)) + BoundFrom(id, SPI, d.spiPorts, 0, PortLimit(d, SPI))
  }

  /** The environment of the `k`-th port close; a script that has run out
      stands for a transport whose writes fail. */
  function EnvAt(envs: seq<Env>, k: nat): Env
  {
    if k < |envs| then envs[k] else Env(true, true, [], [])
  }

  /** Closes each port of `ps` in turn, ignoring the results as the source
      does; only device `id` changes. */
  function CloseEach(g: Geometry, ctx: Ctx, id: DevId, ps: seq<PortRef>, envs: seq<Env>, k: nat): (r: (Ctx, seq<int>))
    requires ValidGeometry(g) && Inv(ctx) && id in ctx.devices
    requires forall p | p in ps :: p.dev == id
    ensures Inv(r.0) && |r.1| == |ps|
    ensures r.0 == ctx.(devices := r.0.devices) && r.0.devices.Keys == ctx.devices.Keys
    ensures forall x | x in ctx.devices && x != id :: r.0.devices[x] == ctx.devices[x]
    decreases |ps|
  {
    if |ps| == 0 then (ctx, [])
    else
      var c := PortClose(g, ctx, ps[0], ps[0].kind, EnvAt(envs, k));
      CloseFrame(g, ctx, ps[0], ps[0].kind, EnvAt(envs, k));
      var rest := CloseEach(g, c.0, id, ps[1..], envs, k + 1);
      (rest.0, [c.1] + rest.1)
  }

  /** What closing a device leaves: the state, the result, the ports it
      tried to close and what each attempt returned. */
  datatype DevClose = DevClose(ctx: Ctx, status: int, attempted: seq<PortRef>, results: seq<int>)

  /** `LPCUSBSIO_Close`: BAD_HANDLE for an unregistered handle; otherwise
      every open port is closed (the `k`-th close runs in `envs[k]`), the
      device is removed, and the result is OK whatever the port closes
      returned. */
  function Close(g: Geometry, ctx: Ctx, h: Option<DevId>, envs: seq<Env>): (r: DevClose)
    requires ValidGeometry(g) && Inv(ctx)
    ensures Inv(r.ctx)
    ensures !ValidHandle(ctx, h) ==> r == DevClose(ctx, ERR_BAD_HANDLE, [], [])
    ensures ValidHandle(ctx, h) ==>
              && r.status == OK
              && r.attempted == OpenPortsOf(h.value, ctx.devices[h.value])
              && |r.results| == |r.attempted|
              && (forall x :: x in r.ctx.devList <==> x in ctx.devList && x != h.value)
              && (forall x | x in r.ctx.devices :: x in ctx.devices && r.ctx.devices[x] == ctx.devices[x])
              && (r.ctx.devList == [] ==> r.ctx.devInfoList == [])
              && r.ctx.enums == ctx.enums
  {
    if !ValidHandle(ctx, h) then DevClose(ctx, ERR_BAD_HANDLE, [], [])
    else
      var id := h.value;
      var ps := OpenPortsOf(id, ctx.devices[id]);
      var c := CloseEach(g, ctx, id, ps, envs, 0);
      DevClose(FreeDevice(c.0, id), OK, ps, c.1)
  }

  /** Removing an absent element changes nothing. */
  lemma {:induction false} RemoveAbsent(s: seq<nat>, x: nat)
    requires x !in s
    ensures Remove(s, x) == s
    decreases |s|
  {
    if |s| > 0 {
      RemoveAbsent(s[1..], x);
    }
  }

  /** A device whose slots are all free has no port to close. */
  lemma NoOpenPorts(id: DevId, d: Device)
    requires DeviceOk(id, d)
    requires forall i | 0 <= i < 8 :: d.i2cPorts[i] == Free && d.spiPorts[i] == Free
    ensures OpenPortsOf(id, d) == []
  {
    BoundFromNone(id, I2C, d.i2cPorts, 0, PortLimit(d, I2C));
    BoundFromNone(id, SPI, d.spiPorts, 0, PortLimit(d, SPI));
  }

  /** No bound slot in the range, no port. */
  lemma {:induction false} BoundFromNone(id: DevId, kind: PortKind, slots: seq<PortSlot>, i: nat, n: nat)
    requires n <= |slots|
    requires forall j | i <= j < n :: slots[j] == Free
    ensures BoundFrom(id, kind, slots, i, n) == []
    decreases n - i
  {
    if i < n {
      BoundFromNone(id, kind, slots, i + 1, n);
    }
  }

  /** Closing a device with no open port only removes it. */
  lemma CloseIdle(g: Geometry, ctx: Ctx, id: DevId, envs: seq<Env>)
    requires ValidGeometry(g) && Inv(ctx) && id in ctx.devList
    requires OpenPortsOf(id, ctx.devices[id]) == []
    ensures Close(g, ctx, Some(id), envs).ctx == FreeDevice(ctx, id)
  {
  }

  /** Removing a device just inserted gives back the list and the map. */
  lemma FreeInserted(ctx: Ctx, d: Device)
    requires Inv(ctx) && DeviceOk(ctx.nextDev, d)
    ensures var c := FreeDevice(Insert(ctx, d), ctx.nextDev);
            c.devList == ctx.devList && c.devices == ctx.devices
  {
    var ins := Insert(ctx, d);
    FreeDeviceDrops(ins, ctx.nextDev);
    UndoInsert(ctx.devList, ctx.devices, ctx.nextDev, d);
  }

  /** Dropping an id just put at the head of a list and into a map that
      lacked it gives both back. */
  lemma UndoInsert(devList: seq<DevId>, devices: map<DevId, Device>, id: DevId, d: Device)
    requires id !in devList && id !in devices
    ensures Remove([id] + devList, id) == devList
    ensures devices[id := d] - {id} == devices
  {
    assert ([id] + devList)[1..] == devList;
    RemoveAbsent(devList, id);
  }

  /** Opening a device and closing it again restores the device list and
      the device map. */
  lemma OpenThenCloseForgets(g: Geometry, ctx: Ctx, index: nat, env: Env, envs: seq<Env>)
    requires ValidGeometry(g) && Inv(ctx) && index < |ctx.devInfoList|
    ensures var r := Open(g, ctx, index, true, true, env);
            var c := Close(g, r.ctx, r.handle, envs).ctx;
            c.devList == ctx.devList && c.devices == ctx.devices
  {
    var r := Open(g, ctx, index, true, true, env);
    var id := ctx.nextDev;
    var x := DevInfoExchange(g, env);
    var d := ParseDevInfo(FreshDevice(ctx.devInfoList[index]).(transId := x.nextTransId), x);
    assert r.ctx == Insert(ctx, d);
    NoOpenPorts(id, d);
    CloseIdle(g, r.ctx, id, envs);
    FreeInserted(ctx, d);
  }
}
