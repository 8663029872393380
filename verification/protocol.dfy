/** The bridge protocol's vocabulary: report geometry, request codes, the
    outgoing and incoming report formats, and the scripted environment that
    stands in for the HID transport and the per-device mutex. */
module Protocol {
  import opened Base

  /** Report geometry: `HID_SIO_PACKET_SZ`, `HID_SIO_PACKET_HEADER_SZ`,
      `HID_SIO_PACKET_DATA_SZ` and `HID_SIO_CALC_TRANSFER_LEN`. Their values
      come from the firmware's protocol header, which is not part of this
      model, so they are parameters. */
  datatype Geometry = Geometry(packetSz: nat, headerSz: nat, dataSz: nat, calcTransferLen: nat -> nat)

  /** The one property of the geometry the model relies on: a report
      carries at least one payload byte. */
  predicate ValidGeometry(g: Geometry)
  {
    g.dataSz > 0
  }

  /** Request codes (`HID_SIO_REQ_*`, `HID_I2C_REQ_*`, `HID_SPI_REQ_*`,
      `HID_GPIO_REQ_*`); their byte values are in the protocol header. */
  datatype Req =
    | DevInfo
    | I2CInitPort | I2CDeinitPort | I2CDeviceRead | I2CDeviceWrite | I2CDeviceXfer | I2CReset
    | SPIInitPort | SPIDeinitPort | SPIDeviceXfer | SPIReset
    | GpioPortValue | GpioPortDir | GpioTogglePin | GpioIoConfig

  /** Parameter block of `I2C_DeviceRead`/`I2C_DeviceWrite`. */
  datatype RwParams = RwParams(length: nat, options: bv8, slaveAddr: bv8)
  /** Parameter block of `I2C_FastXfer`. */
  datatype XferParams = XferParams(txLength: nat, rxLength: nat, options: nat, slaveAddr: nat)
  /** Parameter block of `SPI_Transfer`. */
  datatype SpiParams = SpiParams(length: nat, options: bv8, device: bv8)

  /** Byte layouts of the three parameter blocks; like the geometry they are
      fixed by the protocol header, so they are parameters. */
  datatype Layout = Layout(rw: RwParams -> seq<byte>, xfer: XferParams -> seq<byte>, spi: SpiParams -> seq<byte>)

  /** One outgoing report: header fields, then `dataSz` payload bytes. */
  datatype OutReport = OutReport(
    transId: uint8, sesId: uint8, req: Req,
    transferLen: nat, packetNum: nat, packetLen: nat,
    data: seq<byte>)

  /** One incoming report. `payload` is the `packet_len - HEADER_SZ` bytes
      the report carries, so `packet_len` is recovered by `InPacketLen`. */
  datatype InReport = InReport(resp: bv8, transId: uint8, packetNum: nat, transferLen: nat, payload: seq<byte>)

  function InPacketLen(g: Geometry, r: InReport): nat
  {
    g.headerSz + |r.payload|
  }

  /** The completion test on a fragment: its position plus its length
      reaches the advertised total. */
  predicate IsFinal(g: Geometry, r: InReport)
  {
    r.packetNum * g.packetSz + InPacketLen(g, r) == r.transferLen
  }

  /** A negative transport result. */
  type Failure = x: int | x < 0 witness -1

  /** What one `hid_read_timeout` call gives: a report (a positive result),
      nothing within the timeout (0), or a failure (negative). */
  datatype ReadResult = Report(report: InReport) | Timeout | ReadFailed(code: Failure)

  /** The environment of one exchange: whether the device mutex can be taken
      and released, the results of successive `hid_write` calls (bytes
      written, or a negative failure) and of successive reads (`replies`). A write
      script that runs out reads as a failing write (-1); a read script that
      runs out reads as a timeout. */
  datatype Env = Env(lockOk: bool, unlockOk: bool, writes: seq<int>, replies: seq<ReadResult>)

  /** The outgoing payload argument: a null pointer with a claimed length,
      or actual bytes. */
  datatype OutArg = OutNull(len: nat) | OutBytes(bytes: seq<byte>)

  /** The response arguments: no `inLen` at all (send-only), an `inLen`
      with a null buffer, or a buffer of the given capacity. */
  datatype InArg = NoReply | ReplyNull | ReplyInto(capacity: nat)

  /** The bytes an outgoing argument stands for (a null pointer with length 0
      is an empty payload). */
  function PayloadOf(out: OutArg): seq<byte>
  {
    if out.OutBytes? then out.bytes else []
  }
}
