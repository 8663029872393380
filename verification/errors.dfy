/** The library's error space: the signed codes of `LPCUSBSIO_ERR_T`, the
    translation of a firmware response code into that space, and the
    selection of a message from the three message tables. */
module Errors {

  const OK: int := 0

  // Library band.
  const ERR_HID_LIB: int := -1
  const ERR_BAD_HANDLE: int := -2
  const ERR_SYNCHRONIZATION: int := -3
  const ERR_MEM_ALLOC: int := -4
  const ERR_MUTEX_CREATE: int := -5

  // Firmware (I2C hardware) band.
  const ERR_FATAL: int := -0x11
  const ERR_I2C_NAK: int := -0x12
  const ERR_I2C_BUS: int := -0x13
  const ERR_I2C_SLAVE_NAK: int := -0x14
  const ERR_I2C_ARBLOST: int := -0x15

  // Bridge band.
  const ERR_TIMEOUT: int := -0x20
  const ERR_INVALID_CMD: int := -0x21
  const ERR_INVALID_PARAM: int := -0x22
  const ERR_PARTIAL_DATA: int := -0x23

  /** The named members of `LPCUSBSIO_ERR_T` other than OK. */
  datatype ErrName =
    | HidLib | BadHandle | Synchronization | MemAlloc | MutexCreate
    | Fatal | I2CNak | I2CBus | I2CSlaveNak | I2CArbLost
    | Timeout | InvalidCmd | InvalidParam | PartialData

  datatype Band = Library | Firmware | Bridge

  /** The numeric value the header gives each name. */
  function Code(e: ErrName): int
  {
    match e
    case HidLib => ERR_HID_LIB
    case BadHandle => ERR_BAD_HANDLE
    case Synchronization => ERR_SYNCHRONIZATION
    case MemAlloc => ERR_MEM_ALLOC
    case MutexCreate => ERR_MUTEX_CREATE
    case Fatal => ERR_FATAL
    case I2CNak => ERR_I2C_NAK
    case I2CBus => ERR_I2C_BUS
    case I2CSlaveNak => ERR_I2C_SLAVE_NAK
    case I2CArbLost => ERR_I2C_ARBLOST
    case Timeout => ERR_TIMEOUT
    case InvalidCmd => ERR_INVALID_CMD
    case InvalidParam => ERR_INVALID_PARAM
    case PartialData => ERR_PARTIAL_DATA
  }

  /** The band the header's comments place each name in. */
  function BandOf(e: ErrName): Band
  {
    match e
    case HidLib | BadHandle | Synchronization | MemAlloc | MutexCreate => Library
    case Fatal | I2CNak | I2CBus | I2CSlaveNak | I2CArbLost => Firmware
    case Timeout | InvalidCmd | InvalidParam | PartialData => Bridge
  }

  /** Every error code is negative, and the three bands occupy the disjoint
      ranges [-5,-1], [-0x15,-0x11] and [-0x23,-0x20]. */
  lemma CodesLieInTheirBands(e: ErrName)
    ensures Code(e) < OK
    ensures BandOf(e) == Library ==> -5 <= Code(e) <= -1
    ensures BandOf(e) == Firmware ==> -0x15 <= Code(e) <= -0x11
    ensures BandOf(e) == Bridge ==> -0x23 <= Code(e) <= -0x20
  {
  }

  /** No two names share a code, so a code identifies its error. */
  lemma CodesAreDistinct(e1: ErrName, e2: ErrName)
    ensures e1 != e2 ==> Code(e1) != Code(e2)
  {
  }

  /** Translation of a response code from the bridge: 0 is success, any other
      code r becomes -(r + 0x10). */
  function ConvertResp(resp: bv8): (r: int)
    ensures resp == 0 <==> r == OK
    ensures resp != 0 ==> -0x10F <= r <= -0x11
  {
    if resp == 0 then OK else -(resp as int + 0x10)
  }

  /** The inverse of `ConvertResp` on failures: the response code a
      converted failure came from. */
  function ResponseOf(code: int): int
  {
    -code - 0x10
  }

  /** `ConvertResp` loses nothing: the response code is recoverable, so
      distinct responses give distinct codes. */
  lemma ConvertRespInjective(resp: bv8)
    requires resp != 0
    ensures ResponseOf(ConvertResp(resp)) == resp as int
  {
  }

  /** A converted failure never lands in the library band, so a library
      error always originates on the host. */
  lemma ConvertedFailuresAreNotLibraryErrors(resp: bv8, e: ErrName)
    requires resp != 0 && BandOf(e) == Library
    ensures ConvertResp(resp) != Code(e)
  {
  }

  /** The firmware codes of the header are exactly the translations of
      response codes 1 to 5, in order. */
  lemma FirmwareCodesAreConvertedResponses(e: ErrName)
    ensures BandOf(e) == Firmware <==> exists r: bv8 | 1 <= r <= 5 :: ConvertResp(r) == Code(e)
  {
    if BandOf(e) == Firmware {
      var r: bv8 := (ResponseOf(Code(e))) as bv8;
      assert ConvertResp(r) == Code(e);
    }
  }

  const NUM_LIB_ERR_STRINGS: nat := 6
  const NUM_FW_ERR_STRINGS: nat := 6
  const NUM_BRIDGE_ERR_STRINGS: nat := 4

  /** A message, named by its table and its position there.
      `LibMsg(0)` is "No errors are recorded."; `BridgeMsg(4)` is the
      "Unsupported Error Code" entry after the four bridge messages. */
  datatype Message = LibMsg(index: nat) | FwMsg(index: nat) | BridgeMsg(index: nat)

  function Abs(x: int): nat
  {
    if x < 0 then -x else x
  }

  /** The message `GetErrorString` selects for an error code. The magnitude
      picks the band (below 0x10 library, below 0x20 firmware, below 0x30
      bridge); an index past a table's end falls back to that table's
      catch-all entry, and anything from 0x30 up reads as no error. */
  function ErrorMessage(err: int): (m: Message)
    ensures m.LibMsg? ==> m.index < NUM_LIB_ERR_STRINGS
    ensures m.FwMsg? ==> m.index < NUM_FW_ERR_STRINGS
    ensures m.BridgeMsg? ==> m.index <= NUM_BRIDGE_ERR_STRINGS
    ensures Abs(err) < 0x10 ==> m == LibMsg(if Abs(err) < NUM_LIB_ERR_STRINGS then Abs(err) else 0)
    ensures 0x10 <= Abs(err) < 0x20 ==>
              m == FwMsg(if Abs(err) - 0x10 < NUM_FW_ERR_STRINGS then Abs(err) - 0x10 else 0)
    ensures 0x20 <= Abs(err) < 0x30 ==>
              m == BridgeMsg(if Abs(err) - 0x20 < NUM_BRIDGE_ERR_STRINGS then Abs(err) - 0x20 else NUM_BRIDGE_ERR_STRINGS)
    ensures 0x30 <= Abs(err) ==> m == LibMsg(0)
  {
    var index := Abs(err);
    if index < 0x10 then
      LibMsg(if index < NUM_LIB_ERR_STRINGS then index else 0)
    else if index < 0x20 then
      FwMsg(if index - 0x10 < NUM_FW_ERR_STRINGS then index - 0x10 else 0)
    else if index < 0x30 then
      BridgeMsg(if index - 0x20 < NUM_BRIDGE_ERR_STRINGS then index - 0x20 else NUM_BRIDGE_ERR_STRINGS)
    else
      LibMsg(0)
  }

  /** The table entry whose comment names each error. */
  function OwnMessage(e: ErrName): Message
  {
    match e
    case HidLib => LibMsg(1)
    case BadHandle => LibMsg(2)
    case Synchronization => LibMsg(3)
    case MemAlloc => LibMsg(4)
    case MutexCreate => LibMsg(5)
    case Fatal => FwMsg(1)
    case I2CNak => FwMsg(2)
    case I2CBus => FwMsg(3)
    case I2CSlaveNak => FwMsg(4)
    case I2CArbLost => FwMsg(5)
    case Timeout => BridgeMsg(0)
    case InvalidCmd => BridgeMsg(1)
    case InvalidParam => BridgeMsg(2)
    case PartialData => BridgeMsg(3)
  }

  /** Every named error gets the message written for it, and success gets
      "No errors are recorded." */
  lemma NamedErrorsGetTheirOwnMessage(e: ErrName)
    ensures ErrorMessage(Code(e)) == OwnMessage(e)
    ensures ErrorMessage(OK) == LibMsg(0)
  {
  }

  /** Response codes the firmware does not name fall back to a catch-all:
      6..15 to "Firmware error.", 0x10..0x13 land on the bridge messages,
      0x14..0x1F on "Unsupported Error Code", and anything from 0x20 up
      reads as "No errors are recorded.". */
  lemma UnnamedResponsesFallBack(resp: bv8)
    requires resp >= 6
    ensures resp < 0x10 ==> ErrorMessage(ConvertResp(resp)) == FwMsg(0)
    ensures 0x10 <= resp < 0x14 ==> ErrorMessage(ConvertResp(resp)) == BridgeMsg(resp as int - 0x10)
    ensures 0x14 <= resp < 0x20 ==> ErrorMessage(ConvertResp(resp)) == BridgeMsg(NUM_BRIDGE_ERR_STRINGS)
    ensures 0x20 <= resp ==> ErrorMessage(ConvertResp(resp)) == LibMsg(0)
  {
  }
}
