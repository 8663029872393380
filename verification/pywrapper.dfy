/** The pure pieces of the Python binding besides its option words: the
    SPI slave-select byte and transfer buffer, the vendor/product probe of
    `GetNumPorts`, the bookkeeping of open ports, and its copy of the error
    codes. */
module PyWrapper {
  import opened Base
  import opened Errors

  // ----- SPI slave select -----

  /** `LPCUSBSIO_GEN_SPI_DEVICE_NUM(port, pin)` and the byte `SPI.Transfer`
      computes: the GPIO port in bits 7..5, the pin in bits 4..0. */
  function SpiDevice(port: int, pin: int): (d: int)
    ensures 0 <= d < 256
  {
    (port % 8) * 32 + pin % 32
  }

  /** A port below 8 and a pin below 32 read back from the device byte. */
  lemma SpiDeviceRoundTrip(port: int, pin: int)
    requires 0 <= port < 8 && 0 <= pin < 32
    ensures SpiDevice(port, pin) / 32 == port
    ensures SpiDevice(port, pin) % 32 == pin
  {
  }

  /** Out-of-range selectors keep only their low bits: port 8 selects port 0. */
  lemma SpiDeviceDropsHighBits(port: int, pin: int)
    ensures SpiDevice(port, pin) == SpiDevice(port % 8, pin % 32)
    ensures SpiDevice(port + 8, pin) == SpiDevice(port, pin)
  {
  }

  /** The transfer `SPI.Transfer` hands to the C call: the size (inferred
      from the data when 0) and the transmit buffer (zeros when no data is
      given), or `None` where ctypes refuses more initialisers than the
      buffer holds; a shorter buffer is zero-filled. */
  function SpiTransferArgs(txData: seq<byte>, size: nat): (r: Option<(nat, seq<byte>)>)
    ensures r.Some? ==> |r.value.1| == r.value.0 && |txData| <= r.value.0
    ensures r.None? <==> size != 0 && |txData| > size
    ensures size == 0 && r.Some? ==> r.value.0 == |txData| && r.value.1 == txData
    ensures txData == [] ==> r == Some((size, Zeros(size)))
    ensures r.Some? ==> r.value.1[..|txData|] == txData
  {
    if size == 0 && txData != [] then Some((|txData|, txData))
    else if txData == [] then Some((size, Zeros(size)))
    else if |txData| > size then None
    else
      assert (txData + Zeros(size - |txData|))[..|txData|] == txData;
      Some((size, txData + Zeros(size - |txData|)))
  }

  // ----- `GetNumPorts` probe -----

  /** The pairs probed: the caller's list, or every NXP device (vendor
      0x1FC9, any product) when none is given. */
  function ProbeList(vidpids: seq<(int, int)>): (ps: seq<(int, int)>)
    ensures ps != []
    ensures vidpids != [] ==> ps == vidpids
  {
    if vidpids == [] then [(0x1FC9, 0)] else vidpids
  }

  /** What probing leaves: the count returned, the pair recorded (if any)
      and how many pairs were probed. */
  datatype ProbeResult = ProbeResult(count: int, found: Option<(int, int)>, probed: nat)

  /** Probes `pairs` in order; `answers[i]` is what probing `pairs[i]`
      returns. The first non-zero answer is returned and its pair recorded;
      later pairs are not probed. */
  function Probe(pairs: seq<(int, int)>, answers: seq<int>): (r: ProbeResult)
    requires |answers| == |pairs|
    ensures r.probed <= |pairs|
    ensures r.found.Some? ==>
              && 0 < r.probed && r.found.value == pairs[r.probed - 1]
              && r.count == answers[r.probed - 1] != 0
              && forall j | 0 <= j < r.probed - 1 :: answers[j] == 0
    ensures r.found.None? ==>
              r.count == 0 && r.probed == |pairs| && forall j | 0 <= j < |pairs| :: answers[j] == 0
    decreases |pairs|
  {
    if pairs == [] then ProbeResult(0, None, 0)
    else if answers[0] != 0 then ProbeResult(answers[0], Some(pairs[0]), 1)
    else
      var rest := Probe(pairs[1..], answers[1..]);
      rest.(probed := rest.probed + 1)
  }

  /** `LIBUSBSIO.GetNumPorts`: probes the caller's pairs or the default. */
  function GetNumPorts(vidpids: seq<(int, int)>, answers: seq<int>): (r: ProbeResult)
    requires |answers| == |ProbeList(vidpids)|
    ensures r.found.Some? ==> r.found.value in ProbeList(vidpids) && r.count != 0
    ensures r.found.None? ==> r.count == 0
  {
    Probe(ProbeList(vidpids), answers)
  }

  /** The first pair that answers is the one recorded, whatever follows. */
  lemma {:induction false} ProbeStopsAtFirstHit(pairs: seq<(int, int)>, answers: seq<int>, k: nat)
    requires |answers| == |pairs| && k < |pairs|
    requires answers[k] != 0 && forall j | 0 <= j < k :: answers[j] == 0
    ensures Probe(pairs, answers) == ProbeResult(answers[k], Some(pairs[k]), k + 1)
    decreases k
  {
    if k > 0 {
      ProbeStopsAtFirstHit(pairs[1..], answers[1..], k - 1);
    }
  }

  // ----- Open-port bookkeeping -----

  /** Python's `list.remove`: drops the first occurrence, or raises
      (`None`) when the value is absent. */
  function ListRemove(xs: seq<int>, x: int): (r: Option<seq<int>>)
    ensures r.None? <==> x !in xs
    ensures r.Some? ==> |r.value| == |xs| - 1 && multiset(r.value) == multiset(xs) - multiset{x}
    decreases |xs|
  {
    if xs == [] then None
    else if xs[0] == x then
      assert xs == [xs[0]] + xs[1..];
      Some(xs[1..])
    else match ListRemove(xs[1..], x)
      case None => None
      case Some(rest) =>
        assert xs == [xs[0]] + xs[1..];
        Some([xs[0]] + rest)
  }

  /** The `_ports_open` update after `Close` as written: the handle is
      dropped when the close call returns non-zero, that is when it fails. */
  function ClosedBookkeepingAsWritten(portsOpen: seq<int>, h: int, ret: int): (r: Option<seq<int>>)
    ensures ret == OK ==> r == Some(portsOpen)
    ensures ret != OK ==> r == ListRemove(portsOpen, h)
  {
    if ret != 0 then ListRemove(portsOpen, h) else Some(portsOpen)
  }

  /** The update `IsAnyPortOpen` needs: the handle is dropped when the close
      call succeeds and kept when it fails. */
  function ClosedBookkeeping(portsOpen: seq<int>, h: int, ret: int): (r: Option<seq<int>>)
    ensures ret != OK ==> r == Some(portsOpen)
    ensures ret == OK ==> r == ListRemove(portsOpen, h)
  {
    if ret == OK then ListRemove(portsOpen, h) else Some(portsOpen)
  }

  /** Removing a value that was appended to a list that lacked it gives
      the list back. */
  lemma {:induction false} ListRemoveAppended(xs: seq<int>, h: int)
    requires h !in xs
    ensures ListRemove(xs + [h], h) == Some(xs)
    decreases |xs|
  {
    if xs != [] {
      assert (xs + [h])[1..] == xs[1..] + [h];
      ListRemoveAppended(xs[1..], h);
      assert xs == [xs[0]] + xs[1..];
    }
  }

  /** As written, a port opened (appended) and then closed successfully
      stays listed, so `IsAnyPortOpen` keeps answering true; a failed close
      drops it although the port stays open. */
  lemma ClosedPortStaysListed(portsOpen: seq<int>, h: int, ret: int)
    requires h !in portsOpen
    ensures ret == OK ==> ClosedBookkeepingAsWritten(portsOpen + [h], h, ret) == Some(portsOpen + [h])
    ensures ret != OK ==> ClosedBookkeepingAsWritten(portsOpen + [h], h, ret) == Some(portsOpen)
  {
    if ret != OK {
      ListRemoveAppended(portsOpen, h);
    }
  }

  /** With the corrected update, a port opened and closed successfully
      leaves the list as it was, and a failed close keeps it listed. */
  lemma OpenThenCloseForgetsPort(portsOpen: seq<int>, h: int, ret: int)
    requires h !in portsOpen
    ensures ret == OK ==> ClosedBookkeeping(portsOpen + [h], h, ret) == Some(portsOpen)
    ensures ret != OK ==> ClosedBookkeeping(portsOpen + [h], h, ret) == Some(portsOpen + [h])
  {
    if ret == OK {
      ListRemoveAppended(portsOpen, h);
    }
  }

  // ----- The binding's copy of the error codes -----

  /** The values the Python class gives the error names. */
  function PyErrorCode(e: ErrName): int
  {
    match e
    case HidLib => -1
    case BadHandle => -2
    case Synchronization => -3
    case MemAlloc => -4
    case MutexCreate => -5
    case Fatal => -0x11
    case I2CNak => -0x12
    case I2CBus => -0x13
    case I2CSlaveNak => -0x14
    case I2CArbLost => -0x15
    case Timeout => -0x20
    case InvalidCmd => -0x21
    case InvalidParam => -0x22
    case PartialData => -0x23
  }

  /** The Python codes are the C header's. */
  lemma PyErrorCodesMatchHeader(e: ErrName)
    ensures PyErrorCode(e) == Code(e)
  {
  }
}
