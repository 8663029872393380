/** The bit level of the GPIO calls: the pin masks, the (set, clear) mask
    pair each port and pin call sends, and the register value the pair is
    meant to produce. */
module GpioMasks {
  /** A pin number within a port: the pins of a port are numbered 0..31,
      so the five bits of a `PinIndex` cover them exactly. */
  type PinIndex = bv5

  /** The word with only bit `pin` set (`1 << pin`). */
  function PinMask(pin: PinIndex): bv32
  {
    (1 as bv32) << pin
  }

  /** Bit `q` of a word. */
  predicate Bit(w: bv32, q: PinIndex)
  {
    (w >> q) & 1 == 1
  }

  /** A pin mask has its own bit and no other. */
  lemma PinMaskBits(pin: PinIndex, q: PinIndex)
    ensures Bit(PinMask(pin), q) <==> q == pin
  {
  }

  /** Testing a word against a pin mask (`w & (1 << q)`) reads bit `q`. */
  lemma MaskTestIsBit(w: bv32, q: PinIndex)
    ensures (w & PinMask(q) != 0) == Bit(w, q)
  {
  }

  /** `GPIO_GetPin`'s reading of a port word: 1 when `w & (1 << pin)` is
      not zero, else 0. */
  function PinLevel(w: bv32, pin: PinIndex): (r: int)
    ensures r == 1 <==> Bit(w, pin)
    ensures r == 0 <==> !Bit(w, pin)
  {
    MaskTestIsBit(w, pin);
    if w & PinMask(pin) != 0 then 1 else 0
  }

  /** The GPIO port and pin calls that send a (set, clear) mask pair. */
  datatype PortOp =
    | ReadPort | WritePort(value: bv32) | SetPort(pins: bv32) | ClearPort(pins: bv32)
    | GetPortDir | SetPortOutDir(dirPins: bv32) | SetPortInDir(dirPins: bv32)
    | SetPin(pin: PinIndex) | ClearPin(pin: PinIndex)

  /** The calls on the direction register rather than the pin values. */
  predicate OnDirection(op: PortOp)
  {
    op.GetPortDir? || op.SetPortOutDir? || op.SetPortInDir?
  }

  /** The (set, clear) masks each call sends. */
  function MaskPair(op: PortOp): (m: (bv32, bv32))
  {
    match op
    case ReadPort => (0, 0)
    case WritePort(v) => (v, !v)
    case SetPort(pins) => (pins, 0)
    case ClearPort(pins) => (0, pins)
    case GetPortDir => (0, 0)
    case SetPortOutDir(pins) => (pins, 0)
    case SetPortInDir(pins) => (0, pins)
    case SetPin(pin) => (PinMask(pin), 0)
    case ClearPin(pin) => (0, PinMask(pin))
  }

  /** What a (set, clear) pair asks of a port register holding `prev`: the
      set pins become 1, the cleared pins 0. */
  function Apply(prev: bv32, setMask: bv32, clrMask: bv32): bv32
  {
    (prev | setMask) & !clrMask
  }

  /** The value each call means pin `q` to have afterwards: a read changes
      nothing, `WritePort` makes every pin follow `value`, the set and clear
      calls change exactly the named pins. */
  predicate IntendedBit(op: PortOp, prev: bv32, q: PinIndex)
  {
    match op
    case ReadPort => Bit(prev, q)
    case GetPortDir => Bit(prev, q)
    case WritePort(v) => Bit(v, q)
    case SetPort(pins) => Bit(pins, q) || Bit(prev, q)
    case SetPortOutDir(pins) => Bit(pins, q) || Bit(prev, q)
    case ClearPort(pins) => !Bit(pins, q) && Bit(prev, q)
    case SetPortInDir(pins) => !Bit(pins, q) && Bit(prev, q)
    case SetPin(pin) => q == pin || Bit(prev, q)
    case ClearPin(pin) => q != pin && Bit(prev, q)
  }

  /** The register each call means to leave, pin by pin. */
  ghost predicate Intended(op: PortOp, prev: bv32, next: bv32)
  {
    forall q: PinIndex :: Bit(next, q) == IntendedBit(op, prev, q)
  }

  lemma OrBit(a: bv32, b: bv32, q: PinIndex)
    ensures Bit(a | b, q) == (Bit(a, q) || Bit(b, q))
  {
  }

  lemma AndNotBit(a: bv32, b: bv32, q: PinIndex)
    ensures Bit(a & !b, q) == (Bit(a, q) && !Bit(b, q))
  {
  }

  /** An empty clear mask only sets; an empty set mask only clears. */
  lemma ApplyOneSided(prev: bv32, m: bv32)
    ensures Apply(prev, m, 0) == prev | m
    ensures Apply(prev, 0, m) == prev & !m
  {
  }

  /** A value and its complement as the mask pair write the value. */
  lemma ApplyComplement(prev: bv32, v: bv32)
    ensures Apply(prev, v, !v) == v
  {
  }

  lemma ReadsMean(op: PortOp, prev: bv32)
    requires op == ReadPort || op == GetPortDir
    ensures Intended(op, prev, Apply(prev, 0, 0))
  {
    assert Apply(prev, 0, 0) == prev;
  }

  lemma WriteMeans(prev: bv32, v: bv32)
    ensures Intended(WritePort(v), prev, Apply(prev, v, !v))
  {
    ApplyComplement(prev, v);
  }

  lemma SetPinsMean(op: PortOp, prev: bv32, pins: bv32)
    requires op == SetPort(pins) || op == SetPortOutDir(pins)
    ensures Intended(op, prev, Apply(prev, pins, 0))
  {
    ApplyOneSided(prev, pins);
    forall q: PinIndex
      ensures Bit(prev | pins, q) == IntendedBit(op, prev, q)
    {
      OrBit(prev, pins, q);
    }
  }

  lemma ClearPinsMean(op: PortOp, prev: bv32, pins: bv32)
    requires op == ClearPort(pins) || op == SetPortInDir(pins)
    ensures Intended(op, prev, Apply(prev, 0, pins))
  {
    ApplyOneSided(prev, pins);
    forall q: PinIndex
      ensures Bit(prev & !pins, q) == IntendedBit(op, prev, q)
    {
      AndNotBit(prev, pins, q);
    }
  }

  /** Or-ing in a pin mask sets that pin and keeps the others. */
  lemma OrPinBit(prev: bv32, pin: PinIndex, q: PinIndex)
    ensures Bit(prev | PinMask(pin), q) == (q == pin || Bit(prev, q))
  {
    OrBit(prev, PinMask(pin), q);
    PinMaskBits(pin, q);
  }

  /** Masking out a pin clears that pin and keeps the others. */
  lemma AndNotPinBit(prev: bv32, pin: PinIndex, q: PinIndex)
    ensures Bit(prev & !PinMask(pin), q) == (q != pin && Bit(prev, q))
  {
    AndNotBit(prev, PinMask(pin), q);
    PinMaskBits(pin, q);
  }

  lemma SetPinMeans(prev: bv32, pin: PinIndex)
    ensures Intended(SetPin(pin), prev, Apply(prev, PinMask(pin), 0))
  {
    ApplyOneSided(prev, PinMask(pin));
    forall q: PinIndex
      ensures Bit(prev | PinMask(pin), q) == IntendedBit(SetPin(pin), prev, q)
    {
      OrPinBit(prev, pin, q);
    }
  }

  lemma ClearPinMeans(prev: bv32, pin: PinIndex)
    ensures Intended(ClearPin(pin), prev, Apply(prev, 0, PinMask(pin)))
  {
    ApplyOneSided(prev, PinMask(pin));
    forall q: PinIndex
      ensures Bit(prev & !PinMask(pin), q) == IntendedBit(ClearPin(pin), prev, q)
    {
      AndNotPinBit(prev, pin, q);
    }
  }

  /** Every call's mask pair has the effect the call means. */
  lemma MasksMeanTheirCall(op: PortOp, prev: bv32)
    ensures var (setMask, clrMask) := MaskPair(op);
            Intended(op, prev, Apply(prev, setMask, clrMask))
  {
    match op
    case ReadPort => ReadsMean(op, prev);
    case GetPortDir => ReadsMean(op, prev);
    case WritePort(v) => WriteMeans(prev, v);
    case SetPort(pins) => SetPinsMean(op, prev, pins);
    case SetPortOutDir(pins) => SetPinsMean(op, prev, pins);
    case ClearPort(pins) => ClearPinsMean(op, prev, pins);
    case SetPortInDir(pins) => ClearPinsMean(op, prev, pins);
    case SetPin(pin) => SetPinMeans(prev, pin);
    case ClearPin(pin) => ClearPinMeans(prev, pin);
  }

  /** Only the reading calls and `WritePort` (whose argument is in-out)
      hand the status word back to the caller; the others pass a local. */
  predicate ReturnsStatus(op: PortOp)
  {
    op.ReadPort? || op.WritePort? || op.GetPortDir?
  }

}
