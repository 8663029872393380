/** The option words the Python binding builds from keyword arguments:
    `_I2C_NormalXferOptions`, `_I2C_FastXferOptions` and `_SPI_OpenOptions`.
    A Python integer used as an option word is modelled by the set of the
    positions of its 1-bits, so `w |= f` is `w + f`, `w & f` is `w * f` and
    the test `not (w & f)` is `w * f == {}`. The arguments that are not
    option words (`dataSize`, the delays) stay integers. */
module PyOptions {
  /** An option word: the positions of its 1-bits. */
  type Word = set<nat>

  // ----- The binding's option constants -----

  const I2C_TRANSFER_OPTIONS_START_BIT: Word := {0}      // 0x01
  const I2C_TRANSFER_OPTIONS_STOP_BIT: Word := {1}       // 0x02
  const I2C_TRANSFER_OPTIONS_BREAK_ON_NACK: Word := {2}  // 0x04
  const I2C_TRANSFER_OPTIONS_NACK_LAST_BYTE: Word := {3} // 0x08
  const I2C_TRANSFER_OPTIONS_NO_ADDRESS: Word := {6}     // 0x40

  const I2C_FAST_XFER_OPTION_IGNORE_NACK: Word := {0}    // 0x01
  const I2C_FAST_XFER_OPTION_LAST_RX_ACK: Word := {1}    // 0x02

  const SPI_CONFIG_OPTION_DATA_SIZE_8: Word := {0, 1, 2}      // 0x07
  const SPI_CONFIG_OPTION_DATA_SIZE_16: Word := {0, 1, 2, 3}  // 0x0F
  const SPI_CONFIG_OPTION_POL_1: Word := {6}                  // 1 << 6
  const SPI_CONFIG_OPTION_PHA_1: Word := {7}                  // 1 << 7

  /** The bits the normal-transfer flags use. */
  const I2C_TRANSFER_FLAGS: Word :=
    I2C_TRANSFER_OPTIONS_START_BIT + I2C_TRANSFER_OPTIONS_STOP_BIT + I2C_TRANSFER_OPTIONS_BREAK_ON_NACK
    + I2C_TRANSFER_OPTIONS_NACK_LAST_BYTE + I2C_TRANSFER_OPTIONS_NO_ADDRESS

  /** The bits the fast-transfer flags use. */
  const I2C_FAST_XFER_FLAGS: Word := I2C_FAST_XFER_OPTION_IGNORE_NACK + I2C_FAST_XFER_OPTION_LAST_RX_ACK

  /** The fields `_SPI_OpenOptions` tests before filling them: the
      data-size nibble (`0xf`), the pre-delay byte
      (`SPI_CONFIG_OPTION_PRE_DELAY(0xff)`) and the post-delay byte
      (`SPI_CONFIG_OPTION_POST_DELAY(0xff)`). */
  const SPI_DATA_SIZE_FIELD: Word := Span(0, 4)
  const SPI_PRE_DELAY_FIELD: Word := Span(8, 16)
  const SPI_POST_DELAY_FIELD: Word := Span(16, 24)

  /** Bits `lo` up to, not including, `hi`. */
  function Span(lo: nat, hi: nat): (r: Word)
    ensures forall k :: k in r <==> lo <= k < hi
  {
    set k: nat | k < hi && Within(k, lo, hi)
  }

  predicate Within(k: nat, lo: nat, hi: nat)
  {
    lo <= k < hi
  }

  /** Every bit the SPI builder may set. */
  const SPI_OPTION_BITS: Word :=
    SPI_CONFIG_OPTION_POL_1 + SPI_CONFIG_OPTION_PHA_1 + SPI_DATA_SIZE_FIELD + SPI_PRE_DELAY_FIELD + SPI_POST_DELAY_FIELD

  /** The transfer flags are single bits, pairwise distinct. */
  lemma TransferFlagsAreDistinctBits()
    ensures var fs := [I2C_TRANSFER_OPTIONS_START_BIT, I2C_TRANSFER_OPTIONS_STOP_BIT,
                       I2C_TRANSFER_OPTIONS_BREAK_ON_NACK, I2C_TRANSFER_OPTIONS_NACK_LAST_BYTE,
                       I2C_TRANSFER_OPTIONS_NO_ADDRESS];
            && (forall i | 0 <= i < |fs| :: |fs[i]| == 1)
            && (forall i, j | 0 <= i < j < |fs| :: fs[i] * fs[j] == {})
    ensures |I2C_FAST_XFER_OPTION_IGNORE_NACK| == 1 && |I2C_FAST_XFER_OPTION_LAST_RX_ACK| == 1
    ensures I2C_FAST_XFER_OPTION_IGNORE_NACK * I2C_FAST_XFER_OPTION_LAST_RX_ACK == {}
  {
  }

  /** The SPI flags and fields do not overlap. */
  lemma SpiFieldsAreDisjoint()
    ensures var fs := [SPI_CONFIG_OPTION_POL_1, SPI_CONFIG_OPTION_PHA_1, SPI_DATA_SIZE_FIELD,
                       SPI_PRE_DELAY_FIELD, SPI_POST_DELAY_FIELD];
            forall i, j | 0 <= i < j < |fs| :: fs[i] * fs[j] == {}
  {
  }

  // ----- Python integers as bits -----

  function Pow2(k: nat): (p: nat)
    ensures p >= 1
  {
    if k == 0 then 1 else 2 * Pow2(k - 1)
  }

  /** Bit `k` of a Python integer (two's complement for a negative one,
      which is what flooring division gives). */
  predicate BitOf(x: int, k: nat)
  {
    (x / Pow2(k)) % 2 == 1
  }

  /** Bit `k - lo` of `x`, seen at position `k`. */
  predicate BitAt(x: int, lo: nat, k: nat)
  {
    k >= lo && BitOf(x, k - lo)
  }

  /** `(x & (2**width - 1)) << lo`: the low `width` bits of `x`, moved up to
      start at bit `lo`. */
  function Placed(x: int, width: nat, lo: nat): (r: Word)
    ensures forall k :: k in r <==> lo <= k < lo + width && BitAt(x, lo, k)
  {
    set k: nat | lo <= k < lo + width && BitAt(x, lo, k)
  }

  lemma Pow2Small(j: nat)
    requires j < 8
    ensures Pow2(j) == [1, 2, 4, 8, 16, 32, 64, 128][j]
  {
    if j > 0 {
      Pow2Small(j - 1);
    }
  }

  // ----- The two steps every builder is made of -----

  /** `if on: w |= flag`: the flag's bits are set when asked for, and
      every other bit is kept. */
  function SetIf(w: Word, flag: Word, on: bool): (r: Word)
    ensures on ==> flag <= r
    ensures forall k :: k !in flag ==> (k in r <==> k in w)
    ensures forall k :: k in w ==> k in r
    ensures !on ==> r == w
  {
    if on then w + flag else w
  }

  /** `if not (w & field): w |= value`: a value that fits the field
      lands there when the field is empty, and any other bit is kept. */
  function FillIfZero(w: Word, field: Word, value: Word): (r: Word)
    ensures value <= field ==> r * field == if w * field == {} then value else w * field
    ensures value <= field ==> forall k :: k !in field ==> (k in r <==> k in w)
  {
    if w * field == {} then
      FillLands(w, field, value);
      w + value
    else w
  }

  lemma FillLands(w: Word, field: Word, value: Word)
    requires w * field == {}
    ensures value <= field ==> (w + value) * field == value
  {
    if value <= field {
      forall k | k in (w + value) * field
        ensures k in value
      {
        assert k in w * field || k in value;
      }
    }
  }

  // ----- `_I2C_NormalXferOptions` -----

  /** `_I2C_NormalXferOptions`: adds START and STOP when asked for,
      BREAK_ON_NACK unless NAKs are to be ignored, NACK_LAST_BYTE and
      NO_ADDRESS when asked for. A flag already in `options` stays; no other
      bit changes. */
  function NormalXferOptions(options: Word, start: bool, stop: bool, ignoreNAK: bool, nackLastByte: bool, noAddress: bool)
    : (r: Word)
    ensures I2C_TRANSFER_OPTIONS_START_BIT <= r <==> start || I2C_TRANSFER_OPTIONS_START_BIT <= options
    ensures I2C_TRANSFER_OPTIONS_STOP_BIT <= r <==> stop || I2C_TRANSFER_OPTIONS_STOP_BIT <= options
    ensures I2C_TRANSFER_OPTIONS_BREAK_ON_NACK <= r <==> !ignoreNAK || I2C_TRANSFER_OPTIONS_BREAK_ON_NACK <= options
    ensures I2C_TRANSFER_OPTIONS_NACK_LAST_BYTE <= r <==> nackLastByte || I2C_TRANSFER_OPTIONS_NACK_LAST_BYTE <= options
    ensures I2C_TRANSFER_OPTIONS_NO_ADDRESS <= r <==> noAddress || I2C_TRANSFER_OPTIONS_NO_ADDRESS <= options
    ensures forall k :: k !in I2C_TRANSFER_FLAGS ==> (k in r <==> k in options)
  {
    var o1 := SetIf(options, I2C_TRANSFER_OPTIONS_START_BIT, start);
    var o2 := SetIf(o1, I2C_TRANSFER_OPTIONS_STOP_BIT, stop);
    var o3 := SetIf(o2, I2C_TRANSFER_OPTIONS_BREAK_ON_NACK, !ignoreNAK);
    var o4 := SetIf(o3, I2C_TRANSFER_OPTIONS_NACK_LAST_BYTE, nackLastByte);
    SetIf(o4, I2C_TRANSFER_OPTIONS_NO_ADDRESS, noAddress)
  }

  // ----- `_I2C_FastXferOptions` -----

  /** `_I2C_FastXferOptions`: adds IGNORE_NACK when NAKs are to be ignored
      and LAST_RX_ACK unless the last byte is to be NAKed. */
  function FastXferOptions(options: Word, ignoreNAK: bool, nackLastByte: bool): (r: Word)
    ensures I2C_FAST_XFER_OPTION_IGNORE_NACK <= r <==> ignoreNAK || I2C_FAST_XFER_OPTION_IGNORE_NACK <= options
    ensures I2C_FAST_XFER_OPTION_LAST_RX_ACK <= r <==> !nackLastByte || I2C_FAST_XFER_OPTION_LAST_RX_ACK <= options
    ensures forall k :: k !in I2C_FAST_XFER_FLAGS ==> (k in r <==> k in options)
  {
    var o1 := SetIf(options, I2C_FAST_XFER_OPTION_IGNORE_NACK, ignoreNAK);
    SetIf(o1, I2C_FAST_XFER_OPTION_LAST_RX_ACK, !nackLastByte)
  }

  // ----- `_SPI_OpenOptions` -----

  /** `SPI_CONFIG_OPTION_PRE_DELAY(x)`: the low byte of `x` in bits 8..15. */
  function PreDelay(x: int): (r: Word)
    ensures r <= SPI_PRE_DELAY_FIELD
  {
    Placed(x, 8, 8)
  }

  /** `SPI_CONFIG_OPTION_POST_DELAY(x)`: the low byte of `x` in bits 16..23. */
  function PostDelay(x: int): (r: Word)
    ensures r <= SPI_POST_DELAY_FIELD
  {
    Placed(x, 8, 16)
  }

  /** `(dataSize - 1) & 0xf`: the data-size nibble for frames of `dataSize`
      bits. */
  function DataSizeCode(dataSize: int): (r: Word)
    ensures r <= SPI_DATA_SIZE_FIELD
  {
    Placed(dataSize - 1, 4, 0)
  }

  /** The first two steps of `_SPI_OpenOptions`: POL_1 when `cpol` is
      non-zero, PHA_1 when `cpha` is. */
  function SpiClockBits(options: Word, cpol: int, cpha: int): (r: Word)
    ensures SPI_CONFIG_OPTION_POL_1 <= r <==> cpol != 0 || SPI_CONFIG_OPTION_POL_1 <= options
    ensures SPI_CONFIG_OPTION_PHA_1 <= r <==> cpha != 0 || SPI_CONFIG_OPTION_PHA_1 <= options
    ensures forall k :: k !in SPI_CONFIG_OPTION_POL_1 + SPI_CONFIG_OPTION_PHA_1 ==> (k in r <==> k in options)
  {
    SetIf(SetIf(options, SPI_CONFIG_OPTION_POL_1, cpol != 0), SPI_CONFIG_OPTION_PHA_1, cpha != 0)
  }

  /** The last three steps: the data-size nibble and the two delay bytes,
      each filled only where the word has zero. */
  function SpiFillFields(w: Word, dataSize: int, preDelay: int, postDelay: int): (r: Word)
    ensures r * SPI_DATA_SIZE_FIELD
            == if w * SPI_DATA_SIZE_FIELD == {} then DataSizeCode(dataSize) else w * SPI_DATA_SIZE_FIELD
    ensures r * SPI_PRE_DELAY_FIELD
            == if w * SPI_PRE_DELAY_FIELD == {} then PreDelay(preDelay) else w * SPI_PRE_DELAY_FIELD
    ensures r * SPI_POST_DELAY_FIELD
            == if w * SPI_POST_DELAY_FIELD == {} then PostDelay(postDelay) else w * SPI_POST_DELAY_FIELD
    ensures forall k :: k !in SPI_DATA_SIZE_FIELD + SPI_PRE_DELAY_FIELD + SPI_POST_DELAY_FIELD ==> (k in r <==> k in w)
  {
    var o3 := FillIfZero(w, SPI_DATA_SIZE_FIELD, DataSizeCode(dataSize));
    var o4 := FillIfZero(o3, SPI_PRE_DELAY_FIELD, PreDelay(preDelay));
    assert o3 * SPI_PRE_DELAY_FIELD == w * SPI_PRE_DELAY_FIELD;
    assert o4 * SPI_POST_DELAY_FIELD == w * SPI_POST_DELAY_FIELD;
    FillIfZero(o4, SPI_POST_DELAY_FIELD, PostDelay(postDelay))
  }

  /** `_SPI_OpenOptions`: `cpol` and `cpha` count as set when non-zero; the
      data-size nibble and the two delay bytes are filled only where the
      caller's word has zero; no other bit changes. */
  function SpiOpenOptions(options: Word, dataSize: int, cpol: int, cpha: int, preDelay: int, postDelay: int): (r: Word)
    ensures SPI_CONFIG_OPTION_POL_1 <= r <==> cpol != 0 || SPI_CONFIG_OPTION_POL_1 <= options
    ensures SPI_CONFIG_OPTION_PHA_1 <= r <==> cpha != 0 || SPI_CONFIG_OPTION_PHA_1 <= options
    ensures r * SPI_DATA_SIZE_FIELD
            == if options * SPI_DATA_SIZE_FIELD == {} then DataSizeCode(dataSize) else options * SPI_DATA_SIZE_FIELD
    ensures r * SPI_PRE_DELAY_FIELD
            == if options * SPI_PRE_DELAY_FIELD == {} then PreDelay(preDelay) else options * SPI_PRE_DELAY_FIELD
    ensures r * SPI_POST_DELAY_FIELD
            == if options * SPI_POST_DELAY_FIELD == {} then PostDelay(postDelay) else options * SPI_POST_DELAY_FIELD
    ensures forall k :: k !in SPI_OPTION_BITS ==> (k in r <==> k in options)
  {
    var w := SpiClockBits(options, cpol, cpha);
    assert w * SPI_DATA_SIZE_FIELD == options * SPI_DATA_SIZE_FIELD;
    assert w * SPI_PRE_DELAY_FIELD == options * SPI_PRE_DELAY_FIELD;
    assert w * SPI_POST_DELAY_FIELD == options * SPI_POST_DELAY_FIELD;
    SpiFillFields(w, dataSize, preDelay, postDelay)
  }

  /** The macros with 0xff give the field masks the builder tests. */
  lemma DelayMacrosGiveFields()
    ensures PreDelay(0xFF) == SPI_PRE_DELAY_FIELD
    ensures PostDelay(0xFF) == SPI_POST_DELAY_FIELD
  {
    forall j: nat | j < 8
      ensures BitOf(0xFF, j)
    {
      LowOnes(j);
    }
  }

  /** The binding's default frame sizes give the header's data-size codes. */
  lemma DataSizeDefaults()
    ensures DataSizeCode(8) == SPI_CONFIG_OPTION_DATA_SIZE_8
    ensures DataSizeCode(16) == SPI_CONFIG_OPTION_DATA_SIZE_16
  {
    forall k | k < 4
      ensures k in DataSizeCode(8) <==> k in SPI_CONFIG_OPTION_DATA_SIZE_8
      ensures k in DataSizeCode(16) <==> k in SPI_CONFIG_OPTION_DATA_SIZE_16
    {
      LowOnes(k);
    }
  }

  /** The low bits of 7, 15 and 255. */
  lemma LowOnes(j: nat)
    requires j < 8
    ensures BitOf(7, j) <==> j < 3
    ensures BitOf(15, j) <==> j < 4
    ensures BitOf(0xFF, j)
  {
    Pow2Small(j);
    if j == 0 {
    } else if j == 1 {
    } else if j == 2 {
    } else if j == 3 {
    } else if j == 4 {
    } else if j == 5 {
    } else if j == 6 {
    } else {
    }
  }

  /** The delay macros keep only the low byte of their argument: a delay of
      `d + 256` microseconds is sent as `d`. */
  lemma DelaysWrapAt256(d: int)
    ensures PreDelay(d + 256) == PreDelay(d)
    ensures PostDelay(d + 256) == PostDelay(d)
  {
    forall j: nat | j < 8
      ensures BitOf(d + 256, j) == BitOf(d, j)
    {
      Pow2Small(j);
      var p := Pow2(j);
      assert 256 == p * (256 / p);
      assert (d + 256) / p == d / p + 256 / p;
    }
  }

  /** Building twice with the same arguments gives the same word: every
      step only adds bits, and only where the word still lacks them. */
  lemma NormalXferOptionsIdempotent(options: Word, start: bool, stop: bool, ignoreNAK: bool, nackLastByte: bool, noAddress: bool)
    ensures var r := NormalXferOptions(options, start, stop, ignoreNAK, nackLastByte, noAddress);
            NormalXferOptions(r, start, stop, ignoreNAK, nackLastByte, noAddress) == r
  {
  }

  lemma FastXferOptionsIdempotent(options: Word, ignoreNAK: bool, nackLastByte: bool)
    ensures var r := FastXferOptions(options, ignoreNAK, nackLastByte);
            FastXferOptions(r, ignoreNAK, nackLastByte) == r
  {
  }

  lemma SpiOpenOptionsIdempotent(options: Word, dataSize: int, cpol: int, cpha: int, preDelay: int, postDelay: int)
    ensures var r := SpiOpenOptions(options, dataSize, cpol, cpha, preDelay, postDelay);
            SpiOpenOptions(r, dataSize, cpol, cpha, preDelay, postDelay) == r
  {
  }
}
