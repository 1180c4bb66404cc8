/** The failure response (command 0x98): a 64-bit option set built from
    payload bytes 0..6, plus the fault code in byte 7. */
module FailureStatusResponse {
  import opened ByteCodec

  /** The named members of the `Failures` option set, in declaration order. */
  datatype Fault =
    // byte 0
    | CellVoltageHighLevel1 | CellVoltageHighLevel2 | CellVoltageLowLevel1 | CellVoltageLowLevel2
    | SumVoltageHighLevel1 | SumVoltageHighLevel2 | SumVoltageLowLevel1 | SumVoltageLowLevel2
    // byte 1
    | ChargeTemperatureHighLevel1 | ChargeTemperatureHighLevel2
    | ChargeTemperatureLowLevel1 | ChargeTemperatureLowLevel2
    | DischargeTemperatureHighLevel1 | DischargeTemperatureHighLevel2
    | DischargeTemperatureLowLevel1 | DischargeTemperatureLowLevel2
    // byte 2
    | ChargeOvercurrentLevel1 | ChargeOvercurrentLevel2
    | DischargeOvercurrentLevel1 | DischargeOvercurrentLevel2
    | SocHighLevel1 | SocHighLevel2 | SocLowLevel1 | SocLowLevel2
    // byte 3 (bits 0..3 only)
    | DiffVoltageLevel1 | DiffVoltageLevel2 | DiffTemperatureLevel1 | DiffTemperatureLevel2
    // byte 4
    | ChargeMosfetTemperatureHighAlarm | DischargeMosfetTemperatureHighAlarm
    | ChargeMosfetTemperatureError | DischargeMosfetTemperature
    | ChargeMosfetAdhesionError | DischargeMosfetAdhesionError
    | ChargeMosfetOpenCircuitError | DischargeMosfetOpenCircuitError
    // byte 5
    | AfeCollectChipError | VoltageCollectDropped | CellTemperatureSensorError | EepromError
    | RtcError | PrechargeFailure | CommunicationFailure | InternalCommunicationFailure
    // byte 6 (bits 0..3 only)
    | CurrentModeFault | SumVoltageDetectFault | ShortCircuitProtectFault
    | LowVoltageForbiddenChargeFault

  /** The named faults listed by payload byte, each row in bit order. */
  const FaultTable: seq<seq<Fault>> := [
    [CellVoltageHighLevel1, CellVoltageHighLevel2, CellVoltageLowLevel1, CellVoltageLowLevel2,
     SumVoltageHighLevel1, SumVoltageHighLevel2, SumVoltageLowLevel1, SumVoltageLowLevel2],
    [ChargeTemperatureHighLevel1, ChargeTemperatureHighLevel2,
     ChargeTemperatureLowLevel1, ChargeTemperatureLowLevel2,
     DischargeTemperatureHighLevel1, DischargeTemperatureHighLevel2,
     DischargeTemperatureLowLevel1, DischargeTemperatureLowLevel2],
    [ChargeOvercurrentLevel1, ChargeOvercurrentLevel2,
     DischargeOvercurrentLevel1, DischargeOvercurrentLevel2,
     SocHighLevel1, SocHighLevel2, SocLowLevel1, SocLowLevel2],
    [DiffVoltageLevel1, DiffVoltageLevel2, DiffTemperatureLevel1, DiffTemperatureLevel2],
    [ChargeMosfetTemperatureHighAlarm, DischargeMosfetTemperatureHighAlarm,
     ChargeMosfetTemperatureError, DischargeMosfetTemperature,
     ChargeMosfetAdhesionError, DischargeMosfetAdhesionError,
     ChargeMosfetOpenCircuitError, DischargeMosfetOpenCircuitError],
    [AfeCollectChipError, VoltageCollectDropped, CellTemperatureSensorError, EepromError,
     RtcError, PrechargeFailure, CommunicationFailure, InternalCommunicationFailure],
    [CurrentModeFault, SumVoltageDetectFault, ShortCircuitProtectFault,
     LowVoltageForbiddenChargeFault]
  ]

  /** Where a named fault sits in the payload: byte `k`, bit `j`. */
  datatype Position = Position(byteIndex: nat, bit: nat)

  /** The payload byte and bit each constant's comment names. */
  function PositionOf(f: Fault): (p: Position)
    ensures p.byteIndex < 7 && p.bit < 8
    ensures p.byteIndex == 3 || p.byteIndex == 6 ==> p.bit < 4
  {
    match f
    case CellVoltageHighLevel1 => Position(0, 0)
    case CellVoltageHighLevel2 => Position(0, 1)
    case CellVoltageLowLevel1 => Position(0, 2)
    case CellVoltageLowLevel2 => Position(0, 3)
    case SumVoltageHighLevel1 => Position(0, 4)
    case SumVoltageHighLevel2 => Position(0, 5)
    case SumVoltageLowLevel1 => Position(0, 6)
    case SumVoltageLowLevel2 => Position(0, 7)
    case ChargeTemperatureHighLevel1 => Position(1, 0)
    case ChargeTemperatureHighLevel2 => Position(1, 1)
    case ChargeTemperatureLowLevel1 => Position(1, 2)
    case ChargeTemperatureLowLevel2 => Position(1, 3)
    case DischargeTemperatureHighLevel1 => Position(1, 4)
    case DischargeTemperatureHighLevel2 => Position(1, 5)
    case DischargeTemperatureLowLevel1 => Position(1, 6)
    case DischargeTemperatureLowLevel2 => Position(1, 7)
    case ChargeOvercurrentLevel1 => Position(2, 0)
    case ChargeOvercurrentLevel2 => Position(2, 1)
    case DischargeOvercurrentLevel1 => Position(2, 2)
    case DischargeOvercurrentLevel2 => Position(2, 3)
    case SocHighLevel1 => Position(2, 4)
    case SocHighLevel2 => Position(2, 5)
    case SocLowLevel1 => Position(2, 6)
    case SocLowLevel2 => Position(2, 7)
    case DiffVoltageLevel1 => Position(3, 0)
    case DiffVoltageLevel2 => Position(3, 1)
    case DiffTemperatureLevel1 => Position(3, 2)
    case DiffTemperatureLevel2 => Position(3, 3)
    case ChargeMosfetTemperatureHighAlarm => Position(4, 0)
    case DischargeMosfetTemperatureHighAlarm => Position(4, 1)
    case ChargeMosfetTemperatureError => Position(4, 2)
    case DischargeMosfetTemperature => Position(4, 3)
    case ChargeMosfetAdhesionError => Position(4, 4)
    case DischargeMosfetAdhesionError => Position(4, 5)
    case ChargeMosfetOpenCircuitError => Position(4, 6)
    case DischargeMosfetOpenCircuitError => Position(4, 7)
    case AfeCollectChipError => Position(5, 0)
    case VoltageCollectDropped => Position(5, 1)
    case CellTemperatureSensorError => Position(5, 2)
    case EepromError => Position(5, 3)
    case RtcError => Position(5, 4)
    case PrechargeFailure => Position(5, 5)
    case CommunicationFailure => Position(5, 6)
    case InternalCommunicationFailure => Position(5, 7)
    case CurrentModeFault => Position(6, 0)
    case SumVoltageDetectFault => Position(6, 1)
    case ShortCircuitProtectFault => Position(6, 2)
    case LowVoltageForbiddenChargeFault => Position(6, 3)
  }

  /** The shift of a named constant: `1 << ((7 - k) * 8 + j)`. */
  function Shift(f: Fault): (s: nat)
    ensures 8 <= s < 64
    ensures s / 8 == 7 - PositionOf(f).byteIndex && s % 8 == PositionOf(f).bit
  {
    var p := PositionOf(f);
    (7 - p.byteIndex) * 8 + p.bit
  }

  /** The raw value of a named constant: a single bit. */
  function FlagValue(f: Fault): (v: nat)
    ensures v >= 256
    ensures forall i: nat :: Bit(v, i) <==> i == Shift(f)
  {
    Pow2Monotone(8, Shift(f));
    assert Pow2(8) == 256;
    assert forall i: nat :: Bit(Pow2(Shift(f)), i) <==> i == Shift(f) by {
      forall i: nat
        ensures Bit(Pow2(Shift(f)), i) <==> i == Shift(f)
      {
        Pow2Bit(Shift(f), i);
      }
    }
    Pow2(Shift(f))
  }

  /** Larger exponents give larger powers of two. */
  lemma {:induction false} Pow2Monotone(m: nat, n: nat)
    requires m <= n
    ensures Pow2(m) <= Pow2(n)
    ensures m < n ==> Pow2(m) < Pow2(n)
  {
    if m < n {
      Pow2Monotone(m, n - 1);
    }
  }

  /** Each fault is found in the table at its own position. */
  lemma TableAt(f: Fault)
    ensures PositionOf(f).byteIndex < |FaultTable|
    ensures PositionOf(f).bit < |FaultTable[PositionOf(f).byteIndex]|
    ensures FaultTable[PositionOf(f).byteIndex][PositionOf(f).bit] == f
  {
    match f
    case CellVoltageHighLevel1 =>
    case CellVoltageHighLevel2 =>
    case CellVoltageLowLevel1 =>
    case CellVoltageLowLevel2 =>
    case SumVoltageHighLevel1 =>
    case SumVoltageHighLevel2 =>
    case SumVoltageLowLevel1 =>
    case SumVoltageLowLevel2 =>
    case ChargeTemperatureHighLevel1 =>
    case ChargeTemperatureHighLevel2 =>
    case ChargeTemperatureLowLevel1 =>
    case ChargeTemperatureLowLevel2 =>
    case DischargeTemperatureHighLevel1 =>
    case DischargeTemperatureHighLevel2 =>
    case DischargeTemperatureLowLevel1 =>
    case DischargeTemperatureLowLevel2 =>
    case ChargeOvercurrentLevel1 =>
    case ChargeOvercurrentLevel2 =>
    case DischargeOvercurrentLevel1 =>
    case DischargeOvercurrentLevel2 =>
    case SocHighLevel1 =>
    case SocHighLevel2 =>
    case SocLowLevel1 =>
    case SocLowLevel2 =>
    case DiffVoltageLevel1 =>
    case DiffVoltageLevel2 =>
    case DiffTemperatureLevel1 =>
    case DiffTemperatureLevel2 =>
    case ChargeMosfetTemperatureHighAlarm =>
    case DischargeMosfetTemperatureHighAlarm =>
    case ChargeMosfetTemperatureError =>
    case DischargeMosfetTemperature =>
    case ChargeMosfetAdhesionError =>
    case DischargeMosfetAdhesionError =>
    case ChargeMosfetOpenCircuitError =>
    case DischargeMosfetOpenCircuitError =>
    case AfeCollectChipError =>
    case VoltageCollectDropped =>
    case CellTemperatureSensorError =>
    case EepromError =>
    case RtcError =>
    case PrechargeFailure =>
    case CommunicationFailure =>
    case InternalCommunicationFailure =>
    case CurrentModeFault =>
    case SumVoltageDetectFault =>
    case ShortCircuitProtectFault =>
    case LowVoltageForbiddenChargeFault =>
  }

  /** Distinct faults have distinct shifts. */
  lemma ShiftInjective(f: Fault, g: Fault)
    requires Shift(f) == Shift(g)
    ensures f == g
  {
    assert PositionOf(f) == PositionOf(g);
    TableAt(f);
    TableAt(g);
  }

  /** The 48 named constants are pairwise distinct single-bit values. */
  lemma FlagsDistinct(f: Fault, g: Fault)
    ensures FlagValue(f) == FlagValue(g) <==> f == g
  {
    if Shift(f) == Shift(g) {
      ShiftInjective(f, g);
    } else {
      Pow2Injective(Shift(f), Shift(g));
    }
  }

  /** Different exponents give different powers of two. */
  lemma Pow2Injective(a: nat, b: nat)
    requires a != b
    ensures Pow2(a) != Pow2(b)
  {
    if a < b {
      Pow2Monotone(a, b);
    } else {
      Pow2Monotone(b, a);
    }
  }

  /** `FailureStatus.Failures`: an option set over a 64-bit word. */
  datatype Failures = Failures(rawValue: nat)

  datatype FailureStatus = FailureStatus(failures: Failures, faultCode: byte)

  /** OptionSet membership of a named constant. For a single-bit member,
      `rawValue & member.rawValue == member.rawValue` is that bit being set. */
  function Contains(failures: Failures, f: Fault): (b: bool)
    ensures b <==> Bit(ByteOf(failures.rawValue, PositionOf(f).byteIndex), PositionOf(f).bit)
  {
    var p := PositionOf(f);
    BitShiftBytes(failures.rawValue, 7 - p.byteIndex, p.bit);
    LowByteBit(ShiftBytes(failures.rawValue, 7 - p.byteIndex), p.bit);
    Bit(failures.rawValue, Shift(f))
  }

  /** `x >> (8 * m)`, written as `m` divisions by 256. */
  function ShiftBytes(x: nat, m: nat): nat {
    if m == 0 then x else ShiftBytes(x / 256, m - 1)
  }

  /** Byte `k` of a 64-bit word, counting from the most significant (k = 0). */
  function ByteOf(raw: nat, k: nat): byte
    requires k < 8
  {
    ShiftBytes(raw, 7 - k) % 256
  }

  /** Big-endian value of a byte sequence. */
  function BigEndian(s: seq<byte>): nat {
    if |s| == 0 then 0 else BigEndian(s[..|s| - 1]) * 256 + s[|s| - 1]
  }

  /** `Failures(bytes:)`: byte k shifted left by `8 * (7 - k)` for k = 0..6.
      The word is below 2^64, its low byte is zero, and it gives each of
      bytes 0..6 back in its own position. */
  function DecodeFailures(bytes: seq<byte>): (f: Failures)
    requires |bytes| >= 7
    ensures f.rawValue < 0x1_0000_0000_0000_0000
    ensures f.rawValue % 256 == 0
    ensures forall k | 0 <= k < 7 :: ByteOf(f.rawValue, k) == bytes[k]
  {
    var raw := (bytes[0] as int) * 0x100_0000_0000_0000
      + (bytes[1] as int) * 0x1_0000_0000_0000
      + (bytes[2] as int) * 0x100_0000_0000
      + (bytes[3] as int) * 0x1_0000_0000
      + (bytes[4] as int) * 0x100_0000
      + (bytes[5] as int) * 0x1_0000
      + (bytes[6] as int) * 0x100;
    RawIsBigEndian(bytes);
    BytesOfRaw(bytes);
    Failures(raw)
  }

  /** `FailureStatus(bytes:)`: the failure word and the fault code in byte 7. */
  function DecodeFailureStatus(bytes: seq<byte>): (s: FailureStatus)
    requires |bytes| >= 8
    ensures s.faultCode == bytes[7]
    ensures s.failures.rawValue % 256 == 0
    ensures forall k | 0 <= k < 7 :: ByteOf(s.failures.rawValue, k) == bytes[k]
  {
    FailureStatus(DecodeFailures(bytes), bytes[7])
  }

  /** The decoded word is the big-endian reading of bytes 0..6 followed by a
      zero byte. */
  lemma RawIsBigEndian(bytes: seq<byte>)
    requires |bytes| >= 7
    ensures (bytes[0] as int) * 0x100_0000_0000_0000
      + (bytes[1] as int) * 0x1_0000_0000_0000
      + (bytes[2] as int) * 0x100_0000_0000
      + (bytes[3] as int) * 0x1_0000_0000
      + (bytes[4] as int) * 0x100_0000
      + (bytes[5] as int) * 0x1_0000
      + (bytes[6] as int) * 0x100
      == BigEndian(bytes[..7] + [0])
  {
    var s := bytes[..7] + [0];
    assert s[..7] == bytes[..7];
    assert BigEndian(s) == BigEndian(bytes[..7]) * 256;
    BigEndianStep(bytes, 7);
    BigEndianStep(bytes, 6);
    BigEndianStep(bytes, 5);
    BigEndianStep(bytes, 4);
    BigEndianStep(bytes, 3);
    BigEndianStep(bytes, 2);
    BigEndianStep(bytes, 1);
    assert bytes[..0] == [];
  }

  /** One more byte of a prefix appends one low byte to its value. */
  lemma BigEndianStep(bytes: seq<byte>, n: nat)
    requires 0 < n <= |bytes|
    ensures BigEndian(bytes[..n]) == BigEndian(bytes[..n - 1]) * 256 + bytes[n - 1]
  {
    assert bytes[..n][..n - 1] == bytes[..n - 1];
  }

  /** Dropping `m` low bytes of a big-endian value leaves the value of the
      sequence without its last `m` bytes. */
  lemma {:induction false} ShiftBigEndian(s: seq<byte>, m: nat)
    requires m <= |s|
    ensures ShiftBytes(BigEndian(s), m) == BigEndian(s[..|s| - m])
  {
    if m == 0 {
      assert s[..|s|] == s;
    } else {
      var t := s[..|s| - 1];
      assert BigEndian(s) == BigEndian(t) * 256 + s[|s| - 1];
      PeelByte(BigEndian(t), s[|s| - 1]);
      assert ShiftBytes(BigEndian(s), m) == ShiftBytes(BigEndian(t), m - 1);
      ShiftBigEndian(t, m - 1);
      assert t[..|t| - (m - 1)] == s[..|s| - m];
    }
  }

  /** The big-endian word of `bytes[..7] + [0]` shifted right by
      `8 * (7 - k)` is byte k above the value of the bytes before it. */
  lemma ShiftedWord(bytes: seq<byte>, k: nat)
    requires |bytes| >= 7 && k < 7
    ensures ShiftBytes(BigEndian(bytes[..7] + [0]), 7 - k) == BigEndian(bytes[..k]) * 256 + bytes[k]
  {
    var s := bytes[..7] + [0];
    ShiftBigEndian(s, 7 - k);
    assert s[..|s| - (7 - k)] == bytes[..k + 1];
    assert bytes[..k + 1][..k] == bytes[..k];
  }

  /** Each of bytes 0..6 can be read back out of the word. */
  lemma BytesOfRaw(bytes: seq<byte>)
    requires |bytes| >= 7
    ensures forall k | 0 <= k < 7 :: ByteOf(BigEndian(bytes[..7] + [0]), k) == bytes[k]
  {
    forall k | 0 <= k < 7
      ensures ByteOf(BigEndian(bytes[..7] + [0]), k) == bytes[k]
    {
      ShiftedWord(bytes, k);
      PeelByte(BigEndian(bytes[..k]), bytes[k]);
    }
  }

  /** Byte 7 never reaches the failure word, and the word determines
      bytes 0..6 exactly. */
  lemma DecodeFailuresInjective(a: seq<byte>, b: seq<byte>)
    requires |a| >= 7 && |b| >= 7
    ensures DecodeFailures(a) == DecodeFailures(b) <==> a[..7] == b[..7]
  {
    if DecodeFailures(a) == DecodeFailures(b) {
      assert forall k | 0 <= k < 7 :: a[k] == ByteOf(DecodeFailures(a).rawValue, k) == b[k];
    }
    if a[..7] == b[..7] {
      assert forall k | 0 <= k < 7 :: a[k] == a[..7][k] == b[..7][k] == b[k];
    }
  }

  /** Shifting right by one byte is eight halvings. */
  lemma BitByteStep(x: nat, j: nat)
    ensures Bit(x, j + 8) == Bit(x / 256, j)
  {
    var x1 := x / 2;
    var x2 := x1 / 2;
    var x3 := x2 / 2;
    var x4 := x3 / 2;
    var x5 := x4 / 2;
    var x6 := x5 / 2;
    var x7 := x6 / 2;
    var x8 := x7 / 2;
    assert Bit(x, j + 8) == Bit(x1, j + 7) == Bit(x2, j + 6) == Bit(x3, j + 5) == Bit(x4, j + 4);
    assert Bit(x4, j + 4) == Bit(x5, j + 3) == Bit(x6, j + 2) == Bit(x7, j + 1) == Bit(x8, j);
    assert x2 == x / 4 && x3 == x / 8 && x4 == x / 16;
    assert x5 == x / 32 && x6 == x / 64 && x7 == x / 128 && x8 == x / 256;
  }

  /** Bit `8 * m + j` of a word is bit `j` of the word shifted right by `m` bytes. */
  lemma {:induction false} BitShiftBytes(x: nat, m: nat, j: nat)
    ensures Bit(x, 8 * m + j) == Bit(ShiftBytes(x, m), j)
  {
    if m > 0 {
      BitByteStep(x, 8 * (m - 1) + j);
      BitShiftBytes(x / 256, m - 1, j);
    }
  }

  /** Adding a multiple of `2^c` does not change the bits below `c`. */
  lemma {:induction false} BitAddHigh(y: nat, t: nat, j: nat, c: nat)
    requires j < c
    ensures Bit(y + Pow2(c) * t, j) == Bit(y, j)
  {
    assert Pow2(c) * t == 2 * (Pow2(c - 1) * t);
    if j > 0 {
      assert (y + Pow2(c) * t) / 2 == y / 2 + Pow2(c - 1) * t;
      BitAddHigh(y / 2, t, j - 1, c - 1);
    }
  }

  /** The bits below 8 of a number are those of its low byte. */
  lemma LowByteBit(y: nat, j: nat)
    requires j < 8
    ensures Bit(y, j) == Bit(y % 256, j)
  {
    assert Pow2(8) == 256;
    BitAddHigh(y % 256, y / 256, j, 8);
  }

  /** Bit `(7 - k) * 8 + j` of the decoded word is bit `j` of payload byte `k`. */
  lemma RawBit(bytes: seq<byte>, k: nat, j: nat)
    requires |bytes| >= 7 && k < 7 && j < 8
    ensures Bit(DecodeFailures(bytes).rawValue, (7 - k) * 8 + j) <==> Bit(bytes[k], j)
  {
    var raw := DecodeFailures(bytes).rawValue;
    RawIsBigEndian(bytes);
    assert raw == BigEndian(bytes[..7] + [0]);
    BitShiftBytes(raw, 7 - k, j);
    assert (7 - k) * 8 + j == 8 * (7 - k) + j;
    var w, t := ShiftBytes(raw, 7 - k), BigEndian(bytes[..k]);
    assert Bit(raw, (7 - k) * 8 + j) == Bit(w, j);
    ShiftedWord(bytes, k);
    assert Pow2(8) == 256;
    assert w == bytes[k] + Pow2(8) * t;
    BitAddHigh(bytes[k], t, j, 8);
  }

  /** A named fault is reported exactly when its bit is set in its payload
      byte, e.g. `cellVoltageHighLevel1` is bit 0 of byte 0. */
  lemma ContainsIffBit(bytes: seq<byte>, f: Fault)
    requires |bytes| >= 7
    ensures Contains(DecodeFailures(bytes), f)
            <==> Bit(bytes[PositionOf(f).byteIndex], PositionOf(f).bit)
  {
    RawBit(bytes, PositionOf(f).byteIndex, PositionOf(f).bit);
  }

  /** Every named fault at once: the set of reported faults is exactly the
      set of faults whose payload bit is set. */
  lemma DecodedFaults(bytes: seq<byte>)
    requires |bytes| >= 7
    ensures forall f: Fault :: Contains(DecodeFailures(bytes), f)
                               <==> Bit(bytes[PositionOf(f).byteIndex], PositionOf(f).bit)
  {
    forall f: Fault
      ensures Contains(DecodeFailures(bytes), f) <==> Bit(bytes[PositionOf(f).byteIndex], PositionOf(f).bit)
    {
      ContainsIffBit(bytes, f);
    }
  }

  /** The high nibbles of bytes 3 and 6 carry no named fault, yet their bits
      are kept in the word. */
  lemma UnnamedBitsKept(bytes: seq<byte>, k: nat, j: nat)
    requires |bytes| >= 7
    requires (k == 3 || k == 6) && 4 <= j < 8
    ensures forall f: Fault :: PositionOf(f) != Position(k, j)
    ensures Bit(DecodeFailures(bytes).rawValue, (7 - k) * 8 + j) <==> Bit(bytes[k], j)
  {
    RawBit(bytes, k, j);
  }

  /** The first constant is `1 << 56`, the last `1 << 11`. */
  lemma FlagValueExamples()
    ensures FlagValue(CellVoltageHighLevel1) == 0x100_0000_0000_0000
    ensures FlagValue(LowVoltageForbiddenChargeFault) == 0x800
  {
    assert Shift(CellVoltageHighLevel1) == 56;
    assert Shift(LowVoltageForbiddenChargeFault) == 11;
    Pow2Values();
  }

  /** The two powers of two the examples need. */
  lemma Pow2Values()
    ensures Pow2(11) == 0x800
    ensures Pow2(56) == 0x100_0000_0000_0000
  {
    assert Pow2(14) == 0x4000;
    Pow2Add(14, 14);
    Pow2Add(28, 28);
  }

  /** Powers of two multiply by adding exponents. */
  lemma {:induction false} Pow2Add(a: nat, b: nat)
    ensures Pow2(a + b) == Pow2(a) * Pow2(b)
  {
    if b > 0 {
      Pow2Add(a, b - 1);
    }
  }
}
