/** The state-of-charge response (command 0x90). */
module StateOfChargeResponse {
  import opened ByteCodec

  /** Voltages in volts, current in amperes (negative while charging),
      state of charge in percent. */
  datatype StateOfCharge = StateOfCharge(
    totalVoltage: real,
    gatherVoltage: real,
    current: real,
    stateOfCharge: real)

  /** The current field is offset by 30000 before scaling. */
  const CurrentOffset: real := 30000.0

  /** `StateOfCharge(bytes:)`: four big-endian 16-bit fields scaled by 0.1;
      the current is offset by 30000 first, so it is negative exactly when
      the raw value is below 30000 and zero exactly for bytes 0x75 0x30. */
  function DecodeStateOfCharge(bytes: seq<byte>): (s: StateOfCharge)
    requires |bytes| >= 8
    ensures s.totalVoltage / 0.1 == U16(bytes[0], bytes[1]) as real
    ensures s.gatherVoltage / 0.1 == U16(bytes[2], bytes[3]) as real
    ensures s.current / 0.1 + CurrentOffset == U16(bytes[4], bytes[5]) as real
    ensures s.stateOfCharge / 0.1 == U16(bytes[6], bytes[7]) as real
    ensures 0.0 <= s.totalVoltage <= 6553.5 && 0.0 <= s.gatherVoltage <= 6553.5
    ensures 0.0 <= s.stateOfCharge <= 6553.5
    ensures -3000.0 <= s.current <= 3553.5
    ensures s.current < 0.0 <==> U16(bytes[4], bytes[5]) < 30000
    ensures s.current == 0.0 <==> bytes[4] == 0x75 && bytes[5] == 0x30
  {
    StateOfCharge(
      Scaled(bytes[0], bytes[1], 0.1),
      Scaled(bytes[2], bytes[3], 0.1),
      OffsetScaled(bytes[4], bytes[5], CurrentOffset, 0.1),
      Scaled(bytes[6], bytes[7], 0.1))
  }

  /** The decoded record determines all eight payload bytes and nothing
      else is read. */
  lemma DecodeStateOfChargeInjective(a: seq<byte>, b: seq<byte>)
    requires |a| >= 8 && |b| >= 8
    ensures DecodeStateOfCharge(a) == DecodeStateOfCharge(b) <==> a[..8] == b[..8]
  {
    if a[..8] == b[..8] {
      assert forall i | 0 <= i < 8 :: a[i] == a[..8][i] == b[..8][i] == b[i];
    }
    if DecodeStateOfCharge(a) == DecodeStateOfCharge(b) {
      assert U16(a[0], a[1]) == U16(b[0], b[1]);
      assert U16(a[2], a[3]) == U16(b[2], b[3]);
      assert U16(a[4], a[5]) == U16(b[4], b[5]);
      assert U16(a[6], a[7]) == U16(b[6], b[7]);
      assert forall i | 0 <= i < 8 :: a[..8][i] == b[..8][i];
    }
  }

  /** A pack at 40.0 V, no current, full charge. */
  lemma DecodeStateOfChargeExample()
    ensures DecodeStateOfCharge([0x01, 0x90, 0x01, 0x90, 0x75, 0x30, 0x03, 0xE8])
            == StateOfCharge(40.0, 40.0, 0.0, 100.0)
  {
  }
}
