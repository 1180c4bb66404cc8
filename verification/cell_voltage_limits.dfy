/** The cell-voltage-limits response (command 0x91). */
module CellVoltageLimitsResponse {
  import opened ByteCodec

  /** Voltages in volts; cells by their number as the BMS reports it. */
  datatype CellVoltageLimits = CellVoltageLimits(
    maximumVoltage: real,
    maximumVoltageCell: nat,
    minimumVoltage: real,
    minimumVoltageCell: nat)

  /** `CellVoltageLimits(bytes:)`: millivolt fields at bytes 0-1 and 3-4,
      cell numbers at bytes 2 and 5. */
  function DecodeCellVoltageLimits(bytes: seq<byte>): (l: CellVoltageLimits)
    requires |bytes| >= 6
    ensures l.maximumVoltage / 0.001 == U16(bytes[0], bytes[1]) as real
    ensures l.minimumVoltage / 0.001 == U16(bytes[3], bytes[4]) as real
    ensures l.maximumVoltageCell == bytes[2] && l.minimumVoltageCell == bytes[5]
    ensures 0.0 <= l.maximumVoltage <= 65.535 && 0.0 <= l.minimumVoltage <= 65.535
  {
    CellVoltageLimits(
      Scaled(bytes[0], bytes[1], 0.001),
      bytes[2],
      Scaled(bytes[3], bytes[4], 0.001),
      bytes[5])
  }

  /** The record is determined by bytes 0..5 and determines them; bytes 6
      and 7 of the payload are ignored. */
  lemma DecodeCellVoltageLimitsInjective(a: seq<byte>, b: seq<byte>)
    requires |a| >= 6 && |b| >= 6
    ensures DecodeCellVoltageLimits(a) == DecodeCellVoltageLimits(b) <==> a[..6] == b[..6]
  {
    if a[..6] == b[..6] {
      assert forall i | 0 <= i < 6 :: a[i] == a[..6][i] == b[..6][i] == b[i];
    }
  }
}
