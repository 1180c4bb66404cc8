/** The cell-temperature-limits response (command 0x92). */
module CellTemperatureLimitsResponse {
  import opened ByteCodec

  /** Temperatures in degrees Celsius; sensors by the number the BMS
      reports. */
  datatype CellTemperatureLimits = CellTemperatureLimits(
    maximumTemperature: real,
    maximumTemperatureCell: nat,
    minimumTemperature: real,
    minimumTemperatureCell: nat)

  /** Temperatures are sent as unsigned bytes offset by 40. */
  const TemperatureOffset: real := 40.0

  /** `CellTemperatureLimits(bytes:)`: offset temperatures at bytes 0 and
      2, cell numbers at bytes 1 and 3. */
  function DecodeCellTemperatureLimits(bytes: seq<byte>): (l: CellTemperatureLimits)
    requires |bytes| >= 4
    ensures l.maximumTemperature + TemperatureOffset == bytes[0] as real
    ensures l.minimumTemperature + TemperatureOffset == bytes[2] as real
    ensures l.maximumTemperatureCell == bytes[1] && l.minimumTemperatureCell == bytes[3]
    ensures -40.0 <= l.maximumTemperature <= 215.0 && -40.0 <= l.minimumTemperature <= 215.0
  {
    CellTemperatureLimits(
      OffsetByte(bytes[0], TemperatureOffset),
      bytes[1],
      OffsetByte(bytes[2], TemperatureOffset),
      bytes[3])
  }

  /** The record is determined by bytes 0..3 and determines them; bytes
      4..7 of the payload are ignored. */
  lemma DecodeCellTemperatureLimitsInjective(a: seq<byte>, b: seq<byte>)
    requires |a| >= 4 && |b| >= 4
    ensures DecodeCellTemperatureLimits(a) == DecodeCellTemperatureLimits(b) <==> a[..4] == b[..4]
  {
    if a[..4] == b[..4] {
      assert forall i | 0 <= i < 4 :: a[i] == a[..4][i] == b[..4][i] == b[i];
    }
  }
}
