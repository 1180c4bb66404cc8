/** The MOSFET status response (command 0x93). */
module MosfetStatusResponse {
  import opened Wrappers
  import opened ByteCodec

  /** The overall charge state. The last case keeps the library's spelling. */
  datatype Status = Stationary | Charging | Discharding

  /** `Status.rawValue`. */
  function StatusRaw(s: Status): (b: byte)
    ensures b <= 2
  {
    match s
    case Stationary => 0
    case Charging => 1
    case Discharding => 2
  }

  /** `Status(rawValue:)`: defined on 0, 1 and 2 only. */
  function StatusOf(b: byte): (r: Option<Status>)
    ensures r.Some? <==> b <= 2
    ensures r.Some? ==> StatusRaw(r.value) == b
  {
    if b == 0 then Some(Stationary)
    else if b == 1 then Some(Charging)
    else if b == 2 then Some(Discharding)
    else None
  }

  datatype MosfetStatus = MosfetStatus(
    status: Status,
    chargeMosfetStatus: byte,
    dischargeMosfetStatus: byte,
    bmsHeartbeat: byte,
    remainingCapacity: nat)

  /** `MosfetStatus(bytes:)`. The status byte is force-unwrapped, so a
      value outside 0..2 stops the program: callers must rule it out. The
      remaining capacity (mAh) is the big-endian value of bytes 4..7. */
  function DecodeMosfetStatus(bytes: seq<byte>): (m: MosfetStatus)
    requires |bytes| >= 8
    requires bytes[0] <= 2
    ensures StatusRaw(m.status) == bytes[0]
    ensures m.chargeMosfetStatus == bytes[1] && m.dischargeMosfetStatus == bytes[2]
    ensures m.bmsHeartbeat == bytes[3]
    ensures m.remainingCapacity < 0x1_0000_0000
    ensures && m.remainingCapacity % 256 == bytes[7]
            && m.remainingCapacity / 256 % 256 == bytes[6]
            && m.remainingCapacity / 256 / 256 % 256 == bytes[5]
            && m.remainingCapacity / 256 / 256 / 256 == bytes[4]
  {
    MosfetStatus(StatusOf(bytes[0]).value, bytes[1], bytes[2], bytes[3], U32(bytes[4..8]))
  }

  /** Decoding is injective on the eight payload bytes. */
  lemma DecodeMosfetStatusInjective(a: seq<byte>, b: seq<byte>)
    requires |a| >= 8 && |b| >= 8 && a[0] <= 2 && b[0] <= 2
    ensures DecodeMosfetStatus(a) == DecodeMosfetStatus(b) <==> a[..8] == b[..8]
  {
    if DecodeMosfetStatus(a) == DecodeMosfetStatus(b) {
      assert a[..8] == [a[0], a[1], a[2], a[3], a[4], a[5], a[6], a[7]];
      assert b[..8] == [b[0], b[1], b[2], b[3], b[4], b[5], b[6], b[7]];
    }
  }
}
