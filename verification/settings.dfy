/** Address settings: the BMS client identifier and the connection class
    byte placed in every request header. */
module Settings {
  import opened Wrappers
  import opened ByteCodec

  /** Three well-known client addresses plus any custom byte. */
  datatype ClientId = Address0x20 | Address0x40 | Address0x80 | Custom(value: byte)

  /** The bytes that have a named case. */
  predicate IsNamedAddress(b: byte) {
    b == 0x20 || b == 0x40 || b == 0x80
  }

  /** `ClientId.rawValue`. */
  function ClientIdRaw(id: ClientId): (b: byte)
    ensures !id.Custom? ==> IsNamedAddress(b)
    ensures id.Custom? ==> b == id.value
  {
    match id
    case Address0x20 => 0x20
    case Address0x40 => 0x40
    case Address0x80 => 0x80
    case Custom(v) => v
  }

  /** `ClientId(rawValue:)`: every byte is accepted, the named bytes map to
      their named case and never to `Custom`. */
  function ClientIdOf(b: byte): (id: ClientId)
    ensures ClientIdRaw(id) == b
    ensures id.Custom? <==> !IsNamedAddress(b)
  {
    if b == 0x20 then Address0x20
    else if b == 0x40 then Address0x40
    else if b == 0x80 then Address0x80
    else Custom(b)
  }

  /** Going through the raw byte returns the same identifier except for a
      custom identifier that spells one of the named bytes. */
  lemma ClientIdRoundTrip(id: ClientId)
    ensures ClientIdOf(ClientIdRaw(id)) == id <==> !(id.Custom? && IsNamedAddress(id.value))
  {
  }

  /** The connection class of the requesting channel. */
  datatype ConnectionType = Gprs | Uart | Bluetooth

  /** `ConnectionType.rawValue`. */
  function ConnectionRaw(c: ConnectionType): (b: byte)
    ensures IsNamedAddress(b)
  {
    match c
    case Gprs => 0x20
    case Uart => 0x40
    case Bluetooth => 0x80
  }

  /** `ConnectionType(rawValue:)`: the synthesised initialiser of a raw-value
      enum, defined on the three case values only. */
  function ConnectionOf(b: byte): (r: Option<ConnectionType>)
    ensures r.Some? <==> IsNamedAddress(b)
    ensures r.Some? ==> ConnectionRaw(r.value) == b
  {
    if b == 0x20 then Some(Gprs)
    else if b == 0x40 then Some(Uart)
    else if b == 0x80 then Some(Bluetooth)
    else None
  }

  /** The raw values are distinct, so each connection type survives the
      round trip through its byte. */
  lemma ConnectionRoundTrip(c: ConnectionType)
    ensures ConnectionOf(ConnectionRaw(c)) == Some(c)
  {
  }
}
