/** The 13-byte frame: `start | address | command code | payload length |
    8 payload bytes | checksum`. Builds outbound requests and validates
    inbound frames. */
module FrameCodec {
  import opened Wrappers
  import opened ByteCodec
  import opened Commands
  import opened Settings

  const StartByte: byte := 0xA5
  const FrameLength: nat := 13
  /** The payload length field: frame length minus four header bytes and
      the checksum byte. */
  const PayloadLength: byte := 8
  /** The client always announces itself as a UART connection. */
  const Connection: ConnectionType := Uart

  /** The plain (non-wrapping) sum of a byte sequence. */
  function Sum(s: seq<byte>): nat {
    if s == [] then 0 else s[0] + Sum(s[1..])
  }

  /** The 8-bit wrapping fold `reduce(acc) { $0 &+ $1 }`. */
  function CrcFrom(acc: byte, s: seq<byte>): (r: byte)
    ensures r == (acc + Sum(s)) % 256
    decreases |s|
  {
    if s == [] then acc
    else
      ModAddLeft(acc + s[0], Sum(s[1..]));
      CrcFrom((acc + s[0]) % 256, s[1..])
  }

  /** Reducing the left summand first does not change the remainder. */
  lemma ModAddLeft(a: nat, b: nat)
    ensures (a % 256 + b) % 256 == (a + b) % 256
  {
  }

  /** The frame checksum: the sum of the bytes modulo 256. */
  function Crc(s: seq<byte>): (r: byte)
    ensures r == Sum(s) % 256
  {
    CrcFrom(0, s)
  }

  /** Eight zero bytes: requests carry no parameters. */
  function ZeroPayload(): (z: seq<byte>)
    ensures |z| == 8 && forall i | 0 <= i < 8 :: z[i] == 0
  {
    [0, 0, 0, 0, 0, 0, 0, 0]
  }

  /** A well-formed frame with the given code, address and eight payload
      bytes, closed by its checksum. */
  function EncodeFrame(code: Code, address: byte, body: seq<byte>): (f: seq<byte>)
    requires |body| == 8
    ensures |f| == FrameLength
    ensures f[0] == StartByte && f[1] == address && f[2] == CodeByte(code) && f[3] == PayloadLength
    ensures f[4..12] == body
    ensures f[12] == Sum(f[..12]) % 256
  {
    var data := [StartByte, address, CodeByte(code), PayloadLength] + body;
    assert (data + [Crc(data)])[..12] == data;
    data + [Crc(data)]
  }

  /** `createRequestData`: the request for `cmd`, i.e. start byte, the
      UART connection class, the command byte, length 8, eight zero bytes
      and a checksum that only depends on the command byte. */
  function CreateRequestData(cmd: Command): (r: seq<byte>)
    ensures |r| == FrameLength
    ensures r[0] == 0xA5 && r[1] == 0x40 && r[2] == CommandByte(cmd) && r[3] == 8
    ensures forall i | 4 <= i < 12 :: r[i] == 0
    ensures r[12] == (0xED + CommandByte(cmd)) % 256
  {
    var r := EncodeFrame(CodeOfCommand(cmd), ConnectionRaw(Connection), ZeroPayload());
    var header: seq<byte> := [0xA5, 0x40, CommandByte(cmd), 8];
    assert r[..12] == header + ZeroPayload();
    SumConcat(header, ZeroPayload());
    assert Sum(header) == 0xA5 + Sum(header[1..]);
    assert Sum(header[1..]) == 0x40 + Sum(header[2..]);
    assert Sum(header[2..]) == CommandByte(cmd) + Sum(header[3..]);
    SumZero(ZeroPayload());
    r
  }

  /** The sum of a concatenation is the sum of the sums. */
  lemma {:induction false} SumConcat(a: seq<byte>, b: seq<byte>)
    ensures Sum(a + b) == Sum(a) + Sum(b)
  {
    if a == [] {
      assert a + b == b;
    } else {
      assert (a + b)[1..] == a[1..] + b;
      SumConcat(a[1..], b);
    }
  }

  /** Zero bytes add nothing to the sum. */
  lemma {:induction false} SumZero(z: seq<byte>)
    requires forall i | 0 <= i < |z| :: z[i] == 0
    ensures Sum(z) == 0
  {
    if z != [] {
      SumZero(z[1..]);
    }
  }

  /** A frame decoded by `extractFrame`. The payload is everything after
      the four header bytes, so it ends with the checksum byte. */
  datatype Frame = Frame(command: Code, address: byte, payload: seq<byte>)

  /** `extractFrame`: checks the length, then the checksum, then the start
      byte, command code and payload length field, in this order. */
  function ExtractFrame(data: seq<byte>): (r: Result<Frame, DalyError>)
    ensures r == Failure(InvalidResponseLength) <==> |data| != FrameLength
    ensures r == Failure(CrcMismatch)
            <==> |data| == FrameLength && data[12] != Sum(data[..12]) % 256
    ensures r == Failure(HeaderMismatch)
            <==> && |data| == FrameLength && data[12] == Sum(data[..12]) % 256
                 && (data[0] != StartByte || !IsValid(data[2]) || data[3] != PayloadLength)
    ensures r.Success? ==>
              && |data| == FrameLength
              && CodeByte(r.value.command) == data[2]
              && r.value.address == data[1]
              && r.value.payload == data[4..]
              && |r.value.payload| == 9
  {
    if |data| != FrameLength then Failure(InvalidResponseLength)
    else if Crc(data[..FrameLength - 1]) != data[|data| - 1] then Failure(CrcMismatch)
    else
      var payloadLength := |data| - 5;
      var code := CodeOf(data[2]);
      if data[0] != StartByte || code.None? || data[3] != payloadLength then Failure(HeaderMismatch)
      else Success(Frame(code.value, data[1], data[4..]))
  }

  /** Every encoded frame decodes to its parts; the payload carries the
      checksum as its ninth byte. */
  lemma ExtractEncoded(code: Code, address: byte, body: seq<byte>)
    requires |body| == 8
    ensures var f := EncodeFrame(code, address, body);
            ExtractFrame(f) == Success(Frame(code, address, body + [f[12]]))
  {
    var f := EncodeFrame(code, address, body);
    CodeRoundTrip(code);
    assert f[4..] == body + [f[12]];
  }

  /** Conversely, every frame `extractFrame` accepts is the encoding of its
      own code, address and first eight payload bytes. */
  lemma ExtractedIsEncoded(data: seq<byte>)
    requires ExtractFrame(data).Success?
    ensures var f := ExtractFrame(data).value;
            data == EncodeFrame(f.command, f.address, data[4..12])
  {
    var f := ExtractFrame(data).value;
    var e := EncodeFrame(f.command, f.address, data[4..12]);
    assert e[..12] == data[..12];
    assert data == data[..12] + [data[12]];
    assert e == e[..12] + [e[12]];
  }

  /** Decoding the client's own request gives back the command code, the
      connection address and the zero payload. */
  lemma RequestRoundTrip(cmd: Command)
    ensures var r := CreateRequestData(cmd);
            ExtractFrame(r) == Success(Frame(CodeOfCommand(cmd), 0x40, ZeroPayload() + [r[12]]))
  {
    ExtractEncoded(CodeOfCommand(cmd), ConnectionRaw(Connection), ZeroPayload());
  }

  /** Replacing the checksum of an accepted frame by any other byte is
      always caught as a checksum mismatch. */
  lemma CorruptedChecksumRejected(data: seq<byte>, b: byte)
    requires ExtractFrame(data).Success?
    requires b != data[12]
    ensures ExtractFrame(data[12 := b]) == Failure(CrcMismatch)
  {
    assert data[12 := b][..12] == data[..12];
  }

  /** `extractBMSFrame`: `extractFrame`, then the responding address must
      be the configured BMS address. */
  function ExtractBMSFrame(data: seq<byte>, bmsAddress: byte): (r: Result<(Code, seq<byte>), DalyError>)
    ensures r.Success? <==> ExtractFrame(data).Success? && ExtractFrame(data).value.address == bmsAddress
    ensures ExtractFrame(data).Failure? ==> r == Failure(ExtractFrame(data).error)
    ensures ExtractFrame(data).Success? && data[1] != bmsAddress ==> r == Failure(HeaderMismatch)
    ensures r.Success? ==> |data| == FrameLength && data[1] == bmsAddress
    ensures r.Success? ==> CodeByte(r.value.0) == data[2] && r.value.1 == data[4..] && |r.value.1| == 9
  {
    var frame :- ExtractFrame(data);
    if frame.address != bmsAddress then Failure(HeaderMismatch)
    else Success((frame.command, frame.payload))
  }
}
