/** The client: one request per call (preceded by a status request when a
    count is not cached yet), the reply cut into frames and decoded. The
    serial port is a parameter: it maps the request written and the number
    of bytes asked for to what the port reports. */
module Client {
  import opened Wrappers
  import opened ByteCodec
  import C = Commands
  import opened FrameCodec
  import opened ResponseSplit
  import opened Reassembly
  import opened CellData
  import SI = StatusInformationResponse
  import SOC = StateOfChargeResponse
  import CVL = CellVoltageLimitsResponse
  import CTL = CellTemperatureLimitsResponse
  import FS = FailureStatusResponse

  /** One write-then-read exchange: the number of request bytes the port
      accepted, and the bytes read back. */
  datatype Exchange = Exchange(written: nat, read: seq<byte>)

  /** The serial port: the exchange that follows writing `request` and
      asking for `expected` bytes. */
  type Port = (seq<byte>, nat) -> Exchange

  /** The client's state: the BMS address and the two counts a status
      response caches. */
  datatype DalyClient = DalyClient(bmsAddress: byte, cellCount: Option<nat>, cellTemperatureCount: Option<nat>)

  /** A freshly created client has nothing cached. */
  function NewClient(bmsAddress: byte): (c: DalyClient)
    ensures c.bmsAddress == bmsAddress && c.cellCount.None? && c.cellTemperatureCount.None?
  {
    DalyClient(bmsAddress, None, None)
  }

  /** What a call yields: its result, and the requests it wrote, in order. */
  datatype Reply<T> = Reply(result: Result<T, DalyError>, sent: seq<seq<byte>>)

  /** A call that may update the cache: the client afterwards as well. */
  datatype Outcome<T> = Outcome(client: DalyClient, result: Result<T, DalyError>, sent: seq<seq<byte>>)

  /** The exchange a command causes: its request, and `frameCount * 13`
      bytes asked for. */
  function Ask(port: Port, cmd: C.Command): (e: Exchange)
  {
    port(CreateRequestData(cmd), C.FrameCount(cmd) * FrameLength)
  }

  /** `requestFrames`: write the request, fail if not all 13 bytes went
      out, then cut the read into `frameCount` frames from the BMS that all
      answer `cmd`, returning their payloads in read order. */
  function RequestFrames(bmsAddress: byte, port: Port, cmd: C.Command): (r: Reply<seq<seq<byte>>>)
    ensures r.sent == [CreateRequestData(cmd)]
    ensures Ask(port, cmd).written != 13 ==> r.result == Failure(FailedToTransmitRequest)
    ensures r.result.Success? <==>
              && Ask(port, cmd).written == 13
              && forall i | 0 <= i < C.FrameCount(cmd) :: AnswersAt(Ask(port, cmd).read, i, bmsAddress, cmd)
    ensures r.result.Success? ==>
              var read := Ask(port, cmd).read;
              && |r.result.value| == C.FrameCount(cmd)
              && 13 * C.FrameCount(cmd) <= |read|
              && forall i | 0 <= i < C.FrameCount(cmd) ::
                   r.result.value[i] == read[13 * i + 4..13 * i + 13] && |r.result.value[i]| == 9
  {
    var request := CreateRequestData(cmd);
    var exchange := port(request, C.FrameCount(cmd) * FrameLength);
    if exchange.written != |request| then Reply(Failure(FailedToTransmitRequest), [request])
    else Reply(SplitResponse(cmd, bmsAddress, exchange.read), [request])
  }

  /** `requestFrame`: the first payload of a one-frame command. */
  function RequestFrame(bmsAddress: byte, port: Port, cmd: C.Command): (r: Reply<seq<byte>>)
    requires C.FrameCount(cmd) == 1
    ensures r.sent == [CreateRequestData(cmd)]
    ensures r.result.Success? <==> RequestFrames(bmsAddress, port, cmd).result.Success?
    ensures r.result.Failure? ==> r.result.error == RequestFrames(bmsAddress, port, cmd).result.error
    ensures r.result.Success? ==>
              var read := Ask(port, cmd).read;
              && |read| >= 13 && r.result.value == read[4..13]
              && read[0] == StartByte && read[1] == bmsAddress && read[2] == C.CommandByte(cmd)
  {
    var frames := RequestFrames(bmsAddress, port, cmd);
    if frames.result.Failure? then Reply(Failure(frames.result.error), frames.sent)
    else
      var read := Ask(port, cmd).read;
      assert AnswersAt(read, 0, bmsAddress, cmd);
      Reply(Success(frames.result.value[0]), frames.sent)
  }

  /** `getStatus`: on success both counts are cached from the response;
      on failure the client is left as it was. */
  function GetStatus(c: DalyClient, port: Port): (o: Outcome<SI.StatusInformation>)
    ensures o.sent == [CreateRequestData(C.Command.Status)]
    ensures o.client.bmsAddress == c.bmsAddress
    ensures o.result.Success? <==> RequestFrame(c.bmsAddress, port, C.Command.Status).result.Success?
    ensures o.result.Failure? ==> o.client == c
    ensures o.result.Failure? ==> o.result.error == RequestFrame(c.bmsAddress, port, C.Command.Status).result.error
    ensures o.result.Success? ==>
              var read := Ask(port, C.Command.Status).read;
              && |read| >= 13
              && o.result.value == SI.DecodeStatusInformation(read[4..13])
              && o.result.value.cellCount == read[4]
              && o.result.value.temperatureSensorCount == read[5]
              && o.client == c.(cellCount := Some(read[4]), cellTemperatureCount := Some(read[5]))
  {
    var frame := RequestFrame(c.bmsAddress, port, C.Command.Status);
    if frame.result.Failure? then Outcome(c, Failure(frame.result.error), frame.sent)
    else
      var status := SI.DecodeStatusInformation(frame.result.value);
      Outcome(c.(cellCount := Some(status.cellCount), cellTemperatureCount := Some(status.temperatureSensorCount)),
              Success(status), frame.sent)
  }

  /** `getCellCount`: the cached count if there is one, with no request
      written; otherwise the count of a fresh status response. */
  function GetCellCount(c: DalyClient, port: Port): (o: Outcome<nat>)
    ensures c.cellCount.Some? ==> o == Outcome(c, Success(c.cellCount.value), [])
    ensures c.cellCount.None? ==>
              var status := GetStatus(c, port);
              && o.sent == [CreateRequestData(C.Command.Status)]
              && o.client == status.client
              && (o.result.Success? <==> status.result.Success?)
              && (o.result.Success? ==> o.result.value == status.result.value.cellCount && o.result.value < 256)
              && (o.result.Failure? ==> o.result.error == status.result.error)
    ensures o.result.Success? ==> o.client.cellCount == Some(o.result.value)
    ensures o.result.Failure? ==> o.client == c
    ensures o.client.bmsAddress == c.bmsAddress
  {
    if c.cellCount.Some? then Outcome(c, Success(c.cellCount.value), [])
    else
      var status := GetStatus(c, port);
      if status.result.Failure? then Outcome(status.client, Failure(status.result.error), status.sent)
      else Outcome(status.client, Success(status.result.value.cellCount), status.sent)
  }

  /** `getCellTemperatureCount`: as `GetCellCount`, for the sensor count. */
  function GetCellTemperatureCount(c: DalyClient, port: Port): (o: Outcome<nat>)
    ensures c.cellTemperatureCount.Some? ==> o == Outcome(c, Success(c.cellTemperatureCount.value), [])
    ensures c.cellTemperatureCount.None? ==>
              var status := GetStatus(c, port);
              && o.sent == [CreateRequestData(C.Command.Status)]
              && o.client == status.client
              && (o.result.Success? <==> status.result.Success?)
              && (o.result.Success? ==> o.result.value == status.result.value.temperatureSensorCount && o.result.value < 256)
              && (o.result.Failure? ==> o.result.error == status.result.error)
    ensures o.result.Success? ==> o.client.cellTemperatureCount == Some(o.result.value)
    ensures o.result.Failure? ==> o.client == c
    ensures o.client.bmsAddress == c.bmsAddress
  {
    if c.cellTemperatureCount.Some? then Outcome(c, Success(c.cellTemperatureCount.value), [])
    else
      var status := GetStatus(c, port);
      if status.result.Failure? then Outcome(status.client, Failure(status.result.error), status.sent)
      else Outcome(status.client, Success(status.result.value.temperatureSensorCount), status.sent)
  }

  /** After a successful status request both counts are cached, so a later
      count lookup writes nothing and returns the status response's value. */
  lemma StatusCachesCounts(c: DalyClient, port: Port, other: Port)
    requires GetStatus(c, port).result.Success?
    ensures var o := GetStatus(c, port);
            && GetCellCount(o.client, other) == Outcome(o.client, Success(o.result.value.cellCount), [])
            && GetCellTemperatureCount(o.client, other)
               == Outcome(o.client, Success(o.result.value.temperatureSensorCount), [])
  {
  }

  /** Each of the `n` voltages is the scaled big-endian pair at data bytes
      `2 * (i % 3)` and `2 * (i % 3) + 1` of the frame whose id is `i / 3 + 1`
      (data bytes follow the id byte). */
  predicate VoltagesFrom(frames: seq<seq<byte>>, n: nat, values: seq<real>)
    requires forall i | 0 <= i < |frames| :: |frames[i]| == 9
  {
    && |values| == n
    && forall i | 0 <= i < n :: VoltageAt(frames, i, values[i])
  }

  /** Voltage `i` is `v`: the scaled pair at data bytes `2 * (i % 3)` and
      `2 * (i % 3) + 1` of the frame whose id is `i / 3 + 1`. */
  predicate VoltageAt(frames: seq<seq<byte>>, i: nat, v: real)
    requires forall i | 0 <= i < |frames| :: |frames[i]| == 9
  {
    exists j | 0 <= j < |frames| ::
      && frames[j][0] == i / 3 + 1
      && v == Scaled(frames[j][1 + 2 * (i % 3)], frames[j][2 + 2 * (i % 3)], 0.001)
  }

  /** Each of the `n` temperatures is byte `i % w`, minus 40, of the
      frame whose id is `i / w + 1`, counting bytes after the id byte.
      The source reads `w = 8` bytes per frame, the last being the frame
      checksum; the intended reading is `w = 7`. */
  predicate TemperaturesFrom(frames: seq<seq<byte>>, n: nat, w: nat, values: seq<real>)
    requires 0 < w <= 8
    requires forall i | 0 <= i < |frames| :: |frames[i]| == 9
  {
    && |values| == n
    && forall i | 0 <= i < n :: TemperatureAt(frames, w, i, values[i])
  }

  /** Temperature `i` is `v`: byte `i % w` after the id, minus 40, of the
      frame whose id is `i / w + 1`. */
  predicate TemperatureAt(frames: seq<seq<byte>>, w: nat, i: nat, v: real)
    requires 0 < w <= 8
    requires forall i | 0 <= i < |frames| :: |frames[i]| == 9
  {
    exists j | 0 <= j < |frames| :: frames[j][0] == i / w + 1 && v == OffsetByte(frames[j][1 + i % w], 40.0)
  }

  /** Every reassembled chunk is one of the payloads without its id byte,
      so chunks are one byte shorter than the payloads. */
  lemma ReassembledLengths(frames: seq<seq<byte>>, w: nat)
    requires AllTagged(frames) && Reassemble(frames).Success?
    requires forall i | 0 <= i < |frames| :: |frames[i]| == w + 1
    ensures forall k | 0 <= k < |frames| :: |Reassemble(frames).value[k]| == w
  {
    forall k | 0 <= k < |frames|
      ensures |Reassemble(frames).value[k]| == w
    {
      var j := SlotSource(frames, k);
    }
  }

  /** Voltage `i` is read from data bytes `2 * (i % 3)` and `2 * (i % 3) + 1`
      of the frame whose id is `i / 3 + 1`, wherever that frame was read. */
  lemma VoltageSources(frames: seq<seq<byte>>, chunks: seq<seq<byte>>, n: nat, values: seq<real>)
    requires AllTagged(frames) && Sourced(frames, chunks)
    requires forall i | 0 <= i < |frames| :: |frames[i]| == 9
    requires forall k | 0 <= k < |chunks| :: |chunks[k]| == 8
    requires |values| == n
    requires forall i | 0 <= i < n ::
               && i / 3 < |chunks|
               && values[i] == Scaled(chunks[i / 3][2 * (i % 3)], chunks[i / 3][2 * (i % 3) + 1], 0.001)
    ensures VoltagesFrom(frames, n, values)
  {
    forall i | 0 <= i < n
      ensures VoltageAt(frames, i, values[i])
    {
      var j := SourceOf(frames, chunks, i / 3);
      assert chunks[i / 3][2 * (i % 3)] == frames[j][1 + 2 * (i % 3)];
      assert chunks[i / 3][2 * (i % 3) + 1] == frames[j][2 + 2 * (i % 3)];
    }
  }

  /** Temperature `i` is byte `i % w` after the id of the frame whose id
      is `i / w + 1`, when it is byte `i % w` of reassembled chunk `i / w`. */
  lemma TemperatureSources(frames: seq<seq<byte>>, chunks: seq<seq<byte>>, n: nat, w: nat, values: seq<real>)
    requires 0 < w <= 8
    requires AllTagged(frames) && Sourced(frames, chunks)
    requires forall i | 0 <= i < |frames| :: |frames[i]| == 9
    requires forall k | 0 <= k < |chunks| :: |chunks[k]| == 8
    requires |values| == n
    requires forall i | 0 <= i < n ::
               i / w < |chunks| && values[i] == OffsetByte(chunks[i / w][i % w], 40.0)
    ensures TemperaturesFrom(frames, n, w, values)
  {
    forall i | 0 <= i < n
      ensures TemperatureAt(frames, w, i, values[i])
    {
      var k, m := i / w, i % w;
      var j := SourceOf(frames, chunks, k);
      assert chunks[k][m] == frames[j][1 + m];
      assert frames[j][0] == i / w + 1 && values[i] == OffsetByte(frames[j][1 + i % w], 40.0);
    }
  }

  /** The decoding half of `getCellVoltages`: reassemble the payloads by
      id, keep six data bytes per frame and read `n` big-endian millivolt
      values. With enough frames it fails only on bad ids. */
  function DecodeVoltageFrames(frames: seq<seq<byte>>, n: nat): (r: Result<seq<real>, DalyError>)
    requires forall i | 0 <= i < |frames| :: |frames[i]| == 9
    requires 3 * |frames| >= n
    ensures AllTagged(frames)
    ensures r.Success? <==> Reassemble(frames).Success?
    ensures r.Failure? ==> r.error == IncompleteFrames
    ensures r.Success? ==> VoltagesFrom(frames, n, r.value)
  {
    var chunks := Reassemble(frames);
    if chunks.Failure? then Failure(chunks.error)
    else
      ReassembledLengths(frames, 8);
      var voltages := CellVoltages(chunks.value, n);
      ReassembledSourced(frames);
      VoltageSources(frames, chunks.value, n, voltages.value);
      voltages
  }

  /** The decoding half of `getCellTemperatures` as the source writes it:
      the reassembled chunks are concatenated whole, eight bytes each, so
      the eighth byte of every chunk (the frame checksum) is read as a
      temperature. */
  function DecodeTemperatureFrames(frames: seq<seq<byte>>, n: nat): (r: Result<seq<real>, DalyError>)
    requires forall i | 0 <= i < |frames| :: |frames[i]| == 9
    requires 7 * |frames| >= n
    ensures AllTagged(frames)
    ensures r.Success? <==> Reassemble(frames).Success?
    ensures r.Failure? ==> r.error == IncompleteFrames
    ensures r.Success? ==> TemperaturesFrom(frames, n, 8, r.value)
  {
    var chunks := Reassemble(frames);
    if chunks.Failure? then Failure(chunks.error)
    else
      ReassembledLengths(frames, 8);
      ConcatIsFlatten(chunks.value, 8);
      var temperatures := CellTemperaturesAsWritten(chunks.value, n);
      ReassembledSourced(frames);
      TemperatureSources(frames, chunks.value, n, 8, temperatures.value);
      temperatures
  }

  /** The decoding half of `getCellTemperatures` as intended: the seven
      data bytes of each frame, the checksum left out. */
  function DecodeTemperatureFramesIntended(frames: seq<seq<byte>>, n: nat): (r: Result<seq<real>, DalyError>)
    requires forall i | 0 <= i < |frames| :: |frames[i]| == 9
    requires 7 * |frames| >= n
    ensures AllTagged(frames)
    ensures r.Success? <==> Reassemble(frames).Success?
    ensures r.Failure? ==> r.error == IncompleteFrames
    ensures r.Success? ==> TemperaturesFrom(frames, n, 7, r.value)
  {
    var chunks := Reassemble(frames);
    if chunks.Failure? then Failure(chunks.error)
    else
      ReassembledLengths(frames, 8);
      var temperatures := CellTemperatures(chunks.value, n);
      ReassembledSourced(frames);
      TemperatureSources(frames, chunks.value, n, 7, temperatures.value);
      temperatures
  }

  /** `getCellVoltages`: the cell count (cached, or from a status request),
      then one voltage request whose frames are reassembled by id. Because
      `frameCount` frames always hold `2 * n` voltage bytes, the call fails
      only when the count, the request or the reassembly does, with that
      step's error. */
  function GetCellVoltages(c: DalyClient, port: Port): (o: Outcome<seq<real>>)
    ensures o.client.bmsAddress == c.bmsAddress
    ensures c.cellCount.Some? ==>
              o.client == c && o.sent == [CreateRequestData(C.Command.CellVoltages(c.cellCount.value))]
    ensures c.cellCount.None? ==> |o.sent| >= 1 && o.sent[0] == CreateRequestData(C.Command.Status)
    ensures var count := GetCellCount(c, port);
            && o.client == count.client
            && (count.result.Failure? ==> o.result == Failure(count.result.error) && o.sent == count.sent)
            && (count.result.Success? ==>
                  var frames := RequestFrames(c.bmsAddress, port, C.Command.CellVoltages(count.result.value));
                  && o.sent == count.sent + frames.sent
                  && (frames.result.Failure? ==> o.result == Failure(frames.result.error))
                  && (frames.result.Success? ==>
                        && AllTagged(frames.result.value)
                        && (o.result.Success? <==> Reassemble(frames.result.value).Success?)
                        && (o.result.Failure? ==> o.result.error == IncompleteFrames)))
    ensures o.result.Success? ==>
              && o.client.cellCount.Some?
              && var n := o.client.cellCount.value;
                 var frames := RequestFrames(c.bmsAddress, port, C.Command.CellVoltages(n)).result;
                 && frames.Success?
                 && Reassemble(frames.value).Success?
                 && VoltagesFrom(frames.value, n, o.result.value)
  {
    var count := GetCellCount(c, port);
    if count.result.Failure? then Outcome(count.client, Failure(count.result.error), count.sent)
    else
      var n := count.result.value;
      var frames := RequestFrames(c.bmsAddress, port, C.Command.CellVoltages(n));
      if frames.result.Failure? then Outcome(count.client, Failure(frames.result.error), count.sent + frames.sent)
      else
        C.FrameCapacity(n);
        var decoded := DecodeVoltageFrames(frames.result.value, n);
        assert count.client.cellCount == Some(n);
        Outcome(count.client, decoded, count.sent + frames.sent)
  }

  /** `getCellTemperatures` as the source writes it: the sensor count
      (cached, or from a status request), one temperature request, the
      frames reassembled by id and read eight bytes per frame. */
  function GetCellTemperatures(c: DalyClient, port: Port): (o: Outcome<seq<real>>)
    ensures o.client.bmsAddress == c.bmsAddress
    ensures c.cellTemperatureCount.Some? ==>
              && o.client == c
              && o.sent == [CreateRequestData(C.Command.Temperatures(c.cellTemperatureCount.value))]
    ensures c.cellTemperatureCount.None? ==> |o.sent| >= 1 && o.sent[0] == CreateRequestData(C.Command.Status)
    ensures var count := GetCellTemperatureCount(c, port);
            && o.client == count.client
            && (count.result.Failure? ==> o.result == Failure(count.result.error) && o.sent == count.sent)
            && (count.result.Success? ==>
                  var frames := RequestFrames(c.bmsAddress, port, C.Command.Temperatures(count.result.value));
                  && o.sent == count.sent + frames.sent
                  && (frames.result.Failure? ==> o.result == Failure(frames.result.error))
                  && (frames.result.Success? ==>
                        && AllTagged(frames.result.value)
                        && (o.result.Success? <==> Reassemble(frames.result.value).Success?)
                        && (o.result.Failure? ==> o.result.error == IncompleteFrames)))
    ensures o.result.Success? ==>
              && o.client.cellTemperatureCount.Some?
              && var n := o.client.cellTemperatureCount.value;
                 var frames := RequestFrames(c.bmsAddress, port, C.Command.Temperatures(n)).result;
                 && frames.Success?
                 && Reassemble(frames.value).Success?
                 && TemperaturesFrom(frames.value, n, 8, o.result.value)
  {
    var count := GetCellTemperatureCount(c, port);
    if count.result.Failure? then Outcome(count.client, Failure(count.result.error), count.sent)
    else
      var n := count.result.value;
      var frames := RequestFrames(c.bmsAddress, port, C.Command.Temperatures(n));
      if frames.result.Failure? then Outcome(count.client, Failure(frames.result.error), count.sent + frames.sent)
      else
        C.FrameCapacity(n);
        var decoded := DecodeTemperatureFrames(frames.result.value, n);
        assert count.client.cellTemperatureCount == Some(n);
        Outcome(count.client, decoded, count.sent + frames.sent)
  }

  /** `getCellTemperatures` as intended: the same requests, with seven data
      bytes read per frame (see Findings). */
  function GetCellTemperaturesIntended(c: DalyClient, port: Port): (o: Outcome<seq<real>>)
    ensures var written := GetCellTemperatures(c, port);
            && o.client == written.client && o.sent == written.sent
            && (o.result.Success? <==> written.result.Success?)
            && (o.result.Failure? ==> o.result.error == written.result.error)
    ensures o.result.Success? ==>
              && o.client.cellTemperatureCount.Some?
              && var n := o.client.cellTemperatureCount.value;
                 var frames := RequestFrames(c.bmsAddress, port, C.Command.Temperatures(n)).result;
                 && frames.Success?
                 && Reassemble(frames.value).Success?
                 && TemperaturesFrom(frames.value, n, 7, o.result.value)
  {
    var count := GetCellTemperatureCount(c, port);
    if count.result.Failure? then Outcome(count.client, Failure(count.result.error), count.sent)
    else
      var n := count.result.value;
      var frames := RequestFrames(c.bmsAddress, port, C.Command.Temperatures(n));
      if frames.result.Failure? then Outcome(count.client, Failure(frames.result.error), count.sent + frames.sent)
      else
        C.FrameCapacity(n);
        var decoded := DecodeTemperatureFramesIntended(frames.result.value, n);
        assert count.client.cellTemperatureCount == Some(n);
        Outcome(count.client, decoded, count.sent + frames.sent)
  }

  /** `getCellBalanceState` as the source writes it: the cell count, one
      balance request, and the guard `frame.count * 8 >= cellCount` on the
      nine-byte payload, so up to 72 cells pass and cells 64..71 are the
      bits of the frame checksum (frame byte 12). */
  function GetCellBalanceState(c: DalyClient, port: Port): (o: Outcome<seq<bool>>)
    ensures o.client.bmsAddress == c.bmsAddress
    ensures c.cellCount.Some? ==> o.client == c && o.sent == [CreateRequestData(C.Command.BalanceStates)]
    ensures c.cellCount.None? ==> |o.sent| >= 1 && o.sent[0] == CreateRequestData(C.Command.Status)
    ensures var count := GetCellCount(c, port);
            && o.client == count.client
            && (count.result.Failure? ==> o.result == Failure(count.result.error) && o.sent == count.sent)
            && (count.result.Success? ==>
                  var frame := RequestFrame(c.bmsAddress, port, C.Command.BalanceStates);
                  && o.sent == count.sent + frame.sent
                  && (frame.result.Failure? ==> o.result == Failure(frame.result.error))
                  && (frame.result.Success? ==>
                        && (o.result.Success? <==> count.result.value <= 72)
                        && (o.result.Failure? ==> o.result.error == InvalidResponseLength)))
    ensures o.result.Success? ==>
              && o.client.cellCount.Some?
              && o.client.cellCount.value <= 72
              && var n := o.client.cellCount.value;
                 var read := Ask(port, C.Command.BalanceStates).read;
                 && |read| >= 13
                 && |o.result.value| == n
                 && BitsFrom(read[4..13], o.result.value)
  {
    var count := GetCellCount(c, port);
    if count.result.Failure? then Outcome(count.client, Failure(count.result.error), count.sent)
    else
      var frame := RequestFrame(c.bmsAddress, port, C.Command.BalanceStates);
      if frame.result.Failure? then Outcome(count.client, Failure(frame.result.error), count.sent + frame.sent)
      else
        var n := count.result.value;
        var bits := BalanceStatesAsWritten(frame.result.value, n);
        BalanceBitsFromRead(c.bmsAddress, port, n);
        assert count.client.cellCount == Some(n);
        Outcome(count.client, bits, count.sent + frame.sent)
  }

  /** The as-written balance decoding of an accepted frame admits up to 72
      cells, and cell `i` is bit `i % 8` of frame byte `4 + i / 8`, that is
      of payload byte `i / 8`. */
  lemma BalanceBitsFromRead(bmsAddress: byte, port: Port, n: nat)
    requires RequestFrame(bmsAddress, port, C.Command.BalanceStates).result.Success?
    ensures var frame := RequestFrame(bmsAddress, port, C.Command.BalanceStates).result.value;
            var bits := BalanceStatesAsWritten(frame, n);
            var read := Ask(port, C.Command.BalanceStates).read;
            && |read| >= 13
            && (bits.Success? <==> n <= 72)
            && (bits.Success? ==> BitsFrom(read[4..13], bits.value))
  {
    var frame := RequestFrame(bmsAddress, port, C.Command.BalanceStates).result.value;
    var read := Ask(port, C.Command.BalanceStates).read;
    assert frame == read[4..13] && |frame| == 9;
    var bits := BalanceStatesAsWritten(frame, n);
  }

  /** Balance bit `i` is bit `i % 8` of byte `i / 8`. */
  predicate BitsFrom(bytes: seq<byte>, bits: seq<bool>) {
    forall i | 0 <= i < |bits| :: i / 8 < |bytes| && bits[i] == Bit(bytes[i / 8], i % 8)
  }

  /** `getCellBalanceState` as intended: balance bits only from the eight
      data bytes, so more than 64 cells is a length error (see Findings). */
  function GetCellBalanceStateIntended(c: DalyClient, port: Port): (o: Outcome<seq<bool>>)
    ensures var written := GetCellBalanceState(c, port);
            && o.client == written.client && o.sent == written.sent
            && (o.result.Success? <==> written.result.Success? && o.client.cellCount.value <= 64)
            && (o.result.Failure? && written.result.Failure? ==> o.result.error == written.result.error)
            && (o.result.Failure? && written.result.Success? ==> o.result.error == InvalidResponseLength)
            && (o.result.Success? ==> o.result.value == written.result.value)
  {
    var count := GetCellCount(c, port);
    if count.result.Failure? then Outcome(count.client, Failure(count.result.error), count.sent)
    else
      var frame := RequestFrame(c.bmsAddress, port, C.Command.BalanceStates);
      if frame.result.Failure? then Outcome(count.client, Failure(frame.result.error), count.sent + frame.sent)
      else Outcome(count.client, BalanceStates(frame.result.value, count.result.value), count.sent + frame.sent)
  }

  /** With eight or more sensors, the source's eighth temperature is the
      last payload byte (the frame checksum) of the frame with id 1, minus
      40, where the intended reading takes the first data byte of the frame
      with id 2. Both decodings succeed on the same frames. */
  lemma EighthTemperatureFromChecksum(frames: seq<seq<byte>>, n: nat)
    requires forall i | 0 <= i < |frames| :: |frames[i]| == 9
    requires 8 <= n <= 7 * |frames|
    requires DecodeTemperatureFrames(frames, n).Success?
    ensures DecodeTemperatureFramesIntended(frames, n).Success?
    ensures exists j | 0 <= j < |frames| ::
              frames[j][0] == 1 && DecodeTemperatureFrames(frames, n).value[7] == OffsetByte(frames[j][8], 40.0)
    ensures exists j | 0 <= j < |frames| ::
              frames[j][0] == 2 && DecodeTemperatureFramesIntended(frames, n).value[7] == OffsetByte(frames[j][1], 40.0)
  {
    var written := DecodeTemperatureFrames(frames, n).value;
    var j := TemperatureFrame(frames, n, 8, written, 7);
    var intended := DecodeTemperatureFramesIntended(frames, n).value;
    var j' := TemperatureFrame(frames, n, 7, intended, 7);
  }

  /** The frame temperature `i` was read from. */
  lemma TemperatureFrame(frames: seq<seq<byte>>, n: nat, w: nat, values: seq<real>, i: nat) returns (j: nat)
    requires 0 < w <= 8
    requires forall i | 0 <= i < |frames| :: |frames[i]| == 9
    requires TemperaturesFrom(frames, n, w, values) && i < n
    ensures j < |frames| && frames[j][0] == i / w + 1 && values[i] == OffsetByte(frames[j][1 + i % w], 40.0)
  {
    assert TemperatureAt(frames, w, i, values[i]);
    j :| 0 <= j < |frames| && frames[j][0] == i / w + 1 && values[i] == OffsetByte(frames[j][1 + i % w], 40.0);
  }

  /** `getStateOfCharge`: one frame, decoded from payload bytes 0..7, i.e.
      bytes 4..11 of the frame read; the checksum byte is ignored. */
  function GetStateOfCharge(c: DalyClient, port: Port): (r: Reply<SOC.StateOfCharge>)
    ensures r.sent == [CreateRequestData(C.Command.StateOfCharge)]
    ensures r.result.Success? <==> RequestFrame(c.bmsAddress, port, C.Command.StateOfCharge).result.Success?
    ensures r.result.Failure? ==> r.result.error == RequestFrame(c.bmsAddress, port, C.Command.StateOfCharge).result.error
    ensures r.result.Success? ==>
              var read := Ask(port, C.Command.StateOfCharge).read;
              |read| >= 13 && r.result.value == SOC.DecodeStateOfCharge(read[4..12])
  {
    var frame := RequestFrame(c.bmsAddress, port, C.Command.StateOfCharge);
    if frame.result.Failure? then Reply(Failure(frame.result.error), frame.sent)
    else
      var read := Ask(port, C.Command.StateOfCharge).read;
      SOC.DecodeStateOfChargeInjective(frame.result.value, read[4..12]);
      Reply(Success(SOC.DecodeStateOfCharge(frame.result.value)), frame.sent)
  }

  /** `getCellVoltageLimits`: one frame, decoded from bytes 4..9 of the frame read. */
  function GetCellVoltageLimits(c: DalyClient, port: Port): (r: Reply<CVL.CellVoltageLimits>)
    ensures r.sent == [CreateRequestData(C.Command.CellVoltageLimits)]
    ensures r.result.Success? <==> RequestFrame(c.bmsAddress, port, C.Command.CellVoltageLimits).result.Success?
    ensures r.result.Failure? ==> r.result.error == RequestFrame(c.bmsAddress, port, C.Command.CellVoltageLimits).result.error
    ensures r.result.Success? ==>
              var read := Ask(port, C.Command.CellVoltageLimits).read;
              |read| >= 13 && r.result.value == CVL.DecodeCellVoltageLimits(read[4..10])
  {
    var frame := RequestFrame(c.bmsAddress, port, C.Command.CellVoltageLimits);
    if frame.result.Failure? then Reply(Failure(frame.result.error), frame.sent)
    else
      var read := Ask(port, C.Command.CellVoltageLimits).read;
      CVL.DecodeCellVoltageLimitsInjective(frame.result.value, read[4..10]);
      Reply(Success(CVL.DecodeCellVoltageLimits(frame.result.value)), frame.sent)
  }

  /** `getCellTemperatureLimits`: one frame, decoded from bytes 4..7 of the frame read. */
  function GetCellTemperatureLimits(c: DalyClient, port: Port): (r: Reply<CTL.CellTemperatureLimits>)
    ensures r.sent == [CreateRequestData(C.Command.CellTemperatureLimits)]
    ensures r.result.Success? <==> RequestFrame(c.bmsAddress, port, C.Command.CellTemperatureLimits).result.Success?
    ensures r.result.Failure? ==> r.result.error == RequestFrame(c.bmsAddress, port, C.Command.CellTemperatureLimits).result.error
    ensures r.result.Success? ==>
              var read := Ask(port, C.Command.CellTemperatureLimits).read;
              |read| >= 13 && r.result.value == CTL.DecodeCellTemperatureLimits(read[4..8])
  {
    var frame := RequestFrame(c.bmsAddress, port, C.Command.CellTemperatureLimits);
    if frame.result.Failure? then Reply(Failure(frame.result.error), frame.sent)
    else
      var read := Ask(port, C.Command.CellTemperatureLimits).read;
      CTL.DecodeCellTemperatureLimitsInjective(frame.result.value, read[4..8]);
      Reply(Success(CTL.DecodeCellTemperatureLimits(frame.result.value)), frame.sent)
  }

  /** `getFailures`: one frame; a named fault is reported exactly when its
      bit is set in its payload byte, and the fault code is payload byte 7. */
  function GetFailures(c: DalyClient, port: Port): (r: Reply<FS.FailureStatus>)
    ensures r.sent == [CreateRequestData(C.Command.Failures)]
    ensures r.result.Success? <==> RequestFrame(c.bmsAddress, port, C.Command.Failures).result.Success?
    ensures r.result.Failure? ==> r.result.error == RequestFrame(c.bmsAddress, port, C.Command.Failures).result.error
    ensures r.result.Success? ==>
              var read := Ask(port, C.Command.Failures).read;
              && |read| >= 13
              && r.result.value.faultCode == read[11]
              && forall f: FS.Fault :: FS.Contains(r.result.value.failures, f)
                                       <==> Bit(read[4 + FS.PositionOf(f).byteIndex], FS.PositionOf(f).bit)
  {
    var frame := RequestFrame(c.bmsAddress, port, C.Command.Failures);
    if frame.result.Failure? then Reply(Failure(frame.result.error), frame.sent)
    else
      FS.DecodedFaults(frame.result.value);
      Reply(Success(FS.DecodeFailureStatus(frame.result.value)), frame.sent)
  }

  /** Once a status response has been decoded, a voltage request writes
      exactly one request, for the cell count that response carried
      (payload byte 0, frame byte 4), and no further status request. */
  lemma StatusThenVoltages(c: DalyClient, statusPort: Port, port: Port)
    requires GetStatus(c, statusPort).result.Success?
    ensures var o := GetCellVoltages(GetStatus(c, statusPort).client, port);
            && o.sent == [CreateRequestData(C.Command.CellVoltages(Ask(statusPort, C.Command.Status).read[4]))]
            && CreateRequestData(C.Command.Status) !in o.sent
  {
    var status := GetStatus(c, statusPort);
    var n := Ask(statusPort, C.Command.Status).read[4];
    assert CreateRequestData(C.Command.CellVoltages(n))[2] != CreateRequestData(C.Command.Status)[2];
  }
}
