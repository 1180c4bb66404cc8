/** The pure part of a request: cutting the bytes read back into 13-byte
    frames, validating each against the BMS address and checking that all
    of them answer the command that was sent. */
module ResponseSplit {
  import opened Wrappers
  import opened ByteCodec
  import opened Commands
  import opened FrameCodec

  /** Frame `i` of the read buffer: bytes `13*i ... 13*i+12`, rejected as a
      short read when the buffer ends before the frame does. */
  function FrameAt(buffer: seq<byte>, i: nat, bmsAddress: byte): (r: Result<(Code, seq<byte>), DalyError>)
    ensures |buffer| < 13 * i + 13 ==> r == Failure(InvalidResponseLength)
    ensures |buffer| >= 13 * i + 13 ==> r == ExtractBMSFrame(buffer[13 * i..13 * i + 13], bmsAddress)
    ensures r.Success? ==>
              && 13 * i + 13 <= |buffer|
              && buffer[13 * i + 1] == bmsAddress
              && CodeByte(r.value.0) == buffer[13 * i + 2]
              && r.value.1 == buffer[13 * i + 4..13 * i + 13]
              && |r.value.1| == 9
  {
    var start := i * FrameLength;
    var end := start + FrameLength - 1;
    if end >= |buffer| then Failure(InvalidResponseLength)
    else ExtractBMSFrame(buffer[start..end + 1], bmsAddress)
  }

  /** Frames `0 .. n-1` in read order. Like the source's throwing `map`,
      the result is the error of the first frame that fails. */
  function ExtractFrames(buffer: seq<byte>, bmsAddress: byte, n: nat): (r: Result<seq<(Code, seq<byte>)>, DalyError>)
    ensures r.Success? <==> forall i | 0 <= i < n :: FrameAt(buffer, i, bmsAddress).Success?
    ensures r.Success? ==>
              && |r.value| == n
              && forall i | 0 <= i < n :: r.value[i] == FrameAt(buffer, i, bmsAddress).value
    ensures r.Failure? ==>
              exists j | 0 <= j < n ::
                && FrameAt(buffer, j, bmsAddress) == Failure(r.error)
                && forall i | 0 <= i < j :: FrameAt(buffer, i, bmsAddress).Success?
  {
    if n == 0 then Success([])
    else
      var init := ExtractFrames(buffer, bmsAddress, n - 1);
      var last := FrameAt(buffer, n - 1, bmsAddress);
      if init.Failure? then
        Failure(init.error)
      else if last.Failure? then
        assert forall i | 0 <= i < n - 1 :: FrameAt(buffer, i, bmsAddress).Success?;
        Failure(last.error)
      else
        var r := init.value + [last.value];
        assert forall i | 0 <= i < n - 1 :: r[i] == init.value[i];
        Success(r)
  }

  /** Frame `i` is a valid frame from the BMS carrying the code of `cmd`. */
  predicate AnswersAt(buffer: seq<byte>, i: nat, bmsAddress: byte, cmd: Command) {
    && FrameAt(buffer, i, bmsAddress).Success?
    && FrameAt(buffer, i, bmsAddress).value.0 == CodeOfCommand(cmd)
  }

  /** The pure part of `requestFrames`: extract `frameCount` frames, reject
      the answer if any of them carries another command code, and return
      the payloads in read order. */
  function SplitResponse(cmd: Command, bmsAddress: byte, buffer: seq<byte>): (r: Result<seq<seq<byte>>, DalyError>)
    ensures r.Success? <==> forall i | 0 <= i < FrameCount(cmd) :: AnswersAt(buffer, i, bmsAddress, cmd)
    ensures r.Success? ==>
              && |r.value| == FrameCount(cmd)
              && 13 * FrameCount(cmd) <= |buffer|
              && forall i | 0 <= i < |r.value| ::
                   && r.value[i] == buffer[13 * i + 4..13 * i + 13]
                   && |r.value[i]| == 9
                   && buffer[13 * i + 1] == bmsAddress
                   && buffer[13 * i + 2] == CommandByte(cmd)
    ensures r.Failure? && (forall i | 0 <= i < FrameCount(cmd) :: FrameAt(buffer, i, bmsAddress).Success?)
            ==> r.error == IncompleteFrames
    ensures r.Failure? && !(forall i | 0 <= i < FrameCount(cmd) :: FrameAt(buffer, i, bmsAddress).Success?) ==>
              exists j | 0 <= j < FrameCount(cmd) ::
                && FrameAt(buffer, j, bmsAddress) == Failure(r.error)
                && forall i | 0 <= i < j :: FrameAt(buffer, i, bmsAddress).Success?
  {
    var extracted := ExtractFrames(buffer, bmsAddress, FrameCount(cmd));
    if extracted.Failure? then
      FailedFrameDoesNotAnswer(buffer, bmsAddress, cmd);
      Failure(extracted.error)
    else
    var frames := extracted.value;
    if exists i | 0 <= i < |frames| :: frames[i].0 != CodeOfCommand(cmd) then
      MismatchDoesNotAnswer(buffer, bmsAddress, cmd);
      Failure(IncompleteFrames)
    else
      AllAnswer(buffer, bmsAddress, cmd);
      Success(seq(|frames|, i requires 0 <= i < |frames| => frames[i].1))
  }

  /** When every frame extracts and carries the command's code, every
      frame answers the command, and each payload is bytes 4..12 of its
      frame, sent from the BMS address with the command's byte. */
  lemma AllAnswer(buffer: seq<byte>, bmsAddress: byte, cmd: Command)
    requires ExtractFrames(buffer, bmsAddress, FrameCount(cmd)).Success?
    requires var frames := ExtractFrames(buffer, bmsAddress, FrameCount(cmd)).value;
             forall i | 0 <= i < |frames| :: frames[i].0 == CodeOfCommand(cmd)
    ensures forall i | 0 <= i < FrameCount(cmd) :: AnswersAt(buffer, i, bmsAddress, cmd)
    ensures 13 * FrameCount(cmd) <= |buffer|
    ensures var frames := ExtractFrames(buffer, bmsAddress, FrameCount(cmd)).value;
            forall i | 0 <= i < |frames| ::
              && frames[i].1 == buffer[13 * i + 4..13 * i + 13]
              && |frames[i].1| == 9
              && buffer[13 * i + 1] == bmsAddress
              && buffer[13 * i + 2] == CommandByte(cmd)
  {
    var n := FrameCount(cmd);
    if n > 0 {
      assert FrameAt(buffer, n - 1, bmsAddress).Success?;
    }
  }

  /** A frame that fails to decode cannot answer the command. */
  lemma FailedFrameDoesNotAnswer(buffer: seq<byte>, bmsAddress: byte, cmd: Command)
    requires !forall i | 0 <= i < FrameCount(cmd) :: FrameAt(buffer, i, bmsAddress).Success?
    ensures !forall i | 0 <= i < FrameCount(cmd) :: AnswersAt(buffer, i, bmsAddress, cmd)
  {
    var j :| 0 <= j < FrameCount(cmd) && !FrameAt(buffer, j, bmsAddress).Success?;
    assert !AnswersAt(buffer, j, bmsAddress, cmd);
  }

  /** A decoded frame with another command code does not answer it. */
  lemma MismatchDoesNotAnswer(buffer: seq<byte>, bmsAddress: byte, cmd: Command)
    requires ExtractFrames(buffer, bmsAddress, FrameCount(cmd)).Success?
    requires var frames := ExtractFrames(buffer, bmsAddress, FrameCount(cmd)).value;
             exists i | 0 <= i < |frames| :: frames[i].0 != CodeOfCommand(cmd)
    ensures !forall i | 0 <= i < FrameCount(cmd) :: AnswersAt(buffer, i, bmsAddress, cmd)
  {
    var frames := ExtractFrames(buffer, bmsAddress, FrameCount(cmd)).value;
    var j :| 0 <= j < |frames| && frames[j].0 != CodeOfCommand(cmd);
    assert !AnswersAt(buffer, j, bmsAddress, cmd);
  }

  /** A read that stops short of the last frame, while every frame that
      does fit is accepted, is reported as an invalid response length. */
  lemma ShortReadRejected(cmd: Command, bmsAddress: byte, buffer: seq<byte>)
    requires |buffer| < 13 * FrameCount(cmd)
    requires forall i | 0 <= i < FrameCount(cmd) && 13 * i + 13 <= |buffer| ::
               FrameAt(buffer, i, bmsAddress).Success?
    ensures SplitResponse(cmd, bmsAddress, buffer) == Failure(InvalidResponseLength)
  {
    var last := FrameCount(cmd) - 1;
    assert !FrameAt(buffer, last, bmsAddress).Success?;
  }
}
