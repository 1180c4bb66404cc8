/** The command catalogue: the nine requests the client can send, their
    one-byte wire codes and the number of response frames each expects. */
module Commands {
  import opened Wrappers
  import opened ByteCodec

  /** A logical request. The two counted variants carry the number of
      items (cells or temperature sensors) the response must cover. */
  datatype Command =
    | StateOfCharge
    | CellVoltageLimits
    | CellTemperatureLimits
    | MosfetStatus
    | Status
    | CellVoltages(count: nat)
    | Temperatures(count: nat)
    | BalanceStates
    | Failures

  /** The wire code of a command, without its parameter. */
  datatype Code =
    | StateOfCharge
    | CellVoltageLimits
    | CellTemperatureLimits
    | MosfetStatus
    | Status
    | CellVoltages
    | Temperatures
    | BalanceStates
    | Failures

  /** `Code.rawValue`: consecutive bytes from 0x90 in declaration order. */
  function CodeByte(c: Code): (b: byte)
    ensures 0x90 <= b <= 0x98
  {
    match c
    case StateOfCharge => 0x90
    case CellVoltageLimits => 0x91
    case CellTemperatureLimits => 0x92
    case MosfetStatus => 0x93
    case Status => 0x94
    case CellVoltages => 0x95
    case Temperatures => 0x96
    case BalanceStates => 0x97
    case Failures => 0x98
  }

  /** `Code(rawValue:)`: defined exactly on the nine wire codes, and the
      inverse of `CodeByte` there. */
  function CodeOf(b: byte): (r: Option<Code>)
    ensures r.Some? <==> 0x90 <= b <= 0x98
    ensures r.Some? ==> CodeByte(r.value) == b
  {
    if b == 0x90 then Some(Code.StateOfCharge)
    else if b == 0x91 then Some(Code.CellVoltageLimits)
    else if b == 0x92 then Some(Code.CellTemperatureLimits)
    else if b == 0x93 then Some(Code.MosfetStatus)
    else if b == 0x94 then Some(Code.Status)
    else if b == 0x95 then Some(Code.CellVoltages)
    else if b == 0x96 then Some(Code.Temperatures)
    else if b == 0x97 then Some(Code.BalanceStates)
    else if b == 0x98 then Some(Code.Failures)
    else None
  }

  /** Decoding the wire byte of a code gives the code back, so distinct
      codes have distinct bytes. */
  lemma CodeRoundTrip(c: Code)
    ensures CodeOf(CodeByte(c)) == Some(c)
  {
  }

  /** `Command.isValid`: the byte lies in the contiguous code range. */
  function IsValid(b: byte): (v: bool)
    ensures v <==> CodeOf(b).Some?
    ensures v ==> CodeByte(CodeOf(b).value) == b
  {
    0x90 <= b <= 0x98
  }

  /** A byte is valid exactly when it is the wire code of some command. */
  lemma ValidIffCode(b: byte)
    ensures IsValid(b) <==> CodeOf(b).Some?
    ensures IsValid(b) <==> exists c: Code :: CodeByte(c) == b
  {
    if IsValid(b) {
      assert CodeByte(CodeOf(b).value) == b;
    }
  }

  /** `Command.code`: the case of the command, parameter dropped. */
  function CodeOfCommand(cmd: Command): (c: Code)
    ensures cmd.CellVoltages? <==> c == Code.CellVoltages
    ensures cmd.Temperatures? <==> c == Code.Temperatures
  {
    match cmd
    case StateOfCharge => Code.StateOfCharge
    case CellVoltageLimits => Code.CellVoltageLimits
    case CellTemperatureLimits => Code.CellTemperatureLimits
    case MosfetStatus => Code.MosfetStatus
    case Status => Code.Status
    case CellVoltages(_) => Code.CellVoltages
    case Temperatures(_) => Code.Temperatures
    case BalanceStates => Code.BalanceStates
    case Failures => Code.Failures
  }

  /** `Command.byte`: the wire code of the command; always valid and
      decoding back to the command's code. */
  function CommandByte(cmd: Command): (b: byte)
    ensures IsValid(b)
    ensures CodeOf(b) == Some(CodeOfCommand(cmd))
  {
    CodeRoundTrip(CodeOfCommand(cmd));
    CodeByte(CodeOfCommand(cmd))
  }

  /** Two commands share a wire byte exactly when they are the same case;
      the count parameter never reaches the wire. */
  lemma CommandByteInjective(a: Command, b: Command)
    ensures CommandByte(a) == CommandByte(b) <==> CodeOfCommand(a) == CodeOfCommand(b)
  {
    CodeRoundTrip(CodeOfCommand(a));
    CodeRoundTrip(CodeOfCommand(b));
  }

  /** `Command.frameCount`: the number of 13-byte response frames. Each
      frame has room for three cell voltages or seven temperatures, so the
      counted commands need the ceiling of count/3 and count/7 frames. */
  function FrameCount(cmd: Command): (r: nat)
    ensures cmd.CellVoltages? ==> 3 * r >= cmd.count && 3 * r < cmd.count + 3
    ensures cmd.Temperatures? ==> 7 * r >= cmd.count && 7 * r < cmd.count + 7
    ensures !cmd.CellVoltages? && !cmd.Temperatures? ==> r == 1
  {
    match cmd
    case CellVoltages(n) => (n + 2) / 3
    case Temperatures(n) => (n + 6) / 7
    case _ => 1
  }

  /** The frame count of a counted command never decreases as the count
      grows, and is zero only for a count of zero. */
  lemma FrameCountMonotone(m: nat, n: nat)
    requires m <= n
    ensures FrameCount(Command.CellVoltages(m)) <= FrameCount(Command.CellVoltages(n))
    ensures FrameCount(Command.Temperatures(m)) <= FrameCount(Command.Temperatures(n))
    ensures FrameCount(Command.CellVoltages(n)) == 0 <==> n == 0
    ensures FrameCount(Command.Temperatures(n)) == 0 <==> n == 0
  {
  }

  /** The frames of a counted response can hold every item: six voltage
      bytes and seven temperature bytes per frame after the frame id. */
  lemma FrameCapacity(n: nat)
    ensures 6 * FrameCount(Command.CellVoltages(n)) >= 2 * n
    ensures 7 * FrameCount(Command.Temperatures(n)) >= n
  {
  }

  /** Worked values of the ceiling. */
  lemma FrameCountExamples()
    ensures FrameCount(Command.CellVoltages(1)) == 1 && FrameCount(Command.CellVoltages(3)) == 1
    ensures FrameCount(Command.CellVoltages(4)) == 2 && FrameCount(Command.CellVoltages(9)) == 3
    ensures FrameCount(Command.CellVoltages(10)) == 4
    ensures FrameCount(Command.Temperatures(7)) == 1 && FrameCount(Command.Temperatures(8)) == 2
  {
  }
}
