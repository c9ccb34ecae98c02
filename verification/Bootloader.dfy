/**
  The bootloader conversation of the firmware uploader as a function of what the device answers:
  a script of commands, each waiting for its own acknowledgement before the next is written.
 */
module Bootloader {
  import opened Basics
  import opened ByteNumbers
  import opened Crc32
  import opened Firmware

  // protocol and reply bytes
  const INSYNC: byte := 0x12
  const EOC: byte := 0x20
  const OK: byte := 0x10
  const FAILED: byte := 0x11
  const INVALID: byte := 0x13
  const BAD_SILICON_REV: byte := 0x14

  // command bytes
  const CHIP_ERASE: byte := 0x23
  const CHIP_VERIFY: byte := 0x24
  const PROG_MULTI: byte := 0x27
  const READ_MULTI: byte := 0x28
  const GET_CRC: byte := 0x29
  const SET_BOOT_DELAY: byte := 0x2d
  const REBOOT: byte := 0x30

  const PROG_MULTI_MAX := 252
  const READ_MULTI_MAX := 252

  /** One read of the serial port: a byte, or nothing before the port's own timeout. */
  datatype Answer = Byte(b: byte) | Silence

  datatype Event = Wrote(bytes: seq<byte>) | Heard(answer: Answer)

  datatype Reason =
    | TimedOut
    | NotInSync(got: byte)
    | InvalidOperation
    | OperationFailed
    | Unexpected(got: byte)
    | EraseTimedOut
    | BadSilicon
    | ShortRead
    | VerificationFailed
    | CrcMismatch
    | DelayOutOfRange
    | WrongBoard
    | ImageTooLarge

  datatype Outcome = Done | Failed(reason: Reason)

  /** A result computed by listening, what was heard for it, and what the device has yet to say. */
  datatype Listened<T> = Listened(result: T, heard: seq<Answer>, rest: seq<Answer>)

  //
  // Listening
  //

  function Hear(answers: seq<Answer>): Listened<Answer>
  {
    if answers == [] then Listened(Silence, [Silence], [])
    else Listened(answers[0], [answers[0]], answers[1..])
  }

  /** Up to count bytes, fewer if the device falls silent. */
  function Receive(count: nat, answers: seq<Answer>): (l: Listened<seq<byte>>)
    ensures |l.result| <= count
  {
    if count == 0 then Listened([], [], answers)
    else
      var first := Hear(answers);
      match first.result
      case Silence => Listened([], first.heard, first.rest)
      case Byte(b) =>
        var more := Receive(count - 1, first.rest);
        Listened([b] + more.result, first.heard + more.heard, more.rest)
  }

  function SyncReply(b: byte): Outcome
  {
    if b == INVALID then Failed(InvalidOperation)
    else if b == FAILED then Failed(OperationFailed)
    else if b != OK then Failed(Unexpected(b))
    else Done
  }

  function GetSync(answers: seq<Answer>): Listened<Outcome>
  {
    var first := Hear(answers);
    match first.result
    case Silence => Listened(Failed(TimedOut), first.heard, first.rest)
    case Byte(b) =>
      if b != INSYNC then Listened(Failed(NotInSync(b)), first.heard, first.rest)
      else
        var second := Hear(first.rest);
        var result := if second.result == Silence then Failed(TimedOut) else SyncReply(second.result.b);
        Listened(result, first.heard + second.heard, second.rest)
  }

  datatype Poll = Synced | NotYet | Hopeless

  function TrySync(answers: seq<Answer>): Listened<Poll>
  {
    var first := Hear(answers);
    if first.result != Byte(INSYNC) then Listened(NotYet, first.heard, first.rest)
    else
      var second := Hear(first.rest);
      var result := if second.result == Byte(BAD_SILICON_REV) then Hopeless
                    else if second.result == Byte(OK) then Synced else NotYet;
      Listened(result, first.heard + second.heard, second.rest)
  }

  /** Erasing polls for the acknowledgement, at most polls times. */
  function AwaitErase(polls: nat, answers: seq<Answer>): Listened<Outcome>
    decreases polls
  {
    if polls == 0 then Listened(Failed(EraseTimedOut), [], answers)
    else
      var try := TrySync(answers);
      match try.result
      case Synced => Listened(Done, try.heard, try.rest)
      case Hopeless => Listened(Failed(BadSilicon), try.heard, try.rest)
      case NotYet =>
        var more := AwaitErase(polls - 1, try.rest);
        Listened(more.result, try.heard + more.heard, more.rest)
  }

  /** A checksum on the wire: four bytes, lowest first. */
  function Word(b: seq<byte>): bv32
    requires |b| == 4
  {
    (b[0] as bv32) | ((b[1] as bv32) << 8) | ((b[2] as bv32) << 16) | ((b[3] as bv32) << 24)
  }

  function WordBytes(w: bv32): (b: seq<byte>)
    ensures |b| == 4
  {
    [(w & 0xff) as byte, ((w >> 8) & 0xff) as byte, ((w >> 16) & 0xff) as byte, ((w >> 24) & 0xff) as byte]
  }

  function AwaitCrc(expected: bv32, answers: seq<Answer>): Listened<Outcome>
  {
    var raw := Receive(4, answers);
    if |raw.result| < 1 then Listened(Failed(TimedOut), raw.heard, raw.rest)
    else if |raw.result| < 4 then Listened(Failed(ShortRead), raw.heard, raw.rest)
    else
      var sync := GetSync(raw.rest);
      var result := if sync.result != Done then sync.result
                    else if Word(raw.result) != expected then Failed(CrcMismatch) else Done;
      Listened(result, raw.heard + sync.heard, sync.rest)
  }

  function AwaitReadBack(expected: seq<byte>, answers: seq<Answer>): Listened<Outcome>
  {
    var raw := Receive(|expected|, answers);
    if |raw.result| < 1 then Listened(Failed(TimedOut), raw.heard, raw.rest)
    else if raw.result != expected then Listened(Failed(VerificationFailed), raw.heard, raw.rest)
    else
      var sync := GetSync(raw.rest);
      Listened(sync.result, raw.heard + sync.heard, sync.rest)
  }

  //
  // Commands
  //

  datatype Command =
    | ChipErase
    | ProgMulti(data: seq<byte>)
    | ChipVerify
    | ReadMulti(expected: seq<byte>)
    | GetCrc(crc: bv32)
    | SetBootDelay(delay: int)
    | Reboot(acked: bool)

  predicate Sendable(cmd: Command)
  {
    match cmd
    case ProgMulti(data) => |data| < 256
    case ReadMulti(expected) => |expected| < 256
    case SetBootDelay(delay) => -128 <= delay < 128
    case _ => true
  }

  /** The separate writes a command makes. */
  function Frames(cmd: Command): seq<seq<byte>>
    requires Sendable(cmd)
  {
    match cmd
    case ChipErase => [[CHIP_ERASE, EOC]]
    case ProgMulti(data) => [[PROG_MULTI], [CountByte(|data|)], data, [EOC]]
    case ChipVerify => [[CHIP_VERIFY, EOC]]
    case ReadMulti(expected) => [[READ_MULTI], [CountByte(|expected|)], [EOC]]
    case GetCrc(_) => [[GET_CRC, EOC]]
    case SetBootDelay(delay) => [[SET_BOOT_DELAY, DelayByte(delay), EOC]]
    case Reboot(_) => [[REBOOT, EOC]]
  }

  function Await(cmd: Command, polls: nat, answers: seq<Answer>): Listened<Outcome>
  {
    match cmd
    case ChipErase => AwaitErase(polls, answers)
    case ReadMulti(expected) => AwaitReadBack(expected, answers)
    case GetCrc(crc) => AwaitCrc(crc, answers)
    case Reboot(acked) => if acked then GetSync(answers) else Listened(Done, [], answers)
    case _ => GetSync(answers)
  }

  datatype Exchange = Exchange(cmd: Command, heard: seq<Answer>)

  datatype Run = Run(outcome: Outcome, exchanges: seq<Exchange>, rest: seq<Answer>)

  /** Each command in turn, as long as the one before was acknowledged. */
  function RunScript(script: seq<Command>, polls: nat, answers: seq<Answer>): (r: Run)
    ensures |r.exchanges| <= |script|
    ensures forall i | 0 <= i < |r.exchanges| :: r.exchanges[i].cmd == script[i]
  {
    if script == [] then Run(Done, [], answers)
    else
      var first := Await(script[0], polls, answers);
      var exchange := Exchange(script[0], first.heard);
      if first.result != Done then Run(first.result, [exchange], first.rest)
      else
        var more := RunScript(script[1..], polls, first.rest);
        Run(more.outcome, [exchange] + more.exchanges, more.rest)
  }

  //
  // The log a run leaves
  //

  function Writes(frames: seq<seq<byte>>): seq<Event>
  {
    seq(|frames|, i requires 0 <= i < |frames| => Wrote(frames[i]))
  }

  function Hearings(heard: seq<Answer>): seq<Event>
  {
    seq(|heard|, i requires 0 <= i < |heard| => Heard(heard[i]))
  }

  lemma HearingsAppend(a: seq<Answer>, b: seq<Answer>)
    ensures Hearings(a + b) == Hearings(a) + Hearings(b)
  {
  }

  function Transcript(exchanges: seq<Exchange>): seq<Event>
    requires forall i | 0 <= i < |exchanges| :: Sendable(exchanges[i].cmd)
  {
    if exchanges == [] then []
    else Writes(Frames(exchanges[0].cmd)) + Hearings(exchanges[0].heard) + Transcript(exchanges[1..])
  }

  //
  // What an acknowledgement is, said without running the uploader
  //

  function Spoken(bytes: seq<byte>): seq<Answer>
  {
    seq(|bytes|, i requires 0 <= i < |bytes| => Byte(bytes[i]))
  }

  const ACK: seq<Answer> := [Byte(INSYNC), Byte(OK)]

  /** One poll that neither succeeds nor ends the erase. */
  predicate IdlePoll(heard: seq<Answer>)
  {
    || (|heard| == 1 && heard[0] != Byte(INSYNC))
    || (|heard| == 2 && heard[0] == Byte(INSYNC) && heard[1] != Byte(OK) && heard[1] != Byte(BAD_SILICON_REV))
  }

  /** Fewer than polls idle polls, then the acknowledgement. */
  ghost predicate ErasedAfter(heard: seq<Answer>, polls: nat)
    decreases polls
  {
    && polls > 0
    && (heard == ACK
        || exists n | 0 <= n <= |heard| :: IdlePoll(heard[..n]) && ErasedAfter(heard[n..], polls - 1))
  }

  ghost predicate Acknowledged(cmd: Command, polls: nat, heard: seq<Answer>)
  {
    match cmd
    case ChipErase => ErasedAfter(heard, polls)
    case ReadMulti(expected) => expected != [] && heard == Spoken(expected) + ACK
    case GetCrc(crc) => heard == Spoken(WordBytes(crc)) + ACK
    case Reboot(acked) => heard == if acked then ACK else []
    case _ => heard == ACK
  }
}
