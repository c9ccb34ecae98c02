/**
  The bytes the uploader writes, seen from the device: the commands of a run can be told apart again
  from the byte stream alone.
 */
module BootloaderWire {
  import opened Basics
  import opened ByteNumbers
  import opened Crc32
  import opened Bootloader
  import opened BootloaderSafety

  /** A command as it shows on the wire: what the uploader expects in return does not. */
  datatype Seen =
    | Erase
    | Program(data: seq<byte>)
    | Verify
    | ReadBack(count: nat)
    | Checksum
    | Delay(value: int)
    | Restart

  function Observe(cmd: Command): Seen
  {
    match cmd
    case ChipErase => Erase
    case ProgMulti(data) => Program(data)
    case ChipVerify => Verify
    case ReadMulti(expected) => ReadBack(|expected|)
    case GetCrc(_) => Checksum
    case SetBootDelay(delay) => Delay(delay)
    case Reboot(_) => Restart
  }

  function Wire(cmd: Command): seq<byte>
    requires Sendable(cmd)
  {
    Flatten(Frames(cmd))
  }

  datatype Read = NoCommand | Got(seen: Seen, size: nat)

  /** One command at the front of b, ended by its EOC. */
  function ReadCommand(b: seq<byte>): (r: Read)
    ensures r.Got? ==> 0 < r.size <= |b|
  {
    if |b| < 2 then NoCommand
    else if b[0] == PROG_MULTI then
      var n := b[1] as int;
      if |b| < n + 3 || b[n + 2] != EOC then NoCommand else Got(Program(b[2..n + 2]), n + 3)
    else if b[0] == READ_MULTI then
      (if |b| < 3 || b[2] != EOC then NoCommand else Got(ReadBack(b[1] as int), 3))
    else if b[0] == SET_BOOT_DELAY then
      (if |b| < 3 || b[2] != EOC then NoCommand else Got(Delay(SignedByte(b[1])), 3))
    else if b[1] != EOC then NoCommand
    else if b[0] == CHIP_ERASE then Got(Erase, 2)
    else if b[0] == CHIP_VERIFY then Got(Verify, 2)
    else if b[0] == GET_CRC then Got(Checksum, 2)
    else if b[0] == REBOOT then Got(Restart, 2)
    else NoCommand
  }

  /** All commands of a byte stream that holds nothing else. */
  function ReadAll(b: seq<byte>): Option<seq<Seen>>
    decreases |b|
  {
    if b == [] then Some([])
    else
      match ReadCommand(b)
      case NoCommand => None
      case Got(seen, size) =>
        match ReadAll(b[size..])
        case None => None
        case Some(more) => Some([seen] + more)
  }

  lemma LengthSurvives(data: seq<byte>)
    requires |data| < 256
    ensures CountByte(|data|) as int == |data|
  {
    CountSurvives(|data|);
  }

  lemma FlattenOne(a: seq<byte>, rest: seq<seq<byte>>)
    ensures Flatten([a] + rest) == a + Flatten(rest)
  {
    assert ([a] + rest)[1..] == rest;
  }

  lemma ProgramWire(data: seq<byte>)
    requires |data| < 256
    ensures Wire(ProgMulti(data)) == [PROG_MULTI, CountByte(|data|)] + data + [EOC]
  {
    hide CountByte, Flatten;
    var count := CountByte(|data|);
    assert Frames(ProgMulti(data)) == [[PROG_MULTI]] + ([[count]] + ([data] + ([[EOC]] + [])));
    FlattenOne([EOC], []);
    FlattenOne(data, [[EOC]] + []);
    FlattenOne([count], [data] + ([[EOC]] + []));
    FlattenOne([PROG_MULTI], [[count]] + ([data] + ([[EOC]] + [])));
    FlattenNone();
  }

  lemma ReadBackWire(expected: seq<byte>)
    requires |expected| < 256
    ensures Wire(ReadMulti(expected)) == [READ_MULTI, CountByte(|expected|), EOC]
  {
    hide CountByte, Flatten;
    var count := CountByte(|expected|);
    assert Frames(ReadMulti(expected)) == [[READ_MULTI]] + ([[count]] + ([[EOC]] + []));
    FlattenOne([EOC], []);
    FlattenOne([count], [[EOC]] + []);
    FlattenOne([READ_MULTI], [[count]] + ([[EOC]] + []));
    FlattenNone();
  }

  lemma FlattenNone()
    ensures Flatten<byte>([]) == []
  {
  }

  lemma OneWrite(cmd: Command)
    requires Sendable(cmd) && |Frames(cmd)| == 1
    ensures Wire(cmd) == Frames(cmd)[0]
  {
    hide DelayByte, Flatten;
    assert Frames(cmd) == [Frames(cmd)[0]] + [];
    FlattenOne(Frames(cmd)[0], []);
    FlattenNone();
  }

  /** Whatever follows, the device reads the command sent, and its bytes up to the last. */
  lemma CommandIsRead(cmd: Command, later: seq<byte>)
    requires Sendable(cmd)
    ensures ReadCommand(Wire(cmd) + later) == Got(Observe(cmd), |Wire(cmd)|)
  {
    hide Wire, CountByte, DelayByte, SignedByte, ReadAll;
    var b := Wire(cmd) + later;
    match cmd
    case ProgMulti(data) =>
      ProgramWire(data);
      LengthSurvives(data);
      var n := |data|;
      assert b[0] == PROG_MULTI && b[1] == CountByte(|data|) && b[n + 2] == EOC;
      assert b[2..n + 2] == data;
    case ReadMulti(expected) =>
      ReadBackWire(expected);
      LengthSurvives(expected);
    case SetBootDelay(delay) =>
      OneWrite(cmd);
      DelaySurvives(delay);
    case _ =>
      OneWrite(cmd);
  }

  /** The bytes of all writes in a log, in order. */
  function Written(log: seq<Event>): seq<byte>
  {
    if log == [] then []
    else (if log[0].Wrote? then log[0].bytes else []) + Written(log[1..])
  }

  lemma {:induction false} WrittenAppend(a: seq<Event>, b: seq<Event>)
    ensures Written(a + b) == Written(a) + Written(b)
    decreases |a|
  {
    if a == [] {
      assert a + b == b;
    } else {
      assert (a + b)[1..] == a[1..] + b;
      WrittenAppend(a[1..], b);
    }
  }

  lemma {:induction false} WrittenWrites(frames: seq<seq<byte>>)
    ensures Written(Writes(frames)) == Flatten(frames)
  {
    if frames == [] {
    } else {
      assert Writes(frames)[1..] == Writes(frames[1..]);
      WrittenWrites(frames[1..]);
    }
  }

  lemma {:induction false} NothingWritten(heard: seq<Answer>)
    ensures Written(Hearings(heard)) == []
  {
    if heard == [] {
    } else {
      assert Hearings(heard)[1..] == Hearings(heard[1..]);
      NothingWritten(heard[1..]);
    }
  }

  function Observed(exchanges: seq<Exchange>): seq<Seen>
  {
    if exchanges == [] then [] else [Observe(exchanges[0].cmd)] + Observed(exchanges[1..])
  }

  /**
    From the bytes a run writes, and nothing else, the device reads exactly the run's commands, in
    order: no length, payload or delay can be mistaken for a command.
   */
  lemma {:induction false} RunIsReadBack(exchanges: seq<Exchange>)
    requires SendableExchanges(exchanges)
    ensures ReadAll(Written(Transcript(exchanges))) == Some(Observed(exchanges))
    decreases |exchanges|
  {
    hide Sendable, Frames, Writes, Hearings, Observe, ReadCommand, Written;
    if exchanges == [] {
      NoEvents();
    } else {
      var e, rest := exchanges[0], exchanges[1..];
      var writes, heard := Writes(Frames(e.cmd)), Hearings(e.heard);
      var later := Written(Transcript(rest));
      WrittenAppend(writes + heard, Transcript(rest));
      WrittenAppend(writes, heard);
      WrittenWrites(Frames(e.cmd));
      NothingWritten(e.heard);
      assert Written(Transcript(exchanges)) == Wire(e.cmd) + later;
      CommandIsRead(e.cmd, later);
      assert (Wire(e.cmd) + later)[|Wire(e.cmd)|..] == later;
      RunIsReadBack(rest);
    }
  }

  lemma NoEvents()
    ensures Written([]) == []
  {
  }

  /** The bytes on the wire, command by command. */
  lemma WireBytes(data: seq<byte>, crc: bv32, acked: bool)
    requires |data| < 256
    ensures Wire(ChipErase) == [0x23, 0x20]
    ensures Wire(ChipVerify) == [0x24, 0x20]
    ensures Wire(ProgMulti(data)) == [0x27, CountByte(|data|)] + data + [0x20]
    ensures Wire(ReadMulti(data)) == [0x28, CountByte(|data|), 0x20]
    ensures Wire(GetCrc(crc)) == [0x29, 0x20]
    ensures Wire(Reboot(acked)) == [0x30, 0x20]
  {
    hide Wire, CountByte;
    OneWrite(ChipErase);
    OneWrite(ChipVerify);
    ProgramWire(data);
    ReadBackWire(data);
    OneWrite(GetCrc(crc));
    OneWrite(Reboot(acked));
  }

  /** A boot delay goes out as one byte in two's complement. */
  lemma DelayWire(delay: int)
    requires -128 <= delay < 128
    ensures |Wire(SetBootDelay(delay))| == 3
    ensures Wire(SetBootDelay(delay))[0] == 0x2d && Wire(SetBootDelay(delay))[2] == 0x20
    ensures Wire(SetBootDelay(delay))[1] as int == (if delay < 0 then delay + 256 else delay)
  {
    hide Wire;
    OneWrite(SetBootDelay(delay));
    CountSurvives(if delay < 0 then delay + 256 else delay);
  }
}
