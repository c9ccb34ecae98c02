/**
  The uploader itself, against a serial port whose device may answer anything. Every method leaves
  the port as its counterpart in Bootloader or UploadPlan says.
 */
module Uploader {
  import opened Basics
  import opened ByteNumbers
  import opened Crc32
  import opened Firmware
  import opened Bootloader
  import opened BootloaderSafety
  import opened UploadPlan
  import opened BoardQueries

  class Port {
    var answers: seq<Answer>  // what the device is still going to say
    var log: seq<Event>       // every write and every read so far

    constructor (answers: seq<Answer>)
      ensures this.answers == answers && log == []
    {
      this.answers := answers;
      log := [];
    }

    method Write(bytes: seq<byte>)
      modifies this
      ensures log == old(log) + [Wrote(bytes)] && answers == old(answers)
    {
      log := log + [Wrote(bytes)];
    }

    method ReadOne() returns (a: Answer)
      modifies this
      ensures var h := Hear(old(answers)); a == h.result && answers == h.rest && log == old(log) + Hearings(h.heard)
    {
      if answers == [] {
        a := Silence;
      } else {
        a := answers[0];
        answers := answers[1..];
      }
      log := log + [Heard(a)];
    }

    method Read(count: nat) returns (bytes: seq<byte>)
      modifies this
      ensures var h := Receive(count, old(answers));
        bytes == h.result && answers == h.rest && log == old(log) + Hearings(h.heard)
    {
      hide Hearings;
      bytes := [];
      ghost var heard: seq<Answer> := [];
      NothingHeard();
      while |bytes| < count
        invariant |bytes| <= count
        invariant log == old(log) + Hearings(heard)
        invariant Continues(count, old(answers), bytes, heard, answers)
      {
        var a := ReadOne();
        HearingsAppend(heard, [a]);
        heard := heard + [a];
        if a.Silence? {
          return;
        }
        bytes := bytes + [a.b];
      }
      assert bytes + [] == bytes && heard + [] == heard;
    }
  }

  lemma NothingHeard()
    ensures Hearings([]) == []
  {
  }

  /** A read of count bytes that has so far taken bytes, hearing heard, and goes on with answers. */
  ghost predicate Continues(count: nat, all: seq<Answer>, bytes: seq<byte>, heard: seq<Answer>, answers: seq<Answer>)
    requires |bytes| <= count
  {
    var more, whole := Receive(count - |bytes|, answers), Receive(count, all);
    whole.result == bytes + more.result && whole.heard == heard + more.heard && whole.rest == more.rest
  }

  class Uploader {
    const port: Port
    const blRev: int
    const boardType: int
    const fwMaxsize: int

    constructor (port: Port, blRev: int, boardType: int, fwMaxsize: int)
      ensures this.port == port && this.blRev == blRev && this.boardType == boardType && this.fwMaxsize == fwMaxsize
    {
      this.port := port;
      this.blRev := blRev;
      this.boardType := boardType;
      this.fwMaxsize := fwMaxsize;
    }

    method GetSync() returns (o: Outcome)
      modifies port
      ensures var l := Bootloader.GetSync(old(port.answers));
        o == l.result && port.answers == l.rest && port.log == old(port.log) + Hearings(l.heard)
    {
      var a := port.ReadOne();
      if a.Silence? {
        return Failed(TimedOut);
      }
      if a.b != INSYNC {
        return Failed(NotInSync(a.b));
      }
      var c := port.ReadOne();
      if c.Silence? {
        return Failed(TimedOut);
      }
      if c.b == INVALID {
        return Failed(InvalidOperation);
      }
      if c.b == FAILED {
        return Failed(OperationFailed);
      }
      if c.b != OK {
        return Failed(Unexpected(c.b));
      }
      return Done;
    }

    method TrySync() returns (p: Poll)
      modifies port
      ensures var l := Bootloader.TrySync(old(port.answers));
        p == l.result && port.answers == l.rest && port.log == old(port.log) + Hearings(l.heard)
    {
      var a := port.ReadOne();
      if a != Byte(INSYNC) {
        return NotYet;
      }
      var c := port.ReadOne();
      if c == Byte(BAD_SILICON_REV) {
        return Hopeless;
      }
      return if c == Byte(OK) then Synced else NotYet;
    }

    /** Writes the frames of cmd in the order the program does. */
    method Send(cmd: Command)
      requires Sendable(cmd)
      modifies port
      ensures port.log == old(port.log) + Writes(Frames(cmd)) && port.answers == old(port.answers)
    {
      match cmd
      case ChipErase =>
        port.Write([CHIP_ERASE, EOC]);
      case ProgMulti(data) =>
        port.Write([PROG_MULTI]);
        port.Write([CountByte(|data|)]);
        port.Write(data);
        port.Write([EOC]);
      case ChipVerify =>
        port.Write([CHIP_VERIFY, EOC]);
      case ReadMulti(expected) =>
        port.Write([READ_MULTI]);
        port.Write([CountByte(|expected|)]);
        port.Write([EOC]);
      case GetCrc(_) =>
        port.Write([GET_CRC, EOC]);
      case SetBootDelay(delay) =>
        port.Write([SET_BOOT_DELAY, DelayByte(delay), EOC]);
      case Reboot(_) =>
        port.Write([REBOOT, EOC]);
    }

    method Erase(polls: nat) returns (o: Outcome)
      modifies port
      ensures Played(RunScript([ChipErase], polls, old(port.answers)), o, port.answers, old(port.log), port.log)
    {
      hide Played, RunScript, Hearings, Writes, Bootloader.TrySync;
      Send(ChipErase);
      ghost var sent := port.log;
      ghost var heard: seq<Answer> := [];
      NothingHeard();
      var left := polls;
      while left > 0
        invariant 0 <= left <= polls
        invariant port.log == sent + Hearings(heard)
        invariant var more, all := AwaitErase(left, port.answers), AwaitErase(polls, old(port.answers));
          all.result == more.result && all.heard == heard + more.heard && all.rest == more.rest
      {
        ghost var before := port.answers;
        var p := TrySync();
        ghost var now := Bootloader.TrySync(before).heard;
        HearingsAppend(heard, now);
        heard := heard + now;
        assert port.log == sent + Hearings(heard);
        if p != NotYet {
          PlayedOne(ChipErase, polls, old(port.log), old(port.answers));
          return if p == Synced then Done else Failed(BadSilicon);
        }
        left := left - 1;
      }
      assert heard + [] == heard;
      PlayedOne(ChipErase, polls, old(port.log), old(port.answers));
      return Failed(EraseTimedOut);
    }

    /** Any command that only waits to be acknowledged. */
    method Perform(cmd: Command, ghost polls: nat) returns (o: Outcome)
      requires Sendable(cmd)
      requires cmd.ProgMulti? || cmd.ChipVerify? || cmd.SetBootDelay?
      modifies port
      ensures Played(RunScript([cmd], polls, old(port.answers)), o, port.answers, old(port.log), port.log)
    {
      hide Played, RunScript, Hearings, Writes, Frames;
      Send(cmd);
      o := GetSync();
      PlayedOne(cmd, polls, old(port.log), old(port.answers));
    }

    method Program(image: seq<byte>, ghost polls: nat) returns (o: Outcome)
      modifies port
      ensures Played(RunScript(Programs(SplitLen(image, PROG_MULTI_MAX)), polls, old(port.answers)),
        o, port.answers, old(port.log), port.log)
    {
      hide Played, RunScript, SplitLen, Then;
      var groups := SplitLen(image, PROG_MULTI_MAX);
      SplitLenPieces(image, PROG_MULTI_MAX);
      ghost var script := Programs(groups);
      PlayedNothing(polls, old(port.answers), old(port.log));
      assert script[..0] == [];
      for i := 0 to |groups|
        invariant Played(RunScript(script[..i], polls, old(port.answers)), Done, port.answers, old(port.log), port.log)
      {
        ghost var middle, between := port.answers, port.log;
        o := Perform(ProgMulti(groups[i]), polls);
        PlayedNext(script, i, polls, o, old(port.answers), middle, port.answers, old(port.log), between, port.log);
        if o != Done {
          return;
        }
      }
      assert script[..|groups|] == script;
      return Done;
    }

    method VerifyMulti(data: seq<byte>, ghost polls: nat) returns (o: Outcome)
      requires |data| < 256
      modifies port
      ensures Played(RunScript([ReadMulti(data)], polls, old(port.answers)), o, port.answers, old(port.log), port.log)
    {
      hide Played, RunScript, Hearings, Writes, Frames, Bootloader.GetSync, Receive;
      Send(ReadMulti(data));
      PlayedOne(ReadMulti(data), polls, old(port.log), old(port.answers));
      var programmed := port.Read(|data|);
      if |programmed| < 1 {
        return Failed(TimedOut);
      }
      if programmed != data {
        return Failed(VerificationFailed);
      }
      ghost var sent, raw := old(port.log) + Writes(Frames(ReadMulti(data))), Receive(|data|, old(port.answers));
      ghost var sync := Bootloader.GetSync(raw.rest);
      o := GetSync();
      HearingsAppend(raw.heard, sync.heard);
      assert port.log == sent + Hearings(raw.heard + sync.heard);
    }

    method VerifyV2(image: seq<byte>, ghost polls: nat) returns (o: Outcome)
      modifies port
      ensures Played(RunScript([ChipVerify] + ReadBacks(SplitLen(image, READ_MULTI_MAX)), polls, old(port.answers)),
        o, port.answers, old(port.log), port.log)
    {
      hide Played, RunScript, SplitLen, Then;
      var groups := SplitLen(image, READ_MULTI_MAX);
      SplitLenPieces(image, READ_MULTI_MAX);
      ghost var script := [ChipVerify] + ReadBacks(groups);
      o := Perform(ChipVerify, polls);
      assert script[..1] == [ChipVerify];
      if o != Done {
        PlayedCut(script, 1, polls, o, old(port.answers), port.answers, old(port.log), port.log);
        return;
      }
      for i := 0 to |groups|
        invariant Played(RunScript(script[..i + 1], polls, old(port.answers)),
          Done, port.answers, old(port.log), port.log)
      {
        ghost var middle, between := port.answers, port.log;
        o := VerifyMulti(groups[i], polls);
        PlayedNext(script, i + 1, polls, o, old(port.answers), middle, port.answers, old(port.log), between, port.log);
        if o != Done {
          return;
        }
      }
      assert script[..|groups| + 1] == script;
      return Done;
    }

    method VerifyV3(fw: Image, ghost polls: nat) returns (o: Outcome)
      modifies port
      ensures Played(RunScript([GetCrc(ExpectedCrc(fw.image, fwMaxsize))], polls, old(port.answers)),
        o, port.answers, old(port.log), port.log)
    {
      hide Played, RunScript, Hearings, Writes, Frames, Bootloader.GetSync, Receive, ExpectedCrc, Word, Await;
      var expectCrc := fw.PaddedCrc(fwMaxsize);
      Send(GetCrc(expectCrc));
      PlayedOne(GetCrc(expectCrc), polls, old(port.log), old(port.answers));
      CrcAwaited(expectCrc, polls, old(port.answers));
      var raw := port.Read(4);
      if |raw| < 1 {
        return Failed(TimedOut);
      }
      if |raw| < 4 {
        return Failed(ShortRead);
      }
      var report := Word(raw);
      ghost var sent, l := old(port.log) + Writes(Frames(GetCrc(expectCrc))), Receive(4, old(port.answers));
      ghost var sync := Bootloader.GetSync(l.rest);
      o := GetSync();
      HearingsAppend(l.heard, sync.heard);
      assert port.log == sent + Hearings(l.heard + sync.heard);
      if o == Done && report != expectCrc {
        return Failed(CrcMismatch);
      }
    }

    method Reboot(ghost polls: nat) returns (o: Outcome)
      modifies port
      ensures Played(RunScript([Command.Reboot(blRev >= 3)], polls, old(port.answers)),
        o, port.answers, old(port.log), port.log)
    {
      hide Played, RunScript, Hearings, Writes, Frames, Bootloader.GetSync;
      Send(Command.Reboot(blRev >= 3));
      PlayedOne(Command.Reboot(blRev >= 3), polls, old(port.log), old(port.answers));
      NothingHeard();
      assert port.log == port.log + [];
      o := Done;
      if blRev >= 3 {
        o := GetSync();
      }
    }

    /** What a query ends with: some bytes, and the acknowledgement. */
    method RecvBytes(count: nat) returns (o: Outcome)
      modifies port
      ensures var l := AskBytes(count, old(port.answers));
        o == l.result && port.answers == l.rest && port.log == old(port.log) + Hearings(l.heard)
    {
      hide Hearings, Receive, Bootloader.GetSync;
      var value := port.Read(count);
      if |value| < 1 {
        return Failed(TimedOut);
      }
      ghost var raw := Receive(count, old(port.answers));
      o := GetSync();
      HearingsAppend(raw.heard, Bootloader.GetSync(raw.rest).heard);
    }

    /** One-time-programmable memory and serial number are read in words. */
    method GetMemory(area: byte, address: byte) returns (o: Outcome)
      modifies port
      ensures var one := AskedOne(Memory(area, address), old(port.answers));
        o == one.outcome && port.answers == one.rest && port.log == old(port.log) + one.log
    {
      hide Hearings, AskBytes;
      port.Write([area, address, 0, 0, 0, EOC]);
      o := RecvBytes(4);
    }

    method GetChip() returns (o: Outcome)
      modifies port
      ensures var one := AskedOne(Chip, old(port.answers));
        o == one.outcome && port.answers == one.rest && port.log == old(port.log) + one.log
    {
      hide Hearings, Receive, Bootloader.GetSync;
      port.Write([GET_CHIP, EOC]);
      var value := port.Read(4);
      if |value| < 1 {
        return Failed(TimedOut);
      }
      if |value| < 4 {
        return Failed(ShortRead);
      }
      ghost var raw := Receive(4, old(port.answers));
      o := GetSync();
      HearingsAppend(raw.heard, Bootloader.GetSync(raw.rest).heard);
    }

    method GetChipDes() returns (o: Outcome)
      modifies port
      ensures var one := AskedOne(Description, old(port.answers));
        o == one.outcome && port.answers == one.rest && port.log == old(port.log) + one.log
    {
      hide Hearings, Receive, AskBytes, Word;
      port.Write([GET_CHIP_DES, EOC]);
      var raw := port.Read(4);
      if |raw| < 1 {
        return Failed(TimedOut);
      }
      if |raw| < 4 {
        return Failed(ShortRead);
      }
      ghost var first := Receive(4, old(port.answers));
      o := RecvBytes(Word(raw) as nat);
      HearingsAppend(first.heard, AskBytes(Word(raw) as nat, first.rest).heard);
    }

    /** count words of an area, from its start. */
    method GetWords(area: byte, count: nat) returns (o: Outcome)
      requires count <= 64
      modifies port
      ensures var all := AskAll(Words(area, count), old(port.answers));
        o == all.outcome && port.answers == all.rest && port.log == old(port.log) + all.log
    {
      hide AskedOne, AskAll;
      ghost var qs := Words(area, count);
      NothingAsked(port.answers);
      for i := 0 to count
        invariant old(port.log) <= port.log
        invariant AskAll(qs[..i], old(port.answers)) == Asked(Done, port.log[|old(port.log)|..], port.answers)
      {
        OneMoreAsked(qs, i, old(port.answers));
        o := GetMemory(area, CountByte(4 * i));
        if o != Done {
          return;
        }
      }
      assert qs[..count] == qs;
      return Done;
    }

    /** Asked before the erase from revision 4 on; a failure to read the serial number or chip is passed over. */
    method Describe() returns (o: Outcome)
      modifies port
      ensures var pre := Preamble(blRev, old(port.answers));
        o == pre.outcome && port.answers == pre.rest && port.log == old(port.log) + pre.log
    {
      hide AskedOne, AskAll, Words;
      if blRev <= 3 {
        return Done;
      }
      o := GetWords(GET_OTP, 48);
      if o != Done {
        return;
      }
      ghost var answers := port.answers;
      var info := GetWords(GET_SN, 3);
      InfoAsked(blRev, answers);
      if info == Done {
        info := GetChip();
        if info == Done && blRev >= 5 {
          info := GetChipDes();
        }
      }
    }

    /**
      Two checks that write nothing; from revision 4 on the queries; and from the erase onward this is
      UploadRun on what the device says then.
     */
    method Upload(fw: Image, force: bool, delay: Option<int>, polls: nat) returns (o: Outcome)
      modifies port
      ensures boardType != fw.boardId && !force ==> o == Failed(WrongBoard)
      ensures (boardType == fw.boardId || force) && fwMaxsize < fw.imageSize ==> o == Failed(ImageTooLarge)
      ensures (boardType != fw.boardId && !force) || fwMaxsize < fw.imageSize ==>
        port.log == old(port.log) && port.answers == old(port.answers)
      ensures (boardType == fw.boardId || force) && fw.imageSize <= fwMaxsize ==>
        var pre := Preamble(blRev, old(port.answers));
        if pre.outcome != Done then
          o == pre.outcome && port.answers == pre.rest && port.log == old(port.log) + pre.log
        else
          Played(UploadRun(Job(blRev, fwMaxsize, polls, delay, fw.image), pre.rest),
            o, port.answers, old(port.log) + pre.log, port.log)
    {
      hide Played, UploadRun, Preamble;
      if boardType != fw.boardId && !force {
        return Failed(WrongBoard);
      }
      if fwMaxsize < fw.imageSize {
        return Failed(ImageTooLarge);
      }
      o := Describe();
      if o != Done {
        return;
      }
      o := FlashImage(fw, delay, polls);
    }

    /** From the erase onward. */
    method FlashImage(fw: Image, delay: Option<int>, polls: nat) returns (o: Outcome)
      modifies port
      ensures Played(UploadRun(Job(blRev, fwMaxsize, polls, delay, fw.image), old(port.answers)),
        o, port.answers, old(port.log), port.log)
    {
      hide Played, RunScript, Then, SplitLen, Programs, ReadBacks, ExpectedCrc;
      ghost var job := Job(blRev, fwMaxsize, polls, delay, fw.image);
      ghost var start, log := port.answers, port.log;
      ghost var erase, programs := [ChipErase], Programs(SplitLen(fw.image, PROG_MULTI_MAX));
      ghost var a, l;
      o := Erase(polls);
      if o != Done {
        UploadCut(job, erase, programs + Verification(job), o, start, port.answers, log, port.log);
        return;
      }
      a, l := port.answers, port.log;
      o := Program(fw.image, polls);
      PlayedMore(erase, programs, polls, o, start, a, port.answers, log, l, port.log);
      if o != Done {
        UploadCut(job, erase + programs, Verification(job), o, start, port.answers, log, port.log);
        return;
      }
      a, l := port.answers, port.log;
      if blRev == 2 {
        o := VerifyV2(fw.image, polls);
      } else {
        o := VerifyV3(fw, polls);
      }
      PlayedMore(erase + programs, Verification(job), polls, o, start, a, port.answers, log, l, port.log);
      if o != Done {
        UploadCut(job, Body(job), [], o, start, port.answers, log, port.log);
        return;
      }
      if delay.Some? {
        if !DelayFits(delay) {
          PlayedOutcome(RunScript(Body(job), polls, start), Done, port.answers, log, port.log);
          return Failed(DelayOutOfRange);
        }
        a, l := port.answers, port.log;
        o := Perform(SetBootDelay(delay.value), polls);
        PlayedMore(Body(job), Delays(job), polls, o, start, a, port.answers, log, l, port.log);
        if o != Done {
          PlayedCut(Script(job), |Body(job) + Delays(job)|, polls, o, start, port.answers, log, port.log);
          return;
        }
      }
      assert Body(job) + Delays(job) == if delay.Some? then Body(job) + Delays(job) else Body(job);
      a, l := port.answers, port.log;
      o := Reboot(polls);
      PlayedMore(Body(job) + Delays(job), [FinalReboot(job)], polls, o, start, a, port.answers, log, l, port.log);
    }
  }

  /** A further script played after one that was acknowledged in full. */
  lemma PlayedMore(a: seq<Command>, b: seq<Command>, polls: nat, o: Outcome,
                   start: seq<Answer>, middle: seq<Answer>, answers: seq<Answer>,
                   before: seq<Event>, between: seq<Event>, log: seq<Event>)
    requires Played(RunScript(a, polls, start), Done, middle, before, between)
    requires Played(RunScript(b, polls, middle), o, answers, between, log)
    ensures Played(RunScript(a + b, polls, start), o, answers, before, log)
  {
    hide RunScript, Played, Then;
    PlayedThen(RunScript(a, polls, start), b, polls, o, middle, answers, before, between, log);
    RunAppend(a, b, polls, start);
  }

  /** A failure within the body ends the upload. */
  lemma UploadCut(job: Job, a: seq<Command>, b: seq<Command>, o: Outcome,
                  start: seq<Answer>, answers: seq<Answer>, before: seq<Event>, log: seq<Event>)
    requires a + b == Body(job) && o != Done
    requires Played(RunScript(a, job.polls, start), o, answers, before, log)
    ensures Played(UploadRun(job, start), o, answers, before, log)
  {
    hide RunScript, Played, Body;
    assert Body(job)[..|a|] == a && Script(job)[..|a|] == a;
    PlayedCut(Body(job), |a|, job.polls, o, start, answers, before, log);
    PlayedCut(Script(job), |a|, job.polls, o, start, answers, before, log);
    PlayedOutcome(RunScript(Body(job), job.polls, start), o, answers, before, log);
  }

  lemma PlayedOutcome(r: Run, o: Outcome, answers: seq<Answer>, before: seq<Event>, log: seq<Event>)
    requires Played(r, o, answers, before, log)
    ensures r.outcome == o
    ensures Played(r.(outcome := Failed(DelayOutOfRange)), Failed(DelayOutOfRange), answers, before, log)
  {
  }

  lemma CrcAwaited(expected: bv32, polls: nat, answers: seq<Answer>)
    ensures var raw := Receive(4, answers);
      var sync := GetSync(raw.rest);
      Await(GetCrc(expected), polls, answers) ==
        if |raw.result| < 1 then Listened(Failed(TimedOut), raw.heard, raw.rest)
        else if |raw.result| < 4 then Listened(Failed(ShortRead), raw.heard, raw.rest)
        else Listened(if sync.result == Done && Word(raw.result) != expected then Failed(CrcMismatch) else sync.result,
          raw.heard + sync.heard, sync.rest)
  {
    hide GetSync, Receive, Word;
  }

  lemma PlayedNothing(polls: nat, answers: seq<Answer>, log: seq<Event>)
    ensures Played(RunScript([], polls, answers), Done, answers, log, log)
  {
    assert log + [] == log;
  }

  /** One more command of a script whose first i were acknowledged; a failure ends the whole script. */
  lemma PlayedNext(script: seq<Command>, i: nat, polls: nat, o: Outcome,
                   start: seq<Answer>, middle: seq<Answer>, answers: seq<Answer>,
                   before: seq<Event>, between: seq<Event>, log: seq<Event>)
    requires i < |script|
    requires Played(RunScript(script[..i], polls, start), Done, middle, before, between)
    requires Played(RunScript([script[i]], polls, middle), o, answers, between, log)
    ensures Played(RunScript(script[..i + 1], polls, start), o, answers, before, log)
    ensures o != Done ==> Played(RunScript(script, polls, start), o, answers, before, log)
  {
    hide RunScript, Played, Then;
    PlayedThen(RunScript(script[..i], polls, start), [script[i]], polls, o, middle, answers, before, between, log);
    RunAppend(script[..i], [script[i]], polls, start);
    assert script[..i] + [script[i]] == script[..i + 1];
    if o != Done {
      PlayedCut(script, i + 1, polls, o, start, answers, before, log);
    }
  }

  /** A script that fails within its first n commands fails in the same way as a whole. */
  lemma PlayedCut(script: seq<Command>, n: nat, polls: nat, o: Outcome,
                  start: seq<Answer>, answers: seq<Answer>, before: seq<Event>, log: seq<Event>)
    requires n <= |script| && o != Done
    requires Played(RunScript(script[..n], polls, start), o, answers, before, log)
    ensures Played(RunScript(script, polls, start), o, answers, before, log)
  {
    hide RunScript;
    RunAppend(script[..n], script[n..], polls, start);
    assert script[..n] + script[n..] == script;
  }
}
