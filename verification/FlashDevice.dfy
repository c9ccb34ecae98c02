/**
  A bootloader that does what it acknowledges: erasing fills flash with 0xff, programming writes the
  groups one behind the other, and verification reports on the flash as it then is.
 */
module FlashDevice {
  import opened Basics
  import opened Crc32
  import opened CrcDetection
  import opened Firmware
  import opened Bootloader
  import opened BootloaderSafety
  import opened UploadPlan
  import BoardQueries

  datatype Flash = Flash(mem: seq<byte>, at: nat)

  function Execute(f: Flash, cmd: Command): (r: Flash)
    ensures |r.mem| == |f.mem|
  {
    match cmd
    case ChipErase => Flash(Fill(|f.mem|), 0)
    case ProgMulti(data) =>
      if f.at + |data| > |f.mem| then f
      else Flash(f.mem[..f.at] + data + f.mem[f.at + |data|..], f.at + |data|)
    case _ => f
  }

  function CommandsOf(exchanges: seq<Exchange>): (script: seq<Command>)
    ensures |script| == |exchanges|
  {
    seq(|exchanges|, i requires 0 <= i < |exchanges| => exchanges[i].cmd)
  }

  function After(f: Flash, script: seq<Command>): (r: Flash)
    ensures |r.mem| == |f.mem|
    decreases |script|
  {
    if script == [] then f else After(Execute(f, script[0]), script[1..])
  }

  lemma {:induction false} AfterAppend(f: Flash, a: seq<Command>, b: seq<Command>)
    ensures After(f, a + b) == After(After(f, a), b)
    decreases |a|
  {
    hide Execute;
    if a == [] {
      assert a + b == b;
    } else {
      assert (a + b)[1..] == a[1..] + b;
      AfterAppend(Execute(f, a[0]), a[1..], b);
    }
  }

  predicate LeavesFlashAlone(cmd: Command)
  {
    !cmd.ChipErase? && !cmd.ProgMulti?
  }

  lemma {:induction false} QuietScript(f: Flash, script: seq<Command>)
    requires forall i | 0 <= i < |script| :: LeavesFlashAlone(script[i])
    ensures After(f, script) == f
  {
    if script == [] {
    } else {
      QuietScript(f, script[1..]);
    }
  }

  function Begun(done: seq<byte>, size: nat): Flash
    requires |done| <= size
  {
    Flash(done + Fill(size - |done|), |done|)
  }

  lemma OneGroup(done: seq<byte>, g: seq<byte>, size: nat)
    requires |done| + |g| <= size
    ensures Execute(Begun(done, size), ProgMulti(g)) == Begun(done + g, size)
  {
    assert Execute(Begun(done, size), ProgMulti(g)).mem == done + g + Fill(size - |done + g|);
  }

  /** Groups written one behind the other from a cleared flash put down exactly their concatenation. */
  lemma {:induction false} ProgrammingGroups(done: seq<byte>, groups: seq<seq<byte>>, size: nat)
    requires |done| + |Flatten(groups)| <= size
    ensures After(Flash(done + Fill(size - |done|), |done|), Programs(groups))
      == Flash(done + Flatten(groups) + Fill(size - |done| - |Flatten(groups)|), |done| + |Flatten(groups)|)
    decreases |groups|
  {
    hide Execute;
    if groups == [] {
      assert done + Flatten(groups) == done;
    } else {
      var g, later := groups[0], groups[1..];
      OneGroup(done, g, size);
      assert Programs(groups)[1..] == Programs(later);
      ProgrammingGroups(done + g, later, size);
      assert done + g + Flatten(later) == done + Flatten(groups);
    }
  }

  lemma WritesImage(image: seq<byte>, f: Flash)
    requires |image| <= |f.mem|
    ensures After(f, [ChipErase] + Programs(SplitLen(image, PROG_MULTI_MAX)))
      == Flash(image + Fill(|f.mem| - |image|), |image|)
  {
    hide SplitLen, Flatten, Programs;
    var groups := SplitLen(image, PROG_MULTI_MAX);
    SplitLenPieces(image, PROG_MULTI_MAX);
    assert ([ChipErase] + Programs(groups))[1..] == Programs(groups);
    ProgrammingGroups([], groups, |f.mem|);
    assert [] + Fill(|f.mem|) == Fill(|f.mem|);
    assert [] + image == image;
  }

  lemma QuietEnding(job: Job)
    ensures var tail := Verification(job) + Delays(job) + [FinalReboot(job)];
      forall i | 0 <= i < |tail| :: LeavesFlashAlone(tail[i])
  {
  }

  /** A device that executed a successful upload's commands holds exactly the image and erased flash. */
  lemma SuccessfulUploadWroteImage(job: Job, answers: seq<Answer>, f: Flash)
    requires UploadRun(job, answers).outcome == Done
    requires |job.image| <= |f.mem|
    ensures After(f, CommandsOf(UploadRun(job, answers).exchanges)).mem == job.image + Fill(|f.mem| - |job.image|)
  {
    hide SplitLen, Verification, Acknowledged, RunScript, Programs, Delays;
    var ex := UploadRun(job, answers).exchanges;
    EarlierCommandsAcknowledged(Script(job), job.polls, answers);
    var head := [ChipErase] + Programs(SplitLen(job.image, PROG_MULTI_MAX));
    var tail := Verification(job) + Delays(job) + [FinalReboot(job)];
    WritesImage(job.image, f);
    QuietEnding(job);
    QuietScript(After(f, head), tail);
    AfterAppend(f, head, tail);
    assert Script(job) == head + tail;
    assert CommandsOf(ex) == Script(job);
  }

  //
  // A device that acknowledges everything and reports on flash contents mem
  //

  /** Reading past the end of flash gives erased bytes. */
  function Slice(mem: seq<byte>, at: nat, n: nat): (s: seq<byte>)
    ensures |s| == n
  {
    (mem + Fill(at + n))[at..at + n]
  }

  function Reply(cmd: Command, mem: seq<byte>, at: nat): seq<Answer>
  {
    match cmd
    case GetCrc(_) => Spoken(WordBytes(Crc(mem, 0))) + ACK
    case ReadMulti(expected) => Spoken(Slice(mem, at, |expected|)) + ACK
    case Reboot(acked) => if acked then ACK else []
    case _ => ACK
  }

  /** What the command expects is what the reply reports. */
  predicate Matches(cmd: Command, mem: seq<byte>, at: nat)
  {
    match cmd
    case GetCrc(crc) => crc == Crc(mem, 0)
    case ReadMulti(expected) => expected == Slice(mem, at, |expected|)
    case _ => true
  }

  function ReadPointer(cmd: Command, at: nat): nat
  {
    if cmd.ReadMulti? then at + |cmd.expected| else at
  }

  function Replies(script: seq<Command>, mem: seq<byte>, at: nat): seq<Answer>
    decreases |script|
  {
    if script == [] then []
    else Reply(script[0], mem, at) + Replies(script[1..], mem, ReadPointer(script[0], at))
  }

  predicate AllMatch(script: seq<Command>, mem: seq<byte>, at: nat)
    decreases |script|
  {
    script == [] || (Matches(script[0], mem, at) && AllMatch(script[1..], mem, ReadPointer(script[0], at)))
  }

  lemma WordBytesInjective(a: bv32, b: bv32)
    ensures WordBytes(a) == WordBytes(b) <==> a == b
  {
    hide WordBytes, Word;
    WordRoundTrip(a);
    WordRoundTrip(b);
  }

  lemma SpokenPrefix(a: seq<byte>, b: seq<byte>, later: seq<Answer>)
    requires |a| == |b|
    ensures Spoken(a) + ACK <= Spoken(b) + ACK + later <==> a == b
  {
    var x, y := Spoken(a) + ACK, Spoken(b) + ACK + later;
    if x <= y {
      forall i | 0 <= i < |a|
        ensures a[i] == b[i]
      {
        assert x[i] == y[i];
      }
    }
  }

  lemma AckFirst(polls: nat, later: seq<Answer>)
    requires polls > 0
    ensures AwaitErase(polls, ACK + later) == Listened(Done, ACK, later)
    ensures GetSync(ACK + later) == Listened(Done, ACK, later)
  {
    AckErases(polls, later);
    GetSyncIsAck(ACK + later);
    assert (ACK + later)[2..] == later;
  }

  lemma ReplyAcceptedIff(cmd: Command, polls: nat, mem: seq<byte>, at: nat, later: seq<Answer>)
    requires polls > 0
    requires cmd.ReadMulti? ==> cmd.expected != []
    ensures var l := Await(cmd, polls, Reply(cmd, mem, at) + later);
      && (l.result == Done <==> Matches(cmd, mem, at))
      && (l.result == Done ==> l.rest == later)
  {
    hide Crc, WordBytes, Slice, Spoken, AwaitErase, AwaitCrc, AwaitReadBack, GetSync;
    var answers := Reply(cmd, mem, at) + later;
    assert answers[|Reply(cmd, mem, at)|..] == later;
    AckFirst(polls, later);
    match cmd
    case GetCrc(crc) =>
      var report := Crc(mem, 0);
      AwaitCrcIff(crc, answers);
      WordBytesInjective(crc, report);
      SpokenPrefix(WordBytes(crc), WordBytes(report), later);
    case ReadMulti(expected) =>
      AwaitReadBackIff(expected, answers);
      SpokenPrefix(expected, Slice(mem, at, |expected|), later);
    case Reboot(acked) =>
      assert [] + later == later;
    case _ =>
  }

  predicate Indifferent(cmd: Command)
  {
    !cmd.GetCrc? && !cmd.ReadMulti?
  }

  lemma IndifferentMatches(cmd: Command, mem: seq<byte>, at: nat)
    ensures Indifferent(cmd) ==> Matches(cmd, mem, at)
  {
  }

  lemma {:induction false} RunOnReplies(script: seq<Command>, polls: nat, mem: seq<byte>, at: nat, rest: seq<Answer>)
    requires polls > 0
    requires forall i | 0 <= i < |script| :: script[i].ReadMulti? ==> script[i].expected != []
    ensures RunScript(script, polls, Replies(script, mem, at) + rest).outcome == Done <==> AllMatch(script, mem, at)
    ensures var r := RunScript(script, polls, Replies(script, mem, at) + rest);
      r.outcome != Done ==> r.exchanges != [] && !Indifferent(r.exchanges[|r.exchanges| - 1].cmd)
    decreases |script|
  {
    hide Reply, Matches, Await;
    if script == [] {
    } else {
      IndifferentMatches(script[0], mem, at);
      var next := ReadPointer(script[0], at);
      var later := Replies(script[1..], mem, next) + rest;
      assert Replies(script, mem, at) + rest == Reply(script[0], mem, at) + later;
      ReplyAcceptedIff(script[0], polls, mem, at, later);
      RunOnReplies(script[1..], polls, mem, next, rest);
    }
  }

  lemma {:induction false} AllMatchAppend(a: seq<Command>, b: seq<Command>, mem: seq<byte>, at: nat)
    requires forall i | 0 <= i < |a| :: !a[i].ReadMulti?
    ensures AllMatch(a + b, mem, at) <==> AllMatch(a, mem, at) && AllMatch(b, mem, at)
    decreases |a|
  {
    hide Matches;
    if a == [] {
      assert a + b == b;
    } else {
      assert (a + b)[1..] == a[1..] + b;
      AllMatchAppend(a[1..], b, mem, at);
    }
  }

  lemma {:induction false} IndifferentMatch(script: seq<Command>, mem: seq<byte>, at: nat)
    requires forall i | 0 <= i < |script| :: Indifferent(script[i])
    ensures AllMatch(script, mem, at)
    decreases |script|
  {
    if script == [] {
    } else {
      IndifferentMatch(script[1..], mem, at);
    }
  }

  lemma SliceSplits(mem: seq<byte>, at: nat, a: seq<byte>, b: seq<byte>)
    ensures a + b == Slice(mem, at, |a + b|) <==> a == Slice(mem, at, |a|) && b == Slice(mem, at + |a|, |b|)
  {
    var whole := Slice(mem, at, |a + b|);
    SliceAt(mem, at, |a + b|);
    SliceAt(mem, at, |a|);
    SliceAt(mem, at + |a|, |b|);
    assert whole[..|a|] == Slice(mem, at, |a|);
    assert whole[|a|..] == Slice(mem, at + |a|, |b|);
    assert whole == whole[..|a|] + whole[|a|..];
    assert (a + b)[..|a|] == a && (a + b)[|a|..] == b;
  }

  lemma SliceAt(mem: seq<byte>, at: nat, n: nat)
    ensures forall i | 0 <= i < n :: Slice(mem, at, n)[i] == if at + i < |mem| then mem[at + i] else 0xff
  {
  }

  lemma {:induction false} ReadBacksMatch(groups: seq<seq<byte>>, tail: seq<Command>, mem: seq<byte>, at: nat)
    requires forall i | 0 <= i < |tail| :: Indifferent(tail[i])
    ensures AllMatch(ReadBacks(groups) + tail, mem, at) <==> Flatten(groups) == Slice(mem, at, |Flatten(groups)|)
    decreases |groups|
  {
    hide Slice;
    var script := ReadBacks(groups) + tail;
    if groups == [] {
      assert script == tail;
      IndifferentMatch(tail, mem, at);
      assert Flatten(groups) == [] == Slice(mem, at, 0);
    } else {
      assert script[1..] == ReadBacks(groups[1..]) + tail;
      assert script[0] == ReadMulti(groups[0]);
      ReadBacksMatch(groups[1..], tail, mem, at + |groups[0]|);
      SliceSplits(mem, at, groups[0], Flatten(groups[1..]));
    }
  }

  /** Whether the flash contents pass verification, by the bootloader's revision. */
  predicate Passes(job: Job, mem: seq<byte>)
  {
    if job.blRev == 2 then job.image == Slice(mem, 0, |job.image|)
    else ExpectedCrc(job.image, job.maxsize) == Crc(mem, 0)
  }

  lemma ScriptMatchesIff(job: Job, mem: seq<byte>)
    ensures AllMatch(Script(job), mem, 0) <==> Passes(job, mem)
  {
    hide Slice, Crc, SplitLen, ExpectedCrc;
    var head := [ChipErase] + Programs(SplitLen(job.image, PROG_MULTI_MAX));
    var tail := Delays(job) + [FinalReboot(job)];
    AllMatchAppend(head, Verification(job) + tail, mem, 0);
    IndifferentMatch(head, mem, 0);
    assert Script(job) == head + (Verification(job) + tail);
    if job.blRev == 2 {
      var groups := SplitLen(job.image, READ_MULTI_MAX);
      AllMatchAppend([ChipVerify], ReadBacks(groups) + tail, mem, 0);
      assert Verification(job) + tail == [ChipVerify] + (ReadBacks(groups) + tail);
      ReadBacksMatch(groups, tail, mem, 0);
      SplitLenPieces(job.image, READ_MULTI_MAX);
      IndifferentMatch([ChipVerify], mem, 0);
    } else {
      var check := GetCrc(ExpectedCrc(job.image, job.maxsize));
      AllMatchAppend([check], tail, mem, 0);
      assert Verification(job) == [check];
      IndifferentMatch(tail, mem, 0);
      assert AllMatch([check], mem, 0) <==> Matches(check, mem, 0) by {
        assert [check][1..] == [];
      }
    }
  }

  /**
    A device that acknowledges everything and reports truly on its flash gets the upload finished if
    and only if the flash passes.
   */
  lemma UploadVerdict(job: Job, mem: seq<byte>, rest: seq<Answer>)
    requires job.polls > 0 && DelayFits(job.delay)
    ensures UploadRun(job, Replies(Script(job), mem, 0) + rest).outcome == Done <==> Passes(job, mem)
    ensures var r := UploadRun(job, Replies(Script(job), mem, 0) + rest);
      r.outcome != Done ==> r.exchanges != [] && !r.exchanges[|r.exchanges| - 1].cmd.Reboot?
  {
    hide Slice, Crc, SplitLen, ExpectedCrc, RunScript, Replies, AllMatch;
    SplitLenPieces(job.image, READ_MULTI_MAX);
    RunOnReplies(Script(job), job.polls, mem, 0, rest);
    ScriptMatchesIff(job, mem);
  }

  /**
    Intact flash is accepted: always by a revision 2 bootloader; from revision 3 if and only if the
    flash left over is a whole number of words or the image leaves the register at the still point.
   */
  lemma IntactFlashAcceptedIff(job: Job, mem: seq<byte>, rest: seq<Answer>)
    requires job.polls > 0 && DelayFits(job.delay)
    requires |job.image| <= job.maxsize
    requires mem == job.image + Fill(job.maxsize - |job.image|)
    ensures UploadRun(job, Replies(Script(job), mem, 0) + rest).outcome == Done
      <==> job.blRev == 2 || (job.maxsize - |job.image|) % 4 == 0 || Crc(job.image, 0) == STILL
  {
    hide Crc, UploadRun, Replies, Script, ExpectedCrc;
    UploadVerdict(job, mem, rest);
    ExpectsIntactFlashIff(job.image, job.maxsize);
    assert Slice(mem, 0, |job.image|) == job.image;
  }

  /**
    Flash that differs from the intact contents only within 32 consecutive bits never gets past a
    revision 3 bootloader's verification, and the board is not told to reboot.
   */
  lemma DamagedFlashRefused(job: Job, mem: seq<byte>, from: nat, to: nat, rest: seq<Answer>)
    requires job.polls > 0 && DelayFits(job.delay) && job.blRev != 2
    requires |job.image| <= job.maxsize == |mem|
    requires (job.maxsize - |job.image|) % 4 == 0
    requires var intact := job.image + Fill(job.maxsize - |job.image|);
      && mem != intact
      && from <= to <= 8 * |mem| && to - from <= 32
      && Bits(mem)[..from] == Bits(intact)[..from] && Bits(mem)[to..] == Bits(intact)[to..]
    ensures var r := UploadRun(job, Replies(Script(job), mem, 0) + rest);
      && r.outcome != Done
      && forall i | 0 <= i < |r.exchanges| :: !r.exchanges[i].cmd.Reboot?
  {
    hide Crc, Bits, Replies, ExpectedCrc, SplitLen;
    var intact := job.image + Fill(job.maxsize - |job.image|);
    BurstDetected(mem, intact, from, to, 0);
    ExpectsIntactFlashIff(job.image, job.maxsize);
    UploadVerdict(job, mem, rest);
    var answers := Replies(Script(job), mem, 0) + rest;
    var ex := UploadRun(job, answers).exchanges;
    forall k | 0 <= k < |ex|
      ensures !ex[k].cmd.Reboot?
    {
      if ex[k].cmd.Reboot? {
        RebootOnlyAfterVerification(job, answers, k);
      }
    }
  }

  //
  // The device the uploader talks to: it executes each command, and then reports
  //

  /** What a device with flash f answers to a script: after each command, from the flash as it then is. */
  function LiveReplies(script: seq<Command>, f: Flash, at: nat): seq<Answer>
    decreases |script|
  {
    if script == [] then []
    else
      var f' := Execute(f, script[0]);
      Reply(script[0], f'.mem, at) + LiveReplies(script[1..], f', ReadPointer(script[0], at))
  }

  lemma {:induction false} QuietReplies(script: seq<Command>, f: Flash, at: nat)
    requires forall i | 0 <= i < |script| :: LeavesFlashAlone(script[i])
    ensures LiveReplies(script, f, at) == Replies(script, f.mem, at)
    decreases |script|
  {
    hide Reply, ReadPointer;
    if script == [] {
    } else {
      assert Execute(f, script[0]) == f;
      QuietReplies(script[1..], f, ReadPointer(script[0], at));
    }
  }

  /** Commands that write are only acknowledged, so all reports are on what they leave in flash. */
  lemma {:induction false} LiveIsFinal(writing: seq<Command>, tail: seq<Command>, f: Flash, at: nat)
    requires forall i | 0 <= i < |writing| :: !LeavesFlashAlone(writing[i])
    requires forall i | 0 <= i < |tail| :: LeavesFlashAlone(tail[i])
    ensures LiveReplies(writing + tail, f, at) == Replies(writing + tail, After(f, writing).mem, at)
    decreases |writing|
  {
    hide Execute;
    if writing == [] {
      assert writing + tail == tail;
      QuietReplies(tail, f, at);
    } else {
      var cmd, later := writing[0], writing[1..];
      assert (writing + tail)[0] == cmd && (writing + tail)[1..] == later + tail;
      LiveIsFinal(later, tail, Execute(f, cmd), at);
    }
  }

  lemma WritingBeginning(job: Job)
    ensures var head := [ChipErase] + Programs(SplitLen(job.image, PROG_MULTI_MAX));
      forall i | 0 <= i < |head| :: !LeavesFlashAlone(head[i])
  {
  }

  lemma LiveScript(job: Job, f: Flash)
    requires |job.image| <= |f.mem|
    ensures LiveReplies(Script(job), f, 0) == Replies(Script(job), job.image + Fill(|f.mem| - |job.image|), 0)
  {
    hide SplitLen, Programs, Verification, Delays, LiveReplies, Replies, After, LeavesFlashAlone;
    var head := [ChipErase] + Programs(SplitLen(job.image, PROG_MULTI_MAX));
    var tail := Verification(job) + Delays(job) + [FinalReboot(job)];
    WritesImage(job.image, f);
    WritingBeginning(job);
    QuietEnding(job);
    assert Script(job) == head + tail;
    LiveIsFinal(head, tail, f, 0);
  }

  /**
    Whatever the flash held before: a device that executes what it acknowledges and reports truly gets
    the upload finished if and only if the image, with erased flash behind it, passes verification.
   */
  lemma LiveVerdict(job: Job, f: Flash, rest: seq<Answer>)
    requires job.polls > 0 && DelayFits(job.delay)
    requires |job.image| <= |f.mem|
    ensures UploadRun(job, LiveReplies(Script(job), f, 0) + rest).outcome == Done
      <==> Passes(job, job.image + Fill(|f.mem| - |job.image|))
  {
    hide UploadRun, Replies, LiveReplies, Script, Passes;
    LiveScript(job, f);
    UploadVerdict(job, job.image + Fill(|f.mem| - |job.image|), rest);
  }

  lemma NoPollsNoErase(job: Job, answers: seq<Answer>)
    requires job.polls == 0
    ensures UploadRun(job, answers).outcome != Done
  {
    hide SplitLen, Verification, Delays, FinalReboot, Programs;
    assert Script(job)[0] == ChipErase && Body(job)[0] == ChipErase;
    assert AwaitErase(0, answers).result == Failed(EraseTimedOut);
  }

  /**
    A working device of the size it reports, whatever its flash held before: the upload succeeds if
    and only if at least one poll is allowed, the boot delay fits, and the bootloader has revision 2,
    or the flash left over is a whole number of words, or the image leaves the register at the still
    point. It then leaves the image followed by erased flash.
   */
  lemma WorkingDeviceAcceptedIff(job: Job, f: Flash, rest: seq<Answer>)
    requires |job.image| <= |f.mem| == job.maxsize
    ensures var r := UploadRun(job, LiveReplies(Script(job), f, 0) + rest);
      && (r.outcome == Done
          <==> job.polls > 0 && DelayFits(job.delay)
               && (job.blRev == 2 || (job.maxsize - |job.image|) % 4 == 0 || Crc(job.image, 0) == STILL))
      && (r.outcome == Done ==>
            After(f, CommandsOf(r.exchanges)).mem == job.image + Fill(job.maxsize - |job.image|))
  {
    hide UploadRun, Replies, LiveReplies, Script, Crc, CommandsOf, After, DelayFits;
    var answers := LiveReplies(Script(job), f, 0) + rest;
    UploadSucceedsIff(job, answers);
    if job.polls == 0 {
      NoPollsNoErase(job, answers);
    } else if DelayFits(job.delay) {
      LiveScript(job, f);
      IntactFlashAcceptedIff(job, job.image + Fill(job.maxsize - |job.image|), rest);
    }
    if UploadRun(job, answers).outcome == Done {
      SuccessfulUploadWroteImage(job, answers, f);
    }
  }

  /**
    The whole upload to a working device of a newer revision, from its two checks on: when all queries
    are answered in time, the erase is reached, and the upload succeeds under the same condition.
   */
  lemma WholeUploadAcceptedIff(job: Job, f: Flash, otp: seq<seq<Answer>>, info: seq<seq<Answer>>, rest: seq<Answer>)
    requires job.blRev > 3 && |job.image| <= |f.mem| == job.maxsize
    requires BoardQueries.AllAnswered(BoardQueries.OTP_QUERIES, otp)
    requires BoardQueries.AllAnswered(BoardQueries.InfoQueries(job.blRev), info)
    ensures var answers := Flatten(otp) + (Flatten(info) + (LiveReplies(Script(job), f, 0) + rest));
      var pre := BoardQueries.Preamble(job.blRev, answers);
      var r := UploadRun(job, pre.rest);
      && pre.outcome == Done
      && (r.outcome == Done
          <==> job.polls > 0 && DelayFits(job.delay)
               && ((job.maxsize - |job.image|) % 4 == 0 || Crc(job.image, 0) == STILL))
      && (r.outcome == Done ==>
            After(f, CommandsOf(r.exchanges)).mem == job.image + Fill(job.maxsize - |job.image|))
  {
    hide UploadRun, LiveReplies, Script, Crc, CommandsOf, After, DelayFits;
    hide BoardQueries.Preamble, BoardQueries.AllAnswered, BoardQueries.InfoQueries;
    BoardQueries.PreambleAnswered(job.blRev, otp, info, LiveReplies(Script(job), f, 0) + rest);
    WorkingDeviceAcceptedIff(job, f, rest);
  }
}
