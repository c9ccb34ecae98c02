/** What every run of a script keeps, and exactly when a run gets to its end. */
module BootloaderSafety {
  import opened Basics
  import opened Crc32
  import opened Bootloader

  //
  // Listening and acknowledgements
  //

  lemma ReceiveStep(count: nat, answers: seq<Answer>)
    ensures if count > 0 && answers != [] && answers[0].Byte? then
        var more := Receive(count - 1, answers[1..]);
        Receive(count, answers) == Listened([answers[0].b] + more.result, [answers[0]] + more.heard, more.rest)
      else
        var l := Receive(count, answers);
        |l.result| == count ==> l == Listened([], [], answers)
  {
  }

  lemma SpokenFirst(b: byte, rest: seq<byte>)
    ensures Spoken([b] + rest) == [Byte(b)] + Spoken(rest)
  {
  }

  lemma {:induction false} ReceiveSound(count: nat, answers: seq<Answer>)
    ensures var l := Receive(count, answers);
      |l.result| == count ==> l.heard == Spoken(l.result) && answers == l.heard + l.rest
  {
    hide Receive;
    ReceiveStep(count, answers);
    if count > 0 && answers != [] && answers[0].Byte? {
      var more := Receive(count - 1, answers[1..]);
      ReceiveSound(count - 1, answers[1..]);
      SpokenFirst(answers[0].b, more.result);
      assert answers == [answers[0]] + answers[1..];
    }
  }

  lemma {:induction false} ReceiveComplete(bytes: seq<byte>, rest: seq<Answer>)
    ensures Receive(|bytes|, Spoken(bytes) + rest) == Listened(bytes, Spoken(bytes), rest)
  {
    if bytes == [] {
      assert Spoken(bytes) + rest == rest;
    } else {
      ReceiveComplete(bytes[1..], rest);
      assert Spoken(bytes) == [Byte(bytes[0])] + Spoken(bytes[1..]);
      assert bytes == [bytes[0]] + bytes[1..];
      assert (Spoken(bytes) + rest)[1..] == Spoken(bytes[1..]) + rest;
    }
  }

  lemma GetSyncIsAck(answers: seq<Answer>)
    ensures GetSync(answers).result == Done <==> ACK <= answers
    ensures ACK <= answers ==> GetSync(answers) == Listened(Done, ACK, answers[2..])
  {
  }

  lemma WordRoundTrip(w: bv32)
    ensures Word(WordBytes(w)) == w
  {
  }

  lemma WordOfFour(b0: byte, b1: byte, b2: byte, b3: byte)
    ensures WordBytes(Word([b0, b1, b2, b3])) == [b0, b1, b2, b3]
  {
  }

  lemma AwaitCrcIff(crc: bv32, answers: seq<Answer>)
    ensures var l := AwaitCrc(crc, answers);
      var h := Spoken(WordBytes(crc)) + ACK;
      && (l.result == Done <==> h <= answers)
      && (h <= answers ==> l == Listened(Done, h, answers[|h|..]))
  {
    hide Word, WordBytes, GetSync;
    var h := Spoken(WordBytes(crc)) + ACK;
    WordRoundTrip(crc);
    if h <= answers {
      var rest := answers[4..];
      assert answers == Spoken(WordBytes(crc)) + rest;
      ReceiveComplete(WordBytes(crc), rest);
      GetSyncIsAck(rest);
      assert rest[2..] == answers[|h|..];
    }
    var raw := Receive(4, answers);
    if AwaitCrc(crc, answers).result == Done {
      ReceiveSound(4, answers);
      GetSyncIsAck(raw.rest);
      var b := raw.result;
      WordOfFour(b[0], b[1], b[2], b[3]);
      assert b == [b[0], b[1], b[2], b[3]];
      assert answers == Spoken(b) + raw.rest;
    }
  }

  lemma AwaitReadBackIff(expected: seq<byte>, answers: seq<Answer>)
    ensures var l := AwaitReadBack(expected, answers);
      var h := Spoken(expected) + ACK;
      && (l.result == Done <==> expected != [] && h <= answers)
      && (expected != [] && h <= answers ==> l == Listened(Done, h, answers[|h|..]))
  {
    hide GetSync;
    var h := Spoken(expected) + ACK;
    if h <= answers {
      var rest := answers[|expected|..];
      assert answers == Spoken(expected) + rest;
      ReceiveComplete(expected, rest);
      GetSyncIsAck(rest);
      assert rest[2..] == answers[|h|..];
    }
    var raw := Receive(|expected|, answers);
    if AwaitReadBack(expected, answers).result == Done {
      ReceiveSound(|expected|, answers);
      GetSyncIsAck(raw.rest);
    }
  }

  lemma TrySyncHeard(answers: seq<Answer>)
    ensures var try := TrySync(answers);
      && (try.result == Synced ==> try.heard == ACK && answers == try.heard + try.rest)
      && (try.result == NotYet ==> IdlePoll(try.heard) && (try.rest == [] || answers == try.heard + try.rest))
  {
  }

  lemma TrySyncIdle(poll: seq<Answer>, rest: seq<Answer>)
    requires IdlePoll(poll)
    ensures TrySync(poll + rest) == Listened(NotYet, poll, rest)
  {
    if |poll| == 1 {
      assert (poll + rest)[1..] == rest;
    } else {
      assert (poll + rest)[1..][1..] == rest;
    }
  }

  lemma TrySyncAck(rest: seq<Answer>)
    ensures TrySync(ACK + rest) == Listened(Synced, ACK, rest)
  {
    assert (ACK + rest)[1..][1..] == rest;
  }

  lemma {:induction false} SilenceNeverErases(polls: nat)
    ensures AwaitErase(polls, []).result != Done
  {
    if polls == 0 {
    } else {
      SilenceNeverErases(polls - 1);
    }
  }

  lemma {:induction false} AwaitEraseSound(polls: nat, answers: seq<Answer>)
    requires AwaitErase(polls, answers).result == Done
    ensures var l := AwaitErase(polls, answers); ErasedAfter(l.heard, polls) && answers == l.heard + l.rest
    decreases polls
  {
    hide TrySync, IdlePoll;
    var try := TrySync(answers);
    TrySyncHeard(answers);
    if try.result == NotYet {
      AwaitEraseSound(polls - 1, try.rest);
      SilenceNeverErases(polls - 1);
      var heard, later, n := AwaitErase(polls, answers).heard, AwaitErase(polls - 1, try.rest).heard, |try.heard|;
      assert heard[..n] == try.heard && heard[n..] == later;
    }
  }

  lemma IdlePollThen(polls: nat, poll: seq<Answer>, later: seq<Answer>, rest: seq<Answer>)
    requires polls > 0 && IdlePoll(poll)
    requires AwaitErase(polls - 1, later + rest) == Listened(Done, later, rest)
    ensures AwaitErase(polls, poll + later + rest) == Listened(Done, poll + later, rest)
  {
    hide TrySync, IdlePoll;
    TrySyncIdle(poll, later + rest);
    assert poll + later + rest == poll + (later + rest);
  }

  lemma {:induction false} AwaitEraseComplete(polls: nat, heard: seq<Answer>, rest: seq<Answer>)
    requires ErasedAfter(heard, polls)
    ensures AwaitErase(polls, heard + rest) == Listened(Done, heard, rest)
    decreases polls
  {
    hide TrySync, IdlePoll, AwaitErase;
    if heard == ACK {
      AckErases(polls, rest);
    } else {
      var n :| 0 <= n <= |heard| && IdlePoll(heard[..n]) && ErasedAfter(heard[n..], polls - 1);
      AwaitEraseComplete(polls - 1, heard[n..], rest);
      IdlePollThen(polls, heard[..n], heard[n..], rest);
      assert heard == heard[..n] + heard[n..];
    }
  }

  lemma AckErases(polls: nat, rest: seq<Answer>)
    requires polls > 0
    ensures AwaitErase(polls, ACK + rest) == Listened(Done, ACK, rest)
  {
    hide TrySync;
    TrySyncAck(rest);
  }

  lemma AwaitSound(cmd: Command, polls: nat, answers: seq<Answer>)
    requires Await(cmd, polls, answers).result == Done
    ensures var l := Await(cmd, polls, answers); Acknowledged(cmd, polls, l.heard) && answers == l.heard + l.rest
  {
    hide AwaitErase, AwaitCrc, AwaitReadBack, GetSync, Spoken, WordBytes;
    match cmd
    case ChipErase => AwaitEraseSound(polls, answers);
    case GetCrc(crc) => AwaitCrcIff(crc, answers);
    case ReadMulti(expected) => AwaitReadBackIff(expected, answers);
    case _ => GetSyncIsAck(answers);
  }

  lemma AwaitComplete(cmd: Command, polls: nat, heard: seq<Answer>, rest: seq<Answer>)
    requires Acknowledged(cmd, polls, heard)
    ensures Await(cmd, polls, heard + rest) == Listened(Done, heard, rest)
  {
    hide AwaitErase, AwaitCrc, AwaitReadBack, GetSync, Spoken, WordBytes;
    var answers := heard + rest;
    assert heard <= answers && answers[|heard|..] == rest;
    match cmd
    case ChipErase => AwaitEraseComplete(polls, heard, rest);
    case GetCrc(crc) => AwaitCrcIff(crc, answers);
    case ReadMulti(expected) => AwaitReadBackIff(expected, answers);
    case _ => GetSyncIsAck(answers);
  }

  //
  // Runs
  //

  /** No command is written before the one before it was acknowledged. */
  lemma {:induction false} EarlierCommandsAcknowledged(script: seq<Command>, polls: nat, answers: seq<Answer>)
    ensures var r := RunScript(script, polls, answers);
      && (forall i | 0 <= i < |r.exchanges| - 1 :: Acknowledged(r.exchanges[i].cmd, polls, r.exchanges[i].heard))
      && (r.outcome == Done ==> |r.exchanges| == |script|)
      && (r.outcome == Done ==> forall i | 0 <= i < |script| :: Acknowledged(script[i], polls, r.exchanges[i].heard))
  {
    hide Await, Acknowledged;
    if script == [] {
    } else {
      var first := Await(script[0], polls, answers);
      if first.result == Done {
        AwaitSound(script[0], polls, answers);
        EarlierCommandsAcknowledged(script[1..], polls, first.rest);
      }
    }
  }

  /**
    A run that fails has failed at its last command: everything before it was acknowledged, and the
    reason is that command's, on what the device said from there on.
   */
  lemma {:induction false} RunFailsAtLast(script: seq<Command>, polls: nat, answers: seq<Answer>)
      returns (before: seq<Answer>, after: seq<Answer>)
    requires RunScript(script, polls, answers).outcome != Done
    ensures var r := RunScript(script, polls, answers);
      && r.exchanges != [] && answers == before + after
      && var l := Await(r.exchanges[|r.exchanges| - 1].cmd, polls, after);
        r.outcome == l.result && r.rest == l.rest && r.exchanges[|r.exchanges| - 1].heard == l.heard
  {
    hide Await, Acknowledged;
    if script == [] {
      assert false;
    } else {
      var first := Await(script[0], polls, answers);
      if first.result != Done {
        before, after := [], answers;
      } else {
        AwaitSound(script[0], polls, answers);
        before, after := RunFailsAtLast(script[1..], polls, first.rest);
        before := first.heard + before;
      }
    }
  }

  lemma {:induction false} NoRunNoticesDelay(script: seq<Command>, polls: nat, answers: seq<Answer>)
    ensures RunScript(script, polls, answers).outcome != Failed(DelayOutOfRange)
  {
    hide Await;
    if script == [] {
    } else {
      NoWaitNoticesDelay(script[0], polls, answers);
      NoRunNoticesDelay(script[1..], polls, Await(script[0], polls, answers).rest);
    }
  }

  lemma NoWaitNoticesDelay(cmd: Command, polls: nat, answers: seq<Answer>)
    ensures Await(cmd, polls, answers).result != Failed(DelayOutOfRange)
  {
    hide AwaitErase, Receive, Word;
    NoEraseNoticesDelay(polls, answers);
  }

  lemma {:induction false} NoEraseNoticesDelay(polls: nat, answers: seq<Answer>)
    ensures AwaitErase(polls, answers).result != Failed(DelayOutOfRange)
    decreases polls
  {
    hide TrySync;
    if polls == 0 {
    } else {
      NoEraseNoticesDelay(polls - 1, TrySync(answers).rest);
    }
  }

  //
  // What failures mean
  //

  /** The reasons for which synchronising fails, by the bytes that come. */
  lemma SyncFailures(later: seq<Answer>)
    ensures GetSync([]).result == GetSync([Silence] + later).result == Failed(TimedOut)
    ensures GetSync([Byte(0x12)]).result == GetSync([Byte(0x12), Silence] + later).result == Failed(TimedOut)
    ensures forall b | b != 0x12 :: GetSync([Byte(b)] + later).result == Failed(NotInSync(b))
    ensures GetSync([Byte(0x12), Byte(0x13)] + later).result == Failed(InvalidOperation)
    ensures GetSync([Byte(0x12), Byte(0x11)] + later).result == Failed(OperationFailed)
    ensures forall b | b !in {0x10, 0x11, 0x13} ::
      GetSync([Byte(0x12), Byte(b)] + later).result == Failed(Unexpected(b))
  {
  }

  /** n polls that neither succeed nor end the erase. */
  ghost predicate Idle(heard: seq<Answer>, n: nat)
    decreases n
  {
    if n == 0 then heard == []
    else exists k | 0 <= k <= |heard| :: IdlePoll(heard[..k]) && Idle(heard[k..], n - 1)
  }

  lemma IdlePollGoesOn(polls: nat, heard: seq<Answer>, rest: seq<Answer>)
    requires polls > 0 && IdlePoll(heard)
    ensures var l, more := AwaitErase(polls, heard + rest), AwaitErase(polls - 1, rest);
      l.result == more.result && l.rest == more.rest
  {
    hide AwaitErase;
    AwaitEraseStep(polls, heard + rest);
    if |heard| == 1 {
      assert (heard + rest)[1..] == rest;
    } else {
      assert (heard + rest)[1..][1..] == rest;
    }
  }

  lemma AwaitEraseStep(polls: nat, answers: seq<Answer>)
    requires polls > 0
    ensures var try := TrySync(answers);
      var l := AwaitErase(polls, answers);
      if try.result == Synced then l.result == Done && l.rest == try.rest
      else if try.result == Hopeless then l.result == Failed(BadSilicon) && l.rest == try.rest
      else
        var more := AwaitErase(polls - 1, try.rest);
        l.result == more.result && l.rest == more.rest
  {
    hide TrySync;
  }

  /** Idle polls as many as are allowed, and the erase times out. */
  lemma {:induction false} EraseTimesOut(polls: nat, heard: seq<Answer>, rest: seq<Answer>)
    requires Idle(heard, polls)
    ensures AwaitErase(polls, heard + rest).result == Failed(EraseTimedOut)
    ensures AwaitErase(polls, heard + rest).rest == rest
    decreases polls
  {
    hide IdlePoll;
    if polls == 0 {
      assert heard + rest == rest;
    } else {
      var k :| 0 <= k <= |heard| && IdlePoll(heard[..k]) && Idle(heard[k..], polls - 1);
      assert heard + rest == heard[..k] + (heard[k..] + rest);
      IdlePollGoesOn(polls, heard[..k], heard[k..] + rest);
      EraseTimesOut(polls - 1, heard[k..], rest);
    }
  }

  /** Fewer idle polls, and then the bytes 0x12 and 0x14: the silicon is refused. */
  lemma {:induction false} SiliconRefused(polls: nat, n: nat, heard: seq<Answer>, rest: seq<Answer>)
    requires n < polls && Idle(heard, n)
    ensures AwaitErase(polls, heard + ([Byte(0x12), Byte(0x14)] + rest)).result == Failed(BadSilicon)
    ensures AwaitErase(polls, heard + ([Byte(0x12), Byte(0x14)] + rest)).rest == rest
    decreases n
  {
    hide IdlePoll, AwaitErase;
    var last := [Byte(0x12), Byte(0x14)] + rest;
    if n == 0 {
      assert heard + last == last;
      assert last[1..][1..] == rest;
      AwaitEraseStep(polls, last);
    } else {
      var k :| 0 <= k <= |heard| && IdlePoll(heard[..k]) && Idle(heard[k..], n - 1);
      assert heard + last == heard[..k] + (heard[k..] + last);
      IdlePollGoesOn(polls, heard[..k], heard[k..] + last);
      SiliconRefused(polls - 1, n - 1, heard[k..], rest);
    }
  }

  /** An acknowledged checksum that is not the one expected is a mismatch. */
  lemma CrcMismatches(expected: bv32, report: bv32, later: seq<Answer>)
    requires report != expected
    ensures AwaitCrc(expected, Spoken(WordBytes(report)) + (ACK + later))
      == Listened(Failed(CrcMismatch), Spoken(WordBytes(report)) + ACK, later)
  {
    hide Receive, GetSync, Word, WordBytes, Spoken;
    ReceiveComplete(WordBytes(report), ACK + later);
    GetSyncIsAck(ACK + later);
    assert (ACK + later)[2..] == later;
    WordRoundTrip(report);
  }

  /** A block that reads back otherwise fails verification, before any acknowledgement is awaited. */
  lemma ReadBackDiffers(expected: seq<byte>, report: seq<byte>, later: seq<Answer>)
    requires |report| == |expected| && report != expected
    ensures AwaitReadBack(expected, Spoken(report) + later)
      == Listened(Failed(VerificationFailed), Spoken(report), later)
  {
    hide Receive, GetSync, Spoken;
    ReceiveComplete(report, later);
  }

  /** The device acknowledges every command of the script, in order, and nothing comes in between. */
  ghost predicate Answers(script: seq<Command>, polls: nat, dialogue: seq<seq<Answer>>)
  {
    |dialogue| == |script| && forall i | 0 <= i < |script| :: Acknowledged(script[i], polls, dialogue[i])
  }

  lemma {:induction false} CompleteDialogueSucceeds(
      script: seq<Command>, polls: nat, dialogue: seq<seq<Answer>>, rest: seq<Answer>)
    requires Answers(script, polls, dialogue)
    ensures var r := RunScript(script, polls, Flatten(dialogue) + rest);
      r.outcome == Done && r.rest == rest && |r.exchanges| == |script|
  {
    hide Await, Acknowledged;
    if script == [] {
      assert Flatten(dialogue) + rest == rest;
    } else {
      var later := Flatten(dialogue[1..]) + rest;
      assert Flatten(dialogue) + rest == dialogue[0] + later;
      AwaitComplete(script[0], polls, dialogue[0], later);
      CompleteDialogueSucceeds(script[1..], polls, dialogue[1..], rest);
    }
  }

  lemma {:induction false} SuccessHasDialogue(script: seq<Command>, polls: nat, answers: seq<Answer>)
      returns (dialogue: seq<seq<Answer>>)
    requires RunScript(script, polls, answers).outcome == Done
    ensures Answers(script, polls, dialogue)
    ensures answers == Flatten(dialogue) + RunScript(script, polls, answers).rest
  {
    hide Await, Acknowledged;
    if script == [] {
      dialogue := [];
    } else {
      var first := Await(script[0], polls, answers);
      AwaitSound(script[0], polls, answers);
      var more := SuccessHasDialogue(script[1..], polls, first.rest);
      dialogue := [first.heard] + more;
      assert dialogue[1..] == more;
    }
  }

  /** A run succeeds if and only if what the device says begins with an acknowledgement of every command. */
  lemma RunSucceedsIff(script: seq<Command>, polls: nat, answers: seq<Answer>)
    ensures RunScript(script, polls, answers).outcome == Done
      <==> exists dialogue :: Answers(script, polls, dialogue) && Flatten(dialogue) <= answers
  {
    hide Await, Acknowledged;
    if RunScript(script, polls, answers).outcome == Done {
      var dialogue := SuccessHasDialogue(script, polls, answers);
      assert Flatten(dialogue) <= answers;
    }
    if dialogue :| Answers(script, polls, dialogue) && Flatten(dialogue) <= answers {
      assert answers == Flatten(dialogue) + answers[|Flatten(dialogue)|..];
      CompleteDialogueSucceeds(script, polls, dialogue, answers[|Flatten(dialogue)|..]);
    }
  }

  //
  // Runs and logs put together
  //

  /** A run continued with a further script, if it got to its end. */
  function Then(r: Run, script: seq<Command>, polls: nat): Run
  {
    if r.outcome != Done then r
    else
      var more := RunScript(script, polls, r.rest);
      Run(more.outcome, r.exchanges + more.exchanges, more.rest)
  }

  lemma {:induction false} RunAppend(a: seq<Command>, b: seq<Command>, polls: nat, answers: seq<Answer>)
    ensures RunScript(a + b, polls, answers) == Then(RunScript(a, polls, answers), b, polls)
    decreases |a|
  {
    hide Await;
    if a == [] {
      assert a + b == b;
      assert [] + RunScript(b, polls, answers).exchanges == RunScript(b, polls, answers).exchanges;
    } else {
      assert (a + b)[1..] == a[1..] + b;
      var first := Await(a[0], polls, answers);
      RunAppend(a[1..], b, polls, first.rest);
      var x, y := RunScript(a[1..], polls, first.rest), RunScript(a[1..] + b, polls, first.rest);
      if first.result == Done && x.outcome == Done {
        var more := RunScript(b, polls, x.rest).exchanges;
        assert [Exchange(a[0], first.heard)] + (x.exchanges + more)
            == [Exchange(a[0], first.heard)] + x.exchanges + more;
      }
    }
  }

  ghost predicate SendableExchanges(exchanges: seq<Exchange>)
  {
    forall i | 0 <= i < |exchanges| :: Sendable(exchanges[i].cmd)
  }

  lemma {:induction false} TranscriptAppend(a: seq<Exchange>, b: seq<Exchange>)
    requires SendableExchanges(a) && SendableExchanges(b)
    ensures SendableExchanges(a + b)
    ensures Transcript(a + b) == Transcript(a) + Transcript(b)
    decreases |a|
  {
    hide Sendable, Frames, Writes, Hearings;
    if a == [] {
      assert a + b == b;
    } else {
      assert (a + b)[1..] == a[1..] + b;
      TranscriptAppend(a[1..], b);
    }
  }

  /** The run r happened on a port: outcome, what is left to hear, and what was added to the log. */
  ghost predicate Played(r: Run, outcome: Outcome, answers: seq<Answer>, before: seq<Event>, log: seq<Event>)
  {
    && outcome == r.outcome
    && answers == r.rest
    && SendableExchanges(r.exchanges)
    && log == before + Transcript(r.exchanges)
  }

  lemma PlayedThen(r: Run, script: seq<Command>, polls: nat, outcome: Outcome,
                   middle: seq<Answer>, answers: seq<Answer>,
                   before: seq<Event>, between: seq<Event>, log: seq<Event>)
    requires Played(r, Done, middle, before, between)
    requires Played(RunScript(script, polls, middle), outcome, answers, between, log)
    ensures Played(Then(r, script, polls), outcome, answers, before, log)
  {
    hide RunScript, Transcript, SendableExchanges;
    TranscriptAppend(r.exchanges, RunScript(script, polls, middle).exchanges);
  }

  /** One command, written and then awaited. */
  lemma PlayedOne(cmd: Command, polls: nat, before: seq<Event>, answers: seq<Answer>)
    requires Sendable(cmd)
    ensures var l := Await(cmd, polls, answers);
      Played(RunScript([cmd], polls, answers), l.result, l.rest, before,
        before + Writes(Frames(cmd)) + Hearings(l.heard))
  {
    hide Await, Sendable, Frames, Writes, Hearings;
    var l := Await(cmd, polls, answers);
    var ex := [Exchange(cmd, l.heard)];
    assert [cmd][1..] == [];
    assert RunScript([cmd], polls, answers).exchanges == ex;
    assert Transcript(ex) == Writes(Frames(cmd)) + Hearings(l.heard) + Transcript(ex[1..]);
    assert ex[1..] == [];
  }
}
