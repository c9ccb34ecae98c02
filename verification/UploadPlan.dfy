/** The script of one upload, and what every run of it keeps. */
module UploadPlan {
  import opened Basics
  import opened Crc32
  import opened Firmware
  import opened Bootloader
  import opened BootloaderSafety

  /** Pieces of at most n bytes. */
  function SplitLen(s: seq<byte>, n: nat): (pieces: seq<seq<byte>>)
    requires n > 0
  {
    if s == [] then [] else if |s| <= n then [s] else [s[..n]] + SplitLen(s[n..], n)
  }

  /** Splitting loses nothing, and only the last piece may be short, never empty. */
  lemma {:induction false} SplitLenPieces(s: seq<byte>, n: nat)
    requires n > 0
    ensures Flatten(SplitLen(s, n)) == s
    ensures forall i | 0 <= i < |SplitLen(s, n)| :: 0 < |SplitLen(s, n)[i]| <= n
    ensures forall i | 0 <= i < |SplitLen(s, n)| - 1 :: |SplitLen(s, n)[i]| == n
    decreases |s|
  {
    if |s| > n {
      SplitLenPieces(s[n..], n);
      assert Flatten(SplitLen(s, n)) == s[..n] + Flatten(SplitLen(s[n..], n));
    } else if s != [] {
      assert Flatten([s]) == s + Flatten([]);
    }
  }

  datatype Job = Job(blRev: int, maxsize: int, polls: nat, delay: Option<int>, image: seq<byte>)

  function Programs(groups: seq<seq<byte>>): (script: seq<Command>)
    ensures |script| == |groups|
  {
    seq(|groups|, i requires 0 <= i < |groups| => ProgMulti(groups[i]))
  }

  function ReadBacks(groups: seq<seq<byte>>): (script: seq<Command>)
    ensures |script| == |groups|
  {
    seq(|groups|, i requires 0 <= i < |groups| => ReadMulti(groups[i]))
  }

  function Verification(job: Job): seq<Command>
  {
    if job.blRev == 2 then [ChipVerify] + ReadBacks(SplitLen(job.image, READ_MULTI_MAX))
    else [GetCrc(ExpectedCrc(job.image, job.maxsize))]
  }

  /** Erase, one command per group, verify. */
  function Body(job: Job): seq<Command>
  {
    [ChipErase] + Programs(SplitLen(job.image, PROG_MULTI_MAX)) + Verification(job)
  }

  predicate DelayFits(delay: Option<int>)
  {
    delay.Some? ==> -128 <= delay.value < 128
  }

  function Delays(job: Job): seq<Command>
  {
    match job.delay
    case None => []
    case Some(d) => [SetBootDelay(d)]
  }

  function FinalReboot(job: Job): Command
  {
    Reboot(job.blRev >= 3)
  }

  function Script(job: Job): seq<Command>
  {
    Body(job) + Delays(job) + [FinalReboot(job)]
  }

  /** From the erase onward. A boot delay that does not fit a signed byte is noticed only after verifying. */
  function UploadRun(job: Job, answers: seq<Answer>): Run
  {
    if DelayFits(job.delay) then RunScript(Script(job), job.polls, answers)
    else
      var r := RunScript(Body(job), job.polls, answers);
      if r.outcome == Done then Run(Failed(DelayOutOfRange), r.exchanges, r.rest) else r
  }

  lemma NoRebootInBody(job: Job)
    ensures forall i | 0 <= i < |Body(job)| :: !Body(job)[i].Reboot?
    ensures forall i | 0 <= i < |Delays(job)| :: !Delays(job)[i].Reboot?
  {
  }

  /** Whatever the device says, the commands written are a prefix of the script. */
  lemma CommandsFollowScript(job: Job, answers: seq<Answer>)
    ensures var ex := UploadRun(job, answers).exchanges;
      |ex| <= |Script(job)| && forall i | 0 <= i < |ex| :: ex[i].cmd == Script(job)[i]
  {
    hide Body;
  }

  /**
    Whatever the device says: if the reboot command is written at all, it is written last, after the
    erase, every group, the verification and any boot delay, each of them acknowledged.
   */
  lemma RebootOnlyAfterVerification(job: Job, answers: seq<Answer>, k: nat)
    requires k < |UploadRun(job, answers).exchanges|
    requires UploadRun(job, answers).exchanges[k].cmd.Reboot?
    ensures var ex := UploadRun(job, answers).exchanges;
      var before := Body(job) + Delays(job);
      && k == |ex| - 1 == |before|
      && DelayFits(job.delay)
      && forall i | 0 <= i < k :: ex[i].cmd == before[i] && Acknowledged(before[i], job.polls, ex[i].heard)
  {
    hide Body, Acknowledged, RunScript, Delays;
    var ex := UploadRun(job, answers).exchanges;
    var before := Body(job) + Delays(job);
    NoRebootInBody(job);
    if DelayFits(job.delay) {
      EarlierCommandsAcknowledged(Script(job), job.polls, answers);
    }
  }

  /** An upload succeeds if and only if the delay fits and every command of the script is acknowledged. */
  lemma UploadSucceedsIff(job: Job, answers: seq<Answer>)
    ensures UploadRun(job, answers).outcome == Done
      <==> DelayFits(job.delay)
           && exists dialogue :: Answers(Script(job), job.polls, dialogue) && Flatten(dialogue) <= answers
  {
    hide Body, Acknowledged, RunScript, Script;
    RunSucceedsIff(Script(job), job.polls, answers);
  }

  /**
    A successful upload ends with the boot delay asked for, if any, and then the reboot, awaited from
    revision 3 on; and whatever the device says, no other boot delay is ever written.
   */
  lemma DelayIsSent(job: Job, answers: seq<Answer>)
    ensures var r := UploadRun(job, answers);
      var ex, n := r.exchanges, |r.exchanges|;
      && (r.outcome == Done ==>
            && n >= 1 && ex[n - 1].cmd == Reboot(job.blRev >= 3)
            && (job.delay.Some? ==> n >= 2 && ex[n - 2].cmd == SetBootDelay(job.delay.value)))
      && (forall i | 0 <= i < n && ex[i].cmd.SetBootDelay? :: job.delay == Some(ex[i].cmd.delay))
  {
    hide Body, RunScript, Acknowledged;
    CommandsFollowScript(job, answers);
    NoDelayInBody(job);
    if DelayFits(job.delay) {
      EarlierCommandsAcknowledged(Script(job), job.polls, answers);
    }
  }

  lemma NoDelayInBody(job: Job)
    ensures forall i | 0 <= i < |Body(job)| :: !Body(job)[i].SetBootDelay?
  {
  }

  /** A boot delay out of range is noticed when, and only when, everything before it was acknowledged. */
  lemma BadDelayNoticedLast(job: Job, answers: seq<Answer>)
    requires !DelayFits(job.delay)
    ensures var r := UploadRun(job, answers);
      && r.outcome != Done
      && (r.outcome == Failed(DelayOutOfRange)
          <==> exists dialogue :: Answers(Body(job), job.polls, dialogue) && Flatten(dialogue) <= answers)
      && (r.outcome == Failed(DelayOutOfRange) ==> |r.exchanges| == |Body(job)|)
  {
    hide Body, RunScript, Acknowledged;
    RunSucceedsIff(Body(job), job.polls, answers);
    NoRunNoticesDelay(Body(job), job.polls, answers);
    EarlierCommandsAcknowledged(Body(job), job.polls, answers);
  }

  /** Programming goes in groups of 252 bytes, and so does reading back; only a last group is smaller. */
  lemma GroupsOf252(job: Job)
    ensures var body := Body(job);
      && body != [] && body[0] == ChipErase
      && (forall i | 0 <= i < |body| && body[i].ProgMulti? ::
            0 < |body[i].data| <= 252 && (|body[i].data| < 252 ==> i + 1 == |body| || !body[i + 1].ProgMulti?))
      && (forall i | 0 <= i < |body| && body[i].ReadMulti? ::
            0 < |body[i].expected| <= 252 && (|body[i].expected| < 252 ==> i + 1 == |body|))
  {
    hide SplitLen, ExpectedCrc;
    SplitLenPieces(job.image, PROG_MULTI_MAX);
    SplitLenPieces(job.image, READ_MULTI_MAX);
    var programs, check := Programs(SplitLen(job.image, PROG_MULTI_MAX)), Verification(job);
    var body, n := Body(job), 1 + |programs|;
    assert body == [ChipErase] + programs + check;
    forall i | 0 <= i < |body|
      ensures body[i] == if i == 0 then ChipErase else if i < n then programs[i - 1] else check[i - n]
    {
    }
  }
}
