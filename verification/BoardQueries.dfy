/**
  What the uploader asks a bootloader of revision 4 or 5 before it erases: the one-time-programmable
  memory, which must answer, and the serial number and chip, whose failures are passed over.
 */
module BoardQueries {
  import opened Basics
  import opened ByteNumbers
  import opened Crc32
  import opened Bootloader
  import opened BootloaderSafety
  import BootloaderWire

  const GET_OTP: byte := 0x2a
  const GET_SN: byte := 0x2b
  const GET_CHIP: byte := 0x2c
  const GET_CHIP_DES: byte := 0x2e

  datatype Query = Memory(area: byte, address: byte) | Chip | Description

  /** A query is one write; an address is four bytes, lowest first. */
  function QueryBytes(q: Query): seq<byte>
  {
    match q
    case Memory(area, address) => [area, address, 0, 0, 0, EOC]
    case Chip => [GET_CHIP, EOC]
    case Description => [GET_CHIP_DES, EOC]
  }

  function Followed(first: Listened<seq<byte>>, second: Listened<Outcome>): Listened<Outcome>
  {
    Listened(second.result, first.heard + second.heard, second.rest)
  }

  /** Some bytes, at least one, then the acknowledgement. */
  function AskBytes(count: nat, answers: seq<Answer>): Listened<Outcome>
  {
    var raw := Receive(count, answers);
    if |raw.result| < 1 then Listened(Failed(TimedOut), raw.heard, raw.rest) else Followed(raw, GetSync(raw.rest))
  }

  /** A memory word may come short; the chip's version and the length of its description may not. */
  function Ask(q: Query, answers: seq<Answer>): Listened<Outcome>
  {
    if q.Memory? then AskBytes(4, answers)
    else
      var raw := Receive(4, answers);
      if |raw.result| < 1 then Listened(Failed(TimedOut), raw.heard, raw.rest)
      else if |raw.result| < 4 then Listened(Failed(ShortRead), raw.heard, raw.rest)
      else if q.Chip? then Followed(raw, GetSync(raw.rest))
      else Followed(raw, AskBytes(Word(raw.result) as nat, raw.rest))
  }

  datatype Asked = Asked(outcome: Outcome, log: seq<Event>, rest: seq<Answer>)

  function AskedOne(q: Query, answers: seq<Answer>): Asked
  {
    var l := Ask(q, answers);
    Asked(l.result, [Wrote(QueryBytes(q))] + Hearings(l.heard), l.rest)
  }

  /** Each query in turn, as long as the one before was acknowledged. */
  function AskAll(qs: seq<Query>, answers: seq<Answer>): Asked
    decreases |qs|
  {
    if qs == [] then Asked(Done, [], answers)
    else
      var first := AskedOne(qs[0], answers);
      if first.outcome != Done then first
      else
        var more := AskAll(qs[1..], first.rest);
        more.(log := first.log + more.log)
  }

  function Words(area: byte, count: nat): (qs: seq<Query>)
    requires count <= 64
    ensures |qs| == count
  {
    seq(count, i requires 0 <= i < count => Memory(area, CountByte(4 * i)))
  }

  const OTP_QUERIES: seq<Query> := Words(GET_OTP, 48)

  function InfoQueries(blRev: int): seq<Query>
  {
    Words(GET_SN, 3) + [Chip] + if blRev >= 5 then [Description] else []
  }

  /** A failure to read one-time-programmable memory ends the upload; one to read the rest does not. */
  function Preamble(blRev: int, answers: seq<Answer>): Asked
  {
    if blRev <= 3 then Asked(Done, [], answers)
    else
      var otp := AskAll(OTP_QUERIES, answers);
      if otp.outcome != Done then otp
      else
        var info := AskAll(InfoQueries(blRev), otp.rest);
        Asked(Done, otp.log + info.log, info.rest)
  }

  //
  // Queries one after the other
  //

  lemma NothingAsked(answers: seq<Answer>)
    ensures AskAll([], answers) == Asked(Done, [], answers)
  {
  }

  lemma OneAsked(q: Query, answers: seq<Answer>)
    ensures AskAll([q], answers) == AskedOne(q, answers)
  {
    hide AskedOne;
    var one := AskedOne(q, answers);
    assert [q][1..] == [];
    assert one.log + [] == one.log;
  }

  lemma {:induction false} AskAppend(a: seq<Query>, b: seq<Query>, answers: seq<Answer>)
    ensures var first := AskAll(a, answers);
      AskAll(a + b, answers) ==
        if first.outcome != Done then first
        else var more := AskAll(b, first.rest); more.(log := first.log + more.log)
    decreases |a|
  {
    hide AskedOne;
    if a == [] {
      assert a + b == b;
    } else {
      assert (a + b)[0] == a[0] && (a + b)[1..] == a[1..] + b;
      var one := AskedOne(a[0], answers);
      AskAppend(a[1..], b, one.rest);
      var first := AskAll(a[1..], one.rest);
      var more := AskAll(b, first.rest);
      assert one.log + (first.log + more.log) == one.log + first.log + more.log;
    }
  }

  /** One more query after i that were acknowledged; a failure ends the whole list. */
  lemma OneMoreAsked(qs: seq<Query>, i: nat, answers: seq<Answer>)
    requires i < |qs| && AskAll(qs[..i], answers).outcome == Done
    ensures var first := AskAll(qs[..i], answers);
      var one := AskedOne(qs[i], first.rest);
      var next := one.(log := first.log + one.log);
      && AskAll(qs[..i + 1], answers) == next
      && (one.outcome != Done ==> AskAll(qs, answers) == next)
  {
    hide AskedOne, AskAll;
    AskAppend(qs[..i], [qs[i]], answers);
    OneAsked(qs[i], AskAll(qs[..i], answers).rest);
    assert qs[..i] + [qs[i]] == qs[..i + 1];
    AskAppend(qs[..i + 1], qs[i + 1..], answers);
    assert qs[..i + 1] + qs[i + 1..] == qs;
  }

  lemma InfoAsked(blRev: int, answers: seq<Answer>)
    ensures var sn := AskAll(Words(GET_SN, 3), answers);
      var chip := AskedOne(Chip, sn.rest);
      var des := AskedOne(Description, chip.rest);
      AskAll(InfoQueries(blRev), answers) ==
        if sn.outcome != Done then sn
        else if chip.outcome != Done || blRev < 5 then chip.(log := sn.log + chip.log)
        else des.(log := sn.log + chip.log + des.log)
  {
    hide AskedOne, AskAll, Words;
    var sn := AskAll(Words(GET_SN, 3), answers);
    AskAppend(Words(GET_SN, 3), [Chip], answers);
    OneAsked(Chip, sn.rest);
    AskAppend(Words(GET_SN, 3) + [Chip], [Description], answers);
    OneAsked(Description, AskedOne(Chip, sn.rest).rest);
    assert Words(GET_SN, 3) + [Chip] + [] == Words(GET_SN, 3) + [Chip];
  }

  //
  // When a query succeeds
  //

  /** What is heard when a read of count bytes gets these: a silence ends a short one. */
  function Said(bytes: seq<byte>, count: nat): seq<Answer>
  {
    Spoken(bytes) + if |bytes| < count then [Silence] else []
  }

  lemma {:induction false} ReceiveHears(count: nat, answers: seq<Answer>)
    ensures var l := Receive(count, answers);
      && l.heard == Said(l.result, count)
      && (l.rest == [] || answers == l.heard + l.rest)
    decreases count
  {
    hide Receive, Spoken;
    NothingSpoken();
    ReceiveCases(count, answers);
    if count > 0 && answers != [] && answers[0].Byte? {
      var b, more := answers[0].b, Receive(count - 1, answers[1..]);
      ReceiveHears(count - 1, answers[1..]);
      SpokenFirst(b, more.result);
      assert [Byte(b)] + Said(more.result, count - 1) == Said([b] + more.result, count);
      assert answers == [answers[0]] + answers[1..];
    }
  }

  lemma ReceiveCases(count: nat, answers: seq<Answer>)
    ensures Receive(count, answers) ==
      if count == 0 then Listened([], [], answers)
      else if answers == [] then Listened([], [Silence], [])
      else if answers[0] == Silence then Listened([], [Silence], answers[1..])
      else
        var more := Receive(count - 1, answers[1..]);
        Listened([answers[0].b] + more.result, [answers[0]] + more.heard, more.rest)
  {
  }

  lemma {:induction false} ReceiveSaid(bytes: seq<byte>, count: nat, rest: seq<Answer>)
    requires |bytes| <= count
    ensures Receive(count, Said(bytes, count) + rest) == Listened(bytes, Said(bytes, count), rest)
    decreases |bytes|
  {
    hide Receive, Spoken;
    var said := Said(bytes, count);
    ReceiveCases(count, said + rest);
    if bytes == [] {
      NothingSpoken();
      if count == 0 {
        assert said + rest == rest;
      } else {
        assert said == [Silence] && (said + rest)[1..] == rest;
      }
    } else {
      var b, more := bytes[0], bytes[1..];
      assert bytes == [b] + more;
      SpokenFirst(b, more);
      ReceiveSaid(more, count - 1, rest);
      assert said == [Byte(b)] + Said(more, count - 1);
      assert (said + rest)[0] == Byte(b) && (said + rest)[1..] == Said(more, count - 1) + rest;
    }
  }

  lemma NothingSpoken()
    ensures Spoken([]) == []
  {
  }

  /** Some of count bytes, and the acknowledgement. */
  ghost predicate BytesAnswered(count: nat, heard: seq<Answer>)
  {
    exists bytes: seq<byte> :: 1 <= |bytes| <= count && heard == Said(bytes, count) + ACK
  }

  lemma AskBytesHears(count: nat, answers: seq<Answer>)
    requires AskBytes(count, answers).result == Done
    ensures var l := AskBytes(count, answers);
      BytesAnswered(count, l.heard) && answers == l.heard + l.rest
  {
    hide Receive, GetSync, Said;
    var raw := Receive(count, answers);
    ReceiveHears(count, answers);
    GetSyncIsAck(raw.rest);
    assert raw.rest == ACK + raw.rest[2..];
    assert answers == raw.heard + ACK + raw.rest[2..];
  }

  lemma AskBytesOf(count: nat, heard: seq<Answer>, later: seq<Answer>)
    requires BytesAnswered(count, heard)
    ensures AskBytes(count, heard + later) == Listened(Done, heard, later)
  {
    hide Receive, GetSync, Said;
    var bytes: seq<byte> :| 1 <= |bytes| <= count && heard == Said(bytes, count) + ACK;
    assert heard + later == Said(bytes, count) + (ACK + later);
    ReceiveSaid(bytes, count, ACK + later);
    GetSyncIsAck(ACK + later);
    assert (ACK + later)[2..] == later;
  }

  /** An answer the program takes for one to the query: a short memory word or description will do. */
  ghost predicate AnswersQuery(q: Query, heard: seq<Answer>)
  {
    match q
    case Memory(_, _) => BytesAnswered(4, heard)
    case Chip => exists word: seq<byte> :: |word| == 4 && heard == Spoken(word) + ACK
    case Description =>
      exists word: seq<byte>, text: seq<Answer> ::
        |word| == 4 && BytesAnswered(Word(word) as nat, text) && heard == Spoken(word) + text
  }

  lemma WordHeard(answers: seq<Answer>)
    requires |Receive(4, answers).result| == 4
    ensures var raw := Receive(4, answers);
      raw.heard == Spoken(raw.result) && answers == raw.heard + raw.rest
  {
    hide Receive, Spoken;
    ReceiveSound(4, answers);
  }

  lemma AskHears(q: Query, answers: seq<Answer>)
    requires Ask(q, answers).result == Done
    ensures var l := Ask(q, answers); AnswersQuery(q, l.heard) && answers == l.heard + l.rest
  {
    hide Receive, GetSync, AskBytes, Word, Spoken, BytesAnswered;
    if q.Memory? {
      AskBytesHears(4, answers);
    } else {
      var raw := Receive(4, answers);
      WordHeard(answers);
      if q.Chip? {
        GetSyncIsAck(raw.rest);
        assert answers == raw.heard + ACK + raw.rest[2..];
      } else {
        var n := Word(raw.result) as nat;
        AskBytesHears(n, raw.rest);
        var text := AskBytes(n, raw.rest);
        assert answers == raw.heard + text.heard + text.rest;
      }
    }
  }

  lemma AskOf(q: Query, heard: seq<Answer>, later: seq<Answer>)
    requires AnswersQuery(q, heard)
    ensures Ask(q, heard + later) == Listened(Done, heard, later)
  {
    hide Receive, GetSync, AskBytes, Word, Spoken, BytesAnswered;
    match q
    case Memory(_, _) =>
      AskBytesOf(4, heard, later);
    case Chip =>
      var word: seq<byte> :| |word| == 4 && heard == Spoken(word) + ACK;
      assert heard + later == Spoken(word) + (ACK + later);
      ReceiveComplete(word, ACK + later);
      GetSyncIsAck(ACK + later);
      assert (ACK + later)[2..] == later;
    case Description =>
      var word: seq<byte>, text: seq<Answer> :|
        |word| == 4 && BytesAnswered(Word(word) as nat, text) && heard == Spoken(word) + text;
      assert heard + later == Spoken(word) + (text + later);
      ReceiveComplete(word, text + later);
      AskBytesOf(Word(word) as nat, text, later);
  }

  /** A query succeeds if and only if what the device says begins with an answer to it, and consumes just that. */
  lemma AskSucceedsIff(q: Query, answers: seq<Answer>)
    ensures Ask(q, answers).result == Done <==> exists heard :: AnswersQuery(q, heard) && heard <= answers
    ensures Ask(q, answers).result == Done ==> answers == Ask(q, answers).heard + Ask(q, answers).rest
  {
    hide Ask, AnswersQuery;
    if Ask(q, answers).result == Done {
      AskHears(q, answers);
    }
    if heard :| AnswersQuery(q, heard) && heard <= answers {
      assert answers == heard + answers[|heard|..];
      AskOf(q, heard, answers[|heard|..]);
    }
  }

  ghost predicate AllAnswered(qs: seq<Query>, dialogue: seq<seq<Answer>>)
  {
    |dialogue| == |qs| && forall i | 0 <= i < |qs| :: AnswersQuery(qs[i], dialogue[i])
  }

  lemma {:induction false} QueriesAnswered(qs: seq<Query>, dialogue: seq<seq<Answer>>, later: seq<Answer>)
    requires AllAnswered(qs, dialogue)
    ensures var all := AskAll(qs, Flatten(dialogue) + later); all.outcome == Done && all.rest == later
    decreases |qs|
  {
    hide Ask, AnswersQuery;
    if qs == [] {
      assert Flatten(dialogue) + later == later;
    } else {
      var rest := Flatten(dialogue[1..]) + later;
      assert Flatten(dialogue) + later == dialogue[0] + rest;
      AskOf(qs[0], dialogue[0], rest);
      QueriesAnswered(qs[1..], dialogue[1..], later);
    }
  }

  lemma {:induction false} QueriesHadAnswers(qs: seq<Query>, answers: seq<Answer>) returns (dialogue: seq<seq<Answer>>)
    requires AskAll(qs, answers).outcome == Done
    ensures AllAnswered(qs, dialogue) && answers == Flatten(dialogue) + AskAll(qs, answers).rest
    decreases |qs|
  {
    hide Ask, AnswersQuery;
    if qs == [] {
      dialogue := [];
    } else {
      var first := Ask(qs[0], answers);
      AskHears(qs[0], answers);
      var more := QueriesHadAnswers(qs[1..], first.rest);
      dialogue := [first.heard] + more;
      assert dialogue[1..] == more;
      assert answers == first.heard + Flatten(more) + AskAll(qs, answers).rest;
    }
  }

  /**
    The erase is reached if and only if the bootloader has revision 3 or less, or what it says begins
    with an answer to every query of one-time-programmable memory.
   */
  lemma PreambleSucceedsIff(blRev: int, answers: seq<Answer>)
    ensures Preamble(blRev, answers).outcome == Done
      <==> blRev <= 3 || exists dialogue :: AllAnswered(OTP_QUERIES, dialogue) && Flatten(dialogue) <= answers
  {
    hide AskAll, AllAnswered;
    if AskAll(OTP_QUERIES, answers).outcome == Done {
      var dialogue := QueriesHadAnswers(OTP_QUERIES, answers);
      assert AllAnswered(OTP_QUERIES, dialogue) && Flatten(dialogue) <= answers;
    }
    if dialogue :| AllAnswered(OTP_QUERIES, dialogue) && Flatten(dialogue) <= answers {
      var later := answers[|Flatten(dialogue)|..];
      assert answers == Flatten(dialogue) + later;
      QueriesAnswered(OTP_QUERIES, dialogue, later);
    }
  }

  /** A device that answers every query leaves the upload to begin with what it says next. */
  lemma PreambleAnswered(blRev: int, otp: seq<seq<Answer>>, info: seq<seq<Answer>>, later: seq<Answer>)
    requires blRev > 3 && AllAnswered(OTP_QUERIES, otp) && AllAnswered(InfoQueries(blRev), info)
    ensures var p := Preamble(blRev, Flatten(otp) + (Flatten(info) + later)); p.outcome == Done && p.rest == later
  {
    hide AskAll, AllAnswered;
    QueriesAnswered(OTP_QUERIES, otp, Flatten(info) + later);
    QueriesAnswered(InfoQueries(blRev), info, later);
  }

  //
  // A device that answers late
  //

  /**
    The answer AskBytes waits for is broken off at x, and eaten is taken for what was to come: nothing,
    if x ends behind the bytes or within the acknowledgement; but behind some of the bytes the next
    answer is taken for INSYNC, and the one behind it for OK.
   */
  ghost predicate BytesBreakOff(count: nat, x: seq<Answer>, eaten: seq<Answer>)
  {
    exists bytes: seq<byte> ::
      && 1 <= |bytes| <= count
      && (|| (eaten == [] && (x == Said(bytes, count) || x == Said(bytes, count) + [Byte(INSYNC)]))
          || (|bytes| < count && x == Spoken(bytes) && NoSync(eaten)))
  }

  predicate NoSync(eaten: seq<Answer>)
  {
    || (|eaten| == 1 && eaten[0] != Byte(INSYNC))
    || (|eaten| == 2 && eaten[0] == Byte(INSYNC) && eaten[1] != Byte(OK))
  }

  /** The same for a query, whose answer may also break off at its start or within a word that must be whole. */
  ghost predicate BreaksOff(q: Query, x: seq<Answer>, eaten: seq<Answer>)
  {
    || (x == [] && eaten == [])
    || match q
       case Memory(_, _) => BytesBreakOff(4, x, eaten)
       case Chip => eaten == [] && (WordBreaksOff(x) || ChipBreaksOff(x))
       case Description => (eaten == [] && WordBreaksOff(x)) || TextBreaksOff(x, eaten)
  }

  ghost predicate WordBreaksOff(x: seq<Answer>)
  {
    exists bytes: seq<byte> :: 1 <= |bytes| < 4 && x == Spoken(bytes)
  }

  ghost predicate ChipBreaksOff(x: seq<Answer>)
  {
    exists word: seq<byte> :: |word| == 4 && (x == Spoken(word) || x == Spoken(word) + [Byte(INSYNC)])
  }

  ghost predicate TextBreaksOff(x: seq<Answer>, eaten: seq<Answer>)
  {
    exists word: seq<byte>, text: seq<Answer> ::
      && |word| == 4 && Word(word) != 0 && x == Spoken(word) + text
      && ((text == [] && eaten == []) || BytesBreakOff(Word(word) as nat, text, eaten))
  }

  lemma SilenceEnds(count: nat, y: seq<Answer>)
    requires count > 0
    ensures Receive(count, [Silence] + y) == Listened([], [Silence], y)
    ensures GetSync([Silence] + y) == Listened(Failed(TimedOut), [Silence], y)
    ensures GetSync([Byte(INSYNC)] + ([Silence] + y)) == Listened(Failed(TimedOut), [Byte(INSYNC)] + [Silence], y)
  {
    hide Receive;
    ReceiveCases(count, [Silence] + y);
    assert ([Silence] + y)[1..] == y;
    assert ([Byte(INSYNC)] + ([Silence] + y))[1..] == [Silence] + y;
  }

  lemma NoSyncFails(eaten: seq<Answer>, y: seq<Answer>)
    requires NoSync(eaten)
    ensures GetSync(eaten + y).result != Done && GetSync(eaten + y).rest == y
  {
    if |eaten| == 1 {
      assert (eaten + y)[1..] == y;
    } else {
      assert (eaten + y)[1..][1..] == y;
    }
  }

  /** A failure that leaves just y. */
  ghost predicate Fails(l: Listened<Outcome>, y: seq<Answer>)
  {
    l.result != Done && l.rest == y
  }

  lemma ShortBytesFail(count: nat, bytes: seq<byte>, eaten: seq<Answer>, y: seq<Answer>)
    requires 1 <= |bytes| < count && NoSync(eaten)
    ensures Fails(AskBytes(count, Spoken(bytes) + ([Silence] + (eaten + y))), y)
  {
    hide Receive, GetSync, Spoken, NoSync;
    NoSyncFails(eaten, y);
    ReceiveSaid(bytes, count, eaten + y);
    assert Spoken(bytes) + ([Silence] + (eaten + y)) == Said(bytes, count) + (eaten + y);
  }

  lemma SyncFails(count: nat, bytes: seq<byte>, sync: seq<Answer>, y: seq<Answer>)
    requires 1 <= |bytes| <= count && (sync == [] || sync == [Byte(INSYNC)])
    ensures Fails(AskBytes(count, Said(bytes, count) + sync + ([Silence] + y)), y)
  {
    hide Receive, GetSync, Said;
    SilenceEnds(count, y);
    ReceiveSaid(bytes, count, sync + ([Silence] + y));
    assert Said(bytes, count) + sync + ([Silence] + y) == Said(bytes, count) + (sync + ([Silence] + y));
    assert [] + ([Silence] + y) == [Silence] + y;
  }

  lemma BytesFail(count: nat, x: seq<Answer>, eaten: seq<Answer>, y: seq<Answer>)
    requires count > 0 && ((x == [] && eaten == []) || BytesBreakOff(count, x, eaten))
    ensures Fails(AskBytes(count, x + ([Silence] + (eaten + y))), y)
  {
    hide AskBytes, Said, NoSync, Spoken, Fails;
    if x == [] && eaten == [] {
      NoBytesFail(count, y);
      assert x + ([Silence] + (eaten + y)) == [Silence] + y;
    } else {
      var bytes: seq<byte> :|
        && 1 <= |bytes| <= count
        && (|| (eaten == [] && (x == Said(bytes, count) || x == Said(bytes, count) + [Byte(INSYNC)]))
            || (|bytes| < count && x == Spoken(bytes) && NoSync(eaten)));
      if |bytes| < count && x == Spoken(bytes) && NoSync(eaten) {
        ShortBytesFail(count, bytes, eaten, y);
      } else {
        assert eaten + y == y;
        assert Said(bytes, count) + [] == Said(bytes, count);
        SyncFails(count, bytes, if x == Said(bytes, count) then [] else [Byte(INSYNC)], y);
      }
    }
  }

  lemma NoBytesFail(count: nat, y: seq<Answer>)
    requires count > 0
    ensures Fails(AskBytes(count, [Silence] + y), y)
  {
    hide Receive, GetSync;
    SilenceEnds(count, y);
  }

  lemma NothingFails(q: Query, y: seq<Answer>)
    ensures Fails(Ask(q, [Silence] + y), y)
    ensures Ask(q, [Silence] + y).result == Failed(TimedOut)
  {
    hide Receive, GetSync, Word;
    SilenceEnds(4, y);
  }

  lemma WordFails(q: Query, bytes: seq<byte>, y: seq<Answer>)
    requires !q.Memory? && 1 <= |bytes| < 4
    ensures Fails(Ask(q, Spoken(bytes) + ([Silence] + y)), y)
    ensures Ask(q, Spoken(bytes) + ([Silence] + y)).result == Failed(ShortRead)
  {
    hide Receive, GetSync, AskBytes, Word, Spoken;
    ReceiveSaid(bytes, 4, y);
    assert Spoken(bytes) + ([Silence] + y) == Said(bytes, 4) + y;
  }

  lemma ChipFails(word: seq<byte>, sync: seq<Answer>, y: seq<Answer>)
    requires |word| == 4 && (sync == [] || sync == [Byte(INSYNC)])
    ensures Fails(Ask(Chip, Spoken(word) + sync + ([Silence] + y)), y)
  {
    hide Receive, GetSync, Spoken;
    SilenceEnds(4, y);
    ReceiveComplete(word, sync + ([Silence] + y));
    assert Spoken(word) + sync + ([Silence] + y) == Spoken(word) + (sync + ([Silence] + y));
    assert [] + ([Silence] + y) == [Silence] + y;
  }

  lemma TextFails(word: seq<byte>, text: seq<Answer>, eaten: seq<Answer>, y: seq<Answer>)
    requires |word| == 4 && Word(word) != 0
    requires (text == [] && eaten == []) || BytesBreakOff(Word(word) as nat, text, eaten)
    ensures Fails(Ask(Description, Spoken(word) + text + ([Silence] + (eaten + y))), y)
  {
    hide Receive, AskBytes, Spoken, Word, BytesBreakOff;
    var silent := [Silence] + (eaten + y);
    ReceiveComplete(word, text + silent);
    BytesFail(Word(word) as nat, text, eaten, y);
    assert Spoken(word) + text + silent == Spoken(word) + (text + silent);
  }

  /** A query whose answer breaks off fails, and leaves what comes behind what it has eaten. */
  lemma BrokenOff(q: Query, x: seq<Answer>, eaten: seq<Answer>, y: seq<Answer>)
    requires BreaksOff(q, x, eaten)
    ensures Fails(Ask(q, x + ([Silence] + (eaten + y))), y)
  {
    hide Ask, Spoken, Word, BytesBreakOff, Fails;
    var answers := x + ([Silence] + (eaten + y));
    if x == [] && eaten == [] {
      NothingFails(q, y);
      assert answers == [Silence] + y;
    } else if q.Memory? {
      MemoryIsBytes(q, answers);
      BytesFail(4, x, eaten, y);
    } else if eaten == [] && WordBreaksOff(x) {
      var bytes: seq<byte> :| 1 <= |bytes| < 4 && x == Spoken(bytes);
      assert eaten + y == y;
      WordFails(q, bytes, y);
    } else if q.Chip? {
      var word: seq<byte> :| |word| == 4 && (x == Spoken(word) || x == Spoken(word) + [Byte(INSYNC)]);
      assert eaten + y == y && Spoken(word) + [] == Spoken(word);
      ChipFails(word, if x == Spoken(word) then [] else [Byte(INSYNC)], y);
    } else {
      var word: seq<byte>, text: seq<Answer> :|
        && |word| == 4 && Word(word) != 0 && x == Spoken(word) + text
        && ((text == [] && eaten == []) || BytesBreakOff(Word(word) as nat, text, eaten));
      TextFails(word, text, eaten, y);
    }
  }

  lemma MemoryIsBytes(q: Query, answers: seq<Answer>)
    requires q.Memory?
    ensures Ask(q, answers) == AskBytes(4, answers)
  {
    hide AskBytes;
  }

  /** A silence comes instead of a reply's answer at; once it is over, the answers before left are eaten. */
  datatype Cut = InTime | Late(at: nat, left: nat)

  /**
    Replies to the first queries of qs, each in time or late. The one thing shut out is a silence
    within a serial number or a description whose next two bytes happen to be INSYNC and OK: the query
    then succeeds. A device may stop replying once a reply was late, as it is asked no more.
   */
  ghost predicate Replied(qs: seq<Query>, replies: seq<seq<Answer>>, cuts: seq<Cut>)
  {
    && |replies| <= |qs| && CutsFit(replies, cuts)
    && (forall i | 0 <= i < |replies| :: AnswersQuery(qs[i], replies[i]))
    && (forall i | 0 <= i < |replies| && cuts[i].Late? ::
          BreaksOff(qs[i], replies[i][..cuts[i].at], replies[i][cuts[i].at..cuts[i].left]))
    && (|replies| < |qs| ==> exists i | 0 <= i < |cuts| :: cuts[i].Late?)
  }

  predicate CutFits(reply: seq<Answer>, cut: Cut)
  {
    cut.Late? ==> cut.at <= cut.left < |reply|
  }

  predicate CutsFit(replies: seq<seq<Answer>>, cuts: seq<Cut>)
  {
    |cuts| == |replies| && forall i | 0 <= i < |cuts| :: CutFits(replies[i], cuts[i])
  }

  function Delivered(reply: seq<Answer>, cut: Cut): seq<Answer>
    requires CutFits(reply, cut)
  {
    if cut.InTime? then reply else reply[..cut.at] + ([Silence] + reply[cut.at..])
  }

  /** What the port gives when the replies come so. */
  function Stream(replies: seq<seq<Answer>>, cuts: seq<Cut>): seq<Answer>
    requires CutsFit(replies, cuts)
    decreases |replies|
  {
    if replies == [] then [] else Delivered(replies[0], cuts[0]) + Stream(replies[1..], cuts[1..])
  }

  /** What of it the queries leave: the rest of the first late reply, and all replies behind it. */
  function Unheard(replies: seq<seq<Answer>>, cuts: seq<Cut>): seq<Answer>
    requires CutsFit(replies, cuts)
    decreases |replies|
  {
    if replies == [] then []
    else if cuts[0].InTime? then Unheard(replies[1..], cuts[1..])
    else replies[0][cuts[0].left..] + Stream(replies[1..], cuts[1..])
  }

  lemma {:induction false} NothingUnheardIff(replies: seq<seq<Answer>>, cuts: seq<Cut>)
    requires CutsFit(replies, cuts)
    ensures Unheard(replies, cuts) == [] <==> forall i | 0 <= i < |cuts| :: cuts[i].InTime?
    decreases |replies|
  {
    hide Stream;
    if replies == [] {
    } else {
      NothingUnheardIff(replies[1..], cuts[1..]);
      assert cuts == [cuts[0]] + cuts[1..];
    }
  }

  lemma RepliedRest(qs: seq<Query>, replies: seq<seq<Answer>>, cuts: seq<Cut>)
    requires Replied(qs, replies, cuts) && replies != [] && cuts[0].InTime?
    ensures Replied(qs[1..], replies[1..], cuts[1..])
  {
    hide AnswersQuery, BreaksOff;
    if |replies| < |qs| {
      var i :| 0 <= i < |cuts| && cuts[i].Late?;
      assert cuts[1..][i - 1].Late?;
    }
  }

  lemma RepliedFits(qs: seq<Query>, replies: seq<seq<Answer>>, cuts: seq<Cut>)
    requires Replied(qs, replies, cuts)
    ensures CutsFit(replies, cuts) && |replies| <= |qs| && (replies == [] ==> qs == [])
    ensures replies != [] ==>
      && AnswersQuery(qs[0], replies[0])
      && (cuts[0].Late? ==> BreaksOff(qs[0], replies[0][..cuts[0].at], replies[0][cuts[0].at..cuts[0].left]))
  {
    hide AnswersQuery, BreaksOff;
  }

  lemma Regroup(x: seq<Answer>, y: seq<Answer>, a: seq<Answer>, b: seq<Answer>)
    ensures x + a + b == x + (a + b)
    ensures x + ([Silence] + y) + a + b == x + ([Silence] + (y + (a + b)))
  {
  }

  lemma StreamFirst(replies: seq<seq<Answer>>, cuts: seq<Cut>, later: seq<Answer>)
    requires CutsFit(replies, cuts) && replies != []
    ensures var first, cut, rest := replies[0], cuts[0], Stream(replies[1..], cuts[1..]) + later;
      if cut.InTime? then
        && Stream(replies, cuts) + later == first + rest
        && Unheard(replies, cuts) == Unheard(replies[1..], cuts[1..])
      else
        var y := first[cut.left..] + rest;
        && Stream(replies, cuts) + later == first[..cut.at] + ([Silence] + (first[cut.at..cut.left] + y))
        && Unheard(replies, cuts) + later == y
  {
    hide Delivered;
    var first, cut, more := replies[0], cuts[0], Stream(replies[1..], cuts[1..]);
    if cut.InTime? {
      DeliveredInTime(first);
      Regroup(first, [], more, later);
    } else {
      DeliveredLate(first, cut, more, later);
      Regroup(first[cut.left..], [], more, later);
    }
  }

  lemma DeliveredInTime(reply: seq<Answer>)
    ensures Delivered(reply, InTime) == reply
  {
  }

  lemma DeliveredLate(reply: seq<Answer>, cut: Cut, more: seq<Answer>, later: seq<Answer>)
    requires cut.Late? && CutFits(reply, cut)
    ensures Delivered(reply, cut) + more + later
      == reply[..cut.at] + ([Silence] + (reply[cut.at..cut.left] + (reply[cut.left..] + (more + later))))
  {
    var eaten, y := reply[cut.at..cut.left], reply[cut.left..];
    assert reply[cut.at..] == eaten + y;
    Regroup(reply[..cut.at], eaten + y, more, later);
    Regroup(eaten, [], y, more + later);
  }

  lemma AskAllStep(qs: seq<Query>, answers: seq<Answer>)
    ensures AskAll(qs, answers).rest ==
      if qs == [] then answers
      else
        var l := Ask(qs[0], answers);
        if l.result != Done then l.rest else AskAll(qs[1..], l.rest).rest
  {
    hide Ask;
  }

  lemma {:induction false} QueriesLeaveUnheard(qs: seq<Query>, replies: seq<seq<Answer>>, cuts: seq<Cut>,
                                               later: seq<Answer>)
    requires Replied(qs, replies, cuts)
    ensures CutsFit(replies, cuts)
    ensures AskAll(qs, Stream(replies, cuts) + later).rest == Unheard(replies, cuts) + later
    decreases |replies|
  {
    hide Ask, AskAll, AnswersQuery, BreaksOff, Replied, Stream, Unheard;
    RepliedFits(qs, replies, cuts);
    AskAllStep(qs, Stream(replies, cuts) + later);
    if replies == [] {
      NothingStreamed(cuts);
    } else {
      var first, cut, rest := replies[0], cuts[0], Stream(replies[1..], cuts[1..]) + later;
      StreamFirst(replies, cuts, later);
      if cut.InTime? {
        RepliedRest(qs, replies, cuts);
        AskOf(qs[0], first, rest);
        QueriesLeaveUnheard(qs[1..], replies[1..], cuts[1..], later);
      } else {
        BrokenOff(qs[0], first[..cut.at], first[cut.at..cut.left], first[cut.left..] + rest);
      }
    }
  }

  lemma NothingStreamed(cuts: seq<Cut>)
    requires CutsFit([], cuts)
    ensures Stream([], cuts) == Unheard([], cuts) == []
  {
  }

  /**
    The serial number, chip and description queries, each answered in time or broken off by a silence:
    the erase is reached in any case, and it hears what the device says of the erase, and nothing else,
    if and only if every answer came in time.
   */
  lemma InTimeIff(blRev: int, otp: seq<seq<Answer>>, info: seq<seq<Answer>>, cuts: seq<Cut>, later: seq<Answer>)
    requires blRev > 3 && AllAnswered(OTP_QUERIES, otp) && Replied(InfoQueries(blRev), info, cuts)
    ensures CutsFit(info, cuts)
    ensures var pre := Preamble(blRev, Flatten(otp) + (Stream(info, cuts) + later));
      && pre.outcome == Done
      && pre.rest == Unheard(info, cuts) + later
      && (pre.rest == later <==> forall i | 0 <= i < |cuts| :: cuts[i].InTime?)
  {
    hide AskAll, AllAnswered, Replied, InfoQueries, Stream, Unheard;
    RepliedFits(InfoQueries(blRev), info, cuts);
    QueriesAnswered(OTP_QUERIES, otp, Stream(info, cuts) + later);
    QueriesLeaveUnheard(InfoQueries(blRev), info, cuts, later);
    NothingUnheardIff(info, cuts);
    assert [] + later == later;
    assert |Unheard(info, cuts) + later| == |Unheard(info, cuts)| + |later|;
  }

  /** The erase ends having heard just these answers if and only if they are idle polls and an acknowledgement. */
  lemma AwaitEraseIff(polls: nat, heard: seq<Answer>, later: seq<Answer>)
    ensures var l := AwaitErase(polls, heard + later);
      l.result == Done && l.rest == later <==> ErasedAfter(heard, polls)
  {
    hide AwaitErase, ErasedAfter;
    var l := AwaitErase(polls, heard + later);
    if l.result == Done && l.rest == later {
      AwaitEraseSound(polls, heard + later);
      assert |l.heard| == |heard|;
      assert l.heard == (l.heard + l.rest)[..|heard|] == heard;
    }
    if ErasedAfter(heard, polls) {
      AwaitEraseComplete(polls, heard, later);
    }
  }

  /** Some beginning of these answers is idle polls and an acknowledgement. */
  ghost predicate EndsErase(heard: seq<Answer>, polls: nat)
  {
    exists n | 0 <= n <= |heard| :: ErasedAfter(heard[..n], polls)
  }

  lemma EraseEndsWithin(polls: nat, unheard: seq<Answer>, later: seq<Answer>)
    ensures var l := AwaitErase(polls, unheard + later);
      l.result == Done && |l.rest| >= |later| <==> EndsErase(unheard, polls)
  {
    hide AwaitErase, ErasedAfter;
    var l := AwaitErase(polls, unheard + later);
    if l.result == Done && |l.rest| >= |later| {
      AwaitEraseSound(polls, unheard + later);
      assert |l.heard| + |l.rest| == |unheard| + |later|;
      assert l.heard == (l.heard + l.rest)[..|l.heard|] == unheard[..|l.heard|];
    }
    if EndsErase(unheard, polls) {
      var n :| 0 <= n <= |unheard| && ErasedAfter(unheard[..n], polls);
      AwaitEraseComplete(polls, unheard[..n], unheard[n..] + later);
      assert unheard + later == unheard[..n] + (unheard[n..] + later);
    }
  }

  lemma EraseAlone(polls: nat, answers: seq<Answer>)
    ensures RunScript([ChipErase], polls, answers).outcome == AwaitErase(polls, answers).result
    ensures RunScript([ChipErase], polls, answers).rest == AwaitErase(polls, answers).rest
  {
    hide AwaitErase;
    assert [ChipErase][1..] == [];
  }

  /**
    The erase succeeds without having heard a word the device says of it if and only if what the
    queries left unheard begins with fewer than polls idle polls and an acknowledgement.
   */
  lemma LateAnswerEndsErase(blRev: int, otp: seq<seq<Answer>>, info: seq<seq<Answer>>, cuts: seq<Cut>,
                            polls: nat, later: seq<Answer>)
    requires blRev > 3 && AllAnswered(OTP_QUERIES, otp) && Replied(InfoQueries(blRev), info, cuts)
    ensures CutsFit(info, cuts)
    ensures var pre := Preamble(blRev, Flatten(otp) + (Stream(info, cuts) + later));
      var erase := RunScript([ChipErase], polls, pre.rest);
      && pre.outcome == Done
      && (erase.outcome == Done && |erase.rest| >= |later| <==> EndsErase(Unheard(info, cuts), polls))
  {
    hide Preamble, AllAnswered, Replied, InfoQueries, Stream, Unheard, AwaitErase, EndsErase, RunScript, CutsFit;
    InTimeIff(blRev, otp, info, cuts, later);
    var unheard := Unheard(info, cuts);
    EraseEndsWithin(polls, unheard, later);
    EraseAlone(polls, unheard + later);
  }

  lemma SilentChip(blRev: int, sn: seq<seq<Answer>>, rest: seq<Answer>)
    requires AllAnswered(Words(GET_SN, 3), sn)
    ensures AskAll(InfoQueries(blRev), Flatten(sn) + ([Silence] + rest)).rest == rest
  {
    hide AskAll, Ask, AllAnswered, Words;
    QueriesAnswered(Words(GET_SN, 3), sn, [Silence] + rest);
    InfoAsked(blRev, Flatten(sn) + ([Silence] + rest));
    NothingFails(Chip, rest);
  }

  lemma {:induction false} IdleBytes(word: seq<byte>, polls: nat)
    requires INSYNC !in word && polls > |word|
    ensures ErasedAfter(Spoken(word) + ACK, polls)
    decreases |word|
  {
    var heard := Spoken(word) + ACK;
    if word == [] {
      assert heard == ACK;
    } else {
      assert word[0] in word;
      assert heard[..1] == [Byte(word[0])];
      assert heard[1..] == Spoken(word[1..]) + ACK;
      IdleBytes(word[1..], polls - 1);
    }
  }

  /**
    For a chip's version that comes late as a whole: its acknowledgement ends the erase if and only if
    its bytes are idle polls, which they are when polls are left for them and none of them is INSYNC.
   */
  lemma LateChipEndsErase(blRev: int, otp: seq<seq<Answer>>, sn: seq<seq<Answer>>,
                          word: seq<byte>, polls: nat, later: seq<Answer>)
    requires blRev > 3 && AllAnswered(OTP_QUERIES, otp) && AllAnswered(Words(GET_SN, 3), sn) && |word| == 4
    ensures var late := [Silence] + (Spoken(word) + ACK + later);
      var pre := Preamble(blRev, Flatten(otp) + (Flatten(sn) + late));
      var erase := RunScript([ChipErase], polls, pre.rest);
      && pre.outcome == Done
      && (erase.outcome == Done && erase.rest == later <==> ErasedAfter(Spoken(word) + ACK, polls))
    ensures INSYNC !in word && polls > 4 ==> ErasedAfter(Spoken(word) + ACK, polls)
  {
    hide AskAll, AllAnswered, AwaitErase, Words, ErasedAfter, RunScript, Spoken;
    var rest := Spoken(word) + ACK + later;
    QueriesAnswered(OTP_QUERIES, otp, Flatten(sn) + ([Silence] + rest));
    SilentChip(blRev, sn, rest);
    EraseAlone(polls, rest);
    AwaitEraseIff(polls, Spoken(word) + ACK, later);
    if INSYNC !in word && polls > 4 {
      IdleBytes(word, polls);
    }
  }

  //
  // The queries read back from the wire
  //

  /** A query as a device sees it: the area and offset of a memory word, or what is asked of the chip. */
  datatype Seen = OtpWord(offset: int) | SerialWord(offset: int) | ChipVersion | ChipDescription

  datatype ReadResult = NoQuery | Got(seen: Seen, size: nat)

  /** One query at the front of b, ended by the byte 0x20; offsets are four bytes, lowest first. */
  function ReadQuery(b: seq<byte>): (r: ReadResult)
    ensures r.Got? ==> 0 < r.size <= |b|
  {
    if |b| >= 2 && b[0] == 0x2c && b[1] == 0x20 then Got(ChipVersion, 2)
    else if |b| >= 2 && b[0] == 0x2e && b[1] == 0x20 then Got(ChipDescription, 2)
    else if |b| >= 6 && (b[0] == 0x2a || b[0] == 0x2b) && b[5] == 0x20 then
      var offset := b[1] as int + 256 * (b[2] as int) + 65536 * (b[3] as int) + 16777216 * (b[4] as int);
      Got(if b[0] == 0x2a then OtpWord(offset) else SerialWord(offset), 6)
    else NoQuery
  }

  function ReadQueries(b: seq<byte>): Option<seq<Seen>>
    decreases |b|
  {
    if b == [] then Some([])
    else
      match ReadQuery(b)
      case NoQuery => None
      case Got(seen, size) =>
        match ReadQueries(b[size..])
        case None => None
        case Some(more) => Some([seen] + more)
  }

  predicate Known(q: Query)
  {
    q.Memory? ==> q.area == GET_OTP || q.area == GET_SN
  }

  function Observe(q: Query): Seen
  {
    match q
    case Memory(area, address) => if area == GET_OTP then OtpWord(address as int) else SerialWord(address as int)
    case Chip => ChipVersion
    case Description => ChipDescription
  }

  function ObserveAll(qs: seq<Query>): (seen: seq<Seen>)
    ensures |seen| == |qs|
  {
    seq(|qs|, i requires 0 <= i < |qs| => Observe(qs[i]))
  }

  lemma QueryIsRead(q: Query, later: seq<byte>)
    requires Known(q)
    ensures ReadQuery(QueryBytes(q) + later) == Got(Observe(q), |QueryBytes(q)|)
  {
    var b := QueryBytes(q) + later;
    if q.Memory? {
      assert b[0] == q.area && b[1] == q.address && b[2] == 0 && b[3] == 0 && b[4] == 0 && b[5] == EOC;
    } else {
      assert b[0] == QueryBytes(q)[0] && b[1] == EOC;
    }
  }

  lemma QueryWritten(q: Query, heard: seq<Answer>)
    ensures BootloaderWire.Written([Wrote(QueryBytes(q))] + Hearings(heard)) == QueryBytes(q)
  {
    hide QueryBytes, Hearings;
    var e := [Wrote(QueryBytes(q))];
    BootloaderWire.WrittenAppend(e, Hearings(heard));
    BootloaderWire.NothingWritten(heard);
    BootloaderWire.NoEvents();
    assert e[1..] == [];
    assert QueryBytes(q) + [] == QueryBytes(q);
  }

  /** How many of the queries were written: all of them, or those up to the one that failed. */
  function AskedCount(qs: seq<Query>, answers: seq<Answer>): (n: nat)
    ensures n <= |qs| && (qs != [] ==> n >= 1)
    decreases |qs|
  {
    if qs == [] then 0
    else
      var first := AskedOne(qs[0], answers);
      if first.outcome != Done then 1 else 1 + AskedCount(qs[1..], first.rest)
  }

  /** Whatever the device says, what is written reads back as the first queries, all of them in the end. */
  lemma {:induction false} QueriesAreReadBack(qs: seq<Query>, answers: seq<Answer>)
    requires forall i | 0 <= i < |qs| :: Known(qs[i])
    ensures var all, n := AskAll(qs, answers), AskedCount(qs, answers);
      && ReadQueries(BootloaderWire.Written(all.log)) == Some(ObserveAll(qs[..n]))
      && (all.outcome == Done ==> n == |qs|)
    decreases |qs|
  {
    hide Ask, QueryBytes, ReadQuery, Observe, Hearings, BootloaderWire.Written, Known;
    if qs == [] {
      BootloaderWire.NoEvents();
      assert ObserveAll(qs[..0]) == [];
    } else {
      var l := Ask(qs[0], answers);
      var events := [Wrote(QueryBytes(qs[0]))] + Hearings(l.heard);
      QueryWritten(qs[0], l.heard);
      if l.result != Done {
        QueryIsRead(qs[0], []);
        assert QueryBytes(qs[0]) + [] == QueryBytes(qs[0]);
        assert QueryBytes(qs[0])[|QueryBytes(qs[0])|..] == [];
        assert ObserveAll(qs[..1]) == [Observe(qs[0])] + [];
      } else {
        var more := AskAll(qs[1..], l.rest);
        var later, n := BootloaderWire.Written(more.log), AskedCount(qs[1..], l.rest);
        QueriesAreReadBack(qs[1..], l.rest);
        BootloaderWire.WrittenAppend(events, more.log);
        QueryIsRead(qs[0], later);
        assert (QueryBytes(qs[0]) + later)[|QueryBytes(qs[0])|..] == later;
        assert ObserveAll(qs[..n + 1]) == [Observe(qs[0])] + ObserveAll(qs[1..][..n]);
      }
    }
  }

  lemma WordsSeen(area: byte, count: nat, i: nat)
    requires i < count <= 64
    ensures Observe(Words(area, count)[i]) == if area == GET_OTP then OtpWord(4 * i) else SerialWord(4 * i)
  {
    CountSurvives(4 * i);
  }

  function SeenBefore(blRev: int): (seen: seq<Seen>)
  {
    seq(48, i => OtpWord(4 * i)) + SeenInfo(blRev)
  }

  function SeenInfo(blRev: int): (seen: seq<Seen>)
  {
    [SerialWord(0), SerialWord(4), SerialWord(8), ChipVersion] + if blRev >= 5 then [ChipDescription] else []
  }

  lemma QueriesKnown(blRev: int)
    ensures forall i | 0 <= i < 48 :: Known(OTP_QUERIES[i])
    ensures forall i | 0 <= i < |InfoQueries(blRev)| :: Known(InfoQueries(blRev)[i])
    ensures ObserveAll(OTP_QUERIES) == seq(48, i => OtpWord(4 * i))
    ensures ObserveAll(InfoQueries(blRev)) == SeenInfo(blRev)
  {
    hide CountByte;
    var otp := seq(48, i => OtpWord(4 * i));
    forall i | 0 <= i < 48
      ensures ObserveAll(OTP_QUERIES)[i] == otp[i]
    {
      WordsSeen(GET_OTP, 48, i);
    }
    assert ObserveAll(OTP_QUERIES) == otp;
    WordsSeen(GET_SN, 3, 0);
    WordsSeen(GET_SN, 3, 1);
    WordsSeen(GET_SN, 3, 2);
  }

  lemma {:induction false} ReadQueriesAppend(a: seq<byte>, b: seq<byte>)
    requires ReadQueries(a).Some? && ReadQueries(b).Some?
    ensures ReadQueries(a + b) == Some(ReadQueries(a).value + ReadQueries(b).value)
    decreases |a|
  {
    hide ReadQuery;
    if a == [] {
      assert a + b == b && [] + ReadQueries(b).value == ReadQueries(b).value;
    } else {
      var n := ReadQuery(a).size;
      ReadQueryStays(a, b);
      assert (a + b)[n..] == a[n..] + b;
      ReadQueriesAppend(a[n..], b);
      var x, y, z := [ReadQuery(a).seen], ReadQueries(a[n..]).value, ReadQueries(b).value;
      assert x + (y + z) == x + y + z;
    }
  }

  lemma ReadQueryStays(a: seq<byte>, b: seq<byte>)
    requires ReadQuery(a).Got?
    ensures ReadQuery(a + b) == ReadQuery(a)
  {
  }

  /**
    From the bytes written before the erase a device reads, in order, the 48 words of one-time-programmable
    memory, and, each only if the one before was answered, the three words of the serial number, the chip
    and, from revision 5 on, its description; below revision 4 nothing is written.
   */
  lemma PreambleIsReadBack(blRev: int, answers: seq<Answer>)
    ensures var pre := Preamble(blRev, answers);
      var seen := ReadQueries(BootloaderWire.Written(pre.log));
      && seen.Some?
      && (blRev <= 3 ==> seen.value == [])
      && (blRev > 3 ==> seen.value != [] && seen.value <= SeenBefore(blRev))
      && (blRev > 3 && pre.outcome == Done ==> |seen.value| > 48)
      && (blRev > 3 && pre.outcome != Done ==> |seen.value| <= 48)
  {
    hide AskAll, AskedCount, ReadQueries, BootloaderWire.Written, InfoQueries;
    if blRev <= 3 {
      BootloaderWire.NoEvents();
      NothingRead();
    } else {
      var otp := AskAll(OTP_QUERIES, answers);
      var info := AskAll(InfoQueries(blRev), otp.rest);
      var n, m := AskedCount(OTP_QUERIES, answers), AskedCount(InfoQueries(blRev), otp.rest);
      QueriesKnown(blRev);
      QueriesAreReadBack(OTP_QUERIES, answers);
      QueriesAreReadBack(InfoQueries(blRev), otp.rest);
      assert ObserveAll(OTP_QUERIES[..n]) == ObserveAll(OTP_QUERIES)[..n];
      assert ObserveAll(InfoQueries(blRev)[..m]) == SeenInfo(blRev)[..m];
      if otp.outcome == Done {
        BootloaderWire.WrittenAppend(otp.log, info.log);
        ReadQueriesAppend(BootloaderWire.Written(otp.log), BootloaderWire.Written(info.log));
        assert ObserveAll(OTP_QUERIES)[..48] == seq(48, i => OtpWord(4 * i));
      }
    }
  }

  lemma NothingRead()
    ensures ReadQueries([]) == Some([])
  {
  }
}
