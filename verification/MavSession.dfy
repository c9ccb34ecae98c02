/** Whole runs of the protocol object: any chunking, any bytes, any sequence of sends. */
module MavSession {
  import opened Basics
  import opened Octets
  import opened MavFields
  import opened MavMessages
  import opened MavFramer

  //
  // Receiving in chunks
  //

  datatype Session = Session(rx: Rx, msgs: seq<Decoded>)

  /** One parse_buffer call per chunk, in robust mode, and all messages they returned. */
  function ParseChunks(link: Link, rx: Rx, chunks: seq<seq<octet>>): Session
    requires ValidTable(link.table)
    decreases |chunks|
  {
    if chunks == [] then Session(rx, [])
    else
      var first := ParseBuffer(link, true, rx, chunks[0]);
      var more := ParseChunks(link, first.rx, chunks[1..]);
      Session(more.rx, first.msgs + more.msgs)
  }

  lemma SettledIsReady(link: Link, rx: Rx, s: seq<octet>)
    requires ValidTable(link.table)
    ensures Ready(Settled(link, rx, s))
  {
    hide Scan, Head;
    ScanRest(link, rx.buf + s);
  }

  lemma ReadyStaysPut(link: Link, rx: Rx)
    requires ValidTable(link.table) && Ready(rx)
    ensures Coherent(rx)
    ensures Settled(link, rx, []) == rx && Scan(link, rx.buf + []).msgs == []
  {
    assert rx.buf + [] == rx.buf;
  }

  /** Feeding two pieces settles as feeding their concatenation does. */
  lemma SettledTwice(link: Link, rx: Rx, a: seq<octet>, b: seq<octet>)
    requires ValidTable(link.table)
    ensures var middle := Settled(link, rx, a);
      && Settled(link, middle, b) == Settled(link, rx, a + b)
      && Scan(link, rx.buf + a).msgs + Scan(link, middle.buf + b).msgs == Scan(link, rx.buf + (a + b)).msgs
  {
    hide Scan;
    var middle := Settled(link, rx, a);
    ScanAppend(link, rx.buf + a, b);
    assert rx.buf + a + b == rx.buf + (a + b);
    CountsAppend(Scan(link, rx.buf + a).msgs, Scan(link, middle.buf + b).msgs);
  }

  /** However a stream is cut into chunks, the messages and the final state are those of one call. */
  lemma {:induction false} ChunkingIsInvisible(link: Link, rx: Rx, chunks: seq<seq<octet>>)
    requires ValidTable(link.table) && Ready(rx)
    ensures var whole := ParseBuffer(link, true, rx, Flatten(chunks));
      ParseChunks(link, rx, chunks) == Session(whole.rx, whole.msgs)
    decreases |chunks|
  {
    hide Scan, Settled, Ready, Coherent, ParseBuffer;
    ReadyStaysPut(link, rx);
    DrainIsScan(link, rx, Flatten(chunks));
    if chunks == [] {
    } else {
      var a, b := chunks[0], Flatten(chunks[1..]);
      var middle := Settled(link, rx, a);
      SettledIsReady(link, rx, a);
      DrainIsScan(link, rx, a);
      ChunkingIsInvisible(link, middle, chunks[1..]);
      ReadyStaysPut(link, middle);
      DrainIsScan(link, middle, b);
      SettledTwice(link, rx, a, b);
    }
  }

  /** The same for two pieces and a receiver in any state its own calls can leave it in. */
  lemma TwoCallsAreOne(link: Link, rx: Rx, a: seq<octet>, b: seq<octet>)
    requires ValidTable(link.table) && Coherent(rx)
    ensures var first := ParseBuffer(link, true, rx, a);
      var second := ParseBuffer(link, true, first.rx, b);
      ParseBuffer(link, true, rx, a + b) == Batch(second.rx, first.msgs + second.msgs, Nothing)
  {
    hide Scan, Settled, Ready, Coherent, ParseBuffer;
    DrainIsScan(link, rx, a);
    SettledIsReady(link, rx, a);
    ReadyStaysPut(link, Settled(link, rx, a));
    DrainIsScan(link, Settled(link, rx, a), b);
    SettledTwice(link, rx, a, b);
    DrainIsScan(link, rx, a + b);
  }

  /** parse_char alone, one byte at a time, with no draining. */
  function ParseBytes(link: Link, rx: Rx, s: seq<octet>): Session
    requires ValidTable(link.table)
    decreases |s|
  {
    if s == [] then Session(rx, [])
    else
      var (next, r) := ParseChar(link, true, rx, [s[0]]);
      var more := ParseBytes(link, next, s[1..]);
      Session(more.rx, (if r.Returned? then [r.d] else []) + more.msgs)
  }

  lemma OneByteLeavesNothing(link: Link, rx: Rx, c: octet)
    requires ValidTable(link.table) && Ready(rx)
    ensures var (next, r) := ParseChar(link, true, rx, [c]);
      && !r.Raised?
      && next == Settled(link, rx, [c])
      && Scan(link, rx.buf + [c]).msgs == if r.Returned? then [r.d] else []
  {
    hide Decode, Scan;
    var (next, r) := ParseChar(link, true, rx, [c]);
    ReadyStaysPut(link, rx);
    StepIsFirstOfScan(link, rx, [c]);
    if r.Returned? {
      assert next.buf == [];
      ScanStep(link, next.buf);
      assert [r.d] + [] == [r.d];
    }
  }

  /** Byte by byte needs no draining loop: it gives what one parse_buffer call gives. */
  lemma {:induction false} ByteAtATime(link: Link, rx: Rx, s: seq<octet>)
    requires ValidTable(link.table) && Ready(rx)
    ensures var whole := ParseBuffer(link, true, rx, s);
      ParseBytes(link, rx, s) == Session(whole.rx, whole.msgs)
    decreases |s|
  {
    hide Scan, Settled, Ready, Coherent, ParseBuffer, ParseChar;
    ReadyStaysPut(link, rx);
    DrainIsScan(link, rx, s);
    if s == [] {
    } else {
      var middle := Settled(link, rx, [s[0]]);
      OneByteLeavesNothing(link, rx, s[0]);
      SettledIsReady(link, rx, [s[0]]);
      ByteAtATime(link, middle, s[1..]);
      ReadyStaysPut(link, middle);
      DrainIsScan(link, middle, s[1..]);
      SettledTwice(link, rx, [s[0]], s[1..]);
      assert [s[0]] + s[1..] == s;
    }
  }

  //
  // Conservation
  //

  /** A client calls parse_char or parse_buffer, with as many bytes as it likes. */
  datatype Call = Char(fed: seq<octet>) | Buffer(fed: seq<octet>)

  function Answer(link: Link, rx: Rx, call: Call): Session
    requires ValidTable(link.table)
  {
    match call
    case Char(c) =>
      var (next, r) := ParseChar(link, true, rx, c);
      Session(next, if r.Returned? then [r.d] else [])
    case Buffer(s) =>
      var all := ParseBuffer(link, true, rx, s);
      Session(all.rx, all.msgs)
  }

  /** Any sequence of calls in robust mode, and all messages they returned. */
  function Run(link: Link, rx: Rx, calls: seq<Call>): Session
    requires ValidTable(link.table)
    decreases |calls|
  {
    if calls == [] then Session(rx, [])
    else
      var first := Answer(link, rx, calls[0]);
      var more := Run(link, first.rx, calls[1..]);
      Session(more.rx, first.msgs + more.msgs)
  }

  function Fed(calls: seq<Call>): seq<octet>
  {
    if calls == [] then [] else calls[0].fed + Fed(calls[1..])
  }

  /** msgs and then what next still holds are what rx held and was fed; the counters have moved to match. */
  predicate Conserves(rx: Rx, fed: seq<octet>, msgs: seq<Decoded>, next: Rx)
  {
    && Coherent(next)
    && Raw(msgs) + next.buf == rx.buf + fed
    && next.bytes == rx.bytes + |fed|
    && next.packets == rx.packets + Goods(msgs)
    && next.errors == rx.errors + Bads(msgs)
  }

  /** Scanning b finds the messages first, and then what scanning rest finds. */
  predicate ScansOn(link: Link, b: seq<octet>, first: seq<Decoded>, rest: seq<octet>)
    requires ValidTable(link.table)
  {
    Scan(link, b) == Scanned(first + Scan(link, rest).msgs, Scan(link, rest).rest)
  }

  lemma ConservesNothing(rx: Rx, fed: seq<octet>, next: Rx)
    requires Coherent(next) && next.buf == rx.buf + fed
    requires next.bytes == rx.bytes + |fed| && next.packets == rx.packets && next.errors == rx.errors
    ensures Conserves(rx, fed, [], next)
  {
    hide Coherent;
    assert [] + next.buf == next.buf;
  }

  lemma ConservesOne(rx: Rx, fed: seq<octet>, d: Decoded, next: Rx)
    requires Coherent(next) && d.raw + next.buf == rx.buf + fed
    requires next.bytes == rx.bytes + |fed|
    requires next.packets == rx.packets + Goods([d]) && next.errors == rx.errors + Bads([d])
    ensures Conserves(rx, fed, [d], next)
  {
    hide Coherent;
    CountOne(d);
  }

  lemma CharConserves(link: Link, rx: Rx, c: seq<octet>)
    requires ValidTable(link.table) && Coherent(rx)
    ensures var one := Answer(link, rx, Char(c)); Conserves(rx, c, one.msgs, one.rx)
  {
    hide Scan, ParseChar, Head, HeadMessage, Coherent, Conserves, Goods, Bads, Announced;
    var b := rx.buf + c;
    var (next, r) := ParseChar(link, true, rx, c);
    StepIsFirstOfScan(link, rx, c);
    RobustStep(link, rx, c);
    if Head(b) == 0 {
      ConservesNothing(rx, c, next);
    } else {
      assert b[..Head(b)] + b[Head(b)..] == b;
      ConservesOne(rx, c, r.d, next);
    }
  }

  lemma CharScansOn(link: Link, rx: Rx, c: seq<octet>)
    requires ValidTable(link.table) && Coherent(rx)
    ensures var one := Answer(link, rx, Char(c)); ScansOn(link, rx.buf + c, one.msgs, one.rx.buf)
  {
    hide Scan, ParseChar, Head, HeadMessage, Coherent, Settled;
    StepIsFirstOfScan(link, rx, c);
    var (next, r) := ParseChar(link, true, rx, c);
    if r == Nothing {
      RobustStep(link, rx, c);
      assert [] + Scan(link, next.buf).msgs == Scan(link, next.buf).msgs;
    }
  }

  lemma BufferAnswer(link: Link, rx: Rx, s: seq<octet>)
    requires ValidTable(link.table) && Coherent(rx)
    ensures var all := Answer(link, rx, Buffer(s));
      && Conserves(rx, s, all.msgs, all.rx) && ScansOn(link, rx.buf + s, all.msgs, all.rx.buf)
      && Ready(all.rx)
  {
    hide Scan, ParseBuffer, Head, HeadMessage, ValidTable, Goods, Bads, Raw;
    var b := rx.buf + s;
    var scan := Scan(link, b);
    DrainIsScan(link, rx, s);
    ScanConserves(link, b);
    ScanRest(link, b);
    ScanStep(link, scan.rest);
    SettledIsReady(link, rx, s);
    assert scan.msgs + [] == scan.msgs;
  }

  /** What one call leaves, fed more, scans as everything at once would. */
  lemma ScansOnFurther(link: Link, b: seq<octet>, first: seq<Decoded>, rest: seq<octet>,
                       later: seq<octet>, second: seq<Decoded>, end: seq<octet>)
    requires ValidTable(link.table)
    requires ScansOn(link, b, first, rest) && ScansOn(link, rest + later, second, end)
    ensures ScansOn(link, b + later, first + second, end)
  {
    hide Scan, ValidTable;
    ScanAppend(link, b, later);
    ScanAppend(link, rest, later);
    var more := Scan(link, Scan(link, rest).rest + later).msgs;
    assert first + Scan(link, rest).msgs + more == first + (Scan(link, rest).msgs + more);
    assert first + (second + Scan(link, end).msgs) == first + second + Scan(link, end).msgs;
  }

  lemma ConservesOn(rx: Rx, a: seq<octet>, first: seq<Decoded>, middle: Rx,
                    b: seq<octet>, second: seq<Decoded>, end: Rx)
    requires Conserves(rx, a, first, middle) && Conserves(middle, b, second, end)
    ensures Conserves(rx, a + b, first + second, end)
  {
    hide Coherent;
    CountsAppend(first, second);
    assert Raw(first) + Raw(second) + end.buf == Raw(first) + (Raw(second) + end.buf);
    assert rx.buf + a + b == rx.buf + (a + b);
    assert Raw(first) + (middle.buf + b) == Raw(first) + middle.buf + b;
  }

  /**
    Over every run of parse_char and parse_buffer calls, mixed in any way, on every byte stream and
    from any state such calls leave: the bytes of the returned messages, in order, followed by the
    buffer, are the bytes that went in; every message was counted once, as a packet or an error; and
    what was returned, with what a scan of the buffer still finds, is what one scan of everything
    finds. After a parse_buffer call nothing more is to be found.
   */
  lemma {:induction false} RunConserves(link: Link, rx: Rx, calls: seq<Call>)
    requires ValidTable(link.table) && Coherent(rx)
    ensures var run := Run(link, rx, calls);
      && Conserves(rx, Fed(calls), run.msgs, run.rx)
      && ScansOn(link, rx.buf + Fed(calls), run.msgs, run.rx.buf)
      && run.rx.packets + run.rx.errors == rx.packets + rx.errors + |run.msgs|
      && (calls != [] && calls[|calls| - 1].Buffer? ==> Ready(run.rx))
    decreases |calls|
  {
    hide Answer, Conserves, ScansOn, Ready, Coherent;
    if calls == [] {
      NothingFed(link, rx);
    } else {
      var one, rest := Answer(link, rx, calls[0]), calls[1..];
      var c := calls[0].fed;
      match calls[0] {
        case Char(_) =>
          CharConserves(link, rx, c);
          CharScansOn(link, rx, c);
        case Buffer(_) => BufferAnswer(link, rx, c);
      }
      ConservedIsCoherent(rx, c, one.msgs, one.rx);
      RunConserves(link, one.rx, rest);
      var run := Run(link, one.rx, rest);
      assert rx.buf + (c + Fed(rest)) == rx.buf + c + Fed(rest);
      ScansOnFurther(link, rx.buf + c, one.msgs, one.rx.buf, Fed(rest), run.msgs, run.rx.buf);
      ConservesOn(rx, c, one.msgs, one.rx, Fed(rest), run.msgs, run.rx);
    }
    EveryMessageIsCounted(rx, Fed(calls), Run(link, rx, calls).msgs, Run(link, rx, calls).rx);
  }

  lemma NothingFed(link: Link, rx: Rx)
    requires ValidTable(link.table) && Coherent(rx)
    ensures Conserves(rx, [], [], rx) && ScansOn(link, rx.buf + [], [], rx.buf)
  {
    hide Scan, Coherent;
    assert rx.buf + [] == rx.buf == [] + rx.buf;
    assert [] + Scan(link, rx.buf).msgs == Scan(link, rx.buf).msgs;
  }

  lemma EveryMessageIsCounted(rx: Rx, fed: seq<octet>, msgs: seq<Decoded>, next: Rx)
    requires Conserves(rx, fed, msgs, next)
    ensures next.packets + next.errors == rx.packets + rx.errors + |msgs|
  {
    hide Coherent;
    EveryMessageCounted(msgs);
  }

  lemma ConservedIsCoherent(rx: Rx, fed: seq<octet>, msgs: seq<Decoded>, next: Rx)
    requires Conserves(rx, fed, msgs, next)
    ensures Coherent(next)
  {
    hide Coherent;
  }

  /** The same for runs of parse_buffer calls between which nothing is left to be found. */
  lemma ChunksConserve(link: Link, rx: Rx, chunks: seq<seq<octet>>)
    requires ValidTable(link.table) && Ready(rx)
    ensures var run := ParseChunks(link, rx, chunks);
      && Raw(run.msgs) + run.rx.buf == rx.buf + Flatten(chunks)
      && run.rx.bytes == rx.bytes + |Flatten(chunks)|
      && run.rx.packets == rx.packets + Goods(run.msgs)
      && run.rx.packets + run.rx.errors == rx.packets + rx.errors + |run.msgs|
      && Ready(run.rx)
  {
    hide Scan, Ready, Coherent, ParseBuffer;
    ChunkingIsInvisible(link, rx, chunks);
    ReadyStaysPut(link, rx);
    DrainIsScan(link, rx, Flatten(chunks));
    ScanConserves(link, rx.buf + Flatten(chunks));
    EveryMessageCounted(Scan(link, rx.buf + Flatten(chunks)).msgs);
    SettledIsReady(link, rx, Flatten(chunks));
  }

  //
  // Reading ahead
  //

  /** Less is buffered than is expected. */
  predicate Waiting(rx: Rx)
  {
    Coherent(rx) && |rx.buf| < rx.expected
  }

  /** With c fed the first frame in the buffer is complete. */
  predicate Completes(rx: Rx, c: seq<octet>)
  {
    var fed := rx.buf + c;
    Head(fed) > 0 && fed[0] == MARKER
  }

  /**
    A caller that feeds at most bytes_needed() bytes, robust mode or not: the buffer stays short of
    expected_length, bytes_needed() is the true deficit, and a completed frame, decoded or not,
    returned or raised, empties the buffer.
   */
  lemma NoReadAhead(link: Link, robust: bool, rx: Rx, c: seq<octet>)
    requires ValidTable(link.table)
    requires Waiting(rx) && |c| <= BytesNeeded(rx)
    ensures BytesNeeded(rx) == rx.expected - |rx.buf|
    ensures var (next, r) := ParseChar(link, robust, rx, c);
      && Waiting(next)
      && (Completes(rx, c) ==> next.buf == [] && r != Nothing)
      && (Completes(rx, c) && r.Returned? ==> r.d.raw == rx.buf + c)
  {
    hide Decode;
  }

  /** The states met by parse_char calls of a caller that never feeds more than asked for. */
  function Visit(link: Link, robust: bool, rx: Rx, cs: seq<seq<octet>>): (states: seq<Rx>)
    requires ValidTable(link.table)
    ensures |states| == |cs| + 1 && states[0] == rx
    decreases |cs|
  {
    if cs == [] then [rx] else [rx] + Visit(link, robust, ParseChar(link, robust, rx, cs[0]).0, cs[1..])
  }

  lemma VisitStep(link: Link, robust: bool, rx: Rx, cs: seq<seq<octet>>)
    requires ValidTable(link.table) && cs != []
    ensures Visit(link, robust, rx, cs) == [rx] + Visit(link, robust, ParseChar(link, robust, rx, cs[0]).0, cs[1..])
  {
    hide ParseChar;
  }

  /** Every state is short of expected_length, and behind a call that completed a frame the buffer is empty. */
  predicate StaysBehind(states: seq<Rx>, cs: seq<seq<octet>>)
    requires |states| == |cs| + 1
  {
    && (forall i | 0 <= i <= |cs| :: Waiting(states[i]))
    && (forall i | 0 <= i < |cs| && Completes(states[i], cs[i]) :: states[i + 1].buf == [])
  }

  lemma StaysBehindOneMore(rx: Rx, c: seq<octet>, states: seq<Rx>, cs: seq<seq<octet>>)
    requires |states| == |cs| + 1 && StaysBehind(states, cs)
    requires Waiting(rx) && (Completes(rx, c) ==> states[0].buf == [])
    ensures StaysBehind([rx] + states, [c] + cs)
  {
    hide Waiting, Completes;
    var all, calls := [rx] + states, [c] + cs;
    forall i | 0 <= i <= |calls|
      ensures Waiting(all[i])
    {
      if i > 0 {
        assert all[i] == states[i - 1];
      }
    }
    forall i | 0 <= i < |calls| && Completes(all[i], calls[i])
      ensures all[i + 1].buf == []
    {
      if i > 0 {
        assert all[i] == states[i - 1] && calls[i] == cs[i - 1] && all[i + 1] == states[i];
      }
    }
  }

  lemma {:induction false} NeverAhead(link: Link, robust: bool, rx: Rx, cs: seq<seq<octet>>)
    requires ValidTable(link.table)
    requires Waiting(rx)
    requires forall i | 0 <= i < |cs| :: |cs[i]| <= BytesNeeded(Visit(link, robust, rx, cs)[i])
    ensures StaysBehind(Visit(link, robust, rx, cs), cs)
    decreases |cs|
  {
    hide ParseChar, BytesNeeded, Completes, Waiting, Visit, ValidTable, StaysBehind;
    if cs == [] {
      NothingAhead(rx);
      VisitNothing(link, robust, rx);
    } else {
      var next := ParseChar(link, robust, rx, cs[0]).0;
      var states, later := Visit(link, robust, rx, cs), Visit(link, robust, next, cs[1..]);
      VisitStep(link, robust, rx, cs);
      NoReadAhead(link, robust, rx, cs[0]);
      forall i | 0 <= i < |cs[1..]|
        ensures |cs[1..][i]| <= BytesNeeded(later[i])
      {
        assert cs[1..][i] == cs[i + 1] && later[i] == states[i + 1];
      }
      NeverAhead(link, robust, next, cs[1..]);
      StaysBehindOneMore(rx, cs[0], later, cs[1..]);
      assert cs == [cs[0]] + cs[1..];
    }
  }

  lemma NothingAhead(rx: Rx)
    requires Waiting(rx)
    ensures StaysBehind([rx], [])
  {
    hide Waiting;
  }

  lemma VisitNothing(link: Link, robust: bool, rx: Rx)
    requires ValidTable(link.table)
    ensures Visit(link, robust, rx, []) == [rx]
  {
  }

  /** A receiver always asks for something: for what its frame still lacks, and otherwise for one byte. */
  lemma AsksForWhatIsMissing(rx: Rx)
    ensures BytesNeeded(rx) >= 1
    ensures |rx.buf| + BytesNeeded(rx) == if |rx.buf| < rx.expected then rx.expected else |rx.buf| + 1
  {
  }

  /**
    A client that reads as many bytes as it is asked for has any frame in two reads, robust mode or not:
    the header, and then all that the header announces and no more.
   */
  lemma FrameInTwoReads(link: Link, robust: bool, rx: Rx, f: seq<octet>)
    requires ValidTable(link.table)
    requires rx.buf == [] && rx.expected == 6
    requires |f| >= 8 && f[0] == MARKER && FrameSize(f[1]) == |f|
    ensures BytesNeeded(rx) == 6
    ensures var (half, first) := ParseChar(link, robust, rx, f[..6]);
      && first == Nothing && BytesNeeded(half) == |f| - 6
      && var (done, second) := ParseChar(link, robust, half, f[6..]);
        var d := Decode(link.x25, link.table, f);
        && done.buf == [] && BytesNeeded(done) == 6
        && second == (if d.Good? || robust then Returned(d) else Raised(d.reason))
  {
    hide Decode;
    assert f[..6][0] == f[0] && f[..6][1] == f[1];
    assert f[..6] + f[6..] == f && f[..|f|] == f;
    assert rx.buf + f[..6] == f[..6];
  }

  //
  // Sending
  //

  /** The sender's part of the protocol object. */
  datatype Tx = Tx(seqNo: octet, system: octet, component: octet, packets: nat, bytes: nat, written: seq<octet>)

  function Send(link: Link, tx: Tx, m: Message): Tx
    requires Packable(link.table, m)
  {
    var f := Frame(link.x25, link.table, Source(tx.seqNo, tx.system, tx.component), m);
    tx.(seqNo := (tx.seqNo + 1) % 255, packets := tx.packets + 1, bytes := tx.bytes + |f|, written := tx.written + f)
  }

  predicate AllPackable(table: Table, ms: seq<Message>)
  {
    forall i | 0 <= i < |ms| :: Packable(table, ms[i])
  }

  function SendAll(link: Link, tx: Tx, ms: seq<Message>): Tx
    requires AllPackable(link.table, ms)
    decreases |ms|
  {
    if ms == [] then tx else SendAll(link, Send(link, tx, ms[0]), ms[1..])
  }

  /** What the other end should get for messages sent from sequence number s0 on. */
  function Expected(link: Link, tx: Tx, ms: seq<Message>): seq<Decoded>
    requires AllPackable(link.table, ms)
    decreases |ms|
  {
    if ms == [] then []
    else
      var src := Source(tx.seqNo, tx.system, tx.component);
      [Good(Received(link.table, ms[0]), src, Frame(link.x25, link.table, src, ms[0]))]
      + Expected(link, Send(link, tx, ms[0]), ms[1..])
  }

  lemma FrameIsHead(link: Link, src: Source, m: Message, later: seq<octet>)
    requires ValidTable(link.table) && Packable(link.table, m)
    ensures var f := Frame(link.x25, link.table, src, m);
      && Head(f + later) == |f|
      && HeadMessage(link, f + later) == Good(Received(link.table, m), src, f)
  {
    hide Frame, Decode, Received, Packable, Payload, Size;
    var f := Frame(link.x25, link.table, src, m);
    FrameParts(link.x25, link.table, src, m);
    DecodeOfFrame(link.x25, link.table, src, m);
    assert f[0] == f[..6][0] && f[1] == f[..6][1];
    assert (f + later)[..|f|] == f;
  }

  lemma {:induction false} WrittenGrows(link: Link, tx: Tx, ms: seq<Message>)
    requires AllPackable(link.table, ms)
    ensures tx.written <= SendAll(link, tx, ms).written
    decreases |ms|
  {
    hide Frame, Packable;
    if ms == [] {
    } else {
      WrittenGrows(link, Send(link, tx, ms[0]), ms[1..]);
    }
  }

  /** What is written is scanned as exactly the messages sent, to the last byte. */
  lemma {:induction false} WrittenScans(link: Link, tx: Tx, ms: seq<Message>)
    requires ValidTable(link.table) && AllPackable(link.table, ms)
    ensures tx.written <= SendAll(link, tx, ms).written
    ensures Scan(link, SendAll(link, tx, ms).written[|tx.written|..]) == Scanned(Expected(link, tx, ms), [])
    decreases |ms|
  {
    hide Frame, Decode, Received, Head, HeadMessage, Packable;
    WrittenGrows(link, tx, ms);
    var end := SendAll(link, tx, ms);
    var sent := end.written[|tx.written|..];
    ScanStep(link, sent);
    if ms == [] {
      assert sent == [];
      EmptyHasNoHead();
    } else {
      var src := Source(tx.seqNo, tx.system, tx.component);
      var f, next := Frame(link.x25, link.table, src, ms[0]), Send(link, tx, ms[0]);
      WrittenScans(link, next, ms[1..]);
      var later := end.written[|next.written|..];
      assert sent == f + later;
      FrameIsHead(link, src, ms[0], later);
      assert sent[|f|..] == later;
    }
  }

  lemma EmptyHasNoHead()
    ensures Head([]) == 0
  {
  }

  lemma {:induction false} ExpectedArrives(link: Link, tx: Tx, ms: seq<Message>, k: nat)
    requires AllPackable(link.table, ms) && k < |ms|
    ensures |Expected(link, tx, ms)| == |ms|
    ensures Expected(link, tx, ms)[k].Good?
    ensures Arrives(link.table, ms[k], Expected(link, tx, ms)[k].msg)
    decreases |ms|
  {
    hide Frame, Received, Packable, Arrives;
    var next := Send(link, tx, ms[0]);
    if k > 0 {
      ExpectedArrives(link, next, ms[1..], k - 1);
    } else {
      ReceivedArrives(link.table, ms[0]);
      if |ms| > 1 {
        ExpectedArrives(link, next, ms[1..], 0);
      }
    }
  }

  /** The k-th message of a run carries the start number plus k, modulo 255, and its sender's ids. */
  lemma {:induction false} SequenceNumbers(link: Link, tx: Tx, ms: seq<Message>, k: nat)
    requires AllPackable(link.table, ms) && k < |ms| && tx.seqNo < 255
    ensures |Expected(link, tx, ms)| == |ms|
    ensures Expected(link, tx, ms)[k].Good?
    ensures Expected(link, tx, ms)[k].src == Source((tx.seqNo + k) % 255, tx.system, tx.component)
    ensures Arrives(link.table, ms[k], Expected(link, tx, ms)[k].msg)
    decreases |ms|
  {
    hide Frame, Received, Packable, Arrives;
    ExpectedArrives(link, tx, ms, k);
    var next := Send(link, tx, ms[0]);
    if k > 0 {
      SequenceNumbers(link, next, ms[1..], k - 1);
      assert ((tx.seqNo + 1) % 255 + (k - 1)) % 255 == (tx.seqNo + k) % 255;
    } else if |ms| > 1 {
      SequenceNumbers(link, next, ms[1..], 0);
    }
  }

  lemma {:induction false} AllGood(link: Link, tx: Tx, ms: seq<Message>)
    requires AllPackable(link.table, ms)
    ensures Goods(Expected(link, tx, ms)) == |ms| && Bads(Expected(link, tx, ms)) == 0
    ensures SendAll(link, tx, ms).packets == tx.packets + |ms|
    ensures SendAll(link, tx, ms).bytes - tx.bytes == |SendAll(link, tx, ms).written| - |tx.written|
    decreases |ms|
  {
    hide Frame, Received, Packable;
    if ms == [] {
    } else {
      AllGood(link, Send(link, tx, ms[0]), ms[1..]);
    }
  }

  /**
    Sender to receiver: whatever messages are sent, and however the bytes written are cut up on
    their way, a receiver with nothing pending gets exactly those messages, in order, each with its
    fields as they were sent, without an error, keeps nothing back, and its totals grow by the
    sender's.
   */
  lemma EndToEnd(link: Link, tx: Tx, ms: seq<Message>, rx: Rx, chunks: seq<seq<octet>>)
    requires ValidTable(link.table) && AllPackable(link.table, ms)
    requires Ready(rx) && rx.buf == []
    requires tx.written + Flatten(chunks) == SendAll(link, tx, ms).written
    ensures var run, end := ParseChunks(link, rx, chunks), SendAll(link, tx, ms);
      && run.msgs == Expected(link, tx, ms)
      && |run.msgs| == |ms|
      && (forall k | 0 <= k < |ms| :: run.msgs[k].Good? && Arrives(link.table, ms[k], run.msgs[k].msg))
      && run.rx.buf == []
      && run.rx.errors == rx.errors
      && run.rx.packets - rx.packets == end.packets - tx.packets == |ms|
      && run.rx.bytes - rx.bytes == end.bytes - tx.bytes
  {
    hide Scan, Expected, SendAll, Ready, Coherent, ParseBuffer, Packable, Arrives;
    var stream := Flatten(chunks);
    WrittenScans(link, tx, ms);
    assert SendAll(link, tx, ms).written[|tx.written|..] == stream;
    ChunkingIsInvisible(link, rx, chunks);
    ReadyStaysPut(link, rx);
    DrainIsScan(link, rx, stream);
    assert rx.buf + stream == stream;
    AllGood(link, tx, ms);
    EveryMessageCounted(Expected(link, tx, ms));
    forall k | 0 <= k < |ms|
      ensures Expected(link, tx, ms)[k].Good?
      ensures Arrives(link.table, ms[k], Expected(link, tx, ms)[k].msg)
    {
      ExpectedArrives(link, tx, ms, k);
    }
  }

  //
  // Resynchronising
  //

  /** One bad-data message per garbage byte. */
  function Noise(g: seq<octet>): (msgs: seq<Decoded>)
    ensures |msgs| == |g|
  {
    seq(|g|, i requires 0 <= i < |g| => Bad([g[i]], BadPrefix))
  }

  /** The bytes of a run of sends, with garbage in front of each frame and behind the last. */
  function NoisyBytes(link: Link, tx: Tx, ms: seq<Message>, garbage: seq<seq<octet>>): seq<octet>
    requires AllPackable(link.table, ms) && |garbage| == |ms| + 1
    decreases |ms|
  {
    if ms == [] then garbage[0]
    else
      var f := Frame(link.x25, link.table, Source(tx.seqNo, tx.system, tx.component), ms[0]);
      garbage[0] + (f + NoisyBytes(link, Send(link, tx, ms[0]), ms[1..], garbage[1..]))
  }

  /** The messages expected, with the noise in between. */
  function NoisyMessages(expected: seq<Decoded>, garbage: seq<seq<octet>>): seq<Decoded>
    requires |garbage| == |expected| + 1
    decreases |expected|
  {
    if expected == [] then Noise(garbage[0])
    else Noise(garbage[0]) + ([expected[0]] + NoisyMessages(expected[1..], garbage[1..]))
  }

  function GoodOnes(msgs: seq<Decoded>): seq<Decoded>
  {
    if msgs == [] then [] else (if msgs[0].Good? then [msgs[0]] else []) + GoodOnes(msgs[1..])
  }

  predicate NoMarker(g: seq<octet>)
  {
    MARKER !in g
  }

  lemma NoiseHead(link: Link, c: octet, b: seq<octet>)
    requires ValidTable(link.table) && c != MARKER
    ensures Head([c] + b) == 1 && HeadMessage(link, [c] + b) == Bad([c], BadPrefix)
  {
  }

  /** Garbage in front comes off byte by byte. */
  lemma {:induction false} NoiseScans(link: Link, g: seq<octet>, b: seq<octet>)
    requires ValidTable(link.table) && NoMarker(g)
    ensures Scan(link, g + b) == Scanned(Noise(g) + Scan(link, b).msgs, Scan(link, b).rest)
    decreases |g|
  {
    hide Scan, Head, HeadMessage, ValidTable;
    if g == [] {
      assert g + b == b && Noise(g) + Scan(link, b).msgs == Scan(link, b).msgs;
    } else {
      var c, later := g[0], g[1..];
      assert c in g && g == [c] + later;
      assert g + b == [c] + (later + b) && (g + b)[1..] == later + b;
      NoiseHead(link, c, later + b);
      ScanStep(link, g + b);
      NoiseScans(link, later, b);
      assert Noise(g) == [Bad([c], BadPrefix)] + Noise(later);
      assert [Bad([c], BadPrefix)] + (Noise(later) + Scan(link, b).msgs) == Noise(g) + Scan(link, b).msgs;
    }
  }

  lemma ExpectedStep(link: Link, tx: Tx, ms: seq<Message>)
    requires AllPackable(link.table, ms)
    ensures |Expected(link, tx, ms)| == |ms|
    ensures ms != [] ==>
      var src := Source(tx.seqNo, tx.system, tx.component);
      && Expected(link, tx, ms)[0]
        == Good(Received(link.table, ms[0]), src, Frame(link.x25, link.table, src, ms[0]))
      && Expected(link, tx, ms)[1..] == Expected(link, Send(link, tx, ms[0]), ms[1..])
    decreases |ms|
  {
    hide Frame, Received, Packable;
    if ms == [] {
    } else {
      ExpectedStep(link, Send(link, tx, ms[0]), ms[1..]);
    }
  }

  /** Frames are found behind any garbage without a marker, and to the last byte. */
  lemma {:induction false} NoisyScans(link: Link, tx: Tx, ms: seq<Message>, garbage: seq<seq<octet>>)
    requires ValidTable(link.table) && AllPackable(link.table, ms) && |garbage| == |ms| + 1
    requires forall i | 0 <= i < |garbage| :: NoMarker(garbage[i])
    ensures |Expected(link, tx, ms)| == |ms|
    ensures Scan(link, NoisyBytes(link, tx, ms, garbage))
      == Scanned(NoisyMessages(Expected(link, tx, ms), garbage), [])
    decreases |ms|
  {
    hide Frame, Received, Packable, Scan, Head, HeadMessage, Expected, NoMarker, Noise;
    ExpectedStep(link, tx, ms);
    if ms == [] {
      NoiseScans(link, garbage[0], []);
      ScanStep(link, []);
      EmptyHasNoHead();
      assert garbage[0] + [] == garbage[0] && Noise(garbage[0]) + [] == Noise(garbage[0]);
    } else {
      var src := Source(tx.seqNo, tx.system, tx.component);
      var f, next := Frame(link.x25, link.table, src, ms[0]), Send(link, tx, ms[0]);
      var later := NoisyBytes(link, next, ms[1..], garbage[1..]);
      NoiseScans(link, garbage[0], f + later);
      FrameIsHead(link, src, ms[0], later);
      ScanStep(link, f + later);
      assert (f + later)[|f|..] == later;
      NoisyScans(link, next, ms[1..], garbage[1..]);
    }
  }

  lemma GoodOnesStep(msgs: seq<Decoded>)
    ensures GoodOnes(msgs) ==
      if msgs == [] then [] else (if msgs[0].Good? then [msgs[0]] else []) + GoodOnes(msgs[1..])
  {
  }

  lemma {:induction false} GoodOnesAppend(a: seq<Decoded>, b: seq<Decoded>)
    ensures GoodOnes(a + b) == GoodOnes(a) + GoodOnes(b)
    decreases |a|
  {
    hide GoodOnes;
    GoodOnesStep(a);
    if a == [] {
      assert a + b == b;
    } else {
      assert (a + b)[0] == a[0] && (a + b)[1..] == a[1..] + b;
      GoodOnesStep(a + b);
      GoodOnesAppend(a[1..], b);
    }
  }

  lemma {:induction false} NoiseIsBad(g: seq<octet>)
    ensures GoodOnes(Noise(g)) == []
    ensures Goods(Noise(g)) == 0 && Bads(Noise(g)) == |g|
    decreases |g|
  {
    if g == [] {
    } else {
      assert Noise(g)[1..] == Noise(g[1..]);
      NoiseIsBad(g[1..]);
    }
  }

  lemma GoodFirst(d: Decoded, later: seq<Decoded>)
    requires d.Good?
    ensures GoodOnes([d] + later) == [d] + GoodOnes(later)
    ensures Goods([d] + later) == 1 + Goods(later) && Bads([d] + later) == Bads(later)
  {
    assert ([d] + later)[1..] == later;
  }

  lemma {:induction false} NoisyCounts(expected: seq<Decoded>, garbage: seq<seq<octet>>)
    requires |garbage| == |expected| + 1 && forall i | 0 <= i < |expected| :: expected[i].Good?
    ensures GoodOnes(NoisyMessages(expected, garbage)) == expected
    ensures Goods(NoisyMessages(expected, garbage)) == |expected|
    ensures Bads(NoisyMessages(expected, garbage)) == |Flatten(garbage)|
    decreases |expected|
  {
    hide Noise, GoodOnes, Goods, Bads, Raw;
    NoiseIsBad(garbage[0]);
    if expected == [] {
      assert garbage == [garbage[0]] && garbage[1..] == [];
    } else {
      var d, later := expected[0], NoisyMessages(expected[1..], garbage[1..]);
      NoisyCounts(expected[1..], garbage[1..]);
      GoodFirst(d, later);
      GoodOnesAppend(Noise(garbage[0]), [d] + later);
      CountsAppend(Noise(garbage[0]), [d] + later);
      assert expected == [d] + expected[1..];
    }
  }

  /**
    Resynchronising, end to end: with garbage that holds no marker in front of every frame and behind
    the last, and however the bytes are cut up, the receiver gets exactly the messages sent, with one
    bad-data message and one error for each garbage byte in between, and keeps nothing back.
   */
  lemma NoiseIsPassedOver(link: Link, tx: Tx, ms: seq<Message>, garbage: seq<seq<octet>>,
                          rx: Rx, chunks: seq<seq<octet>>)
    requires ValidTable(link.table) && AllPackable(link.table, ms) && |garbage| == |ms| + 1
    requires forall i | 0 <= i < |garbage| :: NoMarker(garbage[i])
    requires Ready(rx) && rx.buf == []
    requires Flatten(chunks) == NoisyBytes(link, tx, ms, garbage)
    ensures |Expected(link, tx, ms)| == |ms|
    ensures var run := ParseChunks(link, rx, chunks);
      && run.msgs == NoisyMessages(Expected(link, tx, ms), garbage)
      && GoodOnes(run.msgs) == Expected(link, tx, ms)
      && run.rx.buf == []
      && run.rx.packets == rx.packets + |ms|
      && run.rx.errors == rx.errors + |Flatten(garbage)|
  {
    hide Scan, Expected, Ready, Coherent, ParseBuffer, Packable, NoisyBytes, NoisyMessages, NoMarker, Arrives;
    var stream := Flatten(chunks);
    NoisyScans(link, tx, ms, garbage);
    ChunkingIsInvisible(link, rx, chunks);
    ReadyStaysPut(link, rx);
    DrainIsScan(link, rx, stream);
    assert rx.buf + stream == stream;
    forall i | 0 <= i < |ms|
      ensures Expected(link, tx, ms)[i].Good?
    {
      ExpectedArrives(link, tx, ms, i);
    }
    NoisyCounts(Expected(link, tx, ms), garbage);
  }

  //
  // Without robust parsing
  //

  datatype StrictSession = StrictSession(rx: Rx, results: seq<Result>)

  /** parse_char byte by byte, and all that was returned or raised. */
  function StrictRun(link: Link, rx: Rx, s: seq<octet>): StrictSession
    requires ValidTable(link.table)
    decreases |s|
  {
    if s == [] then StrictSession(rx, [])
    else
      var (next, r) := ParseChar(link, false, rx, [s[0]]);
      var more := StrictRun(link, next, s[1..]);
      StrictSession(more.rx, (if r == Nothing then [] else [r]) + more.results)
  }

  lemma StrictRunStep(link: Link, rx: Rx, c: octet, s: seq<octet>)
    requires ValidTable(link.table)
    ensures var (next, r) := ParseChar(link, false, rx, [c]);
      var more := StrictRun(link, next, s);
      StrictRun(link, rx, [c] + s) == StrictSession(more.rx, (if r == Nothing then [] else [r]) + more.results)
  {
    hide ParseChar;
    assert ([c] + s)[1..] == s;
  }

  lemma {:induction false} StrictAppend(link: Link, rx: Rx, a: seq<octet>, b: seq<octet>)
    requires ValidTable(link.table)
    ensures var first := StrictRun(link, rx, a);
      var second := StrictRun(link, first.rx, b);
      StrictRun(link, rx, a + b) == StrictSession(second.rx, first.results + second.results)
    decreases |a|
  {
    hide ParseChar, StrictRun, ValidTable;
    StrictNothing(link, rx);
    if a == [] {
      assert a + b == b && [] + StrictRun(link, rx, b).results == StrictRun(link, rx, b).results;
    } else {
      var (next, r) := ParseChar(link, false, rx, [a[0]]);
      assert a == [a[0]] + a[1..] && a + b == [a[0]] + (a[1..] + b);
      StrictRunStep(link, rx, a[0], a[1..]);
      StrictRunStep(link, rx, a[0], a[1..] + b);
      StrictAppend(link, next, a[1..], b);
      var first := StrictRun(link, next, a[1..]);
      var x, y, z := if r == Nothing then [] else [r], first.results, StrictRun(link, first.rx, b).results;
      assert x + (y + z) == x + y + z;
    }
  }

  lemma StrictNothing(link: Link, rx: Rx)
    requires ValidTable(link.table)
    ensures StrictRun(link, rx, []) == StrictSession(rx, [])
  {
  }

  /** Nothing is buffered. */
  predicate Empty(rx: Rx)
  {
    rx.buf == [] && rx.expected == 6
  }

  /** Garbage raises once, for its first byte, if no error is pending. */
  function Alarm(g: seq<octet>, pending: bool): seq<Result>
  {
    if g == [] || pending then [] else [Raised(BadMarker(g[0]))]
  }

  lemma {:induction false} StrictGarbage(link: Link, rx: Rx, g: seq<octet>)
    requires ValidTable(link.table) && Empty(rx) && NoMarker(g)
    ensures StrictRun(link, rx, g) == StrictSession(
      Rx([], 6, rx.prefixError || g != [], rx.bytes + |g|, rx.packets, rx.errors + |Alarm(g, rx.prefixError)|),
      Alarm(g, rx.prefixError))
    decreases |g|
  {
    hide ParseChar, StrictRun, ValidTable;
    if g == [] {
      StrictNothing(link, rx);
    } else {
      assert g[0] in g && g == [g[0]] + g[1..];
      var b := rx.buf + [g[0]];
      assert b == [g[0]] && b[1..] == [];
      StrictStep(link, rx, [g[0]]);
      StrictRunStep(link, rx, g[0], g[1..]);
      StrictGarbage(link, ParseChar(link, false, rx, [g[0]]).0, g[1..]);
      assert Alarm(g, rx.prefixError) + [] == Alarm(g, rx.prefixError);
    }
  }

  /** A frame's own header announces its length. */
  predicate IsFrame(f: seq<octet>)
  {
    |f| >= 8 && f[0] == MARKER && FrameSize(f[1]) == |f|
  }

  lemma PartOfFrame(f: seq<octet>, k: nat)
    requires IsFrame(f) && k <= |f|
    ensures Head(f[..k]) == if k == |f| then |f| else 0
    ensures k > 0 ==> f[..k] != [] && f[..k][0] == MARKER
  {
  }

  /** A frame that decodes is returned and counted; one that does not raises, and nothing is counted. */
  function FrameResult(d: Decoded): Result
  {
    if d.Good? then Returned(d) else Raised(d.reason)
  }

  lemma {:induction false} StrictFrameFrom(link: Link, rx: Rx, f: seq<octet>, k: nat)
    requires ValidTable(link.table) && IsFrame(f) && k < |f|
    requires rx.buf == f[..k] && rx.expected == Announced(f[..k])
    ensures var d := Decode(link.x25, link.table, f);
      StrictRun(link, rx, f[k..]) == StrictSession(
        Rx([], 6, false, rx.bytes + |f| - k, rx.packets + (if d.Good? then 1 else 0), rx.errors), [FrameResult(d)])
    decreases |f| - k
  {
    hide ParseChar, StrictRun, ValidTable, Decode, Head;
    var b := rx.buf + [f[k]];
    assert b == f[..k + 1] && f[k..] == [f[k]] + f[k + 1..];
    PartOfFrame(f, k + 1);
    StrictStep(link, rx, [f[k]]);
    StrictRunStep(link, rx, f[k], f[k + 1..]);
    var next := ParseChar(link, false, rx, [f[k]]).0;
    if k + 1 == |f| {
      assert b == f && f[k + 1..] == [] && f[..|f|] == f && f[|f|..] == [];
      StrictNothing(link, next);
    } else {
      StrictFrameFrom(link, next, f, k + 1);
    }
  }

  lemma StrictFrame(link: Link, rx: Rx, f: seq<octet>)
    requires ValidTable(link.table) && IsFrame(f) && Empty(rx)
    ensures var d := Decode(link.x25, link.table, f);
      StrictRun(link, rx, f) == StrictSession(
        Rx([], 6, false, rx.bytes + |f|, rx.packets + (if d.Good? then 1 else 0), rx.errors), [FrameResult(d)])
  {
    hide StrictRun, ValidTable, Decode;
    assert f[..0] == [] && f[0..] == f;
    StrictFrameFrom(link, rx, f, 0);
  }

  /** For each stretch of garbage its alarm, and the messages in between. */
  function StrictResults(expected: seq<Decoded>, garbage: seq<seq<octet>>): seq<Result>
    requires |garbage| == |expected| + 1
    decreases |expected|
  {
    if expected == [] then Alarm(garbage[0], false)
    else Alarm(garbage[0], false) + ([Returned(expected[0])] + StrictResults(expected[1..], garbage[1..]))
  }

  /** How many stretches of garbage are not empty. */
  function Stretches(garbage: seq<seq<octet>>): nat
  {
    if garbage == [] then 0 else (if garbage[0] != [] then 1 else 0) + Stretches(garbage[1..])
  }

  lemma SentIsFrame(link: Link, tx: Tx, m: Message)
    requires ValidTable(link.table) && Packable(link.table, m)
    ensures var src := Source(tx.seqNo, tx.system, tx.component);
      var f := Frame(link.x25, link.table, src, m);
      IsFrame(f) && Decode(link.x25, link.table, f) == Good(Received(link.table, m), src, f)
  {
    hide Frame, Decode, Received, Packable, Payload, Size, Sum;
    var src := Source(tx.seqNo, tx.system, tx.component);
    FrameLayout(link.x25, link.table, src, m);
    DecodeOfFrame(link.x25, link.table, src, m);
  }

  /**
    Without robust parsing, byte by byte: each stretch of garbage in front of a frame or behind the last
    raises and is counted once, for its first byte, and every frame sent is returned all the same.
   */
  lemma {:induction false} StrictPassesNoise(link: Link, tx: Tx, ms: seq<Message>, garbage: seq<seq<octet>>, rx: Rx)
    requires ValidTable(link.table) && AllPackable(link.table, ms) && |garbage| == |ms| + 1
    requires forall i | 0 <= i < |garbage| :: NoMarker(garbage[i])
    requires Empty(rx) && !rx.prefixError
    ensures |Expected(link, tx, ms)| == |ms|
    ensures var run := StrictRun(link, rx, NoisyBytes(link, tx, ms, garbage));
      && run.results == StrictResults(Expected(link, tx, ms), garbage)
      && run.rx.buf == []
      && run.rx.packets == rx.packets + |ms|
      && run.rx.errors == rx.errors + Stretches(garbage)
    decreases |ms|
  {
    hide Frame, Received, Packable, Expected, NoMarker, StrictRun, Decode, ValidTable;
    ExpectedStep(link, tx, ms);
    StrictGarbage(link, rx, garbage[0]);
    if ms == [] {
      assert Stretches(garbage[1..]) == 0;
    } else {
      var src := Source(tx.seqNo, tx.system, tx.component);
      var f, next := Frame(link.x25, link.table, src, ms[0]), Send(link, tx, ms[0]);
      var later := NoisyBytes(link, next, ms[1..], garbage[1..]);
      var noisy := StrictRun(link, rx, garbage[0]).rx;
      StrictAppend(link, rx, garbage[0], f + later);
      SentIsFrame(link, tx, ms[0]);
      StrictFrame(link, noisy, f);
      StrictAppend(link, noisy, f, later);
      StrictPassesNoise(link, next, ms[1..], garbage[1..], StrictRun(link, noisy, f).rx);
    }
  }
}
