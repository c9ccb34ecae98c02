/**
  The streaming receiver: one step of parse_char, the draining loop of parse_buffer, and the
  one-pass scan of a whole byte stream that both amount to when parsing is robust.
 */
module MavFramer {
  import opened Octets
  import opened MavFields
  import opened MavMessages

  datatype Link = Link(x25: Checksum, table: Table)

  /** The receiver's part of the protocol object. */
  datatype Rx = Rx(buf: seq<octet>, expected: nat, prefixError: bool, bytes: nat, packets: nat, errors: nat)

  const FRESH := Rx([], 6, false, 0, 0, 0)

  datatype Result = Nothing | Returned(d: Decoded) | Raised(reason: Reason)

  /** Length of a frame with len payload bytes: header, payload, checksum. */
  function FrameSize(len: octet): nat
  {
    len as int + 8
  }

  function BytesNeeded(rx: Rx): nat
  {
    if rx.expected <= |rx.buf| then 1 else rx.expected - |rx.buf|
  }

  function BadPrefixStep(robust: bool, rx: Rx): (Rx, Result)
    requires rx.buf != []
  {
    var magic, dropped := rx.buf[0], rx.(buf := rx.buf[1..]);
    if robust then
      (dropped.(expected := 6, errors := rx.errors + 1), Returned(Bad([magic], BadPrefix)))
    else if rx.prefixError then (dropped, Nothing)
    else (dropped.(prefixError := true, errors := rx.errors + 1), Raised(BadMarker(magic)))
  }

  function FrameStep(link: Link, robust: bool, rx: Rx): (Rx, Result)
    requires ValidTable(link.table)
    requires rx.expected <= |rx.buf|
  {
    var frame := rx.buf[..rx.expected];
    var taken := rx.(buf := rx.buf[rx.expected..], expected := 6);
    var d := Decode(link.x25, link.table, frame);
    if d.Good? then (taken.(packets := rx.packets + 1), Returned(d))
    else if robust then (taken.(errors := rx.errors + 1), Returned(d))
    else (taken, Raised(d.reason))
  }

  /** One call of parse_char with the bytes c. */
  function ParseChar(link: Link, robust: bool, rx: Rx, c: seq<octet>): (Rx, Result)
    requires ValidTable(link.table)
  {
    var fed := rx.(buf := rx.buf + c, bytes := rx.bytes + |c|);
    if |fed.buf| >= 1 && fed.buf[0] != MARKER then BadPrefixStep(robust, fed)
    else
      var expected := if |fed.buf| >= 2 then FrameSize(fed.buf[1]) else fed.expected;
      var clean := fed.(prefixError := false, expected := expected);
      if clean.expected >= 8 && |clean.buf| >= clean.expected then FrameStep(link, robust, clean)
      else (clean, Nothing)
  }

  /** The messages parse_buffer collects, unless a call raised: then they are lost with it. */
  datatype Batch = Batch(rx: Rx, msgs: seq<Decoded>, raised: Result)

  function ParseBuffer(link: Link, robust: bool, rx: Rx, s: seq<octet>): Batch
    requires ValidTable(link.table)
    decreases |rx.buf| + |s|
  {
    var (next, r) := ParseChar(link, robust, rx, s);
    match r
    case Nothing => Batch(next, [], Nothing)
    case Raised(_) => Batch(next, [], r)
    case Returned(d) =>
      var more := ParseBuffer(link, robust, next, []);
      Batch(more.rx, if more.raised.Raised? then [] else [d] + more.msgs, more.raised)
  }

  //
  // The scan
  //

  datatype Scanned = Scanned(msgs: seq<Decoded>, rest: seq<octet>)

  /** How many bytes at the front of b make its first message; none if b has to grow first. */
  function Head(b: seq<octet>): (n: nat)
    ensures n <= |b|
  {
    if b == [] then 0
    else if b[0] != MARKER then 1
    else if |b| >= 2 && |b| >= FrameSize(b[1]) then FrameSize(b[1])
    else 0
  }

  function HeadMessage(link: Link, b: seq<octet>): (d: Decoded)
    requires ValidTable(link.table) && Head(b) > 0
    ensures d.raw == b[..Head(b)]
  {
    if b[0] != MARKER then Bad([b[0]], BadPrefix) else Decode(link.x25, link.table, b[..Head(b)])
  }

  function Scan(link: Link, b: seq<octet>): Scanned
    requires ValidTable(link.table)
    decreases |b|
  {
    if Head(b) == 0 then Scanned([], b)
    else
      var more := Scan(link, b[Head(b)..]);
      Scanned([HeadMessage(link, b)] + more.msgs, more.rest)
  }

  function Raw(msgs: seq<Decoded>): seq<octet>
  {
    if msgs == [] then [] else msgs[0].raw + Raw(msgs[1..])
  }

  function Goods(msgs: seq<Decoded>): nat
  {
    if msgs == [] then 0 else (if msgs[0].Good? then 1 else 0) + Goods(msgs[1..])
  }

  function Bads(msgs: seq<Decoded>): nat
  {
    if msgs == [] then 0 else (if msgs[0].Bad? then 1 else 0) + Bads(msgs[1..])
  }

  /** What expected_length holds once nothing more can be taken from the buffer. */
  function Announced(b: seq<octet>): nat
  {
    if |b| >= 2 && b[0] == MARKER then FrameSize(b[1]) else 6
  }

  /** expected_length is 6, or it is what the buffered header announces. */
  predicate Coherent(rx: Rx)
  {
    rx.expected == 6 || (|rx.buf| >= 2 && rx.buf[0] == MARKER && rx.expected == FrameSize(rx.buf[1]))
  }

  /** The receiver's state between calls of parse_buffer. */
  predicate Ready(rx: Rx)
  {
    && !rx.prefixError
    && rx.expected == Announced(rx.buf)
    && Head(rx.buf) == 0
  }

  /** The receiver after scanning b out of its buffer, s having been fed. */
  function Settled(link: Link, rx: Rx, s: seq<octet>): Rx
    requires ValidTable(link.table)
  {
    var scan := Scan(link, rx.buf + s);
    Rx(scan.rest, Announced(scan.rest), false, rx.bytes + |s|,
       rx.packets + Goods(scan.msgs), rx.errors + Bads(scan.msgs))
  }

  lemma {:induction false} CountsAppend(a: seq<Decoded>, b: seq<Decoded>)
    ensures Goods(a + b) == Goods(a) + Goods(b)
    ensures Bads(a + b) == Bads(a) + Bads(b)
    ensures Raw(a + b) == Raw(a) + Raw(b)
  {
    if a == [] {
      assert a + b == b;
    } else {
      assert (a + b)[1..] == a[1..] + b;
      CountsAppend(a[1..], b);
    }
  }

  lemma {:induction false} EveryMessageCounted(msgs: seq<Decoded>)
    ensures Goods(msgs) + Bads(msgs) == |msgs|
  {
    if msgs == [] {
    } else {
      EveryMessageCounted(msgs[1..]);
    }
  }

  //
  // Draining is scanning
  //

  lemma ScanStep(link: Link, b: seq<octet>)
    requires ValidTable(link.table)
    ensures Head(b) == 0 ==> Scan(link, b) == Scanned([], b)
    ensures Head(b) > 0 ==>
      var more := Scan(link, b[Head(b)..]);
      Scan(link, b) == Scanned([HeadMessage(link, b)] + more.msgs, more.rest)
  {
    hide HeadMessage, Head;
  }

  /** In robust mode one call takes the first message off what is pending, or it waits. */
  lemma RobustStep(link: Link, rx: Rx, c: seq<octet>)
    requires ValidTable(link.table) && Coherent(rx)
    ensures var b, step := rx.buf + c, ParseChar(link, true, rx, c);
      if Head(b) == 0 then
        step == (Rx(b, Announced(b), false, rx.bytes + |c|, rx.packets, rx.errors), Nothing)
      else
        var d := HeadMessage(link, b);
        var packets, errors := rx.packets + (if d.Good? then 1 else 0), rx.errors + (if d.Bad? then 1 else 0);
        var pending := rx.prefixError && b[0] != MARKER;
        step == (Rx(b[Head(b)..], 6, pending, rx.bytes + |c|, packets, errors), Returned(d))
  {
    hide Decode;
  }

  /**
    Without robust parsing a call takes the first message off as well, but garbage is told once, by an
    error, and then dropped silently until a marker comes; and a frame that does not decode raises
    without being counted as an error.
   */
  lemma StrictStep(link: Link, rx: Rx, c: seq<octet>)
    requires ValidTable(link.table) && Coherent(rx)
    ensures var b, step, bytes := rx.buf + c, ParseChar(link, false, rx, c), rx.bytes + |c|;
      if Head(b) == 0 then
        step == (Rx(b, Announced(b), false, bytes, rx.packets, rx.errors), Nothing)
      else if b[0] != MARKER then
        && step.0 == Rx(b[1..], 6, true, bytes, rx.packets, rx.errors + (if rx.prefixError then 0 else 1))
        && step.1 == (if rx.prefixError then Nothing else Raised(BadMarker(b[0])))
      else
        var d := HeadMessage(link, b);
        && step.0 == Rx(b[Head(b)..], 6, false, bytes, rx.packets + (if d.Good? then 1 else 0), rx.errors)
        && step.1 == (if d.Good? then Returned(d) else Raised(d.reason))
  {
    hide Decode;
  }

  lemma NothingCounted()
    ensures Goods([]) == Bads([]) == 0
    ensures Raw([]) == []
  {
  }

  lemma CountOne(d: Decoded)
    ensures Goods([d]) == (if d.Good? then 1 else 0)
    ensures Bads([d]) == (if d.Bad? then 1 else 0)
    ensures Raw([d]) == d.raw
  {
    assert [d][1..] == [];
    assert d.raw + [] == d.raw;
  }

  /** In robust mode one step takes off the first message a scan would find, or nothing if there is none. */
  lemma StepIsFirstOfScan(link: Link, rx: Rx, c: seq<octet>)
    requires ValidTable(link.table) && Coherent(rx)
    ensures var (next, r) := ParseChar(link, true, rx, c);
      var scan, later := Scan(link, rx.buf + c), Scan(link, next.buf);
      && Coherent(next)
      && !r.Raised?
      && (r == Nothing ==> scan == Scanned([], next.buf) && next == Settled(link, rx, c))
      && (r.Returned? ==>
          && scan == Scanned([r.d] + later.msgs, later.rest)
          && |next.buf| < |rx.buf| + |c|
          && next.bytes == rx.bytes + |c|
          && next.packets == rx.packets + Goods([r.d])
          && next.errors == rx.errors + Bads([r.d]))
  {
    hide Scan, ParseChar, Head, HeadMessage, Goods, Bads, ValidTable;
    var b := rx.buf + c;
    RobustStep(link, rx, c);
    ScanStep(link, b);
    if Head(b) == 0 {
      NothingCounted();
    } else {
      CountOne(HeadMessage(link, b));
    }
  }

  /** parse_buffer returns what a scan of everything buffered and fed finds, and keeps the scan's rest. */
  lemma {:induction false} DrainIsScan(link: Link, rx: Rx, s: seq<octet>)
    requires ValidTable(link.table) && Coherent(rx)
    ensures ParseBuffer(link, true, rx, s) == Batch(Settled(link, rx, s), Scan(link, rx.buf + s).msgs, Nothing)
    decreases |rx.buf| + |s|
  {
    hide ParseChar, Scan;
    var (next, r) := ParseChar(link, true, rx, s);
    StepIsFirstOfScan(link, rx, s);
    if r.Returned? {
      DrainIsScan(link, next, []);
      assert next.buf + [] == next.buf;
      CountsAppend([r.d], Scan(link, next.buf).msgs);
    }
  }

  /** Place of the first message that is not good; the number of messages if all are. */
  function FirstBad(msgs: seq<Decoded>): (k: nat)
    ensures k <= |msgs|
    ensures k < |msgs| ==> msgs[k].Bad?
    ensures forall j | 0 <= j < k :: msgs[j].Good?
  {
    if msgs == [] || msgs[0].Bad? then 0 else 1 + FirstBad(msgs[1..])
  }

  /** What is raised for a message that is not good: garbage is an invalid marker. */
  function RaisedFor(d: Decoded): Result
    requires d.Bad? && d.raw != []
  {
    Raised(if d.raw[0] != MARKER then BadMarker(d.raw[0]) else d.reason)
  }

  /** The garbage byte at the front is one of a stretch that was told before. */
  predicate ToldBefore(rx: Rx, b: seq<octet>)
  {
    rx.prefixError && b != [] && b[0] != MARKER
  }

  lemma BufferUnfolds(link: Link, robust: bool, rx: Rx, s: seq<octet>)
    requires ValidTable(link.table)
    ensures var (next, r) := ParseChar(link, robust, rx, s);
      ParseBuffer(link, robust, rx, s) ==
        if !r.Returned? then Batch(next, [], r)
        else
          var more := ParseBuffer(link, robust, next, []);
          Batch(more.rx, if more.raised.Raised? then [] else [r.d] + more.msgs, more.raised)
  {
    hide ParseChar;
  }

  lemma FirstBadStep(d: Decoded, later: seq<Decoded>)
    ensures FirstBad([d] + later) == if d.Bad? then 0 else 1 + FirstBad(later)
  {
    assert ([d] + later)[1..] == later;
  }

  /**
    parse_buffer without robust parsing. If a scan finds only good messages it does what the robust one
    does. Otherwise it stops behind the first message that is not good: the good ones before it have been
    counted, but are lost, and its error is raised; except that garbage in front, already told, is
    dropped silently, one byte of it.
   */
  lemma {:induction false} StrictDrain(link: Link, rx: Rx, s: seq<octet>)
    requires ValidTable(link.table) && Coherent(rx)
    ensures var b, out := rx.buf + s, ParseBuffer(link, false, rx, s);
      var scan := Scan(link, b);
      var k := FirstBad(scan.msgs);
      if k == |scan.msgs| then out == ParseBuffer(link, true, rx, s)
      else
        && scan.msgs[k].raw != []
        && out.msgs == []
        && out.raised == (if ToldBefore(rx, b) then Nothing else RaisedFor(scan.msgs[k]))
        && Raw(scan.msgs[..k + 1]) + out.rx.buf == b
        && out.rx.packets == rx.packets + k
    decreases |rx.buf| + |s|
  {
    hide ParseChar, ParseBuffer, Scan, Head, HeadMessage, ValidTable, FirstBad, Raw, Goods, Bads;
    var b := rx.buf + s;
    var (next, r) := ParseChar(link, false, rx, s);
    BufferUnfolds(link, false, rx, s);
    BufferUnfolds(link, true, rx, s);
    StrictStep(link, rx, s);
    RobustStep(link, rx, s);
    ScanStep(link, b);
    if Head(b) == 0 {
      assert FirstBad([]) == 0;
    } else {
      var d, later := HeadMessage(link, b), Scan(link, b[Head(b)..]).msgs;
      HeadKinds(link, b);
      FirstBadStep(d, later);
      if d.Bad? {
        assert ([d] + later)[..1] == [d];
        CountOne(d);
        assert b[..Head(b)] + b[Head(b)..] == b;
      } else {
        StrictDrain(link, next, []);
        assert next.buf + [] == next.buf == b[Head(b)..];
        var k := FirstBad(later);
        if k < |later| {
          assert ([d] + later)[..k + 2] == [d] + later[..k + 1];
          CountsAppend([d], later[..k + 1]);
          CountOne(d);
          assert b == d.raw + (Raw(later[..k + 1]) + ParseBuffer(link, false, next, []).rx.buf);
        }
      }
    }
  }

  lemma HeadKinds(link: Link, b: seq<octet>)
    requires ValidTable(link.table) && Head(b) > 0
    ensures var d := HeadMessage(link, b);
      && d.raw != [] && d.raw[0] == b[0]
      && (b[0] != MARKER ==> Head(b) == 1 && d.Bad?)
  {
    hide Decode;
  }

  lemma HeadStays(link: Link, a: seq<octet>, b: seq<octet>)
    requires ValidTable(link.table) && Head(a) > 0
    ensures Head(a + b) == Head(a)
    ensures HeadMessage(link, a + b) == HeadMessage(link, a)
  {
    hide Decode;
    assert (a + b)[..Head(a)] == a[..Head(a)];
  }

  /** Scanning may stop anywhere and go on from what it left. */
  lemma {:induction false} ScanAppend(link: Link, a: seq<octet>, b: seq<octet>)
    requires ValidTable(link.table)
    ensures var first := Scan(link, a);
      var second := Scan(link, first.rest + b);
      Scan(link, a + b) == Scanned(first.msgs + second.msgs, second.rest)
    decreases |a|
  {
    hide HeadMessage, Head, Scan, ValidTable;
    var n := Head(a);
    ScanStep(link, a);
    if n == 0 {
      assert [] + Scan(link, a + b).msgs == Scan(link, a + b).msgs;
    } else {
      var d, first := HeadMessage(link, a), Scan(link, a[n..]);
      HeadStays(link, a, b);
      assert (a + b)[n..] == a[n..] + b;
      ScanStep(link, a + b);
      ScanAppend(link, a[n..], b);
      var second := Scan(link, first.rest + b);
      assert [d] + (first.msgs + second.msgs) == [d] + first.msgs + second.msgs;
    }
  }

  /** What a scan leaves cannot be taken further. */
  lemma {:induction false} ScanRest(link: Link, b: seq<octet>)
    requires ValidTable(link.table)
    ensures Head(Scan(link, b).rest) == 0
    decreases |b|
  {
    hide HeadMessage, Head;
    if Head(b) == 0 {
    } else {
      ScanRest(link, b[Head(b)..]);
    }
  }

  /** Nothing is lost and nothing invented: the messages' own bytes and the rest are the input. */
  lemma {:induction false} ScanConserves(link: Link, b: seq<octet>)
    requires ValidTable(link.table)
    ensures Raw(Scan(link, b).msgs) + Scan(link, b).rest == b
    decreases |b|
  {
    hide HeadMessage, Head, Scan, ValidTable, Raw;
    var n := Head(b);
    ScanStep(link, b);
    if n == 0 {
      NothingCounted();
      assert [] + b == b;
    } else {
      var d, more := HeadMessage(link, b), Scan(link, b[n..]);
      ScanConserves(link, b[n..]);
      CountOne(d);
      CountsAppend([d], more.msgs);
      assert b == b[..n] + (Raw(more.msgs) + more.rest) == b[..n] + Raw(more.msgs) + more.rest;
    }
  }
}
