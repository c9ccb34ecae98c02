/** The protocol object: its fields change call by call as MavFramer and MavSession say. */
module Mavlink {
  import opened Octets
  import opened MavFields
  import opened MavMessages
  import opened MavFramer
  import opened MavSession

  class MAVLink {
    const x25: Checksum
    const table: Table
    const srcSystem: octet
    const srcComponent: octet

    var seqNo: octet
    var file: seq<octet>  // everything written so far
    var totalPacketsSent: nat
    var totalBytesSent: nat

    var buf: seq<octet>
    var expectedLength: nat
    var havePrefixError: bool
    var robustParsing: bool
    var totalPacketsReceived: nat
    var totalBytesReceived: nat
    var totalReceiveErrors: nat

    function Link(): MavFramer.Link
    {
      MavFramer.Link(x25, table)
    }

    function Receiver(): Rx
      reads this
    {
      Rx(buf, expectedLength, havePrefixError, totalBytesReceived, totalPacketsReceived, totalReceiveErrors)
    }

    function Sender(): Tx
      reads this
    {
      Tx(seqNo, srcSystem, srcComponent, totalPacketsSent, totalBytesSent, file)
    }

    constructor (x25: Checksum, table: Table, srcSystem: octet, srcComponent: octet)
      ensures this.x25 == x25 && this.table == table
      ensures this.srcSystem == srcSystem && this.srcComponent == srcComponent
      ensures Receiver() == FRESH && Ready(Receiver()) && Waiting(Receiver())
      ensures Sender() == Tx(0, srcSystem, srcComponent, 0, 0, [])
      ensures !robustParsing
    {
      this.x25 := x25;
      this.table := table;
      this.srcSystem := srcSystem;
      this.srcComponent := srcComponent;
      seqNo, file, totalPacketsSent, totalBytesSent := 0, [], 0, 0;
      buf, expectedLength, havePrefixError, robustParsing := [], 6, false, false;
      totalPacketsReceived, totalBytesReceived, totalReceiveErrors := 0, 0, 0;
    }

    /** Packing comes first: a message that cannot be packed changes nothing. */
    method SendMessage(m: Message) returns (ok: bool)
      modifies `seqNo, `file, `totalPacketsSent, `totalBytesSent
      ensures ok == Packable(table, m)
      ensures Sender() == if ok then Send(Link(), old(Sender()), m) else old(Sender())
    {
      hide Packable, Frame;
      if !Packable(table, m) {
        return false;
      }
      var bytes := Frame(x25, table, Source(seqNo, srcSystem, srcComponent), m);
      file := file + bytes;
      seqNo := (seqNo + 1) % 255;
      totalPacketsSent := totalPacketsSent + 1;
      totalBytesSent := totalBytesSent + |bytes|;
      return true;
    }

    method BytesNeeded() returns (n: nat)
      ensures n == MavFramer.BytesNeeded(Receiver())
    {
      var ret: int := expectedLength - |buf|;
      if ret <= 0 {
        return 1;
      }
      return ret;
    }

    method ParseChar(c: seq<octet>) returns (r: Result)
      requires ValidTable(table)
      modifies `buf, `expectedLength, `havePrefixError,
        `totalPacketsReceived, `totalBytesReceived, `totalReceiveErrors
      ensures (Receiver(), r) == MavFramer.ParseChar(Link(), robustParsing, old(Receiver()), c)
    {
      hide Decode, ValidTable, MavFramer.ParseChar;
      CharCases(Link(), robustParsing, Receiver(), c);
      buf := buf + c;
      totalBytesReceived := totalBytesReceived + |c|;
      if |buf| >= 1 && buf[0] != MARKER {
        var magic := buf[0];
        buf := buf[1..];
        if robustParsing {
          expectedLength := 6;
          totalReceiveErrors := totalReceiveErrors + 1;
          return Returned(Bad([magic], BadPrefix));
        }
        if havePrefixError {
          return Nothing;
        }
        havePrefixError := true;
        totalReceiveErrors := totalReceiveErrors + 1;
        return Raised(BadMarker(magic));
      }
      havePrefixError := false;
      if |buf| >= 2 {
        expectedLength := buf[1];
        expectedLength := expectedLength + 8;
      }
      if expectedLength >= 8 && |buf| >= expectedLength {
        var mbuf := buf[..expectedLength];
        buf := buf[expectedLength..];
        expectedLength := 6;
        var d := Decode(x25, table, mbuf);
        if d.Good? {
          totalPacketsReceived := totalPacketsReceived + 1;
        } else if robustParsing {
          totalReceiveErrors := totalReceiveErrors + 1;
        } else {
          return Raised(d.reason);
        }
        return Returned(d);
      }
      return Nothing;
    }

    /** Drains the buffer; if a call raises, what was collected is lost with it. */
    method ParseBuffer(s: seq<octet>) returns (msgs: seq<Decoded>, raised: Result)
      requires ValidTable(table)
      modifies `buf, `expectedLength, `havePrefixError,
        `totalPacketsReceived, `totalBytesReceived, `totalReceiveErrors
      ensures Batch(Receiver(), msgs, raised) == MavFramer.ParseBuffer(Link(), robustParsing, old(Receiver()), s)
    {
      hide MavFramer.ParseChar, MavFramer.ParseBuffer, ValidTable;
      ghost var robust, total := robustParsing, MavFramer.ParseBuffer(Link(), robustParsing, Receiver(), s);
      msgs := [];
      RaisedIsEmpty(Link(), robust, Receiver(), s);
      var c := s;
      while true
        invariant robustParsing == robust
        invariant total == Prepend(msgs, MavFramer.ParseBuffer(Link(), robust, Receiver(), c))
        decreases |buf| + |c|
      {
        BufferStep(Link(), robust, Receiver(), c);
        var r := ParseChar(c);
        match r {
          case Nothing =>
            assert msgs + [] == msgs;
            return msgs, Nothing;
          case Raised(_) =>
            return [], r;
          case Returned(d) =>
            PrependAgain(msgs, d, MavFramer.ParseBuffer(Link(), robust, Receiver(), []));
            msgs := msgs + [d];
            c := [];
        }
      }
    }
  }

  /** The cases of parse_char in the order the method tells them apart. */
  lemma CharCases(link: MavFramer.Link, robust: bool, rx: Rx, c: seq<octet>)
    requires ValidTable(link.table)
    ensures var b, bytes, packets, errors := rx.buf + c, rx.bytes + |c|, rx.packets, rx.errors;
      MavFramer.ParseChar(link, robust, rx, c) ==
        if |b| >= 1 && b[0] != MARKER then
          if robust then (Rx(b[1..], 6, rx.prefixError, bytes, packets, errors + 1), Returned(Bad([b[0]], BadPrefix)))
          else if rx.prefixError then (Rx(b[1..], rx.expected, true, bytes, packets, errors), Nothing)
          else (Rx(b[1..], rx.expected, true, bytes, packets, errors + 1), Raised(BadMarker(b[0])))
        else
          var n := if |b| >= 2 then FrameSize(b[1]) else rx.expected;
          if n >= 8 && |b| >= n then
            var d := Decode(link.x25, link.table, b[..n]);
            if d.Good? then (Rx(b[n..], 6, false, bytes, packets + 1, errors), Returned(d))
            else if robust then (Rx(b[n..], 6, false, bytes, packets, errors + 1), Returned(d))
            else (Rx(b[n..], 6, false, bytes, packets, errors), Raised(d.reason))
          else (Rx(b, n, false, bytes, packets, errors), Nothing)
  {
    hide Decode;
  }

  /** A batch with messages collected before it; a batch that raised loses them. */
  function Prepend(msgs: seq<Decoded>, b: Batch): Batch
  {
    b.(msgs := if b.raised.Raised? then [] else msgs + b.msgs)
  }

  lemma RaisedIsEmpty(link: MavFramer.Link, robust: bool, rx: Rx, s: seq<octet>)
    requires ValidTable(link.table)
    ensures var b := MavFramer.ParseBuffer(link, robust, rx, s); Prepend([], b) == b
  {
    hide MavFramer.ParseChar;
    var b := MavFramer.ParseBuffer(link, robust, rx, s);
    assert [] + b.msgs == b.msgs;
  }

  lemma PrependAgain(msgs: seq<Decoded>, d: Decoded, b: Batch)
    ensures Prepend(msgs, Prepend([d], b)) == Prepend(msgs + [d], b)
  {
    assert msgs + ([d] + b.msgs) == msgs + [d] + b.msgs;
  }

  /** One call of parse_char within parse_buffer; if it returns a message, the buffer has shrunk. */
  lemma BufferStep(link: MavFramer.Link, robust: bool, rx: Rx, c: seq<octet>)
    requires ValidTable(link.table)
    ensures var (next, r) := MavFramer.ParseChar(link, robust, rx, c);
      var whole := MavFramer.ParseBuffer(link, robust, rx, c);
      match r
      case Nothing => whole == Batch(next, [], Nothing)
      case Raised(_) => whole == Batch(next, [], r)
      case Returned(d) =>
        && |next.buf| < |rx.buf| + |c|
        && whole == Prepend([d], MavFramer.ParseBuffer(link, robust, next, []))
  {
    hide MavFramer.ParseChar;
    StepShrinks(link, robust, rx, c);
  }

  /** A call that returns a message leaves less in the buffer than it was given. */
  lemma StepShrinks(link: MavFramer.Link, robust: bool, rx: Rx, c: seq<octet>)
    requires ValidTable(link.table)
    ensures var (next, r) := MavFramer.ParseChar(link, robust, rx, c);
      r.Returned? ==> |next.buf| < |rx.buf| + |c|
  {
    hide Decode;
  }
}
