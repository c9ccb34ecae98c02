/** Whole MAVLink 1.0 frames: packing a message, and decoding what may or may not be one. */
module MavMessages {
  import opened Octets
  import opened MavFields

  const MARKER: octet := 254

  type word16 = x: int | 0 <= x < 65536

  /** The checksum's two operations; mavutil.x25crc supplies them. */
  datatype Checksum = Checksum(init: word16, step: (word16, octet) -> word16)

  function Accumulate(x25: Checksum, data: seq<octet>, crc: word16): word16
  {
    if data == [] then crc else Accumulate(x25, data[1..], x25.step(crc, data[0]))
  }

  /** Checksum of data followed by the message's own extra byte. */
  function Sum(x25: Checksum, data: seq<octet>, extra: octet): word16
  {
    x25.step(Accumulate(x25, data, x25.init), extra)
  }

  /**
    One row of the message map: the wire format, for each declared field its place on the wire
    (order), and for each place on the wire the declared field packed there (packed).
   */
  datatype Schema = Schema(fmt: seq<Code>, order: seq<nat>, packed: seq<nat>, extra: octet)

  predicate ValidSchema(s: Schema)
  {
    && |s.order| == |s.packed| == |s.fmt|
    && Size(s.fmt) <= 255
    && (forall i | 0 <= i < |s.fmt| :: s.order[i] < |s.fmt| && s.packed[i] < |s.fmt|)
    && (forall i | 0 <= i < |s.fmt| :: s.packed[s.order[i]] == i)
    && (forall j | 0 <= j < |s.fmt| :: s.order[s.packed[j]] == j)
  }

  type Table = map<octet, Schema>

  ghost predicate ValidTable(table: Table)
  {
    forall id | id in table :: ValidSchema(table[id])
  }

  /** A message: its id, and its fields in the order its constructor declares them. */
  datatype Message = Message(id: octet, fields: seq<Value>)

  function WireOrder(s: Schema, fields: seq<Value>): (wire: seq<Value>)
    requires ValidSchema(s) && |fields| == |s.fmt|
    ensures |wire| == |s.fmt|
  {
    seq(|s.fmt|, j requires 0 <= j < |s.fmt| => fields[s.packed[j]])
  }

  function DeclaredOrder(s: Schema, wire: seq<Value>): (fields: seq<Value>)
    requires ValidSchema(s) && |wire| == |s.fmt|
    ensures |fields| == |s.fmt|
  {
    seq(|s.fmt|, i requires 0 <= i < |s.fmt| => wire[s.order[i]])
  }

  /** The message can be packed: known, with as many fields as declared, each fitting its place. */
  predicate Packable(table: Table, m: Message)
  {
    && m.id in table
    && ValidSchema(table[m.id])
    && |m.fields| == |table[m.id].fmt|
    && AllFit(table[m.id].fmt, WireOrder(table[m.id], m.fields))
  }

  datatype Source = Source(seqNo: octet, system: octet, component: octet)

  function Header(len: octet, src: Source, id: octet): (h: seq<octet>)
    ensures |h| == 6
  {
    [MARKER, len, src.seqNo, src.system, src.component, id]
  }

  function Payload(table: Table, m: Message): (p: seq<octet>)
    requires Packable(table, m)
    ensures |p| == Size(table[m.id].fmt) <= 255
  {
    PackFields(table[m.id].fmt, WireOrder(table[m.id], m.fields))
  }

  function Frame(x25: Checksum, table: Table, src: Source, m: Message): (f: seq<octet>)
    requires Packable(table, m)
    ensures |f| == Size(table[m.id].fmt) + 8
  {
    var p := Payload(table, m);
    var body := Header(|p|, src, m.id) + p;
    body + LittleEndian(Sum(x25, body[1..], table[m.id].extra), 2)
  }

  datatype Reason =
    | NoHeader
    | BadMarker(marker: octet)
    | BadLength(length: int, announced: octet)
    | UnknownId(id: octet)
    | BadChecksum(id: octet, sent: word16, computed: word16)
    | BadPayload(id: octet, size: nat)
    | BadPrefix

  datatype Decoded =
    | Good(msg: Message, src: Source, raw: seq<octet>)
    | Bad(raw: seq<octet>, reason: Reason)

  function DecodePayload(s: Schema, payload: seq<octet>): seq<Value>
    requires ValidSchema(s) && |payload| == Size(s.fmt)
  {
    DeclaredOrder(s, UnpackFields(s.fmt, payload))
  }

  /** The checks in the program's order: header, marker, length, id, checksum, payload size. */
  function Decode(x25: Checksum, table: Table, f: seq<octet>): (d: Decoded)
    requires ValidTable(table)
    ensures d.raw == f
  {
    if |f| < 6 then Bad(f, NoHeader)
    else if f[0] != MARKER then Bad(f, BadMarker(f[0]))
    else if f[1] != |f| - 8 then Bad(f, BadLength(|f| - 8, f[1]))
    else if f[5] !in table then Bad(f, UnknownId(f[5]))
    else
      var schema := table[f[5]];
      var n := |f|;
      var got, want := FromLittleEndian(f[n - 2..]), Sum(x25, f[1..n - 2], schema.extra);
      FromLittleEndianRoundTrip(f[n - 2..]);
      assert Pow256(2) == 65536;
      if got != want then Bad(f, BadChecksum(f[5], got, want))
      else if n - 8 != Size(schema.fmt) then Bad(f, BadPayload(f[5], n - 8))
      else Good(Message(f[5], DecodePayload(schema, f[6..n - 2])), Source(f[2], f[3], f[4]), f)
  }

  /** The message as its receiver sees it: the same id and fields, text at its full width. */
  function Received(table: Table, m: Message): Message
    requires Packable(table, m)
  {
    var s := table[m.id];
    Message(m.id, DeclaredOrder(s, AllOnWire(s.fmt, WireOrder(s, m.fields))))
  }

  lemma ReorderRoundTrip(s: Schema, vs: seq<Value>)
    requires ValidSchema(s) && |vs| == |s.fmt|
    ensures DeclaredOrder(s, WireOrder(s, vs)) == vs
    ensures WireOrder(s, DeclaredOrder(s, vs)) == vs
  {
  }

  /**
    A field is got as it was sent. Text comes at its full width, and is read up to its first NUL: that
    gives the text sent if and only if it fits its width and holds no NUL.
   */
  predicate FieldArrives(code: Code, sent: Value, got: Value)
  {
    match code
    case Text(w) =>
      && sent.Str? && got == Str(PadText(sent.s, w))
      && (CString(got.s) == sent.s <==> |sent.s| <= w && 0 !in sent.s)
    case _ => got == sent
  }

  /** The same id, and every declared field as it was sent. */
  predicate Arrives(table: Table, m: Message, got: Message)
    requires Packable(table, m)
  {
    var s := table[m.id];
    && got.id == m.id && |got.fields| == |m.fields|
    && forall i | 0 <= i < |m.fields| :: FieldArrives(s.fmt[s.order[i]], m.fields[i], got.fields[i])
  }

  lemma ReceivedArrives(table: Table, m: Message)
    requires Packable(table, m)
    ensures Arrives(table, m, Received(table, m))
  {
    hide PadText, CString;
    var s, got := table[m.id], Received(table, m);
    forall i | 0 <= i < |m.fields|
      ensures FieldArrives(s.fmt[s.order[i]], m.fields[i], got.fields[i])
    {
      var j := s.order[i];
      assert WireOrder(s, m.fields)[j] == m.fields[i];
      assert got.fields[i] == OnWire(s.fmt[j], m.fields[i]);
      if s.fmt[j].Text? {
        TextSurvivesIff(m.fields[i].s, s.fmt[j].width);
      }
    }
  }

  lemma FrameParts(x25: Checksum, table: Table, src: Source, m: Message)
    requires Packable(table, m)
    ensures var f, p := Frame(x25, table, src, m), Payload(table, m);
      var n := |f|;
      && n == |p| + 8
      && f[..6] == Header(|p|, src, m.id)
      && f[6..n - 2] == p
      && f[n - 2..] == LittleEndian(Sum(x25, f[1..n - 2], table[m.id].extra), 2)
  {
    hide Payload, Sum, LittleEndian;
    var p := Payload(table, m);
    var body := Header(|p|, src, m.id) + p;
    var f := Frame(x25, table, src, m);
    assert f[..|f| - 2] == body && f[1..|f| - 2] == body[1..];
    assert body[6..] == p;
  }

  /** Decoding a packed frame gives back the message's fields, its header and the bytes it came as. */
  lemma DecodeOfFrame(x25: Checksum, table: Table, src: Source, m: Message)
    requires ValidTable(table) && Packable(table, m)
    ensures var f := Frame(x25, table, src, m);
      Decode(x25, table, f) == Good(Received(table, m), src, f)
    ensures Arrives(table, m, Received(table, m))
  {
    hide Frame, Sum, LittleEndian, FromLittleEndian, ValidSchema, FieldArrives;
    ReceivedArrives(table, m);
    var s := table[m.id];
    var f := Frame(x25, table, src, m);
    var n := |f|;
    FrameParts(x25, table, src, m);
    assert f[0] == f[..6][0] && f[1] == f[..6][1] && f[2] == f[..6][2];
    assert f[3] == f[..6][3] && f[4] == f[..6][4] && f[5] == f[..6][5];
    var crc := Sum(x25, f[1..n - 2], s.extra);
    assert Pow256(2) == 65536;
    LittleEndianRoundTrip(crc, 2);
    PackUnpack(s.fmt, WireOrder(s, m.fields));
  }

  /** The frame byte by byte: marker, length, number, ids, message id, payload, checksum lowest byte first. */
  lemma FrameLayout(x25: Checksum, table: Table, src: Source, m: Message)
    requires Packable(table, m)
    ensures var f, schema := Frame(x25, table, src, m), table[m.id];
      var n := |f|;
      && f[0] == 254 && f[1] == n - 8 == Size(schema.fmt)
      && f[2] == src.seqNo && f[3] == src.system && f[4] == src.component && f[5] == m.id
      && f[6..n - 2] == Payload(table, m)
      && f[n - 2] == Sum(x25, f[1..n - 2], schema.extra) % 256
      && f[n - 1] == Sum(x25, f[1..n - 2], schema.extra) / 256
  {
    hide Sum, Payload, Frame, LittleEndian;
    var f := Frame(x25, table, src, m);
    var n := |f|;
    FrameParts(x25, table, src, m);
    var crc := Sum(x25, f[1..n - 2], table[m.id].extra);
    assert f[0] == f[..6][0] && f[1] == f[..6][1] && f[2] == f[..6][2];
    assert f[3] == f[..6][3] && f[4] == f[..6][4] && f[5] == f[..6][5];
    DigitAt(crc, 2, 0);
    DigitAt(crc, 2, 1);
    Powers();
    assert f[n - 2] == f[n - 2..][0] && f[n - 1] == f[n - 2..][1];
  }

  /** Field by field: what is packed at place j of the wire order starts behind the widths before it. */
  lemma PayloadLayout(table: Table, m: Message, j: nat)
    requires Packable(table, m) && j < |table[m.id].fmt|
    ensures var s := table[m.id];
      var at, v := Size(s.fmt[..j]), m.fields[s.packed[j]];
      && at + Width(s.fmt[j]) <= |Payload(table, m)|
      && Fits(s.fmt[j], v)
      && Payload(table, m)[at..at + Width(s.fmt[j])] == EncodeField(s.fmt[j], v)
  {
    hide Fits, EncodeField, Width;
    var s := table[m.id];
    FieldAt(s.fmt, WireOrder(s, m.fields), j);
    assert WireOrder(s, m.fields)[j] == m.fields[s.packed[j]];
  }

  //
  // The checksum
  //

  /** t is the course of the checksum over data: from the start value on, one step per byte. */
  ghost predicate IsCourse(x25: Checksum, data: seq<octet>, t: seq<word16>)
  {
    && |t| == |data| + 1 && t[0] == x25.init
    && forall i | 0 <= i < |data| :: t[i + 1] == x25.step(t[i], data[i])
  }

  lemma {:induction false} AccumulateCourse(x25: Checksum, data: seq<octet>, t: seq<word16>, i: nat)
    requires |t| == |data| + 1 && i <= |data|
    requires forall k | 0 <= k < |data| :: t[k + 1] == x25.step(t[k], data[k])
    ensures Accumulate(x25, data[i..], t[i]) == t[|data|]
    decreases |data| - i
  {
    if i == |data| {
    } else {
      assert data[i..][0] == data[i] && data[i..][1..] == data[i + 1..];
      AccumulateCourse(x25, data, t, i + 1);
    }
  }

  lemma AccumulateLast(x25: Checksum, data: seq<octet>, b: octet, crc: word16)
    ensures Accumulate(x25, data + [b], crc) == x25.step(Accumulate(x25, data, crc), b)
    decreases |data|
  {
    if data == [] {
      assert data + [b] == [b];
    } else {
      assert (data + [b])[1..] == data[1..] + [b];
      AccumulateLast(x25, data[1..], b, x25.step(crc, data[0]));
    }
  }

  /** The checksum is where the course over all the data, and then the extra byte, ends. */
  lemma SumIsCourse(x25: Checksum, data: seq<octet>, extra: octet, t: seq<word16>)
    requires IsCourse(x25, data + [extra], t)
    ensures Sum(x25, data, extra) == t[|data| + 1]
  {
    AccumulateCourse(x25, data + [extra], t, 0);
    assert (data + [extra])[0..] == data + [extra];
    AccumulateLast(x25, data, extra, x25.init);
  }

  /** No step forgets what went before, nor which byte it took; this holds of the X.25 checksum. */
  ghost predicate Injective(x25: Checksum)
  {
    && (forall c: word16, d: word16, b: octet :: x25.step(c, b) == x25.step(d, b) ==> c == d)
    && (forall c: word16, a: octet, b: octet :: x25.step(c, a) == x25.step(c, b) ==> a == b)
  }

  lemma {:induction false} StatesStayApart(x25: Checksum, data: seq<octet>, c: word16, d: word16)
    requires Injective(x25) && c != d
    ensures Accumulate(x25, data, c) != Accumulate(x25, data, d)
    decreases |data|
  {
    if data == [] {
    } else {
      assert x25.step(c, data[0]) != x25.step(d, data[0]);
      StatesStayApart(x25, data[1..], x25.step(c, data[0]), x25.step(d, data[0]));
    }
  }

  lemma {:induction false} OneByteIsSeen(x25: Checksum, a: seq<octet>, b: seq<octet>, i: nat, c: word16)
    requires Injective(x25)
    requires |a| == |b| && i < |a| && a[i] != b[i] && forall k | 0 <= k < |a| && k != i :: a[k] == b[k]
    ensures Accumulate(x25, a, c) != Accumulate(x25, b, c)
    decreases |a|
  {
    if i == 0 {
      assert a[1..] == b[1..];
      assert x25.step(c, a[0]) != x25.step(c, b[0]);
      StatesStayApart(x25, a[1..], x25.step(c, a[0]), x25.step(c, b[0]));
    } else {
      assert a[0] == b[0];
      OneByteIsSeen(x25, a[1..], b[1..], i - 1, x25.step(c, a[0]));
    }
  }

  lemma SumSeesOneByte(x25: Checksum, a: seq<octet>, b: seq<octet>, i: nat, extra: octet)
    requires Injective(x25)
    requires |a| == |b| && i < |a| && a[i] != b[i] && forall k | 0 <= k < |a| && k != i :: a[k] == b[k]
    ensures Sum(x25, a, extra) != Sum(x25, b, extra)
  {
    OneByteIsSeen(x25, a, b, i, x25.init);
    assert x25.step(Accumulate(x25, a, x25.init), extra) != x25.step(Accumulate(x25, b, x25.init), extra);
  }

  /** The two bytes at the end of a frame, as a number. */
  function SentSum(f: seq<octet>): nat
    requires |f| >= 2
  {
    f[|f| - 2] as int + 256 * (f[|f| - 1] as int)
  }

  lemma SentSumIs(f: seq<octet>)
    requires |f| >= 2
    ensures FromLittleEndian(f[|f| - 2..]) == SentSum(f)
  {
    var n := |f|;
    var b := f[n - 2..];
    assert b == [f[n - 2]] + [f[n - 1]];
    assert b[1..] == [f[n - 1]] && b[1..][1..] == [];
    assert FromLittleEndian(b[1..]) == f[n - 1];
  }

  /** An accepted frame carries the checksum of everything between its marker and its end. */
  lemma GoodSum(x25: Checksum, table: Table, f: seq<octet>)
    requires ValidTable(table) && Decode(x25, table, f).Good?
    ensures |f| >= 8 && f[0] == MARKER && f[1] == |f| - 8 && f[5] in table
    ensures SentSum(f) == Sum(x25, f[1..|f| - 2], table[f[5]].extra)
  {
    hide Sum, FromLittleEndian, ValidSchema, DecodePayload;
    if |f| >= 2 {
      SentSumIs(f);
    }
  }

  /** A frame whose last two bytes are not that checksum is refused for it. */
  lemma WrongSumIsBad(x25: Checksum, table: Table, f: seq<octet>)
    requires ValidTable(table)
    requires |f| >= 8 && f[0] == MARKER && f[1] == |f| - 8 && f[5] in table
    requires SentSum(f) != Sum(x25, f[1..|f| - 2], table[f[5]].extra)
    ensures var sum := Sum(x25, f[1..|f| - 2], table[f[5]].extra);
      Decode(x25, table, f) == Bad(f, BadChecksum(f[5], SentSum(f), sum))
  {
    hide Sum, FromLittleEndian, ValidSchema, DecodePayload;
    SentSumIs(f);
  }

  /** With the right checksum a frame is refused if and only if its payload has not its message's size. */
  lemma RightSumIsGoodIff(x25: Checksum, table: Table, f: seq<octet>)
    requires ValidTable(table)
    requires |f| >= 8 && f[0] == MARKER && f[1] == |f| - 8 && f[5] in table
    requires SentSum(f) == Sum(x25, f[1..|f| - 2], table[f[5]].extra)
    ensures var d := Decode(x25, table, f);
      if |f| - 8 == Size(table[f[5]].fmt) then d.Good? else d == Bad(f, BadPayload(f[5], |f| - 8))
  {
    hide Sum, FromLittleEndian, ValidSchema, DecodePayload;
    SentSumIs(f);
  }

  predicate DifferAt(f: seq<octet>, g: seq<octet>, i: nat)
  {
    && |f| == |g| && i < |f| && f[i] != g[i]
    && forall k | 0 <= k < |f| && k != i :: f[k] == g[k]
  }

  /**
    A frame that differs from an accepted one in exactly one byte is refused, whichever byte it is; only
    a changed message id may escape, if it is that of a known message with another extra byte.
   */
  lemma OneByteRefused(x25: Checksum, table: Table, f: seq<octet>, g: seq<octet>, i: nat)
    requires ValidTable(table) && Injective(x25)
    requires Decode(x25, table, f).Good? && DifferAt(f, g, i)
    requires i == 5 ==> g[5] !in table || table[g[5]].extra == table[f[5]].extra
    ensures Decode(x25, table, g).Bad?
    ensures i >= 2 && i != 5 ==> Decode(x25, table, g).reason.BadChecksum?
  {
    hide Sum, FromLittleEndian, ValidSchema, DecodePayload, Injective;
    var n := |f|;
    GoodSum(x25, table, f);
    if i < 2 || (i == 5 && g[5] !in table) {
      FirstBytesRefused(x25, table, g);
    } else if i < n - 2 {
      var a, b := f[1..n - 2], g[1..n - 2];
      assert a[i - 1] != b[i - 1] && forall k | 0 <= k < |a| && k != i - 1 :: a[k] == b[k];
      SumSeesOneByte(x25, a, b, i - 1, table[f[5]].extra);
      WrongSumIsBad(x25, table, g);
    } else {
      assert f[1..n - 2] == g[1..n - 2];
      WrongSumIsBad(x25, table, g);
    }
  }

  /** What is wrong with the header is told first: too short, no marker, a wrong length, an unknown message. */
  lemma FirstBytesRefused(x25: Checksum, table: Table, f: seq<octet>)
    requires ValidTable(table)
    requires |f| < 6 || f[0] != MARKER || f[1] != |f| - 8 || f[5] !in table
    ensures Decode(x25, table, f) == Bad(f,
      if |f| < 6 then NoHeader
      else if f[0] != 254 then BadMarker(f[0])
      else if f[1] != |f| - 8 then BadLength(|f| - 8, f[1])
      else UnknownId(f[5]))
  {
    hide Sum, FromLittleEndian, ValidSchema, DecodePayload;
  }

  /** Two ends that know a message by different extra bytes do not both accept a frame of it. */
  lemma ExtraBytesMustAgree(x25: Checksum, table: Table, other: Table, f: seq<octet>)
    requires ValidTable(table) && ValidTable(other) && Injective(x25)
    requires |f| >= 8 && f[5] in table && f[5] in other && table[f[5]].extra != other[f[5]].extra
    ensures Decode(x25, table, f).Good? ==> Decode(x25, other, f).Bad?
  {
    hide Decode, ValidSchema, Accumulate;
    if Decode(x25, table, f).Good? {
      GoodSum(x25, table, f);
      var c := Accumulate(x25, f[1..|f| - 2], x25.init);
      assert x25.step(c, table[f[5]].extra) != x25.step(c, other[f[5]].extra);
      WrongSumIsBad(x25, other, f);
    }
  }
}
