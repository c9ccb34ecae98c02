/** Rows of the message map, with the order in which each message class packs its fields. */
module MavTable {
  import opened Octets
  import opened MavFields
  import opened MavMessages

  const HEARTBEAT := Schema([U32, U8, U8, U8, U8, U8],
    [1, 2, 3, 0, 4, 5], [3, 0, 1, 2, 4, 5], 50)

  const SYS_STATUS := Schema([U32, U32, U32, U16, U16, I16, U16, U16, U16, U16, U16, U16, I8],
    [0, 1, 2, 3, 4, 5, 12, 6, 7, 8, 9, 10, 11], [0, 1, 2, 3, 4, 5, 7, 8, 9, 10, 11, 12, 6], 124)

  const SET_MODE := Schema([U32, U8, U8],
    [1, 2, 0], [2, 0, 1], 89)

  const PARAM_SET := Schema([F32, U8, U8, Text(16), U8],
    [1, 2, 3, 0, 4], [3, 0, 1, 2, 4], 168)

  const GPS_RAW_INT := Schema([U64, I32, I32, I32, U16, U16, U16, U16, U8, U8],
    [0, 8, 1, 2, 3, 4, 5, 6, 7, 9], [0, 2, 3, 4, 5, 6, 7, 8, 1, 9], 24)

  const NAMED_VALUE_FLOAT := Schema([U32, F32, Text(10)],
    [0, 2, 1], [0, 2, 1], 170)

  const MANUAL_CONTROL := Schema([I16, I16, I16, I16, U16, U8],
    [5, 0, 1, 2, 3, 4], [1, 2, 3, 4, 5, 0], 243)

  const COMMAND_LONG := Schema([F32, F32, F32, F32, F32, F32, F32, U16, U8, U8, U8],
    [8, 9, 7, 10, 0, 1, 2, 3, 4, 5, 6], [4, 5, 6, 7, 8, 9, 10, 2, 0, 1, 3], 152)

  const OPTICAL_FLOW := Schema([U64, F32, F32, F32, I16, I16, U8, U8],
    [0, 6, 4, 5, 1, 2, 7, 3], [0, 4, 5, 7, 2, 3, 1, 6], 175)

  const FILE_TRANSFER_START := Schema([U64, U32, Text(240), U8, U8],
    [0, 2, 3, 1, 4], [0, 3, 1, 2, 4], 235)

  const BATTERY_STATUS := Schema([U16, U16, U16, U16, U16, U16, I16, U8, I8],
    [7, 0, 1, 2, 3, 4, 5, 6, 8], [1, 2, 3, 4, 5, 6, 7, 0, 8], 42)

  const STATUSTEXT := Schema([U8, Text(50)],
    [0, 1], [0, 1], 83)

  const COMMON: Table := map[
    0 := HEARTBEAT,
    1 := SYS_STATUS,
    11 := SET_MODE,
    23 := PARAM_SET,
    24 := GPS_RAW_INT,
    251 := NAMED_VALUE_FLOAT,
    69 := MANUAL_CONTROL,
    76 := COMMAND_LONG,
    100 := OPTICAL_FLOW,
    110 := FILE_TRANSFER_START,
    147 := BATTERY_STATUS,
    253 := STATUSTEXT
  ]

  // Validity of a row, in a form that concrete rows are checked by place for place.

  predicate Undoes(a: seq<nat>, b: seq<nat>, i: nat)
    requires i <= |a| == |b|
    decreases |a| - i
  {
    i == |a| || (a[i] < |b| && b[a[i]] == i && Undoes(a, b, i + 1))
  }

  predicate FitsIn(fmt: seq<Code>, i: nat, room: int)
    requires i <= |fmt|
    decreases |fmt| - i
  {
    if i == |fmt| then room >= 0 else FitsIn(fmt, i + 1, room - Width(fmt[i]))
  }

  lemma {:induction false} UndoesEverywhere(a: seq<nat>, b: seq<nat>, i: nat)
    requires i <= |a| == |b| && Undoes(a, b, i)
    ensures forall k | i <= k < |a| :: a[k] < |b| && b[a[k]] == k
    decreases |a| - i
  {
    if i == |a| {
    } else {
      UndoesEverywhere(a, b, i + 1);
    }
  }

  lemma {:induction false} FitsInIsSize(fmt: seq<Code>, i: nat, room: int)
    requires i <= |fmt| && FitsIn(fmt, i, room)
    ensures Size(fmt[i..]) <= room
    decreases |fmt| - i
  {
    if i == |fmt| {
    } else {
      FitsInIsSize(fmt, i + 1, room - Width(fmt[i]));
      assert fmt[i..][1..] == fmt[i + 1..];
    }
  }

  lemma RowIsValid(s: Schema)
    requires |s.order| == |s.packed| == |s.fmt|
    requires Undoes(s.order, s.packed, 0) && Undoes(s.packed, s.order, 0) && FitsIn(s.fmt, 0, 255)
    ensures ValidSchema(s)
  {
    UndoesEverywhere(s.order, s.packed, 0);
    UndoesEverywhere(s.packed, s.order, 0);
    FitsInIsSize(s.fmt, 0, 255);
    assert s.fmt[0..] == s.fmt;
  }

  lemma HeartbeatIsValid()
    ensures ValidSchema(HEARTBEAT)
  {
    hide ValidSchema;
    var row := HEARTBEAT;
    assert Undoes(row.order, row.packed, 4) && Undoes(row.packed, row.order, 4) && FitsIn(row.fmt, 4, 248);
    RowIsValid(row);
  }

  lemma SysStatusIsValid()
    ensures ValidSchema(SYS_STATUS)
  {
    hide ValidSchema;
    var row := SYS_STATUS;
    assert Undoes(row.order, row.packed, 12) && Undoes(row.packed, row.order, 12) && FitsIn(row.fmt, 12, 225);
    assert Undoes(row.order, row.packed, 8) && Undoes(row.packed, row.order, 8) && FitsIn(row.fmt, 8, 233);
    assert Undoes(row.order, row.packed, 4) && Undoes(row.packed, row.order, 4) && FitsIn(row.fmt, 4, 241);
    RowIsValid(row);
  }

  lemma SetModeIsValid()
    ensures ValidSchema(SET_MODE)
  {
    hide ValidSchema;
    var row := SET_MODE;
    RowIsValid(row);
  }

  lemma ParamSetIsValid()
    ensures ValidSchema(PARAM_SET)
  {
    hide ValidSchema;
    var row := PARAM_SET;
    assert Undoes(row.order, row.packed, 4) && Undoes(row.packed, row.order, 4) && FitsIn(row.fmt, 4, 233);
    RowIsValid(row);
  }

  lemma GpsRawIntIsValid()
    ensures ValidSchema(GPS_RAW_INT)
  {
    hide ValidSchema;
    var row := GPS_RAW_INT;
    assert Undoes(row.order, row.packed, 8) && Undoes(row.packed, row.order, 8) && FitsIn(row.fmt, 8, 227);
    assert Undoes(row.order, row.packed, 4) && Undoes(row.packed, row.order, 4) && FitsIn(row.fmt, 4, 235);
    RowIsValid(row);
  }

  lemma NamedValueFloatIsValid()
    ensures ValidSchema(NAMED_VALUE_FLOAT)
  {
    hide ValidSchema;
    var row := NAMED_VALUE_FLOAT;
    RowIsValid(row);
  }

  lemma ManualControlIsValid()
    ensures ValidSchema(MANUAL_CONTROL)
  {
    hide ValidSchema;
    var row := MANUAL_CONTROL;
    assert Undoes(row.order, row.packed, 4) && Undoes(row.packed, row.order, 4) && FitsIn(row.fmt, 4, 247);
    RowIsValid(row);
  }

  lemma CommandLongIsValid()
    ensures ValidSchema(COMMAND_LONG)
  {
    hide ValidSchema;
    var row := COMMAND_LONG;
    assert Undoes(row.order, row.packed, 8) && Undoes(row.packed, row.order, 8) && FitsIn(row.fmt, 8, 225);
    assert Undoes(row.order, row.packed, 4) && Undoes(row.packed, row.order, 4) && FitsIn(row.fmt, 4, 239);
    RowIsValid(row);
  }

  lemma OpticalFlowIsValid()
    ensures ValidSchema(OPTICAL_FLOW)
  {
    hide ValidSchema;
    var row := OPTICAL_FLOW;
    assert Undoes(row.order, row.packed, 4) && Undoes(row.packed, row.order, 4) && FitsIn(row.fmt, 4, 235);
    RowIsValid(row);
  }

  lemma FileTransferStartIsValid()
    ensures ValidSchema(FILE_TRANSFER_START)
  {
    hide ValidSchema;
    var row := FILE_TRANSFER_START;
    assert Undoes(row.order, row.packed, 4) && Undoes(row.packed, row.order, 4) && FitsIn(row.fmt, 4, 2);
    RowIsValid(row);
  }

  lemma BatteryStatusIsValid()
    ensures ValidSchema(BATTERY_STATUS)
  {
    hide ValidSchema;
    var row := BATTERY_STATUS;
    assert Undoes(row.order, row.packed, 8) && Undoes(row.packed, row.order, 8) && FitsIn(row.fmt, 8, 240);
    assert Undoes(row.order, row.packed, 4) && Undoes(row.packed, row.order, 4) && FitsIn(row.fmt, 4, 247);
    RowIsValid(row);
  }

  lemma StatustextIsValid()
    ensures ValidSchema(STATUSTEXT)
  {
    hide ValidSchema;
    var row := STATUSTEXT;
    RowIsValid(row);
  }

  /**
    Every row puts each field where its message class packs it: order and packed undo each other, so
    the theorems about valid tables hold of these messages.
   */
  lemma CommonTableIsValid()
    ensures ValidTable(COMMON)
  {
    hide ValidSchema;
    HeartbeatIsValid();
    SysStatusIsValid();
    SetModeIsValid();
    ParamSetIsValid();
    GpsRawIntIsValid();
    NamedValueFloatIsValid();
    ManualControlIsValid();
    CommandLongIsValid();
    OpticalFlowIsValid();
    FileTransferStartIsValid();
    BatteryStatusIsValid();
    StatustextIsValid();
  }

  //
  // The order of fields on the wire
  //

  /** Size of what a field is an array of; text is an array of bytes. */
  function ElementSize(code: Code): nat
  {
    if code.Text? then 1 else Width(code)
  }

  predicate InOrder(s: Schema, j: nat)
    requires |s.packed| == |s.fmt| && j + 1 < |s.fmt|
  {
    var x, y := ElementSize(s.fmt[j]), ElementSize(s.fmt[j + 1]);
    x > y || (x == y && s.packed[j] < s.packed[j + 1])
  }

  predicate InOrderFrom(s: Schema, j: nat)
    requires |s.packed| == |s.fmt| && j < |s.fmt|
    decreases |s.fmt| - j
  {
    j + 1 == |s.fmt| || (InOrder(s, j) && InOrderFrom(s, j + 1))
  }

  lemma {:induction false} InOrderEverywhere(s: Schema, i: nat)
    requires |s.packed| == |s.fmt| && i < |s.fmt| && InOrderFrom(s, i)
    ensures forall j | i <= j < |s.fmt| - 1 :: InOrder(s, j)
    decreases |s.fmt| - i
  {
    if i + 1 == |s.fmt| {
    } else {
      InOrderEverywhere(s, i + 1);
    }
  }

  /** Fields go out by element size, the largest first, and within a size as the message declares them. */
  ghost predicate BySize(s: Schema)
  {
    |s.packed| == |s.fmt| && forall j | 0 <= j < |s.fmt| - 1 :: InOrder(s, j)
  }

  lemma RowIsBySize(s: Schema)
    requires |s.packed| == |s.fmt| && s.fmt != [] && InOrderFrom(s, 0)
    ensures BySize(s)
  {
    InOrderEverywhere(s, 0);
  }

  lemma HeartbeatIsBySize()
    ensures BySize(HEARTBEAT)
  {
    hide BySize;
    var row := HEARTBEAT;
    assert InOrderFrom(row, 3);
    RowIsBySize(row);
  }

  lemma SysStatusIsBySize()
    ensures BySize(SYS_STATUS)
  {
    hide BySize;
    var row := SYS_STATUS;
    assert InOrderFrom(row, 10);
    assert InOrderFrom(row, 7);
    assert InOrderFrom(row, 4);
    assert InOrderFrom(row, 1);
    RowIsBySize(row);
  }

  lemma SetModeIsBySize()
    ensures BySize(SET_MODE)
  {
    hide BySize;
    var row := SET_MODE;
    RowIsBySize(row);
  }

  lemma ParamSetIsBySize()
    ensures BySize(PARAM_SET)
  {
    hide BySize;
    var row := PARAM_SET;
    assert InOrderFrom(row, 2);
    RowIsBySize(row);
  }

  lemma GpsRawIntIsBySize()
    ensures BySize(GPS_RAW_INT)
  {
    hide BySize;
    var row := GPS_RAW_INT;
    assert InOrderFrom(row, 7);
    assert InOrderFrom(row, 4);
    assert InOrderFrom(row, 1);
    RowIsBySize(row);
  }

  lemma NamedValueFloatIsBySize()
    ensures BySize(NAMED_VALUE_FLOAT)
  {
    hide BySize;
    var row := NAMED_VALUE_FLOAT;
    RowIsBySize(row);
  }

  lemma ManualControlIsBySize()
    ensures BySize(MANUAL_CONTROL)
  {
    hide BySize;
    var row := MANUAL_CONTROL;
    assert InOrderFrom(row, 3);
    RowIsBySize(row);
  }

  lemma CommandLongIsBySize()
    ensures BySize(COMMAND_LONG)
  {
    hide BySize;
    var row := COMMAND_LONG;
    assert InOrderFrom(row, 8);
    assert InOrderFrom(row, 5);
    assert InOrderFrom(row, 2);
    RowIsBySize(row);
  }

  lemma OpticalFlowIsBySize()
    ensures BySize(OPTICAL_FLOW)
  {
    hide BySize;
    var row := OPTICAL_FLOW;
    assert InOrderFrom(row, 5);
    assert InOrderFrom(row, 2);
    RowIsBySize(row);
  }

  lemma FileTransferStartIsBySize()
    ensures BySize(FILE_TRANSFER_START)
  {
    hide BySize;
    var row := FILE_TRANSFER_START;
    assert InOrderFrom(row, 2);
    RowIsBySize(row);
  }

  lemma BatteryStatusIsBySize()
    ensures BySize(BATTERY_STATUS)
  {
    hide BySize;
    var row := BATTERY_STATUS;
    assert InOrderFrom(row, 6);
    assert InOrderFrom(row, 3);
    RowIsBySize(row);
  }

  lemma StatustextIsBySize()
    ensures BySize(STATUSTEXT)
  {
    hide BySize;
    var row := STATUSTEXT;
    RowIsBySize(row);
  }

  /** The rule of the protocol, which fixes every row's order given the types declared. */
  lemma CommonTableIsBySize()
    ensures forall id | id in COMMON :: BySize(COMMON[id])
  {
    hide BySize;
    HeartbeatIsBySize();
    SysStatusIsBySize();
    SetModeIsBySize();
    ParamSetIsBySize();
    GpsRawIntIsBySize();
    NamedValueFloatIsBySize();
    ManualControlIsBySize();
    CommandLongIsBySize();
    OpticalFlowIsBySize();
    FileTransferStartIsBySize();
    BatteryStatusIsBySize();
    StatustextIsBySize();
  }
}
