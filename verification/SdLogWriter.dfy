/** The writing side of the log format, and what the parser makes of a written log, clean or damaged. */
module SdLogWriter {
  import opened Basics
  import opened Octets
  import opened SdLog

  /** What a logger writes: a FORMAT record, or a data record of some type. */
  datatype Entry =
    | FormatEntry(typ: octet, length: octet, name: text, format: text, labels: text)
    | DataEntry(typ: octet, payload: seq<octet>)

  function Encode(e: Entry): seq<octet>
  {
    match e
    case FormatEntry(typ, length, name, format, labels) =>
      [HEAD1, HEAD2, TYPE_FORMAT, typ, length] + name + format + labels
    case DataEntry(typ, payload) => [HEAD1, HEAD2, typ] + payload
  }

  /**
    The parser, knowing env, can take the entry: fixed-width fields and known format characters; data
    only of a learned type, of the learned length and, where shown, of the described size and labels.
   */
  predicate WellFormed(cfg: Config, env: Env, e: Entry)
  {
    match e
    case FormatEntry(typ, _, name, format, labels) =>
      && |name| == 4 && |format| == 16 && |labels| == 64
      && (typ != TYPE_FORMAT ==> StructSize(CString(format)).Sized?)
    case DataEntry(typ, payload) =>
      && typ != TYPE_FORMAT && typ in env.descrs
      && var d := env.descrs[typ];
      && d.length == HEADER_LEN + |payload|
      && (Shows(Started(cfg, env), d.name) ==>
            StructSize(d.format) == Sized(|payload|) && |d.format| <= LabelCount(d.labels))
  }

  function RecordOf(cfg: Config, env: Env, e: Entry): Record
    requires WellFormed(cfg, env, e)
  {
    match e
    case FormatEntry(typ, length, name, format, labels) =>
      if typ == TYPE_FORMAT then TaughtFormat
      else Taught(typ, Descr(length, CString(name), CString(format), CString(labels)))
    case DataEntry(typ, payload) =>
      Data(typ, env.descrs[typ].name, payload, Shows(Started(cfg, env), env.descrs[typ].name))
  }

  function Learn(cfg: Config, env: Env, e: Entry): Env
    requires WellFormed(cfg, env, e)
  {
    match RecordOf(cfg, env, e)
    case TaughtFormat => env
    case Taught(typ, d) => env.(descrs := env.descrs[typ := d], names := env.names + {d.name})
    case Data(_, _, _, _) => Started(cfg, env)
  }

  lemma FormatFields(e: Entry, rest: seq<octet>)
    requires e.FormatEntry? && |e.name| == 4 && |e.format| == 16 && |e.labels| == 64
    ensures var b := Encode(e) + rest;
      && |Encode(e)| == FORMAT_LEN
      && b[3] == e.typ && b[4] == e.length
      && b[5..9] == e.name && b[9..25] == e.format && b[25..89] == e.labels
  {
  }

  /** An encoded entry is taken whole, as the record and with the lesson it stands for. */
  lemma EntryIsTaken(cfg: Config, env: Env, e: Entry, rest: seq<octet>)
    requires WellFormed(cfg, env, e)
    ensures Next(cfg, env, Encode(e) + rest) == Take(|Encode(e)|, RecordOf(cfg, env, e), Learn(cfg, env, e))
  {
    var b := Encode(e) + rest;
    if e.FormatEntry? {
      FormatFields(e, rest);
    } else {
      assert PayloadOf(b, env.descrs[e.typ].length) == e.payload;
    }
  }

  /** What a data record of a learned type has to be to be taken: hidden, or of the described size and labelled. */
  predicate Unpacks(d: Descr, payload: seq<octet>)
  {
    StructSize(d.format) == Sized(|payload|) && |d.format| <= LabelCount(d.labels)
  }

  /** A FORMAT record is refused, for its first unknown format character, if and only if it has one. */
  lemma FormatIsTakenIff(cfg: Config, env: Env, e: Entry, rest: seq<octet>)
    requires e.FormatEntry? && |e.name| == 4 && |e.format| == 16 && |e.labels| == 64
    ensures var s, layout := Next(cfg, env, Encode(e) + rest), StructSize(CString(e.format));
      if WellFormed(cfg, env, e) then s == Take(|Encode(e)|, RecordOf(cfg, env, e), Learn(cfg, env, e))
      else layout.Unknown? && s == Fail(UnsupportedFormat(layout.c, e.typ), env)
  {
    hide StructSize;
    FormatFields(e, rest);
  }

  /**
    A data record of the learned length is refused if and only if it is shown and cannot be unpacked or
    labelled, and then for that; a record of no learned type is refused as unknown.
   */
  lemma DataIsTakenIff(cfg: Config, env: Env, e: Entry, rest: seq<octet>)
    requires e.DataEntry? && e.typ != TYPE_FORMAT
    requires e.typ in env.descrs ==> env.descrs[e.typ].length == HEADER_LEN + |e.payload|
    ensures var s := Next(cfg, env, Encode(e) + rest);
      if e.typ !in env.descrs then s == Fail(UnknownType(e.typ), env)
      else
        var d, started := env.descrs[e.typ], Started(cfg, env);
        if !Shows(started, d.name) || Unpacks(d, e.payload) then
          s == Take(|Encode(e)|, Data(e.typ, d.name, e.payload, Shows(started, d.name)), started)
        else if StructSize(d.format) != Sized(|e.payload|) then s == Fail(PayloadSize(e.typ), started)
        else s == Fail(MissingLabel(e.typ), started)
  {
    hide StructSize, LabelCount;
    var b := Encode(e) + rest;
    assert b[0] == HEAD1 && b[1] == HEAD2 && b[2] == e.typ;
    if e.typ in env.descrs {
      assert PayloadOf(b, env.descrs[e.typ].length) == e.payload;
    }
  }

  /** Each entry can be taken by a parser that took the ones before it. */
  predicate WellFormedLog(cfg: Config, env: Env, log: seq<Entry>)
    decreases |log|
  {
    log == [] || (WellFormed(cfg, env, log[0]) && WellFormedLog(cfg, Learn(cfg, env, log[0]), log[1..]))
  }

  function RecordsOf(cfg: Config, env: Env, log: seq<Entry>): seq<Record>
    requires WellFormedLog(cfg, env, log)
    decreases |log|
  {
    if log == [] then []
    else [RecordOf(cfg, env, log[0])] + RecordsOf(cfg, Learn(cfg, env, log[0]), log[1..])
  }

  function LearnAll(cfg: Config, env: Env, log: seq<Entry>): Env
    requires WellFormedLog(cfg, env, log)
    decreases |log|
  {
    if log == [] then env else LearnAll(cfg, Learn(cfg, env, log[0]), log[1..])
  }

  /** No byte pair in g could be taken for the start of a record. */
  predicate NoHeader(g: seq<octet>)
  {
    forall i | 0 <= i < |g| - 1 :: g[i] != HEAD1 || g[i + 1] != HEAD2
  }

  /** The log as it lies in a damaged file: garbage before each entry and after the last. */
  function Damaged(log: seq<Entry>, garbage: seq<seq<octet>>): seq<octet>
    requires |garbage| == |log| + 1
    decreases |log|
  {
    if log == [] then garbage[0] else garbage[0] + Encode(log[0]) + Damaged(log[1..], garbage[1..])
  }

  /** The log as it was written. */
  function EncodeAll(log: seq<Entry>): seq<octet>
  {
    if log == [] then [] else Encode(log[0]) + EncodeAll(log[1..])
  }

  /** With error correction on, garbage in front of a record is stepped over. */
  lemma {:induction false} GarbageIsSkipped(cfg: Config, env: Env, g: seq<octet>, b: seq<octet>)
    requires cfg.correct && NoHeader(g)
    requires |b| >= HEADER_LEN && b[0] == HEAD1
    ensures Parse(cfg, env, g + b) == Later(|g|, Parse(cfg, env, b))
    decreases |g|
  {
    if g == [] {
      assert g + b == b;
    } else {
      var all := g + b;
      assert all[1..] == g[1..] + b;
      assert all[0] == g[0] && all[1] == if |g| > 1 then g[1] else b[0];
      forall i | 0 <= i < |g[1..]| - 1
        ensures g[1..][i] != HEAD1 || g[1..][i + 1] != HEAD2
      {
        assert g[1..][i] == g[i + 1] && g[1..][i + 1] == g[i + 2];
      }
      GarbageIsSkipped(cfg, env, g[1..], b);
    }
  }

  /** Garbage at the end of a file yields no record, and no failure. */
  lemma {:induction false} TrailingGarbage(cfg: Config, env: Env, g: seq<octet>)
    requires cfg.correct && NoHeader(g)
    ensures var p := Parse(cfg, env, g);
      p.records == [] && p.env == env && p.outcome == Wants
    decreases |g|
  {
    if |g| < HEADER_LEN {
    } else {
      forall i | 0 <= i < |g[1..]| - 1
        ensures g[1..][i] != HEAD1 || g[1..][i + 1] != HEAD2
      {
        assert g[1..][i] == g[i + 1] && g[1..][i + 1] == g[i + 2];
      }
      TrailingGarbage(cfg, env, g[1..]);
    }
  }

  lemma EncodedStart(e: Entry)
    ensures |Encode(e)| >= HEADER_LEN && Encode(e)[0] == HEAD1
  {
  }

  /** A log survives damage between its entries: the same records, and the same knowledge at the end. */
  lemma {:induction false} DamagedLogRecovered(cfg: Config, env: Env, log: seq<Entry>, garbage: seq<seq<octet>>)
    requires cfg.correct
    requires |garbage| == |log| + 1 && forall i | 0 <= i < |garbage| :: NoHeader(garbage[i])
    requires WellFormedLog(cfg, env, log)
    ensures var p := Parse(cfg, env, Damaged(log, garbage));
      p.records == RecordsOf(cfg, env, log) && p.env == LearnAll(cfg, env, log) && p.outcome == Wants
    decreases |log|
  {
    hide Next, Encode, WellFormed, RecordOf, Learn, NoHeader;
    if log == [] {
      TrailingGarbage(cfg, env, garbage[0]);
    } else {
      var e, later := log[0], Damaged(log[1..], garbage[1..]);
      var b := Encode(e) + later;
      EncodedStart(e);
      assert Damaged(log, garbage) == garbage[0] + b;
      GarbageIsSkipped(cfg, env, garbage[0], b);
      EntryIsTaken(cfg, env, e, later);
      assert b[|Encode(e)|..] == later;
      DamagedLogRecovered(cfg, Learn(cfg, env, e), log[1..], garbage[1..]);
    }
  }

  /** An undamaged log is read back in full, with or without error correction. */
  lemma {:induction false} WrittenLogIsRead(cfg: Config, env: Env, log: seq<Entry>)
    requires WellFormedLog(cfg, env, log)
    ensures Parse(cfg, env, EncodeAll(log))
      == Parsed(RecordsOf(cfg, env, log), LearnAll(cfg, env, log), |EncodeAll(log)|, Wants)
    decreases |log|
  {
    hide Next, Encode, WellFormed, RecordOf, Learn;
    if log == [] {
      NothingToRead(cfg, env);
    } else {
      var e, later := log[0], EncodeAll(log[1..]);
      EncodedStart(e);
      EntryIsTaken(cfg, env, e, later);
      assert EncodeAll(log)[|Encode(e)|..] == later;
      WrittenLogIsRead(cfg, Learn(cfg, env, e), log[1..]);
    }
  }

  /**
    A log that teaches a length of zero and goes on with a header of that type: the loop never ends if
    and only if the format is empty or the filter leaves the message out.
   */
  lemma ZeroLengthLog(cfg: Config, e: Entry, rest: seq<octet>)
    requires WellFormed(cfg, Start(cfg), e) && e.FormatEntry? && e.typ != TYPE_FORMAT && e.length == 0
    ensures var p := Parse(cfg, Start(cfg), Encode(e) + ([HEAD1, HEAD2, e.typ] + rest));
      && p.used == FORMAT_LEN
      && (p.outcome == Stuck
          <==> CString(e.format) == [] || (cfg.wanted != {} && CString(e.name) !in cfg.wanted))
  {
    hide Parse, Next, StructSize;
    var later := [HEAD1, HEAD2, e.typ] + rest;
    var b, env := Encode(e) + later, Learn(cfg, Start(cfg), e);
    FormatFields(e, later);
    EntryIsTaken(cfg, Start(cfg), e, later);
    ParseStep(cfg, Start(cfg), b);
    assert b[FORMAT_LEN..] == later;
    ZeroLengthRecord(cfg, env, e.typ, rest);
  }

  /** Such a file: 92 bytes, whatever the options. */
  const STICKING: Entry := FormatEntry(1, 0, seq(4, _ => 0), seq(16, _ => 0), seq(64, _ => 0))

  lemma StickingLog(cfg: Config)
    ensures Parse(cfg, Start(cfg), Encode(STICKING) + [HEAD1, HEAD2, 1]).outcome == Stuck
  {
    hide Parse;
    assert [HEAD1, HEAD2, 1] + [] == [HEAD1, HEAD2, 1];
    ZeroLengthLog(cfg, STICKING, []);
  }

  lemma {:induction false} LogThenMore(cfg: Config, env: Env, log: seq<Entry>, more: seq<octet>)
    requires WellFormedLog(cfg, env, log)
    ensures Parse(cfg, env, EncodeAll(log) + more)
      == Continued(Parsed(RecordsOf(cfg, env, log), LearnAll(cfg, env, log), |EncodeAll(log)|, Wants),
           Parse(cfg, LearnAll(cfg, env, log), more))
  {
    hide Parse, WellFormedLog, RecordsOf, LearnAll;
    WrittenLogIsRead(cfg, env, log);
    ParseAppend(cfg, env, EncodeAll(log), more);
    assert EncodeAll(log)[|EncodeAll(log)|..] + more == more;
  }

  /**
    Without error correction the first damage ends the parse where it begins: everything written before
    it has been read, and the two bytes found instead of a header are reported.
   */
  lemma DamageStopsStrict(cfg: Config, env: Env, log: seq<Entry>, damage: seq<octet>)
    requires !cfg.correct && WellFormedLog(cfg, env, log)
    requires |damage| >= HEADER_LEN && (damage[0] != HEAD1 || damage[1] != HEAD2)
    ensures Parse(cfg, env, EncodeAll(log) + damage)
      == Parsed(RecordsOf(cfg, env, log), LearnAll(cfg, env, log), |EncodeAll(log)|,
           Failed(BadHeader(damage[0], damage[1])))
  {
    hide WellFormedLog, RecordsOf, LearnAll, EncodeAll, Parse;
    LogThenMore(cfg, env, log, damage);
    ParseStep(cfg, LearnAll(cfg, env, log), damage);
  }

  /** A log that uses a type it has not taught is read up to there, with or without error correction. */
  lemma UntaughtTypeStops(cfg: Config, env: Env, log: seq<Entry>, typ: octet, rest: seq<octet>)
    requires WellFormedLog(cfg, env, log)
    requires typ != TYPE_FORMAT && typ !in LearnAll(cfg, env, log).descrs
    ensures Parse(cfg, env, EncodeAll(log) + ([HEAD1, HEAD2, typ] + rest))
      == Parsed(RecordsOf(cfg, env, log), LearnAll(cfg, env, log), |EncodeAll(log)|, Failed(UnknownType(typ)))
  {
    hide WellFormedLog, RecordsOf, LearnAll, EncodeAll, Parse;
    LogThenMore(cfg, env, log, [HEAD1, HEAD2, typ] + rest);
    ParseStep(cfg, LearnAll(cfg, env, log), [HEAD1, HEAD2, typ] + rest);
  }

  lemma NothingToRead(cfg: Config, env: Env)
    ensures Next(cfg, env, []).More?
  {
  }
}
