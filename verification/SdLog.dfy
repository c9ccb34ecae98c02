/**
  The self-describing log format: FORMAT records teach the parser how long later records are and
  what they hold. A parse is a function of the bytes alone; how they arrive comes in SdLogParser.
 */
module SdLog {
  import opened Basics
  import opened Octets

  const HEADER_LEN := 3
  const HEAD1: octet := 0xA3
  const HEAD2: octet := 0x95
  const FORMAT_LEN := 89
  const TYPE_FORMAT: octet := 0x80

  type text = seq<octet>

  /** Size of the struct item a format character stands for. */
  function ItemSize(c: octet): Option<nat>
  {
    if c == 'b' as int || c == 'B' as int || c == 'M' as int then Some(1)
    else if c == 'h' as int || c == 'H' as int || c == 'c' as int || c == 'C' as int then Some(2)
    else if c == 'i' as int || c == 'I' as int || c == 'f' as int || c == 'e' as int || c == 'E' as int then Some(4)
    else if c == 'L' as int then Some(4)
    else if c == 'n' as int then Some(4)
    else if c == 'N' as int then Some(16)
    else if c == 'Z' as int then Some(64)
    else if c == 'q' as int || c == 'Q' as int then Some(8)
    else None
  }

  /** Size of the struct the format describes, or the first character it does not know. */
  datatype Layout = Sized(size: nat) | Unknown(c: octet)

  function StructSize(format: text): Layout
  {
    if format == [] then Sized(0)
    else
      match ItemSize(format[0])
      case None => Unknown(format[0])
      case Some(n) =>
        match StructSize(format[1..])
        case Unknown(c) => Unknown(c)
        case Sized(m) => Sized(n + m)
  }

  /** Number of labels in a comma-separated list; an empty list is one empty label. */
  function LabelCount(labels: text): nat
  {
    if labels == [] then 1 else (if labels[0] == ',' as int then 1 else 0) + LabelCount(labels[1..])
  }

  const COMMA: octet := 0x2c

  /** Pieces in one text, a comma between each two. */
  function Joined(pieces: seq<text>): text
    requires pieces != []
  {
    if |pieces| == 1 then pieces[0] else pieces[0] + [COMMA] + Joined(pieces[1..])
  }

  lemma {:induction false} LabelsBehindComma(piece: text, rest: text)
    requires COMMA !in piece
    ensures LabelCount(piece) == 1
    ensures LabelCount(piece + [COMMA] + rest) == 1 + LabelCount(rest)
    decreases |piece|
  {
    var all := piece + [COMMA] + rest;
    if piece == [] {
      assert all[0] == COMMA && all[1..] == rest;
    } else {
      assert piece[0] in piece && all[0] == piece[0] && all[1..] == piece[1..] + [COMMA] + rest;
      LabelsBehindComma(piece[1..], rest);
    }
  }

  /** A text of n labels without commas, joined by commas, counts as n labels. */
  lemma {:induction false} LabelCountCounts(pieces: seq<text>)
    requires pieces != [] && forall i | 0 <= i < |pieces| :: COMMA !in pieces[i]
    ensures LabelCount(Joined(pieces)) == |pieces|
    decreases |pieces|
  {
    hide LabelCount;
    if |pieces| == 1 {
      LabelsBehindComma(pieces[0], []);
    } else {
      LabelsBehindComma(pieces[0], Joined(pieces[1..]));
      LabelCountCounts(pieces[1..]);
    }
  }

  /** The sizes of the struct letters the format characters stand for; no other character is known. */
  lemma ItemSizes(c: octet)
    ensures ItemSize(c) == Some(1) <==> c == 'b' as int || c == 'B' as int || c == 'M' as int
    ensures ItemSize(c) == Some(2) <==> c == 'h' as int || c == 'H' as int || c == 'c' as int || c == 'C' as int
    ensures ItemSize(c) == Some(4) <==>
      (c == 'i' as int || c == 'I' as int || c == 'f' as int || c == 'e' as int
       || c == 'E' as int || c == 'L' as int || c == 'n' as int)
    ensures ItemSize(c) == Some(8) <==> c == 'q' as int || c == 'Q' as int
    ensures ItemSize(c) == Some(16) <==> c == 'N' as int
    ensures ItemSize(c) == Some(64) <==> c == 'Z' as int
    ensures ItemSize(c).Some? ==> ItemSize(c).value in {1, 2, 4, 8, 16, 64}
  {
  }

  /** Formats put one behind the other add up; the first character not known is the one reported. */
  lemma {:induction false} StructSizeAdds(a: text, b: text)
    ensures StructSize(a + b) ==
      if StructSize(a).Unknown? then StructSize(a)
      else if StructSize(b).Unknown? then StructSize(b)
      else Sized(StructSize(a).size + StructSize(b).size)
    decreases |a|
  {
    hide ItemSize;
    if a == [] {
      assert a + b == b;
    } else {
      assert (a + b)[0] == a[0] && (a + b)[1..] == a[1..] + b;
      StructSizeAdds(a[1..], b);
    }
  }

  lemma StructSizeOfOne(c: octet)
    ensures StructSize([c]) == if ItemSize(c).Some? then Sized(ItemSize(c).value) else Unknown(c)
  {
    hide ItemSize;
    assert [c][1..] == [];
  }

  /** What a FORMAT record teaches about records of its type. */
  datatype Descr = Descr(length: octet, name: text, format: text, labels: text)

  /** Options of a run: error correction, debug output, and the names in the message filter. */
  datatype Config = Config(correct: bool, debug: bool, wanted: set<text>)

  /**
    What the parser has learned: descriptors, message names, the names shown (an empty set shows
    all), and whether a data record was met yet.
   */
  datatype Env = Env(descrs: map<octet, Descr>, names: set<text>, shown: set<text>, started: bool)

  function Start(cfg: Config): Env
  {
    Env(map[], {}, if cfg.debug then cfg.wanted else {}, false)
  }

  predicate Shows(env: Env, name: text)
  {
    env.shown == {} || name in env.shown
  }

  datatype Record =
    | Taught(typ: octet, descr: Descr)
    | TaughtFormat
    | Data(typ: octet, name: text, payload: seq<octet>, shown: bool)

  datatype Failure =
    | BadHeader(h1: octet, h2: octet)
    | UnknownType(typ: octet)
    | UnsupportedFormat(c: octet, typ: octet)
    | PayloadSize(typ: octet)
    | MissingLabel(typ: octet)

  /** A failing data record may be the one that fixed which messages are shown: env is what is known then. */
  datatype Step = More | Skip | Take(n: nat, record: Record, env: Env) | Fail(failure: Failure, env: Env)

  function FormatStep(env: Env, b: seq<octet>): Step
    requires |b| >= FORMAT_LEN
  {
    var typ := b[3];
    if typ == TYPE_FORMAT then Take(FORMAT_LEN, TaughtFormat, env)
    else
      var descr := Descr(b[4], CString(b[5..9]), CString(b[9..25]), CString(b[25..89]));
      match StructSize(descr.format)
      case Unknown(c) => Fail(UnsupportedFormat(c, typ), env)
      case Sized(_) =>
        Take(FORMAT_LEN, Taught(typ, descr),
          env.(descrs := env.descrs[typ := descr], names := env.names + {descr.name}))
  }

  /** The first data record fixes which messages are shown, unless the output is for debugging. */
  function Started(cfg: Config, env: Env): Env
  {
    if env.started then env
    else if cfg.debug then env.(started := true)
    else env.(started := true, shown := if cfg.wanted == {} then env.names else cfg.wanted)
  }

  /** Payload of a record of n bytes at the front of b; a length below the header's leaves none. */
  function PayloadOf(b: seq<octet>, n: nat): seq<octet>
    requires n <= |b|
  {
    if n < HEADER_LEN then [] else b[HEADER_LEN..n]
  }

  function DataStep(cfg: Config, env: Env, typ: octet, b: seq<octet>): Step
    requires typ in env.descrs && env.descrs[typ].length <= |b|
  {
    var descr, started := env.descrs[typ], Started(cfg, env);
    var payload, shown := PayloadOf(b, descr.length), Shows(started, descr.name);
    if shown && StructSize(descr.format) != Sized(|payload|) then Fail(PayloadSize(typ), started)
    else if shown && |descr.format| > LabelCount(descr.labels) then Fail(MissingLabel(typ), started)
    else Take(descr.length, Data(typ, descr.name, payload, shown), started)
  }

  /** One turn of the inner loop on the unread bytes b; More leaves the loop. */
  function Next(cfg: Config, env: Env, b: seq<octet>): (s: Step)
    ensures s.Take? ==> s.n <= |b|
  {
    if |b| < HEADER_LEN then More
    else if b[0] != HEAD1 || b[1] != HEAD2 then (if cfg.correct then Skip else Fail(BadHeader(b[0], b[1]), env))
    else if b[2] == TYPE_FORMAT then (if |b| < FORMAT_LEN then More else FormatStep(env, b))
    else if b[2] !in env.descrs then Fail(UnknownType(b[2]), env)
    else if |b| < env.descrs[b[2]].length then More
    else DataStep(cfg, env, b[2], b)
  }

  /** A learned length of zero makes the inner loop meet the same record for ever. */
  datatype Outcome = Wants | Failed(failure: Failure) | Stuck

  datatype Parsed = Parsed(records: seq<Record>, env: Env, used: nat, outcome: Outcome)

  function Later(n: nat, p: Parsed): Parsed
  {
    p.(used := n + p.used)
  }

  function After(record: Record, n: nat, p: Parsed): Parsed
  {
    Later(n, p.(records := [record] + p.records))
  }

  function Parse(cfg: Config, env: Env, b: seq<octet>): (p: Parsed)
    ensures p.used <= |b|
    decreases |b|
  {
    match Next(cfg, env, b)
    case More => Parsed([], env, 0, Wants)
    case Fail(f, env') => Parsed([], env', 0, Failed(f))
    case Skip => Later(1, Parse(cfg, env, b[1..]))
    case Take(n, record, env') =>
      if n == 0 then Parsed([record], env', 0, Stuck) else After(record, n, Parse(cfg, env', b[n..]))
  }

  lemma ParseStep(cfg: Config, env: Env, b: seq<octet>)
    ensures var s := Next(cfg, env, b);
      Parse(cfg, env, b) ==
        if s.More? then Parsed([], env, 0, Wants)
        else if s.Fail? then Parsed([], s.env, 0, Outcome.Failed(s.failure))
        else if s.Skip? then Later(1, Parse(cfg, env, b[1..]))
        else if s.n == 0 then Parsed([s.record], s.env, 0, Stuck)
        else After(s.record, s.n, Parse(cfg, s.env, b[s.n..]))
  {
    hide FormatStep, DataStep;
  }

  lemma SkipNeedsBytes(cfg: Config, env: Env, b: seq<octet>)
    ensures Next(cfg, env, b).Skip? ==> b != []
  {
  }

  //
  // What is shown
  //

  /** The names to show are those of the filter, from the start or from the first data record on. */
  predicate Filtered(cfg: Config, env: Env)
  {
    cfg.wanted != {} && (env.started || cfg.debug ==> env.shown == cfg.wanted)
  }

  lemma StepFilters(cfg: Config, env: Env, b: seq<octet>)
    requires Filtered(cfg, env)
    ensures var s := Next(cfg, env, b);
      s.Take? ==>
        Filtered(cfg, s.env) && (s.record.Data? ==> (s.record.shown <==> s.record.name in cfg.wanted))
  {
    hide StructSize, LabelCount, PayloadOf;
  }

  /** With names in the filter, exactly the records of those names are shown, however the file teaches. */
  lemma {:induction false} FilterDecides(cfg: Config, env: Env, b: seq<octet>, i: nat)
    requires Filtered(cfg, env) && i < |Parse(cfg, env, b).records|
    ensures var r := Parse(cfg, env, b).records[i];
      r.Data? ==> (r.shown <==> r.name in cfg.wanted)
    decreases |b|
  {
    hide Parse, Next, Filtered;
    var s := Next(cfg, env, b);
    ParseStep(cfg, env, b);
    StepFilters(cfg, env, b);
    if s.Skip? {
      SkipNeedsBytes(cfg, env, b);
      FilterDecides(cfg, env, b[1..], i);
    } else if s.Take? && s.n > 0 && i > 0 {
      FilterDecides(cfg, s.env, b[s.n..], i - 1);
    }
  }

  /** A run for debugging with an empty filter shows everything. */
  lemma {:induction false} DebugShowsAll(cfg: Config, env: Env, b: seq<octet>, i: nat)
    requires cfg.debug && env.shown == {} && i < |Parse(cfg, env, b).records|
    ensures var r := Parse(cfg, env, b).records[i]; r.Data? ==> r.shown
    decreases |b|
  {
    hide Parse, Next;
    var s := Next(cfg, env, b);
    ParseStep(cfg, env, b);
    StepShowsAll(cfg, env, b);
    if s.Skip? {
      SkipNeedsBytes(cfg, env, b);
      DebugShowsAll(cfg, env, b[1..], i);
    } else if s.Take? && s.n > 0 && i > 0 {
      DebugShowsAll(cfg, s.env, b[s.n..], i - 1);
    }
  }

  lemma StepShowsAll(cfg: Config, env: Env, b: seq<octet>)
    requires cfg.debug && env.shown == {}
    ensures var s := Next(cfg, env, b);
      s.Take? ==> s.env.shown == {} && (s.record.Data? ==> s.record.shown)
  {
    hide StructSize, LabelCount, PayloadOf;
  }

  //
  // What is shown without a filter
  //

  function FirstData(rs: seq<Record>): (k: nat)
    ensures k <= |rs|
    ensures k < |rs| ==> rs[k].Data?
    ensures forall j | 0 <= j < k :: !rs[j].Data?
  {
    if rs == [] || rs[0].Data? then 0 else 1 + FirstData(rs[1..])
  }

  function NamesTaught(rs: seq<Record>): set<text>
  {
    set j | 0 <= j < |rs| && rs[j].Taught? :: rs[j].descr.name
  }

  /** The names taught before the first data record. */
  function NamesBeforeData(rs: seq<Record>): set<text>
  {
    NamesTaught(rs[..FirstData(rs)])
  }

  /** Every type learned has a name learned. */
  predicate Named(env: Env)
  {
    forall typ | typ in env.descrs :: env.descrs[typ].name in env.names
  }

  lemma NamesStep(first: Record, rs: seq<Record>)
    ensures var all := [first] + rs;
      NamesBeforeData(all) ==
        if first.Data? then {}
        else (if first.Taught? then {first.descr.name} else {}) + NamesBeforeData(rs)
  {
    var all, k := [first] + rs, FirstData(rs);
    assert all[1..] == rs;
    if first.Data? {
      assert all[..0] == [];
    } else {
      var before := all[..k + 1];
      assert FirstData(all) == k + 1 && before == [first] + rs[..k];
      forall name: text
        ensures name in NamesTaught(before)
          <==> (first.Taught? && name == first.descr.name) || name in NamesTaught(rs[..k])
      {
        if name in NamesTaught(rs[..k]) {
          var j :| 0 <= j < k && rs[..k][j].Taught? && rs[..k][j].descr.name == name;
          assert before[j + 1] == rs[..k][j];
        }
        if first.Taught? && name == first.descr.name {
          assert before[0] == first;
        }
      }
    }
  }

  /** Which names are shown has been fixed. */
  predicate Fixed(env: Env, names: set<text>)
  {
    env.started && env.shown == names && names != {}
  }

  lemma StepKeepsFixed(cfg: Config, env: Env, names: set<text>, b: seq<octet>)
    requires Fixed(env, names)
    ensures var s := Next(cfg, env, b);
      && (s.Take? ==> Fixed(s.env, names) && (s.record.Data? ==> (s.record.shown <==> s.record.name in names)))
      && (s.Fail? ==> Fixed(s.env, names))
  {
    hide StructSize, LabelCount, PayloadOf;
  }

  /** Data records of exactly these names are shown. */
  predicate ShowsExactly(rs: seq<Record>, names: set<text>)
  {
    forall i | 0 <= i < |rs| && rs[i].Data? :: rs[i].shown <==> rs[i].name in names
  }

  lemma ShowsOneMore(first: Record, rs: seq<Record>, names: set<text>)
    requires ShowsExactly(rs, names) && (first.Data? ==> (first.shown <==> first.name in names))
    ensures ShowsExactly([first] + rs, names)
  {
    var all := [first] + rs;
    forall i | 0 <= i < |all| && all[i].Data?
      ensures all[i].shown <==> all[i].name in names
    {
      if i > 0 {
        assert all[i] == rs[i - 1];
      }
    }
  }

  lemma {:induction false} FixedStaysFixed(cfg: Config, env: Env, names: set<text>, b: seq<octet>)
    requires Fixed(env, names)
    ensures var p := Parse(cfg, env, b); ShowsExactly(p.records, names) && Fixed(p.env, names)
    decreases |b|
  {
    hide Parse, Next, Fixed, ShowsExactly;
    var s := Next(cfg, env, b);
    ParseStep(cfg, env, b);
    StepKeepsFixed(cfg, env, names, b);
    NothingShown(names);
    if s.Skip? {
      SkipNeedsBytes(cfg, env, b);
      FixedStaysFixed(cfg, env, names, b[1..]);
    } else if s.Take? {
      if s.n > 0 {
        FixedStaysFixed(cfg, s.env, names, b[s.n..]);
        ShowsOneMore(s.record, Parse(cfg, s.env, b[s.n..]).records, names);
      } else {
        ShowsOneMore(s.record, [], names);
        assert [s.record] + [] == [s.record];
      }
    }
  }

  lemma NothingShown(names: set<text>)
    ensures ShowsExactly([], names)
  {
  }

  /** Until the first data record, names are gathered; it fixes them. */
  lemma StepGathers(cfg: Config, env: Env, b: seq<octet>)
    requires !cfg.debug && cfg.wanted == {} && !env.started && Named(env)
    ensures var s := Next(cfg, env, b);
      && (s.Take? && !s.record.Data? ==>
            && !s.env.started && Named(s.env)
            && s.env.names == env.names + (if s.record.Taught? then {s.record.descr.name} else {}))
      && (s.Take? && s.record.Data? ==>
            Fixed(s.env, env.names) && (s.record.shown <==> s.record.name in env.names))
      && (s.Fail? ==> if s.env.started then Fixed(s.env, env.names) else s.env == env)
  {
    hide StructSize, LabelCount, PayloadOf;
  }

  /** Of a parse from env on: what it shows, and what it leaves as the names to show. */
  predicate GathersAndShows(env: Env, p: Parsed)
  {
    var names := env.names + NamesBeforeData(p.records);
    && ShowsExactly(p.records, names)
    && (if p.env.started then p.env.shown == names else FirstData(p.records) == |p.records|)
  }

  lemma {:induction false} Gathers(cfg: Config, env: Env, b: seq<octet>)
    requires !cfg.debug && cfg.wanted == {} && !env.started && Named(env)
    ensures GathersAndShows(env, Parse(cfg, env, b))
    decreases |b|
  {
    hide Parse, Next, Named;
    var s := Next(cfg, env, b);
    ParseStep(cfg, env, b);
    StepGathers(cfg, env, b);
    if s.Skip? {
      SkipNeedsBytes(cfg, env, b);
      Gathers(cfg, env, b[1..]);
    } else if s.Take? {
      var later := if s.n == 0 then Parsed([], s.env, 0, Stuck) else Parse(cfg, s.env, b[s.n..]);
      var p := Parse(cfg, env, b);
      assert p.records == [s.record] + later.records && p.env == later.env;
      if s.record.Data? {
        if s.n > 0 {
          FixedStaysFixed(cfg, s.env, env.names, b[s.n..]);
        }
        DataFirst(env, s.record, later, p);
      } else {
        assert s.n > 0 by { FormatsHaveLength(cfg, env, b); }
        Gathers(cfg, s.env, b[s.n..]);
        GathersOneMore(env, s.env, s.record, later, p);
      }
    }
  }

  lemma FormatsHaveLength(cfg: Config, env: Env, b: seq<octet>)
    ensures var s := Next(cfg, env, b); s.Take? && !s.record.Data? ==> s.n == FORMAT_LEN
  {
    hide StructSize, LabelCount, PayloadOf;
  }

  lemma DataFirst(env: Env, first: Record, later: Parsed, p: Parsed)
    requires first.Data? && (first.shown <==> first.name in env.names)
    requires ShowsExactly(later.records, env.names) && Fixed(later.env, env.names)
    requires p.records == [first] + later.records && p.env == later.env
    ensures GathersAndShows(env, p)
  {
    hide ShowsExactly, NamesBeforeData;
    NamesStep(first, later.records);
    ShowsOneMore(first, later.records, env.names);
    assert env.names + {} == env.names;
  }

  lemma GathersOneMore(env: Env, next: Env, first: Record, later: Parsed, p: Parsed)
    requires !first.Data? && GathersAndShows(next, later)
    requires next.names == env.names + (if first.Taught? then {first.descr.name} else {})
    requires p.records == [first] + later.records && p.env == later.env
    ensures GathersAndShows(env, p)
  {
    hide ShowsExactly, NamesBeforeData;
    var names := next.names + NamesBeforeData(later.records);
    NamesStep(first, later.records);
    ShowsOneMore(first, later.records, names);
    assert names == env.names + NamesBeforeData(p.records);
    assert p.records[1..] == later.records;
  }

  /**
    A run for output without a filter: exactly the data records are shown whose name was taught before
    the first data record, and those names are what the run leaves to show. A message taught later is
    silently left out.
   */
  lemma UnfilteredShows(cfg: Config, b: seq<octet>)
    requires !cfg.debug && cfg.wanted == {}
    ensures var p := Parse(cfg, Start(cfg), b);
      && (forall i | 0 <= i < |p.records| && p.records[i].Data? ::
            p.records[i].shown <==> p.records[i].name in NamesBeforeData(p.records))
      && (if p.env.started then p.env.shown == NamesBeforeData(p.records)
          else forall i | 0 <= i < |p.records| :: !p.records[i].Data?)
  {
    hide Parse, NamesBeforeData;
    Gathers(cfg, Start(cfg), b);
    var names := NamesBeforeData(Parse(cfg, Start(cfg), b).records);
    assert Start(cfg).names + names == names;
  }

  //
  // Where a parse stops
  //

  /** A record of length zero is met again, by a parser that has not changed. */
  lemma StuckForever(cfg: Config, env: Env, b: seq<octet>)
    requires Next(cfg, env, b).Take? && Next(cfg, env, b).n == 0
    ensures Next(cfg, Next(cfg, env, b).env, b) == Next(cfg, env, b)
  {
  }

  /** A failure would be met again as well. */
  lemma FailsAgain(cfg: Config, env: Env, b: seq<octet>)
    requires Next(cfg, env, b).Fail?
    ensures Next(cfg, Next(cfg, env, b).env, b) == Next(cfg, env, b)
  {
  }

  /** The parse stops at offset used for the reason given: the bytes found there are to blame. */
  lemma {:induction false} StopsForItsReason(cfg: Config, env: Env, b: seq<octet>)
    ensures var p := Parse(cfg, env, b);
      match p.outcome
      case Wants => Next(cfg, p.env, b[p.used..]).More?
      case Failed(f) => Next(cfg, p.env, b[p.used..]) == Fail(f, p.env)
      case Stuck => Next(cfg, p.env, b[p.used..]).Take? && Next(cfg, p.env, b[p.used..]).n == 0
    decreases |b|
  {
    hide Next, Parse;
    var s, p := Next(cfg, env, b), Parse(cfg, env, b);
    ParseStep(cfg, env, b);
    if s.Skip? {
      SkipNeedsBytes(cfg, env, b);
      StopsForItsReason(cfg, env, b[1..]);
      assert b[1..][p.used - 1..] == b[p.used..];
    } else if s.Take? && s.n > 0 {
      StopsForItsReason(cfg, s.env, b[s.n..]);
      assert b[s.n..][p.used - s.n..] == b[p.used..];
    } else {
      assert b[0..] == b;
      if s.Take? {
        StuckForever(cfg, env, b);
      } else if s.Fail? {
        FailsAgain(cfg, env, b);
      }
    }
  }

  lemma {:induction false} EmptyStruct(format: text)
    ensures StructSize(format) == Sized(0) <==> format == []
  {
    if format == [] {
    } else {
      EmptyStruct(format[1..]);
    }
  }

  /** Meeting a record of learned length zero is endless exactly when nothing of it is to be unpacked. */
  lemma ZeroLengthRecord(cfg: Config, env: Env, typ: octet, rest: seq<octet>)
    requires typ != TYPE_FORMAT && typ in env.descrs && env.descrs[typ].length == 0
    ensures var d, p := env.descrs[typ], Parse(cfg, env, [HEAD1, HEAD2, typ] + rest);
      p.used == 0 && p.outcome ==
        if Shows(Started(cfg, env), d.name) && d.format != [] then Failed(PayloadSize(typ)) else Stuck
  {
    EmptyStruct(env.descrs[typ].format);
    ParseStep(cfg, env, [HEAD1, HEAD2, typ] + rest);
  }

  predicate PositiveLengths(env: Env)
  {
    forall typ | typ in env.descrs :: env.descrs[typ].length >= 1
  }

  lemma StepKeepsPositive(cfg: Config, env: Env, b: seq<octet>)
    requires PositiveLengths(env)
    ensures var s := Next(cfg, env, b);
      s.Take? ==> s.n > 0 && (!s.record.Taught? || s.record.descr.length >= 1 ==> PositiveLengths(s.env))
  {
    hide StructSize, LabelCount;
  }

  /** The inner loop ends if every length known at the start, or learned on the way, is at least one. */
  lemma {:induction false} PositiveLengthsEnd(cfg: Config, env: Env, b: seq<octet>)
    requires PositiveLengths(env)
    requires var rs := Parse(cfg, env, b).records; forall i | 0 <= i < |rs| :: rs[i].Taught? ==> rs[i].descr.length >= 1
    ensures Parse(cfg, env, b).outcome != Stuck
    decreases |b|
  {
    hide Parse, Next, PositiveLengths;
    var s := Next(cfg, env, b);
    ParseStep(cfg, env, b);
    StepKeepsPositive(cfg, env, b);
    if s.Skip? {
      SkipNeedsBytes(cfg, env, b);
      PositiveLengthsEnd(cfg, env, b[1..]);
    } else if s.Take? {
      var rs := Parse(cfg, env, b).records;
      assert rs[0] == s.record;
      if s.n > 0 {
        var later := Parse(cfg, s.env, b[s.n..]).records;
        assert forall i | 0 <= i < |later| :: later[i] == rs[i + 1];
        PositiveLengthsEnd(cfg, s.env, b[s.n..]);
      }
    }
  }

  /** No FORMAT record that could lie in b teaches a length of zero. */
  predicate TeachesNoZero(b: seq<octet>)
  {
    forall i | 0 <= i && i + 5 <= |b| && b[i] == HEAD1 && b[i + 1] == HEAD2 && b[i + 2] == TYPE_FORMAT ::
      b[i + 3] == TYPE_FORMAT || b[i + 4] != 0
  }

  lemma TeachesNoZeroLater(b: seq<octet>, n: nat)
    requires n <= |b| && TeachesNoZero(b)
    ensures TeachesNoZero(b[n..])
  {
    var c := b[n..];
    forall i | 0 <= i && i + 5 <= |c| && c[i] == HEAD1 && c[i + 1] == HEAD2 && c[i + 2] == TYPE_FORMAT
      ensures c[i + 3] == TYPE_FORMAT || c[i + 4] != 0
    {
      assert b[n + i] == HEAD1 && b[n + i + 1] == HEAD2 && b[n + i + 2] == TYPE_FORMAT;
    }
  }

  lemma StepTeachesNoZero(cfg: Config, env: Env, b: seq<octet>)
    requires TeachesNoZero(b)
    ensures var s := Next(cfg, env, b);
      s.Take? && s.record.Taught? ==> s.record.descr.length >= 1
  {
    hide StructSize, LabelCount;
  }

  /** From the bytes alone: a file that nowhere teaches a length of zero never holds the parser up. */
  lemma {:induction false} NothingTaughtNothingStuck(cfg: Config, env: Env, b: seq<octet>)
    requires PositiveLengths(env) && TeachesNoZero(b)
    ensures Parse(cfg, env, b).outcome != Stuck
    decreases |b|
  {
    hide Parse, Next, TeachesNoZero, PositiveLengths;
    var s := Next(cfg, env, b);
    ParseStep(cfg, env, b);
    StepTeachesNoZero(cfg, env, b);
    StepKeepsPositive(cfg, env, b);
    if s.Skip? {
      SkipNeedsBytes(cfg, env, b);
      TeachesNoZeroLater(b, 1);
      NothingTaughtNothingStuck(cfg, env, b[1..]);
    } else if s.Take? {
      TeachesNoZeroLater(b, s.n);
      NothingTaughtNothingStuck(cfg, s.env, b[s.n..]);
    }
  }

  //
  // What was decided stays decided
  //

  /** Once a step is decided, bytes that arrive later do not change it. */
  lemma DecidedSteps(cfg: Config, env: Env, a: seq<octet>, b: seq<octet>)
    requires !Next(cfg, env, a).More?
    ensures Next(cfg, env, a + b) == Next(cfg, env, a)
  {
    var c := a + b;
    assert |a| >= 3 && c[0] == a[0] && c[1] == a[1] && c[2] == a[2];
    if a[0] == HEAD1 && a[1] == HEAD2 {
      if a[2] == TYPE_FORMAT {
        assert c[3] == a[3] && c[4] == a[4] && c[5..9] == a[5..9] && c[9..25] == a[9..25] && c[25..89] == a[25..89];
      } else if a[2] in env.descrs {
        var n := env.descrs[a[2]].length;
        assert PayloadOf(c, n) == PayloadOf(a, n);
      }
    }
  }

  function Continued(p: Parsed, q: Parsed): Parsed
  {
    Parsed(p.records + q.records, q.env, p.used + q.used, q.outcome)
  }

  /**
    Parsing a and then, with what was left of it, b, is parsing a + b: the same records, the same
    knowledge, the same failure at the same offset. If a fails by itself, b is never looked at.
   */
  lemma {:induction false} ParseAppend(cfg: Config, env: Env, a: seq<octet>, b: seq<octet>)
    ensures var p := Parse(cfg, env, a);
      Parse(cfg, env, a + b) ==
        if p.outcome == Wants then Continued(p, Parse(cfg, p.env, a[p.used..] + b)) else p
    decreases |a|
  {
    hide Next, Parse;
    var s, p := Next(cfg, env, a), Parse(cfg, env, a);
    ParseStep(cfg, env, a);
    ParseStep(cfg, env, a + b);
    if s.More? {
      assert a[0..] + b == a + b;
      assert [] + Parse(cfg, env, a + b).records == Parse(cfg, env, a + b).records;
    } else {
      DecidedSteps(cfg, env, a, b);
      if s.Skip? {
        assert a != [] by { SkipNeedsBytes(cfg, env, a); }
        assert (a + b)[1..] == a[1..] + b;
        ParseAppend(cfg, env, a[1..], b);
        assert a[1..][p.used - 1..] == a[p.used..];
      } else if s.Take? && s.n > 0 {
        assert (a + b)[s.n..] == a[s.n..] + b;
        ParseAppend(cfg, s.env, a[s.n..], b);
        assert a[s.n..][p.used - s.n..] == a[p.used..];
        var p' := Parse(cfg, s.env, a[s.n..]);
        var q := Parse(cfg, p'.env, a[p.used..] + b);
        assert [s.record] + (p'.records + q.records) == [s.record] + p'.records + q.records;
      }
    }
  }

  //
  // When the inner loop never ends
  //

  /**
    The loop gets to offset k with everything before it read, and there meets a record whose learned
    length is zero and of which nothing is to be unpacked. Deciding that a byte is garbage takes the
    two bytes behind it, so the bytes before k are read once those at k and k + 1 are there.
   */
  predicate StuckAt(cfg: Config, env: Env, b: seq<octet>, k: nat)
  {
    && k + HEADER_LEN <= |b| && b[k] == HEAD1 && b[k + 1] == HEAD2
    && var typ, q := b[k + 2], Parse(cfg, env, b[..k + 2]);
      && typ != TYPE_FORMAT
      && q.outcome == Wants && q.used == k
      && typ in q.env.descrs
      && var d := q.env.descrs[typ];
        d.length == 0 && (d.format == [] || !Shows(Started(cfg, q.env), d.name))
  }

  /** A loop left with a whole header in front of it waits for a record longer than what is there. */
  lemma WaitsForMore(cfg: Config, env: Env, a: seq<octet>, b: seq<octet>)
    requires Next(cfg, env, a).More? && |a| >= HEADER_LEN
    ensures var s := Next(cfg, env, a + b);
      s.More? || s.Fail? || (s.Take? && s.n > |a|)
  {
    hide StructSize, LabelCount, PayloadOf;
    assert (a + b)[0] == a[0] && (a + b)[1] == a[1] && (a + b)[2] == a[2];
  }

  lemma ZeroStep(cfg: Config, env: Env, b: seq<octet>)
    requires Next(cfg, env, b).Take? && Next(cfg, env, b).n == 0
    ensures |b| >= HEADER_LEN && b[0] == HEAD1 && b[1] == HEAD2 && b[2] != TYPE_FORMAT
    ensures b[2] in env.descrs
    ensures var d := env.descrs[b[2]];
      d.length == 0 && (d.format == [] || !Shows(Started(cfg, env), d.name))
  {
    if b[2] in env.descrs {
      EmptyStruct(env.descrs[b[2]].format);
    }
  }

  lemma TooShort(cfg: Config, env: Env, b: seq<octet>)
    ensures |b| < HEADER_LEN ==> Next(cfg, env, b).More?
  {
  }

  /** A parse that gets stuck at offset k had left its loop when only two bytes of that record were there. */
  lemma BytesBeforeAreRead(cfg: Config, env: Env, b: seq<octet>)
    requires Parse(cfg, env, b).outcome == Stuck
    requires Parse(cfg, env, b).used + HEADER_LEN <= |b|
    ensures var k := Parse(cfg, env, b).used;
      var q := Parse(cfg, env, b[..k + 2]);
      && q.outcome == Wants && q.used == k
      && Parse(cfg, q.env, b[k..]).outcome == Stuck && Parse(cfg, q.env, b[k..]).used == 0
  {
    hide Parse, Next;
    var k := Parse(cfg, env, b).used;
    var a, rest := b[..k + 2], b[k + 2..];
    var q := Parse(cfg, env, a);
    assert a + rest == b;
    ParseAppend(cfg, env, a, rest);
    StopsForItsReason(cfg, env, a);
    TooShort(cfg, q.env, a[q.used..]);
    assert q.outcome == Wants;
    var at := b[q.used..];
    assert a[q.used..] + rest == at;
    ParseStep(cfg, q.env, at);
    if |a[q.used..]| >= HEADER_LEN {
      WaitsForMore(cfg, q.env, a[q.used..], rest);
    }
    assert q.used == k;
  }

  lemma StuckOnlyThere(cfg: Config, env: Env, b: seq<octet>)
    requires Parse(cfg, env, b).outcome == Stuck
    ensures StuckAt(cfg, env, b, Parse(cfg, env, b).used)
  {
    hide Parse, Next, Started, Shows;
    var p := Parse(cfg, env, b);
    var k := p.used;
    StopsForItsReason(cfg, env, b);
    ZeroStep(cfg, p.env, b[k..]);
    BytesBeforeAreRead(cfg, env, b);
    var q := Parse(cfg, env, b[..k + 2]);
    ParseStep(cfg, q.env, b[k..]);
    ZeroStep(cfg, q.env, b[k..]);
  }

  lemma StuckThere(cfg: Config, env: Env, b: seq<octet>, k: nat)
    requires StuckAt(cfg, env, b, k)
    ensures Parse(cfg, env, b).outcome == Stuck
    ensures Parse(cfg, env, b).used == k
  {
    hide Parse, Next, Started, Shows;
    var a, rest := b[..k + 2], b[k + 2..];
    var q := Parse(cfg, env, a);
    assert a + rest == b;
    ParseAppend(cfg, env, a, rest);
    assert a[k..] + rest == b[k..] == [HEAD1, HEAD2, b[k + 2]] + b[k + 3..];
    ZeroLengthRecord(cfg, q.env, b[k + 2], b[k + 3..]);
  }

  /** The inner loop goes round for ever if and only if it comes to such a record, and then at its offset. */
  lemma StuckIff(cfg: Config, env: Env, b: seq<octet>)
    ensures Parse(cfg, env, b).outcome == Stuck <==> exists k :: StuckAt(cfg, env, b, k)
    ensures forall k | StuckAt(cfg, env, b, k) :: Parse(cfg, env, b).used == k
  {
    hide Parse, StuckAt;
    if Parse(cfg, env, b).outcome == Stuck {
      StuckOnlyThere(cfg, env, b);
    }
    forall k: nat | StuckAt(cfg, env, b, k)
      ensures Parse(cfg, env, b).outcome == Stuck
      ensures Parse(cfg, env, b).used == k
    {
      StuckThere(cfg, env, b, k);
    }
  }

  //
  // Arriving block by block
  //

  /** One parse per block, each on what the last one left followed by the new block. */
  function ParseBlocks(cfg: Config, env: Env, pending: seq<octet>, blocks: seq<seq<octet>>): Parsed
    decreases |blocks|
  {
    if blocks == [] then Parsed([], env, 0, Wants)
    else
      var buffer := pending + blocks[0];
      var p := Parse(cfg, env, buffer);
      if p.outcome != Wants then p else Continued(p, ParseBlocks(cfg, p.env, buffer[p.used..], blocks[1..]))
  }

  /** However a file is cut into blocks, the parse is that of the whole file at once. */
  lemma {:induction false} BlocksAreInvisible(cfg: Config, env: Env, pending: seq<octet>, blocks: seq<seq<octet>>)
    requires Next(cfg, env, pending).More?
    ensures ParseBlocks(cfg, env, pending, blocks) == Parse(cfg, env, pending + Flatten(blocks))
    decreases |blocks|
  {
    hide Next;
    if blocks == [] {
      assert pending + [] == pending;
    } else {
      var buffer := pending + blocks[0];
      var p := Parse(cfg, env, buffer);
      ParseAppend(cfg, env, buffer, Flatten(blocks[1..]));
      assert pending + Flatten(blocks) == buffer + Flatten(blocks[1..]);
      if p.outcome == Wants {
        StopsForItsReason(cfg, env, buffer);
        BlocksAreInvisible(cfg, p.env, buffer[p.used..], blocks[1..]);
      }
    }
  }
}
