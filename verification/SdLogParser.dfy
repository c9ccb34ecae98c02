/** The parser object: it reads a file block by block and keeps the unread rest in a buffer. */
module SdLogParser {
  import opened Basics
  import opened Octets
  import opened SdLog

  /**
    The options are set before a run. A run that meets a data record, and is not for debugging, leaves
    the names it shows in the filter, where a later run of the same object finds them.
   */
  class SDLog2Parser {
    const correct: bool
    const debug: bool
    var msgFilter: set<text>
    ghost var cfg: Config     // the options the current run started with
    var msgDescrs: map<octet, Descr>
    var msgNames: set<text>
    var shownNames: set<text>
    var dataSeen: bool
    var buffer: seq<octet>
    var ptr: nat
    var records: seq<Record>  // everything parsed so far, in order

    ghost function Knows(): Env
      reads this
    {
      Env(msgDescrs, msgNames, shownNames, dataSeen)
    }

    /** The filter is the one the run started with, until a run for output fixes what it shows. */
    ghost predicate Valid()
      reads this
    {
      && ptr <= |buffer|
      && cfg.correct == correct && cfg.debug == debug
      && msgFilter == (if dataSeen && !debug then shownNames else cfg.wanted)
    }

    ghost function Unread(): seq<octet>
      requires Valid()
      reads this
    {
      buffer[ptr..]
    }

    constructor (correct: bool, debug: bool, msgFilter: set<text>)
      ensures this.correct == correct && this.debug == debug && this.msgFilter == msgFilter
      ensures Valid() && cfg == Config(correct, debug, msgFilter)
      ensures Knows() == Start(cfg) && Unread() == [] && records == []
    {
      this.correct, this.debug, this.msgFilter := correct, debug, msgFilter;
      this.cfg := Config(correct, debug, msgFilter);
      msgDescrs, msgNames, shownNames, dataSeen := map[], {}, if debug then msgFilter else {}, false;
      buffer, ptr, records := [], 0, [];
    }

    /** Forgets the last file, but not the filter. */
    method Reset()
      modifies this
      ensures Valid() && cfg == Config(correct, debug, msgFilter) && msgFilter == old(msgFilter)
      ensures Knows() == Start(cfg) && Unread() == [] && records == []
    {
      msgDescrs, msgNames, shownNames, dataSeen := map[], {}, if debug then msgFilter else {}, false;
      buffer, ptr, records := [], 0, [];
      cfg := Config(correct, debug, msgFilter);
    }

    method BytesLeft() returns (n: nat)
      requires Valid()
      ensures n == |Unread()|
    {
      n := |buffer| - ptr;
    }

    /** Parses the FORMAT record at ptr. */
    method ParseMsgDescr() returns (failure: Option<Failure>)
      requires Valid() && |Unread()| >= FORMAT_LEN
      modifies `msgDescrs, `msgNames, `ptr, `records
      ensures Valid()
      ensures match FormatStep(old(Knows()), old(Unread()))
        case Fail(f, env) =>
          && failure == Some(f) && Knows() == env
          && Unread() == old(Unread()) && records == old(records)
        case Take(n, record, env) =>
          && failure == None && Knows() == env && n == FORMAT_LEN
          && ptr == old(ptr) + n && records == old(records) + [record]
        case _ => false
    {
      var b := buffer[ptr..];
      var typ := b[3];
      if typ == TYPE_FORMAT {
        records := records + [TaughtFormat];
      } else {
        var descr := Descr(b[4], CString(b[5..9]), CString(b[9..25]), CString(b[25..89]));
        var layout := StructSize(descr.format);
        if layout.Unknown? {
          return Some(UnsupportedFormat(layout.c, typ));
        }
        msgDescrs := msgDescrs[typ := descr];
        msgNames := msgNames + {descr.name};
        records := records + [Taught(typ, descr)];
      }
      ptr := ptr + FORMAT_LEN;
      return None;
    }

    /** Parses the data record at ptr, whose descriptor is known and whose bytes have all arrived. */
    method ParseMsg(typ: octet) returns (failure: Option<Failure>)
      requires Valid() && typ in msgDescrs && msgDescrs[typ].length <= |Unread()|
      modifies `msgFilter, `shownNames, `dataSeen, `ptr, `records
      ensures Valid()
      ensures match DataStep(cfg, old(Knows()), typ, old(Unread()))
        case Fail(f, env) =>
          && failure == Some(f) && Knows() == env
          && Unread() == old(Unread()) && records == old(records)
        case Take(n, record, env) =>
          && failure == None && Knows() == env && n == old(msgDescrs)[typ].length
          && ptr == old(ptr) + n && records == old(records) + [record]
        case _ => false
    {
      hide StructSize, LabelCount;
      var descr := msgDescrs[typ];
      if !dataSeen {
        if !debug {
          if msgFilter == {} {
            msgFilter := msgNames;
          }
          shownNames := msgFilter;
        }
        dataSeen := true;
      }
      var payload := PayloadOf(buffer[ptr..], descr.length);
      var shown := shownNames == {} || descr.name in shownNames;
      if shown {
        if StructSize(descr.format) != Sized(|payload|) {
          return Some(PayloadSize(typ));
        }
        if |descr.format| > LabelCount(descr.labels) {
          return Some(MissingLabel(typ));
        }
      }
      records := records + [Data(typ, descr.name, payload, shown)];
      ptr := ptr + descr.length;
      return None;
    }

    /** One turn of the inner loop; Wants leaves it. */
    method Turn() returns (t: Turned)
      requires Valid()
      modifies `msgFilter, `msgDescrs, `msgNames, `shownNames, `dataSeen, `ptr, `records
      ensures Valid()
      ensures match Next(cfg, old(Knows()), old(Unread()))
        case More => t == Leave && Knows() == old(Knows()) && ptr == old(ptr) && records == old(records)
        case Skip => t == Again && Knows() == old(Knows()) && ptr == old(ptr) + 1 && records == old(records)
        case Fail(f, env) => t == Raise(f) && Knows() == env && ptr == old(ptr) && records == old(records)
        case Take(n, record, env) =>
          && t == (if n == 0 then SameAgain else Again)
          && Knows() == env && ptr == old(ptr) + n && records == old(records) + [record]
    {
      hide FormatStep, DataStep, Next;
      NextCases(cfg, Knows(), Unread());
      var left := BytesLeft();
      if left < HEADER_LEN {
        return Leave;
      }
      var head1, head2 := buffer[ptr], buffer[ptr + 1];
      if head1 != HEAD1 || head2 != HEAD2 {
        if !correct {
          return Raise(BadHeader(head1, head2));
        }
        ptr := ptr + 1;
        return Again;
      }
      var typ := buffer[ptr + 2];
      var failure: Option<Failure>;
      if typ == TYPE_FORMAT {
        if left < FORMAT_LEN {
          return Leave;
        }
        failure := ParseMsgDescr();
        return if failure.Some? then Raise(failure.value) else Again;
      }
      if typ !in msgDescrs {
        return Raise(UnknownType(typ));
      }
      var length := msgDescrs[typ].length;
      if left < length {
        return Leave;
      }
      failure := ParseMsg(typ);
      return if failure.Some? then Raise(failure.value) else if length == 0 then SameAgain else Again;
    }

    /** Parses all it can of the buffer, as the inner loop does. */
    method ParseBlock() returns (outcome: Outcome)
      requires Valid()
      modifies `msgFilter, `msgDescrs, `msgNames, `shownNames, `dataSeen, `ptr, `records
      ensures Valid()
      ensures var p := Parse(cfg, old(Knows()), old(Unread()));
        && outcome == p.outcome
        && ptr == old(ptr) + p.used
        && records == old(records) + p.records
        && Knows() == p.env
    {
      hide Next, Parse;
      ghost var whole := Resumed(records, ptr, Parse(cfg, Knows(), Unread()));
      while true
        invariant Valid() && old(ptr) <= ptr
        invariant whole == Resumed(records, ptr, Parse(cfg, Knows(), Unread()))
        decreases |buffer| - ptr
      {
        ghost var env, seen, at, unread := Knows(), records, ptr, Unread();
        ghost var s := Next(cfg, env, unread);
        ParseStep(cfg, env, unread);
        assert records + [] == records;
        var t := Turn();
        match t
        case Leave =>
          return Wants;
        case Raise(f) =>
          return Outcome.Failed(f);
        case SameAgain =>
          return Stuck;
        case Again =>
          if s.Take? {
            assert Unread() == unread[s.n..];
            ResumedAgain(seen, at, s.record, s.n, Parse(cfg, s.env, unread[s.n..]));
          } else {
            assert Unread() == unread[1..];
          }
      }
    }

    /**
      Reads the whole file, blockSize bytes at a time. Whatever the block size, records, knowledge,
      outcome and offset are those of parsing the file at once, with the filter as the object's earlier
      runs have left it; the run leaves the names it shows in the filter.
     */
    method Process(file: seq<octet>, blockSize: nat) returns (outcome: Outcome, offset: nat)
      requires blockSize >= 1
      modifies this
      ensures Valid() && cfg == Config(correct, debug, old(msgFilter))
      ensures var p := Parse(cfg, Start(cfg), file);
        && outcome == p.outcome && offset == p.used && records == p.records && Knows() == p.env
        && msgFilter == if p.env.started && !debug then p.env.shown else old(msgFilter)
      ensures outcome == Wants ==> Unread() == file[offset..]
    {
      hide Next, Parse;
      Reset();
      var bytesRead, pos := 0, 0;
      EmptyWantsMore(cfg, Knows());
      while pos < |file|
        invariant 0 <= bytesRead <= pos <= |file| && Valid() && cfg == Config(correct, debug, old(msgFilter))
        invariant Unread() == file[bytesRead..pos]
        invariant Parse(cfg, Start(cfg), file[..pos]) == Parsed(records, Knows(), bytesRead, Wants)
      {
        var next := if pos + blockSize <= |file| then pos + blockSize else |file|;
        buffer := buffer[ptr..] + file[pos..next];
        ptr := 0;
        assert Unread() == buffer == file[bytesRead..next];
        BlockArrives(cfg, file, pos, next, records, Knows(), bytesRead);
        outcome := ParseBlock();
        if outcome != Wants {
          return outcome, bytesRead + ptr;
        }
        pos := next;
        bytesRead := bytesRead + ptr;
      }
      assert file[..pos] == file;
      return Wants, bytesRead;
    }
  }

  datatype Turned = Leave | Again | SameAgain | Raise(failure: Failure)

  /** After a parse of the file up to pos, the block up to next continues it; a failure in it is the file's. */
  lemma BlockArrives(cfg: Config, file: seq<octet>, pos: nat, next: nat, records: seq<Record>, env: Env, used: nat)
    requires used <= pos <= next <= |file|
    requires Parse(cfg, Start(cfg), file[..pos]) == Parsed(records, env, used, Wants)
    ensures var p := Parse(cfg, env, file[used..next]);
      var now := Parsed(records + p.records, p.env, used + p.used, p.outcome);
      && Parse(cfg, Start(cfg), file[..next]) == now
      && (p.outcome != Wants ==> Parse(cfg, Start(cfg), file) == now)
  {
    hide Parse;
    ParseAppend(cfg, Start(cfg), file[..pos], file[pos..next]);
    ParseAppend(cfg, Start(cfg), file[..next], file[next..]);
    assert file[..pos][used..] + file[pos..next] == file[used..next];
    assert file[..pos] + file[pos..next] == file[..next];
    assert file[..next] + file[next..] == file;
  }

  /** A parse of the bytes from offset at on, records having been found before it. */
  function Resumed(records: seq<Record>, at: nat, p: Parsed): Parsed
  {
    p.(records := records + p.records, used := at + p.used)
  }

  lemma ResumedAgain(records: seq<Record>, at: nat, record: Record, n: nat, p: Parsed)
    ensures Resumed(records, at, After(record, n, p)) == Resumed(records + [record], at + n, p)
  {
    assert records + ([record] + p.records) == records + [record] + p.records;
  }

  lemma EmptyWantsMore(cfg: Config, env: Env)
    ensures Parse(cfg, env, []) == Parsed([], env, 0, Wants)
  {
  }

  /** The cases of Next in the order the loop tells them apart. */
  lemma NextCases(cfg: Config, env: Env, b: seq<octet>)
    ensures var s := Next(cfg, env, b);
      if |b| < HEADER_LEN then s.More?
      else if b[0] != HEAD1 || b[1] != HEAD2 then s == if cfg.correct then Skip else Fail(BadHeader(b[0], b[1]), env)
      else if b[2] == TYPE_FORMAT then (if |b| < FORMAT_LEN then s.More? else s == FormatStep(env, b))
      else if b[2] !in env.descrs then s == Fail(UnknownType(b[2]), env)
      else if |b| < env.descrs[b[2]].length then s.More?
      else s == DataStep(cfg, env, b[2], b)
  {
    hide FormatStep, DataStep;
  }
}
