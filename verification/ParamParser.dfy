/**
  The parameter parser's comment grammar, on lines already matched against its regular expressions:
  a state machine that gathers a documentation block and hands it to the definition that follows.
 */
module ParamParser {
  import opened Basics

  /** What stands in a comment line behind its asterisk. */
  datatype Content = Blank | Words(text: string) | Tag(name: string, text: string)

  /** What a line outside any comment defines. */
  datatype Definition =
    | Nothing
    | DefaultValue(name: string, value: string)
    | Parameter(typ: string, name: string, value: string)
    | Px4Parameter(typ: string, name: string)

  /**
    A stripped, non-empty line: whether it starts a comment block, whether it ends one, its content
    if it begins with an asterisk, and what it would define outside a comment.
   */
  datatype Line = Line(starts: bool, ends: bool, content: Option<Content>, definition: Definition)

  datatype State = Outside | WaitShort | WaitShortEnd | WaitLong | WaitLongEnd | WaitTagEnd | Processed

  /** The comment gathered so far. */
  datatype Comment = Comment(
    short: Option<string>, long: Option<string>, tags: map<string, string>, tag: Option<string>)

  const NO_COMMENT := Comment(None, None, map[], None)

  datatype Param = Param(name: string, typ: string, value: string, fields: map<string, string>)

  /** Groups and remembered default values outlive a call; state and comment do not. */
  datatype Parser = Parser(
    state: State, comment: Comment, groups: map<string, seq<Param>>, defaults: map<string, string>)

  /**
    Rejected: an unknown tag, and the definition it was meant for is not stored. Broken: one of the
    program's assertions, or an append to something unset.
   */
  datatype Stepped = Next(parser: Parser) | Rejected(parser: Parser) | Broken

  const VALID_TAGS: set<string> := {"group", "board", "min", "max", "unit", "decimal"}

  function WithLine(text: string, line: string): string
  {
    text + "\n" + line
  }

  function Take(state: State, c: Comment, content: Content): Option<(State, Comment)>
  {
    match content
    case Blank => Some((if state == WaitShortEnd then WaitLong else state, c))
    case Tag(name, text) => Some((WaitTagEnd, c.(tags := c.tags[name := text], tag := Some(name))))
    case Words(text) =>
      match state
      case WaitShort => Some((WaitShortEnd, c.(short := Some(text))))
      case WaitShortEnd =>
        if c.short.None? then None else Some((state, c.(short := Some(WithLine(c.short.value, text)))))
      case WaitLong => Some((WaitLongEnd, c.(long := Some(text))))
      case WaitLongEnd =>
        if c.long.None? then None else Some((state, c.(long := Some(WithLine(c.long.value, text)))))
      case WaitTagEnd =>
        if c.tag.None? || c.tag.value !in c.tags then None
        else Some((state, c.(tags := c.tags[c.tag.value := WithLine(c.tags[c.tag.value], text)])))
      case _ => None
  }

  predicate InComment(state: State)
  {
    state != Outside && state != Processed
  }

  function CommentLine(p: Parser, line: Line): Stepped
  {
    match line.content
    case Some(content) =>
      (match Take(p.state, p.comment, content)
       case None => Broken
       case Some((state, comment)) =>
         Next(p.(state := if line.ends then Processed else state, comment := comment)))
    case None => Next(p.(state := if line.ends then Processed else Outside))
  }

  /** Without the dots at its end. */
  function TrimDots(s: string): string
  {
    if s != "" && s[|s| - 1] == '.' then TrimDots(s[..|s| - 1]) else s
  }

  /** With every run of line breaks made one blank. */
  function OneLine(s: string): string
  {
    if s == "" then ""
    else if s[0] != '\n' then [s[0]] + OneLine(s[1..])
    else if |s| > 1 && s[1] == '\n' then OneLine(s[1..])
    else " " + OneLine(s[1..])
  }

  predicate LooksNumeric(v: string)
  {
    var digits := if v != "" && v[0] == '-' then v[1..] else v;
    digits != "" && ('0' <= digits[0] <= '9' || digits[0] == '.')
  }

  function TrimLetters(v: string): string
  {
    if v != "" && 'a' <= v[|v| - 1] <= 'z' then TrimLetters(v[..|v| - 1]) else v
  }

  /** A number without its type letters: 0.1f is 0.1. */
  function PlainValue(v: string): string
  {
    if LooksNumeric(v) then TrimLetters(v) else v
  }

  /** The descriptions a comment gives a parameter of that name. */
  function TextsOf(name: string, c: Comment): map<string, string>
  {
    var short := map["short_desc" := if c.short.Some? then TrimDots(c.short.value) else name];
    if c.long.Some? then short["long_desc" := OneLine(c.long.value)] else short
  }

  /** The fields a completed comment gives a parameter; the group is not one of them. */
  function FieldsOf(name: string, c: Comment): map<string, string>
  {
    TextsOf(name, c) + (map tag | tag in c.tags && tag != "group" :: c.tags[tag])
  }

  function GroupOf(c: Comment): string
  {
    if "group" in c.tags then c.tags["group"] else "Miscellaneous"
  }

  function Store(p: Parser, group: string, param: Param): Parser
  {
    p.(state := Outside,
       groups := p.groups[group := (if group in p.groups then p.groups[group] else []) + [param]])
  }

  /** A definition takes the comment completed just before it, or none. */
  function Define(p: Parser, typ: string, name: string, value: string): Stepped
  {
    var c := if p.state == Processed then p.comment else NO_COMMENT;
    if exists tag | tag in c.tags :: tag !in VALID_TAGS then Rejected(p)
    else Next(Store(p, GroupOf(c), Param(name, typ, PlainValue(value), FieldsOf(name, c))))
  }

  predicate Defines(line: Line)
  {
    line.definition.Parameter? || line.definition.Px4Parameter?
  }

  /** The default a definition gives, or that was remembered for it; the empty string if there is none. */
  function ValueOf(p: Parser, line: Line): string
    requires Defines(line)
  {
    match line.definition
    case Parameter(_, _, value) => value
    case Px4Parameter(_, name) =>
      var key := name + "_DEFAULT";
      if key in p.defaults then p.defaults[key] else ""
  }

  function DefinitionLine(p: Parser, line: Line): Stepped
  {
    match line.definition
    case Nothing => Next(p.(state := Outside))
    case DefaultValue(name, value) => Next(p.(state := Outside, defaults := p.defaults[name := value]))
    case Parameter(typ, name, _) => Define(p, typ, name, ValueOf(p, line))
    case Px4Parameter(typ, name) => Define(p, typ, name, ValueOf(p, line))
  }

  /** A comment block begins: everything gathered is dropped, but for the name of the last tag read. */
  function Begun(p: Parser): Parser
  {
    p.(state := WaitShort, comment := NO_COMMENT.(tag := p.comment.tag))
  }

  function Step(p: Parser, line: Line): Stepped
  {
    if line.starts then Next(Begun(p))
    else if InComment(p.state) then CommentLine(p, line)
    else DefinitionLine(p, line)
  }

  function ParseLines(p: Parser, lines: seq<Line>): Stepped
    decreases |lines|
  {
    if lines == [] then Next(p)
    else
      match Step(p, lines[0])
      case Next(q) => ParseLines(q, lines[1..])
      case Rejected(q) => Rejected(q)
      case Broken => Broken
  }

  //
  // What is appended to is set
  //

  predicate Consistent(p: Parser)
  {
    && (p.state == WaitShortEnd ==> p.comment.short.Some?)
    && (p.state == WaitLongEnd ==> p.comment.long.Some?)
    && (p.state == WaitTagEnd ==> p.comment.tag.Some? && p.comment.tag.value in p.comment.tags)
  }

  lemma StepKeepsConsistent(p: Parser, line: Line)
    requires Consistent(p)
    ensures Step(p, line) != Broken
    ensures Step(p, line).Next? ==> Consistent(Step(p, line).parser)
  {
  }

  /** For every sequence of lines the invalid-state assertion is out of reach, and nothing unset is appended to. */
  lemma {:induction false} NeverBroken(p: Parser, lines: seq<Line>)
    requires Consistent(p)
    ensures ParseLines(p, lines) != Broken
    ensures ParseLines(p, lines).Next? ==> Consistent(ParseLines(p, lines).parser)
    decreases |lines|
  {
    hide Step, Consistent;
    if lines == [] {
    } else {
      StepKeepsConsistent(p, lines[0]);
      if Step(p, lines[0]).Next? {
        NeverBroken(Step(p, lines[0]).parser, lines[1..]);
      }
    }
  }

  lemma {:induction false} ParseAppend(p: Parser, a: seq<Line>, b: seq<Line>)
    ensures ParseLines(p, a + b) ==
      match ParseLines(p, a)
      case Next(q) => ParseLines(q, b)
      case Rejected(q) => Rejected(q)
      case Broken => Broken
    decreases |a|
  {
    hide Step;
    if a == [] {
      assert a + b == b;
    } else {
      assert (a + b)[0] == a[0] && (a + b)[1..] == a[1..] + b;
      if Step(p, a[0]).Next? {
        ParseAppend(Step(p, a[0]).parser, a[1..], b);
      }
    }
  }

  lemma Steps(p: Parser, first: Line, rest: seq<Line>)
    ensures Step(p, first).Next? ==> ParseLines(p, [first] + rest) == ParseLines(Step(p, first).parser, rest)
  {
    assert ([first] + rest)[1..] == rest;
  }

  //
  // Texts and values
  //

  predicate AllDots(s: string)
  {
    forall i | 0 <= i < |s| :: s[i] == '.'
  }

  /** Trimming takes off the dots at the end, all of them and nothing else. */
  lemma {:induction false} TrimDotsTrims(s: string)
    ensures var r := TrimDots(s);
      r <= s && AllDots(s[|r|..]) && (r == "" || r[|r| - 1] != '.')
  {
    if s != "" && s[|s| - 1] == '.' {
      var init, r := s[..|s| - 1], TrimDots(s);
      TrimDotsTrims(init);
      assert r == init[..|r|] == s[..|r|];
      forall i | 0 <= i < |s[|r|..]|
        ensures s[|r|..][i] == '.'
      {
        if |r| + i < |s| - 1 {
          assert s[|r|..][i] == init[|r|..][i];
        }
      }
    } else {
      assert s[|s|..] == "";
    }
  }

  predicate AllBreaks(s: string)
  {
    forall i | 0 <= i < |s| :: s[i] == '\n'
  }

  lemma {:induction false} NoBreaks(s: string)
    requires '\n' !in s
    ensures OneLine(s) == s
  {
    if s == "" {
    } else {
      assert s[0] in s;
      NoBreaks(s[1..]);
      assert s == [s[0]] + s[1..];
    }
  }

  lemma {:induction false} BreaksGo(breaks: string, later: string)
    requires breaks != "" && AllBreaks(breaks) && (later == "" || later[0] != '\n')
    ensures OneLine(breaks + later) == " " + OneLine(later)
    decreases |breaks|
  {
    var s := breaks + later;
    assert s[0] == '\n' && s[1..] == breaks[1..] + later;
    if |breaks| == 1 {
      assert s[1..] == later;
    } else {
      assert s[1] == breaks[1] == '\n';
      BreaksGo(breaks[1..], later);
    }
  }

  /** Text without line breaks stays as it is, and each run of line breaks becomes one blank. */
  lemma {:induction false} OneLineIs(first: string, breaks: string, later: string)
    requires '\n' !in first && AllBreaks(breaks) && breaks != "" && (later == "" || later[0] != '\n')
    ensures OneLine(first) == first
    ensures OneLine(first + breaks + later) == first + " " + OneLine(later)
    decreases |first|
  {
    NoBreaks(first);
    var s := first + breaks + later;
    if first == "" {
      assert s == breaks + later;
      BreaksGo(breaks, later);
    } else {
      assert first[0] in first && s[0] == first[0] && s[1..] == first[1..] + breaks + later;
      OneLineIs(first[1..], breaks, later);
      assert first + " " + OneLine(later) == [first[0]] + (first[1..] + " " + OneLine(later));
    }
  }

  predicate AllLetters(s: string)
  {
    forall i | 0 <= i < |s| :: 'a' <= s[i] <= 'z'
  }

  lemma {:induction false} TrimLettersTrims(s: string)
    ensures var r := TrimLetters(s);
      r <= s && AllLetters(s[|r|..]) && (r == "" || !('a' <= r[|r| - 1] <= 'z'))
  {
    if s != "" && 'a' <= s[|s| - 1] <= 'z' {
      var init, r := s[..|s| - 1], TrimLetters(s);
      TrimLettersTrims(init);
      assert r == init[..|r|] == s[..|r|];
      forall i | 0 <= i < |s[|r|..]|
        ensures 'a' <= s[|r|..][i] <= 'z'
      {
        if |r| + i < |s| - 1 {
          assert s[|r|..][i] == init[|r|..][i];
        }
      }
    } else {
      assert s[|s|..] == "";
    }
  }

  predicate DigitOrDot(c: char)
  {
    c in "0123456789."
  }

  /**
    A value that begins with a digit or a dot, or with a minus sign and one of these, loses the small
    letters at its end and nothing else; any other value stays as it is.
   */
  lemma PlainValueIs(v: string)
    ensures var numeric := (|v| > 0 && DigitOrDot(v[0])) || (|v| > 1 && v[0] == '-' && DigitOrDot(v[1]));
      var r := PlainValue(v);
      && (!numeric ==> r == v)
      && (numeric ==> r <= v && AllLetters(v[|r|..]) && (r == "" || !('a' <= r[|r| - 1] <= 'z')))
  {
    hide TrimLetters;
    TrimLettersTrims(v);
  }

  /** For a start: 0.1f is the number 0.1, and a name stays a name. */
  lemma PlainValueOfExamples()
    ensures PlainValue("0.1f") == "0.1" && PlainValue("-5") == "-5" && PlainValue("abc") == "abc"
  {
    assert "0.1f"[..3] == "0.1";
    assert TrimLetters("0.1f") == TrimLetters("0.1") == "0.1";
  }

  //
  // Which definitions are stored, read off the lines alone
  //

  /** Inside a block, such a line leaves it open. */
  predicate Continues(line: Line)
  {
    !line.starts && !line.ends && line.content.Some?
  }

  /** Line k starts a block that is still open behind the last line. */
  predicate OpenAt(lines: seq<Line>, k: nat)
  {
    k < |lines| && lines[k].starts && forall j | k < j < |lines| :: Continues(lines[j])
  }

  /** The last line ends the block that line k started. */
  predicate EndsBlock(lines: seq<Line>, k: nat)
  {
    && lines != []
    && var n := |lines| - 1;
      OpenAt(lines[..n], k) && !lines[n].starts && lines[n].ends
  }

  lemma OpenGrows(lines: seq<Line>, last: Line, k: nat)
    ensures OpenAt(lines + [last], k)
      <==> if k == |lines| then last.starts else OpenAt(lines, k) && Continues(last)
  {
    var all := lines + [last];
    assert forall j | 0 <= j < |lines| :: all[j] == lines[j];
    if k < |lines| && OpenAt(all, k) {
      assert Continues(all[|lines|]);
      assert forall j | k < j < |lines| :: Continues(all[j]);
    }
  }

  lemma EndsGrows(lines: seq<Line>, last: Line, k: nat)
    ensures EndsBlock(lines + [last], k) <==> OpenAt(lines, k) && !last.starts && last.ends
  {
    assert (lines + [last])[..|lines|] == lines;
  }

  lemma StateStep(p: Parser, line: Line)
    requires Step(p, line).Next?
    ensures var q := Step(p, line).parser;
      && (InComment(q.state) <==> line.starts || (InComment(p.state) && Continues(line)))
      && (q.state == Processed <==> !line.starts && InComment(p.state) && line.ends)
  {
  }

  lemma LastStep(p: Parser, lines: seq<Line>, last: Line)
    ensures var q, r := ParseLines(p, lines), ParseLines(p, lines + [last]);
      r == if q.Next? then Step(q.parser, last) else q
  {
    hide Step;
    ParseAppend(p, lines, [last]);
    assert [last][1..] == [];
  }

  /**
    From any state, a comment is ready for use if and only if the very last line ended a block: so a
    definition is documented only by the block ending in the line before it.
   */
  lemma ReadyIffJustEnded(p: Parser, lines: seq<Line>, last: Line)
    requires ParseLines(p, lines + [last]).Next?
    ensures ParseLines(p, lines).Next?
    ensures ParseLines(p, lines + [last]).parser.state == Processed
      <==> !last.starts && last.ends && InComment(ParseLines(p, lines).parser.state)
  {
    hide Step, Continues, InComment;
    LastStep(p, lines, last);
    StateStep(ParseLines(p, lines).parser, last);
  }

  /**
    After any lines the parser is inside a comment if and only if some line started a block and no
    later one ended it, broke it off or started another; and a comment is ready for use if and only
    if the last line ended a block.
   */
  lemma {:induction false} StateIsReadOff(p: Parser, lines: seq<Line>)
    requires p.state == Outside && ParseLines(p, lines).Next?
    ensures InComment(ParseLines(p, lines).parser.state) <==> exists k :: OpenAt(lines, k)
    ensures ParseLines(p, lines).parser.state == Processed <==> exists k :: EndsBlock(lines, k)
    decreases |lines|
  {
    hide Step, OpenAt, EndsBlock, Continues, InComment;
    if lines == [] {
      NothingOpen();
      assert !InComment(Outside) by { OutsideIsOutside(); }
    } else {
      var init, last := lines[..|lines| - 1], lines[|lines| - 1];
      assert lines == init + [last];
      LastStep(p, init, last);
      var q := ParseLines(p, init).parser;
      StateIsReadOff(p, init);
      StateStep(q, last);
      forall k: nat
        ensures OpenAt(lines, k) <==> if k == |init| then last.starts else OpenAt(init, k) && Continues(last)
        ensures EndsBlock(lines, k) <==> OpenAt(init, k) && !last.starts && last.ends
      {
        OpenGrows(init, last, k);
        EndsGrows(init, last, k);
      }
      BeyondTheEnd(init);
    }
  }

  lemma OutsideIsOutside()
    ensures !InComment(Outside)
  {
  }

  lemma NothingOpen()
    ensures forall k :: !OpenAt([], k)
    ensures forall k :: !EndsBlock([], k)
  {
  }

  lemma BeyondTheEnd(lines: seq<Line>)
    ensures !OpenAt(lines, |lines|)
  {
  }

  predicate TagAt(line: Line, tag: string)
  {
    match line.content
    case Some(Tag(name, _)) => name == tag
    case _ => false
  }

  predicate Tagged(lines: seq<Line>, k: nat, tag: string)
  {
    exists j | k < j < |lines| :: TagAt(lines[j], tag)
  }

  lemma TaggedGrows(lines: seq<Line>, last: Line, k: nat, tag: string)
    requires k < |lines|
    ensures Tagged(lines + [last], k, tag) <==> Tagged(lines, k, tag) || TagAt(last, tag)
  {
    var all := lines + [last];
    assert all[|lines|] == last;
    if Tagged(lines, k, tag) {
      var j :| k < j < |lines| && TagAt(lines[j], tag);
      assert all[j] == lines[j];
    }
  }

  lemma TagStep(p: Parser, line: Line, tag: string)
    requires InComment(p.state) && !line.starts && Step(p, line).Next?
    requires line.ends || line.content.Some?
    ensures tag in Step(p, line).parser.comment.tags <==> tag in p.comment.tags || TagAt(line, tag)
  {
  }

  /** The tags gathered for the block that line k started are those of the lines behind it. */
  lemma {:induction false} TagsOfOpenBlock(p: Parser, lines: seq<Line>, k: nat, tag: string)
    requires ParseLines(p, lines).Next? && OpenAt(lines, k)
    ensures InComment(ParseLines(p, lines).parser.state)
    ensures tag in ParseLines(p, lines).parser.comment.tags <==> Tagged(lines, k, tag)
    decreases |lines|
  {
    hide Step, OpenAt, Continues, TagAt;
    assert k < |lines| by { OpenInside(lines, k); }
    var init, last := lines[..|lines| - 1], lines[|lines| - 1];
    assert lines == init + [last];
    LastStep(p, init, last);
    OpenGrows(init, last, k);
    var q := ParseLines(p, init).parser;
    StateStep(q, last);
    if k == |init| {
      StepIsBegun(q, last);
    } else {
      ContinuesInside(last);
      TagsOfOpenBlock(p, init, k, tag);
      OpenInside(init, k);
      TagStep(q, last, tag);
      TaggedGrows(init, last, k, tag);
    }
  }

  lemma OpenInside(lines: seq<Line>, k: nat)
    requires OpenAt(lines, k)
    ensures k < |lines|
  {
  }

  lemma ContinuesInside(line: Line)
    requires Continues(line)
    ensures !line.starts && line.content.Some?
  {
  }

  lemma StepIsBegun(p: Parser, line: Line)
    requires line.starts
    ensures Step(p, line) == Next(Begun(p))
  {
  }

  lemma TagsOfEndedBlock(p: Parser, lines: seq<Line>, k: nat, tag: string)
    requires ParseLines(p, lines).Next? && EndsBlock(lines, k)
    ensures tag in ParseLines(p, lines).parser.comment.tags <==> Tagged(lines, k, tag)
  {
    hide Step, OpenAt, TagAt;
    var init, last := lines[..|lines| - 1], lines[|lines| - 1];
    assert lines == init + [last];
    LastStep(p, init, last);
    TagsOfOpenBlock(p, init, k, tag);
    OpenInside(init, k);
    TagStep(ParseLines(p, init).parser, last, tag);
    TaggedGrows(init, last, k, tag);
  }

  predicate UnknownTag(line: Line)
  {
    match line.content
    case Some(Tag(name, _)) => name !in VALID_TAGS
    case _ => false
  }

  /** A block may hold these tags and no others. */
  lemma UnknownTagIff(line: Line)
    ensures UnknownTag(line) ==> line.content.Some? && line.content.value.Tag?
    ensures line.content.Some? && line.content.value.Tag? ==>
      var name := line.content.value.name;
      !UnknownTag(line) <==>
        (name == "group" || name == "board" || name == "min" || name == "max" || name == "unit" || name == "decimal")
  {
  }

  /** The last line ends the block that line k started, and line j of the block holds a tag nobody knows. */
  predicate EndsBadBlock(lines: seq<Line>, k: nat, j: nat)
  {
    EndsBlock(lines, k) && k < j < |lines| && UnknownTag(lines[j])
  }

  predicate HasUnknownTag(p: Parser)
  {
    p.state == Processed && exists tag | tag in p.comment.tags :: tag !in VALID_TAGS
  }

  lemma UnknownTagIsReadOff(p: Parser, lines: seq<Line>)
    requires p.state == Outside && ParseLines(p, lines).Next?
    ensures HasUnknownTag(ParseLines(p, lines).parser) <==> exists k, j :: EndsBadBlock(lines, k, j)
  {
    hide ParseLines, OpenAt, EndsBlock;
    StateIsReadOff(p, lines);
    var q := ParseLines(p, lines).parser;
    if HasUnknownTag(q) {
      var k: nat :| EndsBlock(lines, k);
      var tag :| tag in q.comment.tags && tag !in VALID_TAGS;
      TagsOfEndedBlock(p, lines, k, tag);
      var j: nat :| k < j < |lines| && TagAt(lines[j], tag);
      assert EndsBadBlock(lines, k, j);
    }
    if k: nat, j: nat :| EndsBadBlock(lines, k, j) {
      var tag := lines[j].content.value.name;
      assert TagAt(lines[j], tag);
      TagsOfEndedBlock(p, lines, k, tag);
    }
  }

  lemma DefinitionStep(p: Parser, line: Line)
    requires Defines(line)
    ensures var d, r := line.definition, Step(p, line);
      var c := if p.state == Processed then p.comment else NO_COMMENT;
      var param := Param(d.name, d.typ, PlainValue(ValueOf(p, line)), FieldsOf(d.name, c));
      if line.starts || InComment(p.state) then r.Next? ==> r.parser.groups == p.groups
      else if HasUnknownTag(p) then r == Rejected(p)
      else r == Next(Store(p, GroupOf(c), param))
  {
    hide FieldsOf, PlainValue, GroupOf;
  }

  lemma StoredIsMore(p: Parser, group: string, param: Param)
    ensures Store(p, group, param).groups != p.groups
  {
    if group in p.groups {
      assert |Store(p, group, param).groups[group]| == |p.groups[group]| + 1;
    }
  }

  /**
    A definition, of either kind, is stored if and only if its line does not start a block, no block
    is open before it, and no block ending in the line before it holds an unknown tag.
   */
  lemma StoredIff(p: Parser, lines: seq<Line>, line: Line)
    requires p.state == Outside && ParseLines(p, lines).Next? && Defines(line)
    ensures var q, r := ParseLines(p, lines).parser, ParseLines(p, lines + [line]);
      (r.Next? && r.parser.groups != q.groups)
      <==> (!line.starts && !(exists k :: OpenAt(lines, k)) && !(exists k, j :: EndsBadBlock(lines, k, j)))
  {
    hide ParseLines, OpenAt, EndsBadBlock, Step, FieldsOf, PlainValue, Store, HasUnknownTag, InComment;
    var q := ParseLines(p, lines).parser;
    LastStep(p, lines, line);
    StateIsReadOff(p, lines);
    UnknownTagIsReadOff(p, lines);
    DefinitionStep(q, line);
    var c := if q.state == Processed then q.comment else NO_COMMENT;
    var d := line.definition;
    StoredIsMore(q, GroupOf(c), Param(d.name, d.typ, PlainValue(ValueOf(q, line)), FieldsOf(d.name, c)));
  }

  /** Line i defines a parameter, and the block ending before it holds an unknown tag. */
  ghost predicate RejectedAt(lines: seq<Line>, i: nat)
  {
    i < |lines| && !lines[i].starts && Defines(lines[i]) && exists k, j :: EndsBadBlock(lines[..i], k, j)
  }

  lemma RejectedGrows(lines: seq<Line>, last: Line, i: nat)
    requires i < |lines|
    ensures RejectedAt(lines + [last], i) <==> RejectedAt(lines, i)
  {
    hide EndsBadBlock;
    assert (lines + [last])[..i] == lines[..i];
  }

  lemma RejectingStep(p: Parser, line: Line)
    ensures Step(p, line).Rejected? <==> !line.starts && Defines(line) && HasUnknownTag(p)
  {
  }

  /** A file is given up if and only if some definition follows a block with an unknown tag. */
  lemma {:induction false} RejectedIff(p: Parser, lines: seq<Line>)
    requires p.state == Outside
    ensures ParseLines(p, lines).Rejected? <==> exists i :: RejectedAt(lines, i)
    decreases |lines|
  {
    hide Step, RejectedAt, HasUnknownTag, ParseLines;
    if lines == [] {
      NoLines(p);
      NothingRejected();
    } else {
      var init, last := lines[..|lines| - 1], lines[|lines| - 1];
      assert lines == init + [last];
      RejectedIff(p, init);
      LastStep(p, init, last);
      NeverBroken(p, init);
      if ParseLines(p, init).Rejected? {
        var i: nat :| RejectedAt(init, i);
        RejectedInside(init, i);
        RejectedGrows(init, last, i);
      } else {
        RejectedByLast(p, init, last);
        forall i: nat | RejectedAt(lines, i)
          ensures i == |init|
        {
          RejectedInside(lines, i);
          if i < |init| {
            RejectedGrows(init, last, i);
          }
        }
      }
    }
  }

  lemma NoLines(p: Parser)
    ensures ParseLines(p, []) == Next(p)
  {
  }

  lemma NothingRejected()
    ensures forall i :: !RejectedAt([], i)
  {
  }

  lemma RejectedInside(lines: seq<Line>, i: nat)
    requires RejectedAt(lines, i)
    ensures i < |lines|
  {
  }

  lemma RejectedByLast(p: Parser, lines: seq<Line>, last: Line)
    requires p.state == Outside && ParseLines(p, lines).Next?
    ensures Step(ParseLines(p, lines).parser, last).Rejected? <==> RejectedAt(lines + [last], |lines|)
  {
    hide Step, EndsBadBlock, HasUnknownTag, ParseLines;
    RejectingStep(ParseLines(p, lines).parser, last);
    UnknownTagIsReadOff(p, lines);
    assert (lines + [last])[..|lines|] == lines;
  }

  /**
    A definition outside any block and with none ending in the line before it is stored under its own
    name, in no particular group, with the default it gives or that was remembered for it.
   */
  lemma UndocumentedDefinition(p: Parser, lines: seq<Line>, line: Line)
    requires p.state == Outside && ParseLines(p, lines).Next?
    requires !line.starts && Defines(line)
    requires forall k :: !OpenAt(lines, k) && !EndsBlock(lines, k)
    ensures var q, d := ParseLines(p, lines).parser, line.definition;
      var param := Param(d.name, d.typ, PlainValue(ValueOf(q, line)), map["short_desc" := d.name]);
      ParseLines(p, lines + [line]) == Next(Store(q, "Miscellaneous", param))
  {
    hide ParseLines, OpenAt, EndsBlock, Step, PlainValue, Store;
    StateIsReadOff(p, lines);
    LastStep(p, lines, line);
    DefinitionStep(ParseLines(p, lines).parser, line);
    NoComment(line.definition.name);
  }

  /**
    A block begun and closed in one line is not seen to be closed: a definition in the next line
    that is not itself a comment line is lost, whatever came before.
   */
  lemma OneLineCommentSwallowsDefinition(p: Parser, opening: Line, definition: Line)
    requires opening.starts
    requires !definition.starts && !definition.ends && definition.content == None
    ensures var r := ParseLines(p, [opening, definition]);
      r.Next? && r.parser.groups == p.groups && r.parser.defaults == p.defaults && r.parser.state == Outside
  {
    Steps(p, opening, [definition]);
    Steps(Begun(p), definition, []);
    assert [opening] + [definition] == [opening, definition] && [definition] + [] == [definition];
  }

  //
  // Lines that make no difference
  //

  /** Inside a block an empty comment line changes nothing, unless it ends the short description. */
  lemma BlankChangesNothing(p: Parser, before: seq<Line>, blank: Line, later: seq<Line>)
    requires blank.content == Some(Blank) && !blank.starts && !blank.ends
    requires ParseLines(p, before).Next? && InComment(ParseLines(p, before).parser.state)
    requires ParseLines(p, before).parser.state != WaitShortEnd
    ensures ParseLines(p, before + ([blank] + later)) == ParseLines(p, before + later)
  {
    hide ParseLines;
    var q := ParseLines(p, before).parser;
    ParseAppend(p, before, [blank] + later);
    ParseAppend(p, before, later);
    Steps(q, blank, later);
  }

  /** What stands in the line that ends a block counts as if it stood in a line before it. */
  lemma TextInLastLine(p: Parser, content: Content, definition: Definition)
    requires InComment(p.state)
    ensures ParseLines(p, [Line(false, true, Some(content), definition)])
      == ParseLines(p, [Line(false, false, Some(content), Nothing), Line(false, true, None, Nothing)])
  {
    hide ParseLines, Take;
    var first, last := Line(false, false, Some(content), Nothing), Line(false, true, None, Nothing);
    var both := Line(false, true, Some(content), definition);
    StaysInComment(p, content);
    Steps(p, both, []);
    assert [both] + [] == [both];
    if Step(p, first).Next? {
      var q := Step(p, first).parser;
      Steps(p, first, [last]);
      Steps(q, last, []);
      assert [last] + [] == [last] && [first] + [last] == [first, last];
    } else {
      NoStep(p, first, [last]);
      NoStep(p, both, []);
      assert [first] + [last] == [first, last];
    }
  }

  lemma StaysInComment(p: Parser, content: Content)
    requires InComment(p.state)
    ensures var t := Take(p.state, p.comment, content); t.Some? ==> InComment(t.value.0)
  {
  }

  lemma NoStep(p: Parser, first: Line, rest: seq<Line>)
    ensures !Step(p, first).Next? ==> ParseLines(p, [first] + rest) == Step(p, first)
  {
    hide Step;
  }

  //
  // A documentation block, written out and read back
  //

  /** A short description, a long one that may be empty, and tags; each of one or more lines. */
  datatype Doc = Doc(short: seq<string>, long: seq<string>, tags: seq<TagText>)

  datatype TagText = TagText(name: string, first: string, more: seq<string>)

  function InBlock(c: Content): Line
  {
    Line(false, false, Some(c), Nothing)
  }

  function WordLines(texts: seq<string>): seq<Line>
  {
    if texts == [] then [] else [InBlock(Words(texts[0]))] + WordLines(texts[1..])
  }

  function TagLines(tags: seq<TagText>): seq<Line>
  {
    if tags == [] then []
    else [InBlock(Tag(tags[0].name, tags[0].first))] + WordLines(tags[0].more) + TagLines(tags[1..])
  }

  const OPENING := Line(true, false, None, Nothing)
  const CLOSING := Line(false, true, None, Nothing)

  function Written(doc: Doc): seq<Line>
  {
    [OPENING] + WordLines(doc.short)
    + (if doc.long == [] then [] else [InBlock(Blank)] + WordLines(doc.long))
    + TagLines(doc.tags) + [CLOSING]
  }

  /** text, then the further lines, one behind the other. */
  function Lines(text: string, more: seq<string>): string
    decreases |more|
  {
    if more == [] then text else Lines(WithLine(text, more[0]), more[1..])
  }

  function Join(texts: seq<string>): string
    requires texts != []
  {
    if |texts| == 1 then texts[0] else texts[0] + "\n" + Join(texts[1..])
  }

  /** Lines gathered one after the other are their texts with a line break between each two. */
  lemma {:induction false} LinesAreJoined(text: string, more: seq<string>)
    ensures Lines(text, more) == Join([text] + more)
    decreases |more|
  {
    var all := [text] + more;
    assert all[1..] == more;
    if more == [] {
    } else {
      var both := text + "\n" + more[0];
      LinesAreJoined(both, more[1..]);
      var merged := [both] + more[1..];
      assert merged[1..] == more[1..];
      if |more| == 1 {
        assert merged == [both];
      } else {
        assert Join(merged) == both + "\n" + Join(more[1..]);
        assert Join(more) == more[0] + "\n" + Join(more[1..]);
        assert both + "\n" + Join(more[1..]) == text + "\n" + (more[0] + "\n" + Join(more[1..]));
      }
    }
  }

  function TagMap(tags: seq<TagText>, m: map<string, string>): map<string, string>
    decreases |tags|
  {
    if tags == [] then m else TagMap(tags[1..], m[tags[0].name := Lines(tags[0].first, tags[0].more)])
  }

  /** The last text written for a tag is the one that counts; tags not written stay as they were. */
  lemma {:induction false} TagMapIs(tags: seq<TagText>, m: map<string, string>, name: string)
    ensures name in TagMap(tags, m) <==> name in m || exists i | 0 <= i < |tags| :: tags[i].name == name
    ensures forall i: nat | IsLastOf(tags, i) && tags[i].name == name ::
      name in TagMap(tags, m) && TagMap(tags, m)[name] == Lines(tags[i].first, tags[i].more)
    ensures name in m && (forall i | 0 <= i < |tags| :: tags[i].name != name) ==> TagMap(tags, m)[name] == m[name]
    decreases |tags|
  {
    hide Lines;
    if tags == [] {
    } else {
      var t, rest := tags[0], tags[1..];
      var next := m[t.name := Lines(t.first, t.more)];
      TagMapIs(rest, next, name);
      assert forall i | 0 <= i < |rest| :: rest[i] == tags[i + 1];
      if exists i | 0 <= i < |tags| :: tags[i].name == name {
        var i :| 0 <= i < |tags| && tags[i].name == name;
        assert i > 0 ==> rest[i - 1].name == name;
      }
      forall i: nat | IsLastOf(tags, i) && tags[i].name == name
        ensures name in TagMap(tags, m) && TagMap(tags, m)[name] == Lines(tags[i].first, tags[i].more)
      {
        if i == 0 {
          forall k | 0 <= k < |rest|
            ensures rest[k].name != name
          {
            assert rest[k] == tags[k + 1];
          }
        } else {
          assert IsLastOf(rest, i - 1) && rest[i - 1] == tags[i];
        }
      }
    }
  }

  /** No later tag has the name of tag i. */
  predicate IsLastOf(tags: seq<TagText>, i: nat)
  {
    i < |tags| && forall k | i < k < |tags| :: tags[k].name != tags[i].name
  }

  lemma {:induction false} ShortGoesOn(p: Parser, text: string, more: seq<string>)
    requires p.state == WaitShortEnd && p.comment.short == Some(text)
    ensures ParseLines(p, WordLines(more)) == Next(p.(comment := p.comment.(short := Some(Lines(text, more)))))
    decreases |more|
  {
    if more == [] {
    } else {
      var q := p.(comment := p.comment.(short := Some(WithLine(text, more[0]))));
      Steps(p, InBlock(Words(more[0])), WordLines(more[1..]));
      ShortGoesOn(q, WithLine(text, more[0]), more[1..]);
    }
  }

  lemma {:induction false} LongGoesOn(p: Parser, text: string, more: seq<string>)
    requires p.state == WaitLongEnd && p.comment.long == Some(text)
    ensures ParseLines(p, WordLines(more)) == Next(p.(comment := p.comment.(long := Some(Lines(text, more)))))
    decreases |more|
  {
    if more == [] {
    } else {
      var q := p.(comment := p.comment.(long := Some(WithLine(text, more[0]))));
      Steps(p, InBlock(Words(more[0])), WordLines(more[1..]));
      LongGoesOn(q, WithLine(text, more[0]), more[1..]);
    }
  }

  lemma {:induction false} TagGoesOn(p: Parser, name: string, text: string, more: seq<string>)
    requires p.state == WaitTagEnd && p.comment.tag == Some(name)
    requires name in p.comment.tags && p.comment.tags[name] == text
    ensures ParseLines(p, WordLines(more))
      == Next(p.(comment := p.comment.(tags := p.comment.tags[name := Lines(text, more)])))
    decreases |more|
  {
    if more == [] {
      assert p.comment.tags[name := text] == p.comment.tags;
    } else {
      var t := WithLine(text, more[0]);
      var q := p.(comment := p.comment.(tags := p.comment.tags[name := t]));
      Steps(p, InBlock(Words(more[0])), WordLines(more[1..]));
      TagGoesOn(q, name, t, more[1..]);
      assert q.comment.tags[name := Lines(t, more[1..])] == p.comment.tags[name := Lines(text, more)];
    }
  }

  lemma {:induction false} TagsAreRead(p: Parser, tags: seq<TagText>)
    requires InComment(p.state)
    ensures var r := ParseLines(p, TagLines(tags));
      && r.Next? && InComment(r.parser.state)
      && r.parser.groups == p.groups && r.parser.defaults == p.defaults
      && r.parser.comment.short == p.comment.short && r.parser.comment.long == p.comment.long
      && r.parser.comment.tags == TagMap(tags, p.comment.tags)
    decreases |tags|
  {
    if tags == [] {
    } else {
      var t, later := tags[0], TagLines(tags[1..]);
      var c := p.comment.(tags := p.comment.tags[t.name := t.first], tag := Some(t.name));
      var q := p.(state := WaitTagEnd, comment := c);
      var text := Lines(t.first, t.more);
      var q' := q.(comment := q.comment.(tags := q.comment.tags[t.name := text]));
      assert TagLines(tags) == [InBlock(Tag(t.name, t.first))] + (WordLines(t.more) + later);
      Steps(p, InBlock(Tag(t.name, t.first)), WordLines(t.more) + later);
      TagGoesOn(q, t.name, t.first, t.more);
      ParseAppend(q, WordLines(t.more), later);
      assert q'.comment.tags == p.comment.tags[t.name := text];
      TagsAreRead(q', tags[1..]);
    }
  }

  function Described(lines: seq<string>): Option<string>
  {
    if lines == [] then None else Some(Lines(lines[0], lines[1..]))
  }

  /**
    A block written for a description with at least one short line is read back as it was meant: the
    short and long texts, the tags, and a parser ready for the definition. A long text needs a short
    one before it, or it would be taken for it.
   */
  lemma BlockIsRead(p: Parser, doc: Doc)
    requires doc.short != []
    ensures var r := ParseLines(p, Written(doc));
      && r.Next? && r.parser.state == Processed
      && r.parser.groups == p.groups && r.parser.defaults == p.defaults
      && r.parser.comment.short == Described(doc.short)
      && r.parser.comment.long == Described(doc.long)
      && r.parser.comment.tags == TagMap(doc.tags, map[])
  {
    hide Step, WordLines, TagLines, TagMap;
    var longLines := if doc.long == [] then [] else [InBlock(Blank)] + WordLines(doc.long);
    var a := [OPENING] + WordLines(doc.short);
    DescriptionsAreRead(p, doc);
    var q := ParseLines(p, a + longLines).parser;
    ParseAppend(p, a + longLines, TagLines(doc.tags) + [CLOSING]);
    assert Written(doc) == a + longLines + (TagLines(doc.tags) + [CLOSING]);
    TagsAreRead(q, doc.tags);
    ParseAppend(q, TagLines(doc.tags), [CLOSING]);
    Closes(ParseLines(q, TagLines(doc.tags)).parser);
  }

  lemma Closes(p: Parser)
    requires InComment(p.state)
    ensures ParseLines(p, [CLOSING]) == Next(p.(state := Processed))
  {
    assert [CLOSING][1..] == [];
  }

  lemma DescriptionsAreRead(p: Parser, doc: Doc)
    requires doc.short != []
    ensures var longLines := if doc.long == [] then [] else [InBlock(Blank)] + WordLines(doc.long);
      var r := ParseLines(p, [OPENING] + WordLines(doc.short) + longLines);
      && r.Next? && InComment(r.parser.state)
      && r.parser.groups == p.groups && r.parser.defaults == p.defaults
      && r.parser.comment == Comment(Described(doc.short), Described(doc.long), map[], p.comment.tag)
  {
    var begun, s := Begun(p), doc.short;
    var started := begun.(state := WaitShortEnd, comment := begun.comment.(short := Some(s[0])));
    var described := started.(comment := begun.comment.(short := Described(s)));
    Steps(p, OPENING, WordLines(s));
    assert WordLines(s) == [InBlock(Words(s[0]))] + WordLines(s[1..]);
    Steps(begun, InBlock(Words(s[0])), WordLines(s[1..]));
    ShortGoesOn(started, s[0], s[1..]);
    assert ParseLines(p, [OPENING] + WordLines(s)) == Next(described);
    if doc.long == [] {
      assert [OPENING] + WordLines(s) + [] == [OPENING] + WordLines(s);
    } else {
      var l := doc.long;
      var waiting := described.(state := WaitLong);
      var going := described.(state := WaitLongEnd, comment := described.comment.(long := Some(l[0])));
      ParseAppend(p, [OPENING] + WordLines(s), [InBlock(Blank)] + WordLines(l));
      Steps(described, InBlock(Blank), WordLines(l));
      assert WordLines(l) == [InBlock(Words(l[0]))] + WordLines(l[1..]);
      Steps(waiting, InBlock(Words(l[0])), WordLines(l[1..]));
      LongGoesOn(going, l[0], l[1..]);
    }
  }

  /**
    The block and the definition after it, of either kind: the parameter is stored in the block's
    group with the block's texts and tags, unless a tag is unknown; then the parse stops.
   */
  lemma DocumentedParameter(p: Parser, doc: Doc, line: Line)
    requires doc.short != [] && !line.starts && Defines(line)
    ensures var d, r, tags := line.definition, ParseLines(p, Written(doc) + [line]), TagMap(doc.tags, map[]);
      var c := Comment(Described(doc.short), Described(doc.long), tags, None);
      var param := Param(d.name, d.typ, PlainValue(ValueOf(p, line)), FieldsOf(d.name, c));
      if exists tag | tag in tags :: tag !in VALID_TAGS then r.Rejected? && r.parser.groups == p.groups
      else
        && r.Next? && r.parser.state == Outside && r.parser.defaults == p.defaults
        && r.parser.groups == Store(p, GroupOf(c), param).groups
  {
    hide Written, TagMap, Described, PlainValue, TrimDots, OneLine, Step;
    BlockIsRead(p, doc);
    LastStep(p, Written(doc), line);
    DefinitionStep(ParseLines(p, Written(doc)).parser, line);
  }

  /**
    The parameter stored for a documented definition, told field by field: its short description without
    the dots at its end, its long one, if there is any, in one line, every tag but the group with its
    text, and nothing else; it comes last in the group named by the tag group, or in Miscellaneous.
   */
  lemma DocumentedFields(p: Parser, doc: Doc, line: Line)
    requires doc.short != [] && !line.starts && Defines(line)
    requires forall i | 0 <= i < |doc.tags| :: doc.tags[i].name in VALID_TAGS
    ensures var d, r, tags := line.definition, ParseLines(p, Written(doc) + [line]), TagMap(doc.tags, map[]);
      && r.Next?
      && var group := if "group" in tags then tags["group"] else "Miscellaneous";
        && group in r.parser.groups && r.parser.groups[group] != []
        && (forall g | g != group :: g in r.parser.groups <==> g in p.groups)
        && (forall g | g != group && g in p.groups :: r.parser.groups[g] == p.groups[g])
        && var stored := r.parser.groups[group];
          var n := |stored| - 1;
          && stored[..n] == (if group in p.groups then p.groups[group] else [])
          && stored[n].name == d.name && stored[n].typ == d.typ && stored[n].value == PlainValue(ValueOf(p, line))
          && FieldsAre(stored[n].fields, doc, tags)
  {
    hide Written, TagMap, Described, PlainValue, TrimDots, OneLine, FieldsAre, Store;
    var tags := TagMap(doc.tags, map[]);
    NoUnknownTag(doc.tags);
    DocumentedParameter(p, doc, line);
    var c := Comment(Described(doc.short), Described(doc.long), tags, None);
    var d := line.definition;
    FieldsToldApart(d.name, doc, tags);
    StoredLast(p, GroupOf(c), Param(d.name, d.typ, PlainValue(ValueOf(p, line)), FieldsOf(d.name, c)));
  }

  predicate FieldsAre(fields: map<string, string>, doc: Doc, tags: map<string, string>)
    requires doc.short != []
  {
    && fields.Keys == {"short_desc"} + (if doc.long == [] then {} else {"long_desc"}) + (tags.Keys - {"group"})
    && fields["short_desc"] == TrimDots(Join(doc.short))
    && (doc.long != [] ==> fields["long_desc"] == OneLine(Join(doc.long)))
    && (forall tag | tag in tags && tag != "group" :: fields[tag] == tags[tag])
  }

  lemma NoUnknownTag(tags: seq<TagText>)
    requires forall i | 0 <= i < |tags| :: tags[i].name in VALID_TAGS
    ensures forall tag | tag in TagMap(tags, map[]) :: tag in VALID_TAGS
  {
    hide TagMap;
    forall tag | tag in TagMap(tags, map[])
      ensures tag in VALID_TAGS
    {
      TagMapIs(tags, map[], tag);
    }
  }

  lemma DescribedIsJoined(texts: seq<string>)
    ensures Described(texts) == if texts == [] then None else Some(Join(texts))
  {
    hide Lines, Join;
    if texts != [] {
      LinesAreJoined(texts[0], texts[1..]);
      assert [texts[0]] + texts[1..] == texts;
    }
  }

  lemma FieldsToldApart(name: string, doc: Doc, tags: map<string, string>)
    requires doc.short != [] && forall tag | tag in tags :: tag in VALID_TAGS
    ensures FieldsAre(FieldsOf(name, Comment(Described(doc.short), Described(doc.long), tags, None)), doc, tags)
  {
    hide Described, TrimDots, OneLine, Join;
    DescribedIsJoined(doc.short);
    DescribedIsJoined(doc.long);
    var c := Comment(Described(doc.short), Described(doc.long), tags, None);
    DescriptionsAreNoTags();
    var texts := TextsOf(name, c);
    assert texts.Keys == {"short_desc"} + (if doc.long == [] then {} else {"long_desc"});
    var kept := map tag | tag in tags && tag != "group" :: tags[tag];
    assert kept.Keys == tags.Keys - {"group"};
    assert FieldsOf(name, c) == texts + kept;
  }

  lemma DescriptionsAreNoTags()
    ensures "short_desc" !in VALID_TAGS && "long_desc" !in VALID_TAGS
    ensures "short_desc" != "long_desc"
  {
    assert |"group"| == 5 && |"board"| == 5 && |"min"| == 3 && |"max"| == 3 && |"unit"| == 4 && |"decimal"| == 7;
    assert |"short_desc"| == 10 && |"long_desc"| == 9;
  }

  lemma StoredLast(p: Parser, group: string, param: Param)
    ensures var groups := Store(p, group, param).groups;
      && group in groups && groups[group] == (if group in p.groups then p.groups[group] else []) + [param]
      && (forall g | g != group :: g in groups <==> g in p.groups)
      && (forall g | g != group && g in p.groups :: groups[g] == p.groups[g])
  {
  }

  //
  // Remembered defaults
  //

  /** What a line outside any comment remembers as the default of key, if it does. */
  predicate Remembers(line: Line, key: string)
  {
    !line.starts && line.definition.DefaultValue? && line.definition.name == key
  }

  lemma DefaultsStep(p: Parser, line: Line, key: string)
    requires Step(p, line).Next?
    ensures var q := Step(p, line).parser;
      if Remembers(line, key) && !InComment(p.state) then key in q.defaults && q.defaults[key] == line.definition.value
      else (key in q.defaults <==> key in p.defaults) && (key in p.defaults ==> q.defaults[key] == p.defaults[key])
  {
    hide FieldsOf, PlainValue, GroupOf, Take;
  }

  /** A default, once remembered outside a comment, stays until another is remembered for the same name. */
  lemma {:induction false} DefaultsStay(p: Parser, lines: seq<Line>, key: string)
    requires ParseLines(p, lines).Next? && key in p.defaults
    requires forall i | 0 <= i < |lines| :: !Remembers(lines[i], key)
    ensures key in ParseLines(p, lines).parser.defaults
    ensures ParseLines(p, lines).parser.defaults[key] == p.defaults[key]
    decreases |lines|
  {
    hide Step, Remembers;
    if lines == [] {
    } else {
      DefaultsStep(p, lines[0], key);
      DefaultsStay(Step(p, lines[0]).parser, lines[1..], key);
    }
  }

  /**
    A PX4_PARAM_DEFINE gets as its value what the last line outside a comment gave as the default of its
    name with _DEFAULT behind it, whatever stands between the two lines.
   */
  lemma DefaultIsUsed(p: Parser, given: Line, between: seq<Line>, line: Line)
    requires !InComment(p.state) && line.definition.Px4Parameter?
    requires Remembers(given, line.definition.name + "_DEFAULT")
    requires forall i | 0 <= i < |between| :: !Remembers(between[i], line.definition.name + "_DEFAULT")
    requires ParseLines(p, [given] + between).Next?
    ensures ValueOf(ParseLines(p, [given] + between).parser, line) == given.definition.value
  {
    hide Step;
    var key := line.definition.name + "_DEFAULT";
    assert ([given] + between)[1..] == between;
    DefaultsStep(p, given, key);
    DefaultsStay(Step(p, given).parser, between, key);
  }

  //
  // The parser object
  //

  class SourceParser {
    var paramGroups: map<string, seq<Param>>
    var defaultVar: map<string, string>

    constructor ()
      ensures paramGroups == map[] && defaultVar == map[]
    {
      paramGroups, defaultVar := map[], map[];
    }

    /**
      The group and the fields for a parameter of that name; none if an unknown tag was met. The tags
      are met in any order.
     */
    method Inject(name: string, state: State, c: Comment) returns (r: Option<(string, map<string, string>)>)
      ensures state != Processed ==> r == Some((GroupOf(NO_COMMENT), FieldsOf(name, NO_COMMENT)))
      ensures state == Processed ==>
        r == if exists tag | tag in c.tags :: tag !in VALID_TAGS then None else Some((GroupOf(c), FieldsOf(name, c)))
    {
      hide *;
      NoComment(name);
      var group, fields := "Miscellaneous", map["short_desc" := name];
      if state != Processed {
        return Some((group, fields));
      }
      TextsAre(name, c);
      if c.short.Some? {
        fields := fields["short_desc" := TrimDots(c.short.value)];
      }
      if c.long.Some? {
        fields := fields["long_desc" := OneLine(c.long.value)];
      }
      ghost var read: set<string> := {};
      NoneKept(c);
      var left := c.tags.Keys;
      while left != {}
        invariant left + read == c.tags.Keys
        invariant read <= VALID_TAGS
        invariant group == if "group" in read then c.tags["group"] else "Miscellaneous"
        invariant fields == TextsOf(name, c) + Kept(c.tags, read)
        decreases |left|
      {
        var tag :| tag in left;
        KeptOneMore(name, c, read, tag);
        left, read := left - {tag}, read + {tag};
        if tag == "group" {
          group := c.tags[tag];
        } else if tag !in VALID_TAGS {
          return None;
        } else {
          fields := fields[tag := c.tags[tag]];
        }
      }
      assert read == c.tags.Keys;
      KeptAll(name, c);
      return Some((group, fields));
    }

    /** Stores the parameter that a line outside any comment defines; p is what the parser has read so far. */
    method AddParameter(line: Line, p: Parser) returns (ok: bool)
      requires Defines(line) && !line.starts && !InComment(p.state)
      requires p.groups == paramGroups && p.defaults == defaultVar
      modifies `paramGroups
      ensures var r := Step(p, line);
        && ok == r.Next? && !r.Broken? && paramGroups == r.parser.groups
        && r.parser.defaults == p.defaults
        && (ok ==> r.parser.state == Outside && r.parser.comment == p.comment)
    {
      hide FieldsOf, GroupOf, PlainValue;
      var name, value := line.definition.name, "";
      if line.definition.Parameter? {
        value := line.definition.value;
      } else if name + "_DEFAULT" in defaultVar {
        value := defaultVar[name + "_DEFAULT"];
      }
      DefinitionStep(p, line);
      var injected := Inject(name, p.state, p.comment);
      if injected == None {
        return false;
      }
      var (group, fields) := injected.value;
      if group !in paramGroups {
        paramGroups := paramGroups[group := []];
      }
      var param := Param(name, line.definition.typ, PlainValue(value), fields);
      paramGroups := paramGroups[group := paramGroups[group] + [param]];
      assert paramGroups == old(paramGroups)[group := paramGroups[group]];
      return true;
    }

    /** Parses one file's lines; what was stored before an unknown tag is kept. */
    method Parse(lines: seq<Line>) returns (ok: bool)
      modifies this
      ensures var r := ParseLines(Parser(Outside, NO_COMMENT, old(paramGroups), old(defaultVar)), lines);
        && !r.Broken? && ok == r.Next?
        && paramGroups == r.parser.groups && defaultVar == r.parser.defaults
    {
      hide FieldsOf, GroupOf, PlainValue, ParseLines;
      var state := Outside;
      var shortDesc: Option<string>, longDesc: Option<string>, currentTag: Option<string> := None, None, None;
      var tags: map<string, string> := map[];
      ghost var start := Parser(Outside, NO_COMMENT, paramGroups, defaultVar);
      for i := 0 to |lines|
        invariant Consistent(Parser(state, Comment(shortDesc, longDesc, tags, currentTag), paramGroups, defaultVar))
        invariant ParseLines(start, lines) == ParseLines(
          Parser(state, Comment(shortDesc, longDesc, tags, currentTag), paramGroups, defaultVar), lines[i..])
      {
        var p := Parser(state, Comment(shortDesc, longDesc, tags, currentTag), paramGroups, defaultVar);
        var line := lines[i];
        FirstStep(p, lines, i);
        if line.starts {
          state, shortDesc, longDesc, tags := WaitShort, None, None, map[];
        } else if state != Outside && state != Processed {
          if line.content.Some? {
            match line.content.value
            case Blank =>
              if state == WaitShortEnd {
                state := WaitLong;
              }
            case Tag(name, text) =>
              tags, currentTag, state := tags[name := text], Some(name), WaitTagEnd;
            case Words(text) =>
              match state
              case WaitShort =>
                shortDesc, state := Some(text), WaitShortEnd;
              case WaitShortEnd =>
                shortDesc := Some(WithLine(shortDesc.value, text));
              case WaitLong =>
                longDesc, state := Some(text), WaitLongEnd;
              case WaitLongEnd =>
                longDesc := Some(WithLine(longDesc.value, text));
              case WaitTagEnd =>
                tags := tags[currentTag.value := WithLine(tags[currentTag.value], text)];
          } else if !line.ends {
            state := Outside;
          }
          if line.ends {
            state := Processed;
          }
        } else {
          if line.definition.DefaultValue? {
            defaultVar := defaultVar[line.definition.name := line.definition.value];
          }
          if line.definition.Parameter? || line.definition.Px4Parameter? {
            ok := AddParameter(line, p);
            if !ok {
              return;
            }
          }
          state := Outside;
        }
      }
      NoLines(Parser(state, Comment(shortDesc, longDesc, tags, currentTag), paramGroups, defaultVar));
      assert lines[|lines|..] == [];
      return true;
    }
  }

  lemma NoComment(name: string)
    ensures GroupOf(NO_COMMENT) == "Miscellaneous"
    ensures FieldsOf(name, NO_COMMENT) == map["short_desc" := name]
  {
  }

  lemma TextsAre(name: string, c: Comment)
    ensures var named := map["short_desc" := name];
      var short := if c.short.Some? then named["short_desc" := TrimDots(c.short.value)] else named;
      TextsOf(name, c) == if c.long.Some? then short["long_desc" := OneLine(c.long.value)] else short
  {
    hide TrimDots, OneLine;
    if c.short.Some? {
      var text := TrimDots(c.short.value);
      assert map["short_desc" := name]["short_desc" := text] == map["short_desc" := text];
    }
  }

  /** The tags read so far that become fields. */
  function Kept(tags: map<string, string>, read: set<string>): map<string, string>
  {
    map tag | tag in tags && tag in read && tag != "group" :: tags[tag]
  }

  lemma NoneKept(c: Comment)
    ensures Kept(c.tags, {}) == map[]
  {
  }

  lemma KeptOneMore(name: string, c: Comment, read: set<string>, tag: string)
    requires tag in c.tags
    ensures "group" in VALID_TAGS
    ensures var before, after := TextsOf(name, c) + Kept(c.tags, read), TextsOf(name, c) + Kept(c.tags, read + {tag});
      after == if tag == "group" then before else before[tag := c.tags[tag]]
  {
    hide TextsOf;
  }

  lemma KeptAll(name: string, c: Comment)
    ensures TextsOf(name, c) + Kept(c.tags, c.tags.Keys) == FieldsOf(name, c)
    ensures GroupOf(c) == if "group" in c.tags.Keys then c.tags["group"] else "Miscellaneous"
  {
    hide TextsOf;
    assert Kept(c.tags, c.tags.Keys) == map tag | tag in c.tags && tag != "group" :: c.tags[tag];
  }

  lemma FirstStep(p: Parser, lines: seq<Line>, i: nat)
    requires i < |lines|
    ensures ParseLines(p, lines[i..]) ==
      match Step(p, lines[i])
      case Next(q) => ParseLines(q, lines[i + 1..])
      case Rejected(q) => Rejected(q)
      case Broken => Broken
  {
    hide Step;
    assert lines[i..][1..] == lines[i + 1..];
  }
}
