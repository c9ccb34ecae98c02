/**
  Waiting for a string on the console: a window over the last reads is compared with the string
  after each read. A read that times out puts an empty piece into the window.
 */
module FetchFile {
  import opened Basics

  /** One read of the port: a character or nothing, and whether the deadline had passed after it. */
  datatype Read = Read(c: Option<char>, late: bool)

  function Piece(r: Read): string
  {
    match r.c
    case None => ""
    case Some(c) => [c]
  }

  function Text(input: seq<Read>): string
  {
    if input == [] then "" else Piece(input[0]) + Text(input[1..])
  }

  /** The waiting ends, fails, or goes on when the reads given run out. */
  datatype Wait = Found(res: string, used: nat) | TimedOut(used: nat) | Waiting

  /** The last |s| of the first k reads spell s. */
  predicate Spelled(input: seq<Read>, s: string, k: nat)
    requires k <= |input|
  {
    |s| <= k && Text(input[k - |s|..k]) == s
  }

  function EndsWith(t: string, s: string): bool
  {
    |s| <= |t| && t[|t| - |s|..] == s
  }

  predicate NoSilence(input: seq<Read>)
  {
    forall i | 0 <= i < |input| :: input[i].c.Some?
  }

  lemma {:induction false} TextAppend(a: seq<Read>, b: seq<Read>)
    ensures Text(a + b) == Text(a) + Text(b)
    decreases |a|
  {
    if a == [] {
      assert a + b == b;
    } else {
      assert (a + b)[1..] == a[1..] + b;
      TextAppend(a[1..], b);
    }
  }

  /** A silence shortens the text of a stretch of reads; without one, each read is a character. */
  lemma {:induction false} TextLength(input: seq<Read>)
    ensures |Text(input)| <= |input|
    ensures |Text(input)| == |input| <==> NoSilence(input)
  {
    if input == [] {
    } else {
      TextLength(input[1..]);
      if NoSilence(input[1..]) && input[0].c.Some? {
        assert forall i | 0 <= i < |input| :: i > 0 ==> input[i] == input[1..][i - 1];
      }
      if NoSilence(input) {
        assert forall i | 0 <= i < |input[1..]| :: input[1..][i] == input[i + 1];
      }
    }
  }

  /**
    What the window compares: s is recognised after k reads if and only if the text so far ends with
    s and the port was not silent during the last |s| reads.
   */
  lemma SpelledIff(input: seq<Read>, s: string, k: nat)
    requires k <= |input|
    ensures Spelled(input, s, k)
      <==> |s| <= k && EndsWith(Text(input[..k]), s) && NoSilence(input[k - |s|..k])
  {
    if |s| <= k {
      var head, window := input[..k - |s|], input[k - |s|..k];
      assert input[..k] == head + window;
      TextAppend(head, window);
      TextLength(window);
    }
  }

  /** A prompt interrupted by one silent read goes unrecognised, although the text ends with it. */
  lemma SilenceHidesPrompt()
    ensures var input := [Read(Some('n'), false), Read(None, false), Read(Some('>'), false)];
      EndsWith(Text(input), "n>") && forall k | 0 <= k <= 3 :: !Spelled(input, "n>", k)
  {
    var input := [Read(Some('n'), false), Read(None, false), Read(Some('>'), false)];
    assert input[1..] == [Read(None, false), Read(Some('>'), false)];
    assert input[1..][1..] == [Read(Some('>'), false)];
    assert input[1..][1..][1..] == [];
    assert Text(input) == "n>";
    forall k | 0 <= k <= 3
      ensures !Spelled(input, "n>", k)
    {
      SpelledIff(input, "n>", k);
      if k >= 2 {
        var window := input[k - 2..k];
        assert window[if k == 2 then 1 else 0] == input[1];
        assert !NoSilence(window);
      }
    }
  }

  function Pieces(input: seq<Read>): (pieces: seq<string>)
    ensures |pieces| == |input|
  {
    seq(|input|, i requires 0 <= i < |input| => Piece(input[i]))
  }

  lemma {:induction false} JoinPieces(input: seq<Read>)
    ensures Flatten(Pieces(input)) == Text(input)
  {
    if input == [] {
    } else {
      assert Pieces(input)[1..] == Pieces(input[1..]);
      JoinPieces(input[1..]);
    }
  }

  /** Nothing before read k ended the waiting. */
  predicate Undecided(input: seq<Read>, s: string, k: nat)
    requires k <= |input|
  {
    forall j | 1 <= j <= k :: !Spelled(input, s, j) && !input[j - 1].late
  }

  /** Read k completes s for the first time, and no read before it was past the deadline. */
  predicate Completes(input: seq<Read>, s: string, k: nat)
  {
    1 <= k <= |input| && Spelled(input, s, k) && Undecided(input, s, k - 1)
  }

  /** Read k is the first past the deadline; s was not completed, by it or before. */
  predicate GivesUp(input: seq<Read>, s: string, k: nat)
  {
    1 <= k <= |input| && input[k - 1].late && !Spelled(input, s, k) && Undecided(input, s, k - 1)
  }

  /** A wait ends in one way only. */
  lemma OneEnding(input: seq<Read>, s: string, j: nat, k: nat)
    ensures Completes(input, s, j) && Completes(input, s, k) ==> j == k
    ensures GivesUp(input, s, j) && GivesUp(input, s, k) ==> j == k
    ensures !(Completes(input, s, j) && GivesUp(input, s, k))
    ensures Undecided(input, s, |input|) ==> !Completes(input, s, k) && !GivesUp(input, s, k)
  {
    hide Spelled;
  }

  /**
    Stops at the first read after which the window spells s; the text consumed is then exactly the
    returned text followed by s. Gives up at the first read past the deadline that does not complete s.
   */
  method WaitForString(input: seq<Read>, s: string) returns (w: Wait)
    ensures match w
      case Found(res, k) => Completes(input, s, k) && Text(input[..k]) == res + s
      case TimedOut(k) => GivesUp(input, s, k)
      case Waiting => Undecided(input, s, |input|)
  {
    hide Text, Flatten, Spelled, Pieces, Undecided;
    NothingRead(input, s);
    ghost var pieces := Pieces(input);
    var buf: seq<string>, res: seq<string> := [], [];
    for i := 0 to |input|
      invariant Undecided(input, s, i)
      invariant |res| == WindowStart(s, i) && res == pieces[..|res|] && buf == pieces[|res|..i]
    {
      PieceAt(input, i);
      buf := buf + [Piece(input[i])];
      assert buf == pieces[|res|..i + 1];
      if |buf| > |s| {
        res := res + [buf[0]];
        buf := buf[1..];
        assert res == pieces[..|res|] && buf == pieces[|res|..i + 1];
      }
      WindowSpells(input, s, i + 1);
      if Flatten(buf) == s {
        return Found(Flatten(res), i + 1);
      }
      if input[i].late {
        return TimedOut(i + 1);
      }
      StillUndecided(input, s, i);
    }
    return Waiting;
  }

  lemma NothingRead(input: seq<Read>, s: string)
    ensures Undecided(input, s, 0)
  {
  }

  lemma StillUndecided(input: seq<Read>, s: string, k: nat)
    requires k < |input| && Undecided(input, s, k)
    requires !Spelled(input, s, k + 1) && !input[k].late
    ensures Undecided(input, s, k + 1)
  {
  }

  /** Where the window starts after k reads. */
  function WindowStart(s: string, k: nat): (m: nat)
    ensures m <= k
  {
    if k <= |s| then 0 else k - |s|
  }

  lemma PieceAt(input: seq<Read>, i: nat)
    requires i < |input|
    ensures Pieces(input)[i] == Piece(input[i])
  {
  }

  /** Comparing the joined window with s is asking whether s is spelled. */
  lemma WindowSpells(input: seq<Read>, s: string, k: nat)
    requires k <= |input|
    ensures var m := WindowStart(s, k);
      && (Flatten(Pieces(input)[m..k]) == s <==> Spelled(input, s, k))
      && (Spelled(input, s, k) ==> Text(input[..k]) == Flatten(Pieces(input)[..m]) + s)
  {
    hide Text, Flatten;
    var m := WindowStart(s, k);
    assert Pieces(input)[m..k] == Pieces(input[m..k]) && Pieces(input)[..m] == Pieces(input[..m]);
    JoinPieces(input[m..k]);
    JoinPieces(input[..m]);
    TextLength(input[m..k]);
    assert input[..k] == input[..m] + input[m..k];
    TextAppend(input[..m], input[m..k]);
  }

  const PROMPT: string := "nsh> \U{1b}[K"

  /** The shell's name, and the escape sequence that clears the rest of the line. */
  lemma PromptIs()
    ensures PROMPT == ['n', 's', 'h', '>', ' '] + [27 as char] + ['[', 'K']
  {
  }

  datatype Reply = Output(text: string, used: nat) | Failed | Pending

  /** After the first k reads, which end with the echo of cmd, the rest is awaited for the prompt. */
  predicate Echoed(input: seq<Read>, cmd: string, k: nat)
  {
    Completes(input, cmd + "\r\n", k)
  }

  /**
    The echo of the command, then everything up to the prompt; both waits share the port. The output
    is what was read between the first echo and the first prompt after it; the command fails if and
    only if one of the two waits gives up, and it is pending while neither has ended so.
   */
  method ExecCmd(cmd: string, input: seq<Read>) returns (r: Reply)
    ensures match r
      case Output(text, used) =>
        && used <= |input|
        && (exists k: nat :: Echoed(input, cmd, k) && k <= used
              && Completes(input[k..], PROMPT, used - k) && Text(input[k..used]) == text + PROMPT)
        && exists noise: string :: Text(input[..used]) == noise + cmd + "\r\n" + text + PROMPT
      case Failed =>
        || (exists k: nat :: GivesUp(input, cmd + "\r\n", k))
        || exists k: nat, n: nat :: Echoed(input, cmd, k) && GivesUp(input[k..], PROMPT, n)
      case Pending =>
        || Undecided(input, cmd + "\r\n", |input|)
        || exists k: nat :: Echoed(input, cmd, k) && Undecided(input[k..], PROMPT, |input| - k)
  {
    hide Text, Spelled, Undecided;
    var echo := WaitForString(input, cmd + "\r\n");
    match echo
    case TimedOut(_) => return Failed;
    case Waiting => return Pending;
    case Found(noise, k) =>
      assert Echoed(input, cmd, k);
      var answer := WaitForString(input[k..], PROMPT);
      match answer
      case TimedOut(_) => return Failed;
      case Waiting => return Pending;
      case Found(text, n) =>
        assert input[k..][..n] == input[k..k + n];
        assert input[..k + n] == input[..k] + input[k..k + n];
        TextAppend(input[..k], input[k..k + n]);
        assert noise + (cmd + "\r\n") + (text + PROMPT) == noise + cmd + "\r\n" + text + PROMPT;
        return Output(text, k + n);
  }

  /** On a console without silences the first occurrence of s is where the text first ends with s. */
  lemma FirstOccurrence(input: seq<Read>, s: string, k: nat)
    requires NoSilence(input) && k <= |input|
    ensures Spelled(input, s, k) <==> EndsWith(Text(input[..k]), s)
  {
    SpelledIff(input, s, k);
    TextLength(input[..k]);
  }
}
