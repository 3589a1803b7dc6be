/**
 * What the shell's incremental parser computes on its buffered bytes
 * (sems/4week/myshell/src/parser.c), as functions on sequences.
 */
module ShellGrammar {

  datatype Token = Word(text: seq<char>) | NewLine | Pipe

  /** parse_token: a token and the bytes behind it, or "not complete yet". */
  datatype Scan = NoToken | Scanned(token: Token, rest: seq<char>)

  /** A command holds its words; the first is its exe as well as args[0]. */
  datatype Expr = Command(args: seq<seq<char>>) | PipeExpr

  datatype Error = PipeWithNoLeftArg | PipeWithLeftArgNotACommand | TooLateArguments | EndsNotWithACommand

  /**
   * parser_pop_next: (NONE, NULL), a line, an error, or the failing assertion on a missing tail;
   * `rest` are the bytes that stay buffered.
   */
  datatype Pop = Nothing | Line(exprs: seq<Expr>, rest: seq<char>) | Failed(error: Error, rest: seq<char>) | Abort

  /**
   * The buffered bytes do not end in a space or a carriage return: then parse_token never looks
   * past the last byte, and never counts a byte behind it.
   */
  predicate Clean(s: seq<char>) {
    s != [] ==> s[|s| - 1] != ' ' && s[|s| - 1] != '\r'
  }

  predicate Suffix(r: seq<char>, s: seq<char>) {
    |r| <= |s| && r == s[|s| - |r|..]
  }

  /** skip2first_nonspace */
  function SkipSpaces(s: seq<char>): (r: seq<char>)
    ensures |r| <= |s|
    ensures r != [] ==> r[0] != ' ' && r[|r| - 1] == s[|s| - 1]
    ensures s != [] && Clean(s) ==> r != []
  {
    if s == [] || s[0] != ' ' then s else SkipSpaces(s[1..])
  }

  predicate EndsWord(c: char) { c == ' ' || c == '\n' || c == '\r' }

  function WordLength(s: seq<char>): (k: nat)
    ensures k <= |s|
    ensures k < |s| ==> EndsWord(s[k])
    ensures s != [] && !EndsWord(s[0]) ==> k > 0
  {
    if s == [] || EndsWord(s[0]) then 0 else 1 + WordLength(s[1..])
  }

  /** The token at the first byte that is no space. */
  function TokenAt(p: seq<char>): (r: Scan)
    requires p != [] && Clean(p) && p[0] != ' '
    ensures r.Scanned? ==> |r.rest| < |p| && Clean(r.rest)
    ensures r.Scanned? && r.token.Word? ==> r.token.text != [] && r.rest != []
  {
    if p[0] == '\r' then Scanned(NewLine, p[2..])
    else if p[0] == '\n' then Scanned(NewLine, p[1..])
    else if p[0] == '|' then Scanned(Pipe, p[1..])
    else
      var m := WordLength(p);
      if m == |p| then NoToken else Scanned(Word(p[..m]), p[m..])
  }

  function NextToken(s: seq<char>): (r: Scan)
    requires s != [] && Clean(s)
    ensures r.Scanned? ==> |r.rest| < |s| && Clean(r.rest)
    ensures r.Scanned? && r.token.Word? ==> r.token.text != [] && r.rest != []
  {
    TokenAt(SkipSpaces(s))
  }

  predicate EndsInCommand(line: seq<Expr>) {
    line != [] && line[|line| - 1].Command?
  }

  function AddWord(line: seq<Expr>, word: seq<char>): (r: seq<Expr>)
    ensures EndsInCommand(r)
  {
    if EndsInCommand(line) then line[|line| - 1 := Command(line[|line| - 1].args + [word])]
    else line + [Command([word])]
  }

  /** After an error: the rest of the line is thrown away once its end is there. */
  function SkipLine(s: seq<char>, error: Error): Pop
    requires Clean(s)
    decreases |s|
  {
    if s == [] then Nothing
    else match NextToken(s)
      case NoToken => Nothing
      case Scanned(token, rest) => if token.NewLine? then Failed(error, rest) else SkipLine(rest, error)
  }

  /** The loop of parser_pop_next; `blank` says that the last token was a skipped new line. */
  function Parse(s: seq<char>, line: seq<Expr>, blank: bool): Pop
    requires Clean(s)
    decreases |s|
  {
    if s == [] then (if blank then Abort else Nothing)
    else match NextToken(s)
      case NoToken => Nothing
      case Scanned(Word(w), rest) => Parse(rest, AddWord(line, w), false)
      case Scanned(NewLine, rest) =>
        if line == [] then Parse(rest, [], true)
        else if EndsInCommand(line) then Line(line, rest)
        else Failed(EndsNotWithACommand, rest)
      case Scanned(Pipe, rest) =>
        if line == [] then SkipLine(rest, PipeWithNoLeftArg)
        else if !EndsInCommand(line) then SkipLine(rest, PipeWithLeftArgNotACommand)
        else Parse(rest, line + [PipeExpr], false)
  }

  function PopNext(s: seq<char>): Pop
    requires Clean(s)
  {
    Parse(s, [], false)
  }

  // ----- What is consumed, and what more input changes -----

  predicate Consumes(p: Pop) { p.Line? || p.Failed? }

  /** The bytes of s before its suffix r end with a new line (a carriage return takes the next byte with it). */
  predicate EndsLine(s: seq<char>, r: seq<char>) {
    && |r| < |s| && Suffix(r, s)
    && var u := |s| - |r|;
       s[u - 1] == '\n' || (u > 1 && s[u - 2] == '\r')
  }

  lemma SuffixOfSuffix(s: seq<char>, m: seq<char>, r: seq<char>)
    requires Suffix(m, s) && Suffix(r, m)
    ensures Suffix(r, s) && (EndsLine(m, r) ==> EndsLine(s, r))
  {
    assert s[|s| - |m|..][|m| - |r|..] == s[|s| - |r|..];
  }

  lemma {:induction false} SpacesLeaveASuffix(s: seq<char>)
    ensures Suffix(SkipSpaces(s), s)
  {
    if s != [] && s[0] == ' ' {
      SpacesLeaveASuffix(s[1..]);
      SuffixOfSuffix(s, s[1..], SkipSpaces(s));
    }
  }

  lemma TokenAtLeavesASuffix(p: seq<char>)
    requires p != [] && Clean(p) && p[0] != ' ' && TokenAt(p).Scanned?
    ensures Suffix(TokenAt(p).rest, p)
    ensures TokenAt(p).token.NewLine? ==> EndsLine(p, TokenAt(p).rest)
  {
  }

  /** A token takes a piece from the front of the bytes; a new line token ends with the end of a line. */
  lemma TokenLeavesASuffix(s: seq<char>)
    requires s != [] && Clean(s) && NextToken(s).Scanned?
    ensures Suffix(NextToken(s).rest, s)
    ensures NextToken(s).token.NewLine? ==> EndsLine(s, NextToken(s).rest)
  {
    var p := SkipSpaces(s);
    SpacesLeaveASuffix(s);
    TokenAtLeavesASuffix(p);
    SuffixOfSuffix(s, p, NextToken(s).rest);
  }

  lemma {:induction false} SkipLineUses(s: seq<char>, error: Error)
    requires Clean(s)
    ensures var p := SkipLine(s, error);
            p.Nothing? || (p.Failed? && p.error == error && EndsLine(s, p.rest))
    decreases |s|
  {
    if s != [] && NextToken(s).Scanned? {
      var n := NextToken(s);
      TokenLeavesASuffix(s);
      if !n.token.NewLine? {
        SkipLineUses(n.rest, error);
        var p := SkipLine(n.rest, error);
        if p.Failed? { SuffixOfSuffix(s, n.rest, p.rest); }
      }
    }
  }

  /**
   * A pop that returns a line or an error uses up at least one byte, and up to the end of a line;
   * the error is never TOO_LATE_ARGUMENTS.
   */
  lemma {:induction false} ParseUses(s: seq<char>, line: seq<Expr>, blank: bool)
    requires Clean(s)
    ensures var p := Parse(s, line, blank);
            && (Consumes(p) ==> EndsLine(s, p.rest))
            && (p.Failed? ==> !p.error.TooLateArguments?)
    decreases |s|
  {
    if s != [] && NextToken(s).Scanned? {
      var n := NextToken(s);
      TokenLeavesASuffix(s);
      if n.token.Pipe? && !EndsInCommand(line) {
        SkipLineUses(n.rest, if line == [] then PipeWithNoLeftArg else PipeWithLeftArgNotACommand);
      } else if !n.token.NewLine? || line == [] {
        ParseUses(n.rest, if n.token.Word? then AddWord(line, n.token.text) else if n.token.Pipe? then line + [PipeExpr] else [],
                  n.token.NewLine?);
      }
      var p := Parse(s, line, blank);
      if Consumes(p) && EndsLine(n.rest, p.rest) { SuffixOfSuffix(s, n.rest, p.rest); }
    }
  }

  lemma {:induction false} SpacesOfConcat(s: seq<char>, t: seq<char>)
    requires SkipSpaces(s) != []
    ensures SkipSpaces(s + t) == SkipSpaces(s) + t
  {
    if s[0] == ' ' {
      assert (s + t)[1..] == s[1..] + t;
      SpacesOfConcat(s[1..], t);
    }
  }

  lemma {:induction false} WordOfConcat(s: seq<char>, t: seq<char>)
    requires WordLength(s) < |s|
    ensures WordLength(s + t) == WordLength(s)
  {
    if !EndsWord(s[0]) {
      assert (s + t)[1..] == s[1..] + t;
      WordOfConcat(s[1..], t);
    }
  }

  lemma TokenAtIsStable(p: seq<char>, t: seq<char>)
    requires p != [] && Clean(p) && Clean(p + t) && p[0] != ' ' && TokenAt(p).Scanned?
    ensures TokenAt(p + t) == Scanned(TokenAt(p).token, TokenAt(p).rest + t)
  {
    if p[0] == '\r' {
      assert (p + t)[2..] == p[2..] + t;
    } else if p[0] == '\n' || p[0] == '|' {
      assert (p + t)[1..] == p[1..] + t;
    } else {
      var m := WordLength(p);
      WordOfConcat(p, t);
      assert (p + t)[..m] == p[..m] && (p + t)[m..] == p[m..] + t;
    }
  }

  /** A token that is complete stays the same when more bytes follow. */
  lemma TokenIsStable(s: seq<char>, t: seq<char>)
    requires s != [] && Clean(s) && Clean(s + t) && NextToken(s).Scanned?
    ensures NextToken(s + t) == Scanned(NextToken(s).token, NextToken(s).rest + t)
  {
    SpacesOfConcat(s, t);
    TokenAtIsStable(SkipSpaces(s), t);
  }

  /** The same outcome with t behind the bytes that stay buffered. */
  function WithMore(p: Pop, t: seq<char>): Pop {
    match p
    case Line(exprs, rest) => Line(exprs, rest + t)
    case Failed(error, rest) => Failed(error, rest + t)
    case _ => p
  }

  lemma CleanTail(r: seq<char>, s: seq<char>, t: seq<char>)
    requires Clean(s + t) && Clean(r)
    ensures Clean(r + t)
  {
    if t != [] { assert (s + t)[|s + t| - 1] == t[|t| - 1] == (r + t)[|r + t| - 1]; }
    else { assert r + t == r; }
  }

  lemma {:induction false} SkipLineIsStable(s: seq<char>, t: seq<char>, error: Error)
    requires Clean(s) && Clean(s + t) && Consumes(SkipLine(s, error))
    ensures SkipLine(s + t, error) == WithMore(SkipLine(s, error), t)
    decreases |s|
  {
    TokenIsStable(s, t);
    var n := NextToken(s);
    if !n.token.NewLine? {
      CleanTail(n.rest, s, t);
      SkipLineIsStable(n.rest, t, error);
    }
  }

  /** Once a line or an error can be popped, more input does not change it. */
  lemma {:induction false} ParseIsStable(s: seq<char>, t: seq<char>, line: seq<Expr>, blank: bool)
    requires Clean(s) && Clean(s + t) && Consumes(Parse(s, line, blank))
    ensures Parse(s + t, line, blank) == WithMore(Parse(s, line, blank), t)
    decreases |s|
  {
    TokenIsStable(s, t);
    var n := NextToken(s);
    CleanTail(n.rest, s, t);
    match n.token
    case Word(w) => ParseIsStable(n.rest, t, AddWord(line, w), false);
    case NewLine => if line == [] { ParseIsStable(n.rest, t, [], true); }
    case Pipe =>
      if line == [] { SkipLineIsStable(n.rest, t, PipeWithNoLeftArg); }
      else if !EndsInCommand(line) { SkipLineIsStable(n.rest, t, PipeWithLeftArgNotACommand); }
      else { ParseIsStable(n.rest, t, line + [PipeExpr], false); }
  }

  // ----- The drain loop -----

  datatype Event = GotLine(exprs: seq<Expr>) | GotError(error: Error)

  function EventOf(p: Pop): Event
    requires Consumes(p)
  {
    if p.Line? then GotLine(p.exprs) else GotError(p.error)
  }

  /** What the loop of main sees until a pop returns (NONE, NULL), and the bytes that stay buffered. */
  datatype Drained = Drained(events: seq<Event>, rest: seq<char>, aborted: bool)

  function Drain(s: seq<char>): (d: Drained)
    requires Clean(s)
    ensures Clean(d.rest) && |d.rest| <= |s|
    decreases |s|
  {
    var p := PopNext(s);
    if Consumes(p) then
      ParseUses(s, [], false);
      var d := Drain(p.rest);
      Then([EventOf(p)], d)
    else
      Drained([], s, p.Abort?)
  }

  lemma PopIsStable(s: seq<char>, t: seq<char>)
    requires Clean(s) && Clean(s + t) && Consumes(PopNext(s))
    ensures PopNext(s + t) == WithMore(PopNext(s), t)
    ensures EndsLine(s, PopNext(s).rest) && Clean(PopNext(s).rest + t)
  {
    ParseUses(s, [], false);
    ParseIsStable(s, t, [], false);
    CleanTail(PopNext(s).rest, s, t);
  }

  function Then(events: seq<Event>, d: Drained): Drained {
    d.(events := events + d.events)
  }

  lemma ThenThen(x: seq<Event>, y: seq<Event>, d: Drained)
    ensures Then(x, Then(y, d)) == Then(x + y, d)
  {
    assert x + (y + d.events) == x + y + d.events;
  }

  lemma DrainStep(s: seq<char>)
    requires Clean(s) && Consumes(PopNext(s))
    ensures Clean(PopNext(s).rest) && Drain(s) == Then([EventOf(PopNext(s))], Drain(PopNext(s).rest))
  {
    ParseUses(s, [], false);
  }

  /** Draining what is there and then, with more input, the rest, sees the same as draining all at once. */
  lemma {:induction false} DrainInTwoSteps(a: seq<char>, b: seq<char>)
    requires Clean(a) && Clean(a + b) && Clean(Drain(a).rest + b)
    ensures Drain(a + b) == Then(Drain(a).events, Drain(Drain(a).rest + b))
    decreases |a|
  {
    var p := PopNext(a);
    if Consumes(p) {
      PopIsStable(a, b);
      DrainStep(a);
      DrainStep(a + b);
      DrainInTwoSteps(p.rest, b);
      ThenThen([EventOf(p)], Drain(p.rest).events, Drain(Drain(p.rest).rest + b));
    } else {
      assert [] + Drain(a + b).events == Drain(a + b).events;
    }
  }

  /** All chunks one after another. */
  function Flat(chunks: seq<seq<char>>): seq<char> {
    if chunks == [] then [] else Flat(chunks[..|chunks| - 1]) + chunks[|chunks| - 1]
  }

  /** No read ends in a space or carriage return. */
  predicate CleanChunks(chunks: seq<seq<char>>) {
    forall i :: 0 <= i < |chunks| ==> chunks[i] != [] && Clean(chunks[i])
  }

  lemma FlatIsClean(chunks: seq<seq<char>>)
    requires CleanChunks(chunks)
    ensures Clean(Flat(chunks))
  {
    if chunks != [] {
      var last := chunks[|chunks| - 1];
      assert Flat(chunks)[|Flat(chunks)| - 1] == last[|last| - 1];
    }
  }

  /** The outer loop of main: feed a chunk, drain, and so on; it ends at once when the parser aborts. */
  function FeedAll(chunks: seq<seq<char>>): (d: Drained)
    requires CleanChunks(chunks)
    ensures Clean(d.rest)
  {
    if chunks == [] then Drained([], [], false)
    else
      var last := chunks[|chunks| - 1];
      var before := FeedAll(chunks[..|chunks| - 1]);
      if before.aborted then before
      else
        var d := Drain(before.rest + last);
        Then(before.events, d)
  }

  /** Cutting the input into chunks changes neither lines nor errors nor what stays buffered. */
  lemma {:induction false} ChunksDoNotMatter(chunks: seq<seq<char>>)
    requires CleanChunks(chunks) && (chunks == [] || !FeedAll(chunks[..|chunks| - 1]).aborted)
    ensures Clean(Flat(chunks)) && FeedAll(chunks) == Drain(Flat(chunks))
  {
    FlatIsClean(chunks);
    if chunks != [] {
      var before := chunks[..|chunks| - 1];
      FlatIsClean(before);
      ChunksDoNotMatter(before);
      DrainInTwoSteps(Flat(before), chunks[|chunks| - 1]);
    }
  }
}
