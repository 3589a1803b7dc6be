/**
 * The shell's parser undoes a printer of pipelines, and pops nothing but what that printer prints
 * (sems/4week/myshell/src/parser.c:154-294, sems/4week/myshell/src/main.c:18-38).
 */
module ShellPrinter {
  import opened ShellGrammar
  import opened ShellLines

  // ----- Command lines -----

  predicate GoodExpr(e: Expr, i: nat) {
    if i % 2 == 0 then e.Command? && e.args != [] && forall j :: 0 <= j < |e.args| ==> GoodWord(e.args[j])
    else e.PipeExpr?
  }

  /** Commands and pipes alternate, beginning with a command of at least one word. */
  predicate Alternates(line: seq<Expr>) {
    forall i :: 0 <= i < |line| ==> GoodExpr(line[i], i)
  }

  /** ... and end with a command. */
  predicate GoodLine(line: seq<Expr>) {
    Alternates(line) && |line| % 2 == 1
  }

  lemma EndsInCommandIfOdd(line: seq<Expr>)
    requires Alternates(line)
    ensures EndsInCommand(line) <==> |line| % 2 == 1
  {
    if line != [] { assert GoodExpr(line[|line| - 1], |line| - 1); }
  }

  function Push(line: seq<Expr>, t: Token): seq<Expr> {
    match t
    case Word(w) => AddWord(line, w)
    case Pipe => line + [PipeExpr]
    case NewLine => line
  }

  lemma PushAlternates(line: seq<Expr>, t: Token)
    requires Alternates(line) && GoodToken(t) && (t.Pipe? ==> EndsInCommand(line))
    ensures Alternates(Push(line, t))
  {
    EndsInCommandIfOdd(line);
    var r := Push(line, t);
    forall i | 0 <= i < |r| ensures GoodExpr(r[i], i) {
      if i < |line| { assert GoodExpr(line[i], i); }
    }
  }

  // ----- Words and pipes of a line -----

  function Words(args: seq<seq<char>>): seq<Token> {
    if args == [] then [] else Words(args[..|args| - 1]) + [Word(args[|args| - 1])]
  }

  function ExprTokens(e: Expr): seq<Token> {
    if e.PipeExpr? then [Pipe] else Words(e.args)
  }

  function Tokens(line: seq<Expr>): seq<Token> {
    if line == [] then [] else Tokens(line[..|line| - 1]) + ExprTokens(line[|line| - 1])
  }

  function Build(line: seq<Expr>, ts: seq<Token>): seq<Expr>
    decreases |ts|
  {
    if ts == [] then line else Build(Push(line, ts[0]), ts[1..])
  }

  /** No pipe without a command to its left. */
  predicate Acceptable(line: seq<Expr>, ts: seq<Token>)
    decreases |ts|
  {
    ts != [] ==>
      && GoodToken(ts[0]) && !ts[0].NewLine? && (ts[0].Pipe? ==> EndsInCommand(line))
      && Acceptable(Push(line, ts[0]), ts[1..])
  }

  lemma TokensOfPush(line: seq<Expr>, t: Token)
    requires !t.NewLine?
    ensures Tokens(Push(line, t)) == Tokens(line) + [t]
  {
    var r := Push(line, t);
    if t.Word? && EndsInCommand(line) {
      var args := line[|line| - 1].args + [t.text];
      assert r[..|r| - 1] == line[..|line| - 1] && args[..|args| - 1] == line[|line| - 1].args;
      assert Tokens(line[..|line| - 1]) + (Words(line[|line| - 1].args) + [t])
          == Tokens(line[..|line| - 1]) + Words(line[|line| - 1].args) + [t];
    } else {
      assert r[..|r| - 1] == line;
      if t.Word? {
        var args := [t.text];
        assert args[..0] == [] && Words(args) == [t];
      }
    }
  }

  lemma FirstAndRest<T>(a: seq<T>, b: seq<T>)
    requires b != []
    ensures a + [b[0]] + b[1..] == a + b
  {
  }

  lemma {:induction false} TokensOfBuild(line: seq<Expr>, ts: seq<Token>)
    requires Acceptable(line, ts)
    ensures Tokens(Build(line, ts)) == Tokens(line) + ts
    decreases |ts|
  {
    if ts != [] {
      var line' := Push(line, ts[0]);
      TokensOfBuild(line', ts[1..]);
      TokensOfPush(line, ts[0]);
      FirstAndRest(Tokens(line), ts);
    }
  }

  lemma BuildOne(line: seq<Expr>, t: Token)
    ensures Build(line, [t]) == Push(line, t)
    ensures Acceptable(line, [t]) <==> GoodToken(t) && !t.NewLine? && (t.Pipe? ==> EndsInCommand(line))
  {
    assert [t][1..] == [];
  }

  lemma {:induction false} BuildOfConcat(line: seq<Expr>, a: seq<Token>, b: seq<Token>)
    ensures Build(line, a + b) == Build(Build(line, a), b)
    ensures Acceptable(line, a) && Acceptable(Build(line, a), b) ==> Acceptable(line, a + b)
    decreases |a|
  {
    if a == [] {
      assert a + b == b;
    } else {
      assert (a + b)[1..] == a[1..] + b;
      BuildOfConcat(Push(line, a[0]), a[1..], b);
    }
  }

  lemma {:induction false} BuildWords(line: seq<Expr>, args: seq<seq<char>>)
    requires !EndsInCommand(line) && args != []
    requires forall j :: 0 <= j < |args| ==> GoodWord(args[j])
    ensures Build(line, Words(args)) == line + [Command(args)] && Acceptable(line, Words(args))
  {
    var first := args[..|args| - 1];
    var last := Word(args[|args| - 1]);
    assert first + [args[|args| - 1]] == args;
    BuildOfConcat(line, Words(first), [last]);
    BuildOne(Build(line, Words(first)), last);
    if first != [] {
      BuildWords(line, first);
      assert (line + [Command(first)])[|line| := Command(args)] == line + [Command(args)];
    }
  }

  lemma BuildExpr(line: seq<Expr>, e: Expr)
    requires Alternates(line) && GoodExpr(e, |line|)
    ensures Build(line, ExprTokens(e)) == line + [e] && Acceptable(line, ExprTokens(e))
  {
    EndsInCommandIfOdd(line);
    if e.Command? { BuildWords(line, e.args); } else { BuildOne(line, Pipe); }
  }

  lemma AlternatesBefore(line: seq<Expr>)
    requires Alternates(line) && line != []
    ensures Alternates(line[..|line| - 1]) && GoodExpr(line[|line| - 1], |line| - 1)
    ensures line == line[..|line| - 1] + [line[|line| - 1]]
  {
  }

  /** The words and pipes of a good line build that line again. */
  lemma {:induction false} BuildTokens(line: seq<Expr>)
    requires Alternates(line)
    ensures Build([], Tokens(line)) == line && Acceptable([], Tokens(line))
  {
    if line != [] {
      AlternatesBefore(line);
      var before := line[..|line| - 1];
      var e := line[|line| - 1];
      BuildTokens(before);
      BuildExpr(before, e);
      BuildOfConcat([], Tokens(before), ExprTokens(e));
    }
  }

  // ----- The printer -----

  /** Tokens with the given number of spaces before each. */
  function Spell(ts: seq<Token>, gaps: seq<nat>): seq<char>
    requires |gaps| == |ts|
  {
    if ts == [] then [] else Spaces(gaps[0]) + TokenText(ts[0]) + Spell(ts[1..], gaps[1..])
  }

  /** What follows a word is kept apart from it. */
  predicate KeepsWordsApart(ts: seq<Token>, gaps: seq<nat>)
    requires |gaps| == |ts|
  {
    forall i :: 0 < i < |ts| && ts[i - 1].Word? ==> gaps[i] > 0
  }

  /** Blank lines before a pipeline, the spaces before its words and pipes, and those before the end of line. */
  datatype Layout = Layout(blanks: seq<char>, gaps: seq<nat>, end: nat)

  predicate Fits(line: seq<Expr>, lay: Layout) {
    && |lay.gaps| == |Tokens(line)| && KeepsWordsApart(Tokens(line), lay.gaps)
    && NoReturn(lay.blanks) && Blank(lay.blanks) && (lay.blanks == [] || lay.blanks[|lay.blanks| - 1] == '\n')
  }

  function Ending(end: nat, rest: seq<char>): seq<char> {
    Spaces(end) + ['\n'] + rest
  }

  /** A spelled line and what follows it. */
  function Spelled(ts: seq<Token>, gaps: seq<nat>, end: nat, rest: seq<char>): seq<char>
    requires |gaps| == |ts|
  {
    Spell(ts, gaps) + Ending(end, rest)
  }

  function Printed(line: seq<Expr>, lay: Layout, rest: seq<char>): seq<char>
    requires Fits(line, lay)
  {
    lay.blanks + Spelled(Tokens(line), lay.gaps, lay.end, rest)
  }

  // ----- Printed lines are popped -----

  lemma CleanConcat(a: seq<char>, b: seq<char>)
    requires Clean(a + b)
    ensures Clean(b)
  {
    LastOfConcat(a, b);
  }

  lemma EndingStarts(end: nat, rest: seq<char>)
    ensures Ending(end, rest) != [] && EndsWord(Ending(end, rest)[0])
    ensures end > 0 ==> Ending(end, rest)[0] == ' '
    ensures Ending(0, rest)[0] == '\n'
  {
  }

  lemma SpellStarts(ts: seq<Token>, gaps: seq<nat>, end: nat, rest: seq<char>)
    requires |gaps| == |ts| && (ts != [] ==> gaps[0] > 0)
    ensures var s := Spell(ts, gaps) + Ending(end, rest);
            s != [] && EndsWord(s[0])
  {
    EndingStarts(end, rest);
    if ts == [] {
      assert Spell(ts, gaps) + Ending(end, rest) == Ending(end, rest);
    } else {
      assert (Spell(ts, gaps) + Ending(end, rest))[0] == Spaces(gaps[0])[0];
    }
  }

  lemma SpellFirst(ts: seq<Token>, gaps: seq<nat>, tail: seq<char>)
    requires |gaps| == |ts| && ts != [] && KeepsWordsApart(ts, gaps)
    ensures Spell(ts, gaps) + tail == Spaces(gaps[0]) + TokenText(ts[0]) + (Spell(ts[1..], gaps[1..]) + tail)
    ensures KeepsWordsApart(ts[1..], gaps[1..])
  {
    assert forall i :: 0 <= i < |ts| - 1 ==> ts[1..][i] == ts[i + 1] && gaps[1..][i] == gaps[i + 1];
  }

  lemma SpelledStep(ts: seq<Token>, gaps: seq<nat>, end: nat, rest: seq<char>)
    requires |gaps| == |ts| && ts != [] && KeepsWordsApart(ts, gaps) && GoodToken(ts[0]) && Clean(Spelled(ts, gaps, end, rest))
    ensures KeepsWordsApart(ts[1..], gaps[1..]) && Clean(Spelled(ts[1..], gaps[1..], end, rest))
    ensures Spelled(ts, gaps, end, rest) != []
    ensures NextToken(Spelled(ts, gaps, end, rest)) == Scanned(ts[0], Spelled(ts[1..], gaps[1..], end, rest))
  {
    var more := Spelled(ts[1..], gaps[1..], end, rest);
    SpellFirst(ts, gaps, Ending(end, rest));
    CleanConcat(Spaces(gaps[0]) + TokenText(ts[0]), more);
    if ts[0].Word? { SpellStarts(ts[1..], gaps[1..], end, rest); }
    SpelledIsToken(gaps[0], ts[0], more);
  }

  lemma EndingStep(end: nat, rest: seq<char>)
    requires Clean(rest)
    ensures var s := Spelled([], [], end, rest);
            Clean(s) && s != [] && NextToken(s) == Scanned(NewLine, rest)
  {
    assert Spelled([], [], end, rest) == Spaces(end) + TokenText(NewLine) + rest;
    SpelledIsToken(end, NewLine, rest);
  }

  lemma RestIsClean(ts: seq<Token>, gaps: seq<nat>, end: nat, rest: seq<char>)
    requires |gaps| == |ts| && Clean(rest)
    ensures Clean(Spelled(ts, gaps, end, rest)) && Spelled(ts, gaps, end, rest) != []
  {
    EndingStarts(end, rest);
    LastOfConcat(Spaces(end) + ['\n'], rest);
    LastOfConcat(Spell(ts, gaps), Ending(end, rest));
  }

  lemma {:induction false} SpelledIsBuilt(ts: seq<Token>, gaps: seq<nat>, end: nat, rest: seq<char>, line: seq<Expr>, blank: bool)
    requires |gaps| == |ts| && KeepsWordsApart(ts, gaps) && Acceptable(line, ts) && Clean(rest)
    requires EndsInCommand(Build(line, ts)) && Clean(Spelled(ts, gaps, end, rest))
    ensures Parse(Spelled(ts, gaps, end, rest), line, blank) == Line(Build(line, ts), rest)
    decreases |ts|
  {
    if ts == [] {
      EndingStep(end, rest);
    } else {
      SpelledStep(ts, gaps, end, rest);
      SpelledIsBuilt(ts[1..], gaps[1..], end, rest, Push(line, ts[0]), false);
    }
  }

  /** Blank lines in front of other bytes are skipped. */
  lemma {:induction false} BlanksAreSkipped(blanks: seq<char>, s: seq<char>, blank: bool)
    requires Blank(blanks) && NoReturn(blanks) && (blanks == [] || blanks[|blanks| - 1] == '\n')
    requires Clean(s) && Clean(blanks + s) && s != []
    ensures Consumes(Parse(s, [], false)) ==> Parse(blanks + s, [], blank) == Parse(s, [], false)
    decreases |blanks|
  {
    if blanks == [] {
      assert blanks + s == s;
    } else {
      var k := SkippedSpaces(blanks);
      var p := SkipSpaces(blanks);
      BlankAfterSpaces(blanks);
      assert p[0] in blanks && p == [p[0]] + p[1..];
      assert blanks + s == Spaces(k) + TokenText(NewLine) + (p[1..] + s);
      assert forall c :: c in p[1..] ==> c in p && c in blanks;
      CleanConcat(Spaces(k) + ['\n'], p[1..] + s);
      SpelledIsToken(k, NewLine, p[1..] + s);
      BlanksAreSkipped(p[1..], s, true);
    }
  }

  /** Popping a printed line gives the line and leaves what follows. */
  lemma PrintedIsPopped(line: seq<Expr>, lay: Layout, rest: seq<char>)
    requires GoodLine(line) && Fits(line, lay) && Clean(rest)
    ensures var s := Printed(line, lay, rest);
            Clean(s) && PopNext(s) == Line(line, rest)
  {
    var body := Spelled(Tokens(line), lay.gaps, lay.end, rest);
    RestIsClean(Tokens(line), lay.gaps, lay.end, rest);
    LastOfConcat(lay.blanks, body);
    BuildTokens(line);
    EndsInCommandIfOdd(line);
    SpelledIsBuilt(Tokens(line), lay.gaps, lay.end, rest, [], false);
    BlanksAreSkipped(lay.blanks, body, false);
  }

  // ----- Popped lines are printed -----

  predicate IsPrinted(s: seq<char>, line: seq<Expr>, lay: Layout, rest: seq<char>) {
    GoodLine(line) && Fits(line, lay) && s == Printed(line, lay, rest)
  }

  lemma SpelledCons(s: seq<char>, k: nat, t: Token, ts: seq<Token>, gaps: seq<nat>, end: nat, rest: seq<char>, line: seq<Expr>)
    requires |gaps| == |ts| && KeepsWordsApart(ts, gaps) && (ts != [] && t.Word? ==> gaps[0] > 0)
    requires s == Spaces(k) + TokenText(t) + Spelled(ts, gaps, end, rest)
    requires GoodToken(t) && !t.NewLine? && (t.Pipe? ==> EndsInCommand(line)) && Acceptable(Push(line, t), ts)
    ensures KeepsWordsApart([t] + ts, [k] + gaps) && s == Spelled([t] + ts, [k] + gaps, end, rest)
    ensures Acceptable(line, [t] + ts) && Build(line, [t] + ts) == Build(Push(line, t), ts)
  {
    assert ([t] + ts)[1..] == ts && ([k] + gaps)[1..] == gaps;
  }

  /** In a line that gets popped every pipe has a command to its left. */
  lemma PipeFollowsCommand(s: seq<char>, line: seq<Expr>, blank: bool)
    requires s != [] && Clean(s) && Parse(s, line, blank).Line?
    ensures NextToken(s).Scanned?
    ensures var n := NextToken(s);
            && (n.token.Pipe? ==> EndsInCommand(line))
            && (!n.token.NewLine? ==> Parse(s, line, blank) == Parse(n.rest, Push(line, n.token), false))
            && (n.token.NewLine? && line != [] ==> Parse(s, line, blank) == Line(line, n.rest) && EndsInCommand(line))
  {
    var n := NextToken(s);
    SkipLineUses(n.rest, PipeWithNoLeftArg);
    SkipLineUses(n.rest, PipeWithLeftArgNotACommand);
  }

  /** From the first token of a line on, the bytes of a popped line are its tokens spelled out. */
  lemma {:induction false} LineIsSpelled(s: seq<char>, line: seq<Expr>, blank: bool)
    returns (ts: seq<Token>, gaps: seq<nat>, end: nat)
    requires Clean(s) && NoReturn(s) && Alternates(line) && Parse(s, line, blank).Line?
    requires line != [] || !NextToken(s).token.NewLine?
    ensures var p := Parse(s, line, blank);
            && |gaps| == |ts| && KeepsWordsApart(ts, gaps) && Acceptable(line, ts)
            && p.exprs == Build(line, ts) && GoodLine(p.exprs)
            && s == Spelled(ts, gaps, end, p.rest)
    ensures ts != [] && EndsWord(s[0]) ==> gaps[0] > 0
    decreases |s|
  {
    PipeFollowsCommand(s, line, blank);
    var n := NextToken(s);
    var k := TokenIsSpelled(s);
    if n.token.NewLine? {
      EndsInCommandIfOdd(line);
      ts, gaps, end := [], [], k;
    } else {
      assert s[0] in s;
      NewLineStarts(s);
      PushAlternates(line, n.token);
      ts, gaps, end := LineIsSpelled(n.rest, Push(line, n.token), false);
      SpelledCons(s, k, n.token, ts, gaps, end, Parse(s, line, blank).rest, line);
      ts, gaps := [n.token] + ts, [k] + gaps;
    }
  }

  lemma NewLineStarts(s: seq<char>)
    requires s != [] && Clean(s)
    ensures s[0] == '\n' ==> NextToken(s).Scanned? && NextToken(s).token.NewLine?
  {
  }

  lemma BlankCons(k: nat, blanks: seq<char>)
    requires NoReturn(blanks) && Blank(blanks) && (blanks == [] || blanks[|blanks| - 1] == '\n')
    ensures var b := Spaces(k) + ['\n'] + blanks;
            NoReturn(b) && Blank(b) && b[|b| - 1] == '\n'
  {
    var p := ['\n'] + blanks;
    assert p[1..] == blanks;
    SpacesAreSkipped(k, p);
    assert Spaces(k) + ['\n'] + blanks == Spaces(k) + p;
    BlankAfterSpaces(Spaces(k) + p);
    LastOfConcat(Spaces(k) + ['\n'], blanks);
  }

  lemma BlankLineInFront(s: seq<char>, k: nat, m: seq<char>, line: seq<Expr>, lay: Layout, rest: seq<char>) returns (r: Layout)
    requires s == Spaces(k) + ['\n'] + m && IsPrinted(m, line, lay, rest)
    ensures IsPrinted(s, line, r, rest)
  {
    BlankCons(k, lay.blanks);
    r := lay.(blanks := Spaces(k) + ['\n'] + lay.blanks);
    var body := Spelled(Tokens(line), lay.gaps, lay.end, rest);
    assert Spaces(k) + ['\n'] + (lay.blanks + body) == r.blanks + body;
  }

  lemma SpelledIsPrinted(ts: seq<Token>, gaps: seq<nat>, end: nat, rest: seq<char>)
    requires |gaps| == |ts| && KeepsWordsApart(ts, gaps) && Acceptable([], ts) && GoodLine(Build([], ts))
    ensures IsPrinted(Spelled(ts, gaps, end, rest), Build([], ts), Layout([], gaps, end), rest)
  {
    TokensOfBuild([], ts);
    assert Tokens([]) + ts == ts;
    assert [] + Spelled(ts, gaps, end, rest) == Spelled(ts, gaps, end, rest);
  }

  lemma {:induction false} PoppedIsPrinted(s: seq<char>, blank: bool) returns (lay: Layout)
    requires Clean(s) && NoReturn(s) && Parse(s, [], blank).Line?
    ensures var p := Parse(s, [], blank);
            IsPrinted(s, p.exprs, lay, p.rest)
    decreases |s|
  {
    var n := NextToken(s);
    if n.token.NewLine? {
      var k := TokenIsSpelled(s);
      lay := PoppedIsPrinted(n.rest, true);
      var p := Parse(n.rest, [], true);
      lay := BlankLineInFront(s, k, n.rest, p.exprs, lay, p.rest);
    } else {
      var ts, gaps, end := LineIsSpelled(s, [], blank);
      SpelledIsPrinted(ts, gaps, end, Parse(s, [], blank).rest);
      lay := Layout([], gaps, end);
    }
  }

  /** The parser pops a line exactly when the bytes are that line, printed in some layout, and what follows. */
  lemma PopsExactlyPrintedLines(s: seq<char>, line: seq<Expr>, rest: seq<char>)
    requires Clean(s) && NoReturn(s)
    ensures PopNext(s) == Line(line, rest) <==> exists lay :: IsPrinted(s, line, lay, rest)
  {
    if PopNext(s) == Line(line, rest) {
      var lay := PoppedIsPrinted(s, false);
      assert IsPrinted(s, line, lay, rest);
    }
    forall lay | IsPrinted(s, line, lay, rest) ensures PopNext(s) == Line(line, rest) {
      var body := Spelled(Tokens(line), lay.gaps, lay.end, rest);
      CleanConcat(lay.blanks, body);
      CleanConcat(Spell(Tokens(line), lay.gaps), Ending(lay.end, rest));
      CleanConcat(Spaces(lay.end) + ['\n'], rest);
      PrintedIsPopped(line, lay, rest);
    }
  }

  // ----- Faulty lines -----

  predicate GoodTokens(ts: seq<Token>) {
    forall i :: 0 <= i < |ts| ==> GoodToken(ts[i]) && !ts[i].NewLine?
  }

  predicate TwoPipesMeet(ts: seq<Token>) {
    exists i :: 0 < i < |ts| && ts[i].Pipe? && ts[i - 1].Pipe?
  }

  /** What is wrong with a line that does not begin a pipeline's first command anew: `prev` is its last token. */
  function Fault(prev: Token, ts: seq<Token>): Error {
    if TwoPipesMeet([prev] + ts) then PipeWithLeftArgNotACommand else EndsNotWithACommand
  }

  predicate Faulty(prev: Token, ts: seq<Token>) {
    TwoPipesMeet([prev] + ts) || ([prev] + ts)[|ts|].Pipe?
  }

  lemma PipesMeetLater(prev: Token, ts: seq<Token>)
    requires ts != []
    ensures TwoPipesMeet([prev] + ts) <==> (prev.Pipe? && ts[0].Pipe?) || TwoPipesMeet([ts[0]] + ts[1..])
  {
    var a := [prev] + ts;
    assert [ts[0]] + ts[1..] == ts;
    if TwoPipesMeet(a) {
      var i :| 0 < i < |a| && a[i].Pipe? && a[i - 1].Pipe?;
      assert a[i] == ts[i - 1] && (i > 1 ==> a[i - 1] == ts[i - 2]);
    }
    if TwoPipesMeet(ts) {
      var i :| 0 < i < |ts| && ts[i].Pipe? && ts[i - 1].Pipe?;
      assert a[i + 1].Pipe? && a[i].Pipe?;
    }
    assert prev.Pipe? && ts[0].Pipe? ==> a[1].Pipe? && a[0].Pipe?;
  }

  lemma FaultLater(prev: Token, ts: seq<Token>)
    requires ts != []
    ensures prev.Pipe? && ts[0].Pipe? ==> Fault(prev, ts).PipeWithLeftArgNotACommand?
    ensures !(prev.Pipe? && ts[0].Pipe?) ==> Fault(ts[0], ts[1..]) == Fault(prev, ts)
    ensures !(prev.Pipe? && ts[0].Pipe?) && Faulty(prev, ts) ==> Faulty(ts[0], ts[1..])
  {
    PipesMeetLater(prev, ts);
    assert ([prev] + ts)[|ts|] == ts[|ts| - 1] == ([ts[0]] + ts[1..])[|ts| - 1];
  }

  lemma GoodTokensTail(ts: seq<Token>)
    requires GoodTokens(ts) && ts != []
    ensures GoodTokens(ts[1..]) && GoodToken(ts[0])
  {
  }

  /** The loop body of parser_pop_next on a word or a pipe. */
  lemma ParseStep(s: seq<char>, line: seq<Expr>, blank: bool)
    requires s != [] && Clean(s) && NextToken(s).Scanned? && !NextToken(s).token.NewLine?
    ensures var n := NextToken(s);
            Parse(s, line, blank) ==
              if n.token.Pipe? && line == [] then SkipLine(n.rest, PipeWithNoLeftArg)
              else if n.token.Pipe? && !EndsInCommand(line) then SkipLine(n.rest, PipeWithLeftArgNotACommand)
              else Parse(n.rest, Push(line, n.token), false)
  {
  }

  lemma {:induction false} SpelledIsSkipped(ts: seq<Token>, gaps: seq<nat>, end: nat, rest: seq<char>, error: Error)
    requires |gaps| == |ts| && KeepsWordsApart(ts, gaps) && GoodTokens(ts)
    requires Clean(rest) && Clean(Spelled(ts, gaps, end, rest))
    ensures SkipLine(Spelled(ts, gaps, end, rest), error) == Failed(error, rest)
    decreases |ts|
  {
    if ts == [] {
      EndingStep(end, rest);
    } else {
      SpelledStep(ts, gaps, end, rest);
      SpelledIsSkipped(ts[1..], gaps[1..], end, rest, error);
    }
  }

  lemma {:induction false} FaultyIsReported(prev: Token, ts: seq<Token>, gaps: seq<nat>, end: nat, rest: seq<char>, line: seq<Expr>)
    requires |gaps| == |ts| && KeepsWordsApart(ts, gaps) && GoodTokens(ts)
    requires Clean(rest) && Clean(Spelled(ts, gaps, end, rest))
    requires line != [] && (EndsInCommand(line) <==> prev.Word?) && !prev.NewLine?
    requires Faulty(prev, ts)
    ensures Parse(Spelled(ts, gaps, end, rest), line, false) == Failed(Fault(prev, ts), rest)
    decreases |ts|
  {
    if ts == [] {
      EndingStep(end, rest);
    } else {
      SpelledStep(ts, gaps, end, rest);
      FaultLater(prev, ts);
      ParseStep(Spelled(ts, gaps, end, rest), line, false);
      GoodTokensTail(ts);
      if ts[0].Pipe? && prev.Pipe? {
        SpelledIsSkipped(ts[1..], gaps[1..], end, rest, PipeWithLeftArgNotACommand);
      } else {
        FaultyIsReported(ts[0], ts[1..], gaps[1..], end, rest, Push(line, ts[0]));
      }
    }
  }

  /** A line of words and pipes that is no pipeline. */
  predicate FaultyLine(ts: seq<Token>) {
    GoodTokens(ts) && ts != [] && (ts[0].Pipe? || TwoPipesMeet(ts) || ts[|ts| - 1].Pipe?)
  }

  lemma FaultOfLine(ts: seq<Token>)
    requires FaultyLine(ts) && !ts[0].Pipe?
    ensures Faulty(ts[0], ts[1..])
    ensures Fault(ts[0], ts[1..]) == if TwoPipesMeet(ts) then PipeWithLeftArgNotACommand else EndsNotWithACommand
  {
    assert [ts[0]] + ts[1..] == ts;
  }

  lemma FaultyLineFails(ts: seq<Token>, gaps: seq<nat>, end: nat, rest: seq<char>)
    requires |gaps| == |ts| && KeepsWordsApart(ts, gaps) && FaultyLine(ts) && Clean(rest)
    ensures var s := Spelled(ts, gaps, end, rest);
            && Clean(s) && s != []
            && PopNext(s) == Failed(if ts[0].Pipe? then PipeWithNoLeftArg
                                    else if TwoPipesMeet(ts) then PipeWithLeftArgNotACommand
                                    else EndsNotWithACommand, rest)
  {
    RestIsClean(ts, gaps, end, rest);
    SpelledStep(ts, gaps, end, rest);
    ParseStep(Spelled(ts, gaps, end, rest), [], false);
    GoodTokensTail(ts);
    if ts[0].Pipe? {
      SpelledIsSkipped(ts[1..], gaps[1..], end, rest, PipeWithNoLeftArg);
    } else {
      FaultOfLine(ts);
      FaultyIsReported(ts[0], ts[1..], gaps[1..], end, rest, Push([], ts[0]));
    }
  }

  /**
   * A spelled line that is no pipeline is taken as a whole, with the blank lines before it, and reported:
   * as a pipe without a left argument if it begins with a pipe, else as a pipe behind no command if two
   * pipes meet, else as ending in a pipe.
   */
  lemma FaultyLineIsReported(blanks: seq<char>, ts: seq<Token>, gaps: seq<nat>, end: nat, rest: seq<char>)
    requires NoReturn(blanks) && Blank(blanks) && (blanks == [] || blanks[|blanks| - 1] == '\n')
    requires |gaps| == |ts| && KeepsWordsApart(ts, gaps) && FaultyLine(ts) && Clean(rest)
    ensures var s := blanks + Spelled(ts, gaps, end, rest);
            && Clean(s)
            && PopNext(s) == Failed(if ts[0].Pipe? then PipeWithNoLeftArg
                                    else if TwoPipesMeet(ts) then PipeWithLeftArgNotACommand
                                    else EndsNotWithACommand, rest)
  {
    var body := Spelled(ts, gaps, end, rest);
    FaultyLineFails(ts, gaps, end, rest);
    LastOfConcat(blanks, body);
    BlanksAreSkipped(blanks, body, false);
  }

  // ----- Whole sessions -----

  function PrintAll(lines: seq<seq<Expr>>, lays: seq<Layout>): seq<char>
    requires |lays| == |lines| && forall i :: 0 <= i < |lines| ==> Fits(lines[i], lays[i])
  {
    if lines == [] then [] else Printed(lines[0], lays[0], PrintAll(lines[1..], lays[1..]))
  }

  function LineEvents(lines: seq<seq<Expr>>): seq<Event> {
    if lines == [] then [] else [GotLine(lines[0])] + LineEvents(lines[1..])
  }

  /** Draining printed lines gives those lines, all of them and nothing else. */
  lemma {:induction false} PrintedAreDrained(lines: seq<seq<Expr>>, lays: seq<Layout>)
    requires |lays| == |lines| && forall i :: 0 <= i < |lines| ==> GoodLine(lines[i]) && Fits(lines[i], lays[i])
    ensures Clean(PrintAll(lines, lays)) && Drain(PrintAll(lines, lays)) == Drained(LineEvents(lines), [], false)
    decreases |lines|
  {
    if lines != [] {
      var rest := PrintAll(lines[1..], lays[1..]);
      PrintedAreDrained(lines[1..], lays[1..]);
      PrintedIsPopped(lines[0], lays[0], rest);
      DrainStep(PrintAll(lines, lays));
    }
  }

  /** However the printed lines arrive, the shell gets to see just these lines, unless a read ends behind a blank line. */
  lemma PrintedArriveInChunks(lines: seq<seq<Expr>>, lays: seq<Layout>, chunks: seq<seq<char>>)
    requires |lays| == |lines| && forall i :: 0 <= i < |lines| ==> GoodLine(lines[i]) && Fits(lines[i], lays[i])
    requires CleanChunks(chunks) && Flat(chunks) == PrintAll(lines, lays) && NoReturn(Flat(chunks))
    ensures !ReadsABlankLine(chunks) ==> FeedAll(chunks) == Drained(LineEvents(lines), [], false)
  {
    PrintedAreDrained(lines, lays);
    SessionAbortsExactlyAfterABlankLine(chunks);
    if !FeedAll(chunks).aborted { ChunksDoNotMatter(chunks); }
  }
}
