/**
 * Which texts the shell's parser turns into which command lines
 * (sems/4week/myshell/src/parser.c:154-294, sems/4week/myshell/src/main.c:18-38).
 */
module ShellLines {
  import opened ShellGrammar

  // ----- How a token is spelled -----

  function Spaces(k: nat): (s: seq<char>)
    ensures |s| == k
    ensures forall i :: 0 <= i < k ==> s[i] == ' '
  {
    if k == 0 then [] else [' '] + Spaces(k - 1)
  }

  function TokenText(t: Token): (r: seq<char>)
  {
    match t
    case Word(w) => w
    case NewLine => ['\n']
    case Pipe => ['|']
  }

  /** A word as a user can type it. */
  predicate GoodWord(w: seq<char>) {
    w != [] && w[0] != '|' && forall i :: 0 <= i < |w| ==> !EndsWord(w[i])
  }

  predicate GoodToken(t: Token) { t.Word? ==> GoodWord(t.text) }

  predicate NoReturn(s: seq<char>) { '\r' !in s }

  lemma {:induction false} WordHasNoEnd(s: seq<char>)
    ensures forall i :: 0 <= i < WordLength(s) ==> !EndsWord(s[i])
  {
    if s != [] && !EndsWord(s[0]) { WordHasNoEnd(s[1..]); }
  }

  lemma {:induction false} SkippedSpaces(s: seq<char>) returns (k: nat)
    ensures s == Spaces(k) + SkipSpaces(s)
    ensures s != [] && s[0] == ' ' ==> k > 0
  {
    k := 0;
    if s != [] && s[0] == ' ' {
      k := SkippedSpaces(s[1..]);
      assert s == [' '] + s[1..];
      k := k + 1;
    }
  }

  lemma NoReturnParts(a: seq<char>, b: seq<char>)
    ensures NoReturn(a + b) <==> NoReturn(a) && NoReturn(b)
  {
  }

  lemma TokenAtIsSpelled(p: seq<char>)
    requires p != [] && Clean(p) && p[0] != ' ' && p[0] != '\r' && TokenAt(p).Scanned?
    ensures var n := TokenAt(p);
            && GoodToken(n.token) && p == TokenText(n.token) + n.rest
            && (n.token.Word? ==> EndsWord(n.rest[0]))
  {
    WordHasNoEnd(p);
  }

  /** A token that was read stands in the bytes as some spaces, its text, and the rest. */
  lemma TokenIsSpelled(s: seq<char>) returns (k: nat)
    requires s != [] && Clean(s) && NoReturn(s) && NextToken(s).Scanned?
    ensures var n := NextToken(s);
            && GoodToken(n.token) && NoReturn(n.rest)
            && s == Spaces(k) + TokenText(n.token) + n.rest
            && (n.token.Word? ==> EndsWord(n.rest[0]))
    ensures s[0] == ' ' ==> k > 0
  {
    k := SkippedSpaces(s);
    var p := SkipSpaces(s);
    NoReturnParts(Spaces(k), p);
    TokenAtIsSpelled(p);
    NoReturnParts(TokenText(TokenAt(p).token), TokenAt(p).rest);
  }

  lemma FirstAndTail(c: char, s: seq<char>)
    ensures ([c] + s)[0] == c && ([c] + s)[1..] == s
  {
  }

  lemma {:induction false} SpacesAreSkipped(k: nat, p: seq<char>)
    requires p == [] || p[0] != ' '
    ensures SkipSpaces(Spaces(k) + p) == p
  {
    if k == 0 {
      assert Spaces(k) + p == p;
    } else {
      SpacesAreSkipped(k - 1, p);
      FirstAndTail(' ', Spaces(k - 1) + p);
      assert Spaces(k) + p == [' '] + (Spaces(k - 1) + p);
    }
  }

  lemma {:induction false} WordEndsThere(w: seq<char>, rest: seq<char>)
    requires forall i :: 0 <= i < |w| ==> !EndsWord(w[i])
    requires rest != [] && EndsWord(rest[0])
    ensures WordLength(w + rest) == |w|
  {
    if w == [] {
      assert w + rest == rest;
    } else {
      assert (w + rest)[1..] == w[1..] + rest;
      WordEndsThere(w[1..], rest);
    }
  }

  lemma TextIsToken(t: Token, rest: seq<char>)
    requires GoodToken(t) && Clean(rest) && (t.Word? ==> rest != [] && EndsWord(rest[0]))
    ensures var p := TokenText(t) + rest;
            p != [] && p[0] != ' ' && Clean(p) && TokenAt(p) == Scanned(t, rest)
  {
    var p := TokenText(t) + rest;
    LastOfConcat(TokenText(t), rest);
    if t.Word? {
      assert p[0] == t.text[0];
      WordEndsThere(t.text, rest);
      assert p[..|t.text|] == t.text && p[|t.text|..] == rest;
    } else {
      FirstAndTail(TokenText(t)[0], rest);
    }
  }

  /** ... and what is spelled so is read as that token. */
  lemma SpelledIsToken(k: nat, t: Token, rest: seq<char>)
    requires GoodToken(t) && Clean(rest) && (t.Word? ==> rest != [] && EndsWord(rest[0]))
    ensures var s := Spaces(k) + TokenText(t) + rest;
            s != [] && Clean(s) && NextToken(s) == Scanned(t, rest)
  {
    var p := TokenText(t) + rest;
    assert Spaces(k) + TokenText(t) + rest == Spaces(k) + p;
    TextIsToken(t, rest);
    SpacesAreSkipped(k, p);
    LastOfConcat(Spaces(k), p);
  }

  lemma LastOfConcat(a: seq<char>, b: seq<char>)
    ensures b != [] ==> (a + b)[|a + b| - 1] == b[|b| - 1]
    ensures b == [] ==> a + b == a
  {
  }

  // ----- When the parser aborts -----

  /** Spaces and ends of lines only. */
  predicate Blank(s: seq<char>) {
    || s == []
    || ((s[0] == ' ' || s[0] == '\n') && Blank(s[1..]))
    || (s[0] == '\r' && |s| > 1 && Blank(s[2..]))
  }

  lemma {:induction false} SkipLineNeverAborts(s: seq<char>, error: Error)
    requires Clean(s)
    ensures !SkipLine(s, error).Abort?
    decreases |s|
  {
    if s != [] && NextToken(s).Scanned? { SkipLineNeverAborts(NextToken(s).rest, error); }
  }

  lemma {:induction false} BlankAfterSpaces(s: seq<char>)
    ensures Blank(s) <==> Blank(SkipSpaces(s))
  {
    if s != [] && s[0] == ' ' { BlankAfterSpaces(s[1..]); }
  }

  /** The assertion on a missing tail fails exactly on a buffer that holds nothing but blank lines. */
  lemma {:induction false} AbortsExactlyOnBlanks(s: seq<char>, line: seq<Expr>, blank: bool)
    requires Clean(s) && (blank ==> line == [])
    ensures Parse(s, line, blank).Abort? <==> line == [] && Blank(s) && (blank || s != [])
    decreases |s|
  {
    if s != [] {
      BlankAfterSpaces(s);
      if NextToken(s).Scanned? {
        var n := NextToken(s);
        match n.token
        case Word(w) => AbortsExactlyOnBlanks(n.rest, AddWord(line, w), false);
        case NewLine => if line == [] { AbortsExactlyOnBlanks(n.rest, [], true); }
        case Pipe =>
          SkipLineNeverAborts(n.rest, PipeWithNoLeftArg);
          SkipLineNeverAborts(n.rest, PipeWithLeftArgNotACommand);
          AbortsExactlyOnBlanks(n.rest, line + [PipeExpr], false);
      }
    }
  }

  /** Back to the last new line there are only spaces. */
  predicate BlankBack(s: seq<char>) {
    s == [] || s[|s| - 1] == '\n' || (s[|s| - 1] == ' ' && BlankBack(s[..|s| - 1]))
  }

  /** The bytes end with a blank line: a condition on the last line alone. */
  predicate EndsBlank(s: seq<char>) {
    s != [] && s[|s| - 1] == '\n' && BlankBack(s[..|s| - 1])
  }

  lemma {:induction false} BackOfConcat(a: seq<char>, b: seq<char>)
    ensures BlankBack(a + b) <==> BlankBack(b) && (BlankBack(a) || '\n' in b)
  {
    if b == [] {
      assert a + b == a;
    } else {
      assert (a + b)[..|a + b| - 1] == a + b[..|b| - 1];
      BackOfConcat(a, b[..|b| - 1]);
    }
  }

  lemma {:induction false} SpacesAreBlank(k: nat)
    ensures BlankBack(Spaces(k))
    decreases k
  {
    if k > 0 {
      SpacesAreBlank(k - 1);
      assert Spaces(k)[..k - 1] == Spaces(k - 1);
    }
  }

  /** A word or a pipe is no blank; an end of line starts anew. */
  lemma BackOverToken(pre: seq<char>, k: nat, t: Token)
    requires GoodToken(t)
    ensures t.NewLine? <==> BlankBack(pre + Spaces(k) + TokenText(t))
    ensures BlankBack(pre + Spaces(k)) <==> BlankBack(pre)
  {
    var text := TokenText(t);
    LastOfConcat(pre + Spaces(k), text);
    SpacesAreBlank(k);
    BackOfConcat(pre, Spaces(k));
  }

  /** c is what a consuming pop takes from s: it ends a line that is not blank. */
  predicate TakesALine(pre: seq<char>, s: seq<char>, rest: seq<char>) {
    |rest| < |s| && Suffix(rest, s) && s[|s| - |rest| - 1] == '\n' && !BlankBack(pre + s[..|s| - |rest| - 1])
  }

  lemma TakesAfterToken(pre: seq<char>, s: seq<char>, k: nat, text: seq<char>, m: seq<char>, rest: seq<char>)
    requires s == Spaces(k) + text + m
    requires TakesALine(pre + Spaces(k) + text, m, rest)
    ensures TakesALine(pre, s, rest)
  {
    var u := |s| - |rest| - 1;
    assert s[..u] == Spaces(k) + text + m[..|m| - |rest| - 1];
    assert pre + s[..u] == pre + Spaces(k) + text + m[..|m| - |rest| - 1];
    assert s[u + 1..] == m[|m| - |rest|..];
  }

  lemma {:induction false} SkipTakesALine(pre: seq<char>, s: seq<char>, error: Error)
    requires Clean(s) && NoReturn(s) && !BlankBack(pre) && Consumes(SkipLine(s, error))
    ensures TakesALine(pre, s, SkipLine(s, error).rest)
    decreases |s|
  {
    var n := NextToken(s);
    var k := TokenIsSpelled(s);
    BackOverToken(pre, k, n.token);
    if n.token.NewLine? {
      NewLineTakes(pre, s, k, n.rest);
    } else {
      SkipTakesALine(pre + Spaces(k) + TokenText(n.token), n.rest, error);
      TakesAfterToken(pre, s, k, TokenText(n.token), n.rest, SkipLine(s, error).rest);
    }
  }

  lemma NewLineTakes(pre: seq<char>, s: seq<char>, k: nat, rest: seq<char>)
    requires s == Spaces(k) + ['\n'] + rest && !BlankBack(pre + Spaces(k))
    ensures TakesALine(pre, s, rest)
  {
    assert s[..k] == Spaces(k);
    assert s[k + 1..] == rest;
  }

  /** A line or an error takes up to the end of a line that is not blank. */
  lemma {:induction false} PopTakesALine(pre: seq<char>, s: seq<char>, line: seq<Expr>, blank: bool)
    requires Clean(s) && NoReturn(s) && Consumes(Parse(s, line, blank)) && (line == [] || !BlankBack(pre))
    ensures TakesALine(pre, s, Parse(s, line, blank).rest)
    decreases |s|
  {
    var n := NextToken(s);
    var k := TokenIsSpelled(s);
    var seen := pre + Spaces(k) + TokenText(n.token);
    BackOverToken(pre, k, n.token);
    if n.token.NewLine? && line != [] {
      NewLineTakes(pre, s, k, n.rest);
    } else {
      if n.token.Pipe? && !EndsInCommand(line) {
        SkipTakesALine(seen, n.rest, if line == [] then PipeWithNoLeftArg else PipeWithLeftArgNotACommand);
      } else {
        PopTakesALine(seen, n.rest, if n.token.Word? then AddWord(line, n.token.text) else if n.token.Pipe? then line + [PipeExpr] else [],
                      n.token.NewLine?);
      }
      TakesAfterToken(pre, s, k, TokenText(n.token), n.rest, Parse(s, line, blank).rest);
    }
  }

  lemma {:induction false} SkipWaits(s: seq<char>, error: Error)
    requires Clean(s) && s != [] && SkipLine(s, error).Nothing?
    ensures s[|s| - 1] != '\n'
    decreases |s|
  {
    TokenTail(s);
    if NextToken(s).Scanned? && NextToken(s).rest != [] { SkipWaits(NextToken(s).rest, error); }
  }

  lemma TokenTail(s: seq<char>)
    requires s != [] && Clean(s)
    ensures var n := NextToken(s);
            && (n.NoToken? ==> s[|s| - 1] != '\n')
            && (n.Scanned? && n.rest != [] ==> n.rest[|n.rest| - 1] == s[|s| - 1])
            && (n.Scanned? && n.token.Pipe? && n.rest == [] ==> s[|s| - 1] == '|')
  {
    WordHasNoEnd(SkipSpaces(s));
  }

  /** Nothing is popped only from a buffer that ends inside a line. */
  lemma {:induction false} ParseWaits(s: seq<char>, line: seq<Expr>, blank: bool)
    requires Clean(s) && s != [] && Parse(s, line, blank).Nothing?
    ensures s[|s| - 1] != '\n'
    decreases |s|
  {
    TokenTail(s);
    if NextToken(s).Scanned? && NextToken(s).rest != [] {
      var n := NextToken(s);
      if n.token.Pipe? && !EndsInCommand(line) {
        SkipWaits(n.rest, if line == [] then PipeWithNoLeftArg else PipeWithLeftArgNotACommand);
      } else {
        ParseWaits(n.rest, if n.token.Word? then AddWord(line, n.token.text) else if n.token.Pipe? then line + [PipeExpr] else [],
                   n.token.NewLine?);
      }
    }
  }

  lemma {:induction false} BlankIsBlankBack(s: seq<char>)
    requires Blank(s) && NoReturn(s)
    ensures forall i :: 0 <= i < |s| ==> s[i] == ' ' || s[i] == '\n'
  {
    if s != [] {
      assert s[0] in s && forall c :: c in s[1..] ==> c in s;
      BlankIsBlankBack(s[1..]);
    }
  }

  lemma {:induction false} OnlyBlanksBack(s: seq<char>)
    requires forall i :: 0 <= i < |s| ==> s[i] == ' ' || s[i] == '\n'
    ensures BlankBack(s)
  {
    if s != [] { OnlyBlanksBack(s[..|s| - 1]); }
  }

  lemma EndsBlankBehindALine(s: seq<char>, rest: seq<char>)
    requires TakesALine([], s, rest)
    ensures EndsBlank(s) <==> EndsBlank(rest)
    ensures NoReturn(s) ==> NoReturn(rest)
  {
    var c := s[..|s| - |rest|];
    assert [] + s[..|c| - 1] == c[..|c| - 1];
    assert s == c + rest;
    if rest == [] {
      assert s == c;
    } else {
      BackOfConcat(c, rest[..|rest| - 1]);
      assert s[..|s| - 1] == c + rest[..|rest| - 1];
    }
  }

  /**
   * Draining a buffer without carriage returns runs into the failing assertion exactly if the buffer
   * ends with a blank line.
   */
  lemma {:induction false} AbortsExactlyAfterABlankLine(s: seq<char>)
    requires Clean(s) && NoReturn(s)
    ensures Drain(s).aborted <==> EndsBlank(s)
    decreases |s|
  {
    var p := PopNext(s);
    AbortsExactlyOnBlanks(s, [], false);
    if Consumes(p) {
      DrainStep(s);
      PopTakesALine([], s, [], false);
      EndsBlankBehindALine(s, p.rest);
      AbortsExactlyAfterABlankLine(p.rest);
    } else if p.Nothing? {
      if s != [] { ParseWaits(s, [], false); }
    } else {
      BlankIsBlankBack(s);
      OnlyBlanksBack(s[..|s| - 1]);
    }
  }

  /** After some read, all that was read so far ends with a blank line. */
  predicate ReadsABlankLine(chunks: seq<seq<char>>) {
    chunks != [] && (ReadsABlankLine(chunks[..|chunks| - 1]) || EndsBlank(Flat(chunks)))
  }

  /** The shell dies in the parser exactly if one of its reads ends just behind a blank line. */
  lemma {:induction false} SessionAbortsExactlyAfterABlankLine(chunks: seq<seq<char>>)
    requires CleanChunks(chunks) && NoReturn(Flat(chunks))
    ensures FeedAll(chunks).aborted <==> ReadsABlankLine(chunks)
  {
    if chunks != [] {
      var before := chunks[..|chunks| - 1];
      NoReturnParts(Flat(before), chunks[|chunks| - 1]);
      SessionAbortsExactlyAfterABlankLine(before);
      if !FeedAll(before).aborted {
        ChunksDoNotMatter(chunks);
        AbortsExactlyAfterABlankLine(Flat(chunks));
      }
    }
  }
}
