/**
 * The shell's parser as it works in place: a growing byte buffer, a token buffer, a linked list of
 * expressions (sems/4week/myshell/src/parser.c:54-294) and the drain loop of sems/4week/myshell/src/main.c:21-37.
 */
module ShellParser {
  import opened ShellGrammar

  const UINT32_LIMIT := 0x1_0000_0000

  datatype TokenType = None | Str | EndOfLine | Bar

  datatype ParserError = Good | Bad(error: Error)

  class TokenBuffer {
    var kind: TokenType
    var data: array<char>
    var size: nat

    ghost predicate Valid()
      reads this
    {
      size <= data.Length
    }

    ghost function Text(): seq<char>
      requires Valid()
      reads this, data
    {
      data[..size]
    }

    constructor ()
      ensures Valid() && Text() == [] && kind == None && fresh(data) && data.Length == 0
    {
      kind, size, data := None, 0, new char[0];
    }

    method Append(c: char)
      requires Valid() && (size == data.Length ==> 2 * (data.Length + 1) < UINT32_LIMIT)
      modifies this`size, this`data, data
      ensures Valid() && Text() == old(Text()) + [c]
      ensures data.Length == if old(size) == old(data.Length) then 2 * (old(data.Length) + 1) else old(data.Length)
      ensures data == old(data) || fresh(data)
    {
      if size == data.Length {
        var grown := new char[(data.Length + 1) * 2];
        forall i | 0 <= i < size { grown[i] := data[i]; }
        data := grown;
      }
      data[size] := c;
      size := size + 1;
    }

    /** token_strdup */
    method Copy() returns (word: seq<char>)
      requires Valid() && kind == Str && size > 0
      ensures word == Text()
    {
      word := data[..size];
    }

    method Reset()
      modifies this`size, this`kind
      ensures Valid() && Text() == [] && kind == None
    {
      size, kind := 0, None;
    }
  }

  class ExprNode {
    const isCommand: bool
    var exe: seq<char>
    var args: seq<seq<char>>
    var next: ExprNode?

    constructor Command(word: seq<char>)
      ensures isCommand && exe == word && args == [word] && next == null
    {
      isCommand, exe, args, next := true, word, [word], null;
    }

    constructor Pipe()
      ensures !isCommand && next == null
    {
      isCommand, exe, args, next := false, [], [], null;
    }

    ghost function Value(): Expr
      reads this
    {
      if isCommand then Expr.Command(args) else PipeExpr
    }
  }

  class CommandLine {
    var head: ExprNode?
    var tail: ExprNode?
    ghost var nodes: seq<ExprNode>
    ghost var repr: set<ExprNode>

    /** The list from head to tail has no cycle, and a command's first argument is its exe. */
    ghost predicate Valid()
      reads this, repr
    {
      && (forall i :: 0 <= i < |nodes| ==> nodes[i] in repr)
      && (nodes == [] ==> head == null && tail == null)
      && (nodes != [] ==> head == nodes[0] && tail == nodes[|nodes| - 1] && tail.next == null)
      && (forall i :: 0 <= i < |nodes| - 1 ==> nodes[i].next == nodes[i + 1])
      && (forall i, j :: 0 <= i < j < |nodes| ==> nodes[i] != nodes[j])
      && (forall i :: 0 <= i < |nodes| && nodes[i].isCommand ==> nodes[i].args != [] && nodes[i].args[0] == nodes[i].exe)
    }

    ghost function Exprs(): (r: seq<Expr>)
      requires Valid()
      reads this, repr
      ensures |r| == |nodes|
    {
      seq(|nodes|, i requires 0 <= i < |nodes| && nodes[i] in repr reads this, repr => nodes[i].Value())
    }

    constructor ()
      ensures Valid() && repr == {} && Exprs() == []
    {
      head, tail, nodes, repr := null, null, [], {};
    }

    /** command_line_append */
    method Append(e: ExprNode)
      requires Valid() && e !in repr && e.next == null
      requires e.isCommand ==> e.args != [] && e.args[0] == e.exe
      modifies this, repr
      ensures Valid() && nodes == old(nodes) + [e] && repr == old(repr) + {e}
      ensures Exprs() == old(Exprs()) + [old(e.Value())]
    {
      if head == null {
        head := e;
      } else {
        tail.next := e;
      }
      tail := e;
      nodes, repr := nodes + [e], repr + {e};
    }

    /** command_append_arg on the last command */
    method AppendArg(word: seq<char>)
      requires Valid() && tail != null && tail.isCommand
      modifies tail`args
      ensures Valid() && Exprs() == AddWord(old(Exprs()), word)
    {
      tail.args := tail.args + [word];
      ghost var last := |nodes| - 1;
      assert forall i :: 0 <= i < last ==> nodes[i] != tail;
    }

    /** A word goes to the last command, or begins a new one. */
    method AddWordToLine(word: seq<char>)
      requires Valid()
      modifies this, repr
      ensures Valid() && Exprs() == AddWord(old(Exprs()), word)
      ensures fresh(repr - old(repr))
    {
      TailIsLast();
      if tail != null && tail.isCommand {
        AppendArg(word);
      } else {
        var e := new ExprNode.Command(word);
        Append(e);
      }
    }

    method AddPipeToLine()
      requires Valid()
      modifies this, repr
      ensures Valid() && Exprs() == old(Exprs()) + [PipeExpr]
      ensures fresh(repr - old(repr))
    {
      var e := new ExprNode.Pipe();
      Append(e);
    }

    lemma TailIsLast()
      requires Valid()
      ensures tail == null <==> Exprs() == []
      ensures tail != null && tail.isCommand <==> EndsInCommand(Exprs())
    {
    }

    /** Following the links from the head meets every expression once, in order, and ends. */
    method Walk() returns (exprs: seq<Expr>)
      requires Valid()
      ensures exprs == Exprs()
    {
      exprs := [];
      var e := head;
      ghost var k := 0;
      while e != null
        invariant 0 <= k <= |nodes|
        invariant e == if k < |nodes| then nodes[k] else null
        invariant exprs == Exprs()[..k]
        decreases |nodes| - k
      {
        exprs := exprs + [if e.isCommand then Expr.Command(e.args) else PipeExpr];
        e := e.next;
        k := k + 1;
      }
    }
  }

  predicate SpacesUpTo(s: seq<char>, pos: nat, p: nat)
    requires pos <= p <= |s|
  {
    forall i :: pos <= i < p ==> s[i] == ' '
  }

  predicate WordUpTo(s: seq<char>, p: nat, q: nat)
    requires p <= q <= |s|
  {
    (forall i :: p <= i < q ==> !EndsWord(s[i])) && (q < |s| ==> EndsWord(s[q]))
  }

  lemma {:induction false} SpacesAreSkipped(s: seq<char>, pos: nat, p: nat)
    requires pos <= p <= |s| && SpacesUpTo(s, pos, p) && (p < |s| ==> s[p] != ' ')
    ensures SkipSpaces(s[pos..]) == s[p..]
    decreases p - pos
  {
    if pos < p {
      SpacesAreSkipped(s, pos + 1, p);
      assert s[pos..][1..] == s[pos + 1..];
    }
  }

  lemma {:induction false} WordIsMeasured(s: seq<char>, p: nat, q: nat)
    requires p <= q <= |s| && WordUpTo(s, p, q)
    ensures WordLength(s[p..]) == q - p
    decreases q - p
  {
    if p < q {
      WordIsMeasured(s, p + 1, q);
      assert s[p..][1..] == s[p + 1..];
    }
  }

  predicate IsToken(kind: TokenType, text: seq<char>, t: Token) {
    match t
    case Word(w) => kind == Str && text == w
    case NewLine => kind == EndOfLine
    case Pipe => kind == Bar
  }

  lemma SliceSnoc(s: seq<char>, p: nat, q: nat)
    requires p <= q < |s|
    ensures s[p..q] + [s[q]] == s[p..q + 1]
  {
  }

  /** The outcome of scanning, as the number of bytes used (0 for no token) and the token buffer. */
  predicate Gives(n: Scan, used: nat, behind: seq<char>, kind: TokenType, text: seq<char>) {
    match n
    case NoToken => used == 0 && kind == Str
    case Scanned(t, rest) => used > 0 && rest == behind && IsToken(kind, text, t)
  }

  predicate GivesToken(s: seq<char>, pos: nat, used: nat, kind: TokenType, text: seq<char>)
    requires pos < |s| && pos + used <= |s| && Clean(s[pos..])
  {
    Gives(NextToken(s[pos..]), used, s[pos + used..], kind, text)
  }

  lemma SliceOfSlice(s: seq<char>, p: nat, k: nat)
    requires p + k <= |s|
    ensures s[p..][..k] == s[p..p + k] && s[p..][k..] == s[p + k..]
  {
  }

  /** parse_token by the first byte that is no space. */
  lemma TokenByFirst(s: seq<char>, r: seq<char>)
    requires s != [] && Clean(s) && r == SkipSpaces(s)
    ensures r != [] && (r[0] == '\r' ==> |r| > 1)
    ensures NextToken(s) ==
      if r[0] == '\r' then Scanned(NewLine, r[2..])
      else if r[0] == '\n' then Scanned(NewLine, r[1..])
      else if r[0] == '|' then Scanned(Pipe, r[1..])
      else if WordLength(r) == |r| then NoToken
      else Scanned(Word(r[..WordLength(r)]), r[WordLength(r)..])
    ensures r[0] != '\r' && r[0] != '\n' ==> WordLength(r) > 0
  {
  }

  lemma MarkInSlice(s: seq<char>, x: seq<char>, r: seq<char>, p: nat)
    requires p < |s| && x != [] && Clean(x) && r == s[p..] && r == SkipSpaces(x)
    ensures s[p] == '\r' ==> p + 2 <= |s| && NextToken(x) == Scanned(NewLine, s[p + 2..])
    ensures s[p] == '\n' ==> NextToken(x) == Scanned(NewLine, s[p + 1..])
    ensures s[p] == '|' ==> NextToken(x) == Scanned(Pipe, s[p + 1..])
  {
    TokenByFirst(x, r);
    SliceOfSlice(s, p, 1);
    if s[p] == '\r' { SliceOfSlice(s, p, 2); }
  }

  lemma MarkIsGiven(s: seq<char>, pos: nat, p: nat, text: seq<char>)
    requires pos <= p < |s| && Clean(s[pos..]) && SpacesUpTo(s, pos, p) && s[p] != ' '
    ensures s[p] == '\r' ==> p + 2 <= |s| && GivesToken(s, pos, p + 2 - pos, EndOfLine, text)
    ensures s[p] == '\n' ==> GivesToken(s, pos, p + 1 - pos, EndOfLine, text)
    ensures s[p] == '|' ==> GivesToken(s, pos, p + 1 - pos, Bar, text)
  {
    SpacesAreSkipped(s, pos, p);
    MarkInSlice(s, s[pos..], s[p..], p);
  }

  lemma WordOfSlice(s: seq<char>, n: Scan, r: seq<char>, p: nat, q: nat)
    requires p < q < |s| && r == s[p..] && n == Scanned(Word(r[..q - p]), r[q - p..])
    ensures n == Scanned(Word(s[p..q]), s[q..])
  {
    SliceOfSlice(s, p, q - p);
  }

  lemma WordByFirst(x: seq<char>, r: seq<char>, m: nat)
    requires x != [] && Clean(x) && r == SkipSpaces(x)
    requires m < |r| && r[0] != '\r' && r[0] != '\n' && r[0] != '|' && m == WordLength(r)
    ensures NextToken(x) == Scanned(Word(r[..m]), r[m..])
  {
  }

  lemma WordInSlice(s: seq<char>, x: seq<char>, r: seq<char>, p: nat, q: nat)
    requires p < q < |s| && x != [] && Clean(x) && r == s[p..] && r == SkipSpaces(x)
    requires s[p] != '\r' && s[p] != '\n' && s[p] != '|' && q == p + WordLength(r)
    ensures NextToken(x) == Scanned(Word(s[p..q]), s[q..])
  {
    WordByFirst(x, r, q - p);
    WordOfSlice(s, NextToken(x), r, p, q);
  }

  lemma WordIsGiven(s: seq<char>, pos: nat, p: nat, q: nat)
    requires pos <= p < q < |s| && Clean(s[pos..]) && SpacesUpTo(s, pos, p) && WordUpTo(s, p, q) && s[p] != '|'
    ensures GivesToken(s, pos, q - pos, Str, s[p..q])
  {
    SpacesAreSkipped(s, pos, p);
    WordIsMeasured(s, p, q);
    WordInSlice(s, s[pos..], s[p..], p, q);
  }

  lemma NothingIsGiven(s: seq<char>, pos: nat, p: nat, text: seq<char>)
    requires pos <= p < |s| && Clean(s[pos..]) && SpacesUpTo(s, pos, p) && WordUpTo(s, p, |s|) && s[p] != '|'
    ensures GivesToken(s, pos, 0, Str, text)
  {
    SpacesAreSkipped(s, pos, p);
    WordIsMeasured(s, p, |s|);
    TokenByFirst(s[pos..], s[p..]);
  }

  /** What the bytes behind a token are parsed to: one round of the loop of parser_pop_next. */
  lemma RoundOfPop(n: Scan, s: seq<char>, rest: seq<char>, used: nat, kind: TokenType, text: seq<char>, line: seq<Expr>, blank: bool)
    requires s != [] && Clean(s) && n == NextToken(s) && Gives(n, used, rest, kind, text)
    ensures kind != None
    ensures used == 0 ==> Parse(s, line, blank).Nothing?
    ensures used > 0 ==> Clean(rest) && (kind == Str ==> text != [])
    ensures used > 0 ==> Parse(s, line, blank) == AfterToken(kind, text, rest, line)
  {
  }

  function AfterToken(kind: TokenType, text: seq<char>, rest: seq<char>, line: seq<Expr>): Pop
    requires Clean(rest) && kind != None
  {
    match kind
    case Str => Parse(rest, AddWord(line, text), false)
    case EndOfLine =>
      if line == [] then Parse(rest, [], true)
      else if EndsInCommand(line) then Line(line, rest) else Failed(EndsNotWithACommand, rest)
    case _ =>
      if EndsInCommand(line) then Parse(rest, line + [PipeExpr], false) else SkipLine(rest, PipeError(line))
  }

  function PipeError(line: seq<Expr>): Error {
    if line == [] then PipeWithNoLeftArg else PipeWithLeftArgNotACommand
  }

  /** What a token makes of the line, and whether the loop is left. */
  predicate Takes(kind: TokenType, text: seq<char>, before: seq<Expr>, done: bool, after: seq<Expr>) {
    match kind
    case Str => !done && after == AddWord(before, text)
    case EndOfLine => after == before && (done <==> before != [])
    case _ => if EndsInCommand(before) then !done && after == before + [PipeExpr] else done && after == before
  }

  /** The loop is left at the end of a line, or else the rest of the line is to be skipped because of an error. */
  predicate CanFinish(kind: TokenType, rest: seq<char>, error: Error, line: seq<Expr>, goal: Pop)
    requires Clean(rest)
  {
    if kind == EndOfLine then
      line != [] && goal == if EndsInCommand(line) then Line(line, rest) else Failed(EndsNotWithACommand, rest)
    else goal == SkipLine(rest, error)
  }

  /** The bytes that are left and the line so far still lead to the outcome. */
  predicate Expects(rest: seq<char>, line: seq<Expr>, blank: bool, goal: Pop) {
    Clean(rest) && (blank ==> line == []) && Parse(rest, line, blank) == goal
  }

  lemma EndOfBytes(rest: seq<char>, line: seq<Expr>, blank: bool, goal: Pop)
    requires rest == [] && Expects(rest, line, blank, goal) && !goal.Abort?
    ensures !blank && goal == SkipLine(rest, TooLateArguments)
  {
  }

  lemma AfterTake(kind: TokenType, text: seq<char>, rest: seq<char>, before: seq<Expr>, done: bool, after: seq<Expr>)
    requires Clean(rest) && kind != None && Takes(kind, text, before, done, after)
    ensures var goal := AfterToken(kind, text, rest, before);
            if done then CanFinish(kind, rest, PipeError(after), after, goal)
            else Expects(rest, after, kind == EndOfLine, goal)
  {
  }

  lemma RoundOfSkip(n: Scan, s: seq<char>, rest: seq<char>, used: nat, kind: TokenType, text: seq<char>, error: Error)
    requires s != [] && Clean(s) && n == NextToken(s) && Gives(n, used, rest, kind, text)
    ensures used == 0 ==> SkipLine(s, error).Nothing?
    ensures used > 0 ==> Clean(rest) && SkipLine(s, error) == if kind == EndOfLine then Failed(error, rest) else SkipLine(rest, error)
  {
  }

  /** The outcome p of a pop, as error code, line if there is one, and the bytes left from those before. */
  predicate Delivers(p: Pop, before: seq<char>, err: ParserError, line: seq<Expr>, after: seq<char>) {
    match p
    case Line(exprs, rest) => err == Good && line == exprs && line != [] && after == rest
    case Failed(e, rest) => err == Bad(e) && line == [] && after == rest
    case _ => err == Good && line == [] && after == before
  }

  class Parser {
    var buffer: array<char>
    var size: nat

    ghost predicate Valid()
      reads this
    {
      size <= buffer.Length
    }

    ghost function Contents(): seq<char>
      requires Valid()
      reads this, buffer
    {
      buffer[..size]
    }

    /** The token buffer is apart from the parser's own, and never outgrows twice its size. */
    ghost predicate HasRoom(token: TokenBuffer)
      reads this, token
    {
      token.Valid() && token.data != buffer && token.data.Length <= 2 * size
    }

    constructor ()
      ensures Valid() && Contents() == [] && fresh(buffer) && buffer.Length == 0
    {
      buffer, size := new char[0], 0;
    }

    /** The growth of the buffer in parser_feed: kept if the bytes fit, else doubled, or else just what is needed. */
    method Reserve(len: nat)
      requires Valid() && size + len < UINT32_LIMIT && 2 * (buffer.Length + 1) < UINT32_LIMIT
      modifies this`buffer
      ensures Valid() && size + len <= buffer.Length && Contents() == old(Contents())
      ensures buffer == old(buffer) || fresh(buffer)
      ensures buffer.Length == if size + len <= old(buffer.Length) then old(buffer.Length)
                               else if size + len <= 2 * (old(buffer.Length) + 1) then 2 * (old(buffer.Length) + 1)
                               else size + len
    {
      var cap := buffer.Length - size;
      if cap < len {
        var newCapacity := (buffer.Length + 1) * 2;
        if newCapacity - size < len {
          newCapacity := size + len;
        }
        var grown := new char[newCapacity];
        forall i | 0 <= i < size { grown[i] := buffer[i]; }
        buffer := grown;
      }
    }

    /** parser_feed */
    method Feed(str: seq<char>)
      requires Valid() && size + |str| < UINT32_LIMIT && 2 * (buffer.Length + 1) < UINT32_LIMIT
      modifies this, buffer
      ensures Valid() && Contents() == old(Contents()) + str
      ensures buffer == old(buffer) || fresh(buffer)
      ensures buffer.Length == if size <= old(buffer.Length) then old(buffer.Length)
                               else if size <= 2 * (old(buffer.Length) + 1) then 2 * (old(buffer.Length) + 1)
                               else size
    {
      Reserve(|str|);
      ghost var before := Contents();
      for i := 0 to |str|
        modifies buffer
        invariant buffer[..size + i] == before + str[..i]
      {
        buffer[size + i] := str[i];
      }
      size := size + |str|;
    }

    /** parser_consume */
    method Consume(n: nat)
      requires Valid() && n <= size
      modifies this`size, buffer
      ensures Valid() && Contents() == old(Contents())[n..]
    {
      if n == size {
        size := 0;
        return;
      }
      forall i | 0 <= i < size - n { buffer[i] := buffer[n + i]; }
      size := size - n;
    }

    /** skip2first_nonspace, from position pos */
    method SkipToNonspace(pos: nat) returns (p: nat)
      requires Valid() && pos < size && Clean(Contents()[pos..])
      ensures pos <= p < size && SpacesUpTo(Contents(), pos, p) && buffer[p] != ' '
    {
      assert Contents()[pos..][size - pos - 1] == buffer[size - 1];
      p := pos;
      while buffer[p] == ' '
        invariant pos <= p < size && SpacesUpTo(Contents(), pos, p)
        decreases size - p
      {
        p := p + 1;
      }
    }

    /** The last loop of parse_token: false if the bytes end before the word does. */
    method ReadWord(p: nat, out: TokenBuffer) returns (q: nat, ended: bool)
      requires Valid() && p <= size && 2 * (size + 1) < UINT32_LIMIT
      requires HasRoom(out) && out.Text() == []
      modifies out`size, out`data, out.data
      ensures Contents() == old(Contents())
      ensures HasRoom(out) && (out.data == old(out.data) || fresh(out.data))
      ensures p <= q <= size && WordUpTo(old(Contents()), p, q) && out.Text() == old(Contents())[p..q]
      ensures ended <==> q < size
    {
      ghost var s := Contents();
      q := p;
      while q < size
        invariant p <= q <= size
        invariant HasRoom(out) && (out.data == old(out.data) || fresh(out.data))
        invariant out.Text() == s[p..q]
        invariant forall i :: p <= i < q ==> !EndsWord(s[i])
      {
        var c := buffer[q];
        if c == ' ' || c == '\n' || c == '\r' {
          return q, true;
        }
        SliceSnoc(s, p, q);
        out.Append(c);
        q := q + 1;
      }
      ended := false;
    }

    /** The branches of parse_token for an end of line and for a pipe. */
    method ReadMark(pos: nat, p: nat, out: TokenBuffer) returns (used: nat)
      requires Valid() && pos <= p < size && Clean(Contents()[pos..]) && SpacesUpTo(Contents(), pos, p)
      requires buffer[p] == '\r' || buffer[p] == '\n' || buffer[p] == '|'
      requires out.Valid() && out.data != buffer
      modifies out`kind
      ensures pos + used <= size && GivesToken(old(Contents()), pos, used, out.kind, old(out.Text()))
    {
      MarkIsGiven(Contents(), pos, p, out.Text());
      if buffer[p] == '\r' {
        out.kind := EndOfLine;
        return p + 2 - pos;
      } else if buffer[p] == '\n' {
        out.kind := EndOfLine;
        return p + 1 - pos;
      }
      out.kind := Bar;
      used := p + 1 - pos;
    }

    /** The branch of parse_token for a word. */
    method ReadWordToken(pos: nat, p: nat, out: TokenBuffer) returns (used: nat)
      requires Valid() && pos <= p < size && Clean(Contents()[pos..]) && SpacesUpTo(Contents(), pos, p)
      requires !EndsWord(buffer[p]) && buffer[p] != '|' && 2 * (size + 1) < UINT32_LIMIT
      requires HasRoom(out) && out.Text() == [] && out.kind == Str
      modifies out`size, out`data, out.data
      ensures Contents() == old(Contents())
      ensures HasRoom(out) && (out.data == old(out.data) || fresh(out.data))
      ensures pos + used <= size && GivesToken(old(Contents()), pos, used, out.kind, out.Text())
    {
      ghost var s := Contents();
      var q, ended := ReadWord(p, out);
      if ended {
        WordIsGiven(s, pos, p, q);
        return q - pos;
      }
      NothingIsGiven(s, pos, p, out.Text());
      used := 0;
    }

    /** parse_token from position pos */
    method ParseToken(pos: nat, out: TokenBuffer) returns (used: nat)
      requires Valid() && pos < size && Clean(Contents()[pos..]) && 2 * (size + 1) < UINT32_LIMIT
      requires HasRoom(out)
      modifies out, out.data
      ensures Contents() == old(Contents())
      ensures HasRoom(out) && (out.data == old(out.data) || fresh(out.data))
      ensures pos + used <= size && GivesToken(old(Contents()), pos, used, out.kind, out.Text())
    {
      out.Reset();
      var p := SkipToNonspace(pos);
      out.kind := Str;
      if buffer[p] == '\r' || buffer[p] == '\n' || buffer[p] == '|' {
        used := ReadMark(pos, p, out);
      } else {
        used := ReadWordToken(pos, p, out);
      }
    }

    /** One round of the loop behind return_error. */
    method SkipRound(pos: nat, token: TokenBuffer, error: Error, ghost r: seq<char>) returns (used: nat, ghost rest: seq<char>)
      requires Valid() && pos < size && r == Contents()[pos..] && Clean(r) && 2 * (size + 1) < UINT32_LIMIT && HasRoom(token)
      modifies token, token.data
      ensures HasRoom(token) && (token.data == old(token.data) || fresh(token.data))
      ensures Contents() == old(Contents()) && pos + used <= size && rest == old(Contents())[pos + used..]
      ensures used == 0 ==> SkipLine(r, error).Nothing?
      ensures used > 0 ==>
                Clean(rest) && SkipLine(r, error) == if token.kind == EndOfLine then Failed(error, rest) else SkipLine(rest, error)
    {
      used := ParseToken(pos, token);
      rest := old(Contents())[pos + used..];
      RoundOfSkip(NextToken(r), r, rest, used, token.kind, token.Text(), error);
    }

    /** The loop behind return_error looks for the end of the line. */
    method SkipToEnd(start: nat, token: TokenBuffer, error: Error) returns (found: bool, pos: nat)
      requires Valid() && start <= size && Clean(Contents()[start..]) && 2 * (size + 1) < UINT32_LIMIT && HasRoom(token)
      modifies token, token.data
      ensures Contents() == old(Contents()) && pos <= size
      ensures SkipLine(old(Contents())[start..], error) == if found then Failed(error, old(Contents())[pos..]) else Nothing
    {
      ghost var s := Contents();
      ghost var r := s[start..];
      pos := start;
      while pos < size
        invariant start <= pos <= size && Contents() == s
        invariant r == s[pos..] && Clean(r) && SkipLine(r, error) == SkipLine(s[start..], error)
        invariant HasRoom(token) && (token.data == old(token.data) || fresh(token.data))
        decreases size - pos
      {
        var used, rest := SkipRound(pos, token, error, r);
        if used == 0 {
          return false, pos;
        }
        pos, r := pos + used, rest;
        if token.kind == EndOfLine {
          return true, pos;
        }
      }
      found := false;
    }

    /** From return_error on: the rest of the line is thrown away if its end is there. */
    method SkipRest(start: nat, token: TokenBuffer, error: Error, ghost goal: Pop) returns (err: ParserError)
      requires Valid() && start <= size && Clean(Contents()[start..]) && 2 * (size + 1) < UINT32_LIMIT && HasRoom(token)
      requires goal == SkipLine(Contents()[start..], error)
      modifies this`size, buffer, token, token.data
      ensures Valid() && Delivers(goal, old(Contents()), err, [], Contents())
    {
      var found, pos := SkipToEnd(start, token, error);
      if found {
        Consume(pos);
        return Bad(error);
      }
      err := Good;
    }

    /** The cases of the loop of parser_pop_next; `done` says that it is left. */
    method TakeToken(token: TokenBuffer, line: CommandLine) returns (done: bool)
      requires token.Valid() && line.Valid() && (token.kind == Str ==> token.size > 0) && token.kind != None
      modifies line, line.repr
      ensures line.Valid() && fresh(line.repr - old(line.repr))
      ensures Takes(token.kind, old(token.Text()), old(line.Exprs()), done, line.Exprs())
    {
      line.TailIsLast();
      done := false;
      match token.kind {
        case Str =>
          var word := token.Copy();
          line.AddWordToLine(word);
        case EndOfLine =>
          done := line.tail != null;
        case Bar =>
          if line.tail == null || !line.tail.isCommand {
            return true;
          }
          line.AddPipeToLine();
      }
    }

    /** From close_and_return and return_error on; `error` is the error so far. */
    method Finish(pos: nat, token: TokenBuffer, line: CommandLine, error: Error, ghost rest: seq<char>, ghost goal: Pop)
      returns (err: ParserError, out: CommandLine?)
      requires Valid() && pos <= size && rest == Contents()[pos..] && Clean(rest) && 2 * (size + 1) < UINT32_LIMIT
      requires HasRoom(token)
      requires line.Valid() && CanFinish(token.kind, rest, error, line.Exprs(), goal)
      modifies this`size, buffer, token, token.data
      ensures Valid() && (out == line || out == null) && line.Valid() && line.Exprs() == old(line.Exprs())
      ensures Delivers(goal, old(Contents()), err, if out == null then [] else line.Exprs(), Contents())
      ensures out != null <==> goal.Line?
    {
      line.TailIsLast();
      if token.kind == EndOfLine {
        Consume(pos);
        if !line.tail.isCommand {
          return Bad(EndsNotWithACommand), null;
        }
        return Good, line;
      }
      err := SkipRest(pos, token, error, goal);
      out := null;
    }
 
    /** One round of the loop of parser_pop_next; no byte used means that it is left without a line. */
    method Round(pos: nat, token: TokenBuffer, line: CommandLine, ghost r: seq<char>, ghost goal: Pop)
      returns (used: nat, done: bool, ghost rest: seq<char>)
      requires Valid() && pos < size && 2 * (size + 1) < UINT32_LIMIT && HasRoom(token) && line.Valid()
      requires r == Contents()[pos..] && Expects(r, line.Exprs(), token.kind == EndOfLine, goal)
      modifies token, token.data, line, line.repr
      ensures line.Valid() && fresh(line.repr - old(line.repr))
      ensures HasRoom(token) && (token.data == old(token.data) || fresh(token.data))
      ensures Contents() == old(Contents()) && pos + used <= size && rest == old(Contents())[pos + used..]
      ensures used == 0 ==> goal.Nothing?
      ensures used > 0 ==>
                && Clean(rest)
                && (done ==> CanFinish(token.kind, rest, PipeError(line.Exprs()), line.Exprs(), goal))
                && (!done ==> Expects(rest, line.Exprs(), token.kind == EndOfLine, goal))
    {
      ghost var s := Contents();
      ghost var exprs, blank := line.Exprs(), token.kind == EndOfLine;
      used := ParseToken(pos, token);
      rest := s[pos + used..];
      ghost var text := token.Text();
      RoundOfPop(NextToken(r), r, rest, used, token.kind, text, exprs, blank);
      done := false;
      if used > 0 {
        done := TakeToken(token, line);
        AfterTake(token.kind, text, rest, exprs, done, line.Exprs());
      }
    }

    /** The loop of parser_pop_next; `found` is false if it is left by way of return_no_line. */
    method ReadLine(token: TokenBuffer, line: CommandLine, ghost goal: Pop)
      returns (found: bool, pos: nat, error: Error, ghost rest: seq<char>)
      requires Valid() && 2 * (size + 1) < UINT32_LIMIT && HasRoom(token) && line.Valid()
      requires Expects(Contents(), line.Exprs(), token.kind == EndOfLine, goal) && !goal.Abort?
      modifies token, token.data, line, line.repr
      ensures line.Valid() && fresh(line.repr - old(line.repr))
      ensures HasRoom(token) && (token.data == old(token.data) || fresh(token.data))
      ensures Contents() == old(Contents()) && pos <= size && rest == old(Contents())[pos..]
      ensures !found ==> goal.Nothing?
      ensures found ==> Clean(rest) && CanFinish(token.kind, rest, error, line.Exprs(), goal)
    {
      ghost var s := Contents();
      found, pos, error, rest := true, 0, TooLateArguments, s;
      while pos < size
        invariant line.Valid() && fresh(line.repr - old(line.repr))
        invariant HasRoom(token) && (token.data == old(token.data) || fresh(token.data))
        invariant Contents() == s && pos <= size && rest == s[pos..]
        invariant Expects(rest, line.Exprs(), token.kind == EndOfLine, goal)
        decreases size - pos
      {
        var used, done;
        used, done, rest := Round(pos, token, line, rest, goal);
        if used == 0 {
          found := false;
          return;
        }
        pos := pos + used;
        if done {
          line.TailIsLast();
          error := if line.tail == null then PipeWithNoLeftArg else PipeWithLeftArgNotACommand;
          return;
        }
      }
      EndOfBytes(rest, line.Exprs(), token.kind == EndOfLine, goal);
    }

    method PopLine(ghost goal: Pop) returns (err: ParserError, out: CommandLine?)
      requires Valid() && 2 * (size + 1) < UINT32_LIMIT && Expects(Contents(), [], false, goal) && !goal.Abort?
      modifies this`size, buffer
      ensures Valid() && (out != null ==> fresh(out) && out.Valid()) && (out != null <==> goal.Line?)
      ensures Delivers(goal, old(Contents()), err, if out == null then [] else out.Exprs(), Contents())
    {
      var line := new CommandLine();
      var token := new TokenBuffer();
      var found, pos, error, rest := ReadLine(token, line, goal);
      if !found {
        return Good, null;
      }
      err, out := Finish(pos, token, line, error, rest, goal);
    }

    /** parser_pop_next, for a buffer that is not filled by blank lines alone */
    method PopNext() returns (err: ParserError, out: CommandLine?)
      requires Valid() && Clean(Contents()) && 2 * (size + 1) < UINT32_LIMIT
      requires !ShellGrammar.PopNext(Contents()).Abort?
      modifies this`size, buffer
      ensures Valid() && (out != null ==> fresh(out) && out.Valid()) && (out != null <==> ShellGrammar.PopNext(old(Contents())).Line?)
      ensures Delivers(ShellGrammar.PopNext(old(Contents())), old(Contents()), err, if out == null then [] else out.Exprs(), Contents())
    {
      err, out := PopLine(ShellGrammar.PopNext(Contents()));
    }
  }
  /** One round of the drain loop. */
  lemma RoundOfDrain(s: seq<char>, events: seq<Event>, goal: Pop)
    requires Clean(s) && goal == ShellGrammar.PopNext(s) && Consumes(goal)
    ensures |goal.rest| < |s| && Clean(goal.rest)
    ensures ShellGrammar.Drain(goal.rest).aborted == ShellGrammar.Drain(s).aborted
    ensures Then(events + [EventOf(goal)], ShellGrammar.Drain(goal.rest)) == Then(events, ShellGrammar.Drain(s))
  {
    DrainStep(s);
    ParseUses(s, [], false);
    ThenThen(events, [EventOf(goal)], ShellGrammar.Drain(goal.rest));
  }

  lemma LastOfDrain(s: seq<char>, events: seq<Event>)
    requires Clean(s) && !ShellGrammar.Drain(s).aborted
    ensures !ShellGrammar.PopNext(s).Abort?
    ensures !Consumes(ShellGrammar.PopNext(s)) ==> Then(events, ShellGrammar.Drain(s)) == Drained(events, s, false)
  {
    assert events + [] == events;
  }

  /** The inner loop of main: pop until there is neither a line nor an error. */
  method Drain(p: Parser) returns (events: seq<Event>)
    requires p.Valid() && Clean(p.Contents()) && 2 * (p.size + 1) < UINT32_LIMIT
    requires !ShellGrammar.Drain(p.Contents()).aborted
    modifies p`size, p.buffer
    ensures p.Valid() && ShellGrammar.Drain(old(p.Contents())) == Drained(events, p.Contents(), false)
  {
    events := [];
    ghost var all := ShellGrammar.Drain(p.Contents());
    ghost var s := p.Contents();
    assert [] + all.events == all.events;
    while true
      invariant p.Valid() && p.Contents() == s && Clean(s) && 2 * (p.size + 1) < UINT32_LIMIT
      invariant !ShellGrammar.Drain(s).aborted && Then(events, ShellGrammar.Drain(s)) == all
      decreases |s|
    {
      ghost var goal := ShellGrammar.PopNext(s);
      LastOfDrain(s, events);
      if Consumes(goal) { RoundOfDrain(s, events, goal); }
      var err, line := p.PopNext();
      if err.Good? && line == null {
        return;
      }
      var e;
      if err.Bad? {
        e := GotError(err.error);
      } else {
        var exprs := line.Walk();
        e := GotLine(exprs);
      }
      assert Consumes(goal) && e == EventOf(goal) && p.Contents() == goal.rest;
      events := events + [e];
      s := goal.rest;
    }
  }

  lemma LastKeepsClean(r: seq<char>, t: seq<char>)
    requires t != [] && Clean(t)
    ensures Clean(r + t)
  {
    assert (r + t)[|r + t| - 1] == t[|t| - 1];
  }

  lemma FeedAllLast(all: seq<seq<char>>, before: seq<seq<char>>, last: seq<char>)
    requires all != [] && before == all[..|all| - 1] && last == all[|all| - 1]
    requires CleanChunks(all) && CleanChunks(before) && !FeedAll(before).aborted
    ensures var d := FeedAll(before);
            && Clean(d.rest + last)
            && FeedAll(all) == Then(d.events, ShellGrammar.Drain(d.rest + last))
  {
    LastKeepsClean(FeedAll(before).rest, last);
  }

  lemma PrefixSnoc(chunks: seq<seq<char>>, k: nat)
    requires k < |chunks|
    ensures chunks[..k + 1][..k] == chunks[..k] && chunks[..k + 1][k] == chunks[k]
    ensures CleanChunks(chunks) ==> CleanChunks(chunks[..k + 1]) && CleanChunks(chunks[..k])
  {
  }

  lemma FeedAllStep(chunks: seq<seq<char>>, k: nat)
    requires k < |chunks| && CleanChunks(chunks) && !FeedAll(chunks).aborted
    ensures var d := FeedAll(chunks[..k]);
            var next := FeedAll(chunks[..k + 1]);
            && !d.aborted && !next.aborted
            && Clean(d.rest + chunks[k])
            && next == Then(d.events, ShellGrammar.Drain(d.rest + chunks[k]))
  {
    PrefixSnoc(chunks, k);
    PrefixGoesOn(chunks, k);
    PrefixGoesOn(chunks, k + 1);
    FeedAllLast(chunks[..k + 1], chunks[..k], chunks[k]);
  }

  lemma {:induction false} PrefixGoesOn(chunks: seq<seq<char>>, k: nat)
    requires k <= |chunks| && CleanChunks(chunks) && !FeedAll(chunks).aborted
    ensures !FeedAll(chunks[..k]).aborted
    decreases |chunks|
  {
    if k == |chunks| {
      assert chunks[..k] == chunks;
    } else {
      var before := chunks[..|chunks| - 1];
      PrefixGoesOn(before, k);
      assert before[..k] == chunks[..k];
    }
  }

  /** What is buffered when read k has been fed stays so small that no 32-bit size overflows. */
  ghost predicate ReadFits(chunks: seq<seq<char>>, k: nat)
    requires k < |chunks|
  {
    CleanChunks(chunks[..k]) && 4 * (|FeedAll(chunks[..k]).rest| + |chunks[k]| + 1) < UINT32_LIMIT
  }

  /** One round of the outer loop of main. */
  method FeedAndDrain(p: Parser, chunk: seq<char>) returns (events: seq<Event>)
    requires p.Valid() && Clean(p.Contents() + chunk) && !ShellGrammar.Drain(p.Contents() + chunk).aborted
    requires 2 * (p.size + |chunk| + 1) < UINT32_LIMIT && 2 * (p.buffer.Length + 1) < UINT32_LIMIT
    modifies p, p.buffer
    ensures p.Valid() && (p.buffer == old(p.buffer) || fresh(p.buffer)) && p.size <= old(p.size) + |chunk|
    ensures p.buffer.Length <= old(p.buffer.Length) || p.buffer.Length <= 2 * (old(p.size) + |chunk|)
    ensures ShellGrammar.Drain(old(p.Contents()) + chunk) == Drained(events, p.Contents(), false)
  {
    p.Feed(chunk);
    events := Drain(p);
  }

  /** main: read, feed and drain until the input ends, however long it is. */
  method Session(chunks: seq<seq<char>>) returns (events: seq<Event>, p: Parser)
    requires CleanChunks(chunks) && !FeedAll(chunks).aborted
    requires forall k :: 0 <= k < |chunks| ==> ReadFits(chunks, k)
    ensures p.Valid() && FeedAll(chunks) == Drained(events, p.Contents(), false)
  {
    p := new Parser();
    events := [];
    var k := 0;
    ghost var sofar := FeedAll([]);
    assert chunks[..0] == [];
    while k < |chunks|
      invariant k <= |chunks| && fresh(p) && fresh(p.buffer) && p.Valid() && 2 * (p.buffer.Length + 1) < UINT32_LIMIT
      invariant sofar == FeedAll(chunks[..k]) && sofar == Drained(events, p.Contents(), false)
    {
      assert ReadFits(chunks, k);
      FeedAllStep(chunks, k);
      var more := FeedAndDrain(p, chunks[k]);
      events := events + more;
      sofar := Then(sofar.events, Drained(more, p.Contents(), false));
      k := k + 1;
    }
    assert chunks[..k] == chunks;
  }
}
