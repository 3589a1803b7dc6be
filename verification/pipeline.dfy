/**
 * How the shell wires a pipeline (sems/4week/myshell/src/myshell.c): descriptor tables of the
 * parent and of each child at its exec, when pipe and fork succeed.
 */
module Pipeline {

  /** What a descriptor refers to. */
  datatype End = Stdin | Stdout | Stderr | ReadEnd(pipe: nat) | WriteEnd(pipe: nat)

  type Table = map<nat, End>

  /** The lowest free descriptor from fd on. */
  function LowestFrom(t: Table, fd: nat): (r: nat)
    ensures fd <= r && r !in t && forall k :: fd <= k < r ==> k in t
    decreases UsedFrom(t, fd)
  {
    if fd !in t then fd
    else
      assert fd in UsedFrom(t, fd) && fd !in UsedFrom(t, fd + 1);
      LowestFrom(t, fd + 1)
  }

  ghost function UsedFrom(t: Table, fd: nat): set<nat> {
    set k | k in t.Keys && k >= fd
  }

  function OpenLowest(t: Table, e: End): (Table, nat) {
    var fd := LowestFrom(t, 0);
    (t[fd := e], fd)
  }

  /** pipe: the table, the read descriptor, the write descriptor. */
  function OpenPipe(t: Table, p: nat): (Table, nat, nat) {
    var (t1, r) := OpenLowest(t, ReadEnd(p));
    var (t2, w) := OpenLowest(t1, WriteEnd(p));
    (t2, r, w)
  }

  /** pipe gives out the two lowest free descriptors, the lower one for reading. */
  lemma PipeTakesTheLowest(t: Table, p: nat)
    ensures var (t', r, w) := OpenPipe(t, p);
            && r < w && r !in t && w !in t && (forall k :: 0 <= k < w && k != r ==> k in t)
            && t' == t[r := ReadEnd(p)][w := WriteEnd(p)]
  {
    var r := LowestFrom(t, 0);
    var t1 := t[r := ReadEnd(p)];
    var w := LowestFrom(t1, 0);
    assert w !in t1 && w != r;
    assert w < r ==> w in t;
    forall k | 0 <= k < w && k != r ensures k in t {
      assert k in t1;
    }
  }

  function Close(t: Table, fd: nat): Table {
    t - {fd}
  }

  /** dup2 fails on a closed descriptor and then changes nothing. */
  function Dup2(t: Table, from: nat, to: nat): Table {
    if from in t then t[to := t[from]] else t
  }

  datatype Kind = Command | Pipe

  /** The parent: its descriptors, the static input_fd, and the number of pipes opened so far. */
  datatype Shell = Shell(table: Table, inputFd: nat, pipes: nat)

  /** is_next_pipe */
  predicate IsNextPipe(line: seq<Kind>, i: nat) {
    i + 1 < |line| && line[i + 1].Pipe?
  }

  /** What the child of execute_cmd does to its copy of the table before exec. */
  function ChildTable(t: Table, inputFd: nat, piped: bool, r: nat, w: nat): Table {
    var t1 := if inputFd != 0 then Close(Dup2(t, inputFd, 0), inputFd) else t;
    if piped then Close(Close(Dup2(t1, w, 1), r), w) else t1
  }

  /** The parent's table during the fork, the most descriptors it ever has. */
  function AtFork(s: Shell, piped: bool): (Table, nat, nat) {
    if piped then OpenPipe(s.table, s.pipes) else (s.table, 0, 0)
  }

  /** execute_cmd: the parent afterwards and the child's table at exec. */
  function ExecuteCmd(s: Shell, piped: bool): (Shell, Table) {
    var (t, r, w) := AtFork(s, piped);
    var child := ChildTable(t, s.inputFd, piped, r, w);
    var t1 := if s.inputFd != 0 then Close(t, s.inputFd) else t;
    if piped then (Shell(Close(t1, w), r, s.pipes + 1), child)
    else (s.(table := t1), child)
  }

  /** execute_command_line up to the i-th expression, with any way to execute a command. */
  function RunLine(execute: (Shell, bool) -> (Shell, Table), s: Shell, line: seq<Kind>, i: nat): (Shell, seq<Table>)
    requires i <= |line|
  {
    if i == 0 then (s, [])
    else
      var (before, children) := RunLine(execute, s, line, i - 1);
      if line[i - 1].Pipe? then (before, children)
      else
        var (after, child) := execute(before, IsNextPipe(line, i - 1));
        (after, children + [child])
  }

  /** execute_command_line up to the i-th expression: the shell and the children's tables. */
  function ExecuteLine(s: Shell, line: seq<Kind>, i: nat): (Shell, seq<Table>)
    requires i <= |line|
  {
    RunLine(ExecuteCmd, s, line, i)
  }

  /** Commands and pipes alternate, with a command at each end: what the parser delivers. */
  predicate Alternating(line: seq<Kind>) {
    && |line| % 2 == 1
    && forall i :: 0 <= i < |line| ==> (line[i].Pipe? <==> i % 2 == 1)
  }

  const STANDARD: Table := map[0 := Stdin, 1 := Stdout, 2 := Stderr]

  /** The table child i of k should have: the pipe before it, the pipe after it, nothing else. */
  function Wired(firstPipe: nat, i: nat, k: nat): Table {
    map[0 := if i == 0 then Stdin else ReadEnd(firstPipe + i - 1),
        1 := if i + 1 == k then Stdout else WriteEnd(firstPipe + i),
        2 := Stderr]
  }

  /** The descriptor that gets the read end of the i-th pipe of a line. */
  function ReadFd(i: nat): nat {
    if i % 2 == 1 then 3 else 4
  }

  /**
   * The table child i of k gets when the line starts with input_fd. From 0 it is as it should be. With a
   * stale 3, every child but the last reads its own pipe, because input_fd is the number of the new read
   * end too, and the parent closes that end, so that the last child keeps the terminal. With a stale 4, the
   * first child takes the new write end for its input.
   */
  function ChildOf(inputFd: nat, firstPipe: nat, i: nat, k: nat): Table {
    if inputFd == 3 then
      if i + 1 < k then map[0 := ReadEnd(firstPipe + i), 1 := WriteEnd(firstPipe + i), 2 := Stderr] else STANDARD
    else if inputFd == 4 && i == 0 && k > 1 then
      map[0 := WriteEnd(firstPipe), 1 := Stdout, 2 := Stderr]
    else
      Wired(firstPipe, i, k)
  }

  /** The parent after i commands that were not the last. */
  function Between(inputFd: nat, firstPipe: nat, i: nat): Shell {
    if inputFd == 3 then Shell(STANDARD, 3, firstPipe + i)
    else if i == 0 then Shell(STANDARD, inputFd, firstPipe)
    else Shell(STANDARD[ReadFd(i) := ReadEnd(firstPipe + i - 1)], ReadFd(i), firstPipe + i)
  }

  /** What input_fd is after a line of k commands. */
  function InputAfter(inputFd: nat, k: nat): nat {
    if inputFd == 3 || k <= 1 then inputFd else ReadFd(k - 1)
  }

  /** The values that input_fd can have between lines. */
  predicate InputFd(fd: nat) { fd == 0 || fd == 3 || fd == 4 }

  lemma PipeFrom(inputFd: nat, firstPipe: nat, i: nat)
    requires InputFd(inputFd)
    ensures var s := Between(inputFd, firstPipe, i);
            var (t, r, w) := OpenPipe(s.table, s.pipes);
            && r == (if inputFd == 3 then 3 else ReadFd(i + 1))
            && w == (if inputFd == 3 || i == 0 then 4 else 5)
            && t == s.table[r := ReadEnd(s.pipes)][w := WriteEnd(s.pipes)]
  {
    var s := Between(inputFd, firstPipe, i);
    var held := inputFd != 3 && i > 0;
    assert 0 in s.table && 1 in s.table && 2 in s.table && 5 !in s.table;
    assert 3 in s.table <==> held && ReadFd(i) == 3;
    assert 4 in s.table <==> held && ReadFd(i) == 4;
    var r := LowestFrom(s.table, 0);
    var t1 := s.table[r := ReadEnd(s.pipes)];
    assert 0 in t1 && 1 in t1 && 2 in t1 && 3 in t1 && 5 !in t1;
    assert 4 in t1 <==> held;
  }

  /** In the parent: both ends of the new pipe are open; the read end stays, unless it is closed as input_fd. */
  lemma PipedParent(inputFd: nat, firstPipe: nat, i: nat)
    requires InputFd(inputFd)
    ensures ExecuteCmd(Between(inputFd, firstPipe, i), true).0 == Between(inputFd, firstPipe, i + 1)
    ensures AtFork(Between(inputFd, firstPipe, i), true).0.Keys <= {0, 1, 2, 3, 4, 5}
  {
    PipeFrom(inputFd, firstPipe, i);
    assert ExecuteCmd(Between(inputFd, firstPipe, i), true).0.table == Between(inputFd, firstPipe, i + 1).table;
  }

  lemma PipedChild(inputFd: nat, firstPipe: nat, i: nat, k: nat)
    requires InputFd(inputFd) && i + 1 < k
    ensures ExecuteCmd(Between(inputFd, firstPipe, i), true).1 == ChildOf(inputFd, firstPipe, i, k)
  {
    PipeFrom(inputFd, firstPipe, i);
  }

  /** One command that is not the last. */
  lemma PipedCommand(inputFd: nat, firstPipe: nat, i: nat, k: nat)
    requires InputFd(inputFd) && i + 1 < k
    ensures ExecuteCmd(Between(inputFd, firstPipe, i), true)
         == (Between(inputFd, firstPipe, i + 1), ChildOf(inputFd, firstPipe, i, k))
  {
    PipedParent(inputFd, firstPipe, i);
    PipedChild(inputFd, firstPipe, i, k);
  }

  /** The last command: the parent has its original table again. */
  lemma LastCommand(inputFd: nat, firstPipe: nat, k: nat)
    requires InputFd(inputFd) && k > 0
    ensures ExecuteCmd(Between(inputFd, firstPipe, k - 1), false)
         == (Shell(STANDARD, InputAfter(inputFd, k), firstPipe + k - 1), ChildOf(inputFd, firstPipe, k - 1, k))
  {
    var (after, child) := ExecuteCmd(Between(inputFd, firstPipe, k - 1), false);
    assert child == ChildOf(inputFd, firstPipe, k - 1, k);
    assert after.table == STANDARD;
  }

  ghost predicate AreChildren(children: seq<Table>, inputFd: nat, firstPipe: nat, k: nat) {
    forall i :: 0 <= i < |children| ==> children[i] == ChildOf(inputFd, firstPipe, i, k)
  }

  lemma OneMoreChild(children: seq<Table>, inputFd: nat, firstPipe: nat, k: nat)
    requires AreChildren(children, inputFd, firstPipe, k)
    ensures AreChildren(children + [ChildOf(inputFd, firstPipe, |children|, k)], inputFd, firstPipe, k)
  {
  }

  /** The parent between commands, and the children so far. */
  ghost predicate RunsUpTo(s: Shell, r: (Shell, seq<Table>), i: nat, k: nat) {
    r.0 == Between(s.inputFd, s.pipes, i) && |r.1| == i && AreChildren(r.1, s.inputFd, s.pipes, k)
  }

  lemma PipedRuns(s: Shell, r: (Shell, seq<Table>), i: nat, k: nat)
    requires i + 1 < k && InputFd(s.inputFd) && RunsUpTo(s, r, i, k)
    ensures RunsUpTo(s, (ExecuteCmd(r.0, true).0, r.1 + [ExecuteCmd(r.0, true).1]), i + 1, k)
  {
    PipedCommand(s.inputFd, s.pipes, i, k);
    OneMoreChild(r.1, s.inputFd, s.pipes, k);
  }

  /** j commands, none of them the last. */
  function PipedCommands(execute: (Shell, bool) -> (Shell, Table), s: Shell, j: nat): (Shell, seq<Table>) {
    if j == 0 then (s, [])
    else
      var (before, children) := PipedCommands(execute, s, j - 1);
      var (after, child) := execute(before, true);
      (after, children + [child])
  }

  lemma {:induction false} LineIsCommands(execute: (Shell, bool) -> (Shell, Table), s: Shell, line: seq<Kind>, i: nat, j: nat, k: nat)
    requires Alternating(line) && |line| == 2 * k - 1 && i == 2 * j && j < k
    ensures RunLine(execute, s, line, i) == PipedCommands(execute, s, j)
    ensures j + 1 == k ==>
              var (before, children) := PipedCommands(execute, s, j);
              var (after, child) := execute(before, false);
              RunLine(execute, s, line, i + 1) == (after, children + [child])
    decreases j
  {
    if j > 0 {
      LineIsCommands(execute, s, line, i - 2, j - 1, k);
      assert line[i - 2].Command? && line[i - 1].Pipe? && IsNextPipe(line, i - 2);
    }
  }

  lemma {:induction false} CommandsRun(s: Shell, j: nat, k: nat)
    requires j < k && s.table == STANDARD && InputFd(s.inputFd)
    ensures RunsUpTo(s, PipedCommands(ExecuteCmd, s, j), j, k)
    decreases j
  {
    if j > 0 {
      CommandsRun(s, j - 1, k);
      PipedRuns(s, PipedCommands(ExecuteCmd, s, j - 1), j - 1, k);
    }
  }

  lemma LastRuns(s: Shell, r: (Shell, seq<Table>), k: nat)
    requires k > 0 && InputFd(s.inputFd) && RunsUpTo(s, r, k - 1, k)
    ensures ExecuteCmd(r.0, false).0 == Shell(STANDARD, InputAfter(s.inputFd, k), s.pipes + k - 1)
    ensures AreChildren(r.1 + [ExecuteCmd(r.0, false).1], s.inputFd, s.pipes, k)
  {
    LastCommand(s.inputFd, s.pipes, k);
    OneMoreChild(r.1, s.inputFd, s.pipes, k);
  }

  /** k commands, the last of them without a pipe behind it. */
  function AllCommands(execute: (Shell, bool) -> (Shell, Table), s: Shell, k: nat): (Shell, seq<Table>)
    requires k > 0
  {
    var (before, children) := PipedCommands(execute, s, k - 1);
    var (after, child) := execute(before, false);
    (after, children + [child])
  }

  lemma WholeLine(execute: (Shell, bool) -> (Shell, Table), s: Shell, line: seq<Kind>, k: nat)
    requires Alternating(line) && |line| == 2 * k - 1
    ensures RunLine(execute, s, line, |line|) == AllCommands(execute, s, k)
  {
    LineIsCommands(execute, s, line, |line| - 1, k - 1, k);
  }

  /** The parent after a line of k commands, and all children. */
  ghost predicate RunsThrough(s: Shell, r: (Shell, seq<Table>), k: nat)
    requires k > 0
  {
    && r.0 == Shell(STANDARD, InputAfter(s.inputFd, k), s.pipes + k - 1)
    && |r.1| == k && AreChildren(r.1, s.inputFd, s.pipes, k)
  }

  lemma AllCommandsRun(s: Shell, k: nat)
    requires k > 0 && s.table == STANDARD && InputFd(s.inputFd)
    ensures RunsThrough(s, AllCommands(ExecuteCmd, s, k), k)
  {
    CommandsRun(s, k - 1, k);
    LastRuns(s, PipedCommands(ExecuteCmd, s, k - 1), k);
  }

  /** Every line, whatever input_fd was left by the lines before: all tables, and the parent afterwards. */
  lemma LineRuns(s: Shell, line: seq<Kind>)
    requires Alternating(line) && s.table == STANDARD && InputFd(s.inputFd)
    ensures RunsThrough(s, ExecuteLine(s, line, |line|), (|line| + 1) / 2)
  {
    var k := (|line| + 1) / 2;
    WholeLine(ExecuteCmd, s, line, k);
    AllCommandsRun(s, k);
  }

  /**
   * A line executed with input_fd at stdin: child i reaches exec with descriptors 0, 1 and 2 only,
   * 0 on the pipe from its predecessor and 1 on the pipe to its successor; the parent ends with
   * its original table.
   */
  lemma PipelineIsWired(s: Shell, line: seq<Kind>)
    requires Alternating(line) && s.table == STANDARD && s.inputFd == 0
    ensures var (after, children) := ExecuteLine(s, line, |line|);
            var k := (|line| + 1) / 2;
            && after == Shell(STANDARD, if k == 1 then 0 else ReadFd(k - 1), s.pipes + k - 1) && |children| == k
            && forall i :: 0 <= i < k ==> children[i] == Wired(s.pipes, i, k)
  {
    LineRuns(s, line);
  }

  lemma StaleThreeChildren(children: seq<Table>, firstPipe: nat, k: nat)
    requires |children| == k > 0 && AreChildren(children, 3, firstPipe, k)
    ensures forall i :: 0 <= i < k - 1 ==>
              children[i] == map[0 := ReadEnd(firstPipe + i), 1 := WriteEnd(firstPipe + i), 2 := Stderr]
    ensures children[k - 1] == map[0 := Stdin, 1 := Stdout, 2 := Stderr]
  {
  }

  /**
   * A pipeline started with a stale 3: each child but the last reads the pipe it writes, the last one keeps
   * the terminal, and input_fd stays 3.
   */
  lemma PipelineFromStaleThree(s: Shell, line: seq<Kind>)
    requires Alternating(line) && s.table == STANDARD && s.inputFd == 3
    ensures var (after, children) := ExecuteLine(s, line, |line|);
            var k := (|line| + 1) / 2;
            && after == Shell(STANDARD, 3, s.pipes + k - 1) && |children| == k
            && (forall i :: 0 <= i < k - 1 ==>
                  children[i] == map[0 := ReadEnd(s.pipes + i), 1 := WriteEnd(s.pipes + i), 2 := Stderr])
            && children[k - 1] == map[0 := Stdin, 1 := Stdout, 2 := Stderr]
  {
    LineRuns(s, line);
    var (_, children) := ExecuteLine(s, line, |line|);
    StaleThreeChildren(children, s.pipes, (|line| + 1) / 2);
  }

  /** A pipeline started with a stale 4: the first child gets the write end as its input, the rest is as it should be. */
  lemma PipelineFromStaleFour(s: Shell, line: seq<Kind>)
    requires Alternating(line) && s.table == STANDARD && s.inputFd == 4 && |line| > 1
    ensures var (after, children) := ExecuteLine(s, line, |line|);
            var k := (|line| + 1) / 2;
            && after == Shell(STANDARD, ReadFd(k - 1), s.pipes + k - 1) && |children| == k
            && children[0] == map[0 := WriteEnd(s.pipes), 1 := Stdout, 2 := Stderr]
            && forall i :: 0 < i < k ==> children[i] == Wired(s.pipes, i, k)
  {
    LineRuns(s, line);
  }

  /** Only child i, and not the parent, holds the write end of pipe i once all have started. */
  lemma OnlyOneWriter(s: Shell, line: seq<Kind>, i: nat, j: nat, fd: nat)
    requires Alternating(line) && s.table == STANDARD && s.inputFd == 0
    requires i + 1 < (|line| + 1) / 2 && j < (|line| + 1) / 2
    ensures j < |ExecuteLine(s, line, |line|).1|
    ensures fd in ExecuteLine(s, line, |line|).1[j] && ExecuteLine(s, line, |line|).1[j][fd] == WriteEnd(s.pipes + i)
            <==> j == i && fd == 1
    ensures WriteEnd(s.pipes + i) !in ExecuteLine(s, line, |line|).0.table.Values
  {
    PipelineIsWired(s, line);
  }

  /** While a line runs, whatever input_fd is, the parent never has more than three descriptors beyond 0, 1 and 2. */
  lemma AtMostThreeExtra(s: Shell, line: seq<Kind>, i: nat)
    requires Alternating(line) && s.table == STANDARD && InputFd(s.inputFd)
    requires i < |line| && line[i].Command?
    ensures AtFork(ExecuteLine(s, line, i).0, IsNextPipe(line, i)).0.Keys <= {0, 1, 2, 3, 4, 5}
  {
    assert i % 2 == 0;
    LineIsCommands(ExecuteCmd, s, line, i, i / 2, (|line| + 1) / 2);
    CommandsRun(s, i / 2, (|line| + 1) / 2);
    PipedParent(s.inputFd, s.pipes, i / 2);
  }

  ghost predicate AllWired(s: Shell, line: seq<Kind>) {
    var children := ExecuteLine(s, line, |line|).1;
    forall i :: 0 <= i < |children| ==> children[i] == Wired(s.pipes, i, (|line| + 1) / 2)
  }

  predicate Fresh(s: Shell) { s.table == STANDARD && s.inputFd == 0 }

  /** After a pipeline: input_fd is the number of a descriptor that has been closed. */
  predicate Stale(s: Shell) { s.table == STANDARD && (s.inputFd == 3 || s.inputFd == 4) }

  /** With a stale input_fd a single command runs as it should, and a pipeline does not. */
  lemma StaleLine(t: Shell, line: seq<Kind>)
    requires Stale(t) && Alternating(line)
    ensures AllWired(t, line) <==> |line| == 1
    ensures |line| == 1 ==> Stale(ExecuteLine(t, line, |line|).0)
  {
    LineRuns(t, line);
    var k := (|line| + 1) / 2;
    var first := ExecuteLine(t, line, |line|).1[0];
    assert first == ChildOf(t.inputFd, t.pipes, 0, k);
    assert k > 1 ==> first[0] != Stdin && Wired(t.pipes, 0, k)[0] == Stdin;
  }

  /** With a fresh input_fd every line is wired; it stays fresh only after a single command. */
  lemma FreshLine(s: Shell, line: seq<Kind>)
    requires Fresh(s) && Alternating(line)
    ensures AllWired(s, line)
    ensures if |line| == 1 then Fresh(ExecuteLine(s, line, |line|).0) else Stale(ExecuteLine(s, line, |line|).0)
  {
    PipelineIsWired(s, line);
  }

  /**
   * input_fd keeps the number of a closed descriptor after a pipeline. The next line is then wired
   * rightly exactly if it is a single command.
   */
  lemma NextLineIsWiredExactlyIfSingle(s: Shell, first: seq<Kind>, next: seq<Kind>)
    requires Alternating(first) && |first| > 1 && Fresh(s)
    requires Alternating(next)
    ensures AllWired(ExecuteLine(s, first, |first|).0, next) <==> |next| == 1
  {
    FreshLine(s, first);
    StaleLine(ExecuteLine(s, first, |first|).0, next);
  }

  // ----- Sessions of several lines -----

  /** The shell before line k of a session. */
  function Before(s: Shell, lines: seq<seq<Kind>>, k: nat): Shell
    requires k <= |lines|
  {
    if k == 0 then s
    else
      var line := lines[k - 1];
      ExecuteLine(Before(s, lines, k - 1), line, |line|).0
  }

  /** How many of the first k lines have more than one command. */
  function Pipelines(lines: seq<seq<Kind>>, k: nat): nat
    requires k <= |lines|
  {
    if k == 0 then 0 else Pipelines(lines, k - 1) + (if |lines[k - 1]| > 1 then 1 else 0)
  }

  lemma {:induction false} StateInSession(s: Shell, lines: seq<seq<Kind>>, k: nat)
    requires Fresh(s) && k <= |lines| && forall j :: 0 <= j < |lines| ==> Alternating(lines[j])
    ensures Pipelines(lines, k) == 0 ==> Fresh(Before(s, lines, k))
    ensures Pipelines(lines, k) == 1 ==> Stale(Before(s, lines, k))
  {
    if k > 0 {
      StateInSession(s, lines, k - 1);
      var before := Before(s, lines, k - 1);
      if Pipelines(lines, k - 1) == 0 {
        FreshLine(before, lines[k - 1]);
      } else if Pipelines(lines, k - 1) == 1 {
        StaleLine(before, lines[k - 1]);
      }
    }
  }

  lemma {:induction false} PipelinesGrow(lines: seq<seq<Kind>>, k: nat, l: nat)
    requires k <= l <= |lines|
    ensures Pipelines(lines, k) <= Pipelines(lines, l)
    decreases l
  {
    if k < l {
      PipelinesGrow(lines, k, l - 1);
    }
  }

  lemma {:induction false} SecondPipeline(lines: seq<seq<Kind>>, l: nat) returns (k: nat)
    requires l <= |lines| && Pipelines(lines, l) >= 2
    ensures k < l && Pipelines(lines, k) == 1 && |lines[k]| > 1
  {
    if Pipelines(lines, l - 1) >= 2 {
      k := SecondPipeline(lines, l - 1);
    } else {
      k := l - 1;
    }
  }

  ghost predicate LineIsWired(s: Shell, lines: seq<seq<Kind>>, k: nat)
    requires k < |lines|
  {
    AllWired(Before(s, lines, k), lines[k])
  }

  /** Up to the second pipeline of a session: only that one is not wired. */
  lemma LineOfSession(s: Shell, lines: seq<seq<Kind>>, k: nat)
    requires Fresh(s) && k < |lines| && forall j :: 0 <= j < |lines| ==> Alternating(lines[j])
    requires Pipelines(lines, k) <= 1
    ensures LineIsWired(s, lines, k) <==> Pipelines(lines, k) == 0 || |lines[k]| == 1
  {
    StateInSession(s, lines, k);
    if Pipelines(lines, k) == 0 {
      FreshLine(Before(s, lines, k), lines[k]);
    } else {
      StaleLine(Before(s, lines, k), lines[k]);
    }
  }

  ghost predicate SessionIsWired(s: Shell, lines: seq<seq<Kind>>) {
    forall k :: 0 <= k < |lines| ==> LineIsWired(s, lines, k)
  }

  lemma NoSecondPipeline(lines: seq<seq<Kind>>, k: nat)
    requires k < |lines| && Alternating(lines[k]) && Pipelines(lines, |lines|) <= 1
    ensures Pipelines(lines, k) == 0 || (Pipelines(lines, k) == 1 && |lines[k]| == 1)
  {
    PipelinesGrow(lines, k + 1, |lines|);
  }

  /** Every child of every line of a session is wired, if and only if at most one line is a pipeline. */
  lemma SessionIsWiredExactlyUpToOnePipeline(s: Shell, lines: seq<seq<Kind>>)
    requires Fresh(s) && forall k :: 0 <= k < |lines| ==> Alternating(lines[k])
    ensures SessionIsWired(s, lines) <==> Pipelines(lines, |lines|) <= 1
  {
    if Pipelines(lines, |lines|) <= 1 {
      forall k | 0 <= k < |lines| ensures LineIsWired(s, lines, k) {
        NoSecondPipeline(lines, k);
        LineOfSession(s, lines, k);
      }
    } else {
      var k := SecondPipeline(lines, |lines|);
      LineOfSession(s, lines, k);
    }
  }

  /** input_fd before line k of a session. */
  function InputBefore(inputFd: nat, lines: seq<seq<Kind>>, k: nat): nat
    requires k <= |lines|
  {
    if k == 0 then inputFd else InputAfter(InputBefore(inputFd, lines, k - 1), (|lines[k - 1]| + 1) / 2)
  }

  lemma {:induction false} ShellInSession(s: Shell, lines: seq<seq<Kind>>, k: nat)
    requires Fresh(s) && k <= |lines| && forall j :: 0 <= j < |lines| ==> Alternating(lines[j])
    ensures Before(s, lines, k).table == STANDARD
    ensures Before(s, lines, k).inputFd == InputBefore(0, lines, k) && InputFd(InputBefore(0, lines, k))
  {
    if k > 0 {
      ShellInSession(s, lines, k - 1);
      LineRuns(Before(s, lines, k - 1), lines[k - 1]);
    }
  }

  /** The tables of all children of all lines of a session. */
  lemma ChildrenInSession(s: Shell, lines: seq<seq<Kind>>, k: nat)
    requires Fresh(s) && k < |lines| && forall j :: 0 <= j < |lines| ==> Alternating(lines[j])
    ensures var before := Before(s, lines, k);
            AreChildren(ExecuteLine(before, lines[k], |lines[k]|).1, InputBefore(0, lines, k), before.pipes, (|lines[k]| + 1) / 2)
  {
    ShellInSession(s, lines, k);
    LineRuns(Before(s, lines, k), lines[k]);
  }
}
