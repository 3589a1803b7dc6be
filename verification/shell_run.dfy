/**
 * The shell as a whole: a popped command line is walked along its links, and every command is
 * started with its descriptors (sems/4week/myshell/src/myshell.c:25-98).
 */
module ShellRun {
  import opened ShellGrammar
  import opened ShellLines
  import opened ShellPrinter
  import opened ShellParser
  import P = Pipeline

  lemma {:induction false} ParsedIsGood(s: seq<char>, line: seq<Expr>, blank: bool)
    requires Clean(s) && Alternates(line) && Parse(s, line, blank).Line?
    ensures GoodLine(Parse(s, line, blank).exprs)
    decreases |s|
  {
    var n := NextToken(s);
    EndsInCommandIfOdd(line);
    if n.token.NewLine? {
      if line == [] { ParsedIsGood(n.rest, [], true); }
    } else {
      PipeFollowsCommand(s, line, blank);
      TokenAtIsSpelled(SkipSpaces(s));
      PushAlternates(line, n.token);
      ParsedIsGood(n.rest, Push(line, n.token), false);
    }
  }

  function Kinds(exprs: seq<Expr>): (r: seq<P.Kind>)
    ensures |r| == |exprs|
    ensures forall i :: 0 <= i < |r| ==> r[i] == if exprs[i].Command? then P.Kind.Command else P.Kind.Pipe
  {
    seq(|exprs|, i requires 0 <= i < |exprs| => if exprs[i].Command? then P.Kind.Command else P.Kind.Pipe)
  }

  lemma GoodLineAlternates(line: seq<Expr>)
    requires GoodLine(line)
    ensures P.Alternating(Kinds(line))
  {
    forall i | 0 <= i < |line| ensures Kinds(line)[i].Pipe? <==> i % 2 == 1 {
      assert GoodExpr(line[i], i);
    }
  }

  /**
   * What the parser pops can be wired: executed by a shell with its standard descriptors and input_fd at
   * stdin, child i runs command i with descriptor 0 on the pipe before it, 1 on the pipe behind it, and
   * the shell has its own descriptors again.
   */
  lemma PoppedLineIsWired(s: seq<char>, shell: P.Shell)
    requires Clean(s) && PopNext(s).Line? && shell.table == P.STANDARD && shell.inputFd == 0
    ensures var line := Kinds(PopNext(s).exprs);
            var (after, children) := P.ExecuteLine(shell, line, |line|);
            var k := (|line| + 1) / 2;
            && after.table == P.STANDARD && |children| == k
            && forall i :: 0 <= i < k ==> children[i] == P.Wired(shell.pipes, i, k)
  {
    ParsedIsGood(s, [], false);
    GoodLineAlternates(PopNext(s).exprs);
    P.PipelineIsWired(shell, Kinds(PopNext(s).exprs));
  }

  lemma LineStep(start: P.Shell, kinds: seq<P.Kind>, k: nat, before: P.Shell, children: seq<P.Table>, after: P.Shell, child: P.Table)
    requires k < |kinds| && kinds[k].Command? && P.ExecuteLine(start, kinds, k) == (before, children)
    requires (after, child) == P.ExecuteCmd(before, P.IsNextPipe(kinds, k))
    ensures P.ExecuteLine(start, kinds, k + 1) == (after, children + [child])
  {
  }

  lemma WiredThrough(start: P.Shell, kinds: seq<P.Kind>)
    ensures P.Alternating(kinds) && start.table == P.STANDARD && P.InputFd(start.inputFd) ==>
              P.RunsThrough(start, P.ExecuteLine(start, kinds, |kinds|), (|kinds| + 1) / 2)
  {
    if P.Alternating(kinds) && start.table == P.STANDARD && P.InputFd(start.inputFd) {
      P.LineRuns(start, kinds);
    }
  }

  class ShellProcess {
    var fds: P.Table
    var inputFd: nat
    var pipes: nat  // pipes made so far: they number the pipes themselves

    ghost function State(): P.Shell
      reads this
    {
      P.Shell(fds, inputFd, pipes)
    }

    constructor ()
      ensures State() == P.Shell(P.STANDARD, 0, 0)
    {
      fds, inputFd, pipes := P.STANDARD, 0, 0;
    }

    /** execute_cmd: the descriptors the child has when it gets to execvp */
    method ExecuteCmd(notLastCmd: bool) returns (child: P.Table)
      modifies this
      ensures (State(), child) == P.ExecuteCmd(old(State()), notLastCmd)
    {
      var readEnd, writeEnd := 0, 0;
      if notLastCmd {
        var (t, r, w) := P.OpenPipe(fds, pipes);
        fds, readEnd, writeEnd := t, r, w;
        pipes := pipes + 1;
      }
      child := fds;
      if inputFd != 0 {
        child := P.Dup2(child, inputFd, 0);
        child := P.Close(child, inputFd);
      }
      if notLastCmd {
        child := P.Dup2(child, writeEnd, 1);
        child := P.Close(child, readEnd);
        child := P.Close(child, writeEnd);
      }
      if inputFd != 0 {
        fds := P.Close(fds, inputFd);
      }
      if notLastCmd {
        fds := P.Close(fds, writeEnd);
        inputFd := readEnd;
      }
    }

    /** execute_command_line */
    method ExecuteCommandLine(line: CommandLine) returns (children: seq<P.Table>)
      requires line.Valid()
      modifies this
      ensures line.Exprs() == old(line.Exprs())
      ensures (State(), children) == P.ExecuteLine(old(State()), Kinds(line.Exprs()), |line.Exprs()|)
      ensures P.Alternating(Kinds(line.Exprs())) && old(fds) == P.STANDARD && P.InputFd(old(inputFd)) ==>
                P.RunsThrough(old(State()), (State(), children), (|line.Exprs()| + 1) / 2)
    {
      ghost var start, kinds := State(), Kinds(line.Exprs());
      children := [];
      var e := line.head;
      ghost var k := 0;
      while e != null
        invariant line.Valid() && line.Exprs() == old(line.Exprs())
        invariant 0 <= k <= |kinds| && e == if k < |kinds| then line.nodes[k] else null
        invariant (State(), children) == P.ExecuteLine(start, kinds, k)
        decreases |kinds| - k
      {
        assert kinds[k] == if line.nodes[k].isCommand then P.Kind.Command else P.Kind.Pipe;
        ghost var before := State();
        if e.isCommand {
          var notLastCmd := e.next != null && !e.next.isCommand;
          assert notLastCmd <==> P.IsNextPipe(kinds, k);
          var child := ExecuteCmd(notLastCmd);
          LineStep(start, kinds, k, before, children, State(), child);
          children := children + [child];
        }
        e := e.next;
        k := k + 1;
      }
      WiredThrough(start, kinds);
    }
  }
}
