/**
 * The event loop of one process (sems/bogatyri/sockets2.c:226-310): each round of it, and the loop that
 * tells EOF, do what the corresponding steps of the system do.
 */
module SocketProcess {
  import opened SocketRing

  lemma RunThen(c: Config, s: State, run: seq<Event>, t: State, e: Event)
    requires RunTo(c, s, run, t) && Enabled(c, t, e)
    ensures RunTo(c, s, run + [e], Apply(c, t, e))
    decreases |run|
  {
    if run == [] {
      assert run + [e] == [e] && [e][1..] == [];
    } else {
      RunThen(c, Apply(c, s, run[0]), run[1..], t, e);
      assert (run + [e])[0] == run[0] && (run + [e])[1..] == run[1..] + [e];
    }
  }

  lemma OneStep(c: Config, s: State, e: Event)
    requires Enabled(c, s, e)
    ensures RunTo(c, s, [e], Apply(c, s, e))
  {
    assert [e][1..] == [];
  }

  /** From s on, the finishing process r has treated the ranks below i. */
  predicate ToldUpTo(s: State, t: State, r: nat, i: nat, connects: seq<bool>)
    requires r < |s.procs| == |s.inbox| == |connects|
  {
    && t.out == s.out && t.procs == s.procs[r := Finishing(i)] && |t.inbox| == |s.inbox|
    && (forall q :: 0 <= q < |s.inbox| ==> t.inbox[q] == s.inbox[q] + if q < i && q != r && connects[q] then [Eof] else [])
    && t.missed == s.missed + (set q: nat | q < |connects| && q < i && q != r && !connects[q])
  }

  lemma TellNext(c: Config, s: State, t: State, r: nat, i: nat, connects: seq<bool>)
    requires r < |s.procs| == |s.inbox| == |connects| == c.n && i < c.n && ToldUpTo(s, t, r, i, connects)
    requires i != r && connects[i] ==> !s.procs[i].Exited?
    ensures var e := Move(r, connects[i]);
            && Enabled(c, t, e) && ToldUpTo(s, Apply(c, t, e), r, i + 1, connects)
            && Apply(c, t, e).inbox == if i != r && connects[i] then t.inbox[i := t.inbox[i] + [Eof]] else t.inbox
  {
  }

  /** The listening sockets: what has been sent to each rank and not been accepted yet. */
  class Network {
    var inbox: seq<seq<Message>>

    constructor (n: nat)
      ensures inbox == seq(n, _ => [])
      ensures forall c: Config :: c.n == n > 0 ==> inbox == Init(c).inbox
    {
      inbox := seq(n, _ => []);
    }

    /** connect_to_process and send; whether the connect succeeds is not up to the caller. */
    method Send(rank: nat, msg: Message, connects: bool) returns (sent: bool)
      requires rank < |inbox|
      modifies this
      ensures sent == connects
      ensures inbox == if sent then old(inbox)[rank := old(inbox)[rank] + [msg]] else old(inbox)
    {
      if connects {
        inbox := inbox[rank := inbox[rank] + [msg]];
      }
      sent := connects;
    }

    method Accept(rank: nat) returns (msg: Message)
      requires rank < |inbox| && inbox[rank] != []
      modifies this
      ensures msg == old(inbox)[rank][0] && inbox == old(inbox)[rank := old(inbox)[rank][1..]]
    {
      msg := inbox[rank][0];
      inbox := inbox[rank := inbox[rank][1..]];
    }
  }

  class RingProcess {
    const rank: nat
    var active: bool
    var currentIndex: nat

    constructor (rank: nat)
      ensures this.rank == rank && active == (rank == 0) && currentIndex == 0
      ensures forall c: Config :: rank < c.n ==> AsProcess() == Init(c).procs[rank]
    {
      this.rank, active, currentIndex := rank, rank == 0, 0;
    }

    function AsProcess(): Process
      reads this
    {
      if active then Active(currentIndex) else Passive(currentIndex)
    }

    /** The system's state shows this process and the network as they are. */
    ghost predicate Shows(c: Config, s: State, net: Network)
      reads this, net
    {
      && c.n > 0 && rank < |s.procs| == |s.inbox| == c.n
      && s.procs[rank] == AsProcess() && s.inbox == net.inbox
    }

    /** A round of the loop while active and before the end of the string. */
    method ActiveRound(net: Network, text: seq<nat>, n: nat, connects: bool, ghost c: Config, ghost s: State)
      returns (printed: seq<nat>, ghost run: seq<Event>, ghost t: State)
      requires Shows(c, s, net) && c.text == text && c.n == n && active && currentIndex < |text|
      requires connects ==> forall q :: 0 <= q < n ==> !s.procs[q].Exited?
      modifies this, net
      ensures RunTo(c, s, run, t) && Shows(c, t, net)
      ensures t.out == s.out + printed && t.missed == s.missed
      ensures forall q :: 0 <= q < n && q != rank ==> t.procs[q] == s.procs[q]
      ensures printed == if old(text[currentIndex] % n) == rank then [text[old(currentIndex)]] else []
      ensures currentIndex == old(currentIndex) + |printed|
      ensures active <==> !connects || currentIndex == |text|
    {
      ghost var e := Move(rank, connects);
      var target := text[currentIndex] % n;
      printed, run, t := [], [e], Apply(c, s, e);
      OneStep(c, s, e);
      if target == rank {
        printed := [text[currentIndex]];
        currentIndex := currentIndex + 1;
        if currentIndex < |text| {
          RunThen(c, s, run, t, e);
          run, t := run + [e], Apply(c, t, e);
          var sent := net.Send(text[currentIndex] % n, Index(currentIndex), connects);
          if sent {
            active := false;
          }
        }
      } else {
        var sent := net.Send(target, Index(currentIndex), connects);
        if sent {
          active := false;
        }
      }
    }

    /** The end of the string: every other rank is told once; a failed connect is not repeated. */
    method TellEof(net: Network, n: nat, connects: seq<bool>, ghost c: Config, ghost s: State)
      returns (ghost run: seq<Event>, ghost t: State)
      requires Shows(c, s, net) && c.n == n == |connects| && active && currentIndex >= |c.text|
      requires forall q :: 0 <= q < n && q != rank && connects[q] ==> !s.procs[q].Exited?
      modifies net
      ensures RunTo(c, s, run, t) && t.inbox == net.inbox && t.out == s.out && t.procs == s.procs[rank := Exited]
      ensures |net.inbox| == n && forall q :: 0 <= q < n ==>
                net.inbox[q] == old(net.inbox)[q] + (if q != rank && connects[q] then [Eof] else [])
      ensures t.missed == s.missed + (set q: nat | q < |connects| && q != rank && !connects[q])
    {
      ghost var e := Move(rank, false);
      run, t := [e], Apply(c, s, e);
      OneStep(c, s, e);
      var i := 0;
      while i < n
        invariant i <= n && RunTo(c, s, run, t) && t.inbox == net.inbox && ToldUpTo(s, t, rank, i, connects)
      {
        e := Move(rank, connects[i]);
        TellNext(c, s, t, rank, i, connects);
        RunThen(c, s, run, t, e);
        run, t := run + [e], Apply(c, t, e);
        if i != rank {
          var _ := net.Send(i, Eof, connects[i]);
        }
        i := i + 1;
      }
      e := Move(rank, false);
      RunThen(c, s, run, t, e);
      run, t := run + [e], Apply(c, t, e);
    }

    /** A round of the loop while inactive, when a connection is waiting. */
    method PassiveRound(net: Network, ghost c: Config, ghost s: State) returns (eofReceived: bool, ghost t: State)
      requires Shows(c, s, net) && !active && s.inbox[rank] != []
      modifies this, net
      ensures t == Apply(c, s, Move(rank, true)) && t.inbox == net.inbox
      ensures eofReceived <==> t.procs[rank].Exited?
      ensures !eofReceived ==> Shows(c, t, net) && active
    {
      t := Apply(c, s, Move(rank, true));
      var msg := net.Accept(rank);
      eofReceived := msg.Eof?;
      if !eofReceived {
        currentIndex, active := msg.i, true;
      }
    }
  }
}
