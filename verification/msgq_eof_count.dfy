/**
 * Where the EOF messages go (sems/bogatyri/msgq_bogatyri.c, broadcast_eof_to_all and the loop): as long as
 * no broadcast meets a full queue, none is lost and none is sent but by a process that has passed the rank.
 */
module MsgqEofCount {
  import opened Sums
  import opened MsgqBogatyri

  /** 1 if process r, being p, has tried to tell rank q. */
  function Passed(p: Process, r: nat, q: nat): int {
    if r != q && (p.Exited? || (p.Broadcasting? && p.next > q)) then 1 else 0
  }

  function PassedBy(procs: seq<Process>, q: nat): seq<int> {
    seq(|procs|, r requires 0 <= r < |procs| => Passed(procs[r], r, q))
  }

  /** How many processes have tried to tell rank q. */
  function Tellers(procs: seq<Process>, q: nat): int {
    Sum(PassedBy(procs, q))
  }

  lemma TellersUpdate(procs: seq<Process>, r: nat, p: Process, q: nat)
    requires r < |procs|
    ensures Tellers(procs[r := p], q) == Tellers(procs, q) - Passed(procs[r], r, q) + Passed(p, r, q)
  {
    assert PassedBy(procs[r := p], q) == PassedBy(procs, q)[r := Passed(p, r, q)];
    SumUpdate(PassedBy(procs, q), r, Passed(p, r, q));
  }

  /** Everybody has left: each rank has been tried by all others. */
  lemma TellersAtTheEnd(procs: seq<Process>, q: nat)
    requires q < |procs| && forall r :: 0 <= r < |procs| ==> procs[r].Exited?
    ensures Tellers(procs, q) == |procs| - 1
  {
    var ones := seq(|procs|, _ => 1);
    assert PassedBy(procs, q) == ones[q := 0];
    SumUpdate(ones, q, 0);
    SumConstant(ones, 1);
  }

  /** 1 if rank q, being p, has taken an EOF out: it has gone on to its broadcast without having printed the end. */
  function Took(c: Config, p: Process, q: nat): int {
    if Started(p) && c.text != [] && q != Last(c.text) then 1 else 0
  }

  /** The EOF messages for q: those in the queue and the one taken out are those that were sent. */
  predicate Conserved(c: Config, s: State, q: nat)
    requires q < |s.procs|
  {
    multiset(s.queue)[Eof(q + 1)] + Took(c, s.procs[q], q) == Tellers(s.procs, q)
  }

  /** No broadcast meets a full queue. */
  ghost predicate NeverFull(c: Config, s: State, run: seq<nat>)
    decreases |run|
  {
    run == [] || (Enabled(c, s, run[0]) && (s.procs[run[0]].Broadcasting? ==> |s.queue| < c.cap)
                  && NeverFull(c, Apply(c, s, run[0]), run[1..]))
  }

  lemma WithoutOne(queue: seq<Message>, m: nat)
    requires m < |queue|
    ensures multiset(Without(queue, m)) == multiset(queue) - multiset{queue[m]}
  {
    assert queue == queue[..m] + [queue[m]] + queue[m + 1..];
  }

  /** Only the empty text starts a broadcast at once, and whoever printed the last character takes no EOF. */
  lemma LoopFacts(c: Config, s: State, r: nat)
    requires Inv(c, s) && r < c.n && s.procs[r].Loop?
    ensures s.procs[r].i >= |c.text| ==> c.text == []
    ensures forall m :: 0 <= m < |s.queue| && s.queue[m].Eof? ==> c.text == [] || r != Last(c.text)
  {
  }

  lemma LoopConserves(c: Config, s: State, r: nat, q: nat)
    requires Enabled(c, s, r) && s.procs[r].Loop? && q < |s.procs| && Conserved(c, s, q)
    requires s.procs[r].i >= |c.text| ==> c.text == []
    requires forall m :: 0 <= m < |s.queue| && s.queue[m].Eof? ==> c.text == [] || r != Last(c.text)
    ensures Conserved(c, Apply(c, s, r), q)
  {
    TellersUpdate(s.procs, r, Apply(c, s, r).procs[r], q);
    var i := s.procs[r].i;
    if i < |c.text| && c.text[i] != r {
      WithoutOne(s.queue, FirstOf(s.queue, r + 1));
    }
  }

  lemma EndingFacts(c: Config, s: State, r: nat)
    requires Inv(c, s) && r < c.n && s.procs[r].Singing? && s.procs[r].i >= |c.text|
    ensures c.text != [] && r == Last(c.text)
  {
  }

  lemma PrintingConserves(c: Config, s: State, r: nat, q: nat)
    requires Enabled(c, s, r) && (s.procs[r].Singing? || s.procs[r].Sending?)
    requires s.procs[r].Singing? && s.procs[r].i >= |c.text| ==> c.text != [] && r == Last(c.text)
    requires q < |s.procs| && Conserved(c, s, q)
    ensures Conserved(c, Apply(c, s, r), q)
  {
    TellersUpdate(s.procs, r, Apply(c, s, r).procs[r], q);
  }

  lemma BroadcastConserves(c: Config, s: State, r: nat, q: nat)
    requires Enabled(c, s, r) && s.procs[r].Broadcasting? && |s.queue| < c.cap
    requires q < c.n == |s.procs| && Conserved(c, s, q)
    ensures Conserved(c, Apply(c, s, r), q)
  {
    TellersUpdate(s.procs, r, Apply(c, s, r).procs[r], q);
  }

  lemma StepConserves(c: Config, s: State, r: nat, q: nat)
    requires Inv(c, s) && Enabled(c, s, r) && (s.procs[r].Broadcasting? ==> |s.queue| < c.cap)
    requires q < c.n && Conserved(c, s, q)
    ensures Conserved(c, Apply(c, s, r), q)
  {
    match s.procs[r]
    case Loop(_) => LoopFacts(c, s, r); LoopConserves(c, s, r, q);
    case Broadcasting(_) => BroadcastConserves(c, s, r, q);
    case Singing(i) => if i >= |c.text| { EndingFacts(c, s, r); } PrintingConserves(c, s, r, q);
    case _ => PrintingConserves(c, s, r, q);
  }

  lemma {:induction false} RunConserves(c: Config, s: State, run: seq<nat>, t: State, q: nat)
    requires Inv(c, s) && q < c.n && Conserved(c, s, q) && RunTo(c, s, run, t) && NeverFull(c, s, run)
    ensures |t.procs| == c.n && Conserved(c, t, q)
    decreases |run|
  {
    if run != [] {
      var r := run[0];
      StepKeepsInv(c, s, r);
      StepConserves(c, s, r, q);
      RunConserves(c, Apply(c, s, r), run[1..], t, q);
    }
  }

  /**
   * For every text, the empty one included, and every run in which no broadcast meets a full queue: the
   * EOF messages for rank q that are queued, and the one it may have taken, are as many as the other processes
   * that have passed q in their broadcast.
   */
  lemma EofsAreConserved(c: Config, run: seq<nat>, t: State, q: nat)
    requires RunTo(c, Init(c), run, t) && NeverFull(c, Init(c), run) && q < c.n
    ensures |t.procs| == c.n && Conserved(c, t, q)
    ensures (forall r :: 0 <= r < c.n ==> t.procs[r].Exited?) ==>
              multiset(t.queue)[Eof(q + 1)] == if c.text == [] || q == Last(c.text) then c.n - 1 else c.n - 2
  {
    InitInv(c);
    SumConstant(PassedBy(Init(c).procs, q), 0);
    RunConserves(c, Init(c), run, t, q);
    if forall r :: 0 <= r < c.n ==> t.procs[r].Exited? {
      TellersAtTheEnd(t.procs, q);
    }
  }
}
