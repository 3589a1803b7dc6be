/**
 * Token passing over a typed message queue (sems/bogatyri/msgq_bogatyri.c).
 *
 * n processes with ranks 0..n-1 print a text together: character c belongs to rank c.
 * The process whose turn it is hands the index of the next character to its owner
 * through a shared queue; after the last character everybody is told EOF.
 * One step of the system is one print, one send, one receive or one loop test.
 */
module MsgqBogatyri {
  import opened Sums

  /** `mtype` is the receiver's rank plus one; Eof stands for the index -1. */
  datatype Message = Index(mtype: nat, index: nat) | Eof(mtype: nat)

  /** Where a process is; `i` is its own, possibly stale, current_index. */
  datatype Process =
    | Loop(i: nat)             // at the test of the loop in process_string_loop
    | Singing(i: nat)          // inside process_my_characters_sequence
    | Sending(i: nat)          // about to call the blocking msgsnd
    | Broadcasting(next: nat)  // broadcast_eof_to_all, about to treat rank `next`
    | Exited

  /** n processes, the text, and the number of messages the queue can hold. */
  datatype Config = Config(n: nat, text: seq<nat>, cap: nat)

  datatype State = State(procs: seq<Process>, queue: seq<Message>, out: seq<nat>)

  function Init(c: Config): State {
    State(seq(c.n, _ => Loop(0)), [], [])
  }

  /** The position msgrcv picks: the first message of the type, or |queue| if there is none. */
  function FirstOf(queue: seq<Message>, mtype: nat): (m: nat)
    ensures m <= |queue|
    ensures m < |queue| ==> queue[m].mtype == mtype
    ensures forall j :: 0 <= j < m ==> queue[j].mtype != mtype
  {
    if queue == [] || queue[0].mtype == mtype then 0 else 1 + FirstOf(queue[1..], mtype)
  }

  function Without(queue: seq<Message>, m: nat): seq<Message>
    requires m < |queue|
  {
    queue[..m] + queue[m + 1..]
  }

  /** A send that gives up when the queue is full (IPC_NOWAIT). */
  function TrySend(c: Config, queue: seq<Message>, msg: Message): seq<Message> {
    if |queue| < c.cap then queue + [msg] else queue
  }

  predicate Enabled(c: Config, s: State, r: nat) {
    && r < |s.procs|
    && match s.procs[r]
       case Loop(i) => i >= |c.text| || c.text[i] == r || FirstOf(s.queue, r + 1) < |s.queue|
       case Singing(_) => true
       case Sending(i) => i < |c.text| && |s.queue| < c.cap
       case Broadcasting(_) => true
       case Exited => false
  }

  function Apply(c: Config, s: State, r: nat): State
    requires Enabled(c, s, r)
  {
    match s.procs[r]
    case Loop(i) =>
      if i >= |c.text| then
        s.(procs := s.procs[r := Broadcasting(0)])
      else if c.text[i] == r then
        s.(procs := s.procs[r := Singing(i)])
      else
        var m := FirstOf(s.queue, r + 1);
        var p := if s.queue[m].Eof? then Broadcasting(0) else Loop(s.queue[m].index);
        s.(procs := s.procs[r := p], queue := Without(s.queue, m))
    case Singing(i) =>
      if i < |c.text| && c.text[i] == r then
        s.(procs := s.procs[r := Singing(i + 1)], out := s.out + [c.text[i]])
      else if i < |c.text| then
        s.(procs := s.procs[r := Sending(i)])
      else
        s.(procs := s.procs[r := Broadcasting(0)])
    case Sending(i) =>
      s.(procs := s.procs[r := Loop(i)], queue := s.queue + [Index(c.text[i] + 1, i)])
    case Broadcasting(next) =>
      if next >= c.n then
        s.(procs := s.procs[r := Exited])
      else
        s.(procs := s.procs[r := Broadcasting(next + 1)],
           queue := if next == r then s.queue else TrySend(c, s.queue, Eof(next + 1)))
  }

  /** The schedule `run` (who moves, in order) leads from s to t. */
  ghost predicate RunTo(c: Config, s: State, run: seq<nat>, t: State)
    decreases |run|
  {
    if run == [] then s == t
    else Enabled(c, s, run[0]) && RunTo(c, Apply(c, s, run[0]), run[1..], t)
  }

  ghost predicate Stuck(c: Config, s: State) {
    forall r :: !Enabled(c, s, r)
  }

  lemma {:induction false} RunConcat(c: Config, s: State, a: seq<nat>, t: State, b: seq<nat>, u: State)
    requires RunTo(c, s, a, t) && RunTo(c, t, b, u)
    ensures RunTo(c, s, a + b, u)
    decreases |a|
  {
    if a == [] {
      assert a + b == b;
    } else {
      assert (a + b)[1..] == a[1..] + b;
      RunConcat(c, Apply(c, s, a[0]), a[1..], t, b, u);
    }
  }

  // ----- Safety: one token, stale indices point at foreign characters -----

  /** A process that holds only an outdated index: the character there is not its own. */
  predicate Stale(c: Config, p: Process, r: nat) {
    p.Loop? && p.i < |c.text| && c.text[p.i] != r
  }

  /** Process r, being p, is the one that has the right to go on at index k. */
  predicate Holds(c: Config, p: Process, r: nat, k: nat) {
    match p
    case Loop(i) => i == k < |c.text| && c.text[k] == r
    case Singing(i) => i == k <= |c.text| && (k == |c.text| ==> k > 0 && c.text[k - 1] == r)
    case Sending(i) => i == k < |c.text| && c.text[k] != r
    case _ => false
  }

  predicate HeldOnlyBy(c: Config, s: State, h: nat) {
    && h < |s.procs|
    && Holds(c, s.procs[h], h, |s.out|)
    && forall r :: 0 <= r < |s.procs| && r != h ==> Stale(c, s.procs[r], r)
  }

  predicate AllStale(c: Config, s: State) {
    forall r :: 0 <= r < |s.procs| ==> Stale(c, s.procs[r], r)
  }

  /** Before EOF: the right to print text[k] is with exactly one process or one queued message. */
  ghost predicate TokenPhase(c: Config, s: State) {
    var k := |s.out|;
    && 0 < |c.text|
    && k <= |c.text| && s.out == c.text[..k]
    && (forall j :: 0 <= j < k ==> c.text[j] < c.n)
    && ( (s.queue == [] && exists h :: HeldOnlyBy(c, s, h))
      || (k < |c.text| && AllStale(c, s) && s.queue == [Index(c.text[k] + 1, k)])
      || (k == 0 && AllStale(c, s) && s.queue == [] && c.text[0] >= c.n))
  }

  predicate Started(p: Process) { p.Broadcasting? || p.Exited? }

  predicate Waiting(c: Config, p: Process, r: nat) {
    p.Loop? && (c.text != [] ==> Stale(c, p, r))
  }

  /** EOF exists only once everything is printed; nobody holds an index any more. */
  predicate EofPhase(c: Config, s: State) {
    && |s.procs| == c.n
    && s.out == c.text
    && (forall j :: 0 <= j < |c.text| ==> c.text[j] < c.n)
    && (forall r :: 0 <= r < c.n ==>
          Waiting(c, s.procs[r], r) || (Started(s.procs[r]) && (s.procs[r].Broadcasting? ==> s.procs[r].next <= c.n)))
    && (forall m :: 0 <= m < |s.queue| ==> s.queue[m].Eof?)
    && (c.text != [] ==> Last(c.text) < c.n && Started(s.procs[Last(c.text)]))
  }

  function Last(text: seq<nat>): nat
    requires text != []
  {
    text[|text| - 1]
  }

  ghost predicate Inv(c: Config, s: State) {
    |s.procs| == c.n && (TokenPhase(c, s) || EofPhase(c, s))
  }

  lemma InitInv(c: Config)
    ensures Inv(c, Init(c))
  {
    var s := Init(c);
    if c.text != [] && c.text[0] < c.n {
      assert HeldOnlyBy(c, s, c.text[0]);
    }
  }

  lemma StepFromToken(c: Config, s: State, r: nat)
    requires |s.procs| == c.n && TokenPhase(c, s) && Enabled(c, s, r)
    ensures Inv(c, Apply(c, s, r))
  {
    var t := Apply(c, s, r);
    if s.queue == [] && exists h :: HeldOnlyBy(c, s, h) {
      var h: nat :| HeldOnlyBy(c, s, h);
      assert r == h;
      if s.procs[r].Singing? && s.procs[r].i == |c.text| {
        assert EofPhase(c, t);
      } else if s.procs[r].Sending? {
        assert AllStale(c, t);
      } else {
        assert HeldOnlyBy(c, t, h);
      }
    } else {
      assert HeldOnlyBy(c, t, r);
    }
  }

  lemma StepKeepsInv(c: Config, s: State, r: nat)
    requires Inv(c, s) && Enabled(c, s, r)
    ensures Inv(c, Apply(c, s, r))
  {
    if TokenPhase(c, s) {
      StepFromToken(c, s, r);
    }
  }

  // ----- Termination: every step lowers a measure -----

  function Weight(c: Config, p: Process, r: nat): int {
    match p
    case Loop(_) => 2 * c.n + 2
    case Singing(i) => if i < |c.text| && c.text[i] == r then 2 * c.n + 1 else 2 * c.n + 5
    case Sending(_) => 2 * c.n + 4
    case Broadcasting(next) => if next <= c.n then 2 * (c.n - next) + 1 else 1
    case Exited => 0
  }

  function Weights(c: Config, procs: seq<Process>): seq<int> {
    seq(|procs|, r requires 0 <= r < |procs| => Weight(c, procs[r], r))
  }

  function Measure(c: Config, s: State): int {
    8 * (|c.text| - |s.out|) + Sum(Weights(c, s.procs)) + |s.queue|
  }

  lemma WeightsUpdate(c: Config, procs: seq<Process>, r: nat, p: Process)
    requires r < |procs|
    ensures Sum(Weights(c, procs[r := p])) == Sum(Weights(c, procs)) - Weight(c, procs[r], r) + Weight(c, p, r)
  {
    assert Weights(c, procs[r := p]) == Weights(c, procs)[r := Weight(c, p, r)];
    SumUpdate(Weights(c, procs), r, Weight(c, p, r));
  }

  lemma StepLowersMeasure(c: Config, s: State, r: nat)
    requires Enabled(c, s, r)
    ensures Measure(c, Apply(c, s, r)) < Measure(c, s)
  {
    WeightsUpdate(c, s.procs, r, Apply(c, s, r).procs[r]);
  }

  lemma MeasureNonNegative(c: Config, s: State)
    requires Inv(c, s)
    ensures 0 <= Measure(c, s)
  {
    SumNonNegative(Weights(c, s.procs));
  }

  /** Every run keeps the invariant, and no run is longer than the drop of the measure. */
  lemma {:induction false} RunKeepsInv(c: Config, s: State, run: seq<nat>, t: State)
    requires Inv(c, s) && RunTo(c, s, run, t)
    ensures Inv(c, t) && |run| + Measure(c, t) <= Measure(c, s)
    decreases |run|
  {
    if run != [] {
      StepKeepsInv(c, s, run[0]);
      StepLowersMeasure(c, s, run[0]);
      RunKeepsInv(c, Apply(c, s, run[0]), run[1..], t);
    }
  }

  // ----- Main results -----

  /** Any interleaving, any text: the output is a prefix of the text, and EOF never comes early. */
  lemma OutputIsPrefix(c: Config, run: seq<nat>, t: State)
    requires RunTo(c, Init(c), run, t)
    ensures t.out <= c.text
    ensures forall r :: 0 <= r < |t.procs| && Started(t.procs[r]) ==> t.out == c.text
    ensures forall m :: 0 <= m < |t.queue| && t.queue[m].Eof? ==> t.out == c.text
    ensures |t.queue| <= c.cap
  {
    QueueStaysInBounds(c, Init(c), run, t);
    InitInv(c);
    RunKeepsInv(c, Init(c), run, t);
  }

  lemma {:induction false} QueueStaysInBounds(c: Config, s: State, run: seq<nat>, t: State)
    requires |s.queue| <= c.cap && RunTo(c, s, run, t)
    ensures |t.queue| <= c.cap
    decreases |run|
  {
    if run != [] {
      QueueStaysInBounds(c, Apply(c, s, run[0]), run[1..], t);
    }
  }

  ghost function Holders(c: Config, s: State): set<nat> {
    set r | 0 <= r < |s.procs| && !Stale(c, s.procs[r], r)
  }

  /**
   * Until someone has left the printing loop, the right to print the next character
   * is with exactly one process or in exactly one message, addressed to its owner, even if
   * that is the rank of no process; every other process's index points at a character it does
   * not own. Only a text that begins with nobody's character leaves everything empty.
   */
  lemma TokenIsUnique(c: Config, run: seq<nat>, t: State)
    requires RunTo(c, Init(c), run, t)
    requires c.text != [] && forall r :: 0 <= r < |t.procs| ==> !Started(t.procs[r])
    ensures |Holders(c, t)| + |t.queue| == if c.text[0] < c.n then 1 else 0
    ensures forall r :: r in Holders(c, t) ==> Holds(c, t.procs[r], r, |t.out|)
    ensures t.queue != [] ==> |t.out| < |c.text| && t.queue == [Index(c.text[|t.out|] + 1, |t.out|)]
  {
    InitInv(c);
    RunKeepsInv(c, Init(c), run, t);
    assert TokenPhase(c, t);
    if t.queue == [] && exists h :: HeldOnlyBy(c, t, h) {
      var h: nat :| HeldOnlyBy(c, t, h);
      assert Holders(c, t) == {h};
    } else {
      assert Holders(c, t) == {};
    }
  }

  lemma InitialMeasure(c: Config)
    ensures Measure(c, Init(c)) == 8 * |c.text| + c.n * (2 * c.n + 2)
  {
    SumConstant(Weights(c, Init(c).procs), 2 * c.n + 2);
  }

  /** No run is longer than a bound fixed by the text and the number of processes. */
  lemma EveryRunIsBounded(c: Config, run: seq<nat>, t: State)
    requires RunTo(c, Init(c), run, t)
    ensures |run| <= 8 * |c.text| + c.n * (2 * c.n + 2)
  {
    InitInv(c);
    RunKeepsInv(c, Init(c), run, t);
    MeasureNonNegative(c, t);
    InitialMeasure(c);
  }

  /** The first position whose byte is no process's rank, or the length of the text. */
  function ForeignAt(n: nat, text: seq<nat>): (k: nat)
    ensures k <= |text|
    ensures k < |text| ==> text[k] >= n
    ensures forall j :: 0 <= j < k ==> text[j] < n
  {
    if text == [] || text[0] >= n then 0 else 1 + ForeignAt(n, text[1..])
  }

  /** A token phase can always go on, unless the next character belongs to nobody. */
  lemma TokenMoves(c: Config, s: State) returns (r: nat)
    requires |s.procs| == c.n && TokenPhase(c, s) && c.cap > 0
    requires AllStale(c, s) && |s.out| < |c.text| ==> c.text[|s.out|] < c.n
    ensures Enabled(c, s, r)
  {
    if s.queue == [] {
      var h: nat :| HeldOnlyBy(c, s, h);
      r := h;
    } else {
      r := c.text[|s.out|];
      assert s.queue[0].mtype == r + 1;
    }
  }

  /**
   * A run that can go no further has printed the text up to the first character that is
   * nobody's. If there is such a character, no process ever leaves the printing loop, and the
   * message that names it stays in the queue, unless it is the first one and nothing was ever sent.
   */
  lemma StuckOutput(c: Config, run: seq<nat>, t: State)
    requires c.cap > 0
    requires RunTo(c, Init(c), run, t) && Stuck(c, t)
    ensures t.out == c.text[..ForeignAt(c.n, c.text)]
    ensures forall r :: 0 <= r < |t.procs| ==>
              if ForeignAt(c.n, c.text) < |c.text| then t.procs[r].Loop? else t.procs[r].Loop? || t.procs[r].Exited?
    ensures var k := ForeignAt(c.n, c.text);
            if k == |c.text| then forall m :: 0 <= m < |t.queue| ==> t.queue[m].Eof?
            else t.queue == if k > 0 then [Index(c.text[k] + 1, k)] else []
  {
    InitInv(c);
    RunKeepsInv(c, Init(c), run, t);
    if TokenPhase(c, t) {
      var k := |t.out|;
      if !AllStale(c, t) || c.text[k] < c.n {
        var r := TokenMoves(c, t);
        assert false;
      }
      assert k == ForeignAt(c.n, c.text);
    } else {
      forall r | 0 <= r < |t.procs| ensures t.procs[r].Loop? || t.procs[r].Exited? {
        assert !Enabled(c, t, r);
      }
    }
  }
}
