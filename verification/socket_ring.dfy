/**
 * Token passing over connections that may fail (the event loop of sems/bogatyri/sockets2.c).
 * Character c belongs to rank c mod n. Only the active process prints or hands over; a failed
 * connect leaves it active. After the last character it tells everybody EOF, once, without retry.
 */
module SocketRing {
  import opened Sums

  datatype Config = Config(n: nat, text: seq<nat>)

  /** What a connection delivers: the index of the next character, or -1. */
  datatype Message = Index(i: nat) | Eof

  datatype Process =
    | Active(i: nat)         // active, at the top of the loop
    | Handing(i: nat)        // has just printed; about to connect to the owner of character i
    | Passive(i: nat)        // waits for a connection; i is its outdated current_index
    | Finishing(next: nat)   // tells EOF, about to treat rank `next`
    | Exited

  /** `missed` collects the ranks whose EOF could not be delivered: history, not part of the program. */
  datatype State = State(procs: seq<Process>, inbox: seq<seq<Message>>, out: seq<nat>, missed: set<nat>)

  /** Process r moves; `ok` says whether a connect in this step succeeds. */
  datatype Event = Move(r: nat, ok: bool)

  function Owner(c: Config, i: nat): (r: nat)
    requires c.n > 0 && i < |c.text|
    ensures r < c.n
  {
    c.text[i] % c.n
  }

  function Init(c: Config): State
    requires c.n > 0
  {
    State(seq(c.n, r => if r == 0 then Active(0) else Passive(0)), seq(c.n, _ => []), [], {})
  }

  /** The rank that this step connects to, or n for none. */
  function Target(c: Config, s: State, r: nat): (q: nat)
    requires c.n > 0 && r < |s.procs|
    ensures q <= c.n
  {
    match s.procs[r]
    case Active(i) => if i < |c.text| && Owner(c, i) != r then Owner(c, i) else c.n
    case Handing(i) => if i < |c.text| then Owner(c, i) else c.n
    case Finishing(next) => if next < c.n && next != r then next else c.n
    case _ => c.n
  }

  predicate Enabled(c: Config, s: State, e: Event) {
    && c.n > 0 && |s.procs| == |s.inbox| == c.n && e.r < c.n
    && !s.procs[e.r].Exited?
    && (s.procs[e.r].Passive? ==> s.inbox[e.r] != [])
    && (s.procs[e.r].Handing? ==> s.procs[e.r].i < |c.text|)
    && (e.ok && Target(c, s, e.r) < c.n ==> !s.procs[Target(c, s, e.r)].Exited?)
  }

  predicate FailedConnect(c: Config, s: State, e: Event)
    requires Enabled(c, s, e)
  {
    Target(c, s, e.r) < c.n && !e.ok
  }

  function Apply(c: Config, s: State, e: Event): State
    requires Enabled(c, s, e)
  {
    var r, q := e.r, Target(c, s, e.r);
    match s.procs[r]
    case Active(i) =>
      if i >= |c.text| then
        s.(procs := s.procs[r := Finishing(0)])
      else if q == c.n then
        s.(procs := s.procs[r := if i + 1 < |c.text| then Handing(i + 1) else Active(i + 1)],
           out := s.out + [c.text[i]])
      else if e.ok then
        s.(procs := s.procs[r := Passive(i)], inbox := s.inbox[q := s.inbox[q] + [Index(i)]])
      else
        s
    case Handing(i) =>
      if e.ok then
        s.(procs := s.procs[r := Passive(i)], inbox := s.inbox[q := s.inbox[q] + [Index(i)]])
      else
        s.(procs := s.procs[r := Active(i)])
    case Passive(_) =>
      s.(procs := s.procs[r := if s.inbox[r][0].Eof? then Exited else Active(s.inbox[r][0].i)],
         inbox := s.inbox[r := s.inbox[r][1..]])
    case Finishing(next) =>
      if next >= c.n then
        s.(procs := s.procs[r := Exited])
      else if q == c.n then
        s.(procs := s.procs[r := Finishing(next + 1)])
      else if e.ok then
        s.(procs := s.procs[r := Finishing(next + 1)], inbox := s.inbox[q := s.inbox[q] + [Eof]])
      else
        s.(procs := s.procs[r := Finishing(next + 1)], missed := s.missed + {q})
    case Exited => s
  }

  ghost predicate RunTo(c: Config, s: State, run: seq<Event>, t: State)
    decreases |run|
  {
    if run == [] then s == t
    else Enabled(c, s, run[0]) && RunTo(c, Apply(c, s, run[0]), run[1..], t)
  }

  function Failures(c: Config, s: State, run: seq<Event>): nat
    decreases |run|
  {
    if run == [] || !Enabled(c, s, run[0]) then 0
    else (if FailedConnect(c, s, run[0]) then 1 else 0) + Failures(c, Apply(c, s, run[0]), run[1..])
  }

  ghost predicate Stuck(c: Config, s: State) {
    forall e :: !Enabled(c, s, e)
  }

  // ----- Safety -----

  predicate Holds(c: Config, p: Process, k: nat) {
    (p == Active(k) && k <= |c.text|) || (p == Handing(k) && k < |c.text|)
  }

  predicate OthersWait(s: State, h: nat) {
    forall r :: 0 <= r < |s.procs| && r != h ==> s.procs[r].Passive?
  }

  predicate EmptyExcept(s: State, q: nat) {
    forall r :: 0 <= r < |s.inbox| && r != q ==> s.inbox[r] == []
  }

  /** Process h is the only one that may go on, and nothing is on its way. */
  predicate HeldBy(c: Config, s: State, h: nat) {
    h < |s.procs| && Holds(c, s.procs[h], |s.out|) && OthersWait(s, h) && EmptyExcept(s, |s.inbox|)
  }

  /** The index of the next character is on its way to its owner, and nothing else is. */
  predicate OnItsWay(c: Config, s: State) {
    && c.n > 0 && |s.out| < |c.text| && OthersWait(s, |s.procs|)
    && |s.inbox| == c.n && s.inbox[Owner(c, |s.out|)] == [Index(|s.out|)] && EmptyExcept(s, Owner(c, |s.out|))
  }

  ghost predicate TokenPhase(c: Config, s: State) {
    && s.out <= c.text && s.missed == {}
    && (OnItsWay(c, s) || exists h :: HeldBy(c, s, h))
  }

  /** The process that tells EOF has treated the ranks below `next`. */
  predicate EofFrom(c: Config, s: State, f: nat) {
    && f < c.n && |s.procs| == |s.inbox| == c.n && f !in s.missed
    && (s.procs[f].Exited? || (s.procs[f].Finishing? && s.procs[f].next <= c.n))
    && s.inbox[f] == []
    && forall q :: 0 <= q < c.n && q != f ==>
         if s.procs[f].Finishing? && q >= s.procs[f].next then
           s.procs[q].Passive? && s.inbox[q] == [] && q !in s.missed
         else if q in s.missed then
           s.procs[q].Passive? && s.inbox[q] == []
         else
           (s.procs[q].Passive? && s.inbox[q] == [Eof]) || (s.procs[q].Exited? && s.inbox[q] == [])
  }

  ghost predicate EofPhase(c: Config, s: State) {
    s.out == c.text && exists f :: EofFrom(c, s, f)
  }

  ghost predicate Inv(c: Config, s: State) {
    c.n > 0 && |s.procs| == |s.inbox| == c.n && (TokenPhase(c, s) || EofPhase(c, s))
  }

  lemma InitInv(c: Config)
    requires c.n > 0
    ensures Inv(c, Init(c))
  {
    assert HeldBy(c, Init(c), 0);
  }

  lemma HolderKeepsInv(c: Config, s: State, e: Event, h: nat)
    requires Inv(c, s) && Enabled(c, s, e) && TokenPhase(c, s) && HeldBy(c, s, h)
    ensures Inv(c, Apply(c, s, e))
  {
    var t := Apply(c, s, e);
    assert e.r == h;
    if t.procs[h].Finishing? {
      assert EofFrom(c, t, h);
    } else if t.procs[h].Passive? {
      assert OnItsWay(c, t);
    } else {
      assert HeldBy(c, t, h);
    }
  }

  lemma ReceiverKeepsInv(c: Config, s: State, e: Event)
    requires Inv(c, s) && Enabled(c, s, e) && TokenPhase(c, s) && OnItsWay(c, s)
    ensures Inv(c, Apply(c, s, e))
  {
    assert e.r == Owner(c, |s.out|);
    assert HeldBy(c, Apply(c, s, e), e.r);
  }

  lemma EofKeepsInv(c: Config, s: State, e: Event)
    requires Inv(c, s) && Enabled(c, s, e) && EofPhase(c, s)
    ensures Inv(c, Apply(c, s, e))
  {
    var f: nat :| EofFrom(c, s, f);
    assert EofFrom(c, Apply(c, s, e), f);
  }

  lemma StepKeepsInv(c: Config, s: State, e: Event)
    requires Inv(c, s) && Enabled(c, s, e)
    ensures Inv(c, Apply(c, s, e))
  {
    if EofPhase(c, s) {
      EofKeepsInv(c, s, e);
    } else if OnItsWay(c, s) {
      ReceiverKeepsInv(c, s, e);
    } else {
      var h: nat :| HeldBy(c, s, h);
      HolderKeepsInv(c, s, e, h);
    }
  }

  // ----- The measure -----

  function Weight(c: Config, p: Process, r: nat): int {
    match p
    case Active(i) => 3 * c.n + 2 + (if c.n > 0 && i < |c.text| && Owner(c, i) != r then 2 else 0)
    case Handing(_) => 3 * c.n + 5
    case Passive(_) => 3 * c.n + 1
    case Finishing(next) => if next <= c.n then 3 * (c.n - next) + 1 else 1
    case Exited => 0
  }

  function Weights(c: Config, procs: seq<Process>): seq<int> {
    seq(|procs|, r requires 0 <= r < |procs| => Weight(c, procs[r], r))
  }

  function Posted(inbox: seq<seq<Message>>): seq<int> {
    seq(|inbox|, q requires 0 <= q < |inbox| => 2 * |inbox[q]|)
  }

  function Measure(c: Config, s: State): int {
    6 * (|c.text| - |s.out|) + Sum(Weights(c, s.procs)) + Sum(Posted(s.inbox))
  }

  lemma WeightsUpdate(c: Config, procs: seq<Process>, r: nat, p: Process)
    requires r < |procs|
    ensures Sum(Weights(c, procs[r := p])) == Sum(Weights(c, procs)) - Weight(c, procs[r], r) + Weight(c, p, r)
  {
    assert Weights(c, procs[r := p]) == Weights(c, procs)[r := Weight(c, p, r)];
    SumUpdate(Weights(c, procs), r, Weight(c, p, r));
  }

  lemma PostedUpdate(inbox: seq<seq<Message>>, q: nat, box: seq<Message>)
    requires q < |inbox|
    ensures Sum(Posted(inbox[q := box])) == Sum(Posted(inbox)) - 2 * |inbox[q]| + 2 * |box|
  {
    assert Posted(inbox[q := box]) == Posted(inbox)[q := 2 * |box|];
    SumUpdate(Posted(inbox), q, 2 * |box|);
  }

  lemma ReceiveLowersMeasure(c: Config, s: State, e: Event)
    requires Inv(c, s) && Enabled(c, s, e) && s.procs[e.r].Passive?
    ensures Measure(c, Apply(c, s, e)) < Measure(c, s)
  {
    WeightsUpdate(c, s.procs, e.r, Apply(c, s, e).procs[e.r]);
    PostedUpdate(s.inbox, e.r, s.inbox[e.r][1..]);
    ReceivedIsOwned(c, s, e);
  }

  lemma SendLowersMeasure(c: Config, s: State, e: Event)
    requires Inv(c, s) && Enabled(c, s, e) && Target(c, s, e.r) < c.n && e.ok
    ensures Measure(c, Apply(c, s, e)) < Measure(c, s)
  {
    var t, q := Apply(c, s, e), Target(c, s, e.r);
    WeightsUpdate(c, s.procs, e.r, t.procs[e.r]);
    PostedUpdate(s.inbox, q, t.inbox[q]);
  }

  lemma OwnStepLowersMeasure(c: Config, s: State, e: Event)
    requires Inv(c, s) && Enabled(c, s, e) && !s.procs[e.r].Passive? && (Target(c, s, e.r) == c.n || !e.ok)
    ensures Measure(c, Apply(c, s, e)) <= Measure(c, s) - (if FailedConnect(c, s, e) then 0 else 1)
  {
    WeightsUpdate(c, s.procs, e.r, Apply(c, s, e).procs[e.r]);
  }

  /** Each step lowers the measure, except a failed connect, which may leave it as it is. */
  lemma StepLowersMeasure(c: Config, s: State, e: Event)
    requires Inv(c, s) && Enabled(c, s, e)
    ensures Measure(c, Apply(c, s, e)) <= Measure(c, s) - (if FailedConnect(c, s, e) then 0 else 1)
  {
    if s.procs[e.r].Passive? {
      ReceiveLowersMeasure(c, s, e);
    } else if Target(c, s, e.r) < c.n && e.ok {
      SendLowersMeasure(c, s, e);
    } else {
      OwnStepLowersMeasure(c, s, e);
    }
  }

  lemma ReceivedIsOwned(c: Config, s: State, e: Event)
    requires Inv(c, s) && Enabled(c, s, e) && s.procs[e.r].Passive?
    ensures |s.inbox[e.r]| == 1
    ensures s.inbox[e.r][0].Eof? || (s.inbox[e.r][0].i < |c.text| && Owner(c, s.inbox[e.r][0].i) == e.r)
  {
    if EofPhase(c, s) {
      var f: nat :| EofFrom(c, s, f);
    }
  }

  lemma {:induction false} RunKeepsInv(c: Config, s: State, run: seq<Event>, t: State)
    requires Inv(c, s) && RunTo(c, s, run, t)
    ensures Inv(c, t) && |run| + Measure(c, t) <= Measure(c, s) + Failures(c, s, run)
    decreases |run|
  {
    if run != [] {
      StepKeepsInv(c, s, run[0]);
      StepLowersMeasure(c, s, run[0]);
      RunKeepsInv(c, Apply(c, s, run[0]), run[1..], t);
    }
  }

  // ----- Main results -----

  lemma NobodyHoldsWhatIsOnItsWay(c: Config, s: State, h: nat)
    ensures OnItsWay(c, s) ==> !HeldBy(c, s, h)
  {
  }

  ghost predicate SomeoneHolds(c: Config, s: State) {
    exists h :: HeldBy(c, s, h)
  }

  /**
   * With any pattern of failed connects the right to go on is never lost and never doubled, and
   * the output is a prefix of the text; nobody finishes before everything is printed.
   */
  lemma TokenSurvivesFailures(c: Config, run: seq<Event>, t: State)
    requires c.n > 0 && RunTo(c, Init(c), run, t)
    ensures |t.procs| == |t.inbox| == c.n && t.out <= c.text
    ensures (forall r :: 0 <= r < c.n ==> !t.procs[r].Exited? && !t.procs[r].Finishing?) ==>
              (OnItsWay(c, t) || SomeoneHolds(c, t)) && !(OnItsWay(c, t) && SomeoneHolds(c, t))
    ensures (exists r :: 0 <= r < c.n && (t.procs[r].Exited? || t.procs[r].Finishing?)) ==> t.out == c.text
  {
    InitInv(c);
    RunKeepsInv(c, Init(c), run, t);
    forall h: nat ensures OnItsWay(c, t) ==> !HeldBy(c, t, h) {
      NobodyHoldsWhatIsOnItsWay(c, t, h);
    }
    if EofPhase(c, t) {
      var f: nat :| EofFrom(c, t, f);
      assert t.procs[f].Exited? || t.procs[f].Finishing?;
    }
  }

  /**
   * Whoever stops: the text is complete, and the processes left waiting are exactly those
   * whose EOF connect failed.
   */
  lemma StuckOutput(c: Config, run: seq<Event>, t: State)
    requires c.n > 0 && RunTo(c, Init(c), run, t) && Stuck(c, t)
    ensures |t.procs| == c.n && t.out == c.text
    ensures forall r :: 0 <= r < c.n ==> if r in t.missed then t.procs[r].Passive? else t.procs[r].Exited?
  {
    InitInv(c);
    RunKeepsInv(c, Init(c), run, t);
    if TokenPhase(c, t) {
      SomeoneMoves(c, t);
      assert false;
    }
    var f: nat :| EofFrom(c, t, f);
    assert !Enabled(c, t, Move(f, false));
    forall r | 0 <= r < c.n && r != f && r !in t.missed ensures t.procs[r].Exited? {
      assert !Enabled(c, t, Move(r, true));
    }
  }

  lemma SomeoneMoves(c: Config, s: State)
    requires Inv(c, s) && TokenPhase(c, s)
    ensures exists e :: Enabled(c, s, e)
  {
    if OnItsWay(c, s) {
      assert Enabled(c, s, Move(Owner(c, |s.out|), false));
    } else {
      var h: nat :| HeldBy(c, s, h);
      assert Enabled(c, s, Move(h, false));
    }
  }

  lemma InitialMeasure(c: Config)
    requires c.n > 0
    ensures Measure(c, Init(c)) <= 6 * |c.text| + c.n * (3 * c.n + 4)
  {
    SumConstant(Posted(Init(c).inbox), 0);
    var most := seq(c.n, _ => 3 * c.n + 4);
    SumConstant(most, 3 * c.n + 4);
    SumLe(Weights(c, Init(c).procs), most);
  }

  /** A run with k failed connects takes at most a fixed number of steps plus k. */
  lemma EveryRunIsBounded(c: Config, run: seq<Event>, t: State)
    requires c.n > 0 && RunTo(c, Init(c), run, t)
    ensures |run| <= 6 * |c.text| + c.n * (3 * c.n + 4) + Failures(c, Init(c), run)
  {
    InitInv(c);
    RunKeepsInv(c, Init(c), run, t);
    SumNonNegative(Weights(c, t.procs));
    SumNonNegative(Posted(t.inbox));
    InitialMeasure(c);
  }
}
