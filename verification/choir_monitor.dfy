/**
 * The choir under one monitor (sems/bogatyri/main.c). n threads take numbers, wait until all
 * have one, and then sing: the thread whose number is the current character prints it, reads
 * the next one and wakes everybody. One mutex and one condition variable; wakeups may be spurious.
 */
module ChoirMonitor {
  import opened Sums

  /** The text has no terminator in it; 0 stands for the terminator. */
  datatype Config = Config(n: nat, text: seq<nat>)

  ghost predicate Proper(c: Config) {
    c.n > 0 && forall i :: 0 <= i < |c.text| ==> c.text[i] != 0
  }

  /** thread_count, current_char and str_next_ind; last_assigned is one less than count. */
  datatype Shared = Shared(count: nat, current: nat, next: nat)

  datatype Thread =
    | Fresh                     // before acquire_thread_number
    | Arriving(num: nat)        // about to test the barrier
    | BarrierSleep(num: nat)    // waiting for the others to arrive
    | Turning(num: nat)         // about to test whose turn it is
    | TurnSleep(num: nat)       // waiting for another character
    | Exited

  /** `who[k]` is the thread that got number k: history, not part of the program. */
  datatype State = State(m: Shared, threads: seq<Thread>, out: seq<nat>, who: seq<nat>)

  datatype Event = Step(t: nat) | Spurious(t: nat)

  function Init(c: Config): State {
    State(Shared(0, 0, 0), seq(c.n, _ => Fresh), [], [])
  }

  /** string_buffer[k] for k up to the terminator. */
  function CharAt(c: Config, k: nat): nat {
    if k < |c.text| then c.text[k] else 0
  }

  /** read_next_char */
  function ReadNext(c: Config, m: Shared): Shared {
    if m.next < |c.text| + 1 then m.(current := CharAt(c, m.next), next := m.next + 1)
    else m.(current := 0)
  }

  /** The locked region of acquire_thread_number; the flag says whether it broadcasts. */
  function Register(c: Config, m: Shared): (Shared, bool) {
    var m' := m.(count := m.count + 1);
    if m'.count == c.n then (ReadNext(c, m'), true) else (m', false)
  }

  datatype Outcome = Leave | Sleep | Sing

  /** What a thread with this number finds in the body of the endless loop. */
  function Look(m: Shared, num: nat): Outcome {
    if m.current == 0 then Leave else if m.current != num then Sleep else Sing
  }

  function Woken(t: Thread): Thread {
    match t
    case BarrierSleep(num) => Arriving(num)
    case TurnSleep(num) => Turning(num)
    case _ => t
  }

  function Broadcast(threads: seq<Thread>): seq<Thread> {
    seq(|threads|, t requires 0 <= t < |threads| => Woken(threads[t]))
  }

  predicate Enabled(s: State, e: Event) {
    && e.t < |s.threads|
    && match e
       case Step(t) => !s.threads[t].BarrierSleep? && !s.threads[t].TurnSleep? && !s.threads[t].Exited?
       case Spurious(t) => s.threads[t].BarrierSleep? || s.threads[t].TurnSleep?
  }

  function Apply(c: Config, s: State, e: Event): State
    requires Enabled(s, e)
  {
    var t := e.t;
    match s.threads[t]
    case Fresh =>
      var (m, all) := Register(c, s.m);
      var threads := s.threads[t := Arriving(s.m.count)];
      s.(m := m, threads := if all then Broadcast(threads) else threads, who := s.who + [t])
    case Arriving(num) =>
      s.(threads := s.threads[t := if s.m.count < c.n then BarrierSleep(num) else Turning(num)])
    case Turning(num) =>
      (match Look(s.m, num)
       case Leave => s.(threads := Broadcast(s.threads[t := Exited]))
       case Sleep => s.(threads := s.threads[t := TurnSleep(num)])
       case Sing => s.(m := ReadNext(c, s.m), threads := Broadcast(s.threads), out := s.out + [num]))
    case _ =>
      s.(threads := s.threads[t := Woken(s.threads[t])])
  }

  ghost predicate RunTo(c: Config, s: State, run: seq<Event>, t: State)
    decreases |run|
  {
    if run == [] then s == t
    else Enabled(s, run[0]) && RunTo(c, Apply(c, s, run[0]), run[1..], t)
  }

  /** Nobody can move unless a sleeper wakes for no reason. */
  ghost predicate Stuck(s: State) {
    forall t :: !Enabled(s, Step(t))
  }

  // ----- The invariant -----

  predicate HasNumber(t: Thread) { !t.Fresh? && !t.Exited? }

  ghost predicate Numbers(c: Config, s: State) {
    && |s.threads| == c.n && s.m.count == |s.who| <= c.n
    && (forall k :: 0 <= k < |s.who| ==> s.who[k] < c.n && !s.threads[s.who[k]].Fresh?)
    && (forall j, k :: 0 <= j < k < |s.who| ==> s.who[j] != s.who[k])
    && (forall t :: 0 <= t < c.n && HasNumber(s.threads[t]) ==>
          s.threads[t].num < |s.who| && s.who[s.threads[t].num] == t)
  }

  predicate BeforeStart(c: Config, s: State) {
    && s.m.current == 0 && s.m.next == 0 && s.out == []
    && forall t :: 0 <= t < |s.threads| ==>
         s.threads[t].Fresh? || s.threads[t].Arriving? || s.threads[t].BarrierSleep?
  }

  predicate Started(c: Config, s: State) {
    && 1 <= s.m.next <= |c.text| + 1
    && s.m.current == CharAt(c, s.m.next - 1) && s.out == c.text[..s.m.next - 1]
    && (forall k :: 0 <= k < s.m.next - 1 ==> c.text[k] < c.n)
    && forall t :: 0 <= t < |s.threads| ==>
         match s.threads[t]
         case Fresh => false
         case BarrierSleep(_) => false
         case TurnSleep(num) => s.m.current != num && s.m.current != 0
         case Exited => s.m.current == 0
         case _ => true
  }

  ghost predicate Inv(c: Config, s: State) {
    Numbers(c, s) && if s.m.count < c.n then BeforeStart(c, s) else Started(c, s)
  }

  ghost function Below(n: nat): (r: set<nat>)
    ensures |r| == n && forall i :: i in r <==> 0 <= i < n
  {
    if n == 0 then {} else Below(n - 1) + {n - 1}
  }

  ghost function Members(who: seq<nat>): set<nat> {
    set t | t in who
  }

  lemma {:induction false} MembersAtMost(who: seq<nat>)
    ensures |Members(who)| <= |who|
  {
    if who != [] {
      var last := |who| - 1;
      MembersAtMost(who[..last]);
      assert Members(who) == Members(who[..last]) + {who[last]};
    }
  }

  /** While numbers are missing, some thread has none. */
  lemma SomeoneHasNoNumber(c: Config, s: State) returns (t: nat)
    requires Numbers(c, s) && s.m.count < c.n
    ensures t < c.n && t !in s.who
  {
    MembersAtMost(s.who);
    assert Below(c.n) - Members(s.who) != {} by {
      if Below(c.n) <= Members(s.who) {
        SubsetSize(Below(c.n), Members(s.who));
      }
    }
    t :| t in Below(c.n) - Members(s.who);
  }

  lemma {:induction false} DistinctMembers(who: seq<nat>)
    requires forall j, k :: 0 <= j < k < |who| ==> who[j] != who[k]
    ensures |Members(who)| == |who|
  {
    if who != [] {
      var last := |who| - 1;
      DistinctMembers(who[..last]);
      assert Members(who) == Members(who[..last]) + {who[last]};
    }
  }

  /** A thread without a number means that numbers are missing. */
  lemma FreshMeansMissing(c: Config, s: State, t: nat)
    requires Numbers(c, s) && t < c.n && s.threads[t].Fresh?
    ensures s.m.count < c.n
  {
    DistinctMembers(s.who);
    assert t !in s.who;
    SubsetSize(Members(s.who) + {t}, Below(c.n));
  }

  lemma {:induction false} SubsetSize(a: set<nat>, b: set<nat>)
    requires a <= b
    ensures |a| <= |b|
  {
    assert b == a + (b - a);
  }

  /** Waking everybody changes neither numbers nor who has left. */
  lemma BroadcastKeepsNumbers(c: Config, s: State, threads: seq<Thread>)
    requires Numbers(c, s.(threads := threads))
    ensures Numbers(c, s.(threads := Broadcast(threads)))
  {
  }

  lemma RegisterKeepsNumbers(c: Config, s: State, t: nat)
    requires c.n > 0 && Inv(c, s) && t < |s.threads| && s.threads[t].Fresh?
    ensures s.m.count < c.n
    ensures Numbers(c, Apply(c, s, Step(t)).(threads := s.threads[t := Arriving(s.m.count)]))
  {
    FreshMeansMissing(c, s, t);
  }

  lemma RegisterKeepsInv(c: Config, s: State, t: nat)
    requires c.n > 0 && Inv(c, s) && t < |s.threads| && s.threads[t].Fresh?
    ensures Inv(c, Apply(c, s, Step(t)))
  {
    RegisterKeepsNumbers(c, s, t);
    var u := Apply(c, s, Step(t));
    var threads := s.threads[t := Arriving(s.m.count)];
    if u.m.count == c.n {
      EverybodyHasNumber(c, u.(threads := threads));
      BroadcastKeepsNumbers(c, u, threads);
      assert Started(c, u);
    } else {
      assert BeforeStart(c, u);
    }
  }

  lemma EverybodyHasNumber(c: Config, s: State)
    requires Numbers(c, s) && s.m.count == c.n
    ensures forall t :: 0 <= t < c.n ==> !s.threads[t].Fresh?
  {
    forall t | 0 <= t < c.n ensures !s.threads[t].Fresh? {
      if s.threads[t].Fresh? {
        FreshMeansMissing(c, s, t);
      }
    }
  }

  lemma ArriveKeepsInv(c: Config, s: State, t: nat)
    requires c.n > 0 && Inv(c, s) && t < |s.threads| && s.threads[t].Arriving?
    ensures Inv(c, Apply(c, s, Step(t)))
  {
    assert Numbers(c, Apply(c, s, Step(t)));
  }

  lemma SingKeepsInv(c: Config, s: State, t: nat)
    requires c.n > 0 && Inv(c, s) && t < |s.threads| && s.threads[t].Turning?
    requires Look(s.m, s.threads[t].num).Sing?
    ensures Inv(c, Apply(c, s, Step(t)))
  {
    var u := Apply(c, s, Step(t));
    BroadcastKeepsNumbers(c, u, s.threads);
    assert forall a :: 0 <= a < |u.threads| ==> u.threads[a] == Woken(s.threads[a]);
    assert u.m.next == s.m.next + 1;
    assert c.text[..u.m.next - 1] == c.text[..s.m.next - 1] + [s.m.current];
  }

  lemma LeaveKeepsStarted(c: Config, s: State, t: nat)
    requires |s.threads| == c.n && Started(c, s) && t < |s.threads| && s.m.current == 0
    ensures Started(c, s.(threads := Broadcast(s.threads[t := Exited])))
  {
  }

  lemma LeaveKeepsInv(c: Config, s: State, t: nat)
    requires c.n > 0 && Inv(c, s) && t < |s.threads| && s.threads[t].Turning?
    requires Look(s.m, s.threads[t].num).Leave?
    ensures Inv(c, Apply(c, s, Step(t)))
  {
    assert Numbers(c, s.(threads := s.threads[t := Exited]));
    BroadcastKeepsNumbers(c, s, s.threads[t := Exited]);
    LeaveKeepsStarted(c, s, t);
  }

  lemma TurnKeepsInv(c: Config, s: State, t: nat)
    requires c.n > 0 && Inv(c, s) && t < |s.threads| && s.threads[t].Turning?
    ensures Inv(c, Apply(c, s, Step(t)))
  {
    match Look(s.m, s.threads[t].num)
    case Leave => LeaveKeepsInv(c, s, t);
    case Sleep => assert Numbers(c, Apply(c, s, Step(t)));
    case Sing => SingKeepsInv(c, s, t);
  }

  lemma WakeKeepsInv(c: Config, s: State, t: nat)
    requires c.n > 0 && Inv(c, s) && Enabled(s, Spurious(t))
    ensures Inv(c, Apply(c, s, Spurious(t)))
  {
    assert Numbers(c, Apply(c, s, Spurious(t)));
  }

  lemma StepKeepsInv(c: Config, s: State, e: Event)
    requires c.n > 0 && Inv(c, s) && Enabled(s, e)
    ensures Inv(c, Apply(c, s, e))
  {
    match s.threads[e.t]
    case Fresh => RegisterKeepsInv(c, s, e.t);
    case Arriving(_) => ArriveKeepsInv(c, s, e.t);
    case Turning(_) => TurnKeepsInv(c, s, e.t);
    case _ => WakeKeepsInv(c, s, e.t);
  }

  // ----- The measure -----

  function Weight(c: Config, t: Thread): int {
    match t
    case Fresh => c.n + 4
    case Arriving(_) => c.n + 3
    case BarrierSleep(_) => c.n + 2
    case Turning(_) => c.n + 1
    case TurnSleep(_) => c.n
    case Exited => 0
  }

  function Weights(c: Config, threads: seq<Thread>): seq<int> {
    seq(|threads|, t requires 0 <= t < |threads| => Weight(c, threads[t]))
  }

  function CharsLeft(c: Config, m: Shared): int {
    (c.n + 1) * (|c.text| + 1 - m.next)
  }

  function Measure(c: Config, s: State): int {
    CharsLeft(c, s.m) + Sum(Weights(c, s.threads))
  }

  lemma ReadNextPays(c: Config, m: Shared)
    requires m.next < |c.text| + 1
    ensures CharsLeft(c, ReadNext(c, m)) == CharsLeft(c, m) - (c.n + 1)
  {
  }

  lemma WeightsUpdate(c: Config, threads: seq<Thread>, t: nat, v: Thread)
    requires t < |threads|
    ensures Sum(Weights(c, threads[t := v])) == Sum(Weights(c, threads)) - Weight(c, threads[t]) + Weight(c, v)
  {
    assert Weights(c, threads[t := v]) == Weights(c, threads)[t := Weight(c, v)];
    SumUpdate(Weights(c, threads), t, Weight(c, v));
  }

  lemma BroadcastWeights(c: Config, threads: seq<Thread>)
    ensures Sum(Weights(c, Broadcast(threads))) <= Sum(Weights(c, threads)) + |threads|
  {
    var before := Weights(c, threads);
    var raised := seq(|before|, i requires 0 <= i < |before| => before[i] + 1);
    SumPlusOne(before);
    SumLe(Weights(c, Broadcast(threads)), raised);
  }

  lemma RegisterLowersMeasure(c: Config, s: State, t: nat)
    requires c.n > 0 && Inv(c, s) && t < |s.threads| && s.threads[t].Fresh?
    ensures Measure(c, Apply(c, s, Step(t))) <= Measure(c, s) - 1
  {
    FreshMeansMissing(c, s, t);
    WeightsUpdate(c, s.threads, t, Arriving(s.m.count));
    BroadcastWeights(c, s.threads[t := Arriving(s.m.count)]);
    ReadNextPays(c, s.m.(count := s.m.count + 1));
  }

  lemma SingLowersMeasure(c: Config, s: State, t: nat)
    requires c.n > 0 && Inv(c, s) && t < |s.threads| && s.threads[t].Turning?
    requires Look(s.m, s.threads[t].num).Sing?
    ensures Measure(c, Apply(c, s, Step(t))) <= Measure(c, s) - 1
  {
    ReadNextPays(c, s.m);
    BroadcastWeights(c, s.threads);
  }

  lemma LeaveLowersMeasure(c: Config, s: State, t: nat)
    requires c.n > 0 && Inv(c, s) && t < |s.threads| && s.threads[t].Turning?
    requires Look(s.m, s.threads[t].num).Leave?
    ensures Measure(c, Apply(c, s, Step(t))) <= Measure(c, s) - 1
  {
    WeightsUpdate(c, s.threads, t, Exited);
    BroadcastWeights(c, s.threads[t := Exited]);
  }

  /** Each step lowers the measure by one at least; a spurious wakeup raises it by one. */
  lemma StepLowersMeasure(c: Config, s: State, e: Event)
    requires c.n > 0 && Inv(c, s) && Enabled(s, e)
    ensures Measure(c, Apply(c, s, e)) <= Measure(c, s) + (if e.Spurious? then 1 else -1)
  {
    if s.threads[e.t].Fresh? {
      RegisterLowersMeasure(c, s, e.t);
    } else if s.threads[e.t].Turning? && Look(s.m, s.threads[e.t].num).Sing? {
      SingLowersMeasure(c, s, e.t);
    } else if s.threads[e.t].Turning? && Look(s.m, s.threads[e.t].num).Leave? {
      LeaveLowersMeasure(c, s, e.t);
    } else {
      OwnStepLowersMeasure(c, s, e);
    }
  }

  /** Steps in which only one thread changes. */
  lemma OwnStepLowersMeasure(c: Config, s: State, e: Event)
    requires c.n > 0 && Inv(c, s) && Enabled(s, e) && !s.threads[e.t].Fresh?
    requires s.threads[e.t].Turning? ==> Look(s.m, s.threads[e.t].num).Sleep?
    ensures Measure(c, Apply(c, s, e)) <= Measure(c, s) + (if e.Spurious? then 1 else -1)
  {
    WeightsUpdate(c, s.threads, e.t, Apply(c, s, e).threads[e.t]);
  }

  function SpuriousIn(run: seq<Event>): nat {
    if run == [] then 0 else (if run[0].Spurious? then 1 else 0) + SpuriousIn(run[1..])
  }

  lemma {:induction false} RunKeepsInv(c: Config, s: State, run: seq<Event>, t: State)
    requires c.n > 0 && Inv(c, s) && RunTo(c, s, run, t)
    ensures Inv(c, t) && |run| + Measure(c, t) <= Measure(c, s) + 2 * SpuriousIn(run)
    decreases |run|
  {
    if run != [] {
      StepKeepsInv(c, s, run[0]);
      StepLowersMeasure(c, s, run[0]);
      RunKeepsInv(c, Apply(c, s, run[0]), run[1..], t);
    }
  }

  lemma InitInv(c: Config)
    requires c.n > 0
    ensures Inv(c, Init(c))
  {
  }

  lemma InitialMeasure(c: Config)
    ensures Measure(c, Init(c)) == (c.n + 1) * (|c.text| + 1) + c.n * (c.n + 4)
  {
    SumConstant(Weights(c, Init(c).threads), c.n + 4);
  }

  lemma MeasureNonNegative(c: Config, s: State)
    requires c.n > 0 && Inv(c, s)
    ensures Measure(c, s) >= 0
  {
    SumNonNegative(Weights(c, s.threads));
    ProductNonNegative(c.n + 1, |c.text| + 1 - s.m.next);
  }

  lemma ProductNonNegative(a: int, b: int)
    requires a >= 0 && b >= 0
    ensures a * b >= 0
  {
  }

  // ----- Main results -----

  /**
   * In every interleaving, with any spurious wakeups: numbers are handed out once each; nobody
   * sings or leaves before all have one; what was sung is a prefix of the text, one behind the
   * reading position; and a thread has left only if the whole text was sung.
   */
  lemma ChoirIsSafe(c: Config, run: seq<Event>, t: State)
    requires Proper(c) && RunTo(c, Init(c), run, t)
    ensures |t.threads| == c.n
    ensures forall a, b :: 0 <= a < b < c.n && HasNumber(t.threads[a]) && HasNumber(t.threads[b]) ==>
              t.threads[a].num != t.threads[b].num
    ensures forall a :: 0 <= a < c.n && HasNumber(t.threads[a]) ==> t.threads[a].num < t.m.count <= c.n
    ensures t.m.count < c.n ==> t.out == [] && t.m.next == 0
    ensures t.m.count == c.n ==> 1 <= t.m.next <= |c.text| + 1 && t.out == c.text[..t.m.next - 1]
    ensures forall a :: 0 <= a < c.n && t.threads[a].Exited? ==> t.out == c.text
  {
    InitInv(c);
    RunKeepsInv(c, Init(c), run, t);
    assert forall a :: 0 <= a < c.n && t.threads[a].Exited? ==> CharAt(c, t.m.next - 1) == 0;
  }

  /** Nobody sleeps without reason: at the barrier only while numbers are missing, later only while another sings. */
  lemma SleepersHaveAReason(c: Config, run: seq<Event>, t: State, a: nat)
    requires Proper(c) && RunTo(c, Init(c), run, t) && a < |t.threads|
    ensures t.threads[a].BarrierSleep? ==> t.m.count < c.n
    ensures t.threads[a].TurnSleep? ==> t.m.current != t.threads[a].num && t.m.current != 0
  {
    InitInv(c);
    RunKeepsInv(c, Init(c), run, t);
  }

  /** Every call of read_next_char finds its index in range. */
  lemma ReadNextStaysInRange(c: Config, run: seq<Event>, t: State, e: Event)
    requires Proper(c) && RunTo(c, Init(c), run, t) && Enabled(t, e)
    requires (t.threads[e.t].Fresh? && t.m.count + 1 == c.n)
          || (t.threads[e.t].Turning? && Look(t.m, t.threads[e.t].num).Sing?)
    ensures t.m.next < |c.text| + 1
  {
    InitInv(c);
    RunKeepsInv(c, Init(c), run, t);
  }

  /** The first character that is no thread's number, or the length of the text. */
  function ForeignAt(c: Config, k: nat): (r: nat)
    requires k <= |c.text|
    ensures k <= r <= |c.text|
    ensures r < |c.text| ==> c.text[r] >= c.n
    ensures forall j :: k <= j < r ==> c.text[j] < c.n
    decreases |c.text| - k
  {
    if k == |c.text| || c.text[k] >= c.n then k else ForeignAt(c, k + 1)
  }

  /** The thread whose number is the current character is never asleep. */
  lemma SingerIsAwake(c: Config, s: State) returns (t: nat)
    requires Inv(c, s) && s.m.count == c.n && 0 < s.m.current < c.n
    ensures Enabled(s, Step(t))
  {
    t := s.who[s.m.current];
  }

  /**
   * No deadlock: a run that can go no further without spurious wakeups has sung the text up to
   * the first character that is nobody's number, and all have left exactly if there is none.
   */
  lemma StuckOutput(c: Config, run: seq<Event>, t: State)
    requires Proper(c) && RunTo(c, Init(c), run, t) && Stuck(t)
    ensures t.out == c.text[..ForeignAt(c, 0)]
    ensures (forall a :: 0 <= a < |t.threads| ==> t.threads[a].Exited?) <==> ForeignAt(c, 0) == |c.text|
  {
    InitInv(c);
    RunKeepsInv(c, Init(c), run, t);
    if t.m.count < c.n {
      var a := SomeoneHasNoNumber(c, t);
      assert !Enabled(t, Step(a));
      FreshIfUnnumbered(c, t, a);
      assert false;
    }
    assert !Enabled(t, Step(0));
    if 0 < t.m.current < c.n {
      var a := SingerIsAwake(c, t);
      assert false;
    }
    forall a | 0 <= a < c.n ensures t.threads[a].Exited? <==> t.m.current == 0 {
      assert !Enabled(t, Step(a));
    }
    assert t.m.next - 1 == ForeignAt(c, 0);
  }

  lemma FreshIfUnnumbered(c: Config, s: State, t: nat)
    requires Inv(c, s) && s.m.count < c.n && t < c.n && t !in s.who
    ensures Enabled(s, Step(t))
  {
  }

  /** A run with k spurious wakeups takes at most a fixed number of steps plus 2 k. */
  lemma EveryRunIsBounded(c: Config, run: seq<Event>, t: State)
    requires Proper(c) && RunTo(c, Init(c), run, t)
    ensures |run| <= (c.n + 1) * (|c.text| + 1) + c.n * (c.n + 4) + 2 * SpuriousIn(run)
  {
    InitInv(c);
    RunKeepsInv(c, Init(c), run, t);
    InitialMeasure(c);
    MeasureNonNegative(c, t);
  }

  // ----- The monitor object -----

  const SIZE_MODULUS := 0x1_0000_0000_0000_0000

  /** struct monitor_t; last_assigned is a size_t and starts at -1. */
  class Monitor {
    var lastAssigned: nat
    var threadCount: nat
    var currentChar: nat
    var strNextInd: nat
    const buffer: seq<nat>
    const length: nat

    ghost predicate Valid(c: Config)
      reads this
    {
      && c.n < SIZE_MODULUS
      && length == |c.text| && buffer == c.text + [0]
      && lastAssigned == (threadCount + SIZE_MODULUS - 1) % SIZE_MODULUS && threadCount <= c.n
    }

    ghost function View(): Shared
      reads this
    {
      Shared(threadCount, currentChar, strNextInd)
    }

    constructor (text: seq<nat>)
      ensures View() == Init(Config(0, text)).m
      ensures forall c: Config :: c.text == text && c.n < SIZE_MODULUS ==> Valid(c)
    {
      lastAssigned, threadCount := SIZE_MODULUS - 1, 0;
      currentChar, strNextInd := 0, 0;
      buffer, length := text + [0], |text|;
    }

    /** -1 for an index out of range */
    method ReadNextChar(ghost c: Config) returns (r: int)
      requires Valid(c)
      modifies this`currentChar, this`strNextInd
      ensures View() == ReadNext(c, old(View()))
      ensures old(strNextInd) < length + 1 ==> r == currentChar == buffer[old(strNextInd)] && strNextInd == old(strNextInd) + 1
      ensures old(strNextInd) >= length + 1 ==> r == -1 && currentChar == 0 && strNextInd == old(strNextInd)
    {
      if strNextInd < length + 1 {
        currentChar := buffer[strNextInd];
        strNextInd := strNextInd + 1;
        r := currentChar;
      } else {
        currentChar := 0;
        r := -1;
      }
    }

    method AcquireThreadNumber(n: nat, ghost c: Config) returns (number: nat, broadcast: bool)
      requires Valid(c) && n == c.n && threadCount < n
      modifies this
      ensures Valid(c) && (View(), broadcast) == Register(c, old(View()))
      ensures number == old(threadCount) && threadCount == old(threadCount) + 1 && (broadcast <==> threadCount == n)
      ensures !broadcast ==> currentChar == old(currentChar) && strNextInd == old(strNextInd)
      ensures broadcast && old(strNextInd) <= length ==>
                currentChar == buffer[old(strNextInd)] && strNextInd == old(strNextInd) + 1
    {
      lastAssigned := (lastAssigned + 1) % SIZE_MODULUS;
      number := lastAssigned;
      threadCount := threadCount + 1;
      broadcast := threadCount == n;
      if broadcast {
        var _ := ReadNextChar(c);
      }
    }

    /** The locked region in the endless loop of bogatyr. */
    method TakeTurn(number: nat, ghost c: Config) returns (outcome: Outcome, sung: seq<nat>)
      requires Valid(c)
      modifies this
      ensures Valid(c) && outcome == Look(old(View()), number)
      ensures View() == if outcome.Sing? then ReadNext(c, old(View())) else old(View())
      ensures outcome.Leave? <==> old(currentChar) == 0
      ensures outcome.Sing? <==> old(currentChar) == number != 0
      ensures sung == if outcome.Sing? then [number] else []
      ensures outcome.Sing? && old(strNextInd) <= length ==>
                currentChar == buffer[old(strNextInd)] && strNextInd == old(strNextInd) + 1
    {
      sung := [];
      if currentChar == 0 {
        outcome := Leave;
      } else if currentChar != number {
        outcome := Sleep;
      } else {
        outcome, sung := Sing, [number];
        var _ := ReadNextChar(c);
      }
    }
  }
}
