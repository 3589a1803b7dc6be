/** Bytes as eight bits, least significant first, the way sems/signals/main.c sends them. */
module ByteBits {

  /** `byte & 1` of an int in two's complement. */
  function LowBit(v: int): nat { v % 2 }

  /** `byte >> 1`, arithmetic. */
  function ShiftRight(v: int): int { v / 2 }

  /** The low k bits of v, least significant first: what the loop of send_byte sends. */
  function BitsOf(v: int, k: nat): (bits: seq<nat>)
    ensures |bits| == k && forall i :: 0 <= i < k ==> bits[i] < 2
    decreases k
  {
    if k == 0 then [] else [LowBit(v)] + BitsOf(ShiftRight(v), k - 1)
  }

  function Pow2(k: nat): (p: nat)
    ensures p > 0
  {
    if k == 0 then 1 else 2 * Pow2(k - 1)
  }

  /** The sum of `bit << i` over all bits: what recieve_byte computes. */
  function Value(bits: seq<int>): int {
    if bits == [] then 0 else bits[0] + 2 * Value(bits[1..])
  }

  lemma ModOfHalf(v: int, m: nat)
    requires m > 0
    ensures v % 2 + 2 * ((v / 2) % m) == v % (2 * m)
  {
    var q, r := (v / 2) / m, (v / 2) % m;
    assert v / 2 == q * m + r;
    assert v == q * (2 * m) + (v % 2 + 2 * r);
    RemainderIsUnique(v, v % 2 + 2 * r, 2 * m, q);
  }

  lemma RemainderIsUnique(v: int, r: int, m: nat, q: int)
    requires m > 0 && 0 <= r < m && v == q * m + r
    ensures v % m == r
  {
    var d := v / m - q;
    assert d * m == r - v % m;
    assert d >= 1 ==> d * m >= m;
    assert d <= -1 ==> d * m + m <= 0;
  }

  /** Receiving the bits of any int gives it back modulo 2^k, whatever its sign. */
  lemma {:induction false} ValueOfBits(v: int, k: nat)
    ensures Value(BitsOf(v, k)) == v % Pow2(k)
    decreases k
  {
    if k > 0 {
      ValueOfBits(ShiftRight(v), k - 1);
      assert BitsOf(v, k)[1..] == BitsOf(ShiftRight(v), k - 1);
      ModOfHalf(v, Pow2(k - 1));
    }
  }

  /** Bit k of v. */
  function BitAt(v: int, k: nat): (bit: nat)
    ensures bit < 2
    decreases k
  {
    if k == 0 then LowBit(v) else BitAt(ShiftRight(v), k - 1)
  }

  lemma {:induction false} BitsAreBitAt(v: int, n: nat, k: nat)
    requires k < n
    ensures BitsOf(v, n)[k] == BitAt(v, k)
    decreases n
  {
    if k > 0 {
      BitsAreBitAt(ShiftRight(v), n - 1, k - 1);
    }
  }

  lemma HalfOfQuotient(v: int, m: nat)
    requires m > 0
    ensures (v / 2) / m == v / (2 * m)
  {
    ModOfHalf(v, m);
    var q := (v / 2) / m;
    assert v == q * (2 * m) + v % (2 * m);
    assert v == (v / (2 * m)) * (2 * m) + v % (2 * m);
    SameProduct(q, v / (2 * m), 2 * m);
  }

  lemma SameProduct(x: int, y: int, m: nat)
    requires m > 0 && x * m == y * m
    ensures x == y
  {
    assert (x - y) * m == 0;
    assert x - y >= 1 ==> (x - y) * m >= m;
    assert x - y <= -1 ==> (x - y) * m + m <= 0;
  }

  /** Bit k counts 2^k. */
  lemma {:induction false} BitAtIsQuotient(v: int, k: nat)
    ensures BitAt(v, k) == (v / Pow2(k)) % 2
    decreases k
  {
    if k > 0 {
      BitAtIsQuotient(ShiftRight(v), k - 1);
      HalfOfQuotient(v, Pow2(k - 1));
    }
  }

  lemma Powers()
    ensures Pow2(0) == 1 && Pow2(1) == 2 && Pow2(2) == 4 && Pow2(3) == 8
    ensures Pow2(4) == 16 && Pow2(5) == 32 && Pow2(6) == 64 && Pow2(7) == 128
  {
    assert Pow2(4) == 16;
  }

  /** The eight bits of v in the order in which they are sent. */
  predicate EightBits(v: int, bits: seq<int>) {
    && |bits| == 8
    && bits[0] == v % 2 && bits[1] == (v / 2) % 2 && bits[2] == (v / 4) % 2 && bits[3] == (v / 8) % 2
    && bits[4] == (v / 16) % 2 && bits[5] == (v / 32) % 2 && bits[6] == (v / 64) % 2 && bits[7] == (v / 128) % 2
  }

  lemma BitsAreEight(v: int)
    ensures EightBits(v, BitsOf(v, 8))
  {
    var bits := BitsOf(v, 8);
    forall k | 0 <= k < 8 ensures bits[k] == (v / Pow2(k)) % 2 {
      BitsAreBitAt(v, 8, k);
      BitAtIsQuotient(v, k);
    }
    Powers();
    assert v / 1 == v;
  }

  lemma ValueOfEight(bits: seq<int>)
    requires |bits| == 8
    ensures Value(bits) == bits[0] + 2 * bits[1] + 4 * bits[2] + 8 * bits[3] + 16 * bits[4] + 32 * bits[5]
                           + 64 * bits[6] + 128 * bits[7]
  {
    var s1, s2, s3, s4, s5, s6, s7 := bits[1..], bits[2..], bits[3..], bits[4..], bits[5..], bits[6..], bits[7..];
    assert s1[1..] == s2 && s2[1..] == s3 && s3[1..] == s4 && s4[1..] == s5 && s5[1..] == s6 && s6[1..] == s7;
    assert s7[1..] == [];
    assert Value(s7) == bits[7];
    assert Value(s5) == bits[5] + 2 * Value(s6) && Value(s6) == bits[6] + 2 * Value(s7);
    assert Value(s3) == bits[3] + 2 * Value(s4) && Value(s4) == bits[4] + 2 * Value(s5);
    assert Value(s1) == bits[1] + 2 * Value(s2) && Value(s2) == bits[2] + 2 * Value(s3);
  }

  /** The eight low bits of v, put together again. */
  lemma WholeByte(v: int, bits: seq<int>)
    requires |bits| == 8 && forall k :: 0 <= k < 8 ==> bits[k] == BitAt(v, k)
    ensures Value(bits) == v % 256
  {
    forall k | 0 <= k < 8 ensures bits[k] == BitsOf(v, 8)[k] {
      BitsAreBitAt(v, 8, k);
    }
    assert bits == BitsOf(v, 8);
    ValueOfBits(v, 8);
    assert Pow2(8) == 256;
  }

  lemma {:induction false} ValueAppend(bits: seq<int>, bit: int)
    ensures Value(bits + [bit]) == Value(bits) + bit * Pow2(|bits|)
  {
    if bits == [] {
      assert [bit][1..] == [];
    } else {
      assert (bits + [bit])[1..] == bits[1..] + [bit];
      ValueAppend(bits[1..], bit);
      assert 2 * (bit * Pow2(|bits| - 1)) == bit * Pow2(|bits|);
    }
  }

  /** send_byte: eight times the low bit, then an arithmetic shift. */
  method SendByte(v: int) returns (sent: seq<nat>)
    ensures sent == BitsOf(v, 8)
    ensures EightBits(v, sent)
  {
    sent := [];
    var byte := v;
    for i := 0 to 8
      invariant sent + BitsOf(byte, 8 - i) == BitsOf(v, 8)
    {
      sent := sent + [LowBit(byte)];
      byte := ShiftRight(byte);
    }
    BitsAreEight(v);
  }

  /** recieve_byte: the sum of the received bits, each shifted to its place. */
  method ReceiveByte(bits: seq<int>) returns (byte: int)
    requires |bits| == 8
    ensures byte == Value(bits)
    ensures byte == bits[0] + 2 * bits[1] + 4 * bits[2] + 8 * bits[3] + 16 * bits[4] + 32 * bits[5]
                    + 64 * bits[6] + 128 * bits[7]
  {
    byte := 0;
    for i := 0 to 8
      invariant byte == Value(bits[..i])
    {
      ValueAppend(bits[..i], bits[i]);
      assert bits[..i] + [bits[i]] == bits[..i + 1];
      byte := byte + bits[i] * Pow2(i);
    }
    ValueOfEight(bits);
    assert bits[..8] == bits;
  }
}

/**
 * A message sent bit by bit with two signals (sems/signals/main.c). Signals do not queue: a
 * pending signal is a flag. The sender waits for an acknowledgement after each bit; the receiver
 * acknowledges before it reads the bit its handler stored.
 */
module SignalProtocol {
  import opened ByteBits

  /** All bytes handed to send_message, the terminator included. */
  datatype Config = Config(msg: seq<int>)

  // Signal numbers and masks; the acknowledgement is the same signal as a zero bit.
  const SIG_0 := 0
  const SIG_1 := 1
  const SIG_GOT := SIG_0
  const FULL_MASK: set<nat> := {SIG_0, SIG_1, SIG_GOT}
  const WAIT_MASK: set<nat> := FULL_MASK - {SIG_GOT}
  const RECEIVE_MASK: set<nat> := FULL_MASK - {SIG_0} - {SIG_1}

  /** About to send bit p (or finished, when there is none), about to call sigsuspend, or suspended. */
  datatype Parent = Kill(p: nat) | Call(p: nat) | Suspended(p: nat)

  /**
   * The child installs two handlers; for each bit it is about to call sigsuspend, suspended, about to
   * acknowledge, about to return the bit. Exited is after the newline; Killed, by a signal without handler.
   */
  datatype Child = Installing0 | Installing1 | Ready | Suspend | Ack | Return | Exited | Killed

  /** pending0 and pending1 at the child, gotPending at the parent: pending signals are no counters. */
  datatype State = State(parent: Parent, parentMask: set<nat>, child: Child, childMask: set<nat>,
                         pending0: bool, pending1: bool, gotPending: bool,
                         receivedBit: int, bits: seq<int>, output: seq<int>, signals: nat)

  /** The parent or the child moves, or a pending signal that is not blocked reaches one of them. */
  datatype Event = ParentStep | ChildStep | Deliver(bit: nat) | Acknowledge

  function Total(c: Config): nat { 8 * |c.msg| }

  function Bit(c: Config, p: nat): nat
    requires p < Total(c)
  {
    BitAt(c.msg[p / 8], p % 8)
  }

  function Init(): State {
    State(Kill(0), FULL_MASK, Installing0, FULL_MASK, false, false, false, -1, [], [], 0)
  }

  predicate Enabled(c: Config, s: State, e: Event) {
    match e
    case ParentStep => s.parent.Call? || (s.parent.Kill? && s.parent.p < Total(c))
    case ChildStep => !s.child.Suspend? && !s.child.Exited? && !s.child.Killed?
    case Deliver(bit) =>
      && ((bit == SIG_0 && s.pending0) || (bit == SIG_1 && s.pending1))
      && bit !in s.childMask && !s.child.Exited? && !s.child.Killed?
    case Acknowledge => s.gotPending && SIG_GOT !in s.parentMask
  }

  /**
   * A signal reaches the child: the handler sets the bit, and a suspended child wakes up with its old mask. Before
   * the child has installed its handlers, the one it has inherited does nothing, and SIG_1 has none.
   */
  function Delivered(s: State, bit: nat): State {
    var s' := if bit == SIG_0 then s.(pending0 := false) else s.(pending1 := false);
    if (s.child.Installing0? || s.child.Installing1?) && bit == SIG_1 then s'.(child := Killed)
    else if s.child.Installing0? then s'
    else if s.child.Suspend? then s'.(receivedBit := bit, child := Ack, childMask := FULL_MASK)
    else s'.(receivedBit := bit)
  }

  function ApplyChild(c: Config, s: State): State
    requires Enabled(c, s, ChildStep)
  {
    match s.child
    case Installing0 => s.(child := Installing1)
    case Installing1 => s.(child := Ready)
    case Ready => s.(child := Suspend, childMask := RECEIVE_MASK)
    case Ack => s.(gotPending := true, child := Return, signals := s.signals + 1)
    case _ =>
      var bits := s.bits + [s.receivedBit];
      if |bits| < 8 then s.(bits := bits, child := Ready)
      else if Value(bits) == 0 then s.(bits := bits, child := Exited)
      else s.(bits := [], output := s.output + [Value(bits)], child := Ready)
  }

  function Apply(c: Config, s: State, e: Event): State
    requires Enabled(c, s, e)
  {
    match e
    case ParentStep =>
      (match s.parent
       case Kill(p) =>
         var s' := if Bit(c, p) == 0 then s.(pending0 := true) else s.(pending1 := true);
         s'.(parent := Call(p), signals := s.signals + 1)
       case _ => s.(parent := Suspended(s.parent.p), parentMask := WAIT_MASK))
    case Acknowledge =>
      if s.parent.Suspended? then s.(gotPending := false, parent := Kill(s.parent.p + 1), parentMask := FULL_MASK)
      else s.(gotPending := false)
    case Deliver(bit) => Delivered(s, bit)
    case ChildStep => ApplyChild(c, s)
  }

  ghost predicate RunTo(c: Config, s: State, run: seq<Event>, t: State)
    decreases |run|
  {
    if run == [] then s == t
    else Enabled(c, s, run[0]) && RunTo(c, Apply(c, s, run[0]), run[1..], t)
  }

  ghost predicate Stuck(c: Config, s: State) {
    forall e :: !Enabled(c, s, e)
  }

  // ----- The invariant -----

  /** The bits the child has returned to recieve_byte. */
  function Taken(s: State): nat {
    8 * |s.output| + |s.bits|
  }

  /** The bits the child has acknowledged. */
  function Acked(s: State): nat {
    Taken(s) + (if s.child.Return? then 1 else 0)
  }

  /** The bits the parent has sent. */
  function Sent(s: State): nat {
    if s.parent.Kill? then s.parent.p else s.parent.p + 1
  }

  predicate NothingPending(s: State) { !s.pending0 && !s.pending1 }

  /** Exactly the signal for bit p is pending at the child. */
  predicate OnlyPending(c: Config, s: State, p: nat)
    requires p < Total(c)
  {
    s.pending0 == (Bit(c, p) == 0) && s.pending1 == (Bit(c, p) != 0)
  }

  /** Signals are blocked except in sigsuspend. */
  predicate Masks(s: State) {
    && s.parentMask == (if s.parent.Suspended? then WAIT_MASK else FULL_MASK)
    && s.childMask == (if s.child.Suspend? then RECEIVE_MASK else FULL_MASK)
  }

  predicate Handshake(c: Config, s: State) {
    match s.parent
    case Kill(p) =>
      p == Acked(s) && !s.gotPending && NothingPending(s) && !s.child.Ack?
    case _ =>
      var p := s.parent.p;
      && p < Total(c)
      && if s.gotPending then Acked(s) == p + 1 && NothingPending(s) && !s.child.Ack?
         else Acked(s) == p && if s.child.Ack? then NothingPending(s) else OnlyPending(c, s, p)
  }

  predicate Received(c: Config, s: State) {
    && Acked(s) <= Total(c)
    && (s.child.Ack? || s.child.Return? ==> Taken(s) < Total(c) && s.receivedBit == Bit(c, Taken(s)))
    && |s.output| <= |c.msg|
    && (forall i :: 0 <= i < |s.output| ==> s.output[i] == c.msg[i] % 256 != 0)
    && (s.child.Exited? ==>
          |s.bits| == 8 && |s.output| < |c.msg| && c.msg[|s.output|] % 256 == 0)
    && (!s.child.Exited? ==> |s.bits| < 8)
    && (s.bits != [] ==> |s.output| < |c.msg|)
    && (forall k :: 0 <= k < |s.bits| ==> s.bits[k] == BitAt(c.msg[|s.output|], k))
  }

  predicate Inv(c: Config, s: State) {
    Masks(s) && Handshake(c, s) && Received(c, s) && s.signals == Sent(s) + Acked(s) && !s.child.Killed?
  }

  /** Bit p of the message is the one that send_byte sends p % 8-th for its byte. */
  lemma BitIsSent(c: Config, p: nat)
    requires p < Total(c)
    ensures Bit(c, p) == BitsOf(c.msg[p / 8], 8)[p % 8] == (c.msg[p / 8] / Pow2(p % 8)) % 2
  {
    BitsAreBitAt(c.msg[p / 8], 8, p % 8);
    BitAtIsQuotient(c.msg[p / 8], p % 8);
  }

  lemma PositionInByte(out: nat, k: nat)
    requires k < 8
    ensures (8 * out + k) / 8 == out && (8 * out + k) % 8 == k
  {
  }

  /** One more bit of the byte the child is receiving. */
  lemma BitIsReturned(c: Config, s: State)
    requires Received(c, s) && s.child.Return?
    ensures |s.output| < |c.msg| && s.receivedBit == BitAt(c.msg[|s.output|], |s.bits|)
    ensures |s.bits| == 7 ==> Value(s.bits + [s.receivedBit]) == c.msg[|s.output|] % 256
  {
    var i, k := |s.output|, |s.bits|;
    PositionInByte(i, k);
    if k == 7 {
      WholeByte(c.msg[i], s.bits + [s.receivedBit]);
    }
  }

  lemma ReturnKeepsReceived(c: Config, s: State)
    requires Received(c, s) && s.child.Return?
    ensures Received(c, ApplyChild(c, s)) && Taken(ApplyChild(c, s)) == Taken(s) + 1
  {
    BitIsReturned(c, s);
  }

  lemma ReturnKeepsInv(c: Config, s: State)
    requires Inv(c, s) && s.child.Return?
    ensures Inv(c, ApplyChild(c, s))
  {
    ReturnKeepsReceived(c, s);
  }

  lemma ChildKeepsInv(c: Config, s: State)
    requires Inv(c, s) && Enabled(c, s, ChildStep) && !s.child.Return?
    ensures Inv(c, ApplyChild(c, s))
  {
  }

  /** What the masks let through: a data signal only to the suspended child, the other only to the suspended parent. */
  lemma OnlySuspendedHear(c: Config, s: State, e: Event)
    requires Masks(s) && Enabled(c, s, e)
    ensures e.Deliver? ==> s.child.Suspend?
    ensures e.Acknowledge? ==> s.parent.Suspended?
  {
  }

  lemma DeliverKeepsInv(c: Config, s: State, bit: nat)
    requires Inv(c, s) && Enabled(c, s, Deliver(bit))
    ensures Inv(c, Delivered(s, bit))
  {
    OnlySuspendedHear(c, s, Deliver(bit));
  }

  lemma ParentKeepsInv(c: Config, s: State, e: Event)
    requires Inv(c, s) && Enabled(c, s, e) && (e.ParentStep? || e.Acknowledge?)
    ensures Inv(c, Apply(c, s, e))
  {
    OnlySuspendedHear(c, s, e);
  }

  lemma StepKeepsInv(c: Config, s: State, e: Event)
    requires Inv(c, s) && Enabled(c, s, e)
    ensures Inv(c, Apply(c, s, e))
  {
    match e
    case ChildStep => if s.child.Return? { ReturnKeepsInv(c, s); } else { ChildKeepsInv(c, s); }
    case Deliver(bit) => DeliverKeepsInv(c, s, bit);
    case _ => ParentKeepsInv(c, s, e);
  }

  // ----- The measure: every step lowers it by exactly one -----

  function ChildWork(s: State): int {
    match s.child
    case Installing0 => 2
    case Installing1 => 1
    case Suspend => -1
    case Ack => -2
    case Return => -3
    case _ => 0
  }

  function ParentWork(s: State): int {
    match s.parent case Kill(p) => 0 case Call(p) => -1 case Suspended(p) => -2
  }

  function Measure(c: Config, s: State): int {
    3 * (Total(c) - s.parent.p) + ParentWork(s) + 4 * (Total(c) - Taken(s)) + ChildWork(s)
  }

  lemma ChildLowersMeasure(c: Config, s: State)
    requires Inv(c, s) && Enabled(c, s, ChildStep)
    ensures Measure(c, ApplyChild(c, s)) == Measure(c, s) - 1
  {
    if s.child.Return? {
      ReturnKeepsReceived(c, s);
    }
  }

  lemma StepLowersMeasure(c: Config, s: State, e: Event)
    requires Inv(c, s) && Enabled(c, s, e)
    ensures Measure(c, Apply(c, s, e)) == Measure(c, s) - 1
  {
    if e.ChildStep? {
      ChildLowersMeasure(c, s);
    } else {
      OnlySuspendedHear(c, s, e);
    }
  }

  lemma {:induction false} RunKeepsInv(c: Config, s: State, run: seq<Event>, t: State)
    requires Inv(c, s) && RunTo(c, s, run, t)
    ensures Inv(c, t) && |run| + Measure(c, t) == Measure(c, s)
    decreases |run|
  {
    if run != [] {
      StepKeepsInv(c, s, run[0]);
      StepLowersMeasure(c, s, run[0]);
      RunKeepsInv(c, Apply(c, s, run[0]), run[1..], t);
    }
  }

  // ----- Main results -----

  /** The first byte that is zero modulo 256, or the length of the message. */
  function ZeroAt(msg: seq<int>): (z: nat)
    ensures z <= |msg|
    ensures z < |msg| ==> msg[z] % 256 == 0
    ensures forall i :: 0 <= i < z ==> msg[i] % 256 != 0
  {
    if msg == [] || msg[0] % 256 == 0 then 0 else 1 + ZeroAt(msg[1..])
  }

  function Bytes(msg: seq<int>): seq<int> {
    seq(|msg|, i requires 0 <= i < |msg| => msg[i] % 256)
  }

  /**
   * No signal is lost although signals do not queue: at most one data signal is pending at the
   * child, that of the last bit sent, never together with an unread acknowledgement; the acknowledged bits are the sent bits
   * except for at most one; no signal is delivered but to a process in sigsuspend, so that one that
   * comes early neither kills the child nor changes the bit about to be returned.
   */
  lemma NoBitIsLost(c: Config, run: seq<Event>, t: State)
    requires RunTo(c, Init(), run, t)
    ensures !(t.pending0 && t.pending1) && !(t.gotPending && (t.pending0 || t.pending1))
    ensures Acked(t) <= Sent(t) <= Acked(t) + 1 && Sent(t) <= Total(c)
    ensures Acked(t) < Sent(t) <==> t.pending0 || t.pending1 || t.child.Ack?
    ensures t.pending0 || t.pending1 ==> (t.pending0 <==> Bit(c, Sent(t) - 1) == 0)
    ensures t.child.Return? ==> Taken(t) < Total(c) && t.receivedBit == Bit(c, Taken(t))
    ensures t.output <= Bytes(c.msg)
    ensures t.signals == Sent(t) + Acked(t)
    ensures !t.child.Killed? && forall bit :: Enabled(c, t, Deliver(bit)) ==> t.child.Suspend?
    ensures Enabled(c, t, Acknowledge) ==> t.parent.Suspended?
  {
    RunKeepsInv(c, Init(), run, t);
  }

  // ----- What the masks are for -----

  lemma StepThen(c: Config, s: State, e: Event, run: seq<Event>, t: State)
    requires Enabled(c, s, e) && RunTo(c, Apply(c, s, e), run, t)
    ensures RunTo(c, s, [e] + run, t)
  {
    assert ([e] + run)[1..] == run;
  }

  /** Nothing has been received and nothing more will be. */
  ghost predicate NothingGetsThrough(c: Config, t: State) {
    Stuck(c, t) && t.output == [] && t.parent == Suspended(0)
  }

  lemma GoOn(c: Config, s: State, e: Event, rest: seq<Event>, t: State) returns (run: seq<Event>)
    requires Enabled(c, s, e) && RunTo(c, Apply(c, s, e), rest, t)
    ensures RunTo(c, s, run, t)
  {
    run := [e] + rest;
    StepThen(c, s, e, rest, t);
  }

  /**
   * If the child started with open signals, then for every message some run would kill it, if the first bit is 1,
   * or lose that bit, so that both would wait for ever.
   */
  lemma ChildMaskIsNeeded(c: Config) returns (run: seq<Event>, t: State)
    requires c.msg != []
    ensures RunTo(c, Init().(childMask := {}), run, t) && NothingGetsThrough(c, t)
    ensures t.child.Killed? <==> Bit(c, 0) == 1
  {
    var s0 := Init().(childMask := {});
    var s1 := Apply(c, s0, ParentStep);
    var s2 := Apply(c, s1, Deliver(Bit(c, 0)));
    var s3 := Apply(c, s2, ParentStep);
    if Bit(c, 0) == 1 {
      run, t := [], s3;
    } else {
      var s4 := Apply(c, s3, ChildStep);
      var s5 := Apply(c, s4, ChildStep);
      t := Apply(c, s5, ChildStep);
      run := GoOn(c, s5, ChildStep, [], t);
      run := GoOn(c, s4, ChildStep, run, t);
      run := GoOn(c, s3, ChildStep, run, t);
    }
    run := GoOn(c, s2, ParentStep, run, t);
    run := GoOn(c, s1, Deliver(Bit(c, 0)), run, t);
    run := GoOn(c, s0, ParentStep, run, t);
  }

  /** If the parent had its signals open while sending, some run would lose the first acknowledgement. */
  lemma ParentMaskIsNeeded(c: Config) returns (run: seq<Event>, t: State)
    requires c.msg != []
    ensures RunTo(c, Init().(parentMask := {}), run, t) && NothingGetsThrough(c, t) && t.bits == [Bit(c, 0)]
  {
    var s0 := Init().(parentMask := {});
    var s1 := Apply(c, s0, ChildStep);
    var s2 := Apply(c, s1, ChildStep);
    var s3 := Apply(c, s2, ChildStep);
    var s4 := Apply(c, s3, ParentStep);
    var s5 := Apply(c, s4, Deliver(Bit(c, 0)));
    var s6 := Apply(c, s5, ChildStep);
    var s7 := Apply(c, s6, Acknowledge);
    var s8 := Apply(c, s7, ParentStep);
    var s9 := Apply(c, s8, ChildStep);
    t := Apply(c, s9, ChildStep);
    run := GoOn(c, s9, ChildStep, [], t);
    run := GoOn(c, s8, ChildStep, run, t);
    run := GoOn(c, s7, ParentStep, run, t);
    run := GoOn(c, s6, Acknowledge, run, t);
    run := GoOn(c, s5, ChildStep, run, t);
    run := GoOn(c, s4, Deliver(Bit(c, 0)), run, t);
    run := GoOn(c, s3, ParentStep, run, t);
    run := GoOn(c, s2, ChildStep, run, t);
    run := GoOn(c, s1, ChildStep, run, t);
    run := GoOn(c, s0, ChildStep, run, t);
  }

  predicate Finished(c: Config, s: State) {
    s.parent == Kill(Total(c)) && s.child == Exited
  }

  /** What any run ends in: the bytes before the first zero printed, and who is left waiting. */
  lemma StuckOutput(c: Config, run: seq<Event>, t: State)
    requires RunTo(c, Init(), run, t) && Stuck(c, t)
    ensures t.output == Bytes(c.msg)[..ZeroAt(c.msg)]
    ensures t.child.Exited? <==> ZeroAt(c.msg) < |c.msg|
    ensures t.parent == Kill(Total(c)) <==> ZeroAt(c.msg) + 1 >= |c.msg|
    ensures Finished(c, t) ==> t.signals == 16 * |c.msg|
  {
    RunKeepsInv(c, Init(), run, t);
    assert !Enabled(c, t, ParentStep) && !Enabled(c, t, ChildStep) && !Enabled(c, t, Acknowledge);
    assert !Enabled(c, t, Deliver(0)) && !Enabled(c, t, Deliver(1));
    if t.child.Exited? {
      assert |t.output| == ZeroAt(c.msg);
    } else {
      assert t.child.Suspend? && t.parent == Kill(Total(c));
      assert |t.output| == |c.msg|;
    }
  }

  /** Some run goes on to the end. */
  lemma RunOn(c: Config, s: State) returns (run: seq<Event>, t: State)
    requires Inv(c, s)
    ensures RunTo(c, s, run, t) && Stuck(c, t)
    decreases Measure(c, s)
  {
    if e :| Enabled(c, s, e) {
      var u := Apply(c, s, e);
      StepKeepsInv(c, s, e);
      StepLowersMeasure(c, s, e);
      var rest;
      rest, t := RunOn(c, u);
      run := [e] + rest;
      assert run[1..] == rest;
    } else {
      run, t := [], s;
    }
  }

  ghost predicate AlwaysFinishes(c: Config) {
    forall run: seq<Event>, t: State :: RunTo(c, Init(), run, t) && Stuck(c, t) ==> Finished(c, t)
  }

  /** Both processes always finish exactly if the first zero byte is the last byte of the message. */
  lemma FinishesExactlyIfTerminated(c: Config)
    ensures AlwaysFinishes(c) <==> ZeroAt(c.msg) + 1 == |c.msg|
  {
    forall run: seq<Event>, t: State | RunTo(c, Init(), run, t) && Stuck(c, t)
      ensures Finished(c, t) <==> ZeroAt(c.msg) + 1 == |c.msg|
    {
      StuckOutput(c, run, t);
    }
    var run, t := RunOn(c, Init());
  }

  /** Every run takes at most 56 steps per byte, two for the handlers and the last call of sigsuspend. */
  lemma EveryRunIsBounded(c: Config, run: seq<Event>, t: State)
    requires RunTo(c, Init(), run, t)
    ensures |run| <= 56 * |c.msg| + 3
  {
    RunKeepsInv(c, Init(), run, t);
  }
}
