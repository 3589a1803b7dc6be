/**
 * When does every process hear EOF? (sems/bogatyri/msgq_bogatyri.c, broadcast_eof_to_all)
 *
 * EOF messages are sent without blocking, every process repeats the broadcast, and what is
 * sent to a process that has left stays in the queue. If the queue is too small, messages
 * for processes that have left fill it and the last waiting process is never told.
 * The exact limit is (n - 2) * (p - 1), where p is the largest rank other than that of the
 * process that printed the last character.
 */
module MsgqEofCapacity {
  import opened Sums
  import opened MsgqBogatyri

  /** A text the processes can print, and a queue that can hold a message at all. */
  predicate Printable(c: Config) {
    c.text != [] && c.cap > 0 && forall j :: 0 <= j < |c.text| ==> c.text[j] < c.n
  }

  /** The largest rank that still waits when the process of rank f has printed the last character. */
  function LastTold(n: nat, f: nat): int {
    if f == n - 1 then n - 2 else n - 1
  }

  /** How many messages for processes that have left can get in the way. */
  function Clog(c: Config): int
    requires c.text != []
  {
    if c.n < 2 then 0 else (c.n - 2) * (LastTold(c.n, Last(c.text)) - 1)
  }

  predicate AllExited(c: Config, s: State) {
    |s.procs| == c.n && forall r :: 0 <= r < c.n ==> s.procs[r].Exited?
  }

  // ----- A queue above the limit -----

  /** How many other processes r has tried to tell. */
  function Tried(c: Config, p: Process, r: nat): int {
    match p
    case Broadcasting(next) => next - (if r < next then 1 else 0)
    case Exited => c.n - 1
    case _ => 0
  }

  /** What r can have added to the queue: its sends, less the EOF it took out itself. */
  function Credit(c: Config, p: Process, r: nat): int {
    if Started(p) then Tried(c, p, r) - 1 else 0
  }

  function Credits(c: Config, procs: seq<Process>): seq<int> {
    seq(|procs|, r requires 0 <= r < |procs| => Credit(c, procs[r], r))
  }

  predicate Told(s: State, q: nat) {
    FirstOf(s.queue, q + 1) < |s.queue|
  }

  predicate Untried(s: State, q: nat) {
    forall r :: 0 <= r < |s.procs| ==> !s.procs[r].Exited? && (s.procs[r].Broadcasting? ==> s.procs[r].next <= q)
  }

  /**
   * The one case in which a process may be passed over and yet be told: three processes,
   * the last one finishing, room for one message. Rank 0 then tells rank 1.
   */
  predicate ToldByRankZero(c: Config, s: State, q: nat) {
    && |s.procs| == c.n && TinyCase(c, q)
    && (s.procs[2].Exited? || (s.procs[2].Broadcasting? && s.procs[2].next >= 2))
    && ( (s.procs[0].Loop? && s.queue == [Eof(1)])
      || (s.procs[0].Broadcasting? && s.procs[0].next <= 1 && s.queue == []))
  }

  predicate WillBeTold(c: Config, s: State, q: nat) {
    Told(s, q) || Untried(s, q) || ToldByRankZero(c, s, q)
  }

  predicate EofInv(c: Config, s: State) {
    && c.text != [] && EofPhase(c, s)
    && |s.queue| <= c.cap
    && |s.queue| <= 1 + Sum(Credits(c, s.procs))
    && forall q :: 0 <= q < c.n && s.procs[q].Loop? ==> WillBeTold(c, s, q)
  }

  lemma CreditsUpdate(c: Config, procs: seq<Process>, r: nat, p: Process)
    requires r < |procs|
    ensures Sum(Credits(c, procs[r := p])) == Sum(Credits(c, procs)) - Credit(c, procs[r], r) + Credit(c, p, r)
  {
    assert Credits(c, procs[r := p]) == Credits(c, procs)[r := Credit(c, p, r)];
    SumUpdate(Credits(c, procs), r, Credit(c, p, r));
  }

  lemma {:induction false} RowSum(q: nat, row: seq<int>)
    requires forall r :: 0 <= r < |row| ==> row[r] == if r == q then 0 else if r < q then q - 2 else q - 1
    ensures Sum(row) == if |row| <= q then |row| * (q - 2) else q * (q - 2) + (|row| - 1 - q) * (q - 1)
  {
    if row != [] {
      var m := |row| - 1;
      RowSum(q, row[..m]);
      if m > q {
        assert (m - 1 - q) * (q - 1) + (q - 1) == (m - q) * (q - 1);
      } else if m < q {
        assert m * (q - 2) + (q - 2) == (m + 1) * (q - 2);
      }
    }
  }

  lemma RowBound(c: Config, procs: seq<Process>, q: nat, r: nat)
    requires q < |procs| == c.n && r < c.n && procs[q].Loop?
    requires procs[r].Broadcasting? ==> procs[r].next <= q
    requires !procs[r].Exited?
    ensures q >= 2 ==> Credit(c, procs[r], r) <= if r == q then 0 else if r < q then q - 2 else q - 1
    ensures q < 2 ==> Credit(c, procs[r], r) <= 0
    ensures Started(procs[r]) && (q == 0 || (q == 1 && r == 0)) ==> Credit(c, procs[r], r) <= -1
  {
  }

  lemma RowTotal(n: int, q: int)
    ensures 1 + q * (q - 2) + (n - 1 - q) * (q - 1) == (n - 2) * (q - 1)
  {
    assert (n - 2) * (q - 1) == (n - 1 - q) * (q - 1) + (q - 1) * (q - 1);
  }

  lemma MulLe(a: int, x: int, y: int)
    requires 0 <= a && x <= y
    ensures a * x <= a * y
  {
  }

  lemma QueueBeforeLateTry(c: Config, s: State, q: nat)
    requires EofInv(c, s) && 2 <= q < c.n && s.procs[q].Loop? && Untried(s, q)
    ensures |s.queue| <= (c.n - 2) * (q - 1)
  {
    var credits := Credits(c, s.procs);
    var row := seq(c.n, r => if r == q then 0 else if r < q then q - 2 else q - 1);
    forall r | 0 <= r < c.n ensures credits[r] <= row[r] {
      RowBound(c, s.procs, q, r);
    }
    SumLe(credits, row);
    RowSum(q, row);
    RowTotal(c.n, q);
  }

  lemma QueueBeforeEarlyTry(c: Config, s: State, q: nat)
    requires EofInv(c, s) && q < 2 && q < c.n && s.procs[q].Loop? && Untried(s, q)
    ensures |s.queue| <= 1
    ensures q == 0 || Started(s.procs[0]) ==> s.queue == []
  {
    var credits := Credits(c, s.procs);
    var zeros := seq(c.n, _ => 0);
    SumConstant(zeros, 0);
    forall r | 0 <= r < c.n ensures credits[r] <= zeros[r] {
      RowBound(c, s.procs, q, r);
    }
    SumLe(credits, zeros);
    if q == 0 || Started(s.procs[0]) {
      var f := if q == 0 then Last(c.text) else 0;
      RowBound(c, s.procs, q, f);
      SumUpdate(zeros, f, -1);
      SumLe(credits, zeros[f := -1]);
    }
  }

  predicate TinyCase(c: Config, q: nat) {
    c.n == 3 && c.text != [] && Last(c.text) == 2 && c.cap == 1 && q == 1
  }

  /** The first try to tell a waiting process succeeds, except in the tiny case. */
  lemma RoomForFirstTry(c: Config, s: State, q: nat)
    requires EofInv(c, s) && c.cap > Clog(c) && c.cap > 0
    requires q < c.n && s.procs[q].Loop? && Untried(s, q)
    ensures |s.queue| < c.cap || (TinyCase(c, q) && s.procs[0].Loop?)
  {
    var p := LastTold(c.n, Last(c.text));
    assert q <= p;
    if q >= 2 {
      QueueBeforeLateTry(c, s, q);
      MulLe(c.n - 2, q - 1, p - 1);
    } else {
      QueueBeforeEarlyTry(c, s, q);
      if p >= 2 {
        MulLe(c.n - 2, 1, p - 1);
      }
    }
  }

  lemma AppendTells(queue: seq<Message>, msg: Message, mtype: nat)
    ensures FirstOf(queue + [msg], mtype) < |queue| + 1 <==> FirstOf(queue, mtype) < |queue| || msg.mtype == mtype
  {
    var longer := queue + [msg];
    if FirstOf(queue, mtype) < |queue| {
      assert longer[FirstOf(queue, mtype)].mtype == mtype;
    } else if msg.mtype == mtype {
      assert longer[|queue|].mtype == mtype;
    }
  }

  lemma OthersStillTold(queue: seq<Message>, m: nat, mtype: nat)
    requires m < |queue| && queue[m].mtype != mtype
    ensures FirstOf(queue, mtype) < |queue| ==> FirstOf(Without(queue, m), mtype) < |queue| - 1
  {
    var i := FirstOf(queue, mtype);
    if i < |queue| {
      var shorter := Without(queue, m);
      assert shorter[if i < m then i else i - 1].mtype == mtype;
    }
  }

  lemma SendTells(c: Config, s: State, r: nat, q: nat)
    requires Enabled(c, s, r) && s.procs[r].Broadcasting?
    ensures Told(s, q) ==> Told(Apply(c, s, r), q)
    ensures s.procs[r].next == q < c.n && q != r && |s.queue| < c.cap ==> Told(Apply(c, s, r), q)
  {
    var j := s.procs[r].next;
    if j < c.n && j != r && |s.queue| < c.cap {
      AppendTells(s.queue, Eof(j + 1), q + 1);
    }
  }

  lemma PassedOverInTinyCase(c: Config, s: State, r: nat, q: nat)
    requires EofInv(c, s) && TinyCase(c, q)
    requires Enabled(c, s, r) && s.procs[r] == Broadcasting(1) && s.procs[0].Loop? && s.procs[1].Loop?
    requires |s.queue| == 1
    ensures ToldByRankZero(c, Apply(c, s, r), q)
  {
    assert r == 2;
    assert WillBeTold(c, s, 0) && !Untried(s, 0) && !ToldByRankZero(c, s, 0);
    assert s.queue == [Eof(1)];
  }

  lemma TinyCaseGoesOn(c: Config, s: State, r: nat, q: nat)
    requires EofInv(c, s) && ToldByRankZero(c, s, q)
    requires Enabled(c, s, r) && s.procs[r].Broadcasting? && q != r
    ensures WillBeTold(c, Apply(c, s, r), q)
  {
    SendTells(c, s, r, q);
    assert r == 0 || r == 2;
  }

  lemma BroadcastKeepsTelling(c: Config, s: State, r: nat, q: nat)
    requires EofInv(c, s) && c.cap > Clog(c) && c.cap > 0
    requires Enabled(c, s, r) && s.procs[r].Broadcasting?
    requires q < c.n && q != r && s.procs[q].Loop?
    ensures WillBeTold(c, Apply(c, s, r), q)
  {
    SendTells(c, s, r, q);
    if ToldByRankZero(c, s, q) {
      TinyCaseGoesOn(c, s, r, q);
    } else if !Told(s, q) {
      assert Untried(s, q);
      if s.procs[r].next == q {
        RoomForFirstTry(c, s, q);
        if |s.queue| >= c.cap {
          PassedOverInTinyCase(c, s, r, q);
        }
      } else {
        assert Untried(Apply(c, s, r), q);
      }
    }
  }

  lemma BroadcastKeepsEofInv(c: Config, s: State, r: nat)
    requires EofInv(c, s) && c.cap > Clog(c) && c.cap > 0
    requires Enabled(c, s, r) && s.procs[r].Broadcasting?
    ensures EofInv(c, Apply(c, s, r))
  {
    var t := Apply(c, s, r);
    CreditsUpdate(c, s.procs, r, t.procs[r]);
    forall q | 0 <= q < c.n && t.procs[q].Loop? ensures WillBeTold(c, t, q) {
      BroadcastKeepsTelling(c, s, r, q);
    }
  }

  lemma ReceiveKeepsTelling(c: Config, s: State, r: nat, q: nat)
    requires |s.procs| == c.n && WillBeTold(c, s, q)
    requires Enabled(c, s, r) && s.procs[r].Loop? && Apply(c, s, r).procs[r] == Broadcasting(0)
    requires FirstOf(s.queue, r + 1) < |s.queue| && Apply(c, s, r).queue == Without(s.queue, FirstOf(s.queue, r + 1))
    requires q < c.n && q != r && s.procs[q].Loop?
    ensures WillBeTold(c, Apply(c, s, r), q)
  {
    if Told(s, q) {
      OthersStillTold(s.queue, FirstOf(s.queue, r + 1), q + 1);
      assert Told(Apply(c, s, r), q);
    } else if Untried(s, q) {
      assert Untried(Apply(c, s, r), q);
    } else {
      assert r == 0;
      assert ToldByRankZero(c, Apply(c, s, r), q);
    }
  }

  lemma ReceiveKeepsEofInv(c: Config, s: State, r: nat)
    requires EofInv(c, s)
    requires Enabled(c, s, r) && s.procs[r].Loop?
    ensures EofInv(c, Apply(c, s, r))
  {
    var t := Apply(c, s, r);
    CreditsUpdate(c, s.procs, r, t.procs[r]);
    forall q | 0 <= q < c.n && t.procs[q].Loop? ensures WillBeTold(c, t, q) {
      ReceiveKeepsTelling(c, s, r, q);
    }
  }

  lemma FinishStartsEofInv(c: Config, s: State, r: nat)
    requires |s.procs| == c.n && TokenPhase(c, s) && Enabled(c, s, r) && c.cap > 0
    ensures TokenPhase(c, Apply(c, s, r)) || EofInv(c, Apply(c, s, r))
  {
    StepFromToken(c, s, r);
    var t := Apply(c, s, r);
    if !TokenPhase(c, t) {
      assert t.procs[r] == Broadcasting(0);
      var h: nat :| HeldOnlyBy(c, s, h);
      assert h == r;
      var credits := Credits(c, t.procs);
      var zeros := seq(c.n, _ => 0);
      SumConstant(zeros, 0);
      SumUpdate(zeros, r, -1);
      assert credits == zeros[r := -1];
    }
  }

  lemma {:induction false} RunKeepsEofInv(c: Config, s: State, run: seq<nat>, t: State)
    requires c.cap > 0 && |s.procs| == c.n && (TokenPhase(c, s) || (EofInv(c, s) && c.cap > Clog(c)))
    requires c.text != [] && c.cap > Clog(c)
    requires RunTo(c, s, run, t)
    ensures |t.procs| == c.n && (TokenPhase(c, t) || EofInv(c, t))
    decreases |run|
  {
    if run != [] {
      var r := run[0];
      if TokenPhase(c, s) {
        FinishStartsEofInv(c, s, r);
        StepKeepsInv(c, s, r);
      } else if s.procs[r].Loop? {
        ReceiveKeepsEofInv(c, s, r);
      } else {
        BroadcastKeepsEofInv(c, s, r);
      }
      RunKeepsEofInv(c, Apply(c, s, r), run[1..], t);
    }
  }

  lemma TinyCaseMoves(c: Config, s: State, q: nat)
    requires ToldByRankZero(c, s, q)
    ensures Enabled(c, s, 0)
  {
    assert s.procs[0].Loop? ==> s.queue[0].mtype == 1;
  }

  /** With a queue above the limit, every run that can go no further has told everybody. */
  lemma LargeQueueTellsAll(c: Config, run: seq<nat>, t: State)
    requires Printable(c) && c.cap > Clog(c)
    requires RunTo(c, Init(c), run, t) && Stuck(c, t)
    ensures AllExited(c, t)
  {
    InitInv(c);
    RunKeepsEofInv(c, Init(c), run, t);
    if TokenPhase(c, t) {
      var r := TokenMoves(c, t);
      assert false;
    }
    assert forall r :: 0 <= r < c.n ==> !Enabled(c, t, r);
    forall q | 0 <= q < c.n ensures t.procs[q].Exited? {
      assert !Enabled(c, t, q);
      assert !Enabled(c, t, Last(c.text));
      if t.procs[q].Loop? {
        assert WillBeTold(c, t, q);
        TinyCaseMoves(c, t, q);
        assert false;
      }
    }
  }

  // ----- A queue at or below the limit: a run that leaves one process waiting for ever -----

  lemma OneStep(c: Config, s: State, r: nat)
    requires Enabled(c, s, r)
    ensures RunTo(c, s, [r], Apply(c, s, r))
  {
    assert RunTo(c, Apply(c, s, r), [], Apply(c, s, r));
    assert [r][1..] == [];
  }

  /** Some run prints the whole text and brings its last singer to the broadcast. */
  lemma ReachBroadcast(c: Config, s: State) returns (run: seq<nat>, t: State)
    requires Printable(c) && |s.procs| == c.n && TokenPhase(c, s)
    ensures RunTo(c, s, run, t) && TellingFrom(c, t, 0)
    decreases Measure(c, s)
  {
    MeasureNonNegative(c, s);
    var r := TokenMoves(c, s);
    var s' := Apply(c, s, r);
    OneStep(c, s, r);
    StepFromToken(c, s, r);
    StepLowersMeasure(c, s, r);
    if TokenPhase(c, s') {
      run, t := ReachBroadcast(c, s');
      RunConcat(c, s, [r], s', run, t);
      run := [r] + run;
    } else {
      var h: nat :| HeldOnlyBy(c, s, h);
      assert h == r;
      run, t := [r], s';
    }
  }

  /** The last singer has told the ranks below j; each of them has taken its EOF and not gone on. */
  predicate TellingFrom(c: Config, s: State, j: nat) {
    && Printable(c) && |s.procs| == c.n && s.queue == []
    && s.procs[Last(c.text)] == Broadcasting(j)
    && forall r :: 0 <= r < c.n && r != Last(c.text) ==>
         if r < j then s.procs[r] == Broadcasting(0) else Stale(c, s.procs[r], r)
  }

  lemma TellUpTo(c: Config, s: State, j: nat, p: nat) returns (run: seq<nat>, t: State)
    requires TellingFrom(c, s, j) && j <= p < c.n
    ensures RunTo(c, s, run, t) && TellingFrom(c, t, p)
    decreases p - j
  {
    var f := Last(c.text);
    if j == p {
      run, t := [], s;
    } else {
      var u := Apply(c, s, f);
      OneStep(c, s, f);
      run := [f];
      if j != f {
        assert u.queue == [Eof(j + 1)];
        assert FirstOf(u.queue, j + 1) == 0;
        var v := Apply(c, u, j);
        OneStep(c, u, j);
        RunConcat(c, s, [f], u, [j], v);
        run, u := [f] + [j], v;
      }
      var rest, w := TellUpTo(c, u, j + 1, p);
      RunConcat(c, s, run, u, rest, w);
      run, t := run + rest, w;
    }
  }

  predicate NothingFor(queue: seq<Message>, p: nat) {
    forall m :: 0 <= m < |queue| ==> queue[m].mtype != p + 1
  }

  function Min(a: int, b: int): int { if a < b then a else b }

  /** Process r, undisturbed, broadcasts to the ranks j..p-1; what does not fit is dropped. */
  lemma SendRow(c: Config, s: State, r: nat, j: nat, p: nat) returns (run: seq<nat>, t: State)
    requires r < |s.procs| && s.procs[r] == Broadcasting(j) && j <= p < c.n
    requires NothingFor(s.queue, p) && |s.queue| <= c.cap
    ensures RunTo(c, s, run, t) && t.procs == s.procs[r := Broadcasting(p)] && t.out == s.out
    ensures NothingFor(t.queue, p)
    ensures |t.queue| == Min(c.cap, |s.queue| + (p - j) - (if j <= r < p then 1 else 0))
    decreases p - j
  {
    if j == p {
      run, t := [], s;
    } else {
      var u := Apply(c, s, r);
      OneStep(c, s, r);
      var rest, w := SendRow(c, u, r, j + 1, p);
      RunConcat(c, s, [r], u, rest, w);
      run, t := [r] + rest, w;
    }
  }

  /** How many ranks below r are not f. */
  function Others(r: nat, f: nat): int {
    if f < r then r - 1 else r
  }

  /** The ranks below r have filled the queue with messages nobody will fetch; p still waits. */
  predicate Clogging(c: Config, s: State, r: nat, p: nat) {
    && Printable(c) && |s.procs| == c.n && p < c.n && p != Last(c.text)
    && Stale(c, s.procs[p], p) && NothingFor(s.queue, p)
    && (forall q :: 0 <= q < c.n && q != p ==>
          s.procs[q] == Broadcasting(if q == Last(c.text) || q < r then p else 0))
    && |s.queue| == Min(c.cap, (p - 1) * Others(r, Last(c.text)))
  }

  lemma ClogOne(c: Config, s: State, r: nat, p: nat) returns (run: seq<nat>, t: State)
    requires Clogging(c, s, r, p) && r < p && r != Last(c.text)
    ensures RunTo(c, s, run, t) && Clogging(c, t, r + 1, p)
  {
    run, t := SendRow(c, s, r, 0, p);
    var k := Others(r, Last(c.text));
    assert Others(r + 1, Last(c.text)) == k + 1;
    OneMoreRow(p - 1, k);
  }

  lemma OneMoreRow(a: int, k: int)
    ensures a * (k + 1) == a * k + a
  {
  }

  lemma ClogUpTo(c: Config, s: State, r: nat, p: nat) returns (run: seq<nat>, t: State)
    requires Clogging(c, s, r, p) && r <= p && p >= 1
    ensures RunTo(c, s, run, t) && Clogging(c, t, p, p)
    decreases p - r
  {
    if r == p {
      run, t := [], s;
    } else if r == Last(c.text) {
      run, t := ClogUpTo(c, s, r + 1, p);
    } else {
      var head, u := ClogOne(c, s, r, p);
      var rest, w := ClogUpTo(c, u, r + 1, p);
      RunConcat(c, s, head, u, rest, w);
      run, t := head + rest, w;
    }
  }

  /** With the queue full, process r finishes its broadcast in vain and leaves. */
  lemma LeaveInVain(c: Config, s: State, r: nat, j: nat) returns (run: seq<nat>, t: State)
    requires r < |s.procs| && s.procs[r] == Broadcasting(j) && j <= c.n && |s.queue| >= c.cap
    ensures RunTo(c, s, run, t) && t == s.(procs := s.procs[r := Exited])
    decreases c.n - j
  {
    var u := Apply(c, s, r);
    OneStep(c, s, r);
    if j == c.n {
      run, t := [r], u;
    } else {
      var rest, w := LeaveInVain(c, u, r, j + 1);
      RunConcat(c, s, [r], u, rest, w);
      run, t := [r] + rest, w;
    }
  }

  predicate Deserted(c: Config, s: State, r: nat, p: nat) {
    && |s.procs| == c.n && p < c.n
    && Stale(c, s.procs[p], p) && NothingFor(s.queue, p) && |s.queue| >= c.cap
    && forall q :: 0 <= q < c.n && q != p ==>
         if q < r then s.procs[q].Exited? else s.procs[q].Broadcasting? && s.procs[q].next <= c.n
  }

  lemma DesertUpTo(c: Config, s: State, r: nat, p: nat) returns (run: seq<nat>, t: State)
    requires Deserted(c, s, r, p) && r <= c.n
    ensures RunTo(c, s, run, t) && Deserted(c, t, c.n, p)
    decreases c.n - r
  {
    if r == c.n {
      run, t := [], s;
    } else if r == p {
      run, t := DesertUpTo(c, s, r + 1, p);
    } else {
      var head, u := LeaveInVain(c, s, r, s.procs[r].next);
      var rest, w := DesertUpTo(c, u, r + 1, p);
      RunConcat(c, s, head, u, rest, w);
      run, t := head + rest, w;
    }
  }

  lemma LimitNeedsThree(n: int, p: int)
    requires n >= 2
    ensures n == 2 || p <= 1 ==> (n - 2) * (p - 1) <= 0
  {
    if n > 2 && p <= 1 {
      assert (n - 2) * (1 - p) >= 0;
    }
  }

  lemma DesertedIsStuck(c: Config, s: State, p: nat)
    requires Deserted(c, s, c.n, p)
    ensures Stuck(c, s) && !AllExited(c, s)
  {
    assert s.procs[p].Loop?;
  }

  lemma NobodyToldMeansClogging(c: Config, s: State, p: nat)
    requires TellingFrom(c, s, p) && p == LastTold(c.n, Last(c.text)) && p < c.n
    ensures Clogging(c, s, 0, p)
  {
    assert (p - 1) * Others(0, Last(c.text)) == 0;
  }

  lemma CloggedMeansDeserted(c: Config, s: State, p: nat)
    requires Clogging(c, s, p, p) && p == LastTold(c.n, Last(c.text))
    requires c.cap <= (c.n - 2) * (p - 1)
    ensures Deserted(c, s, 0, p)
  {
    assert Others(p, Last(c.text)) == c.n - 2;
    assert (p - 1) * (c.n - 2) == (c.n - 2) * (p - 1);
  }

  /** From the broadcast on: the last waiting process p is never told. */
  lemma StrandFromBroadcast(c: Config, s: State, p: nat) returns (run: seq<nat>, t: State)
    requires TellingFrom(c, s, 0) && p == LastTold(c.n, Last(c.text)) && 1 <= p < c.n
    requires c.cap <= (c.n - 2) * (p - 1)
    ensures RunTo(c, s, run, t) && Deserted(c, t, c.n, p)
  {
    var run1, s1 := TellUpTo(c, s, 0, p);
    NobodyToldMeansClogging(c, s1, p);
    var run2, s2 := ClogUpTo(c, s1, 0, p);
    RunConcat(c, s, run1, s1, run2, s2);
    CloggedMeansDeserted(c, s2, p);
    var run3, s3 := DesertUpTo(c, s2, 0, p);
    RunConcat(c, s, run1 + run2, s2, run3, s3);
    run, t := run1 + run2 + run3, s3;
  }

  /** A queue at or below the limit admits a run that leaves one process waiting for ever. */
  lemma SmallQueueCanStrand(c: Config) returns (run: seq<nat>, t: State)
    requires Printable(c) && c.cap <= Clog(c)
    ensures RunTo(c, Init(c), run, t) && Stuck(c, t) && !AllExited(c, t)
  {
    InitInv(c);
    var p := LastTold(c.n, Last(c.text));
    LimitNeedsThree(c.n, p);
    var run0, s0 := ReachBroadcast(c, Init(c));
    var run1, s1 := StrandFromBroadcast(c, s0, p);
    RunConcat(c, Init(c), run0, s0, run1, s1);
    DesertedIsStuck(c, s1, p);
    run, t := run0 + run1, s1;
  }

  ghost predicate EveryoneIsTold(c: Config) {
    forall run: seq<nat>, t: State :: RunTo(c, Init(c), run, t) && Stuck(c, t) ==> AllExited(c, t)
  }

  /**
   * The exact condition: every run that can go no further has told every process, if and
   * only if the queue can hold more than (n - 2) * (p - 1) messages.
   */
  lemma EveryoneIsToldExactlyAboveLimit(c: Config)
    requires Printable(c)
    ensures EveryoneIsTold(c) <==> c.cap > Clog(c)
  {
    if c.cap > Clog(c) {
      forall run: seq<nat>, t: State | RunTo(c, Init(c), run, t) && Stuck(c, t) ensures AllExited(c, t) {
        LargeQueueTellsAll(c, run, t);
      }
    } else {
      var run, t := SmallQueueCanStrand(c);
      assert !EveryoneIsTold(c);
    }
  }

  /**
   * The shipped program has 128 processes: no queue of up to 15750 messages will do. A default queue of
   * 16384 bytes holds 2048 messages of 8 bytes, or 4096 where long takes 4 bytes.
   */
  lemma DefaultQueueIsTooSmall(text: seq<nat>, cap: nat)
    requires Printable(Config(128, text, cap)) && cap <= 15750
    ensures !EveryoneIsTold(Config(128, text, cap))
  {
    EveryoneIsToldExactlyAboveLimit(Config(128, text, cap));
  }
}
