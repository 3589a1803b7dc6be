/**
 * The conditions on the file sizes are exact: if one of them fails, some interleaving of
 * writer and reader (sems/pcat/on_semaphors/pcat.c, sems/pcat/on_monitors/pcat.c) leaves the
 * storage or waits for ever.
 */
module PcatConditions {
  import opened RingArithmetic
  import opened Pcat

  /** A party is about to move a byte to or from a place behind the storage. */
  predicate Overruns(c: Config, p: Party) {
    p.Moving? && p.i < |c.files| && p.moved < Length(c, p.i) && p.at + p.moved >= c.cap
  }

  /** What can be seen: no access leaves the storage, the output is right, and whoever stops is done. */
  predicate Good(c: Config, s: State) {
    && !Overruns(c, s.writer) && !Overruns(c, s.reader)
    && s.out <= Stream(c)
    && (Stuck(c, s) ==> Complete(c, s))
  }

  ghost predicate AlwaysGood(c: Config)
    requires c.cap > 0
  {
    forall run: seq<Event>, t: State :: RunTo(c, Init(c), run, t) ==> Good(c, t)
  }

  lemma {:induction false} RunConcat(c: Config, s: State, a: seq<Event>, t: State, b: seq<Event>, u: State)
    requires c.cap > 0 && RunTo(c, s, a, t) && RunTo(c, t, b, u)
    ensures RunTo(c, s, a + b, u)
    decreases |a|
  {
    if a == [] {
      assert a + b == b;
    } else {
      assert (a + b)[1..] == a[1..] + b;
      RunConcat(c, Apply(c, s, a[0]), a[1..], t, b, u);
    }
  }

  /** One step followed by a run is a run. */
  lemma StepThen(c: Config, s: State, e: Event, run: seq<Event>, t: State)
    requires c.cap > 0 && Enabled(c, s, e) && RunTo(c, Apply(c, s, e), run, t)
    ensures RunTo(c, s, [e] + run, t)
  {
    assert ([e] + run)[1..] == run;
  }

  /** The writer moves bytes up to the k-th of its file. */
  lemma WriterMovesUpTo(c: Config, s: State, k: nat) returns (run: seq<Event>, t: State)
    requires c.cap > 0 && |s.storage| == c.cap && s.writer.Moving? && s.writer.i < |c.files|
    requires s.writer.moved <= k <= Length(c, s.writer.i) && s.writer.at + k <= c.cap
    ensures RunTo(c, s, run, t)
    ensures |t.storage| == c.cap && t == s.(storage := t.storage, writer := s.writer.(moved := k))
    decreases k - s.writer.moved
  {
    if s.writer.moved == k {
      run, t := [], s;
    } else {
      var rest, u := WriterMovesUpTo(c, ApplyWriter(c, s), k);
      StepThen(c, s, WriterStep, rest, u);
      run, t := [WriterStep] + rest, u;
    }
  }

  lemma ReaderMovesUpTo(c: Config, s: State, k: nat) returns (run: seq<Event>, t: State)
    requires c.cap > 0 && |s.storage| == c.cap && s.reader.Moving? && s.reader.i < |c.files|
    requires s.reader.moved <= k <= Length(c, s.reader.i) && s.reader.at + k <= c.cap
    ensures RunTo(c, s, run, t)
    ensures t == s.(out := t.out, reader := s.reader.(moved := k))
    decreases k - s.reader.moved
  {
    if s.reader.moved == k {
      run, t := [], s;
    } else {
      var rest, u := ReaderMovesUpTo(c, ApplyReader(c, s), k);
      StepThen(c, s, ReaderStep, rest, u);
      run, t := [ReaderStep] + rest, u;
    }
  }

  /** From the test to the first byte, when there is room. */
  lemma WriterEnters(c: Config, s: State) returns (run: seq<Event>, t: State)
    requires c.cap > 0 && s.writer.Check? && s.writer.i < |c.files|
    requires c.cap - s.size >= Length(c, s.writer.i)
    ensures RunTo(c, s, run, t) && t == s.(writer := Moving(s.writer.i, s.end, 0))
  {
    var u := ApplyWriter(c, s);
    if c.sync.Monitor? {
      StepThen(c, u, WriterStep, [], ApplyWriter(c, u));
      run, t := [WriterStep] + [], ApplyWriter(c, u);
    } else {
      run, t := [], u;
    }
    StepThen(c, s, WriterStep, run, t);
    run := [WriterStep] + run;
  }

  lemma ReaderEnters(c: Config, s: State) returns (run: seq<Event>, t: State)
    requires c.cap > 0 && s.reader.Check? && s.reader.i < |c.files|
    requires s.size >= Length(c, s.reader.i)
    ensures RunTo(c, s, run, t) && t == s.(reader := Moving(s.reader.i, s.start, 0))
  {
    var u := ApplyReader(c, s);
    if c.sync.Monitor? {
      StepThen(c, u, ReaderStep, [], ApplyReader(c, u));
      run, t := [ReaderStep] + [], ApplyReader(c, u);
    } else {
      run, t := [], u;
    }
    StepThen(c, s, ReaderStep, run, t);
    run := [ReaderStep] + run;
  }

  // ----- A ring once filled to the last byte -----

  /** What the reader has claimed and not committed yet. */
  function Claim(c: Config, s: State): nat {
    if (s.reader.Claimed? || s.reader.Moving?) && s.reader.i < |c.files| then Length(c, s.reader.i) else 0
  }

  /** The positions are right, but a whole round of the ring is missing from the size. */
  predicate Lost(c: Config, s: State) {
    && c.cap > 0 && |s.storage| == c.cap && InPlace(c, s.writer) && InPlace(c, s.reader)
    && Read(c, s) + Claim(c, s) + c.cap <= Written(c, s)
    && s.start == Cell(Read(c, s), c.cap) && s.end == Cell(Written(c, s), c.cap)
    && s.size == Cell(Written(c, s) - Read(c, s), c.cap)
  }

  lemma WriterCommitLosesOn(c: Config, s: State)
    requires Lost(c, s) && Enabled(c, s, WriterStep)
    requires s.writer.Moving? && s.writer.moved == Length(c, s.writer.i)
    ensures Lost(c, ApplyWriter(c, s))
  {
    var r, w, n := Read(c, s), Written(c, s), s.writer.moved;
    CellShift(w, n, c.cap);
    RecomputedForgetsRounds(r, w + n, c.cap);
    assert Written(c, ApplyWriter(c, s)) == w + n;
  }

  lemma WriterLosesOn(c: Config, s: State)
    requires Lost(c, s) && Enabled(c, s, WriterStep)
    ensures Lost(c, ApplyWriter(c, s))
  {
    if s.writer.Moving? && s.writer.moved == Length(c, s.writer.i) {
      WriterCommitLosesOn(c, s);
    }
  }

  lemma ReaderCommitLosesOn(c: Config, s: State)
    requires Lost(c, s) && Enabled(c, s, ReaderStep)
    requires s.reader.Moving? && s.reader.moved == Length(c, s.reader.i)
    ensures Lost(c, ApplyReader(c, s))
  {
    var r, w, n := Read(c, s), Written(c, s), s.reader.moved;
    CellShift(r, n, c.cap);
    RecomputedForgetsRounds(r + n, w, c.cap);
    assert Read(c, ApplyReader(c, s)) == r + n;
  }

  lemma ReaderLosesOn(c: Config, s: State)
    requires Lost(c, s) && Enabled(c, s, ReaderStep)
    ensures Lost(c, ApplyReader(c, s))
  {
    if s.reader.Moving? && s.reader.moved == Length(c, s.reader.i) {
      ReaderCommitLosesOn(c, s);
    } else {
      CellBelow(Written(c, s) - Read(c, s), c.cap);
    }
  }

  /** What is lost never comes back, so whoever goes on from there stops with files missing. */
  lemma LostMeansIncomplete(c: Config, s: State) returns (run: seq<Event>, t: State)
    requires Lost(c, s)
    ensures RunTo(c, s, run, t) && Stuck(c, t) && !Complete(c, t)
    decreases Measure(c, s)
  {
    MeasureNonNegative(c, s);
    if Enabled(c, s, WriterStep) {
      StepLowersMeasure(c, s, WriterStep);
      WriterLosesOn(c, s);
      run, t := LostMeansIncomplete(c, ApplyWriter(c, s));
      StepThen(c, s, WriterStep, run, t);
      run := [WriterStep] + run;
    } else if Enabled(c, s, ReaderStep) {
      StepLowersMeasure(c, s, ReaderStep);
      ReaderLosesOn(c, s);
      run, t := LostMeansIncomplete(c, ApplyReader(c, s));
      StepThen(c, s, ReaderStep, run, t);
      run := [ReaderStep] + run;
    } else {
      run, t := [], s;
    }
  }

  lemma MeasureNonNegative(c: Config, s: State)
    requires InPlace(c, s.writer) && InPlace(c, s.reader)
    ensures 0 <= Measure(c, s)
  {
  }

  // ----- Running into a violation -----

  /** The writer copies file i while the reader pauses before file r, having read up to there. */
  predicate Paused(c: Config, s: State, i: nat, r: nat)
    requires c.cap > 0 && r <= i <= |c.files|
  {
    && s.writer == Check(i) && s.reader == Check(r) && |s.storage| == c.cap
    && s.start == Cell(Total(c.files, r), c.cap) && s.end == Cell(Total(c.files, i), c.cap)
    && s.size == Total(c.files, i) - Total(c.files, r)
  }

  /** The writer copies file i; afterwards only the recomputed size can be wrong. */
  lemma WriterAlone(c: Config, s: State, i: nat, r: nat) returns (run: seq<Event>, t: State)
    requires c.cap > 0 && r <= i < |c.files| && Paused(c, s, i, r) && Fits(c, i)
    requires Total(c.files, r) <= Total(c.files, i) && Total(c.files, i + 1) <= Total(c.files, r) + c.cap
    ensures RunTo(c, s, run, t)
    ensures t.writer == Check(i + 1)
    ensures Total(c.files, i + 1) < Total(c.files, r) + c.cap ==> Paused(c, t, i + 1, r)
    ensures Total(c.files, i + 1) == Total(c.files, r) + c.cap ==> Lost(c, t)
  {
    var n := Length(c, i);
    var run1, s1 := WriterEnters(c, s);
    var run2, s2 := WriterMovesUpTo(c, s1, n);
    RunConcat(c, s, run1, s1, run2, s2);
    t := ApplyWriter(c, s2);
    StepThen(c, s2, WriterStep, [], t);
    RunConcat(c, s, run1 + run2, s2, [WriterStep] + [], t);
    run := run1 + run2 + ([WriterStep] + []);
    CommitWrite(Total(c.files, r), Total(c.files, i), n, c.cap);
  }

  lemma ReaderAlone(c: Config, s: State, i: nat) returns (run: seq<Event>, t: State)
    requires c.cap > 0 && i < |c.files| && Paused(c, s, i + 1, i) && Fits(c, i) && Length(c, i) < c.cap
    ensures RunTo(c, s, run, t) && Paused(c, t, i + 1, i + 1)
  {
    var n := Length(c, i);
    var run1, s1 := ReaderEnters(c, s);
    var run2, s2 := ReaderMovesUpTo(c, s1, n);
    RunConcat(c, s, run1, s1, run2, s2);
    t := ApplyReader(c, s2);
    StepThen(c, s2, ReaderStep, [], t);
    RunConcat(c, s, run1 + run2, s2, [ReaderStep] + [], t);
    run := run1 + run2 + ([ReaderStep] + []);
    CommitRead(Total(c.files, i), Total(c.files, i + 1), n, c.cap);
  }

  /** File i can be copied by taking turns. */
  predicate Easy(c: Config, i: nat)
    requires c.cap > 0 && i < |c.files|
  {
    Fits(c, i) && Length(c, i) < c.cap
  }

  lemma {:induction false} TakingTurns(c: Config, i: nat) returns (run: seq<Event>, t: State)
    requires c.cap > 0 && i <= |c.files| && forall j :: 0 <= j < i ==> Easy(c, j)
    ensures RunTo(c, Init(c), run, t) && Paused(c, t, i, i)
  {
    if i == 0 {
      run, t := [], Init(c);
    } else {
      var run1, s1 := TakingTurns(c, i - 1);
      assert Easy(c, i - 1);
      var run2, s2 := WriterAlone(c, s1, i - 1, i - 1);
      RunConcat(c, Init(c), run1, s1, run2, s2);
      var run3, s3 := ReaderAlone(c, s2, i - 1);
      RunConcat(c, Init(c), run1 + run2, s2, run3, s3);
      run, t := run1 + run2 + run3, s3;
    }
  }

  /** Both parties wait for file i, which is larger than the ring, until their tokens are used up. */
  lemma BothWaitForEver(c: Config, s: State, i: nat) returns (run: seq<Event>, t: State)
    requires c.cap > 0 && i < |c.files| && Length(c, i) > c.cap && s.size == 0
    requires s.writer == Check(i) || s.writer == Asleep(i)
    requires s.reader == Check(i) || s.reader == Asleep(i)
    ensures RunTo(c, s, run, t) && Stuck(c, t) && !Complete(c, t)
    decreases s.full + s.empty, (if s.writer.Check? then 1 else 0) + (if s.reader.Check? then 1 else 0)
  {
    if s.writer.Check? || s.full > 0 {
      run, t := BothWaitForEver(c, ApplyWriter(c, s), i);
      StepThen(c, s, WriterStep, run, t);
      run := [WriterStep] + run;
    } else if s.reader.Check? || s.empty > 0 {
      run, t := BothWaitForEver(c, ApplyReader(c, s), i);
      StepThen(c, s, ReaderStep, run, t);
      run := [ReaderStep] + run;
    } else {
      run, t := [], s;
    }
  }

  /** The first file that is too long, as long as the ring, or wraps, goes wrong. */
  lemma HardFileGoesWrong(c: Config, i: nat) returns (run: seq<Event>, t: State)
    requires c.cap > 0 && i < |c.files| && !Easy(c, i) && forall j :: 0 <= j < i ==> Easy(c, j)
    ensures RunTo(c, Init(c), run, t) && !Good(c, t)
  {
    var n := Length(c, i);
    var run1, s1 := TakingTurns(c, i);
    var run2, s2;
    if n > c.cap {
      run2, s2 := BothWaitForEver(c, s1, i);
    } else if !Fits(c, i) {
      var run3, s3 := WriterEnters(c, s1);
      var run4, s4 := WriterMovesUpTo(c, s3, c.cap - s1.end);
      RunConcat(c, s1, run3, s3, run4, s4);
      run2, s2 := run3 + run4, s4;
      assert Overruns(c, s2.writer);
    } else {
      var run3, s3 := WriterAlone(c, s1, i, i);
      var run4, s4 := LostMeansIncomplete(c, s3);
      RunConcat(c, s1, run3, s3, run4, s4);
      run2, s2 := run3 + run4, s4;
    }
    RunConcat(c, Init(c), run1, s1, run2, s2);
    run, t := run1 + run2, s2;
  }

  /** The reader pauses at file r while the writer fills the ring to the last byte. */
  lemma FillUp(c: Config, s: State, i: nat, r: nat, j: nat) returns (run: seq<Event>, t: State)
    requires c.cap > 0 && r <= i < j <= |c.files| && Paused(c, s, i, r) && ExactBlock(c, r, j)
    requires Total(c.files, i) < Total(c.files, r) + c.cap
    requires forall k :: 0 <= k < |c.files| ==> Easy(c, k)
    ensures RunTo(c, s, run, t) && !Good(c, t)
    decreases j - i
  {
    assert Easy(c, i);
    TotalMonotone(c.files, r, i);
    TotalMonotone(c.files, i + 1, j);
    var run1, s1 := WriterAlone(c, s, i, r);
    if Total(c.files, i + 1) == Total(c.files, r) + c.cap {
      var run2, s2 := LostMeansIncomplete(c, s1);
      RunConcat(c, s, run1, s1, run2, s2);
      run, t := run1 + run2, s2;
    } else {
      var run2, s2 := FillUp(c, s1, i + 1, r, j);
      RunConcat(c, s, run1, s1, run2, s2);
      run, t := run1 + run2, s2;
    }
  }

  lemma {:induction false} FirstHardFile(c: Config, i: nat) returns (k: nat)
    requires c.cap > 0 && i < |c.files| && !Easy(c, i)
    ensures k <= i && !Easy(c, k) && forall j :: 0 <= j < k ==> Easy(c, j)
  {
    if j :| 0 <= j < i && !Easy(c, j) {
      k := FirstHardFile(c, j);
    } else {
      k := i;
    }
  }

  lemma ViolationGoesWrong(c: Config) returns (run: seq<Event>, t: State)
    requires c.cap > 0 && !SizeConditions(c)
    ensures RunTo(c, Init(c), run, t) && !Good(c, t)
  {
    if i :| 0 <= i < |c.files| && !Easy(c, i) {
      var k := FirstHardFile(c, i);
      run, t := HardFileGoesWrong(c, k);
    } else {
      assert NoWrap(c) by {
        forall i | 0 <= i < |c.files| ensures Fits(c, i) {
          assert Easy(c, i);
        }
      }
      var r: nat, j: nat :| r <= j <= |c.files| && ExactBlock(c, r, j);
      var run1, s1 := TakingTurns(c, r);
      var run2, s2 := FillUp(c, s1, r, r, j);
      RunConcat(c, Init(c), run1, s1, run2, s2);
      run, t := run1 + run2, s2;
    }
  }

  lemma ConditionsSuffice(c: Config, run: seq<Event>, t: State)
    requires SizeConditions(c) && RunTo(c, Init(c), run, t)
    ensures Good(c, t)
  {
    InitInv(c);
    RunKeepsInv(c, Init(c), run, t);
    assert t.writer.i < |c.files| ==> Fits(c, t.writer.i);
    assert t.reader.i < |c.files| ==> Fits(c, t.reader.i);
    if Stuck(c, t) {
      StuckMeansComplete(c, run, t);
    }
  }

  /**
   * For both programs, every ring size and every initial value of `full`: all interleavings stay
   * inside the storage, write nothing wrong and end with everything copied, if and only if no block of
   * consecutive files is as long as the ring, no file wraps, and none is larger than the ring.
   */
  lemma CorrectExactlyUnderConditions(c: Config)
    requires c.cap > 0
    ensures AlwaysGood(c) <==> SizeConditions(c)
  {
    if SizeConditions(c) {
      forall run: seq<Event>, t: State | RunTo(c, Init(c), run, t) ensures Good(c, t) {
        ConditionsSuffice(c, run, t);
      }
    } else {
      var run, t := ViolationGoesWrong(c);
      assert !AlwaysGood(c);
    }
  }
}
