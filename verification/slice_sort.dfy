/**
 * The threads of sems/mergesort/mergesort.c: each sorts its own slice of the shared array with the
 * program's comparator, one comparison at a time, in any interleaving. The library's sort is
 * represented by an exchange sort. The array length m and the number of threads n are arbitrary;
 * n need not divide m, and in the shipped program it does not.
 */
module SliceSort {
  import opened ExchangeSort
  import opened Sums

  const INT_MAX := 0x7FFF_FFFF

  // ----- The comparator -----

  /** A difference of two ints, as a 32-bit int. */
  function Wrapped(d: int): int {
    (d + 0x8000_0000) % 0x1_0000_0000 - 0x8000_0000
  }

  predicate IsInt(x: int) { -0x8000_0000 <= x <= INT_MAX }

  /** comparator: the difference, which must not leave the range of int. */
  function Comparator(x: int, y: int): int { Wrapped(x - y) }

  /** The comparator orders two ints rightly exactly if their difference fits into an int. */
  lemma ComparatorOrdersExactlyInRange(x: int, y: int)
    requires IsInt(x) && IsInt(y)
    ensures ((Comparator(x, y) < 0 <==> x < y) && (Comparator(x, y) > 0 <==> x > y)) <==> IsInt(x - y)
    ensures IsInt(x - y) ==> Comparator(x, y) == x - y
  {
  }

  /** What the comparator can order: ints whose differences are ints. */
  ghost predicate Comparable(s: seq<int>) {
    forall x, y :: x in s && y in s ==> IsInt(x) && IsInt(x - y)
  }

  lemma SameValuesComparable(s: seq<int>, t: seq<int>)
    requires multiset(s) == multiset(t) && Comparable(s)
    ensures Comparable(t)
  {
    forall x ensures x in s <==> x in t {
      assert x in s <==> x in multiset(s) <==> x in multiset(t) <==> x in t;
    }
  }

  // ----- The slices -----

  function SliceSize(m: nat, n: nat): nat
    requires n > 0
  {
    m / n
  }

  function Start(m: nat, n: nat, j: nat): nat
    requires n > 0
  {
    j * SliceSize(m, n)
  }

  /** merge gives the last slice everything up to the end of the array. */
  function End(m: nat, n: nat, j: nat): nat
    requires j < n
  {
    if j == n - 1 then m else Start(m, n, j + 1)
  }

  /** sort_subarray sorts only a full slice size, also for the last thread. */
  function SortedEnd(m: nat, n: nat, j: nat): nat
    requires n > 0
  {
    Start(m, n, j + 1)
  }

  lemma SlicesFit(m: nat, n: nat, i: nat, j: nat)
    requires 0 < n && i <= j <= n
    ensures Start(m, n, i) <= Start(m, n, j) <= m
    ensures i < n ==> Start(m, n, i) + SliceSize(m, n) == SortedEnd(m, n, i) <= End(m, n, i) <= m
    ensures i < j ==> SortedEnd(m, n, i) <= Start(m, n, j)
    ensures i < j < n ==> End(m, n, i) <= Start(m, n, j)
  {
    var k := SliceSize(m, n);
    assert n * k <= m;
    MulLe(i, j, k);
    MulLe(j, n, k);
    if i < j {
      MulLe(i + 1, j, k);
    }
    if i < n {
      MulLe(i + 1, n, k);
    }
  }

  lemma MulLe(x: nat, y: nat, k: nat)
    requires x <= y
    ensures x * k <= y * k
  {
  }

  // ----- One thread, comparison by comparison -----

  /** The loop counters of a thread: it is about to compare cell i with cell j. */
  datatype Thread = Sorting(i: nat, j: nat) | Done

  predicate Exchanges(s: seq<int>, hi: nat, t: Thread) {
    t.Sorting? && t.i < t.j < hi <= |s| && Comparator(s[t.i], s[t.j]) > 0
  }

  function CellsAfter(s: seq<int>, hi: nat, t: Thread): (r: seq<int>)
    ensures |r| == |s|
  {
    if Exchanges(s, hi, t) then s[t.i := s[t.j]][t.j := s[t.i]] else s
  }

  function ThreadAfter(hi: nat, t: Thread): Thread {
    match t
    case Done => Done
    case Sorting(i, j) =>
      if i >= hi then Done else if j < hi then Sorting(i, j + 1) else Sorting(i + 1, i + 2)
  }

  /** Cells below i are in place, and cell i is the least of i..j; a finished segment is sorted. */
  ghost predicate SegmentOk(s: seq<int>, lo: nat, hi: nat, t: Thread) {
    && lo <= hi <= |s|
    && match t
       case Done => Sorted(s[lo..hi])
       case Sorting(i, j) =>
         && lo <= i <= hi && i < j && (i < hi ==> j <= hi)
         && (forall p, q :: lo <= p < i && p <= q < hi ==> s[p] <= s[q])
         && (forall q :: i <= q < j && q < hi ==> s[i] <= s[q])
  }

  predicate SameOutside(s: seq<int>, t: seq<int>, lo: nat, hi: nat) {
    |s| == |t| && forall p :: 0 <= p < |s| && !(lo <= p < hi) ==> s[p] == t[p]
  }

  lemma ExchangeIsRight(s: seq<int>, lo: nat, hi: nat, t: Thread)
    requires lo <= hi <= |s| && t.Sorting? && lo <= t.i < t.j < hi && Comparable(s[lo..hi])
    ensures Exchanges(s, hi, t) <==> s[t.i] > s[t.j]
  {
    var slice := s[lo..hi];
    assert slice[t.i - lo] in slice && slice[t.j - lo] in slice;
    ComparatorOrdersExactlyInRange(s[t.i], s[t.j]);
  }

  /** Each comparison keeps the values of the segment, what is outside it, and the order reached so far. */
  lemma SegmentStep(s: seq<int>, lo: nat, hi: nat, t: Thread)
    requires SegmentOk(s, lo, hi, t) && Comparable(s[lo..hi])
    ensures SegmentOk(CellsAfter(s, hi, t), lo, hi, ThreadAfter(hi, t))
    ensures SameOutside(s, CellsAfter(s, hi, t), lo, hi)
    ensures multiset(CellsAfter(s, hi, t)[lo..hi]) == multiset(s[lo..hi])
  {
    if t.Sorting? && t.j < hi {
      ExchangeIsRight(s, lo, hi, t);
      if Exchanges(s, hi, t) {
        SwapKeepsValues(s, lo, hi, t.i, t.j);
      }
    }
  }

  /** What a thread still has to do, in steps. */
  function Work(lo: nat, hi: nat, t: Thread): int {
    match t
    case Done => 0
    case Sorting(i, j) => 1 + (hi - i) * (hi - lo + 2) + (if i < hi then hi - j else 0)
  }

  lemma WorkShrinks(s: seq<int>, lo: nat, hi: nat, t: Thread)
    requires SegmentOk(s, lo, hi, t) && !t.Done?
    ensures 0 <= Work(lo, hi, ThreadAfter(hi, t)) < Work(lo, hi, t)
  {
    var k := hi - lo + 2;
    assert (hi - t.i) * k >= 0 by { NotNegative(hi - t.i, k); }
    if t.i < hi {
      assert (hi - t.i - 1) * k >= 0 by { NotNegative(hi - t.i - 1, k); }
      assert (hi - t.i) * k == (hi - t.i - 1) * k + k;
    }
  }

  lemma NotNegative(x: nat, y: nat)
    ensures x * y >= 0
  {
  }

  // ----- The threads, interleaved -----

  datatype State = State(cells: seq<int>, threads: seq<Thread>)

  function Init(n: nat, cells: seq<int>): State
    requires n > 0
  {
    State(cells, seq(n, (r: nat) => Sorting(Start(|cells|, n, r), Start(|cells|, n, r) + 1)))
  }

  predicate Enabled(n: nat, s: State, r: nat) {
    r < n == |s.threads| && !s.threads[r].Done?
  }

  /** Thread r moves on by one comparison. */
  function Apply(n: nat, s: State, r: nat): State
    requires Enabled(n, s, r)
  {
    var hi := SortedEnd(|s.cells|, n, r);
    State(CellsAfter(s.cells, hi, s.threads[r]), s.threads[r := ThreadAfter(hi, s.threads[r])])
  }

  ghost predicate RunTo(n: nat, s: State, run: seq<nat>, t: State)
    decreases |run|
  {
    if run == [] then s == t
    else Enabled(n, s, run[0]) && RunTo(n, Apply(n, s, run[0]), run[1..], t)
  }

  lemma {:induction false} RunThen(n: nat, s: State, run: seq<nat>, t: State, r: nat)
    requires RunTo(n, s, run, t) && Enabled(n, t, r)
    ensures RunTo(n, s, run + [r], Apply(n, t, r))
    decreases |run|
  {
    if run == [] {
      assert RunTo(n, Apply(n, t, r), [], Apply(n, t, r));
      assert [r][1..] == [] && [] + [r] == [r];
    } else {
      RunThen(n, Apply(n, s, run[0]), run[1..], t, r);
      assert (run + [r])[1..] == run[1..] + [r];
    }
  }

  /** The slice of every thread is one that the comparator can order. */
  ghost predicate SlicesComparable(n: nat, a: seq<int>)
    requires n > 0
  {
    forall j :: 0 <= j < n ==> SliceComparable(n, a, j)
  }

  ghost predicate SliceComparable(n: nat, a: seq<int>, j: nat)
    requires j < n
  {
    SlicesFit(|a|, n, j, n);
    Comparable(a[Start(|a|, n, j)..SortedEnd(|a|, n, j)])
  }

  /** Slice j holds the values it had before, in the order its thread has reached. */
  ghost predicate SliceOk(n: nat, before: seq<int>, s: State, j: nat)
    requires j < n == |s.threads| && |before| == |s.cells|
  {
    SlicesFit(|s.cells|, n, j, n);
    var lo, hi := Start(|s.cells|, n, j), SortedEnd(|s.cells|, n, j);
    multiset(s.cells[lo..hi]) == multiset(before[lo..hi]) && SegmentOk(s.cells, lo, hi, s.threads[j])
  }

  ghost predicate Inv(n: nat, before: seq<int>, s: State) {
    && n > 0 && |s.threads| == n && |s.cells| == |before|
    && (forall j :: 0 <= j < n ==> SliceOk(n, before, s, j))
    && forall p :: Start(|before|, n, n) <= p < |before| ==> s.cells[p] == before[p]
  }

  lemma InitInv(n: nat, before: seq<int>)
    requires n > 0
    ensures Inv(n, before, Init(n, before))
  {
    forall j | 0 <= j < n ensures SliceOk(n, before, Init(n, before), j) {
      SlicesFit(|before|, n, j, n);
    }
  }

  /** The slices of two threads are apart. */
  lemma SlicesApart(m: nat, n: nat, i: nat, j: nat)
    requires i < n && j < n && i != j
    ensures SortedEnd(m, n, i) <= Start(m, n, j) || SortedEnd(m, n, j) <= Start(m, n, i)
  {
    if i < j {
      SlicesFit(m, n, i, j);
    } else {
      SlicesFit(m, n, j, i);
    }
  }

  lemma OtherSegmentStays(s: seq<int>, t: seq<int>, lo: nat, hi: nat, lo': nat, hi': nat, thread: Thread)
    requires SameOutside(s, t, lo, hi) && (hi <= lo' || hi' <= lo)
    requires SegmentOk(s, lo', hi', thread)
    ensures SegmentOk(t, lo', hi', thread) && t[lo'..hi'] == s[lo'..hi']
  {
    assert t[lo'..hi'] == s[lo'..hi'];
  }

  lemma OwnSliceStep(n: nat, before: seq<int>, s: State, r: nat)
    requires Inv(n, before, s) && SlicesComparable(n, before) && Enabled(n, s, r)
    ensures SliceOk(n, before, Apply(n, s, r), r)
    ensures SortedEnd(|s.cells|, n, r) <= |s.cells|
    ensures SameOutside(s.cells, Apply(n, s, r).cells, Start(|s.cells|, n, r), SortedEnd(|s.cells|, n, r))
    ensures 0 <= Work(Start(|s.cells|, n, r), SortedEnd(|s.cells|, n, r), Apply(n, s, r).threads[r])
              < Work(Start(|s.cells|, n, r), SortedEnd(|s.cells|, n, r), s.threads[r])
  {
    SlicesFit(|s.cells|, n, r, n);
    var lo, hi := Start(|s.cells|, n, r), SortedEnd(|s.cells|, n, r);
    assert SliceOk(n, before, s, r) && SliceComparable(n, before, r);
    SameValuesComparable(before[lo..hi], s.cells[lo..hi]);
    SegmentStep(s.cells, lo, hi, s.threads[r]);
    WorkShrinks(s.cells, lo, hi, s.threads[r]);
  }

  lemma StepKeepsInv(n: nat, before: seq<int>, s: State, r: nat)
    requires Inv(n, before, s) && SlicesComparable(n, before) && Enabled(n, s, r)
    ensures Inv(n, before, Apply(n, s, r))
  {
    var t := Apply(n, s, r);
    var m := |s.cells|;
    OwnSliceStep(n, before, s, r);
    forall j | 0 <= j < n ensures SliceOk(n, before, t, j) {
      if j != r {
        assert SliceOk(n, before, s, j);
        SlicesApart(m, n, j, r);
        OtherSegmentStays(s.cells, t.cells, Start(m, n, r), SortedEnd(m, n, r),
                          Start(m, n, j), SortedEnd(m, n, j), s.threads[j]);
      }
    }
    SlicesFit(m, n, r, n);
  }

  function Works(m: nat, n: nat, threads: seq<Thread>): seq<int>
    requires n > 0
  {
    seq(|threads|, r requires 0 <= r < |threads| => Work(Start(m, n, r), SortedEnd(m, n, r), threads[r]))
  }

  function Measure(n: nat, s: State): int
    requires n > 0
  {
    Sum(Works(|s.cells|, n, s.threads))
  }

  lemma StepLowersMeasure(n: nat, before: seq<int>, s: State, r: nat)
    requires Inv(n, before, s) && SlicesComparable(n, before) && Enabled(n, s, r)
    ensures Measure(n, Apply(n, s, r)) < Measure(n, s)
  {
    var t, m := Apply(n, s, r), |s.cells|;
    OwnSliceStep(n, before, s, r);
    var w := Work(Start(m, n, r), SortedEnd(m, n, r), t.threads[r]);
    assert Works(m, n, t.threads) == Works(m, n, s.threads)[r := w];
    SumUpdate(Works(m, n, s.threads), r, w);
  }

  lemma MeasureNonNegative(n: nat, before: seq<int>, s: State)
    requires Inv(n, before, s)
    ensures 0 <= Measure(n, s)
  {
    var m := |s.cells|;
    forall r | 0 <= r < n ensures 0 <= Works(m, n, s.threads)[r] {
      assert SliceOk(n, before, s, r);
      if !s.threads[r].Done? {
        WorkShrinks(s.cells, Start(m, n, r), SortedEnd(m, n, r), s.threads[r]);
      }
    }
    SumNonNegative(Works(m, n, s.threads));
  }

  lemma {:induction false} RunKeepsInv(n: nat, before: seq<int>, s: State, run: seq<nat>, t: State)
    requires Inv(n, before, s) && SlicesComparable(n, before) && RunTo(n, s, run, t)
    ensures Inv(n, before, t) && |run| + Measure(n, t) <= Measure(n, s)
    decreases |run|
  {
    if run != [] {
      StepKeepsInv(n, before, s, run[0]);
      StepLowersMeasure(n, before, s, run[0]);
      RunKeepsInv(n, before, Apply(n, s, run[0]), run[1..], t);
    }
  }

  predicate AllDone(s: State) {
    forall j :: 0 <= j < |s.threads| ==> s.threads[j].Done?
  }

  /** Slice j of a holds the values it had before, sorted. */
  ghost predicate SliceSettled(n: nat, before: seq<int>, a: seq<int>, j: nat)
    requires j < n && |a| == |before|
  {
    SlicesFit(|a|, n, j, n);
    var lo, hi := Start(|a|, n, j), SortedEnd(|a|, n, j);
    Sorted(a[lo..hi]) && multiset(a[lo..hi]) == multiset(before[lo..hi])
  }

  /** What the threads leave behind: sorted slices, and an untouched tail. */
  ghost predicate Sliced(n: nat, before: seq<int>, a: seq<int>) {
    && n > 0 && |a| == |before|
    && (forall j :: 0 <= j < n ==> SliceSettled(n, before, a, j))
    && forall p :: Start(|before|, n, n) <= p < |before| ==> a[p] == before[p]
  }

  /** However the comparisons of the threads interleave: when all are done, the slices are sorted. */
  lemma ThreadsSortTheirSlices(n: nat, before: seq<int>, run: seq<nat>, t: State)
    requires n > 0 && SlicesComparable(n, before) && RunTo(n, Init(n, before), run, t) && AllDone(t)
    ensures Sliced(n, before, t.cells)
  {
    InitInv(n, before);
    RunKeepsInv(n, before, Init(n, before), run, t);
    forall j | 0 <= j < n ensures SliceSettled(n, before, t.cells, j) {
      assert SliceOk(n, before, t, j);
      SlicesFit(|t.cells|, n, j, n);
    }
  }

  lemma InitialMeasure(n: nat, before: seq<int>)
    requires n > 0
    ensures var k := SliceSize(|before|, n);
            Measure(n, Init(n, before)) <= n * (k * (k + 3) + 1)
  {
    var m, k := |before|, SliceSize(|before|, n);
    var bound := k * (k + 3) + 1;
    var works := Works(m, n, Init(n, before).threads);
    forall r | 0 <= r < n ensures works[r] <= bound {
      SlicesFit(m, n, r, n);
      assert k * (k + 3) == k * (k + 2) + k;
    }
    var bounds := seq(n, _ => bound);
    SumLe(works, bounds);
    SumConstant(bounds, bound);
  }

  /** Every run is finite: no more than n * (k * (k + 3) + 1) comparisons and ends of loops for slices of size k. */
  lemma EveryRunIsBounded(n: nat, before: seq<int>, run: seq<nat>, t: State)
    requires n > 0 && SlicesComparable(n, before) && RunTo(n, Init(n, before), run, t)
    ensures var k := SliceSize(|before|, n);
            |run| <= n * (k * (k + 3) + 1)
  {
    InitInv(n, before);
    RunKeepsInv(n, before, Init(n, before), run, t);
    MeasureNonNegative(n, before, t);
    InitialMeasure(n, before);
  }

  // ----- On the array -----

  /** One comparison, and the exchange if there is one, in place. */
  method Compare(a: array<int>, hi: nat, t: Thread) returns (next: Thread)
    requires hi <= a.Length && (t.Sorting? ==> t.i < t.j)
    modifies a
    ensures a[..] == CellsAfter(old(a[..]), hi, t) && next == ThreadAfter(hi, t)
  {
    next := ThreadAfter(hi, t);
    if t.Sorting? && t.j < hi && Comparator(a[t.i], a[t.j]) > 0 {
      a[t.i], a[t.j] := a[t.j], a[t.i];
    }
  }

  /** The library's sort with the program's comparator, by one thread alone. */
  method SortRange(a: array<int>, lo: nat, hi: nat)
    requires lo <= hi <= a.Length && Comparable(a[lo..hi])
    modifies a
    ensures Sorted(a[lo..hi]) && Rearranged(a, lo, hi)
  {
    ghost var before := a[..];
    assert before[lo..hi] == a[lo..hi];
    var t := Sorting(lo, lo + 1);
    while !t.Done?
      invariant SegmentOk(a[..], lo, hi, t) && SameOutside(before, a[..], lo, hi)
      invariant multiset(a[..][lo..hi]) == multiset(before[lo..hi])
      decreases if t.Done? then 0 else 1, Work(lo, hi, t)
    {
      SameValuesComparable(before[lo..hi], a[..][lo..hi]);
      SegmentStep(a[..], lo, hi, t);
      WorkShrinks(a[..], lo, hi, t);
      t := Compare(a, hi, t);
    }
    assert a[..][lo..hi] == a[lo..hi];
    forall k | 0 <= k < lo || hi <= k < a.Length ensures a[k] == before[k] {
      assert a[..][k] == before[k];
    }
  }

  /** sort_subarray for thread i */
  method SortSubarray(a: array<int>, n: nat, i: nat)
    requires i < n && SliceComparable(n, a[..], i)
    modifies a
    ensures SortedEnd(a.Length, n, i) <= a.Length && Start(a.Length, n, i) <= SortedEnd(a.Length, n, i)
    ensures Sorted(a[Start(a.Length, n, i)..SortedEnd(a.Length, n, i)])
    ensures Rearranged(a, Start(a.Length, n, i), SortedEnd(a.Length, n, i))
  {
    SlicesFit(a.Length, n, i, n);
    var size := a.Length / n;
    var start := i * (a.Length / n);
    var end := if start + size < a.Length then start + size else a.Length;
    assert a[start..end] == a[..][start..end];
    SortRange(a, start, end);
  }

  lemma ReadyToCompare(n: nat, before: seq<int>, s: State, r: nat)
    requires Inv(n, before, s) && Enabled(n, s, r)
    ensures SortedEnd(|s.cells|, n, r) <= |s.cells| && s.threads[r].i < s.threads[r].j
  {
    assert SliceOk(n, before, s, r);
    SlicesFit(|s.cells|, n, r, n);
  }

  /** All threads from start to join: at any time any thread that is not done may be the next to move. */
  method RunThreads(a: array<int>, n: nat) returns (ghost run: seq<nat>, ghost last: State)
    requires n > 0 && SlicesComparable(n, a[..])
    modifies a
    ensures RunTo(n, Init(n, old(a[..])), run, last) && AllDone(last) && last.cells == a[..]
    ensures Sliced(n, old(a[..]), a[..])
  {
    ghost var before := a[..];
    var threads := seq(n, (r: nat) => Sorting(Start(a.Length, n, r), Start(a.Length, n, r) + 1));
    run, last := [], State(before, threads);
    assert last == Init(n, before);
    InitInv(n, before);
    while exists r :: 0 <= r < |threads| && !threads[r].Done?
      invariant last == State(a[..], threads) && RunTo(n, Init(n, before), run, last) && Inv(n, before, last)
      decreases Measure(n, last)
    {
      var r :| 0 <= r < |threads| && !threads[r].Done?;
      MeasureNonNegative(n, before, last);
      StepKeepsInv(n, before, last, r);
      StepLowersMeasure(n, before, last, r);
      RunThen(n, Init(n, before), run, last, r);
      ReadyToCompare(n, before, last, r);
      run, last := run + [r], Apply(n, last, r);
      var next := Compare(a, SortedEnd(a.Length, n, r), threads[r]);
      threads := threads[r := next];
    }
    ThreadsSortTheirSlices(n, before, run, last);
  }
}
