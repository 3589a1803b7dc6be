/** Positions in a ring of `cap` cells. */
module RingArithmetic {

  lemma ModUnique(a: int, b: int, cap: nat, q: int)
    requires cap > 0 && 0 <= b < cap && a == q * cap + b
    ensures a % cap == b
  {
    var d := a / cap - q;
    assert d * cap == b - a % cap;
    assert d >= 1 ==> d * cap >= cap;
    assert d <= -1 ==> d * cap + cap <= 0;
  }

  lemma ModShift(x: nat, k: nat, cap: nat)
    requires cap > 0
    ensures (x % cap + k) % cap == (x + k) % cap
    ensures x % cap + k < cap ==> (x + k) % cap == x % cap + k
  {
    var y := x % cap + k;
    assert x + k == (x / cap) * cap + y;
    assert x + k == (x / cap + y / cap) * cap + y % cap;
    ModUnique(x + k, y % cap, cap, x / cap + y / cap);
    if y < cap {
      ModUnique(x + k, y, cap, x / cap);
    }
  }

  lemma ModApart(x: nat, y: nat, cap: nat)
    requires cap > 0 && x < y < x + cap
    ensures x % cap != y % cap
  {
    var d := y / cap - x / cap;
    assert y - x == d * cap + (y % cap - x % cap);
    assert d >= 1 ==> d * cap >= cap;
    assert d <= 0 ==> d * cap <= 0;
  }

  /** The cell of stream position x: x modulo the size of the ring. */
  function Cell(x: nat, cap: nat): (m: nat)
    requires cap > 0
    ensures m < cap
  {
    if x < cap then x else Cell(x - cap, cap)
  }

  lemma {:induction false} CellIsMod(x: nat, cap: nat)
    requires cap > 0
    ensures Cell(x, cap) == x % cap
  {
    if x >= cap {
      CellIsMod(x - cap, cap);
      ModUnique(x, (x - cap) % cap, cap, (x - cap) / cap + 1);
    } else {
      ModUnique(x, x, cap, 0);
    }
  }

  lemma CellShift(x: nat, k: nat, cap: nat)
    requires cap > 0
    ensures (Cell(x, cap) + k) % cap == Cell(x + k, cap)
    ensures Cell(x, cap) + k < cap ==> Cell(x + k, cap) == Cell(x, cap) + k
  {
    CellIsMod(x, cap);
    CellIsMod(x + k, cap);
    ModShift(x, k, cap);
  }

  lemma CellApart(x: nat, y: nat, cap: nat)
    requires cap > 0 && x < y < x + cap
    ensures Cell(x, cap) != Cell(y, cap)
  {
    CellIsMod(x, cap);
    CellIsMod(y, cap);
    ModApart(x, y, cap);
  }

  /** upd_buffer_size: the number of bytes between the two positions; full and empty look alike. */
  function Recomputed(start: nat, end: nat, cap: nat): int {
    if end >= start then end - start else cap - start + end
  }

  /** The recomputed size is right as long as the ring is not completely full. */
  lemma RecomputedIsExact(read: nat, written: nat, cap: nat)
    requires cap > 0 && read <= written <= read + cap
    ensures Recomputed(Cell(read, cap), Cell(written, cap), cap)
         == if written == read + cap then 0 else written - read
  {
    var d := written - read;
    CellShift(read, d, cap);
    var m := Cell(read, cap) + d;
    if m >= cap {
      ModUnique(m, m - cap, cap, 1);
    }
  }

  lemma {:induction false} CellBelow(x: nat, cap: nat)
    requires cap > 0
    ensures Cell(x, cap) <= x
    ensures x >= cap ==> Cell(x, cap) <= x - cap
  {
    if x >= cap {
      CellBelow(x - cap, cap);
    }
  }

  /** However far the positions are apart, whole rounds of the ring are not counted. */
  lemma {:induction false} RecomputedForgetsRounds(read: nat, written: nat, cap: nat)
    requires cap > 0 && read <= written
    ensures Recomputed(Cell(read, cap), Cell(written, cap), cap) == Cell(written - read, cap)
    decreases written
  {
    if written < read + cap {
      RecomputedIsExact(read, written, cap);
    } else {
      RecomputedForgetsRounds(read, written - cap, cap);
    }
  }

  lemma CommitWrite(read: nat, written: nat, n: nat, cap: nat)
    requires cap > 0 && read <= written && written + n <= read + cap
    ensures (Cell(written, cap) + n) % cap == Cell(written + n, cap)
    ensures Recomputed(Cell(read, cap), Cell(written + n, cap), cap)
         == if written + n == read + cap then 0 else written + n - read
  {
    CellShift(written, n, cap);
    RecomputedIsExact(read, written + n, cap);
  }

  lemma CommitRead(read: nat, written: nat, n: nat, cap: nat)
    requires cap > 0 && read + n <= written < read + cap
    ensures (Cell(read, cap) + n) % cap == Cell(read + n, cap)
    ensures Recomputed(Cell(read + n, cap), Cell(written, cap), cap) == written - (read + n)
  {
    CellShift(read, n, cap);
    RecomputedIsExact(read + n, written, cap);
  }
}

/** The bytes lo..hi of a stream, stored in a ring at their positions modulo its size. */
module RingContents {
  import opened RingArithmetic

  predicate InCell(storage: seq<char>, d: seq<char>, x: nat)
    requires |storage| > 0 && x < |d|
  {
    storage[Cell(x, |storage|)] == d[x]
  }

  predicate Holds(storage: seq<char>, d: seq<char>, lo: nat, hi: nat) {
    && |storage| > 0 && hi <= |d|
    && forall x {:trigger InCell(storage, d, x)} :: lo <= x < hi ==> InCell(storage, d, x)
  }

  lemma Put(storage: seq<char>, d: seq<char>, lo: nat, hi: nat, start: nat, k: nat)
    requires Holds(storage, d, lo, hi) && hi < |d| && lo <= hi < lo + |storage|
    requires hi == start + k && Cell(start, |storage|) + k < |storage|
    ensures Holds(storage[Cell(start, |storage|) + k := d[hi]], d, lo, hi + 1)
  {
    var cap := |storage|;
    CellShift(start, k, cap);
    var after := storage[Cell(start, cap) + k := d[hi]];
    forall x {:trigger InCell(after, d, x)} | lo <= x < hi + 1 ensures InCell(after, d, x) {
      if x < hi {
        assert InCell(storage, d, x);
        CellApart(x, hi, cap);
      }
    }
  }

  lemma Get(storage: seq<char>, d: seq<char>, lo: nat, hi: nat, start: nat, k: nat)
    requires Holds(storage, d, lo, hi) && lo <= start + k < hi && Cell(start, |storage|) + k < |storage|
    ensures storage[Cell(start, |storage|) + k] == d[start + k]
  {
    CellShift(start, k, |storage|);
    assert InCell(storage, d, start + k);
  }

  lemma Forget(storage: seq<char>, d: seq<char>, lo: nat, lo': nat, hi: nat)
    requires Holds(storage, d, lo, hi) && lo <= lo'
    ensures Holds(storage, d, lo', hi)
  {
    forall x {:trigger InCell(storage, d, x)} | lo' <= x < hi ensures InCell(storage, d, x) {
      assert InCell(storage, d, x);
    }
  }

  /** What a reader of `size` bytes from position `start` sees. */
  function Contents(storage: seq<char>, start: nat, size: nat): seq<char>
    requires |storage| > 0
  {
    seq(size, k => storage[(start + k) % |storage|])
  }

  lemma SeenAt(storage: seq<char>, d: seq<char>, lo: nat, hi: nat, k: nat)
    requires Holds(storage, d, lo, hi) && lo + k < hi
    ensures storage[(Cell(lo, |storage|) + k) % |storage|] == d[lo + k]
  {
    CellShift(lo, k, |storage|);
    assert InCell(storage, d, lo + k);
  }

  lemma ContentsAreTheStream(storage: seq<char>, d: seq<char>, lo: nat, hi: nat)
    requires Holds(storage, d, lo, hi) && lo <= hi
    ensures Contents(storage, Cell(lo, |storage|), hi - lo) == d[lo..hi]
  {
    var seen := Contents(storage, Cell(lo, |storage|), hi - lo);
    forall k | 0 <= k < hi - lo ensures seen[k] == d[lo..hi][k] {
      SeenAt(storage, d, lo, hi, k);
    }
  }
}

/**
 * One writer and one reader copy whole files through a ring (sems/pcat/on_semaphors/pcat.c
 * and sems/pcat/on_monitors/pcat.c). Regions are handed out under the lock, bytes are
 * moved outside it, and a second locked region commits the move.
 * The two programs differ in how a party waits, so one system with a `sync` covers both.
 */
module Pcat {
  import opened RingArithmetic
  import RingContents

  datatype Sync = Semaphores | Monitor

  /** `full0` is what the semaphore `full` starts with; condition variables have no memory. */
  datatype Config = Config(files: seq<seq<char>>, cap: nat, sync: Sync, full0: nat)

  /** Where the writer or the reader is with file i. */
  datatype Party =
    | Check(i: nat)                          // about to take the lock and test the size
    | Asleep(i: nat)                         // in sem_wait / pthread_cond_wait
    | Claimed(i: nat)                        // monitor only: lock released, pointer not yet taken
    | Moving(i: nat, at: nat, moved: nat)    // between the two locked regions

  /** `full` and `empty` are semaphore values; for the monitor, whether the sleeper was signalled. */
  datatype State = State(start: nat, end: nat, size: int, storage: seq<char>,
                         full: nat, empty: nat, writer: Party, reader: Party, out: seq<char>)

  datatype Event = WriterStep | ReaderStep | WriterSpurious | ReaderSpurious

  function Init(c: Config): State {
    State(0, 0, 0, seq(c.cap, _ => '\0'), if c.sync.Semaphores? then c.full0 else 0, 0, Check(0), Check(0), [])
  }

  function Length(c: Config, i: nat): nat
    requires i < |c.files|
  {
    |c.files[i]|
  }

  /** What sem_post or pthread_cond_signal does for the other party. */
  function Posted(c: Config, tokens: nat, other: Party): nat {
    if c.sync.Semaphores? then tokens + 1 else if other.Asleep? then 1 else 0
  }

  predicate Enabled(c: Config, s: State, e: Event) {
    match e
    case WriterStep =>
      && s.writer.i < |c.files|
      && (s.writer.Asleep? ==> s.full > 0)
      && (s.writer.Moving? && s.writer.moved < Length(c, s.writer.i) ==> s.writer.at + s.writer.moved < |s.storage|)
    case ReaderStep =>
      && s.reader.i < |c.files|
      && (s.reader.Asleep? ==> s.empty > 0)
      && (s.reader.Moving? && s.reader.moved < Length(c, s.reader.i) ==> s.reader.at + s.reader.moved < |s.storage|)
    case WriterSpurious => c.sync.Monitor? && s.writer.Asleep?
    case ReaderSpurious => c.sync.Monitor? && s.reader.Asleep?
  }

  function ApplyWriter(c: Config, s: State): State
    requires Enabled(c, s, WriterStep) && c.cap > 0
  {
    var i := s.writer.i;
    match s.writer
    case Check(_) =>
      s.(writer := if c.cap - s.size < Length(c, i) then Asleep(i)
                   else if c.sync.Monitor? then Claimed(i)
                   else Moving(i, s.end, 0))
    case Asleep(_) => s.(full := s.full - 1, writer := Check(i))
    case Claimed(_) => s.(writer := Moving(i, s.end, 0))
    case Moving(_, at, k) =>
      if k < Length(c, i) then
        s.(storage := s.storage[at + k := c.files[i][k]], writer := Moving(i, at, k + 1))
      else
        var end := (s.end + k) % c.cap;
        s.(end := end, size := Recomputed(s.start, end, c.cap),
           empty := Posted(c, s.empty, s.reader), writer := Check(i + 1))
  }

  function ApplyReader(c: Config, s: State): State
    requires Enabled(c, s, ReaderStep) && c.cap > 0
  {
    var i := s.reader.i;
    match s.reader
    case Check(_) =>
      s.(reader := if s.size < Length(c, i) then Asleep(i)
                   else if c.sync.Monitor? then Claimed(i)
                   else Moving(i, s.start, 0))
    case Asleep(_) => s.(empty := s.empty - 1, reader := Check(i))
    case Claimed(_) => s.(reader := Moving(i, s.start, 0))
    case Moving(_, at, k) =>
      if k < Length(c, i) then
        s.(out := s.out + [s.storage[at + k]], reader := Moving(i, at, k + 1))
      else
        var start := (s.start + k) % c.cap;
        s.(start := start, size := Recomputed(start, s.end, c.cap),
           full := Posted(c, s.full, s.writer), reader := Check(i + 1))
  }

  function Apply(c: Config, s: State, e: Event): State
    requires Enabled(c, s, e) && c.cap > 0
  {
    match e
    case WriterStep => ApplyWriter(c, s)
    case ReaderStep => ApplyReader(c, s)
    case WriterSpurious => s.(full := 0, writer := Check(s.writer.i))
    case ReaderSpurious => s.(empty := 0, reader := Check(s.reader.i))
  }

  ghost predicate RunTo(c: Config, s: State, run: seq<Event>, t: State)
    requires c.cap > 0
    decreases |run|
  {
    if run == [] then s == t
    else Enabled(c, s, run[0]) && RunTo(c, Apply(c, s, run[0]), run[1..], t)
  }

  /** Nobody can move unless a sleeper wakes for no reason. */
  predicate Stuck(c: Config, s: State) {
    !Enabled(c, s, WriterStep) && !Enabled(c, s, ReaderStep)
  }

  // ----- Positions in the concatenation of all files -----

  /** The length of the first i files together. */
  function Total(files: seq<seq<char>>, i: nat): nat
    requires i <= |files|
  {
    if i == 0 then 0 else Total(files, i - 1) + |files[i - 1]|
  }

  function Flat(files: seq<seq<char>>, i: nat): (d: seq<char>)
    requires i <= |files|
    ensures |d| == Total(files, i)
  {
    if i == 0 then [] else Flat(files, i - 1) + files[i - 1]
  }

  lemma {:induction false} TotalMonotone(files: seq<seq<char>>, i: nat, j: nat)
    requires i <= j <= |files|
    ensures Total(files, i) <= Total(files, j)
    ensures Flat(files, i) == Flat(files, j)[..Total(files, i)]
  {
    if i < j {
      TotalMonotone(files, i, j - 1);
    }
  }

  lemma FlatAt(files: seq<seq<char>>, i: nat, k: nat)
    requires i < |files| && k < |files[i]|
    ensures Total(files, i) + k < Total(files, |files|)
    ensures Flat(files, |files|)[Total(files, i) + k] == files[i][k]
  {
    TotalMonotone(files, i + 1, |files|);
    assert Flat(files, i + 1)[Total(files, i) + k] == files[i][k];
  }

  // ----- The conditions on the sizes -----

  predicate ExactBlock(c: Config, i: nat, j: nat)
    requires i <= j <= |c.files|
  {
    Total(c.files, j) - Total(c.files, i) == c.cap
  }

  predicate Fits(c: Config, i: nat)
    requires c.cap > 0 && i < |c.files|
  {
    |c.files[i]| <= c.cap && Cell(Total(c.files, i), c.cap) + |c.files[i]| <= c.cap
  }

  /** (a) No block of consecutive files is exactly as long as the ring. */
  ghost predicate NoExactBlock(c: Config) {
    forall i, j :: 0 <= i <= j <= |c.files| ==> !ExactBlock(c, i, j)
  }

  /** (b) No file wraps around the end of the ring; (c) each file fits into it. */
  ghost predicate NoWrap(c: Config)
    requires c.cap > 0
  {
    forall i :: 0 <= i < |c.files| ==> Fits(c, i)
  }

  ghost predicate SizeConditions(c: Config) {
    c.cap > 0 && NoExactBlock(c) && NoWrap(c)
  }

  // ----- The invariant -----

  function Read(c: Config, s: State): nat
    requires s.reader.i <= |c.files|
  {
    Total(c.files, s.reader.i)
  }

  function Written(c: Config, s: State): nat
    requires s.writer.i <= |c.files|
  {
    Total(c.files, s.writer.i)
  }

  function MovedBy(p: Party): nat {
    if p.Moving? then p.moved else 0
  }

  function Stream(c: Config): seq<char> {
    Flat(c.files, |c.files|)
  }

  /** start, end and size are what the two prefix sums say. */
  predicate Positions(c: Config, s: State) {
    && c.cap > 0 && |s.storage| == c.cap
    && s.writer.i <= |c.files| && s.reader.i <= |c.files|
    && Read(c, s) <= Written(c, s) < Read(c, s) + c.cap
    && s.start == Cell(Read(c, s), c.cap) && s.end == Cell(Written(c, s), c.cap)
    && s.size == Written(c, s) - Read(c, s)
  }

  predicate WriterOk(c: Config, s: State)
    requires Positions(c, s)
  {
    && (!s.writer.Check? ==> s.writer.i < |c.files|)
    && (s.writer.Asleep? ==> s.full > 0 || c.cap - s.size < Length(c, s.writer.i))
    && (s.writer.Claimed? || s.writer.Moving? ==> Length(c, s.writer.i) <= c.cap - s.size)
    && (s.writer.Moving? ==> s.writer.at == s.end && s.writer.moved <= Length(c, s.writer.i))
    && (s.writer.Claimed? ==> c.sync.Monitor?)
  }

  predicate ReaderOk(c: Config, s: State)
    requires Positions(c, s)
  {
    && (!s.reader.Check? ==> s.reader.i < |c.files|)
    && (s.reader.Asleep? ==> s.empty > 0 || s.size < Length(c, s.reader.i))
    && (s.reader.Claimed? || s.reader.Moving? ==> Length(c, s.reader.i) <= s.size)
    && (s.reader.Moving? ==> s.reader.at == s.start && s.reader.moved <= Length(c, s.reader.i))
    && (s.reader.Claimed? ==> c.sync.Monitor?)
  }

  predicate Inv(c: Config, s: State) {
    && Positions(c, s) && WriterOk(c, s) && ReaderOk(c, s)
    && RingContents.Holds(s.storage, Stream(c), Read(c, s), Written(c, s) + MovedBy(s.writer))
    && Read(c, s) + MovedBy(s.reader) <= |Stream(c)|
    && s.out == Stream(c)[..Read(c, s) + MovedBy(s.reader)]
  }

  lemma WriterMoves(c: Config, s: State)
    requires c.cap > 0 && Inv(c, s) && Enabled(c, s, WriterStep)
    requires s.writer.Moving? && s.writer.moved < Length(c, s.writer.i) && Fits(c, s.writer.i)
    ensures Inv(c, ApplyWriter(c, s))
  {
    FlatAt(c.files, s.writer.i, s.writer.moved);
    RingContents.Put(s.storage, Stream(c), Read(c, s), Written(c, s) + s.writer.moved, Written(c, s), s.writer.moved);
  }

  /** Committing a file does not fill the ring completely: no block is as long as the ring. */
  lemma CommitLeavesRoom(c: Config, s: State)
    requires SizeConditions(c) && Positions(c, s)
    requires s.writer.i < |c.files| && Length(c, s.writer.i) <= c.cap - s.size
    ensures Written(c, s) + Length(c, s.writer.i) < Read(c, s) + c.cap
  {
    var i, j := s.writer.i, s.reader.i;
    if j <= i + 1 {
      assert !ExactBlock(c, j, i + 1);
    } else {
      TotalMonotone(c.files, i + 1, j);
    }
  }

  lemma WriterCommits(c: Config, s: State)
    requires c.cap > 0 && Inv(c, s) && Enabled(c, s, WriterStep)
    requires s.writer.Moving? && s.writer.moved == Length(c, s.writer.i)
    requires Written(c, s) + Length(c, s.writer.i) < Read(c, s) + c.cap
    ensures Inv(c, ApplyWriter(c, s))
  {
    CommitWrite(Read(c, s), Written(c, s), s.writer.moved, c.cap);
  }

  lemma WriterKeepsInv(c: Config, s: State)
    requires SizeConditions(c) && Inv(c, s) && Enabled(c, s, WriterStep)
    ensures Inv(c, ApplyWriter(c, s))
  {
    if s.writer.Moving? {
      if s.writer.moved < Length(c, s.writer.i) {
        assert Fits(c, s.writer.i);
        WriterMoves(c, s);
      } else {
        CommitLeavesRoom(c, s);
        WriterCommits(c, s);
      }
    }
  }

  lemma ReaderMoves(c: Config, s: State)
    requires c.cap > 0 && Inv(c, s) && Enabled(c, s, ReaderStep)
    requires s.reader.Moving? && s.reader.moved < Length(c, s.reader.i) && Fits(c, s.reader.i)
    ensures Inv(c, ApplyReader(c, s))
  {
    FlatAt(c.files, s.reader.i, s.reader.moved);
    RingContents.Get(s.storage, Stream(c), Read(c, s), Written(c, s) + MovedBy(s.writer), Read(c, s), s.reader.moved);
  }

  lemma ReaderCommits(c: Config, s: State)
    requires c.cap > 0 && Inv(c, s) && Enabled(c, s, ReaderStep)
    requires s.reader.Moving? && s.reader.moved == Length(c, s.reader.i)
    ensures Inv(c, ApplyReader(c, s))
  {
    var t := ApplyReader(c, s);
    CommitRead(Read(c, s), Written(c, s), s.reader.moved, c.cap);
    RingContents.Forget(s.storage, Stream(c), Read(c, s), Read(c, t), Written(c, s) + MovedBy(s.writer));
  }

  lemma ReaderKeepsInv(c: Config, s: State)
    requires SizeConditions(c) && Inv(c, s) && Enabled(c, s, ReaderStep)
    ensures Inv(c, ApplyReader(c, s))
  {
    if s.reader.Moving? {
      if s.reader.moved < Length(c, s.reader.i) {
        assert Fits(c, s.reader.i);
        ReaderMoves(c, s);
      } else {
        ReaderCommits(c, s);
      }
    }
  }

  lemma StepKeepsInv(c: Config, s: State, e: Event)
    requires SizeConditions(c) && Inv(c, s) && Enabled(c, s, e)
    ensures Inv(c, Apply(c, s, e))
  {
    match e
    case WriterStep => WriterKeepsInv(c, s);
    case ReaderStep => ReaderKeepsInv(c, s);
    case _ =>
  }

  lemma InitInv(c: Config)
    requires SizeConditions(c)
    ensures Inv(c, Init(c))
  {
    TotalMonotone(c.files, 0, |c.files|);
  }

  // ----- Termination -----

  /** What a party still has to do from file i on. */
  function Work(c: Config, i: nat): nat
    requires i <= |c.files|
    decreases |c.files| - i
  {
    if i == |c.files| then 0 else Work(c, i + 1) + |c.files[i]| + 8
  }

  function PartyWork(c: Config, p: Party): int {
    if p.i >= |c.files| then 0
    else match p
      case Check(i) => Work(c, i)
      case Asleep(i) => Work(c, i) - 1
      case Claimed(i) => Work(c, i) - 1
      case Moving(i, _, k) => Work(c, i) - 2 - k
  }

  function Measure(c: Config, s: State): int {
    PartyWork(c, s.writer) + PartyWork(c, s.reader) + 2 * s.full + 2 * s.empty
  }

  predicate Spurious(e: Event) {
    e.WriterSpurious? || e.ReaderSpurious?
  }

  function SpuriousIn(run: seq<Event>): nat {
    if run == [] then 0 else (if Spurious(run[0]) then 1 else 0) + SpuriousIn(run[1..])
  }

  /** Each party is at a place inside its files. */
  predicate InPlace(c: Config, p: Party) {
    && p.i <= |c.files| && (!p.Check? ==> p.i < |c.files|)
    && (p.Moving? ==> p.moved <= Length(c, p.i))
  }

  /** Each step lowers the measure by one at least; a spurious wakeup may raise it by one. */
  lemma StepLowersMeasure(c: Config, s: State, e: Event)
    requires c.cap > 0 && InPlace(c, s.writer) && InPlace(c, s.reader) && Enabled(c, s, e)
    ensures Measure(c, Apply(c, s, e)) <= Measure(c, s) + (if Spurious(e) then 1 else -1)
  {
  }

  lemma {:induction false} RunKeepsInv(c: Config, s: State, run: seq<Event>, t: State)
    requires SizeConditions(c) && Inv(c, s) && RunTo(c, s, run, t)
    ensures Inv(c, t) && |run| + Measure(c, t) <= Measure(c, s) + 2 * SpuriousIn(run)
    decreases |run|
  {
    if run != [] {
      StepKeepsInv(c, s, run[0]);
      StepLowersMeasure(c, s, run[0]);
      RunKeepsInv(c, Apply(c, s, run[0]), run[1..], t);
    }
  }

  // ----- Main results -----

  /** The bytes committed by the writer and not yet by the reader, as one abstract queue. */
  function Fifo(c: Config, s: State): seq<char>
    requires s.writer.i <= |c.files| && s.reader.i <= |c.files| && Read(c, s) <= Written(c, s)
  {
    TotalMonotone(c.files, s.writer.i, |c.files|);
    Stream(c)[Read(c, s)..Written(c, s)]
  }

  /**
   * In every interleaving the ring is a bounded queue of the files' bytes: its size is exact,
   * what it holds is what was written and not yet read, and the output is a prefix of the files.
   */
  lemma RingIsAQueue(c: Config, run: seq<Event>, t: State)
    requires SizeConditions(c) && RunTo(c, Init(c), run, t)
    ensures t.writer.i <= |c.files| && t.reader.i <= |c.files| && Read(c, t) <= Written(c, t)
    ensures t.size == |Fifo(c, t)| <= c.cap && |t.storage| == c.cap
    ensures RingContents.Contents(t.storage, t.start, t.size) == Fifo(c, t)
    ensures t.out <= Stream(c)
    ensures |t.out| == Read(c, t) + MovedBy(t.reader)
  {
    InitInv(c);
    RunKeepsInv(c, Init(c), run, t);
    TotalMonotone(c.files, t.writer.i, |c.files|);
    RingContents.Forget(t.storage, Stream(c), Read(c, t), Read(c, t), Written(c, t) + MovedBy(t.writer));
    RingContents.ContentsAreTheStream(t.storage, Stream(c), Read(c, t), Written(c, t));
  }

  /** While both move bytes outside the lock, they touch different cells, all inside the ring. */
  lemma RegionsAreDisjoint(c: Config, run: seq<Event>, t: State, a: nat, b: nat)
    requires SizeConditions(c) && RunTo(c, Init(c), run, t)
    requires t.writer.Moving? && t.writer.i < |c.files| && a < Length(c, t.writer.i)
    requires t.reader.Moving? && t.reader.i < |c.files| && b < Length(c, t.reader.i)
    ensures t.writer.at + a < c.cap && t.reader.at + b < c.cap
    ensures t.writer.at + a != t.reader.at + b
  {
    InitInv(c);
    RunKeepsInv(c, Init(c), run, t);
    assert Fits(c, t.writer.i) && Fits(c, t.reader.i);
    CellsApart(Read(c, t), Written(c, t), b, a, c.cap);
  }

  lemma CellsApart(read: nat, written: nat, b: nat, a: nat, cap: nat)
    requires cap > 0 && read + b < written && written + a < read + cap
    requires Cell(written, cap) + a < cap && Cell(read, cap) + b < cap
    ensures Cell(written, cap) + a != Cell(read, cap) + b
  {
    CellShift(written, a, cap);
    CellShift(read, b, cap);
    CellApart(read + b, written + a, cap);
  }

  /** How one step changes the abstract queue: not at all, or by one whole file at one end. */
  predicate QueueStep(c: Config, s: State, t: State) {
    && s.writer.i <= t.writer.i <= s.writer.i + 1 && t.writer.i <= |c.files|
    && s.reader.i <= t.reader.i <= s.reader.i + 1 && t.reader.i <= |c.files|
    && Read(c, s) <= Written(c, s) && Read(c, t) <= Written(c, t)
    && if t.writer.i != s.writer.i then Fifo(c, t) == Fifo(c, s) + c.files[s.writer.i]
       else if t.reader.i != s.reader.i then Fifo(c, s) == c.files[s.reader.i] + Fifo(c, t)
       else Fifo(c, t) == Fifo(c, s)
  }

  lemma QueueStepFrom(c: Config, s: State, e: Event)
    requires c.cap > 0 && Positions(c, s) && Enabled(c, s, e) && Positions(c, Apply(c, s, e))
    ensures QueueStep(c, s, Apply(c, s, e))
  {
    var t := Apply(c, s, e);
    TotalMonotone(c.files, s.writer.i, |c.files|);
    if t.writer.i != s.writer.i {
      AppendFile(c, s.writer.i, Read(c, s));
    } else if t.reader.i != s.reader.i {
      TakeFile(c, s.reader.i, Written(c, s));
    }
  }

  /** Each step of each run leaves the abstract queue alone, appends one whole file, or takes one off. */
  lemma StepRefinesQueue(c: Config, run: seq<Event>, s: State, e: Event)
    requires SizeConditions(c) && RunTo(c, Init(c), run, s) && Enabled(c, s, e)
    ensures QueueStep(c, s, Apply(c, s, e))
  {
    InitInv(c);
    RunKeepsInv(c, Init(c), run, s);
    StepKeepsInv(c, s, e);
    QueueStepFrom(c, s, e);
  }

  lemma AppendFile(c: Config, i: nat, lo: nat)
    requires i < |c.files| && lo <= Total(c.files, i)
    ensures Total(c.files, i + 1) <= |Stream(c)|
    ensures Stream(c)[lo..Total(c.files, i + 1)] == Stream(c)[lo..Total(c.files, i)] + c.files[i]
  {
    TotalMonotone(c.files, i, |c.files|);
    TotalMonotone(c.files, i + 1, |c.files|);
    var d := Stream(c);
    assert d[..Total(c.files, i + 1)] == d[..Total(c.files, i)] + c.files[i];
    assert d[lo..Total(c.files, i + 1)] == d[..Total(c.files, i + 1)][lo..];
    assert d[lo..Total(c.files, i)] == d[..Total(c.files, i)][lo..];
  }

  lemma TakeFile(c: Config, j: nat, hi: nat)
    requires j < |c.files| && Total(c.files, j + 1) <= hi <= |Stream(c)|
    ensures Stream(c)[Total(c.files, j)..hi] == c.files[j] + Stream(c)[Total(c.files, j + 1)..hi]
  {
    AppendFile(c, j, Total(c.files, j));
    var d, a, b := Stream(c), Total(c.files, j), Total(c.files, j + 1);
    assert d[a..a] == [];
    assert d[a..hi] == d[a..b] + d[b..hi];
  }

  predicate Complete(c: Config, s: State) {
    && s.writer == Check(|c.files|) && s.reader == Check(|c.files|)
    && s.out == Stream(c)
  }

  // ----- What the semaphores hold, and whom a signal is for -----

  /** How often along a run the writer gets past its wait. */
  function WriterPasses(c: Config, s: State, run: seq<Event>): nat
    requires c.cap > 0
    decreases |run|
  {
    if run == [] || !Enabled(c, s, run[0]) then 0
    else (if run[0].WriterStep? && s.writer.Asleep? then 1 else 0) + WriterPasses(c, Apply(c, s, run[0]), run[1..])
  }

  /** How often along a run the reader gets past its wait. */
  function ReaderPasses(c: Config, s: State, run: seq<Event>): nat
    requires c.cap > 0
    decreases |run|
  {
    if run == [] || !Enabled(c, s, run[0]) then 0
    else (if run[0].ReaderStep? && s.reader.Asleep? then 1 else 0) + ReaderPasses(c, Apply(c, s, run[0]), run[1..])
  }

  lemma {:induction false} SemaphoresCountFrom(c: Config, s: State, run: seq<Event>, t: State)
    requires c.cap > 0 && c.sync.Semaphores? && RunTo(c, s, run, t)
    ensures t.full + WriterPasses(c, s, run) - t.reader.i == s.full - s.reader.i
    ensures t.empty + ReaderPasses(c, s, run) - t.writer.i == s.empty - s.writer.i
    decreases |run|
  {
    if run != [] {
      SemaphoresCountFrom(c, Apply(c, s, run[0]), run[1..], t);
    }
  }

  /**
   * In every run, whatever the sizes of the files: `full` was raised once for each file read and lowered
   * once for each wait of the writer, `empty` once for each file written and each wait of the reader.
   */
  lemma SemaphoresCount(c: Config, run: seq<Event>, t: State)
    requires c.cap > 0 && c.sync.Semaphores? && RunTo(c, Init(c), run, t)
    ensures t.full + WriterPasses(c, Init(c), run) == c.full0 + t.reader.i
    ensures t.empty + ReaderPasses(c, Init(c), run) == t.writer.i
  {
    SemaphoresCountFrom(c, Init(c), run, t);
  }

  /** The monitor's signals do not wait for anybody. */
  predicate SignalsForSleepers(s: State) {
    && s.full <= (if s.writer.Asleep? then 1 else 0)
    && s.empty <= (if s.reader.Asleep? then 1 else 0)
  }

  lemma {:induction false} SignalsStayForSleepers(c: Config, s: State, run: seq<Event>, t: State)
    requires c.cap > 0 && c.sync.Monitor? && SignalsForSleepers(s) && RunTo(c, s, run, t)
    ensures SignalsForSleepers(t)
    decreases |run|
  {
    if run != [] {
      SignalsStayForSleepers(c, Apply(c, s, run[0]), run[1..], t);
    }
  }

  predicate WriterRests(run: seq<Event>) {
    forall k :: 0 <= k < |run| ==> run[k].ReaderStep? || run[k].ReaderSpurious?
  }

  predicate ReaderRests(run: seq<Event>) {
    forall k :: 0 <= k < |run| ==> run[k].WriterStep? || run[k].WriterSpurious?
  }

  lemma {:induction false} WriterIsSignalled(c: Config, s: State, run: seq<Event>, t: State)
    requires c.cap > 0 && c.sync.Monitor? && s.writer.Asleep? && WriterRests(run) && RunTo(c, s, run, t)
    ensures t.writer == s.writer && t.reader.i >= s.reader.i
    ensures t.full == if t.reader.i > s.reader.i then 1 else s.full
    decreases |run|
  {
    if run != [] {
      WriterIsSignalled(c, Apply(c, s, run[0]), run[1..], t);
    }
  }

  lemma {:induction false} ReaderIsSignalled(c: Config, s: State, run: seq<Event>, t: State)
    requires c.cap > 0 && c.sync.Monitor? && s.reader.Asleep? && ReaderRests(run) && RunTo(c, s, run, t)
    ensures t.reader == s.reader && t.writer.i >= s.writer.i
    ensures t.empty == if t.writer.i > s.writer.i then 1 else s.empty
    decreases |run|
  {
    if run != [] {
      ReaderIsSignalled(c, Apply(c, s, run[0]), run[1..], t);
    }
  }

  /** With the monitor, a writer that fell asleep has been signalled exactly if the reader has read a file since. */
  lemma WriterWakesExactlyAfterARead(c: Config, run: seq<Event>, s: State, rest: seq<Event>, t: State)
    requires c.cap > 0 && c.sync.Monitor? && RunTo(c, Init(c), run, s)
    requires s.writer.Check? && Enabled(c, s, WriterStep) && ApplyWriter(c, s).writer.Asleep?
    requires RunTo(c, ApplyWriter(c, s), rest, t) && WriterRests(rest)
    ensures t.writer.Asleep? && (Enabled(c, t, WriterStep) <==> t.reader.i > s.reader.i)
  {
    SignalsStayForSleepers(c, Init(c), run, s);
    WriterIsSignalled(c, ApplyWriter(c, s), rest, t);
  }

  /** With the monitor, a reader that fell asleep has been signalled exactly if the writer has written a file since. */
  lemma ReaderWakesExactlyAfterAWrite(c: Config, run: seq<Event>, s: State, rest: seq<Event>, t: State)
    requires c.cap > 0 && c.sync.Monitor? && RunTo(c, Init(c), run, s)
    requires s.reader.Check? && Enabled(c, s, ReaderStep) && ApplyReader(c, s).reader.Asleep?
    requires RunTo(c, ApplyReader(c, s), rest, t) && ReaderRests(rest)
    ensures t.reader.Asleep? && (Enabled(c, t, ReaderStep) <==> t.writer.i > s.writer.i)
  {
    SignalsStayForSleepers(c, Init(c), run, s);
    ReaderIsSignalled(c, ApplyReader(c, s), rest, t);
  }

  /**
   * No wakeup is lost and nobody is left waiting, whatever `full` starts with: a run that can
   * go no further has copied every file.
   */
  lemma StuckMeansComplete(c: Config, run: seq<Event>, t: State)
    requires SizeConditions(c) && RunTo(c, Init(c), run, t) && Stuck(c, t)
    ensures Complete(c, t)
  {
    InitInv(c);
    RunKeepsInv(c, Init(c), run, t);
    var i, j, m := t.writer.i, t.reader.i, |c.files|;
    if i < m {
      assert Fits(c, i);
      WriterCanMove(c, t);
    }
    if j < m {
      assert Fits(c, j);
      ReaderCanMove(c, t);
    }
    TwoSleepers(c, t);
  }

  lemma WriterCanMove(c: Config, s: State)
    requires c.cap > 0 && Inv(c, s) && s.writer.i < |c.files| && Fits(c, s.writer.i)
    ensures Enabled(c, s, WriterStep) || (s.writer.Asleep? && c.cap - s.size < Length(c, s.writer.i))
  {
  }

  lemma ReaderCanMove(c: Config, s: State)
    requires c.cap > 0 && Inv(c, s) && s.reader.i < |c.files| && Fits(c, s.reader.i)
    ensures Enabled(c, s, ReaderStep) || (s.reader.Asleep? && s.size < Length(c, s.reader.i))
  {
  }

  /** If each party is done or rightly asleep, both are done. */
  lemma TwoSleepers(c: Config, s: State)
    requires SizeConditions(c) && Inv(c, s)
    requires s.writer.i < |c.files| ==> s.writer.Asleep? && c.cap - s.size < Length(c, s.writer.i)
    requires s.reader.i < |c.files| ==> s.reader.Asleep? && s.size < Length(c, s.reader.i)
    ensures s.writer.i == s.reader.i == |c.files|
  {
    var i, j := s.writer.i, s.reader.i;
    assert i < |c.files| ==> Fits(c, i);
    if j < i {
      TotalMonotone(c.files, j + 1, i);
    } else {
      TotalMonotone(c.files, i, j);
    }
  }

  /** No run is longer than a bound fixed by the files, `full0` and the number of spurious wakeups. */
  lemma EveryRunIsBounded(c: Config, run: seq<Event>, t: State)
    requires SizeConditions(c) && RunTo(c, Init(c), run, t)
    ensures |run| <= 2 * (|Stream(c)| + 8 * |c.files|) + 2 * c.full0 + 2 * SpuriousIn(run)
  {
    InitInv(c);
    RunKeepsInv(c, Init(c), run, t);
    WorkFrom(c, 0);
  }

  lemma {:induction false} WorkFrom(c: Config, i: nat)
    requires i <= |c.files|
    ensures Work(c, i) + Total(c.files, i) == |Stream(c)| + 8 * (|c.files| - i)
    decreases |c.files| - i
  {
    if i < |c.files| {
      WorkFrom(c, i + 1);
    }
  }
}
