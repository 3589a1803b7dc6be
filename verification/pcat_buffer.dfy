/**
 * The shared buffer itself (buffer_t of both pcat.c files), updated in place. The uninterrupted
 * calls of buf_write and buf_read are runs of the interleaved system.
 */
module PcatBuffer {
  import opened RingArithmetic
  import opened Pcat
  import PcatConditions

  /** The cells with the data written over those from `at` on. */
  function Filled(cells: seq<char>, at: nat, data: seq<char>): (r: seq<char>)
    requires at + |data| <= |cells|
    ensures |r| == |cells|
  {
    cells[..at] + data + cells[at + |data|..]
  }

  lemma FilledMore(cells: seq<char>, at: nat, data: seq<char>, k: nat)
    requires at + |data| <= |cells| && k < |data|
    ensures Filled(cells, at, data[..k])[at + k := data[k]] == Filled(cells, at, data[..k + 1])
  {
  }

  lemma FilledTwice(cells: seq<char>, at: nat, data: seq<char>, done: nat, got: nat)
    requires at + |data| <= |cells| && done + got <= |data|
    ensures Filled(Filled(cells, at, data[..done]), at + done, data[done..done + got]) == Filled(cells, at, data[..done + got])
  {
    assert data[..done + got] == data[..done] + data[done..done + got];
  }

  lemma RunThen(c: Config, s: State, run: seq<Event>, t: State, e: Event)
    requires c.cap > 0 && RunTo(c, s, run, t) && Enabled(c, t, e)
    ensures RunTo(c, s, run + [e], Apply(c, t, e))
  {
    PcatConditions.StepThen(c, t, e, [], Apply(c, t, e));
    assert [e] + [] == [e];
    PcatConditions.RunConcat(c, s, run, t, [e], Apply(c, t, e));
  }

  lemma FilledNot(cells: seq<char>, at: nat)
    requires at <= |cells|
    ensures Filled(cells, at, []) == cells
  {
  }

  /** The writer's steps for a part of its file. */
  lemma {:induction false} PartSteps(c: Config, s: State, at: nat, done: nat, k: nat) returns (run: seq<Event>)
    requires c.cap > 0 && s.writer.i < |c.files| && s.writer == Moving(s.writer.i, at, done)
    requires done + k <= Length(c, s.writer.i) && at + done + k <= |s.storage|
    ensures RunTo(c, s, run, s.(storage := Filled(s.storage, at + done, c.files[s.writer.i][done..done + k]),
                                writer := Moving(s.writer.i, at, done + k)))
    decreases k
  {
    var data := c.files[s.writer.i];
    if k == 0 {
      FilledNot(s.storage, at + done);
      run := [];
    } else {
      run := PartSteps(c, s, at, done, k - 1);
      var part := data[done..done + k];
      assert part[..k - 1] == data[done..done + k - 1] && part[..k] == part;
      FilledMore(s.storage, at + done, part, k - 1);
      var t := s.(storage := Filled(s.storage, at + done, part[..k - 1]), writer := Moving(s.writer.i, at, done + k - 1));
      RunThen(c, s, run, t, WriterStep);
      run := run + [WriterStep];
    }
  }

  class Buffer {
    var start: nat
    var end: nat
    var size: int
    const capacity: nat
    const storage: array<char>

    ghost predicate Valid()
      reads this
    {
      0 < capacity == storage.Length && start < capacity && end < capacity
    }

    /** The object holds the shared part of s. */
    ghost predicate Matches(s: State)
      reads this, storage
    {
      Valid() && s.start == start && s.end == end && s.size == size && s.storage == storage[..]
    }

    /** buffer_init */
    constructor (capacity: nat)
      requires capacity > 0
      ensures Valid() && fresh(storage) && this.capacity == capacity
      ensures start == 0 && end == 0 && size == 0
      ensures forall c: Config :: c.cap == capacity ==> Matches(Init(c))
    {
      this.capacity := capacity;
      storage := new char[capacity](_ => '\0');
      start, end, size := 0, 0, 0;
    }

    method UpdBufferSize()
      requires Valid()
      modifies this`size
      ensures size == Recomputed(start, end, capacity)
      ensures 0 <= size < capacity && (start + size) % capacity == end
    {
      if end >= start {
        size := end - start;
        ModUnique(start + size, end, capacity, 0);
      } else {
        size := capacity - start + end;
        ModUnique(start + size, end, capacity, 1);
      }
    }

    method ShiftStartByK(n: nat)
      requires Valid()
      modifies this`start
      ensures Valid() && start == (old(start) + n) % capacity
    {
      start := (start + n) % capacity;
    }

    method ShiftEndByK(n: nat)
      requires Valid()
      modifies this`end
      ensures Valid() && end == (old(end) + n) % capacity
    {
      end := (end + n) % capacity;
    }

    /** One read: it delivers a part of what is left, placed at `to`. */
    method ReadPart(part: seq<char>, to: nat)
      requires Valid() && to + |part| <= capacity
      modifies storage
      ensures storage[..] == Filled(old(storage[..]), to, part)
    {
      ghost var before := storage[..];
      FilledNot(before, to);
      for k := 0 to |part|
        invariant storage[..] == Filled(before, to, part[..k])
      {
        FilledMore(before, to, part, k);
        storage[to + k] := part[k];
      }
      assert part[..|part|] == part;
    }

    /**
     * saferead: each read may deliver any part of what is left, and the loop goes on until all is there.
     * The region at..at+|data| is filled, the rest of the storage is kept.
     */
    method SafeRead(data: seq<char>, at: nat)
      requires Valid() && at + |data| <= capacity
      modifies storage
      ensures storage[..] == Filled(old(storage[..]), at, data)
    {
      ghost var before := storage[..];
      FilledNot(before, at);
      var readTotal := 0;
      while readTotal < |data|
        invariant readTotal <= |data| && storage[..] == Filled(before, at, data[..readTotal])
      {
        var readOnRead: nat :| 1 <= readOnRead <= |data| - readTotal;
        FilledTwice(before, at, data, readTotal, readOnRead);
        ReadPart(data[readTotal..readTotal + readOnRead], at + readTotal);
        readTotal := readTotal + readOnRead;
      }
      assert data[..readTotal] == data;
    }

    /** buf_write with room in the buffer: get_write, the transfer, complete_write. */
    method BufWrite(data: seq<char>, ghost c: Config, ghost s: State) returns (ghost run: seq<Event>, ghost t: State)
      requires Matches(s) && c.cap == capacity
      requires s.writer.Check? && s.writer.i < |c.files| && c.files[s.writer.i] == data
      requires capacity - size >= |data| && end + |data| <= capacity
      modifies this, storage
      ensures RunTo(c, s, run, t) && Matches(t) && t.writer == Check(s.writer.i + 1)
      ensures start == old(start) && end == (old(end) + |data|) % capacity
      ensures size == Recomputed(start, end, capacity)
      ensures storage[..] == Filled(old(storage[..]), old(end), data)
    {
      ghost var run1, s1 := PcatConditions.WriterEnters(c, s);
      ghost var run2 := PartSteps(c, s1, end, 0, |data|);
      assert data[0..|data|] == data;
      SafeRead(data, end);
      ghost var s2 := s1.(storage := storage[..], writer := s1.writer.(moved := |data|));
      PcatConditions.RunConcat(c, s, run1, s1, run2, s2);
      ShiftEndByK(|data|);
      UpdBufferSize();
      RunThen(c, s, run1 + run2, s2, WriterStep);
      run, t := run1 + run2 + [WriterStep], ApplyWriter(c, s2);
    }

    /** buf_read with n bytes in the buffer: get_read, the output of the region, complete_read. */
    method BufRead(n: nat, ghost c: Config, ghost s: State) returns (output: seq<char>, ghost run: seq<Event>, ghost t: State)
      requires Matches(s) && c.cap == capacity
      requires s.reader.Check? && s.reader.i < |c.files| && |c.files[s.reader.i]| == n
      requires size >= n && start + n <= capacity
      modifies this
      ensures output == storage[old(start)..old(start) + n]
      ensures RunTo(c, s, run, t) && Matches(t) && t.reader == Check(s.reader.i + 1) && t.out == s.out + output
      ensures end == old(end) && start == (old(start) + n) % capacity
      ensures size == Recomputed(start, end, capacity)
    {
      ghost var s1, s2;
      run, s1 := PcatConditions.ReaderEnters(c, s);
      s2 := s1;
      output := [];
      while |output| < n
        invariant |output| <= n && start == old(start) && end == old(end) && size == old(size)
        invariant start + |output| <= capacity == storage.Length && output == storage[start..start + |output|]
        invariant s2 == s1.(out := s.out + output, reader := s1.reader.(moved := |output|))
        invariant RunTo(c, s, run, s2)
      {
        RunThen(c, s, run, s2, ReaderStep);
        run, s2 := run + [ReaderStep], ApplyReader(c, s2);
        output := output + [storage[start + |output|]];
      }
      ShiftStartByK(n);
      UpdBufferSize();
      RunThen(c, s, run, s2, ReaderStep);
      run, t := run + [ReaderStep], ApplyReader(c, s2);
    }
  }
}
