/**
 * Counting bytes, words and lines of two streams, chunk by chunk (sems/wc/wc.c). The flag that
 * says "inside a word" starts afresh with every chunk, so words cut by a chunk boundary count twice.
 */
module WordCount {

  /** isspace in the C locale */
  predicate IsSpace(c: char) {
    c == ' ' || '\t' <= c <= '\r'
  }

  /** The number of words of a whole text: maximal runs of non-space characters. */
  function Words(s: seq<char>): nat {
    if s == [] then 0
    else Words(s[..|s| - 1]) + (if !IsSpace(s[|s| - 1]) && (|s| == 1 || IsSpace(s[|s| - 2])) then 1 else 0)
  }

  function Lines(s: seq<char>): nat {
    if s == [] then 0 else Lines(s[..|s| - 1]) + (if s[|s| - 1] == '\n' then 1 else 0)
  }

  /** Space, horizontal tab, new line, vertical tab, form feed, carriage return. */
  const SPACES: set<char> := {' ', '\t', '\n', '\U{0B}', '\U{0C}', '\r'}

  lemma SpacesAreSix(c: char)
    ensures IsSpace(c) <==> c in SPACES
  {
  }

  /** A word begins at i: no space there, and none or a space before. */
  predicate BeginsWord(s: seq<char>, i: nat)
    requires i < |s|
  {
    s[i] !in SPACES && (i == 0 || s[i - 1] in SPACES)
  }

  /** Where the words of a text begin. */
  function WordStarts(s: seq<char>): set<nat> {
    set i: nat | i < |s| && BeginsWord(s, i)
  }

  lemma BeginsBefore(s: seq<char>, last: nat, i: nat)
    requires i < last <= |s|
    ensures BeginsWord(s, i) == BeginsWord(s[..last], i)
  {
  }

  lemma LastStart(s: seq<char>, last: nat)
    requires last + 1 == |s|
    ensures WordStarts(s) == WordStarts(s[..last]) + (if BeginsWord(s, last) then {last} else {})
    ensures last !in WordStarts(s[..last])
  {
    forall i: nat | i < last ensures BeginsWord(s, i) == BeginsWord(s[..last], i) {
      BeginsBefore(s, last, i);
    }
  }

  /** Words counts the positions where a word begins. */
  lemma {:induction false} WordsAreStarts(s: seq<char>)
    ensures Words(s) == |WordStarts(s)|
  {
    if s != [] {
      var last := |s| - 1;
      LastStart(s, last);
      WordsAreStarts(s[..last]);
      SpacesAreSix(s[last]);
      if last > 0 {
        SpacesAreSix(s[last - 1]);
      }
    }
  }

  /** Lines counts the new line characters. */
  lemma {:induction false} LinesAreNewLines(s: seq<char>)
    ensures Lines(s) == multiset(s)['\n']
  {
    if s != [] {
      var last := |s| - 1;
      LinesAreNewLines(s[..last]);
      assert s == s[..last] + [s[last]];
    }
  }

  /** A word goes on across the seam. */
  predicate Cut(a: seq<char>, b: seq<char>) {
    a != [] && b != [] && a[|a| - 1] !in SPACES && b[0] !in SPACES
  }

  lemma {:induction false} WordsOfConcat(a: seq<char>, b: seq<char>)
    ensures Words(a + b) + (if Cut(a, b) then 1 else 0) == Words(a) + Words(b)
  {
    if b == [] {
      assert a + b == a;
    } else {
      var last := |b| - 1;
      WordsOfConcat(a, b[..last]);
      SpacesAreSix(b[0]);
      if a != [] {
        SpacesAreSix(a[|a| - 1]);
      }
      assert (a + b)[..|a + b| - 1] == a + b[..last];
    }
  }

  lemma {:induction false} LinesOfConcat(a: seq<char>, b: seq<char>)
    ensures Lines(a + b) == Lines(a) + Lines(b)
  {
    if b == [] {
      assert a + b == a;
    } else {
      LinesOfConcat(a, b[..|b| - 1]);
      assert (a + b)[..|a + b| - 1] == a + b[..|b| - 1];
    }
  }

  /** What read can answer; an empty answer is the end of the stream. */
  datatype Answer = Data(chunk: seq<char>) | End | Error

  datatype Event = Event(fromStdout: bool, answer: Answer)

  /** The text that arrived on one of the two streams. */
  function Text(events: seq<Event>, fromStdout: bool): seq<char> {
    if events == [] then []
    else
      var e := events[|events| - 1];
      Text(events[..|events| - 1], fromStdout)
        + (if e.fromStdout == fromStdout && e.answer.Data? then e.answer.chunk else [])
  }

  /** The number of chunk boundaries of one stream with a non-space character on both sides. */
  function Cuts(events: seq<Event>, fromStdout: bool): nat {
    if events == [] then 0
    else
      var e, before := events[|events| - 1], events[..|events| - 1];
      Cuts(before, fromStdout)
        + (if e.fromStdout == fromStdout && e.answer.Data? && Cut(Text(before, fromStdout), e.answer.chunk) then 1 else 0)
  }

  /** The words that are counted when every chunk is taken for a text of its own. */
  function Counted(events: seq<Event>, fromStdout: bool): nat {
    if events == [] then 0
    else
      var e := events[|events| - 1];
      Counted(events[..|events| - 1], fromStdout)
        + (if e.fromStdout == fromStdout && e.answer.Data? then Words(e.answer.chunk) else 0)
  }

  /** Counting chunk by chunk gives the words of the whole text and one more for every word that is cut. */
  lemma {:induction false} CutsCountTwice(events: seq<Event>, fromStdout: bool)
    ensures Counted(events, fromStdout) == Words(Text(events, fromStdout)) + Cuts(events, fromStdout)
  {
    if events != [] {
      var before, e := events[..|events| - 1], events[|events| - 1];
      CutsCountTwice(before, fromStdout);
      WordsOfConcat(Text(before, fromStdout), if e.fromStdout == fromStdout && e.answer.Data? then e.answer.chunk else []);
    }
  }

  /** A read of the stream has found its end, or failed: the stream is closed. */
  predicate Closed(events: seq<Event>, fromStdout: bool) {
    exists k :: 0 <= k < |events| && events[k].fromStdout == fromStdout && !events[k].answer.Data?
  }

  /** A closed stream has no further events. */
  predicate NothingAfterClosing(events: seq<Event>) {
    forall j, k :: 0 <= j < k < |events| && events[j].fromStdout == events[k].fromStdout ==> events[j].answer.Data?
  }

  /** How many of the two streams are still open. */
  function Open(events: seq<Event>): nat {
    (if Closed(events, true) then 0 else 1) + (if Closed(events, false) then 0 else 1)
  }

  lemma ClosedByNext(events: seq<Event>, e: Event, fromStdout: bool)
    ensures Closed(events + [e], fromStdout)
            <==> Closed(events, fromStdout) || (e.fromStdout == fromStdout && !e.answer.Data?)
  {
    var after := events + [e];
    if k :| 0 <= k < |events| && events[k].fromStdout == fromStdout && !events[k].answer.Data? {
      assert after[k] == events[k];
    }
    assert after[|events|] == e;
  }

  /** While there are events, their streams are open. */
  lemma NextIsOpen(events: seq<Event>, k: nat)
    requires NothingAfterClosing(events) && k < |events|
    ensures !Closed(events[..k], events[k].fromStdout)
  {
  }

  /** What one more event adds to the text of a stream and to its counts. */
  lemma OneMoreEvent(events: seq<Event>, e: Event, fromStdout: bool)
    ensures var after, more := events + [e], if e.fromStdout == fromStdout && e.answer.Data? then e.answer.chunk else [];
            && |Text(after, fromStdout)| == |Text(events, fromStdout)| + |more|
            && Lines(Text(after, fromStdout)) == Lines(Text(events, fromStdout)) + Lines(more)
            && Counted(after, fromStdout) == Counted(events, fromStdout) + Words(more)
  {
    var after := events + [e];
    assert after[..|after| - 1] == events;
    var more := if e.fromStdout == fromStdout && e.answer.Data? then e.answer.chunk else [];
    LinesOfConcat(Text(events, fromStdout), more);
  }

  /** wc_ctx_t */
  class Context {
    var bytes: nat
    var words: nat
    var lines: nat

    constructor ()
      ensures bytes == words == lines == 0
    {
      bytes, words, lines := 0, 0, 0;
    }

    ghost predicate CountsFor(events: seq<Event>, fromStdout: bool)
      reads this
    {
      && bytes == |Text(events, fromStdout)|
      && lines == Lines(Text(events, fromStdout))
      && words == Counted(events, fromStdout)
    }

    /** count: one read and its chunk; the answer decides the result. */
    method Count(answer: Answer) returns (result: int)
      requires answer.Data? ==> answer.chunk != []
      modifies this
      ensures result == match answer case Data(chunk) => |chunk| case End => 0 case Error => -1
      ensures bytes == old(bytes) + (if answer.Data? then |answer.chunk| else 0)
      ensures words == old(words) + (if answer.Data? then Words(answer.chunk) else 0)
      ensures lines == old(lines) + (if answer.Data? then Lines(answer.chunk) else 0)
      ensures answer.Data? ==> words == old(words) + |WordStarts(answer.chunk)|
      ensures answer.Data? ==> lines == old(lines) + multiset(answer.chunk)['\n']
    {
      var inWord := false;
      match answer {
        case End => return 0;
        case Error => return -1;
        case Data(chunk) =>
          WordsAreStarts(chunk);
          LinesAreNewLines(chunk);
          bytes := bytes + |chunk|;
          assert chunk[..|chunk|] == chunk;
          for i := 0 to |chunk|
            invariant bytes == old(bytes) + |chunk|
            invariant lines == old(lines) + Lines(chunk[..i])
            invariant words == old(words) + Words(chunk[..i])
            invariant inWord == (i > 0 && !IsSpace(chunk[i - 1]))
          {
            assert chunk[..i + 1][..i] == chunk[..i];
            if chunk[i] == '\n' {
              lines := lines + 1;
            }
            if !IsSpace(chunk[i]) {
              if !inWord {
                words := words + 1;
                inWord := true;
              }
            } else {
              inWord := false;
            }
          }
          return |chunk|;
      }
    }
  }

  /** One event: a read on its stream, whose counts it brings up to date. */
  method Handle(info: Context, other: Context, e: Event, ghost before: seq<Event>) returns (result: int)
    requires info != other && (e.answer.Data? ==> e.answer.chunk != [])
    requires info.CountsFor(before, e.fromStdout) && other.CountsFor(before, !e.fromStdout)
    modifies info
    ensures info.CountsFor(before + [e], e.fromStdout) && other.CountsFor(before + [e], !e.fromStdout)
    ensures result <= 0 <==> !e.answer.Data?
  {
    OneMoreEvent(before, e, e.fromStdout);
    OneMoreEvent(before, e, !e.fromStdout);
    result := info.Count(e.answer);
  }

  /** The loop of main: the events of both streams in any order; it is done when both streams are closed. */
  method CountBoth(stdout: Context, stderr: Context, events: seq<Event>) returns (done: bool)
    requires stdout != stderr
    requires stdout.bytes == stdout.words == stdout.lines == 0
    requires stderr.bytes == stderr.words == stderr.lines == 0
    requires forall e :: e in events && e.answer.Data? ==> e.answer.chunk != []
    requires NothingAfterClosing(events)
    modifies stdout, stderr
    ensures done <==> Closed(events, true) && Closed(events, false)
    ensures stdout.CountsFor(events, true) && stderr.CountsFor(events, false)
    ensures stdout.bytes == |Text(events, true)| && stderr.bytes == |Text(events, false)|
    ensures stdout.lines == multiset(Text(events, true))['\n'] && stderr.lines == multiset(Text(events, false))['\n']
    ensures stdout.words == |WordStarts(Text(events, true))| + Cuts(events, true)
    ensures stderr.words == |WordStarts(Text(events, false))| + Cuts(events, false)
  {
    var used := 0;
    var active := 2;
    while active > 0 && used < |events|
      invariant used <= |events| && active == Open(events[..used])
      invariant stdout.CountsFor(events[..used], true) && stderr.CountsFor(events[..used], false)
    {
      var e := events[used];
      assert e in events;
      assert events[..used + 1] == events[..used] + [e];
      NextIsOpen(events, used);
      ClosedByNext(events[..used], e, true);
      ClosedByNext(events[..used], e, false);
      var result;
      if e.fromStdout {
        result := Handle(stdout, stderr, e, events[..used]);
      } else {
        result := Handle(stderr, stdout, e, events[..used]);
      }
      if result <= 0 {
        active := active - 1;
      }
      used := used + 1;
    }
    AllAreUsed(events, used);
    assert events[..used] == events;
    Counts(events, true);
    Counts(events, false);
    done := active == 0;
  }

  lemma Counts(events: seq<Event>, fromStdout: bool)
    ensures Lines(Text(events, fromStdout)) == multiset(Text(events, fromStdout))['\n']
    ensures Counted(events, fromStdout) == |WordStarts(Text(events, fromStdout))| + Cuts(events, fromStdout)
  {
    LinesAreNewLines(Text(events, fromStdout));
    WordsAreStarts(Text(events, fromStdout));
    CutsCountTwice(events, fromStdout);
  }

  lemma AllAreUsed(events: seq<Event>, used: nat)
    requires NothingAfterClosing(events) && used <= |events| && (used == |events| || Open(events[..used]) == 0)
    ensures used == |events|
  {
    if used < |events| {
      NextIsOpen(events, used);
    }
  }

  /** The k-th event goes on with a word of its stream. */
  ghost predicate CutsAWord(events: seq<Event>, fromStdout: bool, k: nat)
    requires k < |events|
  {
    var e := events[k];
    e.fromStdout == fromStdout && e.answer.Data? && Cut(Text(events[..k], fromStdout), e.answer.chunk)
  }

  lemma {:induction false} NoCutsExactlyIfNoneCuts(events: seq<Event>, fromStdout: bool)
    ensures Cuts(events, fromStdout) == 0 <==> forall k :: 0 <= k < |events| ==> !CutsAWord(events, fromStdout, k)
  {
    if events != [] {
      var last := |events| - 1;
      var before := events[..last];
      NoCutsExactlyIfNoneCuts(before, fromStdout);
      forall k | 0 <= k < last
        ensures CutsAWord(before, fromStdout, k) == CutsAWord(events, fromStdout, k)
      {
        assert before[..k] == events[..k];
      }
      assert CutsAWord(events, fromStdout, last) <==> Cuts(events, fromStdout) > Cuts(before, fromStdout);
      if k :| 0 <= k < last && CutsAWord(before, fromStdout, k) {
        assert CutsAWord(events, fromStdout, k);
      }
    }
  }

  /** The words counted are the words of the whole text exactly if no chunk boundary cuts a word. */
  lemma CountIsRightExactlyWithoutCuts(events: seq<Event>, fromStdout: bool)
    ensures Counted(events, fromStdout) == Words(Text(events, fromStdout))
            <==> forall k :: 0 <= k < |events| ==> !CutsAWord(events, fromStdout, k)
  {
    CutsCountTwice(events, fromStdout);
    NoCutsExactlyIfNoneCuts(events, fromStdout);
  }
}
