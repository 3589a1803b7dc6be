/**
 * The loops of one process (sems/bogatyri/msgq_bogatyri.c), run without interruption, do
 * exactly what the corresponding steps of the system do.
 */
module MsgqProcess {
  import opened MsgqBogatyri

  function Times(r: nat, k: nat): seq<nat> {
    seq(k, _ => r)
  }

  lemma RunThen(c: Config, s: State, r: nat, k: nat, t: State)
    requires RunTo(c, s, Times(r, k), t) && Enabled(c, t, r)
    ensures RunTo(c, s, Times(r, k + 1), Apply(c, t, r))
  {
    assert RunTo(c, t, [r], Apply(c, t, r)) by {
      assert [r][1..] == [];
      assert RunTo(c, Apply(c, t, r), [], Apply(c, t, r));
    }
    RunConcat(c, s, Times(r, k), t, [r], Apply(c, t, r));
    assert Times(r, k) + [r] == Times(r, k + 1);
  }

  /** The System V queue: a bounded list of typed messages. */
  class MessageQueue {
    var messages: seq<Message>
    const capacity: nat

    constructor (capacity: nat)
      ensures messages == [] && this.capacity == capacity
    {
      messages := [];
      this.capacity := capacity;
    }

    /** msgsnd with IPC_NOWAIT: false is EAGAIN. */
    method SendNoWait(msg: Message) returns (ok: bool)
      modifies this
      ensures ok == (old(|messages|) < capacity)
      ensures messages == if ok then old(messages) + [msg] else old(messages)
    {
      ok := |messages| < capacity;
      if ok {
        messages := messages + [msg];
      }
    }

    /** msgrcv for one type, when a message of that type is there. */
    method Receive(mtype: nat) returns (msg: Message)
      requires exists m :: 0 <= m < |messages| && messages[m].mtype == mtype
      modifies this
      ensures msg.mtype == mtype
      ensures exists m :: 0 <= m < |old(messages)| && old(messages)[m] == msg
                && (forall j :: 0 <= j < m ==> old(messages)[j].mtype != mtype)
                && messages == old(messages)[..m] + old(messages)[m + 1..]
    {
      var m := 0;
      while messages[m].mtype != mtype
        invariant m < |messages|
        invariant forall j :: 0 <= j < m ==> messages[j].mtype != mtype
        invariant messages == old(messages)
        decreases |messages| - m
      {
        m := m + 1;
      }
      msg := messages[m];
      messages := messages[..m] + messages[m + 1..];
    }
  }

  /** broadcast_eof_to_all: the whole loop, as n steps of process r. */
  method BroadcastEofToAll(queue: MessageQueue, r: nat, n: nat, ghost c: Config, ghost s: State)
    requires c.n == n && c.cap == queue.capacity && s.queue == queue.messages
    requires r < |s.procs| && s.procs[r] == Broadcasting(0)
    modifies queue
    ensures RunTo(c, s, Times(r, n), s.(procs := s.procs[r := Broadcasting(n)], queue := queue.messages))
    ensures |old(queue.messages)| <= |queue.messages|
    ensures queue.messages[..|old(queue.messages)|] == old(queue.messages)
    ensures forall m :: |old(queue.messages)| <= m < |queue.messages| ==>
              queue.messages[m].Eof? && 1 <= queue.messages[m].mtype <= n && queue.messages[m].mtype != r + 1
  {
    var i := 0;
    ghost var t := s;
    while i < n
      invariant i <= n
      invariant t == s.(procs := s.procs[r := Broadcasting(i)], queue := queue.messages)
      invariant RunTo(c, s, Times(r, i), t)
      invariant |old(queue.messages)| <= |queue.messages|
      invariant queue.messages[..|old(queue.messages)|] == old(queue.messages)
      invariant forall m :: |old(queue.messages)| <= m < |queue.messages| ==>
                  queue.messages[m].Eof? && 1 <= queue.messages[m].mtype <= n && queue.messages[m].mtype != r + 1
    {
      RunThen(c, s, r, i, t);
      t := Apply(c, t, r);
      if i != r {
        var _ := queue.SendNoWait(Eof(i + 1));
      }
      i := i + 1;
    }
  }

  /** process_my_characters_sequence: prints the longest stretch of the process's own characters. */
  method ProcessMyCharactersSequence(text: seq<nat>, start: nat, r: nat, ghost c: Config, ghost s: State)
    returns (index: nat, printed: seq<nat>)
    requires start <= |text| && c.text == text
    requires r < |s.procs| && s.procs[r] == Singing(start)
    ensures start <= index <= |text| && printed == text[start..index]
    ensures forall j :: start <= j < index ==> text[j] == r
    ensures index < |text| ==> text[index] != r
    ensures RunTo(c, s, Times(r, index - start), s.(procs := s.procs[r := Singing(index)], out := s.out + printed))
  {
    index, printed := start, [];
    ghost var t := s;
    while index < |text| && text[index] == r
      invariant start <= index <= |text| && printed == text[start..index]
      invariant forall j :: start <= j < index ==> text[j] == r
      invariant t == s.(procs := s.procs[r := Singing(index)], out := s.out + printed)
      invariant RunTo(c, s, Times(r, index - start), t)
    {
      RunThen(c, s, r, index - start, t);
      t := Apply(c, t, r);
      printed := printed + [text[index]];
      index := index + 1;
    }
  }
}
