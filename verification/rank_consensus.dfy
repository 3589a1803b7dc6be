/** In-place exchange sort, and why two sorted arrangements of the same values agree. */
module ExchangeSort {

  ghost predicate Sorted(s: seq<int>) {
    forall i, j :: 0 <= i <= j < |s| ==> s[i] <= s[j]
  }

  lemma SwapKeepsValues(s: seq<int>, lo: nat, hi: nat, i: nat, j: nat)
    requires lo <= i < j < hi <= |s|
    ensures multiset(s[i := s[j]][j := s[i]][lo..hi]) == multiset(s[lo..hi])
  {
    var t := s[i := s[j]][j := s[i]];
    var x, y, mid := [s[i]], [s[j]], s[i + 1..j];
    assert s[lo..hi] == s[lo..i] + x + mid + y + s[j + 1..hi];
    assert t[lo..hi] == s[lo..i] + y + mid + x + s[j + 1..hi];
  }

  method Swap(a: array<int>, lo: nat, hi: nat, i: nat, j: nat)
    requires lo <= i < j < hi <= a.Length
    modifies a
    ensures a[i] == old(a[j]) && a[j] == old(a[i])
    ensures forall k :: 0 <= k < a.Length && k != i && k != j ==> a[k] == old(a[k])
    ensures multiset(a[lo..hi]) == multiset(old(a[lo..hi]))
  {
    SwapKeepsValues(a[..], lo, hi, i, j);
    ghost var s := a[..];
    assert a[lo..hi] == s[lo..hi];
    a[i], a[j] := a[j], a[i];
    assert a[..] == s[i := s[j]][j := s[i]];
    assert a[lo..hi] == a[..][lo..hi];
  }

  /** The segment holds the same values as before, and nothing outside it has changed. */
  twostate predicate Rearranged(a: array<int>, lo: nat, hi: nat)
    requires lo <= hi <= a.Length
    reads a
  {
    && multiset(a[lo..hi]) == multiset(old(a[lo..hi]))
    && forall k :: (0 <= k < lo || hi <= k < a.Length) ==> a[k] == old(a[k])
  }

  /** Everything before i is sorted and not above anything after it. */
  ghost predicate SettledUpTo(a: array<int>, lo: nat, hi: nat, i: nat)
    requires lo <= i <= hi <= a.Length
    reads a
  {
    forall p, q :: lo <= p < i && p <= q < hi ==> a[p] <= a[q]
  }

  /** The inner loop: afterwards a[i] is the least of a[i..hi]. */
  method SettleOne(a: array<int>, lo: nat, hi: nat, i: nat)
    requires lo <= i < hi <= a.Length && SettledUpTo(a, lo, hi, i)
    modifies a
    ensures SettledUpTo(a, lo, hi, i + 1) && Rearranged(a, lo, hi)
  {
    var j := i + 1;
    while j < hi
      invariant i < j <= hi
      invariant SettledUpTo(a, lo, hi, i)
      invariant forall q :: i <= q < j ==> a[i] <= a[q]
      invariant Rearranged(a, lo, hi)
    {
      if a[i] > a[j] {
        Swap(a, lo, hi, i, j);
      }
      j := j + 1;
    }
  }

  /** Sorts a[lo..hi] in place and touches nothing else. */
  method SortSegment(a: array<int>, lo: nat, hi: nat)
    requires lo <= hi <= a.Length
    modifies a
    ensures Sorted(a[lo..hi]) && Rearranged(a, lo, hi)
  {
    var i := lo;
    while i < hi
      invariant lo <= i <= hi
      invariant SettledUpTo(a, lo, hi, i) && Rearranged(a, lo, hi)
    {
      SettleOne(a, lo, hi, i);
      i := i + 1;
    }
  }

  lemma {:induction false} SortedIsUnique(s: seq<int>, t: seq<int>)
    requires Sorted(s) && Sorted(t) && multiset(s) == multiset(t)
    ensures s == t
  {
    assert |s| == |multiset(s)| == |multiset(t)| == |t|;
    if s != [] {
      assert s[0] in multiset(t) && t[0] in multiset(s);
      assert s[0] == t[0];
      assert s == [s[0]] + s[1..] && t == [t[0]] + t[1..];
      assert multiset(s[1..]) == multiset(s) - multiset{s[0]};
      assert multiset(t[1..]) == multiset(t) - multiset{t[0]};
      SortedIsUnique(s[1..], t[1..]);
    }
  }
}

/**
 * How the processes agree on ranks (sems/bogatyri/msgq_bogatyri.c, get_my_rank): each appends
 * its pid to a registry, waits until all have, sorts what it reads and looks itself up.
 */
module RankConsensus {
  import opened ExchangeSort
  import opened Sums

  /** sort_pids */
  method SortPids(pids: array<int>, count: nat)
    requires count <= pids.Length
    modifies pids
    ensures Sorted(pids[..count]) && multiset(pids[..count]) == multiset(old(pids[..count]))
    ensures pids[count..] == old(pids[count..])
  {
    SortSegment(pids, 0, count);
    assert pids[0..count] == pids[..count];
    assert old(pids[0..count]) == old(pids[..count]);
  }

  /** find_my_rank_in_sorted_pids; the length stands for "not found", where the code exits. */
  method FindMyRank(pids: seq<int>, pid: int) returns (rank: nat)
    ensures rank <= |pids|
    ensures rank < |pids| ==> pids[rank] == pid
    ensures pid !in pids[..rank]
  {
    rank := 0;
    while rank < |pids| && pids[rank] != pid
      invariant rank <= |pids| && pid !in pids[..rank]
    {
      rank := rank + 1;
    }
  }

  ghost function Smaller(pids: seq<int>, pid: int): set<int> {
    set q | q in pids && q < pid
  }

  ghost predicate Distinct(s: seq<int>) {
    forall i, j :: 0 <= i < j < |s| ==> s[i] != s[j]
  }

  ghost function Values(s: seq<int>): set<int> {
    set q | q in s
  }

  lemma {:induction false} SizeOfPrefix(s: seq<int>, k: nat)
    requires Distinct(s) && k <= |s|
    ensures |Values(s[..k])| == k
  {
    if k > 0 {
      SizeOfPrefix(s, k - 1);
      assert Values(s[..k]) == Values(s[..k - 1]) + {s[k - 1]};
      assert s[k - 1] !in s[..k - 1];
    }
  }

  lemma DistinctByMultiset(s: seq<int>, t: seq<int>)
    requires Distinct(s) && multiset(s) == multiset(t)
    ensures Distinct(t)
  {
    forall i, j | 0 <= i < j < |t| ensures t[i] != t[j] {
      if t[i] == t[j] {
        assert t == t[..i] + [t[i]] + t[i + 1..j] + [t[j]] + t[j + 1..];
        assert multiset(t)[t[i]] >= 2;
        OccursOnce(s, t[i]);
        assert false;
      }
    }
  }

  lemma {:induction false} OccursOnce(s: seq<int>, v: int)
    requires Distinct(s)
    ensures multiset(s)[v] <= 1
  {
    if s != [] {
      var k := |s| - 1;
      OccursOnce(s[..k], v);
      assert s == s[..k] + [s[k]];
      if s[k] == v {
        assert v !in s[..k];
      }
    }
  }

  /** In a sorted arrangement of distinct pids, the position of a pid is the number of smaller ones. */
  lemma PositionCountsSmaller(sorted: seq<int>, pids: seq<int>, k: nat)
    requires Sorted(sorted) && multiset(sorted) == multiset(pids) && Distinct(pids)
    requires k < |sorted|
    ensures k == |Smaller(pids, sorted[k])|
  {
    DistinctByMultiset(pids, sorted);
    SizeOfPrefix(sorted, k);
    forall q ensures q in Smaller(pids, sorted[k]) <==> q in sorted[..k] {
      assert q in pids <==> q in multiset(pids) <==> q in multiset(sorted) <==> q in sorted;
    }
    assert Smaller(pids, sorted[k]) == Values(sorted[..k]);
  }

  /** get_my_rank after the wait: read the registry into an array, sort it, look up the own pid. */
  method RankIn(registry: seq<int>, pid: int) returns (rank: nat)
    requires Distinct(registry) && pid in registry
    ensures rank == |Smaller(registry, pid)|
    ensures rank < |registry|
  {
    var pids := new int[|registry|](i requires 0 <= i < |registry| => registry[i]);
    assert pids[..] == registry;
    assert pids[..pids.Length] == registry;
    SortPids(pids, pids.Length);
    ghost var sorted := pids[..];
    assert sorted == pids[..pids.Length];
    assert pid in multiset(registry);
    assert pid in sorted;
    rank := FindMyRank(pids[..], pid);
    assert sorted[..rank] == pids[..rank];
    assert sorted[..|sorted|] == sorted;
    assert rank < |sorted|;
    assert |multiset(sorted)| == |multiset(registry)|;
    PositionCountsSmaller(sorted, registry, rank);
  }

  // ----- The interleavings of registering, polling and reading -----

  datatype Process = Fresh | Polling | Reading | Ranked(rank: nat) | Failed

  datatype State = State(registry: seq<int>, procs: seq<Process>)

  function Init(pids: seq<int>): State {
    State([], seq(|pids|, _ => Fresh))
  }

  /** Process r moves: one locked append, one poll, or one read of the registry. */
  ghost function Apply(pids: seq<int>, s: State, r: nat): State
    requires r < |s.procs| == |pids|
  {
    match s.procs[r]
    case Fresh => State(s.registry + [pids[r]], s.procs[r := Polling])
    case Polling => if |s.registry| < |pids| then s else s.(procs := s.procs[r := Reading])
    case Reading =>
      s.(procs := s.procs[r := if |s.registry| != |pids| || pids[r] !in s.registry then Failed
                               else Ranked(|Smaller(s.registry, pids[r])|)])
    case _ => s
  }

  ghost predicate RunTo(pids: seq<int>, s: State, run: seq<nat>, t: State)
    decreases |run|
  {
    if run == [] then s == t
    else run[0] < |s.procs| == |pids| && RunTo(pids, Apply(pids, s, run[0]), run[1..], t)
  }

  function Registered(pids: seq<int>, procs: seq<Process>): multiset<int>
    requires |procs| <= |pids|
  {
    if procs == [] then multiset{}
    else Registered(pids, procs[..|procs| - 1])
           + (if procs[|procs| - 1].Fresh? then multiset{} else multiset{pids[|procs| - 1]})
  }

  /** What process r has yet to register. */
  function Unregistered(pids: seq<int>, procs: seq<Process>, r: nat): multiset<int>
    requires r < |procs| <= |pids|
  {
    if procs[r].Fresh? then multiset{pids[r]} else multiset{}
  }

  lemma Regroup(x: multiset<int>, y: multiset<int>, z: multiset<int>)
    ensures x + z + y == x + y + z
  {
  }

  lemma {:induction false} RegisteredUpdate(pids: seq<int>, procs: seq<Process>, r: nat, p: Process)
    requires r < |procs| <= |pids| && !p.Fresh?
    ensures Registered(pids, procs[r := p])
         == Registered(pids, procs) + Unregistered(pids, procs, r)
  {
    var last := |procs| - 1;
    var q := procs[r := p];
    if r == last {
      assert q[..last] == procs[..last];
    } else {
      assert q[..last] == procs[..last][r := p] && q[last] == procs[last];
      RegisteredUpdate(pids, procs[..last], r, p);
      var own := if procs[last].Fresh? then multiset{} else multiset{pids[last]};
      Regroup(Registered(pids, procs[..last]), own, Unregistered(pids, procs, r));
    }
  }

  lemma {:induction false} AllRegistered(pids: seq<int>, procs: seq<Process>)
    requires |procs| <= |pids|
    ensures Registered(pids, procs) <= multiset(pids[..|procs|])
    ensures |Registered(pids, procs)| == |procs| ==> Registered(pids, procs) == multiset(pids[..|procs|])
  {
    if procs != [] {
      var last := |procs| - 1;
      AllRegistered(pids, procs[..last]);
      assert pids[..last + 1] == pids[..last] + [pids[last]];
      assert |multiset(pids[..last])| == last;
      SubsetSize(Registered(pids, procs[..last]), multiset(pids[..last]));
    }
  }

  lemma SubsetSize(a: multiset<int>, b: multiset<int>)
    requires a <= b
    ensures |a| <= |b|
  {
    assert b == a + (b - a);
  }

  ghost predicate Inv(pids: seq<int>, s: State) {
    && |s.procs| == |pids|
    && multiset(s.registry) == Registered(pids, s.procs)
    && forall r :: 0 <= r < |s.procs| ==>
         && !s.procs[r].Failed?
         && (s.procs[r].Reading? || s.procs[r].Ranked? ==> multiset(s.registry) == multiset(pids))
         && (s.procs[r].Ranked? ==> s.procs[r].rank == |Smaller(pids, pids[r])|)
  }

  lemma {:induction false} NobodyRegistered(pids: seq<int>, procs: seq<Process>)
    requires |procs| <= |pids| && forall r :: 0 <= r < |procs| ==> procs[r].Fresh?
    ensures Registered(pids, procs) == multiset{}
  {
    if procs != [] {
      NobodyRegistered(pids, procs[..|procs| - 1]);
    }
  }

  lemma FullRegistry(pids: seq<int>, s: State)
    requires Inv(pids, s) && |s.registry| >= |pids|
    ensures multiset(s.registry) == multiset(pids) && |s.registry| == |pids|
  {
    AllRegistered(pids, s.procs);
    assert pids[..|s.procs|] == pids;
    assert |multiset(s.registry)| == |s.registry| && |multiset(pids)| == |pids|;
    SubsetSize(Registered(pids, s.procs), multiset(pids));
  }

  lemma SameSmaller(a: seq<int>, b: seq<int>, pid: int)
    requires multiset(a) == multiset(b)
    ensures Smaller(a, pid) == Smaller(b, pid)
    ensures pid in a <==> pid in b
  {
    forall q ensures q in a <==> q in b {
      assert q in a <==> q in multiset(a) <==> q in multiset(b) <==> q in b;
    }
  }

  lemma RegisterKeepsInv(pids: seq<int>, s: State, r: nat)
    requires Inv(pids, s) && r < |pids| && s.procs[r].Fresh?
    ensures Inv(pids, Apply(pids, s, r))
  {
    var t := Apply(pids, s, r);
    RegisteredUpdate(pids, s.procs, r, Polling);
    AllRegistered(pids, t.procs);
    assert pids[..|pids|] == pids;
    SubsetSize(multiset(t.registry), multiset(pids));
    assert |multiset(t.registry)| == |t.registry| && |multiset(s.registry)| == |s.registry|;
    assert |multiset(pids)| == |pids|;
    assert multiset(s.registry) != multiset(pids);
  }

  lemma PollKeepsInv(pids: seq<int>, s: State, r: nat)
    requires Inv(pids, s) && r < |pids| && s.procs[r].Polling?
    ensures Inv(pids, Apply(pids, s, r))
  {
    if |s.registry| >= |pids| {
      FullRegistry(pids, s);
      RegisteredUpdate(pids, s.procs, r, Reading);
    }
  }

  lemma ReadKeepsInv(pids: seq<int>, s: State, r: nat)
    requires Inv(pids, s) && r < |pids| && s.procs[r].Reading?
    ensures Inv(pids, Apply(pids, s, r))
  {
    SameSmaller(s.registry, pids, pids[r]);
    assert |multiset(s.registry)| == |s.registry| && |multiset(pids)| == |pids|;
    RegisteredUpdate(pids, s.procs, r, Apply(pids, s, r).procs[r]);
  }

  lemma StepKeepsInv(pids: seq<int>, s: State, r: nat)
    requires Inv(pids, s) && r < |pids|
    ensures Inv(pids, Apply(pids, s, r))
  {
    match s.procs[r]
    case Fresh => RegisterKeepsInv(pids, s, r);
    case Polling => PollKeepsInv(pids, s, r);
    case Reading => ReadKeepsInv(pids, s, r);
    case _ =>
  }

  lemma {:induction false} RunKeepsInv(pids: seq<int>, s: State, run: seq<nat>, t: State)
    requires Inv(pids, s) && RunTo(pids, s, run, t)
    ensures Inv(pids, t)
    decreases |run|
  {
    if run != [] {
      StepKeepsInv(pids, s, run[0]);
      RunKeepsInv(pids, Apply(pids, s, run[0]), run[1..], t);
    }
  }

  /** In every interleaving each rank is the number of smaller pids; nobody takes an error exit. */
  lemma RanksAgree(pids: seq<int>, run: seq<nat>, t: State)
    requires RunTo(pids, Init(pids), run, t)
    ensures |t.procs| == |pids| && forall r :: 0 <= r < |t.procs| ==> !t.procs[r].Failed?
    ensures forall r :: 0 <= r < |t.procs| && t.procs[r].Ranked? ==> t.procs[r].rank == |Smaller(pids, pids[r])|
  {
    NobodyRegistered(pids, Init(pids).procs);
    RunKeepsInv(pids, Init(pids), run, t);
  }

  lemma {:induction false} RegisteredSize(pids: seq<int>, procs: seq<Process>)
    requires |procs| <= |pids| && forall r :: 0 <= r < |procs| ==> !procs[r].Fresh?
    ensures |Registered(pids, procs)| == |procs|
  {
    if procs != [] {
      RegisteredSize(pids, procs[..|procs| - 1]);
    }
  }

  lemma FreshMoves(pids: seq<int>, s: State, r: nat)
    requires r < |s.procs| == |pids|
    ensures s.procs[r].Fresh? ==> Apply(pids, s, r) != s
  {
    if s.procs[r].Fresh? {
      assert |Apply(pids, s, r).registry| == |s.registry| + 1;
    }
  }

  /** The wait ends for everybody: where no move changes anything any more, all have their rank. */
  lemma NobodyIsLeftWaiting(pids: seq<int>, run: seq<nat>, t: State)
    requires RunTo(pids, Init(pids), run, t)
    requires |t.procs| == |pids| && forall r :: 0 <= r < |pids| ==> Apply(pids, t, r) == t
    ensures forall r :: 0 <= r < |pids| ==> t.procs[r].Ranked?
  {
    NobodyRegistered(pids, Init(pids).procs);
    RunKeepsInv(pids, Init(pids), run, t);
    forall r | 0 <= r < |pids| ensures !t.procs[r].Fresh? {
      assert Apply(pids, t, r) == t;
      FreshMoves(pids, t, r);
    }
    RegisteredSize(pids, t.procs);
    assert |multiset(t.registry)| == |t.registry|;
    forall r | 0 <= r < |pids| ensures t.procs[r].Ranked? {
      assert Apply(pids, t, r) == t;
      assert Apply(pids, t, r).procs[r] == t.procs[r];
    }
  }

  function Weight(p: Process): int {
    match p
    case Fresh => 3
    case Polling => 2
    case Reading => 1
    case _ => 0
  }

  function Weights(procs: seq<Process>): seq<int> {
    seq(|procs|, r requires 0 <= r < |procs| => Weight(procs[r]))
  }

  /** How many steps of a run change anything; a poll that finds others missing does not. */
  ghost function Moves(pids: seq<int>, s: State, run: seq<nat>): nat
    requires |s.procs| == |pids| && forall k :: 0 <= k < |run| ==> run[k] < |pids|
    decreases |run|
  {
    if run == [] then 0
    else
      var t := Apply(pids, s, run[0]);
      (if t == s then 0 else 1) + Moves(pids, t, run[1..])
  }

  lemma MoveLowersMeasure(pids: seq<int>, s: State, r: nat)
    requires r < |s.procs| == |pids| && Apply(pids, s, r) != s
    ensures Sum(Weights(Apply(pids, s, r).procs)) < Sum(Weights(s.procs))
  {
    var t := Apply(pids, s, r);
    assert Weights(t.procs) == Weights(s.procs)[r := Weight(t.procs[r])];
    SumUpdate(Weights(s.procs), r, Weight(t.procs[r]));
  }

  lemma {:induction false} MovesAreBounded(pids: seq<int>, s: State, run: seq<nat>)
    requires |s.procs| == |pids| && forall k :: 0 <= k < |run| ==> run[k] < |pids|
    ensures Moves(pids, s, run) <= Sum(Weights(s.procs))
    decreases |run|
  {
    if run == [] {
      SumNonNegative(Weights(s.procs));
    } else {
      var t := Apply(pids, s, run[0]);
      MovesAreBounded(pids, t, run[1..]);
      if t != s {
        MoveLowersMeasure(pids, s, run[0]);
      }
    }
  }

  /** Registering, the end of the wait and the reading: in any run no more than three moves a process. */
  lemma AtMostThreeMovesEach(pids: seq<int>, run: seq<nat>)
    requires forall k :: 0 <= k < |run| ==> run[k] < |pids|
    ensures Moves(pids, Init(pids), run) <= 3 * |pids|
  {
    MovesAreBounded(pids, Init(pids), run);
    SumConstant(Weights(Init(pids).procs), 3);
  }

  ghost predicate Taken(procs: seq<Process>, k: nat) {
    exists r :: 0 <= r < |procs| && procs[r] == Ranked(k)
  }

  /** Once all have a rank, the ranks are exactly 0..n-1, each taken once. */
  lemma RanksAreABijection(pids: seq<int>, run: seq<nat>, t: State)
    requires Distinct(pids) && RunTo(pids, Init(pids), run, t)
    requires |t.procs| == |pids| && forall r :: 0 <= r < |pids| ==> t.procs[r].Ranked?
    ensures forall r, q :: 0 <= r < q < |pids| ==> t.procs[r].rank != t.procs[q].rank
    ensures forall r :: 0 <= r < |pids| ==> t.procs[r].rank < |pids|
    ensures forall k :: 0 <= k < |pids| ==> Taken(t.procs, k)
  {
    RanksAgree(pids, run, t);
    var sorted := SortedArrangement(pids);
    assert |multiset(sorted)| == |multiset(pids)|;
    forall k | 0 <= k < |pids| ensures k == |Smaller(pids, sorted[k])| {
      PositionCountsSmaller(sorted, pids, k);
    }
    forall k | 0 <= k < |pids| ensures Taken(t.procs, k) {
      assert sorted[k] in multiset(pids);
      var r :| 0 <= r < |pids| && pids[r] == sorted[k];
      assert t.procs[r] == Ranked(k);
    }
    forall r | 0 <= r < |pids| ensures exists k :: 0 <= k < |pids| && sorted[k] == pids[r] && t.procs[r].rank == k {
      assert pids[r] in multiset(sorted);
      var k :| 0 <= k < |sorted| && sorted[k] == pids[r];
      assert t.procs[r].rank == k;
    }
  }

  lemma {:induction false} SortedArrangement(s: seq<int>) returns (t: seq<int>)
    ensures Sorted(t) && multiset(t) == multiset(s)
  {
    if s == [] {
      t := [];
    } else {
      var k := |s| - 1;
      var u := SortedArrangement(s[..k]);
      assert s == s[..k] + [s[k]];
      t := Inserted(u, s[k]);
    }
  }

  lemma {:induction false} Inserted(u: seq<int>, v: int) returns (t: seq<int>)
    requires Sorted(u)
    ensures Sorted(t) && multiset(t) == multiset(u) + multiset{v}
  {
    if u == [] || v <= u[0] {
      t := [v] + u;
    } else {
      var rest := Inserted(u[1..], v);
      assert u == [u[0]] + u[1..];
      t := [u[0]] + rest;
      forall j | 0 <= j < |rest| ensures u[0] <= rest[j] {
        assert rest[j] in multiset(rest);
        if rest[j] != v {
          assert rest[j] in u[1..];
        }
      }
    }
  }
}
