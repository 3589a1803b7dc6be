/**
 * The merge of the slices that the threads have sorted, and the whole program
 * (sems/mergesort/mergesort.c), for any array length m and any number n of threads.
 */
module MergeSort {
  import opened ExchangeSort
  import opened SliceSort
  import opened MergeOrder

  // ----- The merge -----

  /** find_min_in_current_slice: the first slice with the least current element below INT_MAX, or n. */
  method FindMin(a: array<int>, indices: array<nat>, ends: array<nat>, n: nat,
                 ghost s: seq<int>, ghost at: seq<nat>, ghost hi: seq<nat>) returns (target: nat)
    requires a[..] == s && indices[..] == at && ends[..] == hi && |at| == |hi| == n
    requires forall i :: 0 <= i < n ==> at[i] <= hi[i] <= |s|
    ensures target <= n
    ensures target < n ==> FirstLeast(s, at, hi, target)
    ensures target == n ==> UsedUp(s, at, hi)
  {
    target := 0;
    var minVal, found := INT_MAX, false;
    for i := 0 to n
      invariant found ==> target < n && at[target] < hi[target] && minVal == s[at[target]] < INT_MAX
      invariant !found ==> minVal == INT_MAX
      invariant forall j :: 0 <= j < i && at[j] < hi[j] ==> minVal <= s[at[j]]
      invariant found ==> forall j :: 0 <= j < target && at[j] < hi[j] ==> minVal < s[at[j]]
    {
      assert indices[i] == at[i] && ends[i] == hi[i];
      if indices[i] < ends[i] {
        var temp := a[indices[i]];
        if temp < minVal {
          minVal, target, found := temp, i, true;
        }
      }
    }
    if !found {
      target := n;
    }
  }

  /** The values in cells lo[j]..hi[j] of the slices j below k. */
  function Values(a: seq<int>, lo: seq<nat>, hi: seq<nat>, k: nat): multiset<int>
    requires k <= |lo| == |hi| && forall j :: 0 <= j < |lo| ==> lo[j] <= hi[j] <= |a|
  {
    if k == 0 then multiset{} else Values(a, lo, hi, k - 1) + multiset(a[lo[k - 1]..hi[k - 1]])
  }

  lemma OneMoreValue(a: seq<int>, lo: nat, hi: nat)
    requires lo <= hi < |a|
    ensures multiset(a[lo..hi + 1]) == multiset(a[lo..hi]) + multiset{a[hi]}
  {
    assert a[lo..hi + 1] == a[lo..hi] + [a[hi]];
  }

  lemma ValuesJoin(a: seq<int>, lo: nat, mid: nat, hi: nat)
    requires lo <= mid <= hi <= |a|
    ensures multiset(a[lo..hi]) == multiset(a[lo..mid]) + multiset(a[mid..hi])
  {
    assert a[lo..hi] == a[lo..mid] + a[mid..hi];
  }

  lemma {:induction false} ValuesFrame(a: seq<int>, lo: seq<nat>, hi: seq<nat>, hi': seq<nat>, k: nat)
    requires k <= |lo| == |hi| == |hi'|
    requires forall i :: 0 <= i < |lo| ==> lo[i] <= hi[i] <= |a| && lo[i] <= hi'[i] <= |a|
    requires forall i :: 0 <= i < k ==> hi[i] == hi'[i]
    ensures Values(a, lo, hi', k) == Values(a, lo, hi, k)
  {
    if k > 0 {
      ValuesFrame(a, lo, hi, hi', k - 1);
    }
  }

  /** One slice more: x is what the slices before it hold, with or without the element e. */
  lemma OneMoreSlice(a: seq<int>, lo: seq<nat>, hi: seq<nat>, k: nat, x: multiset<int>, slice: multiset<int>)
    requires 0 < k <= |lo| == |hi| && forall i :: 0 <= i < |lo| ==> lo[i] <= hi[i] <= |a|
    requires Values(a, lo, hi, k - 1) == x && multiset(a[lo[k - 1]..hi[k - 1]]) == slice
    ensures Values(a, lo, hi, k) == x + slice
  {
  }

  lemma {:induction false} ValuesAdvanceTo(a: seq<int>, lo: seq<nat>, hi: seq<nat>, hi': seq<nat>, k: nat, j: nat)
    requires j < k <= |lo| == |hi| == |hi'|
    requires forall i :: 0 <= i < |lo| ==> lo[i] <= hi[i] <= hi'[i] <= |a|
    requires hi'[j] == hi[j] + 1 && forall i :: 0 <= i < |lo| && i != j ==> hi'[i] == hi[i]
    ensures Values(a, lo, hi', k) == Values(a, lo, hi, k) + multiset{a[hi[j]]}
  {
    var i := k - 1;
    var x, slice, e := Values(a, lo, hi, i), multiset(a[lo[i]..hi[i]]), multiset{a[hi[j]]};
    Regroup(x, slice, e);
    OneMoreSlice(a, lo, hi, k, x, slice);
    if j == i {
      ValuesFrame(a, lo, hi, hi', i);
      OneMoreValue(a, lo[j], hi[j]);
      OneMoreSlice(a, lo, hi', k, x, slice + e);
    } else {
      assert hi'[i] == hi[i];
      ValuesAdvanceTo(a, lo, hi, hi', i, j);
      OneMoreSlice(a, lo, hi', k, x + e, slice);
    }
  }

  lemma ValuesAdvance(a: seq<int>, lo: seq<nat>, hi: seq<nat>, k: nat, j: nat)
    requires j < k <= |lo| == |hi| && forall i :: 0 <= i < |lo| ==> lo[i] <= hi[i] <= |a|
    requires hi[j] < |a|
    ensures Values(a, lo, hi[j := hi[j] + 1], k) == Values(a, lo, hi, k) + multiset{a[hi[j]]}
  {
    ValuesAdvanceTo(a, lo, hi, hi[j := hi[j] + 1], k, j);
  }

  lemma Regroup(x: multiset<int>, y: multiset<int>, z: multiset<int>)
    ensures x + (y + z) == x + y + z
    ensures x + z + y == x + y + z
  {
  }

  lemma {:induction false} ValuesSplit(a: seq<int>, lo: seq<nat>, mid: seq<nat>, hi: seq<nat>, k: nat)
    requires k <= |lo| == |mid| == |hi|
    requires forall i :: 0 <= i < |lo| ==> lo[i] <= mid[i] <= hi[i] <= |a|
    ensures Values(a, lo, hi, k) == Values(a, lo, mid, k) + Values(a, mid, hi, k)
  {
    if k > 0 {
      ValuesSplit(a, lo, mid, hi, k - 1);
      ValuesJoin(a, lo[k - 1], mid[k - 1], hi[k - 1]);
    }
  }

  lemma {:induction false} ValuesNowhere(a: seq<int>, lo: seq<nat>, hi: seq<nat>, k: nat)
    requires k <= |lo| == |hi| && forall j :: 0 <= j < |lo| ==> lo[j] == hi[j] <= |a|
    ensures Values(a, lo, hi, k) == multiset{}
  {
    if k > 0 {
      ValuesNowhere(a, lo, hi, k - 1);
    }
  }

  lemma {:induction false} ValuesAllMax(a: seq<int>, lo: seq<nat>, hi: seq<nat>, k: nat, v: int)
    requires k <= |lo| == |hi| && forall j :: 0 <= j < |lo| ==> lo[j] <= hi[j] <= |a|
    requires forall j, p :: 0 <= j < |lo| && lo[j] <= p < hi[j] ==> a[p] != v
    ensures Values(a, lo, hi, k)[v] == 0
  {
    if k > 0 {
      ValuesAllMax(a, lo, hi, k - 1, v);
      assert v !in a[lo[k - 1]..hi[k - 1]];
    }
  }

  /** lo and hi are the slice boundaries that merge sets up. */
  predicate Boundaries(m: nat, n: nat, lo: seq<nat>, hi: seq<nat>) {
    |lo| == |hi| == n && forall j :: 0 <= j < n ==> lo[j] == Start(m, n, j) <= End(m, n, j) == hi[j] <= m
  }

  lemma {:induction false} SlicesTile(a: seq<int>, n: nat, lo: seq<nat>, hi: seq<nat>, k: nat)
    requires n > 0 && k <= n && Boundaries(|a|, n, lo, hi)
    ensures Start(|a|, n, k) <= |a|
    ensures Values(a, lo, hi, k) == multiset(a[..if k == n then |a| else Start(|a|, n, k)])
  {
    SlicesFit(|a|, n, k, n);
    if k > 0 {
      SlicesTile(a, n, lo, hi, k - 1);
      var e := if k == n then |a| else Start(|a|, n, k);
      ValuesJoin(a, 0, lo[k - 1], e);
      assert a[0..lo[k - 1]] == a[..lo[k - 1]] && a[0..e] == a[..e];
    }
  }

  /** Slice j, as merge sees it, is sorted. */
  ghost predicate SliceSorted(a: seq<int>, n: nat, j: nat)
    requires j < n
  {
    SlicesFit(|a|, n, j, n);
    Sorted(a[Start(|a|, n, j)..End(|a|, n, j)])
  }

  ghost predicate AllSlicesSorted(a: seq<int>, n: nat) {
    forall j :: 0 <= j < n ==> SliceSorted(a, n, j)
  }

  /** The output positions that merge has given to the elements of each slice, in slice order. */
  ghost predicate Placed(a: seq<int>, lo: seq<nat>, at: seq<nat>, out: seq<int>, places: seq<seq<nat>>)
  {
    && |lo| == |at| == |places|
    && forall j :: 0 <= j < |lo| ==> PlacedSlice(a, lo[j], at[j], out, places[j])
  }

  ghost predicate PlacedSlice(a: seq<int>, lo: nat, at: nat, out: seq<int>, places: seq<nat>)
  {
    && lo <= at <= |a| && |places| == at - lo
    && (forall d :: 0 <= d < |places| ==> places[d] < |out| && out[places[d]] == a[lo + d])
    && (forall d, e :: 0 <= d < e < |places| ==> places[d] < places[e])
  }

  lemma PlaceOne(a: seq<int>, lo: seq<nat>, at: seq<nat>, out: seq<int>, places: seq<seq<nat>>, j: nat)
    requires Placed(a, lo, at, out, places) && j < |lo| && at[j] < |a|
    ensures Placed(a, lo, at[j := at[j] + 1], out + [a[at[j]]], places[j := places[j] + [|out|]])
  {
    var longer := out + [a[at[j]]];
    forall i | 0 <= i < |lo|
      ensures PlacedSlice(a, lo[i], at[j := at[j] + 1][i], longer, places[j := places[j] + [|out|]][i])
    {
      assert PlacedSlice(a, lo[i], at[i], out, places[i]);
      assert forall d :: 0 <= d < |places[i]| ==> longer[places[i][d]] == out[places[i][d]];
    }
  }

  lemma PlacedInOrder(a: seq<int>, lo: nat, at: nat, out: seq<int>, places: seq<nat>)
    requires PlacedSlice(a, lo, at, out, places) && Sorted(out)
    ensures Sorted(a[lo..at])
  {
    var slice := a[lo..at];
    forall d, e | 0 <= d < e < |slice| ensures slice[d] <= slice[e] {
      assert places[d] < places[e];
      assert slice[d] == a[lo + d] && slice[e] == a[lo + e];
    }
  }

  /** The output is sorted and nothing still to come is smaller. */
  ghost predicate InOrder(a: seq<int>, at: seq<nat>, hi: seq<nat>, out: seq<int>)
    requires |at| == |hi| && forall j :: 0 <= j < |at| ==> at[j] <= hi[j] <= |a|
  {
    && Sorted(out)
    && forall p, j, q :: 0 <= p < |out| && 0 <= j < |at| && at[j] <= q < hi[j] ==> out[p] <= a[q]
  }

  lemma LeastOfSlices(a: seq<int>, n: nat, lo: seq<nat>, at: seq<nat>, hi: seq<nat>, v: int)
    requires n > 0 && Boundaries(|a|, n, lo, hi) && AllSlicesSorted(a, n)
    requires |at| == n && forall j :: 0 <= j < n ==> lo[j] <= at[j] <= hi[j]
    requires forall j :: 0 <= j < n && at[j] < hi[j] ==> v <= a[at[j]]
    ensures forall j, q :: 0 <= j < n && at[j] <= q < hi[j] ==> v <= a[q]
  {
    forall j, q | 0 <= j < n && at[j] <= q < hi[j] ensures v <= a[q] {
      assert SliceSorted(a, n, j);
      var slice := a[lo[j]..hi[j]];
      assert slice[at[j] - lo[j]] <= slice[q - lo[j]];
    }
  }

  lemma NothingLeft(a: seq<int>, n: nat, lo: seq<nat>, at: seq<nat>, hi: seq<nat>, out: seq<int>)
    requires n > 0 && Boundaries(|a|, n, lo, hi) && |at| == n
    requires forall j :: 0 <= j < n ==> lo[j] <= at[j] <= hi[j] <= |a|
    requires multiset(out) == Values(a, lo, at, n)
    ensures multiset(a) == multiset(out) + Values(a, at, hi, n)
    ensures |out| <= |a|
    ensures |out| == |a| <==> Values(a, at, hi, n) == multiset{}
  {
    ValuesSplit(a, lo, at, hi, n);
    SlicesTile(a, n, lo, hi, n);
    assert a[..|a|] == a;
    assert |multiset(a)| == |multiset(out)| + |Values(a, at, hi, n)|;
  }

  /** Nothing is left exactly if every slice is used up. */
  lemma {:induction false} NoValuesMeansUsedUp(a: seq<int>, at: seq<nat>, hi: seq<nat>, k: nat)
    requires k <= |at| == |hi| && forall j :: 0 <= j < |at| ==> at[j] <= hi[j] <= |a|
    requires Values(a, at, hi, k) == multiset{}
    ensures forall j :: 0 <= j < k ==> at[j] == hi[j]
  {
    if k > 0 {
      var rest := multiset(a[at[k - 1]..hi[k - 1]]);
      assert Values(a, at, hi, k - 1) <= Values(a, at, hi, k) && rest <= Values(a, at, hi, k);
      assert |a[at[k - 1]..hi[k - 1]]| == |rest|;
      NoValuesMeansUsedUp(a, at, hi, k - 1);
    }
  }

  /** out holds the elements of a that are below INT_MAX, each as often as a does. */
  ghost predicate HoldsBelowMax(a: seq<int>, out: seq<int>) {
    forall v :: multiset(out)[v] == if v < INT_MAX then multiset(a)[v] else 0
  }

  /**
   * What merge promises about the first `filled` cells of its result: never an INT_MAX; everything, if
   * there is no INT_MAX; and exactly the elements below INT_MAX in order, if and only if the slices are sorted.
   */
  ghost predicate Merged(a: seq<int>, n: nat, out: seq<int>)
  {
    && |out| <= |a| && multiset(out) <= multiset(a) && INT_MAX !in out
    && (INT_MAX !in a ==> multiset(out) == multiset(a))
    && (Sorted(out) && HoldsBelowMax(a, out) <==> AllSlicesSorted(a, n))
  }

  lemma MergeEnds(a: seq<int>, n: nat, lo: seq<nat>, at: seq<nat>, hi: seq<nat>, out: seq<int>, places: seq<seq<nat>>)
    requires Cursors(|a|, n, lo, at, hi) && TakenFrom(a, n, lo, at, out)
    requires forall p :: 0 <= p < |a| ==> a[p] <= INT_MAX
    requires Placed(a, lo, at, out, places)
    requires AllSlicesSorted(a, n) ==> InOrder(a, at, hi, out)
    requires |out| == |a| || UsedUp(a, at, hi)
    ensures Merged(a, n, out)
  {
    NothingLeft(a, n, lo, at, hi, out);
    if INT_MAX !in a {
      if |out| != |a| {
        ValuesNowhere(a, at, hi, n);
      }
    }
    if AllSlicesSorted(a, n) {
      MergeKeepsValues(a, n, lo, at, hi, out);
    }
    if Sorted(out) && HoldsBelowMax(a, out) {
      RestIsMax(a, n, lo, at, hi, out);
      InOrderMeansSortedSlices(a, n, lo, at, hi, out, places);
    }
  }

  lemma {:induction false} ValuesContain(a: seq<int>, at: seq<nat>, hi: seq<nat>, k: nat, j: nat, q: nat)
    requires j < k <= |at| == |hi| && forall i :: 0 <= i < |at| ==> at[i] <= hi[i] <= |a|
    requires at[j] <= q < hi[j]
    ensures Values(a, at, hi, k)[a[q]] > 0
  {
    if j == k - 1 {
      assert a[q] == a[at[j]..hi[j]][q - at[j]];
      assert a[q] in multiset(a[at[j]..hi[j]]);
    } else {
      ValuesContain(a, at, hi, k - 1, j, q);
    }
  }

  /** If everything below INT_MAX is in the output, only INT_MAX is left. */
  lemma RestIsMax(a: seq<int>, n: nat, lo: seq<nat>, at: seq<nat>, hi: seq<nat>, out: seq<int>)
    requires Cursors(|a|, n, lo, at, hi) && HoldsBelowMax(a, out)
    requires multiset(a) == multiset(out) + Values(a, at, hi, n)
    requires forall p :: 0 <= p < |a| ==> a[p] <= INT_MAX
    ensures forall j, q :: 0 <= j < n && at[j] <= q < hi[j] ==> a[q] == INT_MAX
  {
    forall j, q | 0 <= j < n && at[j] <= q < hi[j] ensures a[q] == INT_MAX {
      ValuesContain(a, at, hi, n, j, q);
      assert multiset(a)[a[q]] == multiset(out)[a[q]] + Values(a, at, hi, n)[a[q]];
    }
  }

  /** If what was placed is in order and only INT_MAX is left, every slice was sorted. */
  lemma InOrderMeansSortedSlices(a: seq<int>, n: nat, lo: seq<nat>, at: seq<nat>, hi: seq<nat>, out: seq<int>,
                                 places: seq<seq<nat>>)
    requires Cursors(|a|, n, lo, at, hi) && Placed(a, lo, at, out, places) && Sorted(out)
    requires forall p :: 0 <= p < |a| ==> a[p] <= INT_MAX
    requires forall j, q :: 0 <= j < n && at[j] <= q < hi[j] ==> a[q] == INT_MAX
    ensures AllSlicesSorted(a, n)
  {
    forall j | 0 <= j < n ensures SliceSorted(a, n, j) {
      SlicesFit(|a|, n, j, n);
      PlacedInOrder(a, lo[j], at[j], out, places[j]);
      var slice := a[lo[j]..hi[j]];
      forall d, e | 0 <= d <= e < |slice| ensures slice[d] <= slice[e] {
        if lo[j] + e < at[j] {
          assert a[lo[j]..at[j]][d] <= a[lo[j]..at[j]][e];
        }
      }
    }
  }

  lemma MergeKeepsValues(a: seq<int>, n: nat, lo: seq<nat>, at: seq<nat>, hi: seq<nat>, out: seq<int>)
    requires n > 0 && Boundaries(|a|, n, lo, hi) && |at| == n && AllSlicesSorted(a, n)
    requires forall j :: 0 <= j < n ==> lo[j] <= at[j] <= hi[j] <= |a|
    requires forall p :: 0 <= p < |a| ==> a[p] <= INT_MAX
    requires multiset(a) == multiset(out) + Values(a, at, hi, n)
    requires forall p :: 0 <= p < |out| ==> out[p] < INT_MAX
    requires Values(a, at, hi, n) == multiset{} || forall j :: 0 <= j < n && at[j] < hi[j] ==> a[at[j]] >= INT_MAX
    ensures HoldsBelowMax(a, out)
  {
    if Values(a, at, hi, n) != multiset{} {
      LeastOfSlices(a, n, lo, at, hi, INT_MAX);
    }
    forall v ensures multiset(out)[v] == if v < INT_MAX then multiset(a)[v] else 0 {
      if v < INT_MAX {
        if Values(a, at, hi, n) != multiset{} {
          ValuesAllMax(a, at, hi, n, v);
        }
      } else {
        assert v !in out;
      }
    }
  }

  /** The loops that set up indices and ends. */
  method SetUp(m: nat, n: nat) returns (indices: array<nat>, ends: array<nat>)
    requires n > 0
    ensures fresh(indices) && fresh(ends) && indices != ends
    ensures Boundaries(m, n, indices[..], ends[..])
  {
    indices, ends := new nat[n], new nat[n];
    for i := 0 to n
      invariant forall j :: 0 <= j < i ==> indices[j] == Start(m, n, j)
    {
      indices[i] := i * (m / n);
    }
    for i := 0 to n
      invariant forall j :: 0 <= j < i ==> ends[j] == Start(m, n, j + 1)
      invariant forall j :: 0 <= j < n ==> indices[j] == Start(m, n, j)
    {
      ends[i] := (i + 1) * (m / n);
    }
    SlicesFit(m, n, n - 1, n);
    ends[n - 1] := if ends[n - 1] < m then m else ends[n - 1];
    forall j | 0 <= j < n ensures Start(m, n, j) <= End(m, n, j) <= m {
      SlicesFit(m, n, j, n);
    }
  }

  /** The arrays of merge hold these sequences. */
  ghost predicate Reflects(a: array<int>, indices: array<nat>, ends: array<nat>, result: array<int>, filled: nat,
                           s: seq<int>, at: seq<nat>, hi: seq<nat>, out: seq<int>)
    reads a, indices, ends, result
  {
    && filled <= result.Length && a != result && indices != ends
    && a[..] == s && indices[..] == at && ends[..] == hi && result[..filled] == out
  }

  /** One element of the chosen slice goes to the result. */
  method Take(a: array<int>, indices: array<nat>, ends: array<nat>, result: array<int>, filled: nat, target: nat,
              ghost s: seq<int>, ghost at: seq<nat>, ghost hi: seq<nat>, ghost out: seq<int>)
    requires Reflects(a, indices, ends, result, filled, s, at, hi, out)
    requires target < |at| && at[target] < |s| && filled < result.Length
    modifies indices, result
    ensures Reflects(a, indices, ends, result, filled + 1, s, at[target := at[target] + 1], hi, out + [s[at[target]]])
  {
    result[filled] := a[indices[target]];
    indices[target] := indices[target] + 1;
  }

  /** No slice stands behind its end. */
  ghost predicate Standing(s: seq<int>, n: nat, lo: seq<nat>, hi: seq<nat>, picks: seq<nat>) {
    && |lo| == |hi| == n && Inside(s, hi)
    && forall i :: 0 <= i < n ==> StandsAt(lo, picks)[i] <= hi[i]
  }

  /** One round of merge's loop; `found` is false where it breaks. */
  method MergeRound(a: array<int>, indices: array<nat>, ends: array<nat>, result: array<int>, filled: nat, n: nat,
                    ghost s: seq<int>, ghost lo: seq<nat>, ghost hi: seq<nat>, ghost out: seq<int>, ghost picks: seq<nat>)
    returns (found: bool, ghost out': seq<int>, ghost picks': seq<nat>)
    requires Standing(s, n, lo, hi, picks) && Chosen(s, lo, hi, out, picks)
    requires Reflects(a, indices, ends, result, filled, s, StandsAt(lo, picks), hi, out) && filled < result.Length
    modifies indices, result
    ensures Standing(s, n, lo, hi, picks') && Chosen(s, lo, hi, out', picks')
    ensures Reflects(a, indices, ends, result, if found then filled + 1 else filled, s, StandsAt(lo, picks'), hi, out')
    ensures if found then |picks'| == |picks| + 1 && picks <= picks' && out <= out'
            else picks' == picks && out' == out && UsedUp(s, StandsAt(lo, picks), hi)
  {
    out', picks' := out, picks;
    ghost var at := StandsAt(lo, picks);
    var target := FindMin(a, indices, ends, n, s, at, hi);
    found := target < n;
    if found {
      ChooseOne(s, lo, hi, out, picks, target);
      StandsAfter(lo, picks, target);
      Take(a, indices, ends, result, filled, target, s, at, hi, out);
      out', picks' := out + [s[at[target]]], picks + [target];
    }
  }

  /** merge; `filled` is where it stops, the cells behind are not initialised. */
  method Merge(a: array<int>, n: nat) returns (result: array<int>, filled: nat, ghost picks: seq<nat>)
    requires n > 0 && forall p :: 0 <= p < a.Length ==> a[p] <= INT_MAX
    ensures fresh(result) && filled <= result.Length == a.Length
    ensures MergedBy(a[..], n, result[..filled], picks)
    ensures Merged(a[..], n, result[..filled])
    ensures a[..] == old(a[..])
  {
    var indices, ends := SetUp(a.Length, n);
    result, filled := new int[a.Length], 0;
    ghost var s, lo, hi, out := a[..], indices[..], ends[..], [];
    picks := [];
    BoundariesAre(s, n, lo, hi);
    var found := true;
    while found && filled < result.Length
      invariant Reflects(a, indices, ends, result, filled, s, StandsAt(lo, picks), hi, out)
      invariant Standing(s, n, lo, hi, picks) && Chosen(s, lo, hi, out, picks)
      invariant !found ==> UsedUp(s, StandsAt(lo, picks), hi)
      modifies indices, result
      decreases result.Length - filled, found
    {
      found, out, picks := MergeRound(a, indices, ends, result, filled, n, s, lo, hi, out, picks);
      if found {
        filled := filled + 1;
      }
    }
    MergedByMeansMerged(s, n, out, picks);
  }

  lemma BoundariesAre(s: seq<int>, n: nat, lo: seq<nat>, hi: seq<nat>)
    requires n > 0 && Boundaries(|s|, n, lo, hi)
    ensures lo == Starts(|s|, n) && hi == Ends(|s|, n)
    ensures StandsAt(lo, []) == lo && Standing(s, n, lo, hi, [])
  {
    EndsInside(s, n);
  }

  ghost predicate MergeInv(a: seq<int>, n: nat, lo: seq<nat>, at: seq<nat>, hi: seq<nat>, out: seq<int>, places: seq<seq<nat>>) {
    && Cursors(|a|, n, lo, at, hi)
    && TakenFrom(a, n, lo, at, out)
    && Placed(a, lo, at, out, places)
    && (AllSlicesSorted(a, n) ==> InOrder(a, at, hi, out))
  }

  ghost predicate Going(a: seq<int>, n: nat, lo: seq<nat>, at: seq<nat>, hi: seq<nat>, out: seq<int>) {
    exists places :: MergeInv(a, n, lo, at, hi, out, places)
  }

  lemma MergeStep(a: seq<int>, n: nat, lo: seq<nat>, at: seq<nat>, hi: seq<nat>, out: seq<int>, places: seq<seq<nat>>, j: nat)
    requires MergeInv(a, n, lo, at, hi, out, places)
    requires j < n && at[j] < hi[j] && a[at[j]] < INT_MAX
    requires forall i :: 0 <= i < n && at[i] < hi[i] ==> a[at[j]] <= a[at[i]]
    ensures MergeInv(a, n, lo, at[j := at[j] + 1], hi, out + [a[at[j]]], places[j := places[j] + [|out|]])
  {
    CursorAdvances(|a|, n, lo, at, hi, j);
    TakeOneMore(a, n, lo, at, out, j);
    PlaceOne(a, lo, at, out, places, j);
    if AllSlicesSorted(a, n) {
      StepStaysInOrder(a, n, lo, at, hi, out, j);
    }
  }

  lemma GoesOn(a: seq<int>, n: nat, lo: seq<nat>, at: seq<nat>, hi: seq<nat>, out: seq<int>, j: nat)
    requires Going(a, n, lo, at, hi, out) && |at| == |hi| == n && Inside(a, hi) && FirstLeast(a, at, hi, j)
    ensures Going(a, n, lo, at[j := at[j] + 1], hi, out + [a[at[j]]])
  {
    var places :| MergeInv(a, n, lo, at, hi, out, places);
    MergeStep(a, n, lo, at, hi, out, places, j);
  }

  lemma GoingFromTheStart(a: seq<int>, n: nat, lo: seq<nat>, hi: seq<nat>)
    requires n > 0 && Boundaries(|a|, n, lo, hi)
    ensures Going(a, n, lo, lo, hi, [])
  {
    ValuesNowhere(a, lo, lo, n);
    assert MergeInv(a, n, lo, lo, hi, [], seq(n, _ => []));
  }

  lemma GoingIsKept(a: seq<int>, n: nat, lo: seq<nat>, hi: seq<nat>, going: (seq<nat>, seq<int>) -> bool)
    requires |lo| == |hi| == n && Inside(a, hi)
    requires forall at, out :: going(at, out) == Going(a, n, lo, at, hi, out)
    ensures Kept(going, a, hi)
  {
    forall at: seq<nat>, out: seq<int>, j: nat | going(at, out) && |at| == |hi| && FirstLeast(a, at, hi, j)
      ensures going(at[j := at[j] + 1], out + [a[at[j]]])
    {
      GoesOn(a, n, lo, at, hi, out, j);
    }
  }

  lemma StartsAndEnds(a: seq<int>, n: nat)
    requires n > 0
    ensures Boundaries(|a|, n, Starts(|a|, n), Ends(|a|, n))
  {
    forall j | 0 <= j < n ensures Start(|a|, n, j) <= End(|a|, n, j) <= |a| {
      SlicesFit(|a|, n, j, n);
    }
  }

  /** What the choices of merge come to: the facts about its result that speak of values and order alone. */
  lemma MergedByMeansMerged(a: seq<int>, n: nat, out: seq<int>, picks: seq<nat>)
    requires n > 0 && MergedBy(a, n, out, picks) && forall p :: 0 <= p < |a| ==> a[p] <= INT_MAX
    ensures Merged(a, n, out)
  {
    var lo, hi := Starts(|a|, n), Ends(|a|, n);
    StartsAndEnds(a, n);
    GoingFromTheStart(a, n, lo, hi);
    var going := (at, out) => Going(a, n, lo, at, hi, out);
    GoingIsKept(a, n, lo, hi, going);
    AlongTheChoices(going, a, lo, hi, out, picks, |out|);
    assert picks[..|out|] == picks && out[..|out|] == out;
    GoingEnds(a, n, lo, StandsAt(lo, picks), hi, out);
  }

  lemma GoingEnds(a: seq<int>, n: nat, lo: seq<nat>, at: seq<nat>, hi: seq<nat>, out: seq<int>)
    requires Going(a, n, lo, at, hi, out) && forall p :: 0 <= p < |a| ==> a[p] <= INT_MAX
    requires |at| == |hi| && Inside(a, hi) && (|out| == |a| || UsedUp(a, at, hi))
    ensures Merged(a, n, out)
  {
    var places :| MergeInv(a, n, lo, at, hi, out, places);
    MergeEnds(a, n, lo, at, hi, out, places);
  }

  predicate Cursors(m: nat, n: nat, lo: seq<nat>, at: seq<nat>, hi: seq<nat>) {
    && n > 0 && Boundaries(m, n, lo, hi) && |at| == n
    && forall j :: 0 <= j < n ==> lo[j] <= at[j] <= hi[j] <= m
  }

  /** The output holds what has been taken from the slices, none of it INT_MAX. */
  ghost predicate TakenFrom(a: seq<int>, n: nat, lo: seq<nat>, at: seq<nat>, out: seq<int>)
    requires n == |lo| == |at| && forall j :: 0 <= j < n ==> lo[j] <= at[j] <= |a|
  {
    multiset(out) == Values(a, lo, at, n) && forall p :: 0 <= p < |out| ==> out[p] < INT_MAX
  }

  lemma CursorAdvances(m: nat, n: nat, lo: seq<nat>, at: seq<nat>, hi: seq<nat>, j: nat)
    requires Cursors(m, n, lo, at, hi) && j < n && at[j] < hi[j]
    ensures Cursors(m, n, lo, at[j := at[j] + 1], hi)
  {
  }

  lemma TakeOneMore(a: seq<int>, n: nat, lo: seq<nat>, at: seq<nat>, out: seq<int>, j: nat)
    requires n == |lo| == |at| && j < n && forall i :: 0 <= i < n ==> lo[i] <= at[i] <= |a|
    requires TakenFrom(a, n, lo, at, out) && at[j] < |a| && a[at[j]] < INT_MAX
    ensures TakenFrom(a, n, lo, at[j := at[j] + 1], out + [a[at[j]]])
  {
    ValuesAdvance(a, lo, at, n, j);
  }

  lemma StepStaysInOrder(a: seq<int>, n: nat, lo: seq<nat>, at: seq<nat>, hi: seq<nat>, out: seq<int>, j: nat)
    requires n > 0 && Boundaries(|a|, n, lo, hi) && |at| == n && AllSlicesSorted(a, n)
    requires forall i :: 0 <= i < n ==> lo[i] <= at[i] <= hi[i] <= |a|
    requires InOrder(a, at, hi, out) && j < n && at[j] < hi[j]
    requires forall i :: 0 <= i < n && at[i] < hi[i] ==> a[at[j]] <= a[at[i]]
    ensures InOrder(a, at[j := at[j] + 1], hi, out + [a[at[j]]])
  {
    LeastOfSlices(a, n, lo, at, hi, a[at[j]]);
  }

  // ----- The whole program -----

  /** The elements that no thread sorts already fit behind the last sorted stretch. */
  ghost predicate TailFits(a: seq<int>, n: nat)
    requires n > 0
  {
    SlicesFit(|a|, n, n - 1, n);
    var lo, mid := Start(|a|, n, n - 1), Start(|a|, n, n);
    Sorted(a[mid..]) && forall p, q :: lo <= p < mid <= q < |a| ==> a[p] <= a[q]
  }

  lemma NoTailFits(a: seq<int>, n: nat)
    requires n > 0 && |a| % n == 0
    ensures TailFits(a, n)
  {
    SlicesFit(|a|, n, n - 1, n);
    assert Start(|a|, n, n) == |a|;
  }

  lemma SameValuesSameBound(s: seq<int>, t: seq<int>, v: int)
    requires multiset(s) == multiset(t) && forall p :: 0 <= p < |s| ==> s[p] <= v
    ensures forall p :: 0 <= p < |t| ==> t[p] <= v
  {
    forall p | 0 <= p < |t| ensures t[p] <= v {
      assert t[p] in multiset(s);
    }
  }

  lemma TailFitsByValues(a: seq<int>, n: nat)
    requires n > 0
    ensures Start(|a|, n, n - 1) <= Start(|a|, n, n) <= |a|
    ensures TailFits(a, n) <==>
              (Sorted(a[Start(|a|, n, n)..])
               && AllBelow(a[Start(|a|, n, n - 1)..Start(|a|, n, n)], a[Start(|a|, n, n)..]))
  {
    SlicesFit(|a|, n, n - 1, n);
    BelowByIndex(a, Start(|a|, n, n - 1), Start(|a|, n, n));
  }

  /** The last slice is sorted for merge exactly if the tail fits. */
  lemma LastSlice(n: nat, before: seq<int>, a: seq<int>)
    requires Sliced(n, before, a)
    ensures SliceSorted(a, n, n - 1) <==> TailFits(before, n)
  {
    SlicesFit(|a|, n, n - 1, n);
    var lo, mid := Start(|a|, n, n - 1), Start(|a|, n, n);
    assert SliceSettled(n, before, a, n - 1);
    assert a[mid..] == before[mid..];
    assert a[lo..|a|] == a[lo..mid] + a[mid..];
    SplitSorted(a[lo..mid], a[mid..]);
    BoundTransfers(a[lo..mid], before[lo..mid], a[mid..]);
    TailFitsByValues(before, n);
  }

  /** All but the last slice are sorted for merge; so the tail decides. */
  lemma LastSliceDecides(n: nat, before: seq<int>, a: seq<int>)
    requires Sliced(n, before, a)
    ensures AllSlicesSorted(a, n) <==> TailFits(before, n)
  {
    LastSlice(n, before, a);
    forall j | 0 <= j < n - 1 ensures SliceSorted(a, n, j) {
      assert SliceSettled(n, before, a, j);
      SlicesFit(|a|, n, j, n);
    }
    assert AllSlicesSorted(a, n) ==> SliceSorted(a, n, n - 1);
  }

  ghost predicate AllBelow(s: seq<int>, t: seq<int>) {
    forall x, y :: x in s && y in t ==> x <= y
  }

  lemma BelowByIndex(a: seq<int>, lo: nat, mid: nat)
    requires lo <= mid <= |a|
    ensures AllBelow(a[lo..mid], a[mid..]) <==> forall p, q :: lo <= p < mid <= q < |a| ==> a[p] <= a[q]
  {
    var s, t := a[lo..mid], a[mid..];
    forall p, q | lo <= p < mid <= q < |a| && AllBelow(s, t) ensures a[p] <= a[q] {
      assert s[p - lo] in s && t[q - mid] in t;
    }
  }

  lemma BoundTransfers(s: seq<int>, s': seq<int>, t: seq<int>)
    requires multiset(s) == multiset(s')
    ensures AllBelow(s, t) <==> AllBelow(s', t)
  {
    forall x ensures x in s <==> x in s' {
      assert x in s <==> x in multiset(s) <==> x in multiset(s') <==> x in s';
    }
  }

  lemma SplitSorted(s: seq<int>, t: seq<int>)
    requires Sorted(s)
    ensures Sorted(s + t) <==> Sorted(t) && AllBelow(s, t)
  {
    var u := s + t;
    if Sorted(u) {
      forall i, j | 0 <= i <= j < |t| ensures t[i] <= t[j] {
        assert u[|s| + i] == t[i] && u[|s| + j] == t[j];
      }
      forall x, y | x in s && y in t ensures x <= y {
        var i :| 0 <= i < |s| && s[i] == x;
        var j :| 0 <= j < |t| && t[j] == y;
        assert u[i] == x && u[|s| + j] == y;
      }
    } else if Sorted(t) && AllBelow(s, t) {
      forall i, j | 0 <= i <= j < |u| ensures u[i] <= u[j] {
        if i < |s| <= j {
          assert s[i] in s && t[j - |s|] in t;
        }
      }
    }
  }

  lemma {:induction false} PrefixKeepsValues(n: nat, before: seq<int>, a: seq<int>, k: nat)
    requires Sliced(n, before, a) && k <= n
    ensures Start(|a|, n, k) <= |a|
    ensures multiset(a[..Start(|a|, n, k)]) == multiset(before[..Start(|a|, n, k)])
  {
    SlicesFit(|a|, n, k, n);
    if k > 0 {
      PrefixKeepsValues(n, before, a, k - 1);
      assert SliceSettled(n, before, a, k - 1);
      SlicesFit(|a|, n, k - 1, n);
      JoinValues(a, before, Start(|a|, n, k - 1), Start(|a|, n, k));
    }
  }

  lemma JoinValues(a: seq<int>, b: seq<int>, lo: nat, hi: nat)
    requires lo <= hi <= |a| == |b|
    requires multiset(a[..lo]) == multiset(b[..lo]) && multiset(a[lo..hi]) == multiset(b[lo..hi])
    ensures multiset(a[..hi]) == multiset(b[..hi])
  {
    assert a[..hi] == a[..lo] + a[lo..hi] && b[..hi] == b[..lo] + b[lo..hi];
  }

  lemma SlicedKeepsValues(n: nat, before: seq<int>, a: seq<int>)
    requires Sliced(n, before, a)
    ensures multiset(a) == multiset(before)
  {
    PrefixKeepsValues(n, before, a, n);
    var mid := Start(|a|, n, n);
    assert a == a[..mid] + a[mid..] && before == before[..mid] + before[mid..];
    assert a[mid..] == before[mid..];
  }

  /** The result is complete and in order. */
  ghost predicate SortedPermutation(before: seq<int>, out: seq<int>) {
    |out| == |before| && multiset(out) == multiset(before) && Sorted(out)
  }

  lemma SameValuesSameMax(a: seq<int>, b: seq<int>)
    requires multiset(a) == multiset(b)
    ensures INT_MAX in a <==> INT_MAX in b
  {
    assert INT_MAX in a <==> INT_MAX in multiset(a) <==> INT_MAX in multiset(b) <==> INT_MAX in b;
  }

  /** Nothing but the elements below INT_MAX is everything exactly if there is no INT_MAX. */
  lemma CompleteExactlyWithoutMax(before: seq<int>, out: seq<int>)
    requires INT_MAX !in out && forall p :: 0 <= p < |before| ==> before[p] <= INT_MAX
    ensures multiset(out) == multiset(before) <==> HoldsBelowMax(before, out) && INT_MAX !in before
  {
    if multiset(out) == multiset(before) {
      SameValuesSameMax(out, before);
      forall v ensures multiset(out)[v] == if v < INT_MAX then multiset(before)[v] else 0 {
        NothingFromMaxOn(before, v);
      }
    }
    if HoldsBelowMax(before, out) && INT_MAX !in before {
      forall v ensures multiset(out)[v] == multiset(before)[v] {
        NothingFromMaxOn(before, v);
      }
    }
  }

  lemma NothingFromMaxOn(s: seq<int>, v: int)
    requires INT_MAX !in s && forall p :: 0 <= p < |s| ==> s[p] <= INT_MAX
    ensures v >= INT_MAX ==> multiset(s)[v] == 0
  {
    assert v >= INT_MAX ==> v !in s;
  }

  lemma AllOrFewer(x: multiset<int>, y: multiset<int>)
    requires x <= y
    ensures |x| == |y| <==> x == y
  {
    assert y == x + (y - x);
  }

  /** What the merge makes of the slices, in terms of the array before the threads started. */
  lemma MergedFromSlices(n: nat, before: seq<int>, a: seq<int>, out: seq<int>)
    requires Sliced(n, before, a) && Merged(a, n, out)
    requires forall p :: 0 <= p < |before| ==> before[p] <= INT_MAX
    ensures INT_MAX !in out && |out| <= |before| && multiset(out) <= multiset(before)
    ensures INT_MAX !in before ==> multiset(out) == multiset(before)
    ensures |out| == |before| <==> INT_MAX !in before
    ensures Sorted(out) && HoldsBelowMax(before, out) <==> TailFits(before, n)
    ensures SortedPermutation(before, out) <==> TailFits(before, n) && INT_MAX !in before
  {
    LastSliceDecides(n, before, a);
    SlicedKeepsValues(n, before, a);
    SameValuesSameMax(before, a);
    assert HoldsBelowMax(before, out) <==> HoldsBelowMax(a, out);
    CompleteExactlyWithoutMax(before, out);
    AllOrFewer(multiset(out), multiset(before));
    assert |multiset(out)| == |out| && |multiset(before)| == |before|;
  }

  /**
   * The merge after any interleaving of the threads' comparisons. The output is the elements below INT_MAX
   * in order, if and only if the unsorted tail fits; it is a sorted permutation if and only if, besides,
   * no element is INT_MAX.
   */
  method MergeAfterThreads(a: array<int>, n: nat, ghost before: seq<int>, ghost run: seq<nat>, ghost last: State)
    returns (result: array<int>, filled: nat, ghost picks: seq<nat>)
    requires n > 0 && SlicesComparable(n, before) && forall p :: 0 <= p < |before| ==> IsInt(before[p])
    requires RunTo(n, SliceSort.Init(n, before), run, last) && AllDone(last) && last.cells == a[..]
    ensures fresh(result) && filled <= result.Length == a.Length && a[..] == old(a[..])
    ensures Sliced(n, before, a[..]) && MergedBy(a[..], n, result[..filled], picks)
    ensures INT_MAX !in result[..filled] && multiset(result[..filled]) <= multiset(before)
    ensures INT_MAX !in before ==> multiset(result[..filled]) == multiset(before)
    ensures filled == a.Length <==> INT_MAX !in before
    ensures Sorted(result[..filled]) && HoldsBelowMax(before, result[..filled]) <==> TailFits(before, n)
    ensures SortedPermutation(before, result[..filled]) <==> TailFits(before, n) && INT_MAX !in before
  {
    ThreadsSortTheirSlices(n, before, run, last);
    SlicedKeepsValues(n, before, a[..]);
    SameValuesSameBound(before, a[..], INT_MAX);
    result, filled, picks := Merge(a, n);
    MergedFromSlices(n, before, a[..], result[..filled]);
  }

  /** The program: the threads in any interleaving, then the merge. If n divides the length there is no tail. */
  method ParallelSort(a: array<int>, n: nat) returns (result: array<int>, filled: nat, ghost picks: seq<nat>)
    requires n > 0 && SlicesComparable(n, a[..]) && forall p :: 0 <= p < a.Length ==> IsInt(a[p])
    modifies a
    ensures filled <= result.Length == a.Length
    ensures Sliced(n, old(a[..]), a[..]) && MergedBy(a[..], n, result[..filled], picks)
    ensures INT_MAX !in result[..filled] && multiset(result[..filled]) <= multiset(old(a[..]))
    ensures INT_MAX !in old(a[..]) ==> multiset(result[..filled]) == multiset(old(a[..]))
    ensures filled == a.Length <==> INT_MAX !in old(a[..])
    ensures Sorted(result[..filled]) && HoldsBelowMax(old(a[..]), result[..filled]) <==> TailFits(old(a[..]), n)
    ensures SortedPermutation(old(a[..]), result[..filled]) <==> TailFits(old(a[..]), n) && INT_MAX !in old(a[..])
    ensures a.Length % n == 0 ==> TailFits(old(a[..]), n)
  {
    ghost var before := a[..];
    if |before| % n == 0 {
      NoTailFits(before, n);
    }
    var run, last := RunThreads(a, n);
    result, filled, picks := MergeAfterThreads(a, n, before, run, last);
  }

  /** The shipped sizes, 16 elements and 5 threads, leave one element unsorted. */
  lemma ShippedSizesLeaveATail(a: seq<int>)
    requires |a| == 16
    ensures TailFits(a, 5) <==> a[12] <= a[15] && a[13] <= a[15] && a[14] <= a[15]
  {
    assert SliceSize(16, 5) == 3;
  }

  /** The counting loop of check_sorting. */
  method CountMismatches(copy: array<int>, a: array<int>) returns (mismatches: nat)
    requires copy.Length <= a.Length
    ensures mismatches == 0 <==> copy[..] == a[..copy.Length]
  {
    mismatches := 0;
    for i := 0 to copy.Length
      invariant mismatches == 0 <==> forall j :: 0 <= j < i ==> copy[j] == a[j]
    {
      if copy[i] != a[i] {
        mismatches := mismatches + 1;
      }
    }
  }

  /**
   * check_sorting: compares with a sorted copy, and so notices exactly an array that is not sorted;
   * elements lost on the way it cannot notice.
   */
  method CheckSorting(a: array<int>, size: nat) returns (failed: bool)
    requires size <= a.Length && Comparable(a[..size])
    ensures failed <==> !Sorted(a[..size])
  {
    var copy := new int[size];
    for i := 0 to size
      invariant copy[..i] == a[..i]
    {
      copy[i] := a[i];
    }
    assert copy[0..size] == a[..size];
    SortRange(copy, 0, size);
    assert copy[..] == copy[0..size];
    var mismatches := CountMismatches(copy, a);
    if Sorted(a[..size]) {
      SortedIsUnique(copy[..], a[..size]);
    }
    failed := mismatches > 0;
  }
}
