/**
 * The choices of the merge (find_min_in_current_slice and merge, sems/mergesort/mergesort.c:99-156),
 * whether or not the slices are sorted: the slice chosen for each cell of the result shows the least
 * current element, and the choices leave no freedom.
 */
module MergeOrder {
  import opened SliceSort

  /** How many of the choices fell on slice j. */
  function Taken(picks: seq<nat>, j: nat): nat {
    if picks == [] then 0
    else Taken(picks[..|picks| - 1], j) + if picks[|picks| - 1] == j then 1 else 0
  }

  /** Where each slice stands after these choices. */
  function StandsAt(lo: seq<nat>, picks: seq<nat>): seq<nat> {
    seq(|lo|, j requires 0 <= j < |lo| => lo[j] + Taken(picks, j))
  }

  lemma StandsAtStart(lo: seq<nat>)
    ensures StandsAt(lo, []) == lo
  {
  }

  lemma StandsAfter(lo: seq<nat>, picks: seq<nat>, j: nat)
    requires j < |lo|
    ensures StandsAt(lo, picks + [j]) == StandsAt(lo, picks)[j := StandsAt(lo, picks)[j] + 1]
  {
    assert (picks + [j])[..|picks|] == picks;
  }

  /** Each slice ends inside the array. */
  predicate Inside(a: seq<int>, hi: seq<nat>) {
    forall i :: 0 <= i < |hi| ==> hi[i] <= |a|
  }

  /** Slice j is the first one that shows the least current element, which is below INT_MAX. */
  predicate FirstLeast(a: seq<int>, at: seq<nat>, hi: seq<nat>, j: nat)
    requires |at| == |hi| && Inside(a, hi)
  {
    && j < |at| && at[j] < hi[j] && a[at[j]] < INT_MAX
    && forall i :: 0 <= i < |at| && at[i] < hi[i] ==> if i < j then a[at[j]] < a[at[i]] else a[at[j]] <= a[at[i]]
  }

  /** No slice shows an element below INT_MAX. */
  predicate UsedUp(a: seq<int>, at: seq<nat>, hi: seq<nat>)
    requires |at| == |hi| && Inside(a, hi)
  {
    forall j :: 0 <= j < |at| && at[j] < hi[j] ==> a[at[j]] >= INT_MAX
  }

  /** Cell p of the result is the element that its slice showed, the first least one at that moment. */
  predicate ChosenAt(a: seq<int>, lo: seq<nat>, hi: seq<nat>, out: seq<int>, picks: seq<nat>, p: nat)
    requires |lo| == |hi| && Inside(a, hi) && p < |out| == |picks|
  {
    var at := StandsAt(lo, picks[..p]);
    FirstLeast(a, at, hi, picks[p]) && out[p] == a[at[picks[p]]]
  }

  ghost predicate Chosen(a: seq<int>, lo: seq<nat>, hi: seq<nat>, out: seq<int>, picks: seq<nat>) {
    && |lo| == |hi| && Inside(a, hi) && |out| == |picks|
    && forall p :: 0 <= p < |out| ==> ChosenAt(a, lo, hi, out, picks, p)
  }

  lemma ChooseOne(a: seq<int>, lo: seq<nat>, hi: seq<nat>, out: seq<int>, picks: seq<nat>, j: nat)
    requires Chosen(a, lo, hi, out, picks) && FirstLeast(a, StandsAt(lo, picks), hi, j)
    ensures Chosen(a, lo, hi, out + [a[StandsAt(lo, picks)[j]]], picks + [j])
  {
    var out', picks' := out + [a[StandsAt(lo, picks)[j]]], picks + [j];
    forall p | 0 <= p < |out'| ensures ChosenAt(a, lo, hi, out', picks', p) {
      if p < |out| {
        assert picks'[..p] == picks[..p];
        assert ChosenAt(a, lo, hi, out, picks, p);
      } else {
        assert picks'[..p] == picks;
      }
    }
  }

  function Starts(m: nat, n: nat): (lo: seq<nat>)
    requires n > 0
    ensures |lo| == n && forall j :: 0 <= j < n ==> lo[j] == Start(m, n, j)
  {
    seq(n, j requires 0 <= j < n => Start(m, n, j))
  }

  function Ends(m: nat, n: nat): (hi: seq<nat>)
    requires n > 0
    ensures |hi| == n && forall j :: 0 <= j < n ==> hi[j] == End(m, n, j)
  {
    seq(n, j requires 0 <= j < n => End(m, n, j))
  }

  lemma EndsInside(a: seq<int>, n: nat)
    requires n > 0
    ensures Inside(a, Ends(|a|, n))
  {
    forall i | 0 <= i < n ensures Ends(|a|, n)[i] <= |a| {
      SlicesFit(|a|, n, i, n);
    }
  }

  /**
   * What merge makes of any array, sorted slices or not: `picks` are the slices chosen, always the first
   * that shows the least current element, until the result is full or only INT_MAX is shown.
   */
  ghost predicate MergedBy(a: seq<int>, n: nat, out: seq<int>, picks: seq<nat>)
    requires n > 0
  {
    EndsInside(a, n);
    && Chosen(a, Starts(|a|, n), Ends(|a|, n), out, picks) && |out| <= |a|
    && (|out| == |a| || UsedUp(a, StandsAt(Starts(|a|, n), picks), Ends(|a|, n)))
  }

  lemma FirstLeastIsUnique(a: seq<int>, at: seq<nat>, hi: seq<nat>, j: nat, k: nat)
    requires |at| == |hi| && Inside(a, hi) && FirstLeast(a, at, hi, j) && FirstLeast(a, at, hi, k)
    ensures j == k
  {
  }

  lemma {:induction false} SameChoices(a: seq<int>, lo: seq<nat>, hi: seq<nat>, out: seq<int>, picks: seq<nat>,
                                       out': seq<int>, picks': seq<nat>, p: nat)
    requires Chosen(a, lo, hi, out, picks) && Chosen(a, lo, hi, out', picks')
    requires p <= |out| && p <= |out'|
    ensures out[..p] == out'[..p] && picks[..p] == picks'[..p]
  {
    if p > 0 {
      var q := p - 1;
      SameChoices(a, lo, hi, out, picks, out', picks', q);
      assert ChosenAt(a, lo, hi, out, picks, q) && ChosenAt(a, lo, hi, out', picks', q);
      FirstLeastIsUnique(a, StandsAt(lo, picks[..q]), hi, picks[q], picks'[q]);
      assert picks[..p] == picks[..q] + [picks[q]] && picks'[..p] == picks'[..q] + [picks'[q]];
      assert out[..p] == out[..q] + [out[q]] && out'[..p] == out'[..q] + [out'[q]];
    }
  }

  lemma ChoiceAt(a: seq<int>, lo: seq<nat>, hi: seq<nat>, out: seq<int>, picks: seq<nat>, p: nat)
    requires Chosen(a, lo, hi, out, picks) && p < |out|
    ensures FirstLeast(a, StandsAt(lo, picks[..p]), hi, picks[p])
    ensures picks[..p + 1] == picks[..p] + [picks[p]]
    ensures out[..p + 1] == out[..p] + [a[StandsAt(lo, picks[..p])[picks[p]]]]
  {
    assert ChosenAt(a, lo, hi, out, picks, p);
  }

  ghost predicate Kept(inv: (seq<nat>, seq<int>) -> bool, a: seq<int>, hi: seq<nat>)
    requires Inside(a, hi)
  {
    forall at: seq<nat>, out: seq<int>, j: nat :: inv(at, out) && |at| == |hi| && FirstLeast(a, at, hi, j) ==>
      inv(at[j := at[j] + 1], out + [a[at[j]]])
  }

  /** What holds at the start and is kept by taking a first least element holds at the end. */
  lemma {:induction false} AlongTheChoices(inv: (seq<nat>, seq<int>) -> bool, a: seq<int>, lo: seq<nat>, hi: seq<nat>,
                                           out: seq<int>, picks: seq<nat>, p: nat)
    requires Chosen(a, lo, hi, out, picks) && p <= |out| && inv(lo, [])
    requires Kept(inv, a, hi)
    ensures inv(StandsAt(lo, picks[..p]), out[..p])
  {
    if p == 0 {
      StandsAtStart(lo);
    } else {
      AlongTheChoices(inv, a, lo, hi, out, picks, p - 1);
      ChoiceAt(a, lo, hi, out, picks, p - 1);
      StandsAfter(lo, picks[..p - 1], picks[p - 1]);
    }
  }

  lemma NextChoice(a: seq<int>, lo: seq<nat>, hi: seq<nat>, out: seq<int>, picks: seq<nat>, p: nat)
    requires Chosen(a, lo, hi, out, picks) && p < |out|
    ensures !UsedUp(a, StandsAt(lo, picks[..p]), hi)
  {
    assert ChosenAt(a, lo, hi, out, picks, p);
  }

  /** One merge cannot stop where another one goes on. */
  lemma StopsNoEarlier(a: seq<int>, n: nat, out: seq<int>, picks: seq<nat>, out': seq<int>, picks': seq<nat>)
    requires n > 0 && MergedBy(a, n, out, picks) && MergedBy(a, n, out', picks')
    ensures |out| >= |out'|
  {
    var lo, hi, p := Starts(|a|, n), Ends(|a|, n), |out|;
    assert picks[..p] == picks;
    if p < |out'| {
      SameChoices(a, lo, hi, out, picks, out', picks', p);
      NextChoice(a, lo, hi, out', picks', p);
    }
  }

  /** The array and the number of slices determine the result of merge, cell by cell. */
  lemma MergeIsDetermined(a: seq<int>, n: nat, out: seq<int>, picks: seq<nat>, out': seq<int>, picks': seq<nat>)
    requires n > 0 && MergedBy(a, n, out, picks) && MergedBy(a, n, out', picks')
    ensures out == out' && picks == picks'
  {
    StopsNoEarlier(a, n, out, picks, out', picks');
    StopsNoEarlier(a, n, out', picks', out, picks);
    SameChoices(a, Starts(|a|, n), Ends(|a|, n), out, picks, out', picks', |out|);
    assert out[..|out|] == out && out'[..|out|] == out' && picks[..|out|] == picks && picks'[..|out|] == picks';
  }
}
