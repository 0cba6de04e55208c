/** Sums of real sequences, in the order a loop accumulates them, and the search for the
    slot of a stacked layout that a coordinate falls into. */
module RealSums {

  function Sum(s: seq<real>): real {
    if s == [] then 0.0 else Sum(s[..|s| - 1]) + s[|s| - 1]
  }

  ghost predicate NonNegative(s: seq<real>) {
    forall i :: 0 <= i < |s| ==> s[i] >= 0.0
  }

  lemma {:induction false} SumStep(s: seq<real>, k: nat)
    requires k < |s|
    ensures Sum(s[..k + 1]) == Sum(s[..k]) + s[k]
  {
    assert s[..k + 1][..k] == s[..k];
  }

  lemma {:induction false} SumMonotone(s: seq<real>, i: nat, j: nat)
    requires NonNegative(s) && i <= j <= |s|
    ensures Sum(s[..i]) <= Sum(s[..j])
    decreases j
  {
    if i < j {
      SumStep(s, j - 1);
      SumMonotone(s, i, j - 1);
    }
  }

  /** Slots laid end to end: slot `k` covers the half-open span between two prefix sums. */
  ghost predicate InSlot(s: seq<real>, k: nat, t: real)
    requires k < |s|
  {
    Sum(s[..k]) <= t < Sum(s[..k]) + s[k]
  }

  /** Every coordinate inside the total length lies in some slot. */
  lemma {:induction false} SlotOf(s: seq<real>, t: real) returns (k: nat)
    requires 0.0 <= t < Sum(s)
    ensures k < |s| && InSlot(s, k, t)
  {
    var last := |s| - 1;
    assert s[..last + 1] == s;
    SumStep(s, last);
    if Sum(s[..last]) <= t {
      k := last;
    } else {
      k := SlotOf(s[..last], t);
      assert s[..last][..k] == s[..k];
    }
  }

  /** Two different slots share no coordinate, and no slot leaves the total length. */
  lemma SlotsDisjoint(s: seq<real>, j: nat, k: nat, t: real)
    requires NonNegative(s) && j < |s| && k < |s|
    requires InSlot(s, j, t) && InSlot(s, k, t)
    ensures j == k
  {
    SumStep(s, j);
    SumStep(s, k);
    if j < k {
      SumMonotone(s, j + 1, k);
    } else if k < j {
      SumMonotone(s, k + 1, j);
    }
  }

  lemma SlotWithin(s: seq<real>, k: nat)
    requires NonNegative(s) && k < |s|
    ensures 0.0 <= Sum(s[..k]) && Sum(s[..k]) + s[k] <= Sum(s)
  {
    SumStep(s, k);
    SumMonotone(s, 0, k);
    SumMonotone(s, k + 1, |s|);
    assert s[..|s|] == s;
  }

  lemma {:induction false} SumScaled(s: seq<real>, t: seq<real>, factor: real)
    requires |s| == |t|
    requires forall i :: 0 <= i < |s| ==> t[i] == factor * s[i]
    ensures Sum(t) == factor * Sum(s)
  {
    if s != [] {
      var last := |s| - 1;
      SumScaled(s[..last], t[..last], factor);
    }
  }

  lemma {:induction false} SumPositive(s: seq<real>)
    requires forall i :: 0 <= i < |s| ==> s[i] > 0.0
    ensures Sum(s) >= 0.0 && (s != [] ==> Sum(s) > 0.0)
  {
    if s != [] {
      SumPositive(s[..|s| - 1]);
    }
  }
}
