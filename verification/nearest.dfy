/** The nearest-value scan shared by `nearestDivergence` (sequence_util.py)
    and `GenomeBatch.gcBackground` (bin_genome.py): walk a list of candidate
    values keeping the one at the smallest distance seen so far, replacing
    it only on a strictly smaller distance, starting from the distance
    `100.0` and the value `-1`. Floats are modelled as exact reals. */
module Nearest {

  /** `abs(v - x)`. */
  function Dist(v: int, x: real): (d: real)
    ensures d >= 0.0
    ensures d == v as real - x || d == x - v as real
  {
    if v as real >= x then v as real - x else x - v as real
  }

  /** The loop from the state (`minDist`, `best`) over the values still to
      visit. */
  function ScanFrom(vals: seq<int>, x: real, minDist: real, best: int): int
    decreases |vals|
  {
    if |vals| == 0 then best
    else if Dist(vals[0], x) < minDist then ScanFrom(vals[1..], x, Dist(vals[0], x), vals[0])
    else ScanFrom(vals[1..], x, minDist, best)
  }

  /** The value the loop returns. */
  function NearestValue(vals: seq<int>, x: real): int
  {
    ScanFrom(vals, x, 100.0, -1)
  }

  /** `vals[i]` is the first value nearest to `x`, and nearer than `bound`:
      every earlier value is strictly farther, every later one at least as
      far. */
  predicate FirstNearest(vals: seq<int>, x: real, bound: real, i: int)
  {
    0 <= i < |vals| && Dist(vals[i], x) < bound
    && (forall j :: 0 <= j < i ==> Dist(vals[j], x) > Dist(vals[i], x))
    && (forall j :: i < j < |vals| ==> Dist(vals[j], x) >= Dist(vals[i], x))
  }

  lemma {:induction false} ScanFromSpec(vals: seq<int>, x: real, minDist: real, best: int)
    ensures (forall j :: 0 <= j < |vals| ==> Dist(vals[j], x) >= minDist) ==> ScanFrom(vals, x, minDist, best) == best
    ensures forall i :: FirstNearest(vals, x, minDist, i) ==> ScanFrom(vals, x, minDist, best) == vals[i]
    decreases |vals|
  {
    if |vals| > 0 {
      var d0 := Dist(vals[0], x);
      var tail := vals[1..];
      ScanFromSpec(tail, x, d0, vals[0]);
      ScanFromSpec(tail, x, minDist, best);
      forall i | FirstNearest(vals, x, minDist, i) ensures ScanFrom(vals, x, minDist, best) == vals[i] {
        if i == 0 {
          assert forall j :: 0 <= j < |tail| ==> Dist(tail[j], x) >= d0 by {
            forall j | 0 <= j < |tail| ensures Dist(tail[j], x) >= d0 {
              assert tail[j] == vals[j + 1];
            }
          }
        } else if d0 < minDist {
          ShiftFirst(vals, x, minDist, d0, i);
        } else {
          ShiftFirst(vals, x, minDist, minDist, i);
        }
      }
    }
  }

  /** Dropping the head keeps a later first-nearest value first-nearest,
      under any bound it beats. */
  lemma ShiftFirst(vals: seq<int>, x: real, bound: real, bound': real, i: int)
    requires FirstNearest(vals, x, bound, i) && i > 0
    requires Dist(vals[i], x) < bound'
    ensures FirstNearest(vals[1..], x, bound', i - 1)
  {
    var tail := vals[1..];
    assert tail[i - 1] == vals[i];
    forall j | 0 <= j < i - 1 ensures Dist(tail[j], x) > Dist(tail[i - 1], x) {
      assert tail[j] == vals[j + 1];
    }
    forall j | i - 1 < j < |tail| ensures Dist(tail[j], x) >= Dist(tail[i - 1], x) {
      assert tail[j] == vals[j + 1];
    }
  }

  /** What the loop computes: the first value nearest to `x` when one lies
      within distance 100, and -1 when none does. */
  lemma NearestValueSpec(vals: seq<int>, x: real)
    ensures (forall j :: 0 <= j < |vals| ==> Dist(vals[j], x) >= 100.0) ==> NearestValue(vals, x) == -1
    ensures forall i :: FirstNearest(vals, x, 100.0, i) ==> NearestValue(vals, x) == vals[i]
  {
    ScanFromSpec(vals, x, 100.0, -1);
  }

  /** When some value lies within the bound, a first-nearest one exists. */
  lemma {:induction false} FirstNearestExists(vals: seq<int>, x: real, bound: real, k: int)
    requires 0 <= k < |vals| && Dist(vals[k], x) < bound
    ensures exists i :: FirstNearest(vals, x, bound, i)
    decreases |vals|
  {
    if |vals| == 1 {
      assert FirstNearest(vals, x, bound, 0);
    } else {
      var init := vals[..|vals| - 1];
      var last := |vals| - 1;
      if k < last {
        assert init[k] == vals[k];
        FirstNearestExists(init, x, bound, k);
        var i :| FirstNearest(init, x, bound, i);
        if Dist(vals[last], x) >= Dist(vals[i], x) {
          ExtendFirst(vals, x, bound, i);
        } else {
          LastFirst(vals, x, bound, i);
        }
      } else if exists j :: 0 <= j < last && Dist(vals[j], x) <= Dist(vals[last], x) {
        var j :| 0 <= j < last && Dist(vals[j], x) <= Dist(vals[last], x);
        assert init[j] == vals[j];
        FirstNearestExists(init, x, bound, j);
        var i :| FirstNearest(init, x, bound, i);
        assert Dist(vals[i], x) <= Dist(vals[j], x) by {
          assert init[i] == vals[i];
          if i < j {
          } else if j < i {
          }
        }
        ExtendFirst(vals, x, bound, i);
      } else {
        assert FirstNearest(vals, x, bound, last);
      }
    }
  }

  /** A first-nearest value of all but the last element stays first-nearest
      when the last element is no nearer. */
  lemma ExtendFirst(vals: seq<int>, x: real, bound: real, i: int)
    requires |vals| > 0 && FirstNearest(vals[..|vals| - 1], x, bound, i)
    requires Dist(vals[|vals| - 1], x) >= Dist(vals[i], x)
    ensures FirstNearest(vals, x, bound, i)
  {
    var init := vals[..|vals| - 1];
    assert init[i] == vals[i];
    forall j | 0 <= j < i ensures Dist(vals[j], x) > Dist(vals[i], x) {
      assert init[j] == vals[j];
    }
    forall j | i < j < |vals| ensures Dist(vals[j], x) >= Dist(vals[i], x) {
      if j < |vals| - 1 {
        assert init[j] == vals[j];
      }
    }
  }

  /** A last element strictly nearer than the first-nearest value of the
      others is the first-nearest value of all. */
  lemma LastFirst(vals: seq<int>, x: real, bound: real, i: int)
    requires |vals| > 0 && FirstNearest(vals[..|vals| - 1], x, bound, i)
    requires Dist(vals[|vals| - 1], x) < Dist(vals[i], x)
    ensures FirstNearest(vals, x, bound, |vals| - 1)
  {
    var init := vals[..|vals| - 1];
    assert init[i] == vals[i];
    forall j | 0 <= j < |vals| - 1 ensures Dist(vals[j], x) > Dist(vals[|vals| - 1], x) {
      assert init[j] == vals[j];
      if j != i {
        assert Dist(init[j], x) >= Dist(init[i], x);
      }
    }
  }
}
