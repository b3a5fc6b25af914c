/** The interpolation search over a sorted sequence. */
module InterpolationSearch {

  ghost predicate Sorted(a: seq<int>) { forall i, j :: 0 <= i <= j < |a| ==> a[i] <= a[j] }

  /** The guess between two bounds that enclose the value: at or after the lower one, before the upper one. */
  function Guess(low: nat, high: nat, atLow: int, atHigh: int, val: int): (mid: nat)
    requires low < high && atLow < val < atHigh
    ensures low <= mid < high
  {
    InBetween(val - atLow, high - low, atHigh - atLow);
    low + (val - atLow) * (high - low) / (atHigh - atLow)
  }

  lemma InBetween(d: int, w: int, r: int)
    requires 0 < d < r && 0 < w
    ensures 0 <= d * w / r < w
  {
    assert 0 <= d * w;
    assert d * w < r * w;
    Quotient(d * w, w, r);
  }

  lemma Quotient(x: int, w: int, r: int)
    requires 0 <= x < r * w && 0 < r
    ensures 0 <= x / r < w
  {
    var k := x / r;
    assert r * k <= x;
    assert k >= w ==> r * k >= r * w;
  }

  /**
   find_begin: the position of the value if it occurs; otherwise one with only smaller elements
   before it. The divisor is never zero, and the bounds never leave the sequence.
   */
  method FindBegin(a: seq<int>, val: int) returns (pos: nat)
    requires a != [] && Sorted(a)
    ensures pos < |a|
    ensures val in a <==> a[pos] == val
    ensures val !in a ==> forall k :: 0 <= k < pos ==> a[k] < val
  {
    var low, high := 0, |a| - 1;
    while a[low] < val && a[high] > val
      invariant 0 <= low <= high < |a|
      invariant forall k :: 0 <= k < low ==> a[k] < val
      invariant forall k :: high < k < |a| ==> a[k] > val
      decreases high - low
    {
      var mid := Guess(low, high, a[low], a[high], val);
      if a[mid] < val {
        low := mid + 1;
      } else if a[mid] > val {
        high := mid - 1;
      } else {
        return mid;
      }
    }
    if val == a[low] {
      pos := low;
    } else if val == a[high] {
      pos := high;
    } else {
      pos := low;
    }
  }
}
