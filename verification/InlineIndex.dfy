/** The inline index (apps/antelope/index-inline.c). */
module InlineIndex {
  // A binary search in a relation whose indexed attribute never decreases from row to row, and an iterator over
  // the rows between two bounds.
  //
  // `column` holds the attribute's value in each row, as get_value reads it.

  datatype Maybe = Found(row: nat) | Invalid

  /** The values never decrease from row to row. */
  predicate Sorted(column: seq<int>) {
    forall i, j | 0 <= i < j < |column| :: column[i] <= column[j]
  }

  predicate AtMostOnce(column: seq<int>, x: int) {
    forall i, j | 0 <= i < j < |column| && column[i] == x :: column[j] != x
  }

  /** The tuple numbers are unsigned 32-bit numbers. */
  function Pred32(x: int): int { if x == 0 then 0xffff_ffff else x - 1 }

  /** A row holds the target, or is the last row below it or the first row above it. */
  predicate Nearest(column: seq<int>, target: int, row: nat) {
    && row < |column|
    && (target in column ==> column[row] == target)
    && (column[row] < target ==> forall i | row < i < |column| :: column[i] > target)
    && (column[row] > target ==> forall i | 0 <= i < row :: column[i] < target)
  }

  /** Where the search between the rows min and max ends. */
  function LandingFrom(column: seq<int>, target: int, min: nat, max: nat): (row: nat)
    requires min <= max < |column|
    ensures min <= row <= max
    decreases max - min
  {
    var center := min + (max - min) / 2;
    if target > column[center] then (if center < max then LandingFrom(column, target, center + 1, max) else center)
    else if target < column[center] then (if min < center then LandingFrom(column, target, min, center - 1) else center)
    else center
  }

  lemma LandingStep(column: seq<int>, target: int, min: nat, max: nat, center: nat)
    requires min <= max < |column| && center == min + (max - min) / 2
    ensures LandingFrom(column, target, min, max) ==
            if target > column[center] && center < max then LandingFrom(column, target, center + 1, max)
            else if target < column[center] && min < center then LandingFrom(column, target, min, center - 1)
            else center
  {
  }

  function Landing(column: seq<int>, target: int): (row: nat)
    requires column != []
    ensures row < |column|
  {
    LandingFrom(column, target, 0, |column| - 1)
  }

  lemma {:induction false} LandingFromNearest(column: seq<int>, target: int, min: nat, max: nat)
    requires min <= max < |column| && Sorted(column) && column[0] <= target
    requires forall i | 0 <= i < min :: column[i] < target
    requires forall i | max < i < |column| :: column[i] > target
    ensures Nearest(column, target, LandingFrom(column, target, min, max))
    decreases max - min
  {
    hide LandingFrom;
    var center := min + (max - min) / 2;
    LandingStep(column, target, min, max, center);
    if target > column[center] {
      if center < max {
        LandingFromNearest(column, target, center + 1, max);
      }
    } else if target < column[center] {
      if min < center {
        LandingFromNearest(column, target, min, center - 1);
      }
    }
  }

  /** The search ends at the target, or next to where it would be. */
  lemma LandingNearest(column: seq<int>, target: int)
    requires column != [] && Sorted(column) && column[0] <= target
    ensures Nearest(column, target, Landing(column, target))
  {
    LandingFromNearest(column, target, 0, |column| - 1);
  }

  lemma Absent(column: seq<int>, target: int, row: nat)
    requires Nearest(column, target, row)
    ensures column[row] == target <==> target in column
  {
  }

  /** The search for `target`, which must not lie below the first value: there the program's unsigned
    * maximum would wrap around. */
  method BinarySearch(column: seq<int>, target: int, exact: bool) returns (r: Maybe)
    requires 0 < |column| <= 0xffff_fffe && Sorted(column) && column[0] <= target
    ensures r.Found? ==> r.row == Landing(column, target) && Nearest(column, target, r.row)
    ensures r.Invalid? <==> exact && target !in column
  {
    hide Sorted, Nearest, LandingFrom;
    LandingNearest(column, target);
    Absent(column, target, Landing(column, target));
    var min, max := 0, |column| - 1;
    var center := 0;
    while true
      invariant 0 <= min <= max < |column|
      invariant LandingFrom(column, target, min, max) == Landing(column, target)
      decreases max - min
    {
      center := min + (max - min) / 2;
      LandingStep(column, target, min, max, center);
      var value := column[center];
      if target > value {
        min := center + 1;
      } else {
        max := Pred32(center);
      }
      if min > max || target == value {
        break;
      }
    }
    if exact && column[center] != target {
      return Invalid;
    }
    return Found(center);
  }

  method RangeSearch(column: seq<int>, low: int, high: int) returns (ok: bool, first: nat, last: nat)
    requires 0 < |column| <= 0xffff_fffe && Sorted(column) && column[0] <= low && column[0] <= high
    ensures ok <==> !(low == high && low !in column)
    ensures ok ==> first == Landing(column, low) && last == Landing(column, high)
    ensures ok ==> Nearest(column, low, first) && Nearest(column, high, last)
  {
    var exact := low == high;
    ok, first, last := false, 0, 0;
    var r := BinarySearch(column, low, exact);
    if r.Invalid? {
      return;
    }
    first := r.row;
    r := BinarySearch(column, high, exact);
    if r.Invalid? {
      return;
    }
    ok, last := true, r.row;
  }

  // ---------------------------------------------------------------- the rows that an iterator visits

  /** The rows from `first` to `last`; the first one is visited even when the range is empty. */
  function Visited(first: nat, last: nat): seq<nat> {
    seq(if last < first then 1 else last - first + 1, i => first + i)
  }

  predicate Between(x: int, low: int, high: int) { low <= x <= high }

  predicate Covers(column: seq<int>, low: int, high: int, first: nat, last: nat) {
    forall i: nat | i < |column| && Between(column[i], low, high) :: i in Visited(first, last)
  }

  lemma InVisited(first: nat, last: nat, i: nat)
    ensures i in Visited(first, last) <==> first <= i <= last || i == first
  {
    if first <= i <= last || i == first {
      assert Visited(first, last)[i - first] == i;
    }
  }

  /** The visited rows are consecutive, and at most one at each end lies outside the bounds.  They contain
    * every row between the bounds if the values at the bounds occur at most once. */
  lemma VisitedCovers(column: seq<int>, low: int, high: int, first: nat, last: nat)
    requires Sorted(column) && Nearest(column, low, first) && Nearest(column, high, last)
    ensures forall i: nat | first < i < last :: Between(column[i], low, high)
    ensures forall i | i in Visited(first, last) :: i < |column|
    ensures AtMostOnce(column, low) && AtMostOnce(column, high) ==> Covers(column, low, high, first, last)
  {
    if AtMostOnce(column, low) && AtMostOnce(column, high) {
      forall i: nat | i < |column| && Between(column[i], low, high)
        ensures i in Visited(first, last)
      {
        InVisited(first, last, i);
      }
    }
  }

  /** A range search visits every row between its bounds if and only if it lands on the first row with the
    * lower bound and on the last row with the upper one, as far as there are such rows. */
  lemma RangeCoversIff(column: seq<int>, low: int, high: int)
    requires column != [] && Sorted(column) && column[0] <= low <= high
    ensures Covers(column, low, high, Landing(column, low), Landing(column, high)) <==>
            && (forall i | 0 <= i < Landing(column, low) :: column[i] != low)
            && (forall i | Landing(column, high) < i < |column| :: column[i] != high)
  {
    LandingNearest(column, low);
    LandingNearest(column, high);
    hide Landing;
    var first, last := Landing(column, low), Landing(column, high);
    forall i: nat {
      InVisited(first, last, i);
    }
    if Covers(column, low, high, first, last) {
      forall i | 0 <= i < first
        ensures column[i] != low
      {
        assert i !in Visited(first, last);
      }
      forall i | last < i < |column|
        ensures column[i] != high
      {
        assert i in Visited(first, last) ==> i == first;
      }
    }
  }

  /** An equality search visits every row with the value if and only if the value occurs at most once. */
  lemma EqualityCoversIff(column: seq<int>, x: int)
    requires column != [] && Sorted(column) && x in column
    ensures Covers(column, x, x, Landing(column, x), Landing(column, x)) <==> AtMostOnce(column, x)
  {
    LandingNearest(column, x);
    hide Landing;
    var row := Landing(column, x);
    forall i: nat {
      InVisited(row, row, i);
    }
    if Covers(column, x, x, row, row) {
      forall i, j | 0 <= i < j < |column| && column[i] == x
        ensures column[j] != x
      {
        assert i in Visited(row, row);
        assert column[j] == x ==> j in Visited(row, row);
      }
    }
  }

  lemma VisitedCount(column: seq<int>, low: int, high: int, first: nat, last: nat)
    requires Nearest(column, low, first) && Nearest(column, high, last)
    ensures |Visited(first, last)| <= |column| - first
  {
  }

  /** The search for a value that three rows have lands on the middle one, and the iterator misses the
    * others. */
  lemma EqualValuesAreMissed()
    ensures Sorted([5, 5, 5]) && Landing([5, 5, 5], 5) == 1
    ensures 0 !in Visited(1, 1) && 2 !in Visited(1, 1) && !Covers([5, 5, 5], 5, 5, 1, 1)
  {
    var column := [5, 5, 5];
    assert LandingFrom(column, 5, 0, 2) == 1;
    assert column[0] == 5 && 0 !in Visited(1, 1);
  }

  /** An iterator over the index, with the search result that get_next caches. */
  class Iterator {
    const column: seq<int>
    const low: int
    const high: int
    const unique: bool
    var nextItem: nat
    var first: nat
    var last: nat

    predicate Usable() {
      0 < |column| <= 0xffff_fffe && Sorted(column) && column[0] <= low && column[0] <= high
    }

    ghost predicate Valid()
      reads this
    {
      Usable() &&
      (nextItem > 0 ==>
        && first == Landing(column, low) && last == Landing(column, high)
        && Nearest(column, low, first) && Nearest(column, high, last)
        && nextItem <= |Visited(first, last)| <= |column|
        && (low == high ==> low in column))
    }

    /** index_get_iterator. */
    constructor (column: seq<int>, low: int, high: int, unique: bool)
      requires 0 < |column| <= 0xffff_fffe && Sorted(column) && column[0] <= low && column[0] <= high
      ensures Valid() && nextItem == 0
      ensures this.column == column && this.low == low && this.high == high && this.unique == unique
    {
      this.column, this.low, this.high, this.unique := column, low, high, unique;
      nextItem, first, last := 0, 0, 0;
    }

    method GetNext() returns (r: Maybe)
      requires Valid()
      modifies this
      ensures Valid()
      ensures old(nextItem) > 0 ==> first == old(first) && last == old(last)
      ensures r.Found? ==>
                && nextItem == old(nextItem) + 1 <= |Visited(first, last)| <= |column|
                && r.row == Visited(first, last)[old(nextItem)] < |column|
      ensures r.Invalid? ==>
                && nextItem == old(nextItem)
                && nextItem == if low == high && low !in column then 0 else |Visited(first, last)|
    {
      if unique && nextItem == 1 && low == high {
        return Invalid;
      }
      if nextItem == 0 {
        var ok;
        ok, first, last := RangeSearch(column, low, high);
        if !ok {
          first, last := 0, 0;
          return Invalid;
        }
        VisitedCount(column, low, high, first, last);
        nextItem := nextItem + 1;
        return Found(first);
      } else if first + nextItem <= last {
        nextItem := nextItem + 1;
        return Found(first + nextItem - 1);
      }
      return Invalid;
    }
  }
}
