/**
  Evaluation of a Kudu column predicate on cells (ColumnPredicate::EvaluateCell,
  EvaluateCellForBloomFilter and Evaluate in src/kudu/common/column_predicate.h).

  Cells are values of any type T ordered by a three-way comparison cmp, which
  stands for DataTypeTraits<PhysicalType>::Compare: negative, zero or positive
  as the first cell sorts before, equal to or after the second. A bloom filter
  of an InBloomFilter predicate is its MayContainKey test, a function of the
  cell.
*/
module ColumnPredicates {
  import opened Wrappers

  datatype PredicateType = None | Equality | Range | IsNotNull | IsNull | InList | InBloomFilter

  /**
    A predicate: lower is the inclusive lower bound of a Range or the value of an
    Equality, upper the exclusive upper bound; an absent bound is a nullptr.
  */
  datatype ColumnPredicate<!T> = ColumnPredicate(
    kind: PredicateType,
    lower: Option<T>,
    upper: Option<T>,
    values: seq<T>,
    blooms: seq<T -> bool>)

  /** cmp is a three-way comparison of a total order whose equal elements are identical. */
  ghost predicate IsCompare<T(!new)>(cmp: (T, T) -> int)
  {
    && (forall a, b :: cmp(a, b) == 0 <==> a == b)
    && (forall a, b :: cmp(a, b) < 0 <==> cmp(b, a) > 0)
    && (forall a, b, c :: cmp(a, b) < 0 && cmp(b, c) < 0 ==> cmp(a, c) < 0)
  }

  /** values_ is sorted and free of duplicates. */
  ghost predicate StrictlySorted<T>(vs: seq<T>, cmp: (T, T) -> int)
  {
    forall i, j :: 0 <= i < j < |vs| ==> cmp(vs[i], vs[j]) < 0
  }

  /**
    What the factories guarantee of the bounds EvaluateCell reads: an
    Equality has its value and a Range at least one bound; an InList's values
    are sorted and unique.
  */
  ghost predicate WellFormed<T>(p: ColumnPredicate<T>, cmp: (T, T) -> int)
  {
    && (p.kind == Equality ==> p.lower.Some?)
    && (p.kind == Range ==> p.lower.Some? || p.upper.Some?)
    && (p.kind == InList ==> StrictlySorted(p.values, cmp))
  }

  /**
    The Range factory on a column ordered by cmp: at most one of the two bounds
    may be null. A range whose lower bound does not sort before its upper bound
    holds no cell and is simplified to None; any other range stays a Range on
    the given bounds. Either way the predicate accepts exactly [lower, upper).
  */
  function RangePredicate<T(!new)>(lower: Option<T>, upper: Option<T>, cmp: (T, T) -> int): (p: ColumnPredicate<T>)
    requires lower.Some? || upper.Some?
    ensures WellFormed(p, cmp)
    ensures p.kind == PredicateType.None <==> lower.Some? && upper.Some? && cmp(lower.value, upper.value) >= 0
    ensures p.kind != PredicateType.None ==> p.kind == Range && p.lower == lower && p.upper == upper
    ensures IsCompare(cmp) ==> forall cell :: EvaluateCell(p, cmp, cell) == InInterval(lower, upper, cmp, cell)
  {
    if lower.Some? && upper.Some? && cmp(lower.value, upper.value) >= 0 then
      ColumnPredicate(PredicateType.None, Option.None, Option.None, [], [])
    else
      ColumnPredicate(Range, lower, upper, [], [])
  }

  /**
    std::lower_bound over vs[lo..hi] with the comparator Compare(lhs, rhs) < 0:
    the first position whose value does not sort before x.
  */
  function LowerBound<T>(vs: seq<T>, x: T, cmp: (T, T) -> int, lo: nat, hi: nat): (i: nat)
    requires lo <= hi <= |vs|
    ensures lo <= i <= hi
    decreases hi - lo
  {
    if lo == hi then lo
    else
      var mid := lo + (hi - lo) / 2;
      if cmp(vs[mid], x) < 0 then LowerBound(vs, x, cmp, mid + 1, hi) else LowerBound(vs, x, cmp, lo, mid)
  }

  /** std::binary_search: the lower bound is inside the list and x does not sort before it. */
  function BinarySearch<T>(vs: seq<T>, x: T, cmp: (T, T) -> int): bool
  {
    var i := LowerBound(vs, x, cmp, 0, |vs|);
    i < |vs| && !(cmp(x, vs[i]) < 0)
  }

  /** In a sorted list the lower bound splits the values sorting before x from the rest. */
  lemma {:induction false} LowerBoundSplits<T(!new)>(vs: seq<T>, x: T, cmp: (T, T) -> int, lo: nat, hi: nat)
    requires IsCompare(cmp) && StrictlySorted(vs, cmp) && lo <= hi <= |vs|
    requires forall j :: 0 <= j < lo ==> cmp(vs[j], x) < 0
    requires forall j :: hi <= j < |vs| ==> !(cmp(vs[j], x) < 0)
    ensures forall j :: 0 <= j < LowerBound(vs, x, cmp, lo, hi) ==> cmp(vs[j], x) < 0
    ensures forall j :: LowerBound(vs, x, cmp, lo, hi) <= j < |vs| ==> !(cmp(vs[j], x) < 0)
    decreases hi - lo
  {
    if lo < hi {
      var mid := lo + (hi - lo) / 2;
      if cmp(vs[mid], x) < 0 {
        forall j | 0 <= j < mid + 1
          ensures cmp(vs[j], x) < 0
        {
          if j < mid {
            assert cmp(vs[j], vs[mid]) < 0;
          }
        }
        LowerBoundSplits(vs, x, cmp, mid + 1, hi);
      } else {
        forall j | mid <= j < |vs|
          ensures !(cmp(vs[j], x) < 0)
        {
          if mid < j {
            assert cmp(vs[mid], vs[j]) < 0;
          }
        }
        LowerBoundSplits(vs, x, cmp, lo, mid);
      }
    }
  }

  /** On sorted, duplicate-free values, binary search is membership. */
  lemma BinarySearchMember<T(!new)>(vs: seq<T>, x: T, cmp: (T, T) -> int)
    requires IsCompare(cmp) && StrictlySorted(vs, cmp)
    ensures BinarySearch(vs, x, cmp) <==> x in vs
  {
    LowerBoundSplits(vs, x, cmp, 0, |vs|);
    var i := LowerBound(vs, x, cmp, 0, |vs|);
    if x in vs {
      var k :| 0 <= k < |vs| && vs[k] == x;
      assert cmp(vs[k], x) == 0;
      assert i == k;
    }
  }

  /** The bloom filter loop: false as soon as one filter rules the cell out. */
  function AllMayContain<T>(blooms: seq<T -> bool>, cell: T): (r: bool)
    ensures r <==> forall i :: 0 <= i < |blooms| ==> blooms[i](cell)
  {
    if |blooms| == 0 then true
    else if !blooms[0](cell) then false
    else AllMayContain(blooms[1..], cell)
  }

  /** EvaluateCellForBloomFilter: every filter may contain the cell, and the cell is within the bounds present. */
  function EvaluateCellForBloomFilter<T>(p: ColumnPredicate<T>, cmp: (T, T) -> int, cell: T): bool
  {
    if !AllMayContain(p.blooms, cell) then false
    else if p.lower.Some? && p.upper.Some? then cmp(cell, p.upper.value) < 0 && cmp(cell, p.lower.value) >= 0
    else if p.upper.Some? then cmp(cell, p.upper.value) < 0
    else if p.lower.Some? then cmp(cell, p.lower.value) >= 0
    else true
  }

  /** EvaluateCell: whether a non-null cell satisfies the predicate. */
  function EvaluateCell<T>(p: ColumnPredicate<T>, cmp: (T, T) -> int, cell: T): bool
    requires WellFormed(p, cmp)
  {
    match p.kind
    case None => false
    case Range =>
      if p.lower.None? then cmp(cell, p.upper.value) < 0
      else if p.upper.None? then cmp(cell, p.lower.value) >= 0
      else cmp(cell, p.upper.value) < 0 && cmp(cell, p.lower.value) >= 0
    case Equality => cmp(cell, p.lower.value) == 0
    case IsNotNull => true
    case IsNull => false
    case InList => BinarySearch(p.values, cell, cmp)
    case InBloomFilter => EvaluateCellForBloomFilter(p, cmp, cell)
  }

  /** The half-open interval [lower, upper) of the order, an absent bound leaving that side open. */
  predicate InInterval<T>(lower: Option<T>, upper: Option<T>, cmp: (T, T) -> int, cell: T)
  {
    && (lower.None? || !(cmp(cell, lower.value) < 0))
    && (upper.None? || cmp(cell, upper.value) < 0)
  }

  /**
    What each predicate type accepts, stated in terms of the order: None and
    IsNull nothing, IsNotNull everything, Range its interval, Equality the one
    value, InList its members, InBloomFilter what every filter may contain
    within the bounds present.
  */
  lemma EvaluateCellMeaning<T(!new)>(p: ColumnPredicate<T>, cmp: (T, T) -> int, cell: T)
    requires IsCompare(cmp) && WellFormed(p, cmp)
    ensures p.kind == PredicateType.None || p.kind == IsNull ==> !EvaluateCell(p, cmp, cell)
    ensures p.kind == IsNotNull ==> EvaluateCell(p, cmp, cell)
    ensures p.kind == Range ==> (EvaluateCell(p, cmp, cell) <==> InInterval(p.lower, p.upper, cmp, cell))
    ensures p.kind == Equality ==> (EvaluateCell(p, cmp, cell) <==> cell == p.lower.value)
    ensures p.kind == InList ==> (EvaluateCell(p, cmp, cell) <==> cell in p.values)
    ensures p.kind == InBloomFilter ==>
              (EvaluateCell(p, cmp, cell) <==>
                 (forall i :: 0 <= i < |p.blooms| ==> p.blooms[i](cell)) && InInterval(p.lower, p.upper, cmp, cell))
  {
    if p.kind == InList {
      BinarySearchMember(p.values, cell, cmp);
    }
  }

  /**
    Evaluate: ANDs the predicate into the selection vector; a row already
    deselected is skipped, a row whose cell fails is deselected.
  */
  method Evaluate<T>(p: ColumnPredicate<T>, cmp: (T, T) -> int, cells: seq<T>, sel: array<bool>)
    requires WellFormed(p, cmp) && sel.Length == |cells|
    modifies sel
    ensures forall i :: 0 <= i < sel.Length ==> sel[i] == (old(sel[i]) && EvaluateCell(p, cmp, cells[i]))
  {
    for i := 0 to sel.Length
      invariant forall j :: 0 <= j < i ==> sel[j] == (old(sel[j]) && EvaluateCell(p, cmp, cells[j]))
      invariant forall j :: i <= j < sel.Length ==> sel[j] == old(sel[j])
    {
      if sel[i] && !EvaluateCell(p, cmp, cells[i]) {
        sel[i] := false;
      }
    }
  }
}
