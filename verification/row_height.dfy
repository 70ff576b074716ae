/**
  Row height of a block in the grid, chosen from the number of items the
  block holds. The thresholds form a table of three bands; a count is
  classified by the first band whose upper bound it lies strictly below.
 */
module RowHeight {

  /** An exclusive upper bound on an item count; the last band has none. */
  datatype Limit = Below(bound: int) | Unbounded

  datatype Threshold = Threshold(max: Limit, height: string)

  const SMALL: Threshold := Threshold(Below(10), "1")
  const MEDIUM: Threshold := Threshold(Below(20), "2")
  const LARGE: Threshold := Threshold(Unbounded, "3")

  predicate Under(n: int, l: Limit)
  {
    match l
    case Below(b) => n < b
    case Unbounded => true
  }

  /** `l1` lies strictly below `l2`; every bound lies below `Unbounded`. */
  predicate LimitLess(l1: Limit, l2: Limit)
  {
    match (l1, l2)
    case (Below(a), Below(b)) => a < b
    case (Below(_), Unbounded) => true
    case (Unbounded, _) => false
  }

  /** A height read as the number of grid rows it spans. */
  function Rows(h: string): nat
  {
    if h == "1" then 1 else if h == "2" then 2 else if h == "3" then 3 else 0
  }

  /** The row height for `itemCount` items: below 10 items one row, below 20
      two rows, otherwise three. */
  function CalculateRowHeight(itemCount: int): (h: string)
    ensures h == "1" || h == "2" || h == "3"
    ensures itemCount < 10 ==> h == "1"
    ensures 10 <= itemCount < 20 ==> h == "2"
    ensures 20 <= itemCount ==> h == "3"
  {
    if Under(itemCount, SMALL.max) then SMALL.height
    else if Under(itemCount, MEDIUM.max) then MEDIUM.height
    else LARGE.height
  }

  /** The bands' bounds increase strictly and their heights increase with
      them, so the table is well ordered. */
  lemma ThresholdsOrdered()
    ensures LimitLess(SMALL.max, MEDIUM.max) && LimitLess(MEDIUM.max, LARGE.max)
    ensures Rows(SMALL.height) < Rows(MEDIUM.height) < Rows(LARGE.height)
  {
  }

  /** More items never make a row shorter. */
  lemma Monotone(a: int, b: int)
    requires a <= b
    ensures Rows(CalculateRowHeight(a)) <= Rows(CalculateRowHeight(b))
  {
  }

  /** The number of rows is one more than the number of bounded bands whose
      bound the count has reached: each band passed adds one row. */
  lemma RowsCountReachedBands(n: int)
    ensures Rows(CalculateRowHeight(n)) == 1 + (if !Under(n, SMALL.max) then 1 else 0) + (if !Under(n, MEDIUM.max) then 1 else 0)
  {
  }
}
