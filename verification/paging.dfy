/** The argument clamping of get_all_articles and SQL's LIMIT ... OFFSET. */
module Paging {
  import opened Base

  const DefaultLimit := 50
  const MaxLimit := 100

  /**
   * The page size actually used: a missing limit or one above 100 falls back
   * to the default of 50 (not to 100), and one below 1 is raised to 1.
   */
  function ClampLimit(limit: Option<int>): (r: int)
    ensures 1 <= r <= MaxLimit
    ensures limit.None? ==> r == DefaultLimit
    ensures limit.Some? && limit.value > MaxLimit ==> r == DefaultLimit
    ensures limit.Some? && limit.value < 1 ==> r == 1
    ensures limit.Some? && 1 <= limit.value <= MaxLimit ==> r == limit.value
  {
    var l := if limit.None? || limit.value > MaxLimit then DefaultLimit else limit.value;
    if l < 1 then 1 else l
  }

  /** The number of rows skipped: a missing or negative offset becomes 0. */
  function ClampOffset(offset: Option<int>): (r: int)
    ensures r >= 0
    ensures offset.None? || offset.value < 0 ==> r == 0
    ensures offset.Some? && offset.value >= 0 ==> r == offset.value
  {
    if offset.None? || offset.value < 0 then 0 else offset.value
  }

  /** rows LIMIT limit OFFSET offset, for non-negative arguments. */
  function Window<T>(rows: seq<T>, limit: int, offset: int): (r: seq<T>)
    requires limit >= 0 && offset >= 0
    ensures |r| == Min(limit, Max(0, |rows| - offset))
    ensures forall i :: 0 <= i < |r| ==> r[i] == rows[offset + i]
  {
    if offset >= |rows| then [] else rows[offset..Min(|rows|, offset + limit)]
  }
}
