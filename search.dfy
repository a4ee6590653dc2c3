/**
 * The model of `slice::binary_search_by` as `find_insert_position` calls it
 * (src/main.rs:76-77): the comparator `file.size.cmp(target).reverse()`
 * treats a descending slice as ascending, so a file larger than the target
 * compares Less, an equal one Equal and a smaller one Greater.
 */
module Search {
  import opened Files

  /** What `binary_search_by` returns: `Ok` with the index of a matching
      element, or `Err` with the index where one could be inserted. */
  datatype SearchResult = Found(index: nat) | NotFound(index: nat)

  /**
   * A binary search over a slice that is descending by size. On a sorted
   * slice the library promises: `Found(i)` only at an element whose size
   * equals the target (any of several equal ones may be chosen);
   * `NotFound(i)` at the point where every element before is larger and
   * every element from it on is smaller. On a slice that is not sorted the
   * library leaves the result unspecified; the bounds stated for that case
   * are those of this implementation.
   */
  method BinarySearchBySize(s: seq<FileData>, target: nat) returns (res: SearchResult)
    ensures res.Found? ==> res.index < |s| && s[res.index].size == target
    ensures res.NotFound? ==> res.index <= |s|
    ensures res.NotFound? && res.index == |s| && |s| > 0 ==> s[|s| - 1].size > target
    ensures res.NotFound? && SortedDesc(s) ==>
      (forall i :: 0 <= i < res.index ==> s[i].size > target) &&
      (forall i :: res.index <= i < |s| ==> s[i].size < target)
  {
    var lo, hi := 0, |s|;
    while lo < hi
      invariant 0 <= lo <= hi <= |s|
      invariant lo == |s| && |s| > 0 ==> s[|s| - 1].size > target
      invariant SortedDesc(s) ==> forall i :: 0 <= i < lo ==> s[i].size > target
      invariant SortedDesc(s) ==> forall i :: hi <= i < |s| ==> s[i].size < target
    {
      var mid := lo + (hi - lo) / 2;
      if s[mid].size > target {
        lo := mid + 1;
      } else if s[mid].size < target {
        hi := mid;
      } else {
        return Found(mid);
      }
    }
    return NotFound(lo);
  }
}
