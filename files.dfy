/**
 * The record the tool collects for every candidate file (`FileData`,
 * src/main.rs:29-38) and the descending order by size that the collection
 * keeps once it is full.
 */
module Files {

  /** One file found by the walk: its path as text and its length in bytes. */
  datatype FileData = FileData(path: string, size: nat)

  /** Descending by size: no later element is larger than an earlier one. */
  ghost predicate SortedDesc(s: seq<FileData>) {
    forall i, j :: 0 <= i < j < |s| ==> s[i].size >= s[j].size
  }

  /** The sizes of a sequence of files, in the same order. */
  function Sizes(s: seq<FileData>): (r: seq<nat>)
    ensures |r| == |s|
  {
    seq(|s|, i requires 0 <= i < |s| => s[i].size)
  }

  /** A file no smaller than every file of a descending sequence can lead it. */
  lemma ConsSorted(h: FileData, rest: seq<FileData>)
    requires SortedDesc(rest)
    requires forall y :: y in rest ==> y.size <= h.size
    ensures SortedDesc([h] + rest)
  {
    forall i, j | 0 <= i < j < |rest| + 1 ensures ([h] + rest)[i].size >= ([h] + rest)[j].size {
      if i == 0 {
        assert ([h] + rest)[j] in rest;
      }
    }
  }

  /**
   * Puts `x` into the descending sequence `t` in front of the first element
   * that is not larger than it, so that `x` stays ahead of the elements of
   * equal size that came after it in the input.
   */
  function InsertBySize(x: FileData, t: seq<FileData>): (r: seq<FileData>)
    ensures |r| == |t| + 1
    ensures multiset(r) == multiset(t) + multiset{x}
  {
    if t == [] || x.size >= t[0].size then
      [x] + t
    else
      assert t == [t[0]] + t[1..];
      [t[0]] + InsertBySize(x, t[1..])
  }

  /** Inserting into a descending sequence keeps it descending. */
  lemma {:induction false} InsertBySizeSorted(x: FileData, t: seq<FileData>)
    requires SortedDesc(t)
    ensures SortedDesc(InsertBySize(x, t))
  {
    if t == [] || x.size >= t[0].size {
      ConsSorted(x, t);
    } else {
      var rest := InsertBySize(x, t[1..]);
      InsertBySizeSorted(x, t[1..]);
      forall y | y in rest ensures y.size <= t[0].size {
        assert y in multiset(t[1..]) + multiset{x};
        if y != x {
          assert y in t[1..];
        }
      }
      ConsSorted(t[0], rest);
    }
  }

  /**
   * The model of `Vec::sort_by(|a, b| b.size.cmp(&a.size))`
   * (src/main.rs:58): a stable sort, descending by size, here an insertion
   * sort. The result is sorted and is a permutation of the input.
   */
  function SortBySizeDesc(s: seq<FileData>): (r: seq<FileData>)
    ensures |r| == |s|
    ensures SortedDesc(r)
    ensures multiset(r) == multiset(s)
  {
    if s == [] then []
    else
      assert s == [s[0]] + s[1..];
      InsertBySizeSorted(s[0], SortBySizeDesc(s[1..]));
      InsertBySize(s[0], SortBySizeDesc(s[1..]))
  }
}
