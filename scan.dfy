/**
 * The part of `main` that feeds the collection (src/main.rs:144-185): the
 * walk's entries are filtered down to candidate files, in walk order, and
 * every candidate is offered to a `FileCollection` of capacity `count`.
 */
module Scan {
  import opened Wrappers
  import opened Files
  import opened Collection
  import opened Selection

  /**
   * One item the directory walk yields. `WalkError` is an `Err` from the
   * walk; an `Entry` carries the path, whether the entry is a regular file,
   * and its length when its metadata could be read.
   */
  datatype WalkItem =
    | WalkError
    | Entry(path: string, isFile: bool, metadata: Option<nat>)

  /** The candidate an item contributes: none, or one file (src/main.rs:147-165). */
  function Admit(item: WalkItem): (r: seq<FileData>)
    ensures |r| <= 1
    ensures forall f :: f in r <==> Yields(item, f)
  {
    if item.Entry? && item.isFile && item.metadata.Some? && item.metadata.value != 0 then
      [FileData(item.path, item.metadata.value)]
    else
      []
  }

  /** The candidate files of a walk, in walk order: at most one per item. */
  function Candidates(items: seq<WalkItem>): (r: seq<FileData>)
    ensures |r| <= |items|
  {
    if items == [] then [] else Candidates(items[..|items| - 1]) + Admit(items[|items| - 1])
  }

  /** The item is a readable regular file whose length is that of `f` and not zero. */
  ghost predicate Yields(item: WalkItem, f: FileData) {
    item == Entry(f.path, true, Some(f.size)) && f.size > 0
  }

  /** Filtering a concatenated walk is filtering each part: walk order is kept. */
  lemma {:induction false} CandidatesAppend(a: seq<WalkItem>, b: seq<WalkItem>)
    ensures Candidates(a + b) == Candidates(a) + Candidates(b)
    decreases |b|
  {
    if b == [] {
      assert a + b == a;
    } else {
      var b' := b[..|b| - 1];
      assert (a + b)[..|a + b| - 1] == a + b';
      assert (a + b)[|a + b| - 1] == b[|b| - 1];
      CandidatesAppend(a, b');
    }
  }

  /**
   * A file is a candidate exactly when some item of the walk is a readable
   * regular file with that path and that non-zero length.
   */
  lemma {:induction false} CandidatesExactly(items: seq<WalkItem>, f: FileData)
    ensures f in Candidates(items) <==> exists i :: 0 <= i < |items| && Yields(items[i], f)
    decreases |items|
  {
    if items != [] {
      var init := items[..|items| - 1];
      CandidatesExactly(init, f);
      if f in Candidates(items) && f !in Candidates(init) {
        assert Yields(items[|items| - 1], f);
      }
      if i :| 0 <= i < |items| && Yields(items[i], f) {
        if i < |items| - 1 {
          assert Yields(init[i], f);
        }
      }
    }
  }

  /** Every candidate has a non-zero length. */
  lemma {:induction false} CandidatesNonEmpty(items: seq<WalkItem>)
    ensures forall f :: f in Candidates(items) ==> f.size > 0
  {
    forall f | f in Candidates(items) ensures f.size > 0 {
      CandidatesExactly(items, f);
    }
  }

  /**
   * The filtering loop of src/main.rs:145-167: skips walk errors, entries
   * that are not regular files, entries whose metadata cannot be read and
   * empty files, and pushes the rest in walk order.
   */
  method CollectCandidates(items: seq<WalkItem>) returns (files: seq<FileData>)
    ensures files == Candidates(items)
    ensures forall f :: f in files ==> f.size > 0
  {
    files := [];
    var i := 0;
    while i < |items|
      invariant 0 <= i <= |items|
      invariant files == Candidates(items[..i])
    {
      assert items[..i + 1][..i] == items[..i];
      var item := items[i];
      if item.Entry? && item.isFile {
        match item.metadata
        case Some(len) =>
          if len != 0 {
            files := files + [FileData(item.path, len)];
          }
        case None =>
      }
      i := i + 1;
    }
    assert items[..i] == items;
    CandidatesNonEmpty(items);
  }

  function Min(a: nat, b: nat): nat {
    if a <= b then a else b
  }

  /**
   * Top-K selection: a consistent collection of capacity `count` holds
   * `min(|offered|, count)` of the offered files, descending once it holds
   * `count`, and no offered file it does not hold is larger than any file it
   * holds.
   */
  lemma {:induction false} ConsistentIsTopK(count: nat, kept: seq<FileData>, offered: seq<FileData>, rejected: seq<FileData>)
    requires Consistent(count, kept, offered, rejected)
    ensures |kept| == Min(|offered|, count)
    ensures |offered| >= count ==> SortedDesc(kept)
    ensures multiset(kept) <= multiset(offered)
    ensures forall x, y :: x in multiset(offered) - multiset(kept) && y in kept ==> x.size <= y.size
  {
    assert |multiset(kept)| + |multiset(rejected)| == |multiset(offered)|;
    assert multiset(offered) - multiset(kept) == multiset(rejected);
    forall x, y | x in multiset(offered) - multiset(kept) && y in kept ensures x.size <= y.size {
      var j :| 0 <= j < |rejected| && rejected[j] == x;
      var k :| 0 <= k < |kept| && kept[k] == y;
    }
  }

  /**
   * The insertion loop of src/main.rs:182-185: every candidate goes through
   * `smart_insert`, and the kept files are the result. It holds
   * `min(|files|, count)` of the candidates; with fewer candidates than
   * `count` they are all kept in walk order, unsorted; otherwise the result
   * is descending and no candidate left out is larger than any kept one.
   */
  method CollectBiggest(files: seq<FileData>, count: nat) returns (biggest: seq<FileData>)
    ensures |biggest| == Min(|files|, count)
    ensures |files| < count ==> biggest == files
    ensures |files| >= count ==> SortedDesc(biggest)
    ensures multiset(biggest) <= multiset(files)
    ensures forall x, y :: x in multiset(files) - multiset(biggest) && y in biggest ==> x.size <= y.size
    ensures |files| >= count ==> Sizes(biggest) == Sizes(SortBySizeDesc(files)[..count])
  {
    var collection := new FileCollection(count);
    var i := 0;
    while i < |files|
      invariant 0 <= i <= |files|
      invariant collection.Valid() && collection.maxSize == count
      invariant i < count ==> collection.files == files[..i]
      invariant collection.Offered == files[..i]
    {
      var file := files[i];
      assert files[..i + 1] == files[..i] + [file];
      collection.SmartInsert(file);
      i := i + 1;
    }
    assert files[..i] == files;
    biggest := collection.files;
    ConsistentIsTopK(count, biggest, files, collection.Rejected);
    if |files| >= count {
      TopKMatchesFullSort(count, biggest, files, collection.Rejected);
    }
  }

  /**
   * The part of `main` from the walk to the kept files (src/main.rs:144-185):
   * the candidates of the walk are collected, then offered one by one to a
   * collection of capacity `count`. The result holds no empty file and no
   * entry that is not a readable regular file, and it is the top `count` of
   * the candidates.
   */
  method FattestFiles(walk: seq<WalkItem>, count: nat) returns (biggest: seq<FileData>)
    ensures |biggest| == Min(|Candidates(walk)|, count)
    ensures multiset(biggest) <= multiset(Candidates(walk))
    ensures forall f :: f in biggest ==> f.size > 0 && exists i :: 0 <= i < |walk| && Yields(walk[i], f)
    ensures |Candidates(walk)| < count ==> biggest == Candidates(walk)
    ensures |Candidates(walk)| >= count ==>
      Sizes(biggest) == Sizes(SortBySizeDesc(Candidates(walk))[..count])
    ensures forall x, y :: x in multiset(Candidates(walk)) - multiset(biggest) && y in biggest ==> x.size <= y.size
  {
    var files := CollectCandidates(walk);
    biggest := CollectBiggest(files, count);
    forall f | f in biggest ensures f.size > 0 && exists i :: 0 <= i < |walk| && Yields(walk[i], f) {
      assert f in multiset(biggest);
      CandidatesExactly(walk, f);
    }
  }
}
