/**
 * `FileCollection` (src/main.rs:40-80): keeps the `max_size` largest files
 * seen so far. Below capacity it only appends; the push that fills it sorts
 * it once, descending by size; from then on a candidate smaller than the
 * last (smallest) kept file is rejected, and any other is inserted at its
 * place in the order and the last file is popped.
 */
module Collection {
  import opened Wrappers
  import opened Files
  import opened Search

  /** `pos` splits `s` into files at least `target` and files at most `target`. */
  ghost predicate IsInsertPosition(s: seq<FileData>, target: nat, pos: nat) {
    && pos <= |s|
    && (forall i :: 0 <= i < pos ==> s[i].size >= target)
    && (forall i :: pos <= i < |s| ==> s[i].size <= target)
  }

  /** `files.insert(pos, file)` followed by `files.pop()` (src/main.rs:63-64). */
  function InsertAndPop(s: seq<FileData>, pos: nat, f: FileData): (r: seq<FileData>)
    requires pos < |s|
    ensures |r| == |s|
  {
    var grown := s[..pos] + [f] + s[pos..];
    grown[..|grown| - 1]
  }

  /** Inserting at an insert position of a descending sequence and popping keeps it descending. */
  lemma InsertAndPopSorted(s: seq<FileData>, pos: nat, f: FileData)
    requires SortedDesc(s) && pos < |s| && IsInsertPosition(s, f.size, pos)
    ensures SortedDesc(InsertAndPop(s, pos, f))
  {
    var r := InsertAndPop(s, pos, f);
    assert forall k :: 0 <= k < pos ==> r[k] == s[k];
    assert r[pos] == f;
    assert forall k :: pos < k < |s| ==> r[k] == s[k - 1];
  }

  /**
   * The file that `pop` removes is the last one of `s`: the kept files and
   * the dropped one together are exactly the old files and the new one.
   */
  lemma InsertAndPopMultiset(s: seq<FileData>, pos: nat, f: FileData)
    requires pos < |s|
    ensures multiset(InsertAndPop(s, pos, f)) + multiset{s[|s| - 1]} == multiset(s) + multiset{f}
  {
    var grown := s[..pos] + [f] + s[pos..];
    assert grown == grown[..|grown| - 1] + [s[|s| - 1]];
    assert s == s[..pos] + s[pos..];
    calc {
      multiset(grown);
      multiset(s[..pos]) + multiset{f} + multiset(s[pos..]);
      multiset(s) + multiset{f};
    }
  }

  /**
   * The dropped file is a smallest one: every file that stays, the new one
   * included, is at least as large as it.
   */
  lemma InsertAndPopDropsSmallest(s: seq<FileData>, pos: nat, f: FileData)
    requires SortedDesc(s) && pos < |s| && IsInsertPosition(s, f.size, pos)
    ensures forall k :: 0 <= k < |s| ==> InsertAndPop(s, pos, f)[k].size >= s[|s| - 1].size
  {
    var r := InsertAndPop(s, pos, f);
    forall k | 0 <= k < |s| ensures r[k].size >= s[|s| - 1].size {
      if k < pos {
        assert r[k] == s[k];
      } else if k > pos {
        assert r[k] == s[k - 1];
      }
    }
  }

  /** No file in `rejected` is larger than any file in `kept`. */
  ghost predicate Dominates(kept: seq<FileData>, rejected: seq<FileData>) {
    forall j, k :: 0 <= j < |rejected| && 0 <= k < |kept| ==> rejected[j].size <= kept[k].size
  }

  /**
   * The invariant of a collection of capacity `maxSize` that has been
   * offered `offered`, keeps `kept` and has let go of `rejected`: never over
   * capacity, sorted when full, nothing let go before it is full, no file
   * let go that is larger than a kept one, and kept and let-go files
   * together are exactly the offered ones.
   */
  ghost predicate Consistent(maxSize: nat, kept: seq<FileData>, offered: seq<FileData>, rejected: seq<FileData>) {
    && |kept| <= maxSize
    && (|kept| == maxSize ==> SortedDesc(kept))
    && (|kept| < maxSize ==> rejected == [])
    && Dominates(kept, rejected)
    && multiset(kept) + multiset(rejected) == multiset(offered)
  }

  /** An append that leaves the collection below capacity keeps it consistent. */
  lemma AppendStep(maxSize: nat, kept: seq<FileData>, offered: seq<FileData>, rejected: seq<FileData>, f: FileData)
    requires Consistent(maxSize, kept, offered, rejected) && |kept| + 1 < maxSize
    ensures Consistent(maxSize, kept + [f], offered + [f], rejected)
  {
    assert multiset(kept + [f]) == multiset(kept) + multiset{f};
    assert multiset(offered + [f]) == multiset(offered) + multiset{f};
  }

  /** The append that fills the collection, followed by the sort, keeps it consistent. */
  lemma FillStep(maxSize: nat, kept: seq<FileData>, offered: seq<FileData>, rejected: seq<FileData>, f: FileData)
    requires Consistent(maxSize, kept, offered, rejected) && |kept| + 1 == maxSize
    ensures Consistent(maxSize, SortBySizeDesc(kept + [f]), offered + [f], rejected)
  {
    assert multiset(kept + [f]) == multiset(kept) + multiset{f};
    assert multiset(offered + [f]) == multiset(offered) + multiset{f};
  }

  /** Rejecting a file smaller than the smallest kept one keeps a full collection consistent. */
  lemma RejectStep(maxSize: nat, kept: seq<FileData>, offered: seq<FileData>, rejected: seq<FileData>, f: FileData)
    requires Consistent(maxSize, kept, offered, rejected) && |kept| == maxSize
    requires kept == [] || f.size < kept[|kept| - 1].size
    ensures Consistent(maxSize, kept, offered + [f], rejected + [f])
  {
    assert multiset(rejected + [f]) == multiset(rejected) + multiset{f};
    assert multiset(offered + [f]) == multiset(offered) + multiset{f};
  }

  /**
   * Inserting a file at an insert position of a full collection and popping
   * the last one keeps it consistent: the popped file is a smallest one and
   * joins the let-go files.
   */
  lemma AdmitStep(maxSize: nat, kept: seq<FileData>, offered: seq<FileData>, rejected: seq<FileData>,
                  pos: nat, f: FileData)
    requires Consistent(maxSize, kept, offered, rejected) && |kept| == maxSize
    requires pos < |kept| && IsInsertPosition(kept, f.size, pos)
    ensures Consistent(maxSize, InsertAndPop(kept, pos, f), offered + [f], rejected + [kept[|kept| - 1]])
  {
    var after := InsertAndPop(kept, pos, f);
    var last := kept[|kept| - 1];
    InsertAndPopSorted(kept, pos, f);
    InsertAndPopMultiset(kept, pos, f);
    InsertAndPopDropsSmallest(kept, pos, f);
    assert multiset(rejected + [last]) == multiset(rejected) + multiset{last};
    assert multiset(offered + [f]) == multiset(offered) + multiset{f};
    calc {
      multiset(after) + multiset(rejected + [last]);
      (multiset(after) + multiset{last}) + multiset(rejected);
      (multiset(kept) + multiset{f}) + multiset(rejected);
      multiset(offered + [f]);
    }
  }

  class FileCollection {
    /** The kept files; the `Vec<FileData>` of the source. */
    var files: seq<FileData>
    /** The capacity, `max_size`: never changed after construction. */
    const maxSize: nat
    /** Every file offered to the collection, in the order offered. */
    ghost var Offered: seq<FileData>
    /** Every file offered to the collection and not kept (popped or rejected). */
    ghost var Rejected: seq<FileData>

    ghost predicate Valid()
      reads this
    {
      Consistent(maxSize, files, Offered, Rejected)
    }

    /** `FileCollection::new` (src/main.rs:46-51): an empty collection. */
    constructor (maxSize: nat)
      ensures Valid()
      ensures this.maxSize == maxSize && files == [] && Offered == [] && Rejected == []
    {
      this.maxSize := maxSize;
      files := [];
      Offered, Rejected := [], [];
    }

    /**
     * `find_insert_position` (src/main.rs:69-79). `None` exactly when there
     * is nothing to compare with or the target is smaller than the last
     * file; otherwise an index inside the vector that, on a descending
     * vector, is an insert position for the target.
     */
    method FindInsertPosition(targetSize: nat) returns (r: Option<nat>)
      ensures r.None? <==> files == [] || targetSize < files[|files| - 1].size
      ensures r.Some? ==> r.value < |files|
      ensures r.Some? && SortedDesc(files) ==> IsInsertPosition(files, targetSize, r.value)
    {
      if files == [] || targetSize < files[|files| - 1].size {
        return None;
      }
      var res := BinarySearchBySize(files, targetSize);
      match res
      case Found(pos) =>
        r := Some(pos);
      case NotFound(pos) =>
        r := Some(pos);
    }

    /**
     * `smart_insert` (src/main.rs:53-67). Below capacity the file is
     * appended, and the collection is sorted by the push that fills it. At
     * capacity the file is rejected when smaller than the last kept file,
     * and otherwise it takes its place in the order and the last file is
     * dropped. Every branch keeps the invariant `Valid`.
     */
    method SmartInsert(file: FileData)
      requires Valid()
      modifies this
      ensures Valid()
      ensures |files| == if old(|files|) < maxSize then old(|files|) + 1 else maxSize
      ensures Offered == old(Offered) + [file]
      // below capacity: append only, no reordering
      ensures old(|files|) + 1 < maxSize ==> files == old(files) + [file] && Rejected == old(Rejected)
      // the push that fills it: sorted, and the same files
      ensures old(|files|) + 1 == maxSize ==>
        files == SortBySizeDesc(old(files) + [file]) && Rejected == old(Rejected)
      // at capacity, a file smaller than the smallest kept one: nothing kept changes
      ensures old(|files|) == maxSize && (old(files) == [] || file.size < old(files)[maxSize - 1].size) ==>
        files == old(files) && Rejected == old(Rejected) + [file]
      // at capacity, any other file: inserted in order, the smallest dropped
      ensures old(|files|) == maxSize && old(files) != [] && file.size >= old(files)[maxSize - 1].size ==>
        && (exists pos: nat :: IsInsertPosition(old(files), file.size, pos) && pos < maxSize &&
                               files == InsertAndPop(old(files), pos, file))
        && Rejected == old(Rejected) + [old(files)[maxSize - 1]]
    {
      if |files| < maxSize {
        if |files| + 1 < maxSize {
          AppendStep(maxSize, files, Offered, Rejected, file);
        } else {
          FillStep(maxSize, files, Offered, Rejected, file);
        }
        files := files + [file];
        if |files| == maxSize {
          files := SortBySizeDesc(files);
        }
      } else {
        var index := FindInsertPosition(file.size);
        if index.Some? {
          AdmitStep(maxSize, files, Offered, Rejected, index.value, file);
          ghost var before := files;
          files := files[..index.value] + [file] + files[index.value..];
          files := files[..|files| - 1];
          assert files == InsertAndPop(before, index.value, file);
          Rejected := Rejected + [before[|before| - 1]];
        } else {
          RejectStep(maxSize, files, Offered, Rejected, file);
          Rejected := Rejected + [file];
        }
      }
      Offered := Offered + [file];
    }
  }
}
