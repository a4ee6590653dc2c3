# Largest files of a directory tree

A model of the core of a small command-line tool, written in Rust, that
walks a directory tree and reports its `count` largest files. The tool
filters the walk down to candidate files, meaning readable regular files
that are not empty. It then offers each candidate to a bounded
`FileCollection`. Below capacity the collection only appends. The push that
fills it sorts it once, descending by size. From then on a file smaller than
the last (smallest) kept file is rejected. Any other file is inserted at the
position a binary search finds, and the last file is popped.

The modules follow the program's structure:

- `Wrappers` (wrappers.dfy): `Option`.
- `Files` (files.dfy): `FileData`, the descending order, and the stable sort
  that models `Vec::sort_by`.
- `Search` (search.dfy): the binary search that models `slice::binary_search_by`
  with the reversed size comparator.
- `Collection` (collection.dfy): the `FileCollection` class with its
  invariant and one preservation lemma per branch of `smart_insert`.
- `Selection` (selection.dfy): a proof that the kept sizes are exactly the
  first `count` sizes of a full sort.
- `Scan` (scan.dfy): the candidate filter and the insertion loop of `main`.

What the code does, and the model with it:

- the walk is sequential; there is no parallel traversal;
- nothing is merged and nothing is batched;
- below capacity the collection is kept in insertion order, unsorted;
- the collection is sorted only by the push that fills it.

So when there are fewer candidates than `count`, the tool prints them in
walk order.

## Model

| member | source | states |
|---|---|---|
| Files.SortBySizeDesc | src/main.rs:58 | the sort by size, descending, keeps the length, yields a descending sequence and is a permutation of its input |
| Files.InsertBySizeSorted | src/main.rs:58 | one step of that sort, inserting into a descending sequence, keeps it descending |
| Search.BinarySearchBySize | src/main.rs:76-77 | `Ok(i)` only at a file whose size equals the target; `Err(i)` within `0..=len`, past the end only when the last file is larger than the target, and on a descending slice it is the point with only larger files before and only smaller files from there on |
| Collection.InsertAndPopSorted | src/main.rs:63-64 | inserting at an insert position of a descending vector and popping keeps it descending |
| Collection.InsertAndPopMultiset | src/main.rs:63-64 | insert-then-pop drops exactly the old last file: the kept files plus that file are the old files plus the new one |
| Collection.InsertAndPopDropsSmallest | src/main.rs:63-64 | every file that stays after insert-then-pop, the new one included, is at least as large as the dropped one |
| Collection.AppendStep | src/main.rs:54-55 | an append that leaves the collection below capacity keeps the collection invariant (within capacity, nothing let go, kept plus let go equals offered) |
| Collection.FillStep | src/main.rs:54-59 | the push that reaches capacity, followed by the sort, keeps the invariant, and the full collection is descending |
| Collection.RejectStep | src/main.rs:60-62 | rejecting a file smaller than the smallest kept one keeps the invariant and leaves the kept files unchanged |
| Collection.AdmitStep | src/main.rs:60-65 | inserting at an insert position and popping the last file keeps the invariant: still descending, the popped file no larger than any kept one, no file lost |
| Collection.FileCollection.constructor | src/main.rs:46-51 | a new collection is empty, has the given capacity and satisfies the invariant |
| Collection.FileCollection.FindInsertPosition | src/main.rs:69-79 | `None` exactly when the vector is empty or the target is smaller than its last size; otherwise an index below the length which, on a descending vector, has sizes at least the target before it and at most the target from it on |
| Collection.FileCollection.SmartInsert | src/main.rs:53-67 | the length grows by one below capacity and then stays at capacity, so a capacity of 0 stays empty; below capacity the file is appended with no reordering; the filling push sorts the files and keeps them a permutation; at capacity a smaller file changes nothing, and any other file is inserted at an insert position while the last file is dropped; the invariant holds after every call |
| Collection.InsertAndPop | src/main.rs:63-64 | `files.insert(pos, file)` followed by `files.pop()` on a non-empty vector keeps its length: one file in, one file out |
| Scan.Admit | src/main.rs:147-165 | a walk item contributes at most one candidate, and a file is that candidate if and only if the item is a readable regular file with the file's path and its non-zero length; so a walk error, a non-regular file, unreadable metadata or a zero length contributes none |
| Scan.Candidates | src/main.rs:145-167 | the candidate list of a walk has at most one file per walk item |
| Scan.CollectCandidates | src/main.rs:145-167 | the pushed files are the candidates of the walk in walk order, and none is empty |
| Scan.CandidatesAppend | src/main.rs:145-167 | filtering a walk split in two is filtering each part, so walk order is kept |
| Scan.CandidatesExactly | src/main.rs:146-165 | a file is a candidate if and only if some walk item is a readable regular file with that path and that non-zero length |
| Scan.CandidatesNonEmpty | src/main.rs:160-162 | no candidate has length zero |
| Scan.ConsistentIsTopK | src/main.rs:182-185 | a collection satisfying the invariant holds `min(offered, count)` of the offered files, is descending once it has been offered `count` files, keeps a sub-multiset of them, and no offered file that was not kept is larger than a kept one |
| Scan.CollectBiggest | src/main.rs:182-185 | the insertion loop keeps `min(len, count)` files; with fewer than `count` candidates it keeps all of them in walk order; otherwise the result is descending and its sizes are the first `count` sizes of a full sort of the candidates; no candidate left out is larger than a kept one |
| Scan.FattestFiles | src/main.rs:144-185 | from walk to kept files: the kept files are a sub-multiset of the candidates, so none is repeated beyond its occurrences in the walk; every kept file comes from a readable, non-empty regular file of the walk; the result is the top `count` of the candidates as above |
| Selection.TopKMatchesFullSort | src/main.rs:182-185 | whatever the collection keeps after `count` or more offers, its sizes equal the first `count` sizes of all offered files sorted in full, ties included |
| Selection.TopSizesUnique | src/main.rs:182-185 | a non-increasing sequence of sizes that, with a rest no larger than any of them, makes up a given multiset is unique |
| Selection.SizesPermutation | src/main.rs:58 | files that are permutations of each other have sizes that are permutations of each other |

## Left out

- Sizes are unbounded naturals rather than `u64`. The code only compares sizes and never adds them, so no overflow can arise.
- `FileData::new` (src/main.rs:34-38) is the datatype's constructor.
- The directory walk (`WalkDir`), `file_type` and `metadata` calls are I/O. They become a sequence of `WalkItem`s given as input: an error, or an entry with its path, whether it is a regular file and its length if the metadata could be read.
- The lossy conversion of paths to text is not modelled. A path is any string.
- Argument parsing, the check that the path exists and is a directory, `format_size`, the table rendering, the timing and the allocator are not modelled. They are I/O or formatting and do not affect which files are kept.
- The debug-build memory report (src/main.rs:170-180) is output only and is not modelled.
- Search.BinarySearchBySize: `slice::binary_search_by` is modelled by one classic binary search. On sorted slices the contract is what the library documents, so a different search order that picks another of several equal files is covered. On unsorted slices the bounds stated are those of this implementation; the library leaves the result unspecified there, and the collection only searches once it is full and sorted. Which equal file is chosen is not pinned down.
- Files.SortBySizeDesc: `sort_by` is modelled by a stable insertion sort. The proved properties are sorted and a permutation; stability is not stated.
- Collection.FileCollection.SmartInsert: when the target ties with kept files, the insert position is stated by its partition property (an `exists`), not by a particular index, because the library leaves the index among equal elements unspecified.
- Collection.FileCollection.FindInsertPosition: on a vector that is not descending, only the bound `pos < len` is stated. The partition property needs the order, and the collection only calls the search once it is full and sorted.
