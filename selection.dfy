/**
 * Top-K selection against a reference: whatever a consistent collection
 * keeps, the sizes it keeps are exactly the first `count` sizes of the
 * offered files sorted in full, ties included.
 */
module Selection {
  import opened Files
  import opened Collection

  /** A sequence of sizes that never grows. */
  ghost predicate NonIncreasing(s: seq<nat>) {
    forall i, j :: 0 <= i < j < |s| ==> s[i] >= s[j]
  }

  /** Taking one file out of a sequence takes its size out of the sizes. */
  lemma SizesRemove(t: seq<FileData>, j: nat)
    requires j < |t|
    ensures multiset(Sizes(t)) == multiset(Sizes(t[..j] + t[j + 1..])) + multiset{t[j].size}
  {
    var u := t[..j] + t[j + 1..];
    assert Sizes(t) == Sizes(t)[..j] + [t[j].size] + Sizes(t)[j + 1..];
    assert Sizes(u) == Sizes(t)[..j] + Sizes(t)[j + 1..];
  }

  /** Removing the same file from two permutations of each other leaves permutations. */
  lemma RemoveMatching(s: seq<FileData>, t: seq<FileData>, j: nat)
    requires multiset(s) == multiset(t) && s != [] && j < |t| && t[j] == s[0]
    ensures multiset(s[1..]) == multiset(t[..j] + t[j + 1..])
  {
    var x := s[0];
    assert t == t[..j] + [x] + t[j + 1..];
    assert s == [x] + s[1..];
    calc {
      multiset(s[1..]);
      multiset(s) - multiset{x};
      multiset(t) - multiset{x};
      multiset(t[..j]) + multiset(t[j + 1..]);
      multiset(t[..j] + t[j + 1..]);
    }
  }

  /** Two sequences that are permutations of each other have sizes that are too. */
  lemma {:induction false} SizesPermutation(s: seq<FileData>, t: seq<FileData>)
    requires multiset(s) == multiset(t)
    ensures multiset(Sizes(s)) == multiset(Sizes(t))
    decreases |s|
  {
    if s != [] {
      assert s[0] in multiset(t);
      var j :| 0 <= j < |t| && t[j] == s[0];
      RemoveMatching(s, t, j);
      SizesPermutation(s[1..], t[..j] + t[j + 1..]);
      SizesRemove(t, j);
      assert Sizes(s) == [s[0].size] + Sizes(s[1..]);
    }
  }

  /** The first of a non-increasing sequence that dominates the rest of `m` is a largest element of `m`. */
  lemma FirstIsLargest(a: seq<nat>, ra: multiset<nat>, m: multiset<nat>, y: nat)
    requires a != [] && NonIncreasing(a)
    requires multiset(a) + ra == m
    requires forall x, k :: x in ra && 0 <= k < |a| ==> x <= a[k]
    requires y in m
    ensures y <= a[0]
  {
    if y !in ra {
      assert y in multiset(a);
      var k :| 0 <= k < |a| && a[k] == y;
    }
  }

  /**
   * The non-increasing sequence of `|a|` sizes that together with some
   * no-larger rest makes up `m` is unique: its first element is the largest
   * of `m`, and the rest follows by removing it.
   */
  lemma {:induction false} TopSizesUnique(a: seq<nat>, ra: multiset<nat>, b: seq<nat>, rb: multiset<nat>,
                                          m: multiset<nat>)
    requires |a| == |b|
    requires NonIncreasing(a) && NonIncreasing(b)
    requires multiset(a) + ra == m && multiset(b) + rb == m
    requires forall x, k :: x in ra && 0 <= k < |a| ==> x <= a[k]
    requires forall x, k :: x in rb && 0 <= k < |b| ==> x <= b[k]
    ensures a == b
    decreases |a|
  {
    if a != [] {
      FirstIsLargest(a, ra, m, b[0]);
      FirstIsLargest(b, rb, m, a[0]);
      var top := a[0];
      assert b[0] == top;
      var m' := m - multiset{top};
      DropFirst(a, ra, m);
      DropFirst(b, rb, m);
      TopSizesUnique(a[1..], ra, b[1..], rb, m');
      calc {
        a;
        [top] + a[1..];
        [top] + b[1..];
        b;
      }
    }
  }

  /** Taking the first element off `a` takes it out of `m`. */
  lemma DropFirst(a: seq<nat>, ra: multiset<nat>, m: multiset<nat>)
    requires a != [] && multiset(a) + ra == m
    ensures multiset(a[1..]) + ra == m - multiset{a[0]}
  {
    assert a == [a[0]] + a[1..];
    assert multiset(a) == multiset{a[0]} + multiset(a[1..]);
  }

  /**
   * The sizes of a descending split of `offered` into `kept` and a rest no
   * larger than any kept file: non-increasing, and with the rest's sizes
   * they make up the sizes of `offered`, the rest's sizes never larger.
   */
  lemma SplitSizes(kept: seq<FileData>, rejected: seq<FileData>, offered: seq<FileData>)
    requires SortedDesc(kept) && Dominates(kept, rejected)
    requires multiset(kept) + multiset(rejected) == multiset(offered)
    ensures NonIncreasing(Sizes(kept))
    ensures multiset(Sizes(kept)) + multiset(Sizes(rejected)) == multiset(Sizes(offered))
    ensures forall x, k :: x in multiset(Sizes(rejected)) && 0 <= k < |kept| ==> x <= Sizes(kept)[k]
  {
    assert multiset(kept + rejected) == multiset(offered);
    assert Sizes(kept + rejected) == Sizes(kept) + Sizes(rejected);
    SizesPermutation(kept + rejected, offered);
    forall x, k | x in multiset(Sizes(rejected)) && 0 <= k < |kept| ensures x <= Sizes(kept)[k] {
      var j :| 0 <= j < |rejected| && Sizes(rejected)[j] == x;
    }
  }

  /** The prefix of a descending sequence is no smaller than the remainder. */
  lemma PrefixDominates(sorted: seq<FileData>, count: nat)
    requires SortedDesc(sorted) && count <= |sorted|
    ensures SortedDesc(sorted[..count]) && Dominates(sorted[..count], sorted[count..])
    ensures multiset(sorted[..count]) + multiset(sorted[count..]) == multiset(sorted)
  {
    assert sorted == sorted[..count] + sorted[count..];
  }

  /**
   * Whatever a consistent collection of capacity `count` keeps once it has
   * been offered at least `count` files, its sizes are the first `count`
   * sizes of all the offered files sorted in full.
   */
  lemma {:induction false} TopKMatchesFullSort(count: nat, kept: seq<FileData>, offered: seq<FileData>,
                                               rejected: seq<FileData>)
    requires Consistent(count, kept, offered, rejected) && |offered| >= count
    ensures Sizes(kept) == Sizes(SortBySizeDesc(offered)[..count])
  {
    var sorted := SortBySizeDesc(offered);
    PrefixDominates(sorted, count);
    SplitSizes(sorted[..count], sorted[count..], offered);
    assert |multiset(kept)| + |multiset(rejected)| == |multiset(offered)|;
    SplitSizes(kept, rejected, offered);
    TopSizesUnique(Sizes(kept), multiset(Sizes(rejected)),
                   Sizes(sorted[..count]), multiset(Sizes(sorted[count..])),
                   multiset(Sizes(offered)));
  }
}
