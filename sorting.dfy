/** Entries of the exported table, the four comparison closures of the
    export (src/main.rs:95-100) and a stable in-place sort standing for
    `Vec::sort_by`. */
module Sorting {

  /** One `(ngram, count)` pair of the collected vector. */
  datatype Entry = Entry(ngram: string, count: nat)

  /** Rust's `std::cmp::Ordering`. */
  datatype Ordering = Less | Equal | Greater

  /** `String::cmp`: lexicographic comparison, character by character, a
      proper prefix coming first. */
  function CompareStrings(a: string, b: string): Ordering {
    if a == [] && b == [] then Equal
    else if a == [] then Less
    else if b == [] then Greater
    else if a[0] < b[0] then Less
    else if a[0] > b[0] then Greater
    else CompareStrings(a[1..], b[1..])
  }

  /** Integer `cmp` on counts. */
  function CompareNats(a: nat, b: nat): Ordering {
    if a < b then Less else if a > b then Greater else Equal
  }

  /** The four closures passed to `sort_by`.  The reverse-mode closures are
      written `|b, a|`, so their first parameter is named `b`: that swaps
      the operands of the key comparison and un-swaps those of the count
      comparison. */
  datatype Comparator =
    | KeyAscending     // line 95:  |a, b| a.0.cmp(b.0)
    | CountDescending  // line 96:  |a, b| b.1.cmp(a.1)
    | KeyDescending    // line 99:  |b, a| a.0.cmp(b.0)
    | CountAscending   // line 100: |b, a| b.1.cmp(a.1)

  /** The result of calling closure `c` on the arguments `(x, y)`. */
  function Compare(c: Comparator, x: Entry, y: Entry): Ordering {
    match c
    case KeyAscending => CompareStrings(x.ngram, y.ngram)
    case CountDescending => CompareNats(y.count, x.count)
    case KeyDescending => CompareStrings(y.ngram, x.ngram)
    case CountAscending => CompareNats(x.count, y.count)
  }

  /** `a` comes before `b` in the lexicographic order: at the first position
      where they differ `a` has the smaller character, or `a` is a proper
      prefix of `b`. */
  ghost predicate LexLess(a: string, b: string) {
    exists k: nat :: k <= |a| && k < |b| && a[..k] == b[..k] && (k == |a| || a[k] < b[k])
  }

  /** `CompareStrings` is the lexicographic order. */
  lemma {:induction false} CompareStringsIsLexicographic(a: string, b: string)
    ensures CompareStrings(a, b) == Less <==> LexLess(a, b)
    decreases |a|
  {
    if a == [] || b == [] {
      if a == [] && b != [] {
        assert a[..0] == b[..0];
      }
    } else if a[0] < b[0] {
      assert a[..0] == b[..0];
    } else if a[0] > b[0] {
      if LexLess(a, b) {
        var k: nat :| k <= |a| && k < |b| && a[..k] == b[..k] && (k == |a| || a[k] < b[k]);
      }
    } else {
      CompareStringsIsLexicographic(a[1..], b[1..]);
      if LexLess(a, b) {
        var k: nat :| k <= |a| && k < |b| && a[..k] == b[..k] && (k == |a| || a[k] < b[k]);
        if k > 0 {
          assert a[1..][..k - 1] == a[..k][1..];
          assert b[1..][..k - 1] == b[..k][1..];
          assert LexLess(a[1..], b[1..]);
        }
      }
      if LexLess(a[1..], b[1..]) {
        var k: nat :| k <= |a[1..]| && k < |b[1..]| && a[1..][..k] == b[1..][..k] && (k == |a[1..]| || a[1..][k] < b[1..][k]);
        assert a[..k + 1] == [a[0]] + a[1..][..k];
        assert b[..k + 1] == [b[0]] + b[1..][..k];
        assert LexLess(a, b) by {
          assert k + 1 <= |a| && k + 1 < |b| && a[..k + 1] == b[..k + 1];
        }
      }
    }
  }

  /** Only equal strings compare `Equal`. */
  lemma {:induction false} CompareStringsEqual(a: string, b: string)
    ensures CompareStrings(a, b) == Equal <==> a == b
    decreases |a|
  {
    if a != [] && b != [] && a[0] == b[0] {
      CompareStringsEqual(a[1..], b[1..]);
      assert a == [a[0]] + a[1..] && b == [b[0]] + b[1..];
    }
  }

  /** Swapping the operands swaps `Less` and `Greater`. */
  lemma {:induction false} CompareStringsFlip(a: string, b: string)
    ensures CompareStrings(a, b) == Less <==> CompareStrings(b, a) == Greater
    ensures CompareStrings(a, b) == Equal <==> CompareStrings(b, a) == Equal
    decreases |a|
  {
    if a != [] && b != [] && a[0] == b[0] {
      CompareStringsFlip(a[1..], b[1..]);
    }
  }

  /** "Not after" is transitive. */
  lemma {:induction false} CompareStringsTransitive(a: string, b: string, c: string)
    requires CompareStrings(a, b) != Greater && CompareStrings(b, c) != Greater
    ensures CompareStrings(a, c) != Greater
    decreases |a|
  {
    if a != [] && b != [] && c != [] && a[0] == b[0] == c[0] {
      CompareStringsTransitive(a[1..], b[1..], c[1..]);
    }
  }

  /** Every closure is antisymmetric: swapping its arguments swaps `Less` and `Greater`. */
  lemma CompareFlip(c: Comparator, x: Entry, y: Entry)
    ensures Compare(c, x, y) == Greater <==> Compare(c, y, x) == Less
    ensures Compare(c, x, y) == Equal <==> Compare(c, y, x) == Equal
  {
    CompareStringsFlip(x.ngram, y.ngram);
    CompareStringsFlip(y.ngram, x.ngram);
  }

  /** Every closure's "not after" relation is transitive. */
  lemma CompareTransitive(c: Comparator, x: Entry, y: Entry, z: Entry)
    requires Compare(c, x, y) != Greater && Compare(c, y, z) != Greater
    ensures Compare(c, x, z) != Greater
  {
    match c
    case KeyAscending => CompareStringsTransitive(x.ngram, y.ngram, z.ngram);
    case KeyDescending => CompareStringsTransitive(z.ngram, y.ngram, x.ngram);
    case CountDescending =>
    case CountAscending =>
  }

  /** No element is after a later one. */
  ghost predicate SortedBy(s: seq<Entry>, c: Comparator) {
    forall i, j :: 0 <= i < j < |s| ==> Compare(c, s[i], s[j]) != Greater
  }

  /** `r` lists the elements of `s`, position `k` of `r` holding the element
      at the distinct position `p[k]` of `s`. */
  ghost predicate Rearranges(p: seq<nat>, s: seq<Entry>, r: seq<Entry>) {
    && |p| == |r| == |s|
    && (forall k :: 0 <= k < |r| ==> p[k] < |s| && r[k] == s[p[k]])
    && (forall k, l :: 0 <= k < l < |p| ==> p[k] != p[l])
  }

  /** Elements that compare `Equal` keep their original relative order. */
  ghost predicate StableBy(p: seq<nat>, r: seq<Entry>, c: Comparator)
    requires |p| == |r|
  {
    forall i, j :: 0 <= i < j < |r| && Compare(c, r[i], r[j]) == Equal ==> p[i] < p[j]
  }

  /** The outer loop's invariant: the first `i` elements of `s` are a
      stably sorted rearrangement of the first `i` of `orig`, and the rest
      are untouched. */
  ghost predicate PrefixSorted(s: seq<Entry>, p: seq<nat>, orig: seq<Entry>, c: Comparator, i: nat) {
    && i <= |s|
    && Rearranges(p, orig, s)
    && (forall k, l :: 0 <= k < l < i ==> Compare(c, s[k], s[l]) != Greater)
    && (forall k :: i <= k < |s| ==> p[k] == k)
    && (forall k :: 0 <= k < i ==> p[k] < i)
    && (forall k, l :: 0 <= k < l < i && Compare(c, s[k], s[l]) == Equal ==> p[k] < p[l])
  }

  /** The inner loop's invariant: element `i` of `orig` has sunk to
      position `j`, past elements strictly after it, and the prefix up to
      `i` is stably sorted except between position `j` and its left part. */
  ghost predicate Inserting(s: seq<Entry>, p: seq<nat>, orig: seq<Entry>, c: Comparator, i: nat, j: nat) {
    && j <= i < |s|
    && Rearranges(p, orig, s)
    && (forall k, l :: 0 <= k < l <= i && l != j ==> Compare(c, s[k], s[l]) != Greater)
    && (forall l :: j < l <= i ==> Compare(c, s[j], s[l]) == Less)
    && (forall k :: i < k < |s| ==> p[k] == k)
    && p[j] == i
    && (forall k :: 0 <= k <= i && k != j ==> p[k] < i)
    && (forall k, l :: 0 <= k < l <= i && Compare(c, s[k], s[l]) == Equal ==> p[k] < p[l])
  }

  /** `s` with the elements at `j - 1` and `j` exchanged. */
  function SwapDown<T>(s: seq<T>, j: nat): (r: seq<T>)
    requires 0 < j < |s|
    ensures |r| == |s| && r[j - 1] == s[j] && r[j] == s[j - 1]
    ensures forall k :: 0 <= k < |s| && k != j - 1 && k != j ==> r[k] == s[k]
  {
    s[j - 1 := s[j]][j := s[j - 1]]
  }

  lemma SwapDownMultiset(s: seq<Entry>, j: nat)
    requires 0 < j < |s|
    ensures multiset(SwapDown(s, j)) == multiset(s)
  {
    var r := SwapDown(s, j);
    assert s == s[..j - 1] + [s[j - 1], s[j]] + s[j + 1..];
    assert r == s[..j - 1] + [s[j], s[j - 1]] + s[j + 1..];
  }

  lemma NothingSorted(s: seq<Entry>, c: Comparator)
    ensures PrefixSorted(s, seq(|s|, k => k), s, c, 0)
  {
  }

  lemma AllSorted(s: seq<Entry>, p: seq<nat>, orig: seq<Entry>, c: Comparator)
    requires PrefixSorted(s, p, orig, c, |s|)
    ensures SortedBy(s, c) && Rearranges(p, orig, s) && StableBy(p, s, c)
  {
  }

  lemma StartInserting(s: seq<Entry>, p: seq<nat>, orig: seq<Entry>, c: Comparator, i: nat)
    requires PrefixSorted(s, p, orig, c, i) && i < |s|
    ensures Inserting(s, p, orig, c, i, i)
  {
  }

  lemma SwapKeepsInserting(s: seq<Entry>, p: seq<nat>, orig: seq<Entry>, c: Comparator, i: nat, j: nat)
    requires Inserting(s, p, orig, c, i, j) && 0 < j && Compare(c, s[j - 1], s[j]) == Greater
    ensures Inserting(SwapDown(s, j), SwapDown(p, j), orig, c, i, j - 1)
  {
    var s', p' := SwapDown(s, j), SwapDown(p, j);
    CompareFlip(c, s[j - 1], s[j]);
    assert Rearranges(p', orig, s');
    forall l | j - 1 < l <= i ensures Compare(c, s'[j - 1], s'[l]) == Less {
      if l > j {
        assert s'[l] == s[l];
      }
    }
    forall k, l | 0 <= k < l <= i && l != j - 1
      ensures Compare(c, s'[k], s'[l]) != Greater
    {
      if k < j - 1 && l == j {
        assert s'[k] == s[k] && s'[l] == s[j - 1];
      } else if k == j {
        assert s'[k] == s[j - 1] && s'[l] == s[l];
      }
    }
    forall k, l | 0 <= k < l <= i && k != j - 1 && Compare(c, s'[k], s'[l]) == Equal
      ensures p'[k] < p'[l]
    {
      if l == j {
        assert s'[k] == s[k] && s'[l] == s[j - 1];
      } else if k == j {
        assert s'[k] == s[j - 1] && s'[l] == s[l];
      } else if l == j - 1 {
        assert p'[l] == i;
      }
    }
  }

  lemma FinishInserting(s: seq<Entry>, p: seq<nat>, orig: seq<Entry>, c: Comparator, i: nat, j: nat)
    requires Inserting(s, p, orig, c, i, j) && (j == 0 || Compare(c, s[j - 1], s[j]) != Greater)
    ensures PrefixSorted(s, p, orig, c, i + 1)
  {
    forall k | 0 <= k < j ensures Compare(c, s[k], s[j]) != Greater {
      if k < j - 1 {
        CompareTransitive(c, s[k], s[j - 1], s[j]);
      }
    }
  }

  /** One round of the insertion sort: the element at index `i` sinks
      left past every element that is strictly after it. */
  method Insert(a: array<Entry>, c: Comparator, i: nat, ghost orig: seq<Entry>, ghost p: seq<nat>)
    returns (ghost p': seq<nat>)
    requires i < a.Length
    requires PrefixSorted(a[..], p, orig, c, i) && multiset(a[..]) == multiset(orig)
    modifies a
    ensures PrefixSorted(a[..], p', orig, c, i + 1) && multiset(a[..]) == multiset(orig)
  {
    p' := p;
    StartInserting(a[..], p', orig, c, i);
    var j: nat := i;
    while j > 0 && Compare(c, a[j - 1], a[j]) == Greater
      invariant Inserting(a[..], p', orig, c, i, j)
      invariant multiset(a[..]) == multiset(orig)
    {
      ghost var s := a[..];
      SwapKeepsInserting(s, p', orig, c, i, j);
      SwapDownMultiset(s, j);
      a[j - 1], a[j] := a[j], a[j - 1];
      assert a[..] == SwapDown(s, j);
      p' := SwapDown(p', j);
      j := j - 1;
    }
    FinishInserting(a[..], p', orig, c, i, j);
  }

  /** `slice.sort_by(closure)`: a stable sort in place, here an insertion
      sort by adjacent swaps.  The ghost result `p` records where each
      element came from. */
  method StableSort(a: array<Entry>, c: Comparator) returns (ghost p: seq<nat>)
    modifies a
    ensures SortedBy(a[..], c)
    ensures multiset(a[..]) == multiset(old(a[..]))
    ensures Rearranges(p, old(a[..]), a[..])
    ensures StableBy(p, a[..], c)
  {
    ghost var orig := a[..];
    p := seq(a.Length, k => k);
    NothingSorted(orig, c);
    var i := 0;
    while i < a.Length
      invariant i <= a.Length
      invariant PrefixSorted(a[..], p, orig, c, i) && multiset(a[..]) == multiset(orig)
    {
      p := Insert(a, c, i, orig, p);
      i := i + 1;
    }
    AllSorted(a[..], p, orig, c);
  }
}
