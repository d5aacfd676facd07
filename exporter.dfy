/** The aggregator's export phase: collect the table's entries in whatever
    order the hash map yields them, then sort the vector twice, first by
    n-gram and then by count (src/main.rs:92-101). */
module Exporter {
  import opened Sorting

  /** `v` lists every entry of `table` exactly once, with its count. */
  ghost predicate Enumerates(v: seq<Entry>, table: map<string, nat>) {
    && (forall i :: 0 <= i < |v| ==> v[i].ngram in table && table[v[i].ngram] == v[i].count)
    && (forall i, j :: 0 <= i < j < |v| ==> v[i].ngram != v[j].ngram)
    && (forall g :: g in table ==> exists i :: 0 <= i < |v| && v[i].ngram == g)
  }

  /** The order the two passes produce: by count, most frequent first by
      default, least frequent first with `reverse`; equal counts by n-gram,
      ascending by default and descending with `reverse`. */
  predicate Precedes(reverse: bool, x: Entry, y: Entry) {
    if !reverse then
      x.count > y.count || (x.count == y.count && CompareStrings(x.ngram, y.ngram) == Less)
    else
      x.count < y.count || (x.count == y.count && CompareStrings(x.ngram, y.ngram) == Greater)
  }

  /** Every entry precedes every later one. */
  ghost predicate InExportOrder(v: seq<Entry>, reverse: bool) {
    forall i, j :: 0 <= i < j < |v| ==> Precedes(reverse, v[i], v[j])
  }

  /** What the export promises: every entry once, in export order. */
  ghost predicate Exported(v: seq<Entry>, table: map<string, nat>, reverse: bool) {
    Enumerates(v, table) && InExportOrder(v, reverse)
  }

  /** `counts.iter().collect()` (src/main.rs:92): the entries in an order
      the model leaves open, as the hash map's iteration order is. */
  method Collect(table: map<string, nat>) returns (v: seq<Entry>)
    ensures Enumerates(v, table)
  {
    v := [];
    var left := table.Keys;
    while left != {}
      invariant left <= table.Keys
      invariant forall i :: 0 <= i < |v| ==> v[i].ngram in table && v[i].ngram !in left && table[v[i].ngram] == v[i].count
      invariant forall i, j :: 0 <= i < j < |v| ==> v[i].ngram != v[j].ngram
      invariant forall g :: g in table && g !in left ==> exists i :: 0 <= i < |v| && v[i].ngram == g
      decreases left
    {
      var g :| g in left;
      ghost var prev := v;
      v := v + [Entry(g, table[g])];
      left := left - {g};
      forall h | h in table && h !in left ensures exists i :: 0 <= i < |v| && v[i].ngram == h {
        if h == g {
          assert v[|v| - 1].ngram == h;
        } else {
          var i :| 0 <= i < |prev| && prev[i].ngram == h;
          assert v[i] == prev[i];
        }
      }
    }
  }

  /** Distinct n-grams and two sorted passes give the export order: the
      second pass orders by count, and among equal counts its stability
      keeps the n-gram order the first pass produced. */
  lemma TwoPasses(s1: seq<Entry>, s2: seq<Entry>, p2: seq<nat>, reverse: bool)
    requires forall i, j :: 0 <= i < j < |s1| ==> s1[i].ngram != s1[j].ngram
    requires SortedBy(s1, if reverse then KeyDescending else KeyAscending)
    requires Rearranges(p2, s1, s2)
    requires SortedBy(s2, if reverse then CountAscending else CountDescending)
    requires StableBy(p2, s2, if reverse then CountAscending else CountDescending)
    ensures InExportOrder(s2, reverse)
  {
    var byKey := if reverse then KeyDescending else KeyAscending;
    var byCount := if reverse then CountAscending else CountDescending;
    forall i, j | 0 <= i < j < |s2| ensures Precedes(reverse, s2[i], s2[j]) {
      assert Compare(byCount, s2[i], s2[j]) != Greater;
      if s2[i].count == s2[j].count {
        assert Compare(byCount, s2[i], s2[j]) == Equal;
        var a, b := p2[i], p2[j];
        assert a < b;
        assert Compare(byKey, s1[a], s1[b]) != Greater;
        CompareStringsEqual(s2[i].ngram, s2[j].ngram);
        CompareStringsFlip(s2[i].ngram, s2[j].ngram);
      }
    }
  }

  /** The export (src/main.rs:92-101): collect the entries, sort them by
      n-gram, then stably by count; both comparisons are reversed when
      `reverse` is set. */
  method Export(table: map<string, nat>, reverse: bool) returns (v: seq<Entry>)
    ensures Exported(v, table, reverse)
  {
    var collected := Collect(table);
    var a := new Entry[|collected|](i requires 0 <= i < |collected| => collected[i]);
    assert a[..] == collected;
    ghost var p1, p2;
    if !reverse {
      p1 := StableSort(a, KeyAscending);
    } else {
      p1 := StableSort(a, KeyDescending);
    }
    ghost var s1 := a[..];
    if !reverse {
      p2 := StableSort(a, CountDescending);
    } else {
      p2 := StableSort(a, CountAscending);
    }
    v := a[..];
    KeepsEnumerating(p1, collected, s1, table);
    KeepsEnumerating(p2, s1, v, table);
    TwoPasses(s1, v, p2, reverse);
  }

  /** A rearrangement that keeps the multiset of an enumeration is one too. */
  lemma KeepsEnumerating(p: seq<nat>, s: seq<Entry>, r: seq<Entry>, table: map<string, nat>)
    requires Enumerates(s, table)
    requires Rearranges(p, s, r) && multiset(r) == multiset(s)
    ensures Enumerates(r, table)
  {
    forall g | g in table ensures exists i :: 0 <= i < |r| && r[i].ngram == g {
      var i :| 0 <= i < |s| && s[i].ngram == g;
      assert s[i] in multiset(r);
      var k :| 0 <= k < |r| && r[k] == s[i];
    }
    forall i, j | 0 <= i < j < |r| ensures r[i].ngram != r[j].ngram {
      assert r[i] == s[p[i]] && r[j] == s[p[j]] && p[i] != p[j];
    }
  }

  /** Precedes is asymmetric. */
  lemma PrecedesAsymmetric(reverse: bool, x: Entry, y: Entry)
    requires Precedes(reverse, x, y)
    ensures !Precedes(reverse, y, x)
  {
    CompareStringsFlip(x.ngram, y.ngram);
  }

  /** Two enumerations of one table in export order start alike. */
  lemma SameFirst(v: seq<Entry>, w: seq<Entry>, table: map<string, nat>, reverse: bool)
    requires Exported(v, table, reverse) && Exported(w, table, reverse)
    requires v != []
    ensures w != [] && v[0] == w[0]
  {
    assert v[0].ngram in table;
    var m :| 0 <= m < |w| && w[m].ngram == v[0].ngram;
    if m > 0 {
      assert w[0].ngram in table;
      var l :| 0 <= l < |v| && v[l].ngram == w[0].ngram;
      assert Precedes(reverse, w[0], w[m]);
      assert Precedes(reverse, v[0], v[l]);
      PrecedesAsymmetric(reverse, w[0], w[m]);
      assert false;
    }
  }

  /** Dropping the first entry leaves an export of the rest of the table. */
  lemma DropFirst(v: seq<Entry>, table: map<string, nat>, reverse: bool)
    requires Exported(v, table, reverse) && v != []
    ensures Exported(v[1..], table - {v[0].ngram}, reverse)
  {
    var rest := table - {v[0].ngram};
    forall h | h in rest ensures exists i :: 0 <= i < |v[1..]| && v[1..][i].ngram == h {
      var i :| 0 <= i < |v| && v[i].ngram == h;
      assert v[1..][i - 1].ngram == h;
    }
    forall i | 0 <= i < |v[1..]| ensures v[1..][i].ngram in rest {
      assert v[1..][i] == v[i + 1];
    }
  }

  /** The export is determined by the table alone: two enumerations of the
      same table in export order are equal, so the hash map's iteration
      order never shows, and exporting twice gives the same sequence. */
  lemma {:induction false} ExportUnique(v: seq<Entry>, w: seq<Entry>, table: map<string, nat>, reverse: bool)
    requires Exported(v, table, reverse) && Exported(w, table, reverse)
    ensures v == w
    decreases |v|
  {
    if v == [] {
      if w != [] {
        SameFirst(w, v, table, reverse);
      }
    } else {
      SameFirst(v, w, table, reverse);
      DropFirst(v, table, reverse);
      DropFirst(w, table, reverse);
      ExportUnique(v[1..], w[1..], table - {v[0].ngram}, reverse);
      assert v == [v[0]] + v[1..] && w == [w[0]] + w[1..];
    }
  }

  /** `s` back to front. */
  function Reversed(s: seq<Entry>): (r: seq<Entry>)
    ensures |r| == |s|
    ensures forall k :: 0 <= k < |s| ==> r[k] == s[|s| - 1 - k]
  {
    seq(|s|, k requires 0 <= k < |s| => s[|s| - 1 - k])
  }

  /** Because the `|b, a|` closures flip the n-gram comparison as well as
      the count comparison, the reverse-mode listing is exactly the default
      listing read backwards. */
  lemma ReverseIsBackwards(v: seq<Entry>, w: seq<Entry>, table: map<string, nat>)
    requires Exported(v, table, false) && Exported(w, table, true)
    ensures w == Reversed(v)
  {
    var r := Reversed(v);
    forall i, j | 0 <= i < j < |r| ensures Precedes(true, r[i], r[j]) {
      assert Precedes(false, v[|v| - 1 - j], v[|v| - 1 - i]);
      CompareStringsFlip(r[i].ngram, r[j].ngram);
    }
    forall g | g in table ensures exists i :: 0 <= i < |r| && r[i].ngram == g {
      var i :| 0 <= i < |v| && v[i].ngram == g;
      assert r[|v| - 1 - i] == v[i];
    }
    forall i, j | 0 <= i < j < |r| ensures r[i].ngram != r[j].ngram {
      assert r[i] == v[|v| - 1 - i] && r[j] == v[|v| - 1 - j];
    }
    ExportUnique(w, r, table, true);
  }
}
