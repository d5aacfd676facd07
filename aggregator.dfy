/** The aggregator's counting phase: the frequency table from n-gram string
    to occurrence count, filled line by line (src/main.rs:61-90). */
module Aggregator {
  import opened Text
  import opened Extractor

  type Table = map<string, nat>

  /** The count of `g` in `table`, zero when absent. */
  function CountOf(table: Table, g: string): nat {
    if g in table then table[g] else 0
  }

  /** One `entry(ngram).or_insert(0)` followed by `+= 1`: `g` gains one
      occurrence, inserted with count 1 when new, and no other key changes. */
  function Increment(table: Table, g: string): (updated: Table)
    ensures updated.Keys == table.Keys + {g}
    ensures updated[g] == CountOf(table, g) + 1
    ensures forall k :: k in table && k != g ==> updated[k] == table[k]
  {
    table[g := CountOf(table, g) + 1]
  }

  /** `table` after one increment per n-gram of `grams`, in order. */
  function CountAll(table: Table, grams: seq<string>): Table {
    if grams == [] then table
    else Increment(CountAll(table, grams[..|grams| - 1]), grams[|grams| - 1])
  }

  /** Counting two batches one after the other is counting their concatenation. */
  lemma {:induction false} CountAllAppend(table: Table, a: seq<string>, b: seq<string>)
    ensures CountAll(CountAll(table, a), b) == CountAll(table, a + b)
    decreases |b|
  {
    if b == [] {
      assert a + b == a;
    } else {
      var b' := b[..|b| - 1];
      CountAllAppend(table, a, b');
      assert (a + b)[..|a + b| - 1] == a + b';
    }
  }

  /** After counting `grams`, a key is present exactly when it was present
      before or occurs in `grams`, and its count has grown by the number of
      its occurrences. */
  lemma {:induction false} CountAllOccurrences(table: Table, grams: seq<string>)
    ensures forall g :: g in CountAll(table, grams) <==> g in table || g in grams
    ensures forall g :: CountOf(CountAll(table, grams), g) == CountOf(table, g) + multiset(grams)[g]
    decreases |grams|
  {
    if grams != [] {
      var init := grams[..|grams| - 1];
      var last := grams[|grams| - 1];
      CountAllOccurrences(table, init);
      assert grams == init + [last];
      assert multiset(grams) == multiset(init) + multiset{last};
      forall g ensures g in grams <==> g in init || g == last {
        assert g in grams <==> g in multiset(grams);
      }
    }
  }

  /** Every stored count is at least one. */
  ghost predicate Positive(table: Table) {
    forall g :: g in table ==> table[g] >= 1
  }

  /** The sum of all counts in the table. */
  ghost function Total(table: Table): nat
    decreases |table|
  {
    if table == map[] then 0
    else
      var g :| g in table;
      table[g] + Total(table - {g})
  }

  /** The sum does not depend on which key is taken out first. */
  lemma {:induction false} TotalRemove(table: Table, g: string)
    requires g in table
    ensures Total(table) == table[g] + Total(table - {g})
    decreases |table|
  {
    var h :| h in table && Total(table) == table[h] + Total(table - {h});
    if h != g {
      assert |table - {h}| < |table|;
      assert |table - {g}| < |table|;
      TotalRemove(table - {h}, g);
      TotalRemove(table - {g}, h);
      assert table - {h} - {g} == table - {g} - {h};
    }
  }

  /** Each increment adds exactly one to the sum of counts. */
  lemma TotalIncrement(table: Table, g: string)
    ensures Total(Increment(table, g)) == Total(table) + 1
  {
    var updated := Increment(table, g);
    TotalRemove(updated, g);
    assert updated - {g} == table - {g};
    if g in table {
      TotalRemove(table, g);
    } else {
      assert table - {g} == table;
    }
  }

  /** Count conservation: counting `grams` raises the sum by their number. */
  lemma {:induction false} TotalCountAll(table: Table, grams: seq<string>)
    ensures Total(CountAll(table, grams)) == Total(table) + |grams|
    decreases |grams|
  {
    if grams != [] {
      TotalCountAll(table, grams[..|grams| - 1]);
      TotalIncrement(CountAll(table, grams[..|grams| - 1]), grams[|grams| - 1]);
    }
  }

  /** What counting a whole input leaves in the table: exactly the n-grams
      that occur, each with its number of occurrences (so at least one), and
      counts that add up to the number of n-grams produced. */
  lemma FinalTable(grams: seq<string>)
    ensures forall g :: g in CountAll(map[], grams) <==> g in grams
    ensures forall g :: g in CountAll(map[], grams) ==> CountAll(map[], grams)[g] == multiset(grams)[g]
    ensures Positive(CountAll(map[], grams))
    ensures Total(CountAll(map[], grams)) == |grams|
  {
    var table := CountAll(map[], grams);
    CountAllOccurrences(map[], grams);
    TotalCountAll(map[], grams);
    assert Total(map[]) == 0;
    forall g | g in table ensures table[g] == multiset(grams)[g] >= 1 {
      assert CountOf(table, g) == multiset(grams)[g];
    }
  }

  /** The window loop (src/main.rs:83-89): count each window of `n`
      tokens, joined with a space, left to right. */
  method CountWindows(table: Table, tokens: seq<string>, n: nat) returns (updated: Table)
    requires |tokens| >= n
    ensures updated == CountAll(table, Ngrams(tokens, n))
  {
    ghost var grams := Ngrams(tokens, n);
    updated := table;
    var end := |tokens| - n + 1;
    for i := 0 to end
      invariant updated == CountAll(table, grams[..i])
    {
      var ngram := Join(tokens[i..i + n], Space);
      assert ngram == grams[i];
      assert grams[..i + 1] == grams[..i] + [ngram];
      updated := Increment(updated, ngram);
    }
    assert grams[..end] == grams;
  }

  /** The body of the loop over lines (src/main.rs:72-89): split and pad the
      line, skip it when it has fewer than `n` tokens, otherwise count each
      of its windows. */
  method CountLine(table: Table, line: string, cfg: Config) returns (updated: Table)
    ensures updated == CountAll(table, LineNgrams(line, cfg))
    ensures |Tokenize(line, cfg.delim, cfg.padding)| < cfg.n ==> updated == table
  {
    var tokens := Split(line, cfg.delim);
    if cfg.padding {
      tokens := [BOS] + tokens;
      tokens := tokens + [EOS];
    }
    assert tokens == Tokenize(line, cfg.delim, cfg.padding);
    if |tokens| < cfg.n {
      return table;
    }
    updated := CountWindows(table, tokens, cfg.n);
  }

  /** The loop over all input lines (src/main.rs:61-90): the table starts
      empty and ends holding, for each n-gram of the input, how often it
      occurred. */
  method Tally(lines: seq<string>, cfg: Config) returns (table: Table)
    ensures table == CountAll(map[], Stream(lines, cfg))
    ensures forall g :: g in table <==> g in Stream(lines, cfg)
    ensures forall g :: g in table ==> table[g] == multiset(Stream(lines, cfg))[g]
    ensures Positive(table) && Total(table) == |Stream(lines, cfg)|
  {
    table := map[];
    for l := 0 to |lines|
      invariant table == CountAll(map[], Stream(lines[..l], cfg))
    {
      table := CountLine(table, lines[l], cfg);
      assert lines[..l + 1][..l] == lines[..l];
      CountAllAppend(map[], Stream(lines[..l], cfg), LineNgrams(lines[l], cfg));
    }
    assert lines[..|lines|] == lines;
    FinalTable(Stream(lines, cfg));
  }
}
