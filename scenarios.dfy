/** Worked examples: small inputs run through the model, from the lines to
    the exported records. */
module Scenarios {
  import opened Text
  import opened Extractor
  import opened Aggregator
  import opened Sorting
  import opened Exporter
  import opened Report

  lemma OneLine(line: string, cfg: Config)
    ensures Stream([line], cfg) == LineNgrams(line, cfg)
  {
    assert [line][..0] == [];
  }

  lemma SplitsInto(line: string, c: char, tokens: seq<string>)
    requires |tokens| >= 1 && forall k :: 0 <= k < |tokens| ==> c !in tokens[k]
    requires Join(tokens, [c]) == line
    ensures Split(line, [c]) == tokens
  {
    SplitJoin(tokens, c);
  }

  lemma JoinTwo(a: string, b: string, sep: string)
    ensures Join([a, b], sep) == a + sep + b
  {
    assert [a, b][1..] == [b];
  }

  lemma JoinThree(a: string, b: string, c: string, sep: string)
    ensures Join([a, b, c], sep) == a + sep + b + sep + c
  {
    assert [a, b, c][1..] == [b, c];
    JoinTwo(b, c, sep);
  }

  /** Three tokens separated by a one-character delimiter none of them
      holds split back into those tokens. */
  lemma ThreeTokens(x: string, y: string, z: string, c: char)
    requires c !in x && c !in y && c !in z
    ensures Tokenize(x + [c] + y + [c] + z, [c], false) == [x, y, z]
  {
    JoinThree(x, y, z, [c]);
    SplitsInto(x + [c] + y + [c] + z, c, [x, y, z]);
  }

  lemma ThreeBigrams(x: string, y: string, z: string)
    ensures Ngrams([x, y, z], 2) == [x + " " + y, y + " " + z]
  {
    var t := [x, y, z];
    var g := Ngrams(t, 2);
    assert t[0..2] == [x, y] && t[1..3] == [y, z];
    JoinTwo(x, y, " ");
    JoinTwo(y, z, " ");
    assert g[0] == Join(t[0..2], Space) && g[1] == Join(t[1..3], Space);
    assert g == [g[0], g[1]];
  }

  lemma ThreeUnigrams(x: string, y: string, z: string)
    ensures Ngrams([x, y, z], 1) == [x, y, z]
  {
    var t := [x, y, z];
    var g := Ngrams(t, 1);
    assert t[0..1] == [x] && t[1..2] == [y] && t[2..3] == [z];
    assert g[0] == Join(t[0..1], Space) && g[1] == Join(t[1..2], Space) && g[2] == Join(t[2..3], Space);
    assert g == [g[0], g[1], g[2]];
  }

  /** Bigrams of "a b c" under the default delimiter, whatever the order
      flag. */
  lemma BigramsOfOneLine(reverse: bool)
    ensures Stream(["a b c"], Config(2, " ", false, reverse)) == ["a b", "b c"]
  {
    ThreeTokens("a", "b", "c", ' ');
    assert "a" + " " + "b" + " " + "c" == "a b c";
    ThreeBigrams("a", "b", "c");
    assert "a" + " " + "b" == "a b" && "b" + " " + "c" == "b c";
    OneLine("a b c", Config(2, " ", false, reverse));
  }

  lemma TokensXY(padding: bool)
    ensures Tokenize("x y", " ", padding) == if padding then ["<BOS>", "x", "y", "<EOS>"] else ["x", "y"]
  {
    JoinTwo("x", "y", " ");
    SplitsInto("x y", ' ', ["x", "y"]);
  }

  /** A two-token line has no trigram when it is not padded. */
  lemma ShortLineSkipped()
    ensures Stream(["x y"], Config(3, " ", false, false)) == []
  {
    TokensXY(false);
    OneLine("x y", Config(3, " ", false, false));
  }

  lemma TrigramsPadded()
    ensures Ngrams(["<BOS>", "x", "y", "<EOS>"], 3) == ["<BOS> x y", "x y <EOS>"]
  {
    var t := ["<BOS>", "x", "y", "<EOS>"];
    var g := Ngrams(t, 3);
    assert t[0..3] == ["<BOS>", "x", "y"] && t[1..4] == ["x", "y", "<EOS>"];
    JoinThree("<BOS>", "x", "y", " ");
    JoinThree("x", "y", "<EOS>", " ");
    assert "<BOS>" + " " + "x" + " " + "y" == "<BOS> x y";
    assert "x" + " " + "y" + " " + "<EOS>" == "x y <EOS>";
    assert g[0] == Join(t[0..3], Space) && g[1] == Join(t[1..4], Space);
    assert g == [g[0], g[1]];
  }

  /** Padded, the same line has two trigrams, each with a boundary marker. */
  lemma PaddingMakesRoom()
    ensures Stream(["x y"], Config(3, " ", true, false)) == ["<BOS> x y", "x y <EOS>"]
  {
    TokensXY(true);
    TrigramsPadded();
    OneLine("x y", Config(3, " ", true, false));
  }

  /** Unigrams under a comma delimiter. */
  lemma CommaDelimiter()
    ensures Stream(["a,b,c"], Config(1, ",", false, false)) == ["a", "b", "c"]
  {
    ThreeTokens("a", "b", "c", ',');
    assert "a" + "," + "b" + "," + "c" == "a,b,c";
    ThreeUnigrams("a", "b", "c");
    OneLine("a,b,c", Config(1, ",", false, false));
  }

  lemma ThreeUnigramsTable()
    ensures CountAll(map[], ["a", "b", "c"]) == map["a" := 1, "b" := 1, "c" := 1]
  {
    assert ["a", "b", "c"][..2] == ["a", "b"] && ["a", "b"][..1] == ["a"] && ["a"][..0] == [];
    assert CountAll(map[], ["a"]) == map["a" := 1];
    assert CountAll(map[], ["a", "b"]) == map["a" := 1, "b" := 1];
  }

  lemma ThreeUnigramsOrder()
    ensures Exported([Entry("a", 1), Entry("b", 1), Entry("c", 1)], map["a" := 1, "b" := 1, "c" := 1], false)
  {
    var v := [Entry("a", 1), Entry("b", 1), Entry("c", 1)];
    assert CompareStrings("a", "b") == Less && CompareStrings("a", "c") == Less && CompareStrings("b", "c") == Less;
    assert v[0].ngram == "a" && v[1].ngram == "b" && v[2].ngram == "c";
  }

  /** Each unigram once: the export lists them alphabetically. */
  lemma CommaExport(v: seq<Entry>)
    requires Exported(v, CountAll(map[], Stream(["a,b,c"], Config(1, ",", false, false))), false)
    ensures v == [Entry("a", 1), Entry("b", 1), Entry("c", 1)]
  {
    CommaDelimiter();
    ThreeUnigramsTable();
    ThreeUnigramsOrder();
    ExportUnique(v, [Entry("a", 1), Entry("b", 1), Entry("c", 1)], map["a" := 1, "b" := 1, "c" := 1], false);
  }

  lemma TwoBigramsTable()
    ensures CountAll(map[], ["a b", "b c"]) == map["a b" := 1, "b c" := 1]
  {
    assert ["a b", "b c"][..1] == ["a b"] && ["a b"][..0] == [];
    assert CountAll(map[], ["a b"]) == map["a b" := 1];
  }

  lemma TwoBigramsDefaultOrder()
    ensures Exported([Entry("a b", 1), Entry("b c", 1)], map["a b" := 1, "b c" := 1], false)
  {
    var v := [Entry("a b", 1), Entry("b c", 1)];
    assert CompareStrings("a b", "b c") == Less;
    assert v[0].ngram == "a b" && v[1].ngram == "b c";
  }

  lemma TwoBigramsReverseOrder()
    ensures Exported([Entry("b c", 1), Entry("a b", 1)], map["a b" := 1, "b c" := 1], true)
  {
    var w := [Entry("b c", 1), Entry("a b", 1)];
    assert CompareStrings("b c", "a b") == Greater;
    assert w[0].ngram == "b c" && w[1].ngram == "a b";
  }

  /** "a b c" has two bigrams, seen once each: the default export lists
      them in ascending order of n-gram ... */
  lemma TieAscendingByDefault(v: seq<Entry>)
    requires Exported(v, CountAll(map[], Stream(["a b c"], Config(2, " ", false, false))), false)
    ensures v == [Entry("a b", 1), Entry("b c", 1)]
  {
    BigramsOfOneLine(false);
    TwoBigramsTable();
    TwoBigramsDefaultOrder();
    ExportUnique(v, [Entry("a b", 1), Entry("b c", 1)], map["a b" := 1, "b c" := 1], false);
  }

  /** ... and the reverse export in descending order. */
  lemma TieDescendingWhenReversed(w: seq<Entry>)
    requires Exported(w, CountAll(map[], Stream(["a b c"], Config(2, " ", false, true))), true)
    ensures w == [Entry("b c", 1), Entry("a b", 1)]
  {
    BigramsOfOneLine(true);
    TwoBigramsTable();
    TwoBigramsReverseOrder();
    ExportUnique(w, [Entry("b c", 1), Entry("a b", 1)], map["a b" := 1, "b c" := 1], true);
  }

  lemma RepeatedBigramStream()
    ensures Stream(["a a a"], Config(2, " ", false, false)) == ["a a", "a a"]
  {
    ThreeTokens("a", "a", "a", ' ');
    assert "a" + " " + "a" + " " + "a" == "a a a";
    ThreeBigrams("a", "a", "a");
    assert "a" + " " + "a" == "a a";
    OneLine("a a a", Config(2, " ", false, false));
  }

  lemma RepeatedBigramTable()
    ensures CountAll(map[], ["a a", "a a"]) == map["a a" := 2]
  {
    assert ["a a", "a a"][..1] == ["a a"] && ["a a"][..0] == [];
    assert CountAll(map[], ["a a"]) == map["a a" := 1];
  }

  /** "a a a" has the bigram "a a" twice: one entry, counted 2. */
  lemma RepeatedBigram(v: seq<Entry>)
    requires Exported(v, CountAll(map[], Stream(["a a a"], Config(2, " ", false, false))), false)
    ensures v == [Entry("a a", 2)]
  {
    var table := map["a a" := 2];
    RepeatedBigramStream();
    RepeatedBigramTable();
    var expected := [Entry("a a", 2)];
    assert Exported(expected, table, false) by {
      assert expected[0].ngram == "a a";
    }
    ExportUnique(v, expected, table, false);
  }

  /** The records of the worked examples. */
  lemma Records()
    ensures Record(Entry("a b", 1)) == "1\ta b\n" && Record(Entry("b c", 1)) == "1\tb c\n"
    ensures Record(Entry("a a", 2)) == "2\ta a\n"
    ensures Record(Entry("a", 1)) == "1\ta\n" && Record(Entry("b", 1)) == "1\tb\n" && Record(Entry("c", 1)) == "1\tc\n"
  {
    assert Decimal(1) == "1" && Decimal(2) == "2";
  }

  /** Records that format the same entries are the same records. */
  lemma SameRecords(records: seq<string>, v: seq<Entry>, expected: seq<string>)
    requires |records| == |v| && forall k :: 0 <= k < |v| ==> records[k] == Record(v[k])
    requires |expected| == |v| && forall k :: 0 <= k < |v| ==> expected[k] == Record(v[k])
    ensures records == expected
  {
  }

  /** The records of the listings of the worked examples. */
  lemma AscendingListing(records: seq<string>, v: seq<Entry>)
    requires v == [Entry("a b", 1), Entry("b c", 1)]
    requires |records| == |v| && forall k :: 0 <= k < |v| ==> records[k] == Record(v[k])
    ensures records == ["1\ta b\n", "1\tb c\n"]
  {
    Records();
    SameRecords(records, v, ["1\ta b\n", "1\tb c\n"]);
  }

  lemma DescendingListing(records: seq<string>, v: seq<Entry>)
    requires v == [Entry("b c", 1), Entry("a b", 1)]
    requires |records| == |v| && forall k :: 0 <= k < |v| ==> records[k] == Record(v[k])
    ensures records == ["1\tb c\n", "1\ta b\n"]
  {
    Records();
    SameRecords(records, v, ["1\tb c\n", "1\ta b\n"]);
  }

  lemma RepeatedListing(records: seq<string>, v: seq<Entry>)
    requires v == [Entry("a a", 2)]
    requires |records| == |v| && forall k :: 0 <= k < |v| ==> records[k] == Record(v[k])
    ensures records == ["2\ta a\n"]
  {
    Records();
    SameRecords(records, v, ["2\ta a\n"]);
  }

  lemma CommaListing(records: seq<string>, v: seq<Entry>)
    requires v == [Entry("a", 1), Entry("b", 1), Entry("c", 1)]
    requires |records| == |v| && forall k :: 0 <= k < |v| ==> records[k] == Record(v[k])
    ensures records == ["1\ta\n", "1\tb\n", "1\tc\n"]
  {
    Records();
    SameRecords(records, v, ["1\ta\n", "1\tb\n", "1\tc\n"]);
  }

  /** `records` is what `Run` promises for `lines` under `cfg`. */
  ghost predicate RunOutput(records: seq<string>, lines: seq<string>, cfg: Config) {
    exists v :: Exported(v, CountAll(map[], Stream(lines, cfg)), cfg.reverse)
                && |records| == |v| && forall k :: 0 <= k < |v| ==> records[k] == Record(v[k])
  }

  lemma AscendingRecords(records: seq<string>)
    requires RunOutput(records, ["a b c"], Config(2, " ", false, false))
    ensures records == ["1\ta b\n", "1\tb c\n"]
  {
    var v :| Exported(v, CountAll(map[], Stream(["a b c"], Config(2, " ", false, false))), false)
             && |records| == |v| && forall k :: 0 <= k < |v| ==> records[k] == Record(v[k]);
    TieAscendingByDefault(v);
    AscendingListing(records, v);
  }

  lemma DescendingRecords(records: seq<string>)
    requires RunOutput(records, ["a b c"], Config(2, " ", false, true))
    ensures records == ["1\tb c\n", "1\ta b\n"]
  {
    var w :| Exported(w, CountAll(map[], Stream(["a b c"], Config(2, " ", false, true))), true)
             && |records| == |w| && forall k :: 0 <= k < |w| ==> records[k] == Record(w[k]);
    TieDescendingWhenReversed(w);
    DescendingListing(records, w);
  }

  lemma RepeatedBigramRecords(records: seq<string>)
    requires RunOutput(records, ["a a a"], Config(2, " ", false, false))
    ensures records == ["2\ta a\n"]
  {
    var v :| Exported(v, CountAll(map[], Stream(["a a a"], Config(2, " ", false, false))), false)
             && |records| == |v| && forall k :: 0 <= k < |v| ==> records[k] == Record(v[k]);
    RepeatedBigram(v);
    RepeatedListing(records, v);
  }

  lemma CommaRecords(records: seq<string>)
    requires RunOutput(records, ["a,b,c"], Config(1, ",", false, false))
    ensures records == ["1\ta\n", "1\tb\n", "1\tc\n"]
  {
    var v :| Exported(v, CountAll(map[], Stream(["a,b,c"], Config(1, ",", false, false))), false)
             && |records| == |v| && forall k :: 0 <= k < |v| ==> records[k] == Record(v[k]);
    CommaExport(v);
    CommaListing(records, v);
  }

  /** The whole run on "a b c" with n = 2: two records of count 1, in
      ascending order by default and in descending order with --reverse. */
  method TieBreakRun() returns (ascending: seq<string>, descending: seq<string>)
    ensures ascending == ["1\ta b\n", "1\tb c\n"]
    ensures descending == ["1\tb c\n", "1\ta b\n"]
  {
    ascending := Run(["a b c"], 2, None, false, false);
    AscendingRecords(ascending);
    descending := Run(["a b c"], 2, None, false, true);
    DescendingRecords(descending);
  }

  /** The whole run on "a a a" with n = 2: the single record "2\ta a\n". */
  method RepeatedBigramRun() returns (records: seq<string>)
    ensures records == ["2\ta a\n"]
  {
    records := Run(["a a a"], 2, None, false, false);
    RepeatedBigramRecords(records);
  }

  /** The whole run on "a,b,c" with n = 1 and delimiter ",": one record of
      count 1 per letter, alphabetically. */
  method CommaRun() returns (records: seq<string>)
    ensures records == ["1\ta\n", "1\tb\n", "1\tc\n"]
  {
    records := Run(["a,b,c"], 1, Some(","), false, false);
    CommaRecords(records);
  }

  /** The empty delimiter cuts at every character boundary, both ends
      included. */
  lemma EmptyDelimiter()
    ensures Split("ab", "") == ["", "a", "b", ""]
  {
    assert "ab"[1..] == "b" && "b"[1..] == "";
  }
}
