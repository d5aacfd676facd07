/** The output records and the whole counting run (src/main.rs:40-45,
    61-101, 117-118). */
module Report {
  import opened Extractor
  import opened Aggregator
  import opened Sorting
  import opened Exporter

  datatype Option<T> = None | Some(value: T)

  predicate IsDigit(ch: char) {
    '0' <= ch <= '9'
  }

  /** The decimal numeral of `n` without leading zeros, as `{}` prints it. */
  function Decimal(n: nat): (s: string)
    ensures |s| >= 1
    ensures forall k :: 0 <= k < |s| ==> IsDigit(s[k])
    ensures |s| > 1 ==> s[0] != '0'
  {
    if n < 10 then ["0123456789"[n]]
    else Decimal(n / 10) + ["0123456789"[n % 10]]
  }

  function DigitValue(ch: char): nat
    requires IsDigit(ch)
  {
    (ch as int) - ('0' as int)
  }

  /** The value of a string of decimal digits. */
  function DecimalValue(s: string): nat
    requires forall k :: 0 <= k < |s| ==> IsDigit(s[k])
  {
    if s == [] then 0
    else DecimalValue(s[..|s| - 1]) * 10 + DigitValue(s[|s| - 1])
  }

  /** Reading back a printed count gives the count. */
  lemma {:induction false} DecimalRoundTrip(n: nat)
    ensures DecimalValue(Decimal(n)) == n
    decreases n
  {
    var s := Decimal(n);
    if n >= 10 {
      DecimalRoundTrip(n / 10);
      assert s[..|s| - 1] == Decimal(n / 10);
    }
  }

  /** One output record (src/main.rs:118): the count, a tab, the n-gram and
      a newline. */
  function Record(e: Entry): string {
    Decimal(e.count) + "\t" + e.ngram + "\n"
  }

  /** The index of the first `ch` in `s`, if any. */
  function IndexOf(s: string, ch: char): (r: Option<nat>)
    ensures r.Some? ==> r.value < |s| && s[r.value] == ch && ch !in s[..r.value]
    ensures r.None? ==> ch !in s
  {
    if s == [] then None
    else if s[0] == ch then Some(0)
    else match IndexOf(s[1..], ch)
      case None => None
      case Some(k) =>
        assert s[..k + 1] == [s[0]] + s[1..][..k];
        Some(k + 1)
  }

  /** The first `ch` is found right after a prefix free of it. */
  lemma {:induction false} IndexOfAfter(prefix: string, ch: char, rest: string)
    requires ch !in prefix
    ensures IndexOf(prefix + [ch] + rest, ch) == Some(|prefix|)
    decreases |prefix|
  {
    var s := prefix + [ch] + rest;
    if prefix != [] {
      assert s[1..] == prefix[1..] + [ch] + rest;
      IndexOfAfter(prefix[1..], ch, rest);
    }
  }

  /** Reads a record back: digits up to the first tab, then the n-gram up
      to the closing newline. */
  function ParseRecord(r: string): Option<Entry> {
    if r == [] || r[|r| - 1] != '\n' then None
    else match IndexOf(r[..|r| - 1], '\t')
      case None => None
      case Some(k) =>
        var digits := r[..k];
        if digits == [] || !(forall i :: 0 <= i < |digits| ==> IsDigit(digits[i])) then None
        else Some(Entry(r[k + 1..|r| - 1], DecimalValue(digits)))
  }

  /** A record determines its entry: the count cannot contain the tab, so
      the first tab separates count from n-gram, even when the n-gram has
      tabs of its own. */
  lemma RecordRoundTrip(e: Entry)
    ensures ParseRecord(Record(e)) == Some(e)
  {
    var r := Record(e);
    var digits := Decimal(e.count);
    var body := r[..|r| - 1];
    assert body == digits + "\t" + e.ngram;
    assert '\t' !in digits;
    IndexOfAfter(digits, '\t', e.ngram);
    assert r[..|digits|] == digits;
    assert r[|digits| + 1..|r| - 1] == e.ngram;
    DecimalRoundTrip(e.count);
  }

  /** The output loop (src/main.rs:117-125): one record per exported entry,
      in export order. */
  method Emit(entries: seq<Entry>) returns (records: seq<string>)
    ensures |records| == |entries|
    ensures forall k :: 0 <= k < |entries| ==> records[k] == Record(entries[k])
  {
    records := [];
    for k := 0 to |entries|
      invariant |records| == k
      invariant forall i :: 0 <= i < k ==> records[i] == Record(entries[i])
    {
      records := records + [Record(entries[k])];
    }
  }

  /** The `--delim` option, a single space when absent (src/main.rs:42-45). */
  function Delimiter(option: Option<string>): string {
    match option
    case Some(s) => s
    case None => Space
  }

  /** The core of `main`: count the n-grams of all lines, export the table
      and format one record per entry.  The result is a record for every
      distinct n-gram, carrying its number of occurrences, in export order. */
  method Run(lines: seq<string>, n: nat, delim: Option<string>, padding: bool, reverse: bool)
    returns (records: seq<string>)
    ensures exists v :: Exported(v, CountAll(map[], Stream(lines, Config(n, Delimiter(delim), padding, reverse))), reverse)
                        && |records| == |v|
                        && forall k :: 0 <= k < |v| ==> records[k] == Record(v[k])
  {
    var cfg := Config(n, Delimiter(delim), padding, reverse);
    var table := Tally(lines, cfg);
    var entries := Export(table, cfg.reverse);
    records := Emit(entries);
  }
}
