# ngram — a Dafny model of the n-gram counter

`ngram` reads text line by line and counts its n-grams. It writes one record
per distinct n-gram: the count, a tab, the n-gram and a newline. The most
frequent n-grams come first, and equal counts are ordered by n-gram.

How it works:
- Each line is split on a literal delimiter (a single space by default).
- With `--padding`, the tokens are wrapped in `<BOS>` … `<EOS>`.
- Every window of `n` consecutive tokens is joined with a single space and
  counted in a hash map.
- The map's entries are collected into a vector and stably sorted twice:
  first by n-gram, then by count.
- `--reverse` reverses both comparisons.

The model covers that pipeline, from a sequence of input lines to a
sequence of output records. Its files:

- `text.dfy` (module `Text`): `str::split` on a literal pattern, covering
  leftmost non-overlapping matches, empty tokens and the empty pattern.
  Also `[&str]::join`, and the round trips between the two.
- `extractor.dfy` (module `Extractor`): the tokens of a line, optional
  padding, the n-grams of a token sequence, and the n-gram stream of a
  whole input.
- `aggregator.dfy` (module `Aggregator`): the frequency table.
  - `Increment` is `entry(..).or_insert(0) += 1`.
  - `CountAll` is its fold over the n-grams.
  - The imperative loops over lines and over windows are methods proved
    against `CountAll`.
  - The final table is characterised: exactly the n-grams that occur, each
    counted by its number of occurrences, and the counts sum to the number
    of n-grams.
- `sorting.dfy` (module `Sorting`): the four comparison closures and a
  stable in-place sort on an array. The sort is proved sorted, a
  permutation and stable, with a ghost index map as the witness.
- `exporter.dfy` (module `Exporter`): collecting the map into a vector in
  an unspecified order, then the two sorting passes.
  - The result is proved to be the export order.
  - That order is unique, so hash-map iteration order never shows in the
    output.
  - The reverse listing is exactly the default listing backwards.
- `report.dfy` (module `Report`): the record format `{count}\t{ngram}\n`,
  which parses back to its entry, the output loop, and `Run`, which chains
  the whole pipeline.
- `scenarios.dfy` (module `Scenarios`): small worked inputs carried through
  the model.

Two behaviours of the code deserve a note:

- **Tie-break with `--reverse`.** With `--reverse`, equal counts come in
  descending n-gram order. The reverse closures at src/main.rs:99-100 are
  written `|b, a|`, which swaps the operands of the n-gram comparison and
  keeps the count comparison ascending. `Exporter.ReverseIsBackwards` and
  `Scenarios.TieDescendingWhenReversed` state this.
- **`n = 0`.** `n = 0` is accepted: the guard `tokens.len() < n` never
  fires, so each line yields `len + 1` empty n-grams.
  `Extractor.ZeroGrams` states this.

## Model

| member | source | states |
|---|---|---|
| Text.Split | src/main.rs:72 | a split always yields at least one token, and a single token is the whole line |
| Text.JoinSplit | src/main.rs:72 | joining the tokens of a split with the same delimiter gives back the line, for every delimiter including the empty one |
| Text.JoinCharacters | src/main.rs:72 | with the empty delimiter the per-character tokens concatenate back to the line |
| Text.SplitTokensAvoidDelimiter | src/main.rs:72 | no token of a split contains an occurrence of a non-empty delimiter |
| Text.SingleToken | src/main.rs:72 | a line splits into the single token equal to itself iff the delimiter does not occur in it; the empty delimiter, which occurs everywhere, always cuts |
| Text.Join | src/main.rs:86 | `[&str]::join`; `Text.JoinSplit` and `Text.SplitJoin` state that it undoes splitting and is undone by it |
| Text.SplitJoin | src/main.rs:72-86 | with a one-character separator that no token contains, splitting the joined tokens gives the tokens back |
| Extractor.Tokenize | src/main.rs:72-77 | without padding the tokens are the split of the line; with padding "<BOS>" comes first, "<EOS>" last, and the split of the line, unchanged, in between; in both cases the split tokens rejoin to the line |
| Extractor.Ngrams | src/main.rs:79-86 | no n-grams when there are fewer than n tokens, otherwise exactly len − n + 1 of them |
| Extractor.ZeroGrams | src/main.rs:79-86 | with n = 0 a line of k tokens yields k + 1 n-grams, all empty |
| Extractor.NgramWindow | src/main.rs:83-86 | when no token holds a space and n ≥ 1, splitting the i-th n-gram on the space gives back tokens[i..i+n] |
| Extractor.LineNgrams | src/main.rs:72-86 | the n-grams of one line, its tokens' windows; `Aggregator.CountLine` is proved to count exactly these |
| Extractor.Stream | src/main.rs:63-86 | the n-grams of all lines, line after line; `Aggregator.Tally` is proved to count exactly these |
| Extractor.DefaultDelimiterWindow | src/main.rs:42-86 | under the default space delimiter, padded or not, every n-gram splits back into its window of tokens |
| Aggregator.Increment | src/main.rs:87-88 | the n-gram becomes a key, its count grows by one from zero when new, all other keys keep their counts |
| Aggregator.CountAll | src/main.rs:84-89 | one increment per n-gram, in order; `Aggregator.CountAllOccurrences` and `Aggregator.TotalCountAll` state what it leaves in the table |
| Aggregator.CountAllAppend | src/main.rs:63-90 | counting two batches in turn equals counting their concatenation |
| Aggregator.CountAllOccurrences | src/main.rs:84-89 | after counting, a key is present iff it was before or occurs in the batch, and its count grew by its number of occurrences |
| Aggregator.TotalIncrement | src/main.rs:87-88 | each increment adds exactly one to the sum of all counts |
| Aggregator.TotalCountAll | src/main.rs:84-89 | counting a batch adds its length to the sum of all counts |
| Aggregator.FinalTable | src/main.rs:61-90 | from an empty map: the keys are exactly the n-grams that occur, each with its number of occurrences (hence at least 1), and the counts sum to the number of n-grams |
| Aggregator.CountWindows | src/main.rs:83-89 | the window loop leaves the table of the previous lines plus one increment per n-gram of the line, in order |
| Aggregator.CountLine | src/main.rs:72-89 | one line's work counts exactly that line's n-grams, and leaves the table unchanged when the line has fewer than n tokens |
| Aggregator.Tally | src/main.rs:61-90 | the loop over lines yields the fold over all n-grams; keys iff occurring, counts are occurrence counts, all positive, summing to the number of n-grams |
| Sorting.CompareStrings | src/main.rs:95 | `String::cmp`; `Sorting.CompareStringsIsLexicographic` states that it is the lexicographic order |
| Sorting.Compare | src/main.rs:95-100 | the four closures, applied to `(x, y)`; `Sorting.CompareFlip` and `Sorting.CompareTransitive` state that each is a total preorder |
| Sorting.CompareStringsIsLexicographic | src/main.rs:95 | the n-gram comparison answers Less exactly for the lexicographic order (first differing character, or proper prefix) |
| Sorting.CompareStringsEqual | src/main.rs:95 | n-grams compare Equal iff they are equal |
| Sorting.CompareStringsFlip | src/main.rs:95-99 | swapping the operands swaps Less and Greater and keeps Equal |
| Sorting.CompareStringsTransitive | src/main.rs:95-99 | "not after" on n-grams is transitive |
| Sorting.CompareFlip | src/main.rs:95-100 | each of the four closures is antisymmetric |
| Sorting.CompareTransitive | src/main.rs:95-100 | each of the four closures has a transitive "not after" relation, as sort_by demands |
| Sorting.StableSort | src/main.rs:95-100 | sort_by: the array ends sorted by the closure, a permutation of its old contents, and entries that compare Equal keep their old relative order |
| Sorting.Insert | src/main.rs:95-100 | one round of the stand-in for sort_by: a stably sorted prefix one element longer, still a permutation of the original |
| Exporter.Collect | src/main.rs:92 | the collected vector lists every entry of the map exactly once, with its count, in an order left open |
| Exporter.TwoPasses | src/main.rs:93-101 | a stable sort by count of a vector already sorted by n-gram orders by count, ties by n-gram |
| Exporter.Export | src/main.rs:92-101 | the exported vector lists every entry once, by descending count with ascending n-gram ties, or by ascending count with descending n-gram ties under --reverse |
| Exporter.PrecedesAsymmetric | src/main.rs:93-101 | no two entries precede each other in export order |
| Exporter.ExportUnique | src/main.rs:92-101 | two exports of the same map are equal, so the map's iteration order does not affect the output |
| Exporter.ReverseIsBackwards | src/main.rs:97-101 | the --reverse export is the default export read backwards |
| Report.Decimal | src/main.rs:118 | a count prints as a non-empty string of digits with no leading zero |
| Report.Record | src/main.rs:118 | the record `{count}\t{ngram}\n`; `Report.RecordRoundTrip` states that it determines its entry |
| Report.Delimiter | src/main.rs:42-45 | the delimiter option, a single space when absent; `Report.Run` uses it |
| Report.DecimalRoundTrip | src/main.rs:118 | reading the printed digits back gives the count |
| Report.RecordRoundTrip | src/main.rs:118 | a record parses back to its entry: the first tab ends the count even when the n-gram has tabs |
| Report.Emit | src/main.rs:117-125 | one record per exported entry, in export order |
| Report.Run | src/main.rs:40-125 | the output is one record per entry of some export of the table counted from all lines' n-grams, with the delimiter defaulting to a space |
| Scenarios.BigramsOfOneLine | src/main.rs:72-86 | "a b c" with n = 2 yields "a b" then "b c", whatever the order flag |
| Scenarios.ShortLineSkipped | src/main.rs:79-81 | "x y" with n = 3 and no padding yields nothing |
| Scenarios.PaddingMakesRoom | src/main.rs:74-86 | padded, "x y" with n = 3 yields "<BOS> x y" then "x y <EOS>" |
| Scenarios.CommaDelimiter | src/main.rs:72 | "a,b,c" on "," with n = 1 yields "a", "b", "c" |
| Scenarios.EmptyDelimiter | src/main.rs:72 | the empty delimiter splits "ab" into "", "a", "b", "" |
| Scenarios.CommaExport | src/main.rs:61-101 | the export of "a,b,c" counted on "," with n = 1 lists "a", "b" and "c", each once, alphabetically |
| Scenarios.TieAscendingByDefault | src/main.rs:61-96 | the two bigrams of "a b c", seen once each, are exported in ascending n-gram order by default |
| Scenarios.TieDescendingWhenReversed | src/main.rs:61-100 | under --reverse the two bigrams of "a b c" are exported in descending n-gram order |
| Scenarios.RepeatedBigram | src/main.rs:61-101 | "a a a" with n = 2 exports the single entry "a a" with count 2 |
| Scenarios.TieBreakRun | src/main.rs:40-125 | the whole run on "a b c" with n = 2 writes "1\ta b\n" then "1\tb c\n", and the reverse of that with --reverse |
| Scenarios.RepeatedBigramRun | src/main.rs:40-125 | the whole run on "a a a" with n = 2 writes the single record "2\ta a\n" |
| Scenarios.CommaRun | src/main.rs:40-125 | the whole run on "a,b,c" with n = 1 and delimiter "," writes "1\ta\n", "1\tb\n", "1\tc\n" |

## Left out

- Command-line parsing (structopt) is not modelled. `Report.Run` takes `n`,
  the optional delimiter and the two flags as parameters.
- Input is given as a sequence of lines.
- Several parts of reading and writing are not modelled:
  - opening files or stdin;
  - how `lines()` strips line endings;
  - UTF-8 decoding errors;
  - the `eprintln!`/`process::exit(1)` error paths for input, read,
    output and write failures.
- The output is a sequence of record strings, not bytes written to a
  stream.
- Counts are unbounded naturals. The source's integer counter would
  overflow only after about 2^31 occurrences of one n-gram.
- `usize` arithmetic is unbounded. `len - n + 1` cannot underflow after the
  guard, and this is not modelled further.
- The hash map's iteration order is an arbitrary choice in
  `Exporter.Collect`, because the real order is randomised per process.
  `Exporter.ExportUnique` shows that the choice does not reach the output.
- `Sorting.StableSort`: `Vec::sort_by` (a merge sort) is modelled by an
  insertion sort. Only its specified behaviour is kept: stable, sorted and
  a permutation. Its comparisons and allocation are not modelled.
- `Report.Run` states that the output is the records of some export. It
  does not state which one, because `Exporter.ExportUnique` shows that
  there is only one.
- Strings are sequences of Unicode scalar values. Comparing them element by
  element gives the same order as Rust's byte-wise comparison of their
  UTF-8 encodings.
