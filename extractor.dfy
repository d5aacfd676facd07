/** The extractor: a line becomes tokens, optionally padded with boundary
    markers, and then the left-to-right sequence of its n-gram strings
    (src/main.rs:72-86). */
module Extractor {
  import opened Text

  const BOS := "<BOS>"
  const EOS := "<EOS>"
  /** N-grams are always joined with a single space, whatever the delimiter. */
  const Space := " "

  /** The run's settings: the `n` of n-grams, the token delimiter, whether
      lines are padded and whether the listing is reversed. */
  datatype Config = Config(n: nat, delim: string, padding: bool, reverse: bool)

  /** The tokens of one line: the split on the literal delimiter, with
      "<BOS>" in front and "<EOS>" behind when padding is on. */
  function Tokenize(line: string, delim: string, padding: bool): (tokens: seq<string>)
    ensures !padding ==> tokens == Split(line, delim) && Join(tokens, delim) == line
    ensures padding ==> |tokens| == |Split(line, delim)| + 2 && tokens[0] == BOS && tokens[|tokens| - 1] == EOS
    ensures padding ==> tokens[1..|tokens| - 1] == Split(line, delim)
    ensures padding ==> Join(tokens[1..|tokens| - 1], delim) == line
  {
    var split := Split(line, delim);
    JoinSplit(line, delim);
    if padding then
      var padded := [BOS] + split + [EOS];
      assert padded[1..|padded| - 1] == split;
      padded
    else split
  }

  /** The n-grams of a token sequence, in left-to-right order: every window
      of `n` consecutive tokens joined with a single space; nothing when
      there are fewer than `n` tokens.  For `n == 0` every one of the
      `|tokens| + 1` windows is empty. */
  function Ngrams(tokens: seq<string>, n: nat): (grams: seq<string>)
    ensures |grams| == if |tokens| < n then 0 else |tokens| - n + 1
  {
    if |tokens| < n then []
    else seq(|tokens| - n + 1, i requires 0 <= i < |tokens| - n + 1 => Join(tokens[i..i + n], Space))
  }

  /** The n-grams one input line contributes. */
  function LineNgrams(line: string, cfg: Config): seq<string>
  {
    Ngrams(Tokenize(line, cfg.delim, cfg.padding), cfg.n)
  }

  /** The n-grams of all lines, line after line. */
  function Stream(lines: seq<string>, cfg: Config): seq<string>
  {
    if lines == [] then []
    else Stream(lines[..|lines| - 1], cfg) + LineNgrams(lines[|lines| - 1], cfg)
  }

  /** With `n == 0` the window guard never rejects a line: each line yields
      one empty n-gram per token plus one. */
  lemma {:induction false} ZeroGrams(tokens: seq<string>)
    ensures |Ngrams(tokens, 0)| == |tokens| + 1
    ensures forall i :: 0 <= i < |tokens| + 1 ==> Ngrams(tokens, 0)[i] == ""
  {
    forall i | 0 <= i < |tokens| + 1 ensures Ngrams(tokens, 0)[i] == "" {
      assert tokens[i..i] == [];
    }
  }

  /** Splitting the i-th n-gram on the space gives back its window of
      tokens, provided no token holds a space and `n >= 1`. */
  lemma NgramWindow(tokens: seq<string>, n: nat, i: nat)
    requires n >= 1
    requires forall k :: 0 <= k < |tokens| ==> ' ' !in tokens[k]
    requires i < |Ngrams(tokens, n)|
    ensures Split(Ngrams(tokens, n)[i], Space) == tokens[i..i + n]
  {
    var window := tokens[i..i + n];
    assert forall k :: 0 <= k < |window| ==> window[k] == tokens[i + k];
    SplitJoin(window, ' ');
  }

  /** Under the default single-space delimiter, with or without padding, no
      token holds a space, so each n-gram splits back into exactly the
      `n` tokens of its window. */
  lemma DefaultDelimiterWindow(line: string, padding: bool, n: nat, i: nat)
    requires n >= 1
    requires i < |Ngrams(Tokenize(line, Space, padding), n)|
    ensures Split(Ngrams(Tokenize(line, Space, padding), n)[i], Space) == Tokenize(line, Space, padding)[i..i + n]
  {
    var tokens := Tokenize(line, Space, padding);
    var split := Split(line, Space);
    SplitTokensAvoidDelimiter(line, Space);
    forall k | 0 <= k < |split| ensures ' ' !in split[k] {
      if ' ' in split[k] {
        var j :| 0 <= j < |split[k]| && split[k][j] == ' ';
        assert OccursAt(split[k], Space, j);
      }
    }
    assert forall k :: 0 <= k < |tokens| ==> ' ' !in tokens[k];
    NgramWindow(tokens, n, i);
  }
}
