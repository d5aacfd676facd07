/** Literal-substring splitting and joining of lines (src/main.rs:72, 86). */
module Text {

  /** `d` occurs in `s` at index `i`. */
  ghost predicate OccursAt(s: string, d: string, i: nat) {
    i + |d| <= |s| && s[i..i + |d|] == d
  }

  /** `d` occurs somewhere in `s`. */
  ghost predicate Contains(s: string, d: string) {
    exists i: nat :: OccursAt(s, d, i)
  }

  /** Each character of `s` as a token of its own, then one empty token. */
  function Characters(s: string): (tokens: seq<string>)
    ensures |tokens| == |s| + 1
    ensures forall k :: 0 <= k < |s| ==> tokens[k] == [s[k]]
    ensures tokens[|s|] == ""
  {
    if s == [] then [""] else [[s[0]]] + Characters(s[1..])
  }

  /** Splits `s` on every leftmost, non-overlapping occurrence of the
      literal delimiter `d`, scanning left to right; consecutive delimiters
      give empty tokens and there is always at least one token.  The empty
      delimiter matches at every character boundary, both ends included. */
  function Split(s: string, d: string): (tokens: seq<string>)
    ensures |tokens| >= 1
    ensures |tokens| == 1 ==> tokens[0] == s
    decreases |s|
  {
    if d == [] then [""] + Characters(s)
    else if |s| < |d| then [s]
    else if s[..|d|] == d then [""] + Split(s[|d|..], d)
    else
      var rest := Split(s[1..], d);
      [[s[0]] + rest[0]] + rest[1..]
  }

  /** Concatenates `tokens`, putting `sep` between neighbours. */
  function Join(tokens: seq<string>, sep: string): string {
    if |tokens| == 0 then ""
    else if |tokens| == 1 then tokens[0]
    else tokens[0] + sep + Join(tokens[1..], sep)
  }

  lemma JoinStartsWithFirst(tokens: seq<string>, sep: string)
    requires |tokens| >= 1
    ensures |tokens[0]| <= |Join(tokens, sep)|
    ensures Join(tokens, sep)[..|tokens[0]|] == tokens[0]
  {
  }

  /** Gluing a prefix onto the first token glues it onto the joined string. */
  lemma JoinExtendFirst(x: string, tokens: seq<string>, sep: string)
    requires |tokens| >= 1
    ensures Join([x + tokens[0]] + tokens[1..], sep) == x + Join(tokens, sep)
  {
    var t := [x + tokens[0]] + tokens[1..];
    if |tokens| > 1 {
      assert t[1..] == tokens[1..];
    }
  }

  /** Joining the characters back without a separator restores the line. */
  lemma {:induction false} JoinCharacters(s: string)
    ensures Join(Characters(s), "") == s
    decreases |s|
  {
    if s != [] {
      JoinCharacters(s[1..]);
      assert Characters(s)[1..] == Characters(s[1..]);
      assert s == [s[0]] + s[1..];
    }
  }

  /** Re-joining the tokens of a split with the same delimiter restores the line. */
  lemma JoinSplit(s: string, d: string)
    ensures Join(Split(s, d), d) == s
  {
    if d == [] {
      JoinCharacters(s);
      assert ([""] + Characters(s))[1..] == Characters(s);
    } else {
      JoinSplitOn(s, d);
    }
  }

  lemma {:induction false} JoinSplitOn(s: string, d: string)
    requires d != []
    ensures Join(Split(s, d), d) == s
    decreases |s|
  {
    if |s| < |d| {
    } else if s[..|d|] == d {
      var rest := Split(s[|d|..], d);
      assert Split(s, d) == [""] + rest;
      JoinSplitOn(s[|d|..], d);
      assert ([""] + rest)[1..] == rest;
      assert Join([""] + rest, d) == d + Join(rest, d);
      assert s == d + s[|d|..];
    } else {
      var rest := Split(s[1..], d);
      assert Split(s, d) == [[s[0]] + rest[0]] + rest[1..];
      JoinSplitOn(s[1..], d);
      JoinExtendFirst([s[0]], rest, d);
      assert s == [s[0]] + s[1..];
    }
  }

  /** No token of a split contains the delimiter. */
  lemma {:induction false} SplitTokensAvoidDelimiter(s: string, d: string)
    requires d != []
    ensures forall k, i: nat :: 0 <= k < |Split(s, d)| ==> !OccursAt(Split(s, d)[k], d, i)
    decreases |s|
  {
    var tokens := Split(s, d);
    if |s| < |d| {
      forall i: nat ensures !OccursAt(s, d, i) {
      }
    } else if s[..|d|] == d {
      var rest := Split(s[|d|..], d);
      SplitTokensAvoidDelimiter(s[|d|..], d);
      forall k, i: nat | 0 <= k < |tokens| ensures !OccursAt(tokens[k], d, i) {
        if k > 0 {
          assert tokens[k] == rest[k - 1];
        }
      }
    } else {
      var rest := Split(s[1..], d);
      SplitTokensAvoidDelimiter(s[1..], d);
      var first := [s[0]] + rest[0];
      forall k, i: nat | 0 <= k < |tokens| ensures !OccursAt(tokens[k], d, i) {
        if k > 0 {
          assert tokens[k] == rest[k];
        } else if i > 0 {
          if OccursAt(first, d, i) {
            assert first[i..i + |d|] == rest[0][i - 1..i - 1 + |d|];
            assert OccursAt(rest[0], d, i - 1);
          }
        } else if OccursAt(first, d, 0) {
          JoinSplit(s[1..], d);
          JoinStartsWithFirst(rest, d);
          assert false;
        }
      }
    }
  }

  /** A line splits into exactly one token, the line itself, if and only if
      the delimiter does not occur in it; the empty line is the one token "",
      and the empty delimiter, which occurs everywhere, always cuts. */
  lemma {:induction false} SingleToken(s: string, d: string)
    ensures Split(s, d) == [s] <==> !Contains(s, d)
    decreases |s|
  {
    if d == [] {
      assert OccursAt(s, d, 0);
    } else if Split(s, d) == [s] {
      SplitTokensAvoidDelimiter(s, d);
      assert forall i: nat :: !OccursAt(Split(s, d)[0], d, i);
    } else if !Contains(s, d) {
      if |s| >= |d| {
        assert !OccursAt(s, d, 0);
        forall i: nat ensures !OccursAt(s[1..], d, i) {
          assert !OccursAt(s, d, i + 1);
        }
        SingleToken(s[1..], d);
      }
      assert false;
    }
  }

  /** Splitting a token free of the one-character separator `c`, followed by
      `c` and a remainder, peels that token off. */
  lemma {:induction false} SplitPeel(t: string, c: char, rest: string)
    requires c !in t
    ensures Split(t + [c] + rest, [c]) == [t] + Split(rest, [c])
    decreases |t|
  {
    var s := t + [c] + rest;
    if t == [] {
      assert s[..1] == [c];
      assert s[1..] == rest;
    } else {
      assert s[0] == t[0];
      assert s[1..] == t[1..] + [c] + rest;
      SplitPeel(t[1..], c, rest);
      assert [t[0]] + t[1..] == t;
    }
  }

  /** With a one-character separator that no token contains, splitting
      undoes joining. */
  lemma {:induction false} SplitJoin(tokens: seq<string>, c: char)
    requires |tokens| >= 1
    requires forall k :: 0 <= k < |tokens| ==> c !in tokens[k]
    ensures Split(Join(tokens, [c]), [c]) == tokens
    decreases |tokens|
  {
    if |tokens| == 1 {
      var t := tokens[0];
      if Contains(t, [c]) {
        var i: nat :| OccursAt(t, [c], i);
      }
      SingleToken(t, [c]);
    } else {
      SplitJoin(tokens[1..], c);
      SplitPeel(tokens[0], c, Join(tokens[1..], [c]));
      assert [tokens[0]] + tokens[1..] == tokens;
    }
  }
}
