/**
 * Java's `String.split("\\s+")`: the text between maximal runs of
 * whitespace, with a leading empty token when the line starts with
 * whitespace, trailing empty tokens removed, and the whole line as the only
 * token when it holds no whitespace at all.
 */
module JavaSplit {

  /** The regular-expression class `\s`: space, tab, line feed, vertical tab, form feed, carriage return. */
  predicate IsSpace(c: char)
  {
    c == ' ' || c == '\t' || c == '\n' || c == '\U{000B}' || c == '\U{000C}' || c == '\r'
  }

  predicate NoSpace(s: string)
  {
    forall i :: 0 <= i < |s| ==> !IsSpace(s[i])
  }

  predicate AllSpace(s: string)
  {
    forall i :: 0 <= i < |s| ==> IsSpace(s[i])
  }

  /** The first whitespace position at or after `k`, or |s| when there is none (the next match's start). */
  function SpaceFrom(s: string, k: nat): (i: nat)
    requires k <= |s|
    ensures k <= i <= |s|
    ensures i < |s| ==> IsSpace(s[i])
    decreases |s| - k
  {
    if k == |s| || IsSpace(s[k]) then k else SpaceFrom(s, k + 1)
  }

  /** The end of the whitespace run that starts at `k` (the match's end). */
  function RunEndFrom(s: string, k: nat): (i: nat)
    requires k <= |s|
    ensures k <= i <= |s|
    ensures i < |s| ==> !IsSpace(s[i])
    decreases |s| - k
  {
    if k == |s| || !IsSpace(s[k]) then k else RunEndFrom(s, k + 1)
  }

  /** Between `k` and the next whitespace there is none. */
  lemma {:induction false} SpaceFromSpan(s: string, k: nat)
    requires k <= |s|
    ensures forall j :: k <= j < SpaceFrom(s, k) ==> !IsSpace(s[j])
    decreases |s| - k
  {
    if k < |s| && !IsSpace(s[k]) {
      SpaceFromSpan(s, k + 1);
    }
  }

  /** A run is all whitespace. */
  lemma {:induction false} RunEndFromSpan(s: string, k: nat)
    requires k <= |s|
    ensures forall j :: k <= j < RunEndFrom(s, k) ==> IsSpace(s[j])
    decreases |s| - k
  {
    if k < |s| && IsSpace(s[k]) {
      RunEndFromSpan(s, k + 1);
    }
  }

  /** The next whitespace is at `m` when there is none before it. */
  lemma {:induction false} SpaceFromReaches(s: string, k: nat, m: nat)
    requires k <= m <= |s|
    requires forall j :: k <= j < m ==> !IsSpace(s[j])
    requires m == |s| || IsSpace(s[m])
    ensures SpaceFrom(s, k) == m
    decreases m - k
  {
    if k < m {
      SpaceFromReaches(s, k + 1, m);
    }
  }

  /** A run of whitespace from `k` ends at `m` when `m` ends the text or is not whitespace. */
  lemma {:induction false} RunEndFromReaches(s: string, k: nat, m: nat)
    requires k <= m <= |s|
    requires forall j :: k <= j < m ==> IsSpace(s[j])
    requires m == |s| || !IsSpace(s[m])
    ensures RunEndFrom(s, k) == m
    decreases m - k
  {
    if k < m {
      RunEndFromReaches(s, k + 1, m);
    }
  }

  /**
   * The substrings that `split` collects from position `k` on: the text up to
   * each whitespace run, then the text after the last run, empty ones included.
   */
  function PiecesFrom(s: string, k: nat): (ps: seq<string>)
    requires k <= |s|
    ensures |ps| > 0
    decreases |s| - k
  {
    var i := SpaceFrom(s, k);
    if i == |s| then [s[k..]]
    else [s[k..i]] + PiecesFrom(s, RunEndFrom(s, i))
  }

  /** The removal of trailing empty strings that `split` does when no limit is given. */
  function DropTrailingEmpty(ps: seq<string>): seq<string>
  {
    if ps != [] && ps[|ps| - 1] == "" then DropTrailingEmpty(ps[..|ps| - 1]) else ps
  }

  /** `line.split("\\s+")`: with no match the line itself, otherwise the pieces less trailing empty ones. */
  function Split(line: string): seq<string>
  {
    if SpaceFrom(line, 0) == |line| then [line] else DropTrailingEmpty(PiecesFrom(line, 0))
  }

  /** The whitespace-separated words of `s` from position `k` on: an independent reading of the line. */
  function WordsFrom(s: string, k: nat): (ws: seq<string>)
    requires k <= |s|
    ensures forall n :: 0 <= n < |ws| ==> ws[n] != ""
    decreases |s| - k
  {
    var b := RunEndFrom(s, k);
    if b == |s| then []
    else
      var e := SpaceFrom(s, b);
      [s[b..e]] + WordsFrom(s, e)
  }

  function Words(line: string): seq<string>
  {
    WordsFrom(line, 0)
  }

  lemma DropTrailingEmptyKeeps(ps: seq<string>)
    requires ps == [] || ps[|ps| - 1] != ""
    ensures DropTrailingEmpty(ps) == ps
  {
  }

  lemma DropTrailingEmptyAfter(ws: seq<string>)
    ensures DropTrailingEmpty(ws + [""]) == DropTrailingEmpty(ws)
  {
    assert (ws + [""])[..|ws|] == ws;
  }

  /** Whitespace at the start does not change the words. */
  lemma WordsSkipRun(s: string, k: nat)
    requires k <= |s|
    ensures WordsFrom(s, k) == WordsFrom(s, RunEndFrom(s, k))
  {
  }

  /** From `k` on, the text is empty or its last character is whitespace. */
  predicate EndsOpen(s: string, k: nat)
  {
    k >= |s| || IsSpace(s[|s| - 1])
  }

  /** From a position that is not whitespace, the pieces are the words, plus "" when the text ends open. */
  lemma {:induction false} PiecesAreWords(s: string, k: nat)
    requires k <= |s|
    requires k == |s| || !IsSpace(s[k])
    ensures PiecesFrom(s, k) == WordsFrom(s, k) + (if EndsOpen(s, k) then [""] else [])
    decreases |s| - k
  {
    var i := SpaceFrom(s, k);
    SpaceFromSpan(s, k);
    if k == |s| {
      assert s[k..] == [];
    } else if i == |s| {
      assert !IsSpace(s[|s| - 1]);
      assert RunEndFrom(s, k) == k;
      assert s[k..|s|] == s[k..];
      assert WordsFrom(s, |s|) == [];
    } else {
      var j := RunEndFrom(s, i);
      PiecesAreWords(s, j);
      WordsSkipRun(s, i);
      if j == |s| {
        RunEndFromSpan(s, i);
        assert IsSpace(s[|s| - 1]);
      }
    }
  }

  /**
   * What `split` gives, in terms of words: nothing for a non-empty line of
   * whitespace, the line itself for the empty line, and otherwise the words,
   * after an empty token when the line starts with whitespace.
   */
  lemma SplitIsWords(line: string)
    ensures Split(line) ==
      if line == [] then [""]
      else if AllSpace(line) then []
      else (if IsSpace(line[0]) then [""] else []) + Words(line)
  {
    if line == [] {
    } else if !IsSpace(line[0]) {
      assert !AllSpace(line);
      PiecesAreWords(line, 0);
      if SpaceFrom(line, 0) < |line| {
        DropTrailingEmptyAfter(Words(line));
        DropTrailingEmptyKeeps(Words(line));
      } else {
        SpaceFromSpan(line, 0);
      }
    } else {
      var j := RunEndFrom(line, 0);
      assert PiecesFrom(line, 0) == [""] + PiecesFrom(line, j);
      PiecesAreWords(line, j);
      WordsSkipRun(line, 0);
      if j == |line| {
        RunEndFromSpan(line, 0);
        assert AllSpace(line);
        assert line[j..] == [];
        assert PiecesFrom(line, 0) == ["", ""];
        assert DropTrailingEmpty(["", ""]) == DropTrailingEmpty([""]) == [];
      } else {
        assert !AllSpace(line);
        var ws := WordsFrom(line, j);
        assert ws != [];
        assert ([""] + ws) + [""] == [""] + (ws + [""]);
        DropTrailingEmptyAfter([""] + ws);
        DropTrailingEmptyKeeps([""] + ws);
      }
    }
  }

  /** A request line "METHOD PATH" splits into exactly its two tokens. */
  lemma SplitTwoTokens(first: string, second: string)
    requires first != "" && NoSpace(first)
    requires second != "" && NoSpace(second)
    ensures Split(first + " " + second) == [first, second]
  {
    var line := first + " " + second;
    var m := |first|;
    assert line[0] == first[0];
    assert !AllSpace(line);
    SplitIsWords(line);
    assert RunEndFrom(line, 0) == 0;
    SpaceFromReaches(line, 0, m);
    assert line[..m] == first;
    assert RunEndFrom(line, m) == m + 1 by {
      assert line[m + 1] == second[0];
    }
    SpaceFromReaches(line, m + 1, |line|);
    assert line[m + 1..|line|] == second;
    assert WordsFrom(line, |line|) == [];
    assert WordsFrom(line, m) == [second] + WordsFrom(line, |line|);
    assert Words(line) == [first] + WordsFrom(line, m);
  }

  /** A line with one token and no whitespace splits into that token alone. */
  lemma SplitOneToken(token: string)
    requires NoSpace(token)
    ensures Split(token) == [token]
  {
    SpaceFromReaches(token, 0, |token|);
  }

  /**
   * A request line "METHOD PATH ..." starts with its two tokens whatever
   * follows the path after some whitespace: a protocol version, more
   * tokens, tabs or trailing blanks.
   */
  lemma SplitRequestLine(first: string, second: string, rest: string)
    requires first != "" && NoSpace(first)
    requires second != "" && NoSpace(second)
    requires rest == "" || IsSpace(rest[0])
    ensures var tokens := Split(first + " " + second + rest);
      |tokens| >= 2 && tokens[0] == first && tokens[1] == second
  {
    var line := first + " " + second + rest;
    var m := |first|;
    var e := m + 1 + |second|;
    assert line[0] == first[0];
    assert !AllSpace(line);
    SplitIsWords(line);
    assert RunEndFrom(line, 0) == 0;
    SpaceFromReaches(line, 0, m);
    assert line[..m] == first;
    assert RunEndFrom(line, m) == m + 1 by {
      assert line[m + 1] == second[0];
    }
    assert forall j :: m + 1 <= j < e ==> line[j] == second[j - m - 1];
    if rest != "" {
      assert line[e] == rest[0];
    }
    SpaceFromReaches(line, m + 1, e);
    assert line[m + 1..e] == second;
    assert WordsFrom(line, m) == [second] + WordsFrom(line, e);
    assert Words(line) == [first] + WordsFrom(line, m);
  }

  /** A token followed only by whitespace splits into that token alone: trailing blanks are dropped. */
  lemma SplitTokenThenBlanks(token: string, blanks: string)
    requires token != "" && NoSpace(token)
    requires AllSpace(blanks)
    ensures Split(token + blanks) == [token]
  {
    var line := token + blanks;
    var m := |token|;
    assert line[0] == token[0];
    assert !AllSpace(line);
    SplitIsWords(line);
    assert RunEndFrom(line, 0) == 0;
    SpaceFromReaches(line, 0, m);
    assert line[..m] == token;
    assert forall j :: m <= j < |line| ==> line[j] == blanks[j - m];
    RunEndFromReaches(line, m, |line|);
    assert WordsFrom(line, m) == [];
    assert Words(line) == [token] + WordsFrom(line, m);
  }
}
