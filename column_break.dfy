/** `check_column_break`, identical in portugues.py and convertepdf.py: a
    break is declared between two lines when the first token of the current
    line starts more than `threshold` characters after the end of the last
    token of the previous line. */
module ColumnBreak {
  import opened Text

  /** The threshold both scripts use (the parameter's default). */
  const DefaultThreshold: int := 50

  /** What `check_column_break(prev, current, threshold)` returns. The end
      offset is that of the last non-overlapping match of the previous line's
      last token; the start offset that of the first match of the current
      line's first token. */
  function IsColumnBreak(prev: string, current: string, threshold: int): (b: bool)
    ensures b ==> Tokens(prev) != [] && Tokens(current) != []
    ensures b ==> IndexOf(current, Tokens(current)[0]) > threshold + 1
  {
    var prevWords := Tokens(prev);
    var currentWords := Tokens(current);
    if prevWords == [] || currentWords == [] then false
    else
      var lastEnd := LastMatchEnd(prev, prevWords[|prevWords| - 1]);
      var firstStart := IndexOf(current, currentWords[0]);
      lastEnd > 0 && firstStart > lastEnd + threshold
  }

  /** The test with the default threshold, as both call sites use it. */
  function AtDefault(prev: string, current: string): bool
  {
    IsColumnBreak(prev, current, DefaultThreshold)
  }

  /** `check_column_break`: tokenise both lines, give up on a line without
      tokens, locate the two offsets and compare them. */
  method CheckColumnBreak(prev: string, current: string, threshold: int) returns (b: bool)
    ensures b == IsColumnBreak(prev, current, threshold)
    ensures AllSpace(prev) || AllSpace(current) ==> !b
  {
    var prevWords := Tokens(prev);
    var currentWords := Tokens(current);
    if prevWords == [] || currentWords == [] {
      return false;
    }
    LastEndPositive(prev);
    var lastWordPrevEnd := LastEndScan(prev, prevWords[|prevWords| - 1]);
    var firstWordCurrentStart := FirstStartScan(current, currentWords[0]);
    b := lastWordPrevEnd > 0 && firstWordCurrentStart > lastWordPrevEnd + threshold;
  }

  /** The `for match in re.finditer(...)` loop over the previous line: every
      non-overlapping match is visited and the end of the last one kept. */
  method LastEndScan(line: string, word: string) returns (lastEnd: int)
    requires word != []
    ensures lastEnd == LastMatchEnd(line, word)
    ensures 0 <= lastEnd <= |line|
    ensures lastEnd > 0 <==> Contains(line, word)
  {
    lastEnd := 0;
    var p := 0;
    while p + |word| <= |line|
      invariant 0 <= p <= |line|
      invariant LastEndFrom(line, word, p, lastEnd) == LastEndFrom(line, word, 0, 0)
      decreases |line| - p
    {
      if line[p..p + |word|] == word {
        lastEnd := p + |word|;
        p := p + |word|;
      } else {
        p := p + 1;
      }
    }
  }

  /** The `for match in re.finditer(...)` loop over the current line, left at
      its first match by `break`. */
  method FirstStartScan(line: string, word: string) returns (firstStart: int)
    ensures firstStart == IndexOf(line, word)
    ensures firstStart >= 0 <==> Contains(line, word)
    ensures firstStart >= 0 ==> OccursAt(line, word, firstStart)
  {
    firstStart := -1;
    var p := 0;
    while p + |word| <= |line|
      invariant 0 <= p && firstStart == -1
      invariant forall j :: 0 <= j < p ==> !OccursAt(line, word, j)
      decreases |line| - p
    {
      if line[p..p + |word|] == word {
        firstStart := p;
        break;
      }
      p := p + 1;
    }
    var r := IndexOf(line, word);
    if firstStart < 0 {
      assert r != -1 ==> OccursAt(line, word, r) && r < p;
    } else {
      assert OccursAt(line, word, firstStart);
    }
  }

  /** Whenever the previous line has a token, the end offset is positive: the
      token is a substring of the line, so it has at least one match. */
  lemma LastEndPositive(prev: string)
    requires Tokens(prev) != []
    ensures LastMatchEnd(prev, Tokens(prev)[|Tokens(prev)| - 1]) > 0
  {
    TokensOccur(prev, |Tokens(prev)| - 1);
  }

  /** Both offsets are found and lie inside their lines whenever both lines
      have tokens. */
  lemma OffsetsInRange(prev: string, current: string)
    requires Tokens(prev) != [] && Tokens(current) != []
    ensures 0 < LastMatchEnd(prev, Tokens(prev)[|Tokens(prev)| - 1]) <= |prev|
    ensures 0 <= IndexOf(current, Tokens(current)[0]) <= |current| - |Tokens(current)[0]|
  {
    var prevWords := Tokens(prev);
    TokensOccur(prev, |prevWords| - 1);
    assert 0 < LastMatchEnd(prev, prevWords[|prevWords| - 1]);
    var currentWords := Tokens(current);
    TokensOccur(current, 0);
    assert 0 <= IndexOf(current, currentWords[0]);
  }

  /** With the default threshold, no current line that starts with a
      non-whitespace character is ever a break. */
  lemma AtDefaultNeverBreaksSolid()
    ensures forall prev, current :: current != [] && !IsSpace(current[0]) ==> !AtDefault(prev, current)
  {
    forall prev, current | current != [] && !IsSpace(current[0])
      ensures !AtDefault(prev, current)
    {
      LeadingTokenNoBreak(prev, current, DefaultThreshold);
    }
  }

  /** Raising the threshold can turn a break into no break, never the
      reverse. */
  lemma ThresholdMonotone(prev: string, current: string, low: int, high: int)
    requires low <= high
    ensures IsColumnBreak(prev, current, high) ==> IsColumnBreak(prev, current, low)
  {
  }

  /** A current line that does not start with whitespace has its first token
      at offset 0, so no non-negative threshold lets the test return true. */
  lemma LeadingTokenNoBreak(prev: string, current: string, threshold: int)
    requires current != [] && !IsSpace(current[0]) && 0 <= threshold
    ensures !IsColumnBreak(prev, current, threshold)
  {
    FirstTokenAtStart(current);
  }
}
