/** Python string primitives the three conversion scripts rely on:
    `str.strip()`, `str.split()`, `str.split('\n')`, `sep.join(...)`,
    `str.startswith`, `str.replace`, and literal search as done by
    `re.finditer(re.escape(w), s)` and `re.sub(r'Folha:.*', '', s)`. */
module Text {

  datatype Option<T> = None | Some(value: T)

  /** The characters Python's `str.isspace` accepts; `strip()` and `split()`
      with no argument cut on exactly these. */
  predicate IsSpace(c: char)
  {
    c == ' ' || ('\t' <= c <= '\r') || ('\U{1C}' <= c <= '\U{1F}')
    || c == '\U{85}' || c == '\U{A0}' || c == '\U{1680}'
    || ('\U{2000}' <= c <= '\U{200A}') || c == '\U{2028}' || c == '\U{2029}'
    || c == '\U{202F}' || c == '\U{205F}' || c == '\U{3000}'
  }

  predicate AllSpace(s: string)
  {
    forall i :: 0 <= i < |s| ==> IsSpace(s[i])
  }

  /** No whitespace at either end. */
  predicate IsStripped(s: string)
  {
    s != [] ==> !IsSpace(s[0]) && !IsSpace(s[|s| - 1])
  }

  predicate StartsWith(s: string, prefix: string)
  {
    |prefix| <= |s| && s[..|prefix|] == prefix
  }

  predicate OccursAt(s: string, pat: string, i: int)
  {
    0 <= i && i + |pat| <= |s| && s[i..i + |pat|] == pat
  }

  predicate Contains(s: string, pat: string)
  {
    exists i :: 0 <= i <= |s| && OccursAt(s, pat, i)
  }

  // ---------------------------------------------------------------------
  // strip()

  /** `s.strip()`: `s` without its leading and trailing whitespace; empty
      exactly when `s` is all whitespace. */
  function Strip(s: string): (r: string)
    ensures r == [] <==> AllSpace(s)
    ensures IsStripped(r)
    ensures |r| <= |s|
    decreases |s|
  {
    if s == [] then []
    else if IsSpace(s[0]) then
      assert AllSpace(s) <==> AllSpace(s[1..]) by {
        assert forall i :: 1 <= i < |s| ==> s[i] == s[1..][i - 1];
      }
      Strip(s[1..])
    else if IsSpace(s[|s| - 1]) then
      assert !AllSpace(s[..|s| - 1]) by {
        assert s[..|s| - 1][0] == s[0];
      }
      Strip(s[..|s| - 1])
    else
      s
  }

  /** Number of leading whitespace characters: where `Strip(s)` starts. */
  function StripStart(s: string): (n: nat)
    ensures n <= |s|
    decreases |s|
  {
    if s != [] && IsSpace(s[0]) then 1 + StripStart(s[1..]) else 0
  }

  /** `Strip(s)` is the slice of `s` that starts after the leading
      whitespace. */
  lemma {:induction false} StripIsSlice(s: string)
    ensures StripStart(s) + |Strip(s)| <= |s|
    ensures Strip(s) == s[StripStart(s)..StripStart(s) + |Strip(s)|]
    decreases |s|
  {
    if s == [] {
    } else if IsSpace(s[0]) {
      var t := s[1..];
      StripIsSlice(t);
      SliceOfTail(s, StripStart(t), Strip(t));
    } else if IsSpace(s[|s| - 1]) {
      var t := s[..|s| - 1];
      StripIsSlice(t);
      assert t[0] == s[0];
      SliceOfFront(s, |s| - 1, Strip(t));
    }
  }

  /** A slice of `s[1..]` at `a` is a slice of `s` at `a + 1`. */
  lemma SliceOfTail(s: string, a: nat, r: string)
    requires s != [] && a + |r| <= |s| - 1 && r == s[1..][a..a + |r|]
    ensures r == s[a + 1..a + 1 + |r|]
  {
  }

  /** A slice of `s[..m]` at 0 is a slice of `s` at 0. */
  lemma SliceOfFront(s: string, m: nat, r: string)
    requires m <= |s| && |r| <= m && r == s[..m][0..|r|]
    ensures r == s[0..|r|]
  {
  }

  /** What stands before the slice `Strip(s)` is all whitespace. */
  lemma {:induction false} StripStartIsSpace(s: string)
    ensures AllSpace(s[..StripStart(s)])
    decreases |s|
  {
    if s != [] && IsSpace(s[0]) {
      var t := s[1..];
      StripStartIsSpace(t);
      assert s[..StripStart(s)] == [s[0]] + t[..StripStart(t)];
    }
  }

  /** The leading whitespace of a string that is not all whitespace ends at
      a non-whitespace character. */
  lemma {:induction false} StripStartStops(s: string)
    requires !AllSpace(s)
    ensures StripStart(s) < |s| && !IsSpace(s[StripStart(s)])
    decreases |s|
  {
    if IsSpace(s[0]) {
      var t := s[1..];
      assert !AllSpace(t) by {
        var i :| 0 <= i < |s| && !IsSpace(s[i]);
        assert t[i - 1] == s[i];
      }
      StripStartStops(t);
      assert s[1 + StripStart(t)] == t[StripStart(t)];
    }
  }

  /** What stands after the slice `Strip(s)` is all whitespace: only
      whitespace is cut from the end. */
  lemma {:induction false} StripCutsOnlySpace(s: string)
    ensures StripStart(s) + |Strip(s)| <= |s|
    ensures AllSpace(s[StripStart(s) + |Strip(s)|..])
    decreases |s|
  {
    StripIsSlice(s);
    if s == [] {
    } else if IsSpace(s[0]) {
      var t := s[1..];
      StripCutsOnlySpace(t);
      assert s[1 + StripStart(t) + |Strip(t)|..] == t[StripStart(t) + |Strip(t)|..];
    } else if IsSpace(s[|s| - 1]) {
      var t := s[..|s| - 1];
      StripCutsOnlySpace(t);
      assert t[0] == s[0];
      assert StripStart(t) == 0;
      var n := |Strip(t)|;
      assert s[n..] == t[n..] + [s[|s| - 1]];
    }
  }

  /** Where `Strip(s)` ends: after the last non-whitespace character. */
  lemma StripEnd(s: string)
    requires !AllSpace(s)
    ensures var e := StripStart(s) + |Strip(s)|;
            0 < e <= |s| && !IsSpace(s[e - 1]) && AllSpace(s[e..])
  {
    StripIsSlice(s);
    StripCutsOnlySpace(s);
    var e := StripStart(s) + |Strip(s)|;
    assert s[e - 1] == Strip(s)[|Strip(s)| - 1];
  }

  /** Stripping adds no character. */
  lemma StripLacksChar(s: string, c: char)
    requires c !in s
    ensures c !in Strip(s)
  {
    StripIsSlice(s);
    var r, a := Strip(s), StripStart(s);
    assert forall i :: 0 <= i < |r| ==> r[i] == s[a + i];
  }

  lemma StripIdempotent(s: string)
    requires IsStripped(s)
    ensures Strip(s) == s
  {
  }

  lemma StripOfNonSpaceStart(s: string)
    requires s != [] && !IsSpace(s[0])
    ensures StripStart(s) == 0
    ensures Strip(s) != [] && Strip(s)[0] == s[0]
  {
    StripIsSlice(s);
  }

  // ---------------------------------------------------------------------
  // split('\n') and join

  /** `s.split(sep)` for a one-character separator: always at least one
      piece, and no piece contains the separator. */
  function Split(s: string, sep: char): (r: seq<string>)
    ensures |r| >= 1
    ensures forall k :: 0 <= k < |r| ==> sep !in r[k]
  {
    if s == [] then [[]]
    else
      var rest := Split(s[1..], sep);
      if s[0] == sep then [[]] + rest
      else [[s[0]] + rest[0]] + rest[1..]
  }

  /** `sep.join(parts)`. */
  function Join(sep: string, parts: seq<string>): (r: string)
    ensures parts == [] ==> r == []
    ensures parts != [] ==> StartsWith(r, parts[0])
  {
    if |parts| == 0 then []
    else if |parts| == 1 then parts[0]
    else parts[0] + sep + Join(sep, parts[1..])
  }

  /** `text.strip().split('\n')`, the line list every script starts from. */
  function Lines(text: string): (r: seq<string>)
    ensures |r| >= 1
    ensures forall k :: 0 <= k < |r| ==> '\n' !in r[k]
    ensures AllSpace(text) ==> r == [[]]
  {
    Split(Strip(text), '\n')
  }

  /** Joining the pieces of a split with the separator gives the string back. */
  lemma {:induction false} JoinSplit(s: string, sep: char)
    ensures Join([sep], Split(s, sep)) == s
  {
    if s != [] {
      var rest := Split(s[1..], sep);
      JoinSplit(s[1..], sep);
      if s[0] == sep {
        assert Split(s, sep) == [[]] + rest;
        assert Join([sep], Split(s, sep)) == [] + [sep] + Join([sep], rest);
      } else {
        var parts := Split(s, sep);
        assert parts == [[s[0]] + rest[0]] + rest[1..];
        if |rest| == 1 {
          assert Join([sep], rest) == rest[0];
        } else {
          assert rest == [rest[0]] + rest[1..];
          assert Join([sep], rest) == rest[0] + [sep] + Join([sep], rest[1..]);
          assert parts[1..] == rest[1..];
        }
      }
    }
  }

  lemma {:induction false} SplitPiece(a: string, sep: char, x: string)
    requires sep !in a
    ensures Split(a + [sep] + x, sep) == [a] + Split(x, sep)
    ensures Split(a, sep) == [a]
  {
    if a != [] {
      SplitPiece(a[1..], sep, x);
      assert (a + [sep] + x)[1..] == a[1..] + [sep] + x;
      assert ([a[0]] + a[1..]) == a;
    } else {
      assert ([] + [sep] + x)[1..] == x;
    }
  }

  /** Splitting a join of separator-free pieces gives the pieces back. */
  lemma {:induction false} SplitJoin(parts: seq<string>, sep: char)
    requires |parts| >= 1
    requires forall k :: 0 <= k < |parts| ==> sep !in parts[k]
    ensures Split(Join([sep], parts), sep) == parts
  {
    if |parts| == 1 {
      SplitPiece(parts[0], sep, []);
    } else {
      SplitJoin(parts[1..], sep);
      SplitPiece(parts[0], sep, Join([sep], parts[1..]));
      assert parts == [parts[0]] + parts[1..];
    }
  }

  /** Moving one line from the front of the rest to the end of the lines
      already produced leaves the whole unchanged. */
  lemma Regroup(front: seq<string>, x: string, back: seq<string>)
    ensures front + ([x] + back) == (front + [x]) + back
  {
  }

  lemma JoinSingle(sep: string, x: string)
    ensures Join(sep, [x]) == x
  {
  }

  /** Joining two lists: the two joins meet at one separator unless a side
      is empty. */
  lemma {:induction false} JoinAppend(sep: string, a: seq<string>, b: seq<string>)
    ensures Join(sep, a + b) ==
      if a == [] then Join(sep, b)
      else if b == [] then Join(sep, a)
      else Join(sep, a) + sep + Join(sep, b)
  {
    if a == [] {
      assert a + b == b;
    } else if b == [] {
      assert a + b == a;
    } else if |a| == 1 {
      assert a + b == [a[0]] + b;
    } else {
      var x, rest := a[0], a[1..];
      assert a + b == [x] + (rest + b) && a == [x] + rest;
      JoinAppend(sep, rest, b);
      JoinCons(sep, x, rest + b);
      JoinCons(sep, x, rest);
    }
  }

  /** A part in front of a non-empty list is joined to it by a separator. */
  lemma JoinCons(sep: string, x: string, rest: seq<string>)
    requires rest != []
    ensures Join(sep, [x] + rest) == x + sep + Join(sep, rest)
  {
    assert ([x] + rest)[1..] == rest;
  }

  // ---------------------------------------------------------------------
  // split() into whitespace-delimited tokens

  /** Length of the longest whitespace-free prefix of `s`. */
  function WordLen(s: string): (n: nat)
    ensures n <= |s|
    ensures forall i :: 0 <= i < n ==> !IsSpace(s[i])
    ensures n < |s| ==> IsSpace(s[n])
  {
    if s == [] || IsSpace(s[0]) then 0 else 1 + WordLen(s[1..])
  }

  /** `s.split()`: the maximal whitespace-free runs of `s`, left to right. */
  function Tokens(s: string): (r: seq<string>)
    ensures forall k :: 0 <= k < |r| ==> r[k] != []
    ensures forall k, i :: 0 <= k < |r| && 0 <= i < |r[k]| ==> !IsSpace(r[k][i])
    ensures r == [] <==> AllSpace(s)
    decreases |s|
  {
    if s == [] then []
    else if IsSpace(s[0]) then
      assert AllSpace(s) <==> AllSpace(s[1..]) by {
        assert forall i :: 0 < i < |s| ==> s[i] == s[1..][i - 1];
      }
      Tokens(s[1..])
    else
      var n := WordLen(s);
      [s[..n]] + Tokens(s[n..])
  }

  /** Every token of `s` is a substring of `s`. */
  lemma {:induction false} TokensOccur(s: string, k: nat)
    requires k < |Tokens(s)|
    ensures Contains(s, Tokens(s)[k])
    decreases |s|
  {
    if IsSpace(s[0]) {
      TokensOccur(s[1..], k);
      SuffixContains(s, 1, Tokens(s)[k]);
    } else if k == 0 {
      assert OccursAt(s, Tokens(s)[0], 0);
    } else {
      var n := WordLen(s);
      assert Tokens(s) == [s[..n]] + Tokens(s[n..]);
      TokensOccur(s[n..], k - 1);
      SuffixContains(s, n, Tokens(s)[k]);
    }
  }

  /** What a suffix of `s` contains, `s` contains. */
  lemma SuffixContains(s: string, d: nat, w: string)
    requires d <= |s| && Contains(s[d..], w)
    ensures Contains(s, w)
  {
    var i :| 0 <= i <= |s[d..]| && OccursAt(s[d..], w, i);
    assert s[d + i..d + i + |w|] == s[d..][i..i + |w|];
    assert OccursAt(s, w, d + i);
  }

  /** The first token is the longest whitespace-free prefix of what follows
      the leading whitespace `s[..a]`. */
  lemma {:induction false} TokensFirstAt(s: string, a: nat)
    requires a < |s| && AllSpace(s[..a]) && !IsSpace(s[a])
    ensures Tokens(s) != [] && Tokens(s)[0] == s[a..][..WordLen(s[a..])]
    decreases a
  {
    if a == 0 {
      assert s[0..] == s;
    } else {
      LeadingSpaceShift(s, a);
      TokensFirstAt(s[1..], a - 1);
    }
  }

  /** Dropping the first of `a` leading whitespace characters. */
  lemma LeadingSpaceShift(s: string, a: nat)
    requires 0 < a < |s| && AllSpace(s[..a])
    ensures IsSpace(s[0]) && Tokens(s) == Tokens(s[1..])
    ensures AllSpace(s[1..][..a - 1]) && s[1..][a - 1] == s[a] && s[1..][a - 1..] == s[a..]
  {
    assert s[0] == s[..a][0];
    assert s[1..][..a - 1] == s[..a][1..];
  }

  /** `w` stands in `s` just before offset `e`, with whitespace or the start
      of `s` before it. */
  predicate TokenEndsAt(s: string, w: string, e: int)
  {
    |w| <= e <= |s| && s[e - |w|..e] == w && (e - |w| == 0 || IsSpace(s[e - |w| - 1]))
  }

  /** The last token ends at the offset `e` after the last non-whitespace
      character of `s`. */
  lemma {:induction false} TokensLastEndsAt(s: string, e: nat)
    requires 0 < e <= |s| && !IsSpace(s[e - 1]) && AllSpace(s[e..])
    ensures Tokens(s) != [] && TokenEndsAt(s, Tokens(s)[|Tokens(s)| - 1], e)
    decreases |s|, 2
  {
    if IsSpace(s[0]) {
      var t := s[1..];
      assert t[e - 2] == s[e - 1] && t[e - 1..] == s[e..];
      TokensLastEndsAt(t, e - 1);
      TokenEndsShift(s, 1, Tokens(t)[|Tokens(t)| - 1], e - 1);
    } else {
      TokensLastAfterWord(s, e);
    }
  }

  /** `TokensLastEndsAt` for a line that starts with a word. */
  lemma {:induction false} TokensLastAfterWord(s: string, e: nat)
    requires 0 < e <= |s| && !IsSpace(s[e - 1]) && AllSpace(s[e..])
    requires !IsSpace(s[0])
    ensures Tokens(s) != [] && TokenEndsAt(s, Tokens(s)[|Tokens(s)| - 1], e)
    decreases |s|, 1
  {
    var n := WordLen(s);
    WordHead(s);
    if e < n {
      SpaceAfter(s, e);
      assert false;
    } else if e == n {
      assert AllSpace(s[n..]);
      assert s[0..n] == s[..n];
    } else {
      TokensLastPastWord(s, e);
    }
  }

  /** `TokensLastEndsAt` for a line whose first word ends before `e`. */
  lemma {:induction false} TokensLastPastWord(s: string, e: nat)
    requires 0 < e <= |s| && !IsSpace(s[e - 1]) && AllSpace(s[e..])
    requires !IsSpace(s[0]) && WordLen(s) < e
    ensures Tokens(s) != [] && TokenEndsAt(s, Tokens(s)[|Tokens(s)| - 1], e)
    decreases |s|, 0
  {
    var n := WordLen(s);
    WordHead(s);
    var rest := s[n..];
    SuffixAt(s, n, e);
    TokensLastEndsAt(rest, e - n);
    var ts := Tokens(rest);
    assert ts[|ts| - 1] != [] && !IsSpace(ts[|ts| - 1][0]);
    LastTokenPastWord(s, n, Tokens(s), ts, e);
  }

  /** The last of the tokens `[s[..n]] + ts`, where `ts` are the tokens of
      `s[n..]`, ends at `e` in `s` when it ends at `e - n` in `s[n..]`. */
  lemma LastTokenPastWord(s: string, n: nat, all: seq<string>, ts: seq<string>, e: nat)
    requires 0 < n < e <= |s| && IsSpace(s[n..][0])
    requires all == [s[..n]] + ts && ts != []
    requires ts[|ts| - 1] != [] && !IsSpace(ts[|ts| - 1][0])
    requires TokenEndsAt(s[n..], ts[|ts| - 1], e - n)
    ensures all != [] && TokenEndsAt(s, all[|all| - 1], e)
  {
    var w := ts[|ts| - 1];
    assert all[|all| - 1] == w;
    TokenNotAtSpace(s[n..], w, e - n);
    TokenEndsShift(s, n, w, e - n);
  }

  /** A string that starts with a word of length `n` has that word as its
      first token, followed by the tokens of the rest. */
  lemma WordHead(s: string)
    requires s != [] && !IsSpace(s[0])
    ensures var n := WordLen(s);
            0 < n && Tokens(s) == [s[..n]] + Tokens(s[n..])
            && (n < |s| ==> s[n..] != [] && IsSpace(s[n..][0]))
  {
  }

  lemma SuffixAt(s: string, n: nat, e: nat)
    requires n < e <= |s|
    ensures s[n..][e - n - 1] == s[e - 1] && s[n..][e - n..] == s[e..]
  {
  }

  lemma SpaceAfter(s: string, e: nat)
    requires e < |s| && AllSpace(s[e..])
    ensures IsSpace(s[e])
  {
    assert s[e] == s[e..][0];
  }

  /** A token that starts with non-whitespace does not stand at the start
      of a string that starts with whitespace. */
  lemma TokenNotAtSpace(s: string, w: string, e: int)
    requires TokenEndsAt(s, w, e) && s != [] && IsSpace(s[0]) && w != [] && !IsSpace(w[0])
    ensures e - |w| > 0
  {
  }

  /** A token ending at `e` in `s[d..]` that does not start there ends at
      `d + e` in `s`. */
  lemma TokenEndsShift(s: string, d: nat, w: string, e: int)
    requires d <= |s| && TokenEndsAt(s[d..], w, e)
    requires e - |w| == 0 ==> d > 0 && IsSpace(s[d - 1])
    ensures TokenEndsAt(s, w, d + e)
  {
    assert s[d + e - |w|..d + e] == s[d..][e - |w|..e];
    if e - |w| > 0 {
      assert s[d + e - |w| - 1] == s[d..][e - |w| - 1];
    }
  }

  /** A line that does not start with whitespace starts with its first token. */
  lemma FirstTokenAtStart(s: string)
    requires s != [] && !IsSpace(s[0])
    ensures Tokens(s) != [] && OccursAt(s, Tokens(s)[0], 0)
  {
  }

  // ---------------------------------------------------------------------
  // Literal search, as re.finditer(re.escape(pat), s) performs it

  /** Leftmost occurrence of `pat` in `s` at or after `p`, or -1. */
  function IndexFrom(s: string, pat: string, p: nat): (r: int)
    ensures r == -1 || (p <= r && OccursAt(s, pat, r))
    ensures r == -1 ==> forall j :: p <= j ==> !OccursAt(s, pat, j)
    ensures r != -1 ==> forall j :: p <= j < r ==> !OccursAt(s, pat, j)
    decreases |s| - p
  {
    if p + |pat| > |s| then -1
    else if s[p..p + |pat|] == pat then p
    else IndexFrom(s, pat, p + 1)
  }

  /** Start of the first match of `pat` in `s`, -1 when there is none. */
  function IndexOf(s: string, pat: string): (r: int)
    ensures -1 <= r <= |s|
    ensures r >= 0 <==> Contains(s, pat)
    ensures r >= 0 ==> OccursAt(s, pat, r) && forall j :: 0 <= j < r ==> !OccursAt(s, pat, j)
  {
    IndexFrom(s, pat, 0)
  }

  /** The scan `re.finditer` makes for the literal `pat` from position `p`:
      on a match it moves past it, otherwise one character on. The result
      is the end of the last match found, or `acc` when there is none. */
  function LastEndFrom(s: string, pat: string, p: nat, acc: int): int
    requires pat != []
    decreases |s| - p
  {
    if p + |pat| > |s| then acc
    else if s[p..p + |pat|] == pat then LastEndFrom(s, pat, p + |pat|, p + |pat|)
    else LastEndFrom(s, pat, p + 1, acc)
  }

  /** What the scan from `p` finds: either nothing, and then `pat` does not
      occur from `p` on, or a match ending at the result, after which `pat`
      does not start again. */
  lemma {:induction false} LastEndFromFacts(s: string, pat: string, p: nat, acc: int)
    requires pat != [] && 0 <= acc <= p <= |s|
    ensures var r := LastEndFrom(s, pat, p, acc);
            acc <= r <= |s|
            && (r != acc ==> p + |pat| <= r && OccursAt(s, pat, r - |pat|))
            && (r == acc ==> forall j :: p <= j ==> !OccursAt(s, pat, j))
            && (forall j :: p <= j && r <= j ==> !OccursAt(s, pat, j))
    decreases |s| - p
  {
    if p + |pat| > |s| {
      assert forall j :: p <= j ==> !OccursAt(s, pat, j);
    } else if s[p..p + |pat|] == pat {
      LastEndFromFacts(s, pat, p + |pat|, p + |pat|);
      assert LastEndFrom(s, pat, p, acc) == LastEndFrom(s, pat, p + |pat|, p + |pat|);
    } else {
      LastEndFromFacts(s, pat, p + 1, acc);
      assert LastEndFrom(s, pat, p, acc) == LastEndFrom(s, pat, p + 1, acc);
      assert !OccursAt(s, pat, p);
    }
  }

  /** End offset of the last match `re.finditer` reports for the literal
      `pat`, 0 when there is none: it ends a match and no match starts at or
      after it. */
  function LastMatchEnd(s: string, pat: string): (r: int)
    requires pat != []
    ensures 0 <= r <= |s|
    ensures r > 0 <==> Contains(s, pat)
    ensures r > 0 ==> OccursAt(s, pat, r - |pat|)
    ensures forall j :: r <= j ==> !OccursAt(s, pat, j)
  {
    LastEndFromFacts(s, pat, 0, 0);
    LastEndFrom(s, pat, 0, 0)
  }

  /** Matches do not overlap: in "aaa" the word "aa" also occurs at 1 and
      ends at 3, but `finditer` resumes after its first match at 0 and
      reports the end 2. */
  lemma LastMatchEndNonOverlapping()
    ensures OccursAt("aaa", "aa", 1)
    ensures LastMatchEnd("aaa", "aa") == 2
  {
    var s, w := "aaa", "aa";
    assert s[0..2] == w && s[1..3] == w;
    assert LastEndFrom(s, w, 0, 0) == LastEndFrom(s, w, 2, 2);
    assert LastEndFrom(s, w, 2, 2) == 2;
  }

  // ---------------------------------------------------------------------
  // str.replace(pat, rep) and re.sub(pat + '.*', '', s)

  /** `s.replace(pat, rep)`: every leftmost, non-overlapping occurrence
      replaced, scanning left to right. */
  function ReplaceAll(s: string, pat: string, rep: string): (r: string)
    requires pat != []
    ensures rep == [] ==> |r| <= |s|
    ensures StartsWith(s, pat) ==> StartsWith(r, rep)
    decreases |s|
  {
    if |s| < |pat| then s
    else if s[..|pat|] == pat then rep + ReplaceAll(s[|pat|..], pat, rep)
    else [s[0]] + ReplaceAll(s[1..], pat, rep)
  }

  /** Removing `pat` leaves the first character of a line that does not start
      with `pat`. */
  lemma ReplaceKeepsHead(s: string, pat: string)
    requires pat != [] && s != [] && !StartsWith(s, pat)
    ensures ReplaceAll(s, pat, []) != [] && ReplaceAll(s, pat, [])[0] == s[0]
  {
  }

  /** A string without `pat` is left unchanged by the replacement. */
  lemma {:induction false} ReplaceAbsent(s: string, pat: string, rep: string)
    requires pat != [] && !Contains(s, pat)
    ensures ReplaceAll(s, pat, rep) == s
    decreases |s|
  {
    if |s| >= |pat| {
      assert !OccursAt(s, pat, 0);
      assert !Contains(s[1..], pat) by {
        forall i | OccursAt(s[1..], pat, i) ensures OccursAt(s, pat, i + 1) {
          assert s[i + 1..i + 1 + |pat|] == s[1..][i..i + |pat|];
        }
      }
      ReplaceAbsent(s[1..], pat, rep);
    }
  }

  /** The first occurrence of `pat`, at `i`, becomes `rep`: what precedes
      it is kept as it is and the replacement carries on after it. */
  lemma {:induction false} ReplaceAtFirst(s: string, pat: string, rep: string, i: nat)
    requires pat != [] && OccursAt(s, pat, i)
    requires forall j :: 0 <= j < i ==> !OccursAt(s, pat, j)
    ensures ReplaceAll(s, pat, rep) == s[..i] + rep + ReplaceAll(s[i + |pat|..], pat, rep)
    decreases i
  {
    if i == 0 {
      ReplaceAtStart(s, pat, rep, i);
    } else {
      FirstInTail(s, pat, i);
      ReplaceAtFirst(s[1..], pat, rep, i - 1);
      ReplaceAtStep(s, pat, rep, i);
    }
  }

  /** A string that starts with `pat` has it replaced first. */
  lemma ReplaceAtStart(s: string, pat: string, rep: string, i: nat)
    requires pat != [] && i == 0 && OccursAt(s, pat, i)
    ensures ReplaceAll(s, pat, rep) == s[..i] + rep + ReplaceAll(s[i + |pat|..], pat, rep)
  {
    ReplaceHead(s, pat, rep);
    EmptyPrefix(s, i, rep, ReplaceAll(s[i + |pat|..], pat, rep));
  }

  lemma ReplaceHead(s: string, pat: string, rep: string)
    requires pat != [] && OccursAt(s, pat, 0)
    ensures ReplaceAll(s, pat, rep) == rep + ReplaceAll(s[|pat|..], pat, rep)
  {
    assert s[..|pat|] == pat;
  }

  lemma EmptyPrefix(s: string, i: nat, a: string, b: string)
    requires i == 0
    ensures s[..i] + a + b == a + b
  {
    assert s[..i] == [];
  }

  /** The equation of `ReplaceAtFirst` for `s[1..]` at `i - 1` gives the one
      for `s` at `i` when `s` does not start with `pat`. */
  lemma ReplaceAtStep(s: string, pat: string, rep: string, i: nat)
    requires pat != [] && 0 < i && i + |pat| <= |s| && !OccursAt(s, pat, 0)
    requires var t := s[1..];
             ReplaceAll(t, pat, rep) == t[..i - 1] + rep + ReplaceAll(t[i - 1 + |pat|..], pat, rep)
    ensures ReplaceAll(s, pat, rep) == s[..i] + rep + ReplaceAll(s[i + |pat|..], pat, rep)
  {
    var t := s[1..];
    SameTail(s, pat, rep, i);
    ReplaceSkipsHead(s, pat, rep);
    PrefixStep(s, i, ReplaceAll(s, pat, rep), ReplaceAll(t, pat, rep), rep,
               ReplaceAll(t[i - 1 + |pat|..], pat, rep));
  }

  /** The first occurrence at `i > 0` in `s` is the first at `i - 1` in
      `s[1..]`, and `s` does not start with `pat`. */
  lemma FirstInTail(s: string, pat: string, i: nat)
    requires pat != [] && 0 < i && OccursAt(s, pat, i)
    requires forall j :: 0 <= j < i ==> !OccursAt(s, pat, j)
    ensures !OccursAt(s, pat, 0) && OccursAt(s[1..], pat, i - 1)
    ensures forall j :: 0 <= j < i - 1 ==> !OccursAt(s[1..], pat, j)
  {
    ShiftOccurs(s, pat, i - 1);
    forall j | 0 <= j < i - 1
      ensures !OccursAt(s[1..], pat, j)
    {
      ShiftOccurs(s, pat, j);
    }
  }

  /** An occurrence at `j` in `s[1..]` is one at `j + 1` in `s`. */
  lemma ShiftOccurs(s: string, pat: string, j: nat)
    requires s != []
    ensures OccursAt(s[1..], pat, j) <==> OccursAt(s, pat, j + 1)
  {
    if j + 1 + |pat| <= |s| {
      assert s[1..][j..j + |pat|] == s[j + 1..j + 1 + |pat|];
    }
  }

  /** Where `pat` does not start `s`, `replace` keeps the first character. */
  lemma ReplaceSkipsHead(s: string, pat: string, rep: string)
    requires pat != [] && |pat| <= |s| && !OccursAt(s, pat, 0)
    ensures ReplaceAll(s, pat, rep) == [s[0]] + ReplaceAll(s[1..], pat, rep)
  {
    assert s[..|pat|] != pat;
  }

  /** Putting `s[0]` back in front of a result that keeps `s[1..][..i - 1]`. */
  lemma PrefixStep(s: string, i: nat, whole: string, rest: string, rep: string, tail: string)
    requires 1 <= i <= |s| && whole == [s[0]] + rest
    requires rest == s[1..][..i - 1] + rep + tail
    ensures whole == s[..i] + rep + tail
  {
    assert s[..i] == [s[0]] + s[1..][..i - 1];
  }

  /** Replacing after the occurrence at `i - 1` in `s[1..]` is replacing
      after the one at `i` in `s`. */
  lemma SameTail(s: string, pat: string, rep: string, i: nat)
    requires pat != [] && 1 <= i && i + |pat| <= |s|
    ensures ReplaceAll(s[1..][i - 1 + |pat|..], pat, rep) == ReplaceAll(s[i + |pat|..], pat, rep)
  {
    assert s[1..][i - 1 + |pat|..] == s[i + |pat|..];
  }

  /** `re.sub(pat + '.*', '', s)` on a line without '\n': `s` cut at the
      first occurrence of `pat`, which leaves no occurrence behind. */
  function TruncateAt(s: string, pat: string): (r: string)
    requires pat != []
    ensures StartsWith(s, r)
    ensures !Contains(r, pat)
    ensures !Contains(s, pat) ==> r == s
    ensures Contains(s, pat) ==> OccursAt(s, pat, |r|)
    ensures Contains(s, pat) ==> |r| == IndexOf(s, pat)
  {
    var i := IndexOf(s, pat);
    if i < 0 then s
    else
      var r := s[..i];
      assert forall j :: OccursAt(r, pat, j) ==> OccursAt(s, pat, j) by {
        forall j | OccursAt(r, pat, j) ensures OccursAt(s, pat, j) {
          assert s[j..j + |pat|] == r[j..j + |pat|];
        }
      }
      r
  }

  // ---------------------------------------------------------------------
  // Facts about where a pattern can occur

  /** A slice of a string without `pat` has no `pat` either. */
  lemma SliceLacks(s: string, pat: string, a: nat, b: nat)
    requires a <= b <= |s| && !Contains(s, pat)
    ensures !Contains(s[a..b], pat)
  {
    var t := s[a..b];
    forall i | 0 <= i <= |t| ensures !OccursAt(t, pat, i) {
      if i + |pat| <= |t| {
        ghost var u, v := t[i..i + |pat|], s[a + i..a + i + |pat|];
        assert forall k :: 0 <= k < |pat| ==> u[k] == v[k];
        assert !OccursAt(s, pat, a + i);
      }
    }
  }

  /** Stripping a string without `pat` leaves none. */
  lemma StripLacks(s: string, pat: string)
    requires !Contains(s, pat)
    ensures !Contains(Strip(s), pat)
  {
    StripIsSlice(s);
    SliceLacks(s, pat, StripStart(s), StripStart(s) + |Strip(s)|);
  }

  /** Appending characters that cannot end `pat` creates no occurrence. */
  lemma AppendLacks(x: string, y: string, pat: string)
    requires pat != [] && !Contains(x, pat) && pat[|pat| - 1] !in y
    ensures !Contains(x + y, pat)
  {
    var s := x + y;
    forall i | 0 <= i <= |s| ensures !OccursAt(s, pat, i) {
      if i + |pat| <= |x| {
        assert s[i..i + |pat|] == x[i..i + |pat|];
        assert !OccursAt(x, pat, i);
      } else if i + |pat| <= |s| {
        assert s[i..i + |pat|][|pat| - 1] == y[i + |pat| - 1 - |x|];
      }
    }
  }

  /** Gluing two strings with a character that `pat` does not contain
      creates no occurrence. */
  lemma GlueLacks(x: string, c: char, y: string, pat: string)
    requires c !in pat && !Contains(x, pat) && !Contains(y, pat)
    ensures !Contains(x + [c] + y, pat)
  {
    var s := x + [c] + y;
    forall i | 0 <= i <= |s| ensures !OccursAt(s, pat, i) {
      if i + |pat| <= |x| {
        assert s[i..i + |pat|] == x[i..i + |pat|];
        assert !OccursAt(x, pat, i);
      } else if i > |x| {
        if i + |pat| <= |s| {
          assert s[i..i + |pat|] == y[i - |x| - 1..i - |x| - 1 + |pat|];
          assert !OccursAt(y, pat, i - |x| - 1);
        }
      } else if i + |pat| <= |s| {
        assert s[i..i + |pat|][|x| - i] == c;
      }
    }
  }

  /** Joining pieces without `pat` on a separator character outside `pat`
      creates no occurrence. */
  lemma {:induction false} JoinLacks(c: char, parts: seq<string>, pat: string)
    requires pat != [] && c !in pat
    requires forall k :: 0 <= k < |parts| ==> !Contains(parts[k], pat)
    ensures !Contains(Join([c], parts), pat)
  {
    if |parts| > 1 {
      JoinLacks(c, parts[1..], pat);
      GlueLacks(parts[0], c, Join([c], parts[1..]), pat);
    }
  }
}
