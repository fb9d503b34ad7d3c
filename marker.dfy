/** The "P" field rewrite shared by the three scripts: a line that starts with
    'P' loses that character (and the whitespace after it) and gets a
    separator plus 'P' at its end; any other line gets a fixed padding. The
    module also holds the "Folha:" prefix the three scripts filter on. */
module Marker {
  import opened Text

  const Mark: string := "P"

  /** The page-footer prefix all three scripts filter on. */
  const FolhaPrefix: string := "Folha:"

  /** One line of the rewrite, with the separator before the moved 'P' and
      the padding appended to other lines as parameters: `" "` and `" "` in
      portugues.py and convertepdf.py, `"  "` and `""` in converter_pdf.py. */
  function Reorder(line: string, sep: string, pad: string): (r: string)
    ensures StartsWith(line, Mark) ==> |r| <= |line| + |sep| && r != [] && r[|r| - 1] == 'P'
    ensures !StartsWith(line, Mark) ==> |r| == |line| + |pad| && StartsWith(r, line)
  {
    if StartsWith(line, Mark) then Strip(line[1..]) + sep + Mark else line + pad
  }

  /** The rewrite applied to every line. */
  function ReorderEach(lines: seq<string>, sep: string, pad: string): seq<string>
  {
    seq(|lines|, i requires 0 <= i < |lines| => Reorder(lines[i], sep, pad))
  }

  /** Rewriting a concatenation rewrites each part. */
  lemma ReorderEachAppend(a: seq<string>, b: seq<string>, sep: string, pad: string)
    ensures ReorderEach(a + b, sep, pad) == ReorderEach(a, sep, pad) + ReorderEach(b, sep, pad)
  {
  }

  /** The marker loop of portugues.py and convertepdf.py: one output line per
      processed line, in order. */
  method ReorderAll(lines: seq<string>) returns (final: seq<string>)
    ensures final == ReorderEach(lines, " ", " ")
    ensures |final| == |lines|
    ensures forall i :: 0 <= i < |lines| ==>
              if StartsWith(lines[i], Mark) then final[i] == Strip(lines[i][1..]) + " P"
              else final[i] == lines[i] + " "
  {
    final := [];
    var i := 0;
    while i < |lines|
      invariant 0 <= i <= |lines|
      invariant |final| == i
      invariant forall k :: 0 <= k < i ==> final[k] == Reorder(lines[k], " ", " ")
    {
      final := final + [Reorder(lines[i], " ", " ")];
      i := i + 1;
    }
  }

  /** A moved marker ends the line after the separator, in front of it stands
      the rest of the line without surrounding whitespace; any other line is
      kept whole in front of the padding. */
  lemma ReorderShape(line: string, sep: string, pad: string)
    ensures var r := Reorder(line, sep, pad);
            if StartsWith(line, Mark) then
              |r| >= |sep| + 1 && r[|r| - |sep| - 1..] == sep + Mark
              && r[..|r| - |sep| - 1] == Strip(line[1..])
              && IsStripped(r[..|r| - |sep| - 1]) && |r| - |sep| - 1 < |line|
            else
              r[..|line|] == line && r[|line|..] == pad
  {
    var r := Reorder(line, sep, pad);
    if StartsWith(line, Mark) {
      var body := Strip(line[1..]);
      StripIsSlice(line[1..]);
      assert r == body + (sep + Mark);
      assert r[..|r| - |sep| - 1] == body;
    }
  }

  /** The rewrite puts no '\n' into a line when its separator and padding
      have none, so output lines stay single lines. */
  lemma ReorderNoNewline(line: string, sep: string, pad: string)
    requires '\n' !in line && '\n' !in sep && '\n' !in pad
    ensures '\n' !in Reorder(line, sep, pad)
  {
    if StartsWith(line, Mark) {
      assert forall i :: 0 <= i < |line| - 1 ==> line[1..][i] == line[i + 1];
      StripLacksChar(line[1..], '\n');
    }
  }

  /** The rewrite creates no occurrence of a pattern that does not end in a
      character of the separator, the padding or "P". */
  lemma ReorderLacks(line: string, sep: string, pad: string, pat: string)
    requires pat != [] && !Contains(line, pat)
    requires pat[|pat| - 1] !in sep + Mark && pat[|pat| - 1] !in pad
    ensures !Contains(Reorder(line, sep, pad), pat)
  {
    if StartsWith(line, Mark) {
      var rest := line[1..];
      SliceLacks(line, pat, 1, |line|);
      assert line[1..|line|] == rest;
      StripLacks(rest, pat);
      AppendLacks(Strip(rest), sep + Mark, pat);
      assert Reorder(line, sep, pad) == Strip(rest) + (sep + Mark);
    } else {
      AppendLacks(line, pad, pat);
    }
  }
}
