/** The line pipeline of `pdf_to_txt` in converter_pdf.py: strip and split
    the extracted text, keep the non-empty lines that do not start with
    "Folha:", rewrite the "P" field with two spaces, and end every line with
    '\n'. There is no block reassembly here. */
module ConverterPdf {
  import opened Text
  import Marker
  import Pages

  /** The separator in front of a moved "P" and the padding of other lines. */
  const MarkSep: string := "  "
  const Pad: string := ""

  /** The filter of the loop: a stripped line is kept when it is non-empty
      and does not start with "Folha:". */
  predicate Keeps(cleaned: string)
  {
    cleaned != [] && !StartsWith(cleaned, Marker.FolhaPrefix)
  }

  /** The stripped lines the filter keeps, in input order. */
  function KeptLines(lines: seq<string>): (r: seq<string>)
    ensures |r| <= |lines|
  {
    if lines == [] then []
    else (if Keeps(Strip(lines[0])) then [Strip(lines[0])] else []) + KeptLines(lines[1..])
  }

  /** Each processed line followed by '\n'. */
  function Terminated(ps: seq<string>): (r: string)
    ensures ps == [] <==> r == []
    ensures r != [] ==> r[|r| - 1] == '\n'
  {
    if ps == [] then [] else Terminated(ps[..|ps| - 1]) + ps[|ps| - 1] + "\n"
  }

  /** `processed_lines` for the extracted text `text`. */
  function Processed(text: string): seq<string>
  {
    Marker.ReorderEach(KeptLines(Lines(text)), MarkSep, Pad)
  }

  /** `text_to_write` for the extracted text `text`. */
  function Output(text: string): string
  {
    Terminated(Processed(text))
  }

  // ---------------------------------------------------------------------
  // The loops

  /** The string path of `pdf_to_txt` from the page texts on: the page
      loop, then the line pipeline. A document without page text gives "". */
  method PdfToText(pages: seq<Option<string>>) returns (textToWrite: string)
    ensures textToWrite == Output(Pages.Concat(pages))
    ensures (forall i :: 0 <= i < |pages| ==> Pages.PageText(pages[i]) == []) ==> textToWrite == []
  {
    var text := Pages.ConcatPages(pages);
    if forall i :: 0 <= i < |pages| ==> Pages.PageText(pages[i]) == [] {
      Pages.NoTextGivesEmpty(pages);
    }
    textToWrite := ConvertText(text);
  }

  /** `pdf_to_txt` after text extraction and before the file is written. */
  method ConvertText(text: string) returns (textToWrite: string)
    ensures textToWrite == Output(text)
    ensures AllSpace(text) ==> textToWrite == []
  {
    var lines := Split(Strip(text), '\n');
    var processedLines := ProcessLines(lines);
    textToWrite := Render(processedLines);
    if AllSpace(text) {
      BlankTextGivesEmpty(text);
    }
  }

  /** The `for line in lines` loop: filter, and rewrite the "P" field. */
  method ProcessLines(lines: seq<string>) returns (processedLines: seq<string>)
    ensures processedLines == Marker.ReorderEach(KeptLines(lines), MarkSep, Pad)
  {
    processedLines := [];
    var i := 0;
    while i < |lines|
      invariant 0 <= i <= |lines|
      invariant processedLines == Marker.ReorderEach(KeptLines(lines[..i]), MarkSep, Pad)
    {
      var cleanedLine := Strip(lines[i]);
      ProcessStep(lines, i);
      if cleanedLine != [] && !StartsWith(cleanedLine, Marker.FolhaPrefix) {
        var line: string;
        if StartsWith(cleanedLine, "P") {
          line := Strip(cleanedLine[1..]) + "  P";
        } else {
          line := cleanedLine;
        }
        assert line == Marker.Reorder(cleanedLine, MarkSep, Pad);
        processedLines := processedLines + [line];
      }
      i := i + 1;
    }
    assert lines[..|lines|] == lines;
  }

  /** The `text_to_write += line + '\n'` loop. */
  method Render(processedLines: seq<string>) returns (textToWrite: string)
    ensures textToWrite == Terminated(processedLines)
  {
    textToWrite := "";
    var i := 0;
    while i < |processedLines|
      invariant 0 <= i <= |processedLines|
      invariant textToWrite == Terminated(processedLines[..i])
    {
      assert processedLines[..i + 1][..i] == processedLines[..i];
      textToWrite := textToWrite + processedLines[i] + "\n";
      i := i + 1;
    }
    assert processedLines[..|processedLines|] == processedLines;
  }

  // ---------------------------------------------------------------------
  // What the pipeline guarantees

  /** One iteration of the loop extends the rewritten prefix by the rewrite
      of the kept line, if the line is kept. */
  lemma ProcessStep(lines: seq<string>, i: nat)
    requires i < |lines|
    ensures var c := Strip(lines[i]);
            Marker.ReorderEach(KeptLines(lines[..i + 1]), MarkSep, Pad)
            == Marker.ReorderEach(KeptLines(lines[..i]), MarkSep, Pad)
               + (if Keeps(c) then [Marker.Reorder(c, MarkSep, Pad)] else [])
  {
    var c := Strip(lines[i]);
    assert lines[..i + 1] == lines[..i] + [lines[i]];
    KeptLinesAppend(lines[..i], [lines[i]]);
    assert KeptLines([lines[i]]) == (if Keeps(c) then [c] else []) + KeptLines([]);
    Marker.ReorderEachAppend(KeptLines(lines[..i]), KeptLines([lines[i]]), MarkSep, Pad);
  }

  /** Every kept line is non-empty, stripped, and does not start with
      "Folha:". */
  lemma {:induction false} KeptLinesShape(lines: seq<string>)
    ensures forall k :: 0 <= k < |KeptLines(lines)| ==>
              var c := KeptLines(lines)[k]; c != [] && IsStripped(c) && !StartsWith(c, Marker.FolhaPrefix)
    decreases |lines|
  {
    if lines != [] {
      KeptLinesShape(lines[1..]);
    }
  }

  /** The filter keeps input order. */
  lemma {:induction false} KeptLinesAppend(a: seq<string>, b: seq<string>)
    ensures KeptLines(a + b) == KeptLines(a) + KeptLines(b)
    decreases |a|
  {
    if a == [] {
      assert a + b == b;
    } else {
      var x, rest := a[0], a[1..];
      assert (a + b)[1..] == rest + b;
      KeptLinesCons(a + b, x, rest + b);
      KeptLinesCons(a, x, rest);
      KeptLinesAppend(rest, b);
      var head := if Keeps(Strip(x)) then [Strip(x)] else [];
      RegroupAppend(KeptLines(a + b), KeptLines(a), head, KeptLines(rest), KeptLines(rest + b), KeptLines(b));
    }
  }

  lemma RegroupAppend(whole: seq<string>, part: seq<string>, h: seq<string>, r: seq<string>,
                      rb: seq<string>, kb: seq<string>)
    requires whole == h + rb && rb == r + kb && part == h + r
    ensures whole == part + kb
  {
  }

  /** `KeptLines` of a non-empty list: its first line if kept, then the
      rest. */
  lemma KeptLinesCons(lines: seq<string>, x: string, rest: seq<string>)
    requires lines != [] && lines[0] == x && lines[1..] == rest
    ensures KeptLines(lines) == (if Keeps(Strip(x)) then [Strip(x)] else []) + KeptLines(rest)
  {
  }

  /** A string is kept exactly when it is a non-empty stripped input line
      that does not start with "Folha:". */
  lemma {:induction false} KeptLinesMembers(lines: seq<string>, c: string)
    ensures c in KeptLines(lines) <==>
              c != [] && !StartsWith(c, Marker.FolhaPrefix) && exists k :: 0 <= k < |lines| && Strip(lines[k]) == c
    decreases |lines|
  {
    if lines != [] {
      KeptLinesMembers(lines[1..], c);
      if exists k :: 0 <= k < |lines[1..]| && Strip(lines[1..][k]) == c {
        var k :| 0 <= k < |lines[1..]| && Strip(lines[1..][k]) == c;
        assert Strip(lines[k + 1]) == c;
      }
      if exists k :: 0 <= k < |lines| && Strip(lines[k]) == c {
        var k :| 0 <= k < |lines| && Strip(lines[k]) == c;
        if k > 0 {
          assert Strip(lines[1..][k - 1]) == c;
        }
      }
    }
  }

  /** A character that is in no input line is in no kept line. */
  lemma {:induction false} KeptLinesLack(lines: seq<string>, c: char)
    requires forall k :: 0 <= k < |lines| ==> c !in lines[k]
    ensures forall k :: 0 <= k < |KeptLines(lines)| ==> c !in KeptLines(lines)[k]
    decreases |lines|
  {
    if lines != [] {
      KeptLinesLack(lines[1..], c);
      StripLacksChar(lines[0], c);
    }
  }

  /** The output is the processed lines joined with '\n' plus a final empty
      piece: one '\n' after each line. */
  lemma {:induction false} TerminatedIsJoin(ps: seq<string>)
    ensures Terminated(ps) == Join("\n", ps + [[]])
    decreases |ps|
  {
    if ps != [] {
      var init, x := ps[..|ps| - 1], ps[|ps| - 1];
      TerminatedIsJoin(init);
      TerminatedLast(ps, init, x);
      assert ps == init + [x];
      JoinTerminatedStep(ps, init, x, Join("\n", init + [[]]));
    }
  }

  lemma TerminatedLast(ps: seq<string>, init: seq<string>, x: string)
    requires ps != [] && ps[..|ps| - 1] == init && ps[|ps| - 1] == x
    ensures Terminated(ps) == Terminated(init) + x + "\n"
  {
  }

  /** One more line before the final empty piece adds that line and a '\n'. */
  lemma JoinTerminatedStep(ps: seq<string>, init: seq<string>, x: string, t: string)
    requires ps == init + [x] && t == Join("\n", init + [[]])
    ensures Join("\n", ps + [[]]) == t + x + "\n"
  {
    assert ps + [[]] == init + [x, []];
    JoinCons("\n", x, [[]]);
    assert [x] + [[]] == [x, []];
    JoinSingle("\n", []);
    JoinAppend("\n", init, [x, []]);
    JoinAppend("\n", init, [[]]);
  }

  /** Splitting the output at '\n' gives the processed lines back, followed
      by the empty piece after the final '\n': the output has exactly one
      line per kept input line. */
  lemma OutputLines(text: string)
    ensures Split(Output(text), '\n') == Processed(text) + [[]]
  {
    var lines := Lines(text);
    KeptLinesLack(lines, '\n');
    var kept := KeptLines(lines);
    var ps := Processed(text);
    forall k | 0 <= k < |ps| ensures '\n' !in ps[k] {
      Marker.ReorderNoNewline(kept[k], MarkSep, Pad);
    }
    TerminatedIsJoin(ps);
    SplitJoin(ps + [[]], '\n');
  }

  /** Number of occurrences of `c` in `s`. */
  function Occurrences(s: string, c: char): nat
  {
    if s == [] then 0 else Occurrences(s[..|s| - 1], c) + (if s[|s| - 1] == c then 1 else 0)
  }

  lemma {:induction false} OccurrencesAppend(a: string, b: string, c: char)
    ensures Occurrences(a + b, c) == Occurrences(a, c) + Occurrences(b, c)
    decreases |b|
  {
    if b == [] {
      assert a + b == a;
    } else {
      var init := b[..|b| - 1];
      assert (a + b)[..|a + b| - 1] == a + init;
      OccurrencesAppend(a, init, c);
    }
  }

  lemma {:induction false} OccurrencesAbsent(s: string, c: char)
    requires c !in s
    ensures Occurrences(s, c) == 0
    decreases |s|
  {
    if s != [] {
      assert forall i :: 0 <= i < |s| - 1 ==> s[..|s| - 1][i] == s[i];
      OccurrencesAbsent(s[..|s| - 1], c);
    }
  }

  /** Terminating lines that hold no '\n' puts exactly one '\n' per line. */
  lemma {:induction false} TerminatedNewlines(ps: seq<string>)
    requires forall k :: 0 <= k < |ps| ==> '\n' !in ps[k]
    ensures Occurrences(Terminated(ps), '\n') == |ps|
    decreases |ps|
  {
    if ps != [] {
      var init, last := ps[..|ps| - 1], ps[|ps| - 1];
      TerminatedNewlines(init);
      OccurrencesAbsent(last, '\n');
      OccurrencesAppend(Terminated(init), last, '\n');
      OccurrencesAppend(Terminated(init) + last, "\n", '\n');
      assert Occurrences("\n", '\n') == 1 by {
        assert "\n"[..0] == [];
      }
    }
  }

  /** The output holds exactly one '\n' per processed line, that is per kept
      input line. */
  lemma OutputNewlines(text: string)
    ensures Occurrences(Output(text), '\n') == |KeptLines(Lines(text))|
  {
    var lines := Lines(text);
    KeptLinesLack(lines, '\n');
    var kept := KeptLines(lines);
    var ps := Processed(text);
    forall k | 0 <= k < |ps| ensures '\n' !in ps[k] {
      Marker.ReorderNoNewline(kept[k], MarkSep, Pad);
    }
    TerminatedNewlines(ps);
  }

  /** Never more output lines than input lines. */
  lemma OutputLineBound(text: string)
    ensures |Processed(text)| <= |Lines(text)|
  {
  }

  /** Empty or whitespace-only extracted text gives the empty output. */
  lemma BlankTextGivesEmpty(text: string)
    requires AllSpace(text)
    ensures Output(text) == []
  {
    assert Lines(text) == [[]];
    assert KeptLines([[]]) == [];
  }

  /** A word starting with 'P' loses that letter: "Pedido 12" becomes
      "edido 12  P". */
  lemma PedidoLosesItsP()
    ensures Marker.Reorder("Pedido 12", MarkSep, Pad) == "edido 12  P"
  {
    var line, body := "Pedido 12", "edido 12";
    assert line[1..] == body;
    assert StartsWith(line, Marker.Mark);
    StripIdempotent(body);
  }
}
