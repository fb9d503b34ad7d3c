/** The line pipeline of `pdf_to_txt_multicolumn` in convertepdf.py: strip
    and split the extracted text, skip lines starting with "Folha:", cut a
    mid-line "Folha:" and all after it, gather the surviving fragments into
    blocks, rewrite the "P" field and join with '\n'. */
module Convertepdf {
  import opened Text
  import ColumnBreak
  import Marker
  import Pages

  /** What the loop body makes of one raw line: nothing when the stripped
      line starts with "Folha:", otherwise the text in front of its first
      "Folha:", stripped again, unless that is empty. */
  function Fragment(line: string): (r: Option<string>)
    ensures r.Some? ==> r.value != [] && IsStripped(r.value)
    ensures StartsWith(Strip(line), Marker.FolhaPrefix) ==> r.None?
    ensures AllSpace(line) ==> r.None?
  {
    var cleaned := Strip(line);
    if StartsWith(cleaned, Marker.FolhaPrefix) then None
    else
      var fragment := Strip(TruncateAt(cleaned, Marker.FolhaPrefix));
      if fragment == [] then None else Some(fragment)
  }

  /** A surviving fragment never contains "Folha:": the cut removes the first
      occurrence and everything after it. */
  lemma FragmentLacksFolha(line: string)
    requires Fragment(line).Some?
    ensures !Contains(Fragment(line).value, Marker.FolhaPrefix)
  {
    StripLacks(TruncateAt(Strip(line), Marker.FolhaPrefix), Marker.FolhaPrefix);
  }

  function Fragmented(lines: seq<string>): seq<Option<string>>
  {
    seq(|lines|, i requires 0 <= i < |lines| => Fragment(lines[i]))
  }

  /** The surviving fragments, in input order. */
  function Present(items: seq<Option<string>>): seq<string>
  {
    if items == [] then []
    else (if items[0].Some? then [items[0].value] else []) + Present(items[1..])
  }

  /** Every surviving fragment is non-empty and stripped. */
  predicate FragmentsSolid(items: seq<Option<string>>)
  {
    forall k :: 0 <= k < |items| && items[k].Some? ==>
      items[k].value != [] && IsStripped(items[k].value)
  }

  /** The lines appended to `processed_lines` from `items` on, with `block`
      as `current_block` and `brk` as the break test: a block is flushed when
      the test is false, extended when it is true, and flushed at the end.
      The script passes `ColumnBreak.AtDefault`. */
  function Assemble(items: seq<Option<string>>, block: seq<string>, brk: (string, string) -> bool): seq<string>
    decreases |items|
  {
    if items == [] then
      if block != [] then [Join(" ", block)] else []
    else
      match items[0]
      case None => Assemble(items[1..], block, brk)
      case Some(r) =>
        if Flushes(block, r, brk)
        then [Join(" ", block)] + Assemble(items[1..], [r], brk)
        else Assemble(items[1..], block + [r], brk)
  }

  /** The break test as the loop applies it to the open block. */
  predicate Flushes(block: seq<string>, r: string, brk: (string, string) -> bool)
  {
    block != [] && !brk(block[|block| - 1], r)
  }

  /** `processed_lines` for the extracted text `text`. */
  function Processed(text: string): seq<string>
  {
    Present(Fragmented(Lines(text)))
  }

  /** `text_to_write` for the extracted text `text`. */
  function Output(text: string): string
  {
    Join("\n", Marker.ReorderEach(Processed(text), " ", " "))
  }

  // ---------------------------------------------------------------------
  // The loops

  /** The string path of `pdf_to_txt_multicolumn` from the page texts on: the page
      loop, then the line pipeline. A document without page text gives "". */
  method PdfToText(pages: seq<Option<string>>) returns (textToWrite: string)
    ensures textToWrite == Output(Pages.Concat(pages))
    ensures (forall i :: 0 <= i < |pages| ==> Pages.PageText(pages[i]) == []) ==> textToWrite == []
  {
    var text := Pages.ConcatPages(pages);
    if forall i :: 0 <= i < |pages| ==> Pages.PageText(pages[i]) == [] {
      Pages.NoTextGivesEmpty(pages);
    }
    textToWrite := ConvertText(text);
  }

  /** `pdf_to_txt_multicolumn` after text extraction and before the file is
      written. */
  method ConvertText(text: string) returns (textToWrite: string)
    ensures textToWrite == Output(text)
    ensures !Contains(textToWrite, Marker.FolhaPrefix)
    ensures AllSpace(text) ==> textToWrite == []
  {
    var lines := Split(Strip(text), '\n');
    var processedLines := AssembleLines(lines);
    var finalProcessedLines := Marker.ReorderAll(processedLines);
    textToWrite := Join("\n", finalProcessedLines);
    NoFolhaInOutput(text);
    if AllSpace(text) {
      BlankTextGivesEmpty(text);
    }
  }

  /** The `for line in lines` loop with `continue`, `current_block` and the
      final flush. */
  method AssembleLines(lines: seq<string>) returns (processedLines: seq<string>)
    ensures processedLines == Assemble(Fragmented(lines), [], ColumnBreak.AtDefault)
    ensures processedLines == Present(Fragmented(lines))
  {
    ghost var items := Fragmented(lines);
    processedLines := [];
    var currentBlock: seq<string> := [];
    var i := 0;
    assert items[0..] == items;
    while i < |lines|
      invariant 0 <= i <= |lines|
      invariant processedLines + Assemble(items[i..], currentBlock, ColumnBreak.AtDefault) == Assemble(items, [], ColumnBreak.AtDefault)
    {
      assert items[i..][1..] == items[i + 1..];
      assert items[i..][0] == Fragment(lines[i]);
      AssembleStep(items[i..], currentBlock, ColumnBreak.AtDefault);
      ghost var before := Assemble(items[i..], currentBlock, ColumnBreak.AtDefault);
      var cleanedLine := Strip(lines[i]);
      if StartsWith(cleanedLine, Marker.FolhaPrefix) {
        assert items[i].None?;
        assert before == Assemble(items[i + 1..], currentBlock, ColumnBreak.AtDefault);
        i := i + 1;
        continue;
      }
      cleanedLine := Strip(TruncateAt(cleanedLine, Marker.FolhaPrefix));
      assert items[i] == if cleanedLine == [] then None else Some(cleanedLine);
      if cleanedLine != [] {
        processedLines, currentBlock := AddFragment(processedLines, currentBlock, cleanedLine, items[i..]);
      } else {
        assert before == Assemble(items[i + 1..], currentBlock, ColumnBreak.AtDefault);
      }
      i := i + 1;
    }
    if currentBlock != [] {
      processedLines := processedLines + [Join(" ", currentBlock)];
    }
    AssembledFragments(lines);
  }

  /** The loop body for a surviving fragment: flush the open block and start
      a new one when the break test is false, otherwise extend the block.
      `items` are the loop's remaining entries, the fragment first. */
  method AddFragment(processedLines: seq<string>, currentBlock: seq<string>, fragment: string,
                     ghost items: seq<Option<string>>)
    returns (newProcessed: seq<string>, newBlock: seq<string>)
    requires items != [] && items[0] == Some(fragment)
    ensures newProcessed + Assemble(items[1..], newBlock, ColumnBreak.AtDefault)
            == processedLines + Assemble(items, currentBlock, ColumnBreak.AtDefault)
  {
    AssembleStep(items, currentBlock, ColumnBreak.AtDefault);
    var isBreak := false;
    if currentBlock != [] {
      isBreak := ColumnBreak.CheckColumnBreak(currentBlock[|currentBlock| - 1], fragment, ColumnBreak.DefaultThreshold);
    }
    assert Flushes(currentBlock, fragment, ColumnBreak.AtDefault) == (currentBlock != [] && !isBreak);
    if currentBlock != [] && !isBreak {
      ghost var after := Assemble(items[1..], [fragment], ColumnBreak.AtDefault);
      Regroup(processedLines, Join(" ", currentBlock), after);
      newProcessed := processedLines + [Join(" ", currentBlock)];
      newBlock := [fragment];
    } else {
      newProcessed := processedLines;
      newBlock := currentBlock + [fragment];
    }
  }

  // ---------------------------------------------------------------------
  // One step of the block loop

  lemma AssembleStep(items: seq<Option<string>>, block: seq<string>, brk: (string, string) -> bool)
    requires items != []
    ensures items[0].None? ==> Assemble(items, block, brk) == Assemble(items[1..], block, brk)
    ensures items[0].Some? && Flushes(block, items[0].value, brk) ==>
              Assemble(items, block, brk) == [Join(" ", block)] + Assemble(items[1..], [items[0].value], brk)
    ensures items[0].Some? && !Flushes(block, items[0].value, brk) ==>
              Assemble(items, block, brk) == Assemble(items[1..], block + [items[0].value], brk)
  {
  }

  // ---------------------------------------------------------------------
  // What the pipeline guarantees

  lemma FragmentedSolid(lines: seq<string>)
    ensures FragmentsSolid(Fragmented(lines))
  {
  }

  /** `processed_lines` is the list of surviving fragments, in order. */
  lemma AssembledFragments(lines: seq<string>)
    ensures Assemble(Fragmented(lines), [], ColumnBreak.AtDefault) == Present(Fragmented(lines))
  {
    FragmentedSolid(lines);
    ColumnBreak.AtDefaultNeverBreaksSolid();
    EachFragmentOwnLine(Fragmented(lines), [], ColumnBreak.AtDefault);
  }

  /** A line with no "Folha:" in it and some non-whitespace survives whole,
      stripped. */
  lemma PlainLineSurvives(line: string)
    requires !Contains(line, Marker.FolhaPrefix) && !AllSpace(line)
    ensures Fragment(line) == Some(Strip(line))
  {
    var cleaned := Strip(line);
    StripLacks(line, Marker.FolhaPrefix);
    assert !StartsWith(cleaned, Marker.FolhaPrefix) by {
      if StartsWith(cleaned, Marker.FolhaPrefix) {
        assert OccursAt(cleaned, Marker.FolhaPrefix, 0);
      }
    }
    StripIdempotent(cleaned);
  }

  /** At the call site the break test is always false, since fragments are
      stripped: every fragment becomes a processed line of its own. */
  lemma {:induction false} EachFragmentOwnLine(items: seq<Option<string>>, block: seq<string>, brk: (string, string) -> bool)
    requires forall prev, current :: current != [] && !IsSpace(current[0]) ==> !brk(prev, current)
    requires FragmentsSolid(items) && |block| <= 1
    ensures Assemble(items, block, brk) == block + Present(items)
    decreases |items|
  {
    if items == [] {
      if block != [] {
        JoinSingle(" ", block[0]);
        assert block == [block[0]];
      }
    } else {
      var rest := items[1..];
      assert FragmentsSolid(rest) by {
        forall k | 0 <= k < |rest| ensures rest[k] == items[k + 1] { }
      }
      match items[0]
      case None =>
        EachFragmentOwnLine(rest, block, brk);
        assert Present(items) == Present(rest);
      case Some(r) =>
        EachFragmentOwnLine(rest, [r], brk);
        assert Present(items) == [r] + Present(rest);
        if block != [] {
          JoinSingle(" ", block[0]);
          assert block == [block[0]];
          assert block + Present(items) == [block[0]] + ([r] + Present(rest));
        } else {
          assert block + [r] == [r];
        }
    }
  }

  /** Whatever the break test decides, the blocks hold the fragments once
      each and in order: joining the processed lines with " " gives the
      fragments joined with " ". */
  lemma {:induction false} AssembleKeepsText(items: seq<Option<string>>, block: seq<string>, brk: (string, string) -> bool)
    ensures Join(" ", Assemble(items, block, brk)) == Join(" ", block + Present(items))
    ensures Assemble(items, block, brk) == [] <==> block == [] && Present(items) == []
    decreases |items|
  {
    if items == [] {
      if block != [] {
        JoinSingle(" ", Join(" ", block));
      }
      assert block + Present(items) == block;
    } else {
      var rest := items[1..];
      match items[0]
      case None =>
        AssembleKeepsText(rest, block, brk);
        AssembleStep(items, block, brk);
        assert Present(items) == Present(rest);
      case Some(r) =>
        AssembleStep(items, block, brk);
        PresentSome(items, r, rest);
        if Flushes(block, r, brk) {
          AssembleKeepsText(rest, [r], brk);
          FlushKeepsText(block, r, rest, Assemble(rest, [r], brk));
        } else {
          AssembleKeepsText(rest, block + [r], brk);
          Regroup(block, r, Present(rest));
        }
    }
  }

  lemma PresentSome(items: seq<Option<string>>, r: string, rest: seq<Option<string>>)
    requires items != [] && items[0] == Some(r) && items[1..] == rest
    ensures Present(items) == [r] + Present(rest)
  {
  }

  /** The join step behind `AssembleKeepsText` when a block is flushed. */
  lemma FlushKeepsText(block: seq<string>, r: string, rest: seq<Option<string>>, tail: seq<string>)
    requires block != [] && tail != []
    requires Join(" ", tail) == Join(" ", [r] + Present(rest))
    ensures Join(" ", [Join(" ", block)] + tail) == Join(" ", block + ([r] + Present(rest)))
  {
    JoinAppend(" ", [Join(" ", block)], tail);
    JoinSingle(" ", Join(" ", block));
    JoinAppend(" ", block, [r] + Present(rest));
  }

  /** No processed line contains "Folha:". */
  lemma NoFolhaInProcessed(text: string)
    ensures forall k :: 0 <= k < |Processed(text)| ==> !Contains(Processed(text)[k], Marker.FolhaPrefix)
  {
    FragmentedLacks(Lines(text));
    PresentLacks(Fragmented(Lines(text)));
  }

  /** The output contains no "Folha:". */
  lemma NoFolhaInOutput(text: string)
    ensures !Contains(Output(text), Marker.FolhaPrefix)
  {
    NoFolhaInProcessed(text);
    RewriteLacks(Processed(text));
  }

  /** The marker rewrite and the '\n' separators cannot complete a
      "Folha:" that is in none of the processed lines. */
  lemma RewriteLacks(processed: seq<string>)
    requires forall k :: 0 <= k < |processed| ==> !Contains(processed[k], Marker.FolhaPrefix)
    ensures !Contains(Join("\n", Marker.ReorderEach(processed, " ", " ")), Marker.FolhaPrefix)
  {
    var final := Marker.ReorderEach(processed, " ", " ");
    forall k | 0 <= k < |final| ensures !Contains(final[k], Marker.FolhaPrefix) {
      Marker.ReorderLacks(processed[k], " ", " ", Marker.FolhaPrefix);
    }
    JoinLacks('\n', final, Marker.FolhaPrefix);
  }

  lemma {:induction false} PresentLacks(items: seq<Option<string>>)
    requires forall k :: 0 <= k < |items| && items[k].Some? ==> !Contains(items[k].value, Marker.FolhaPrefix)
    ensures forall k :: 0 <= k < |Present(items)| ==> !Contains(Present(items)[k], Marker.FolhaPrefix)
    decreases |items|
  {
    if items != [] {
      var rest := items[1..];
      assert forall k :: 0 <= k < |rest| ==> rest[k] == items[k + 1];
      PresentLacks(rest);
    }
  }

  lemma FragmentedLacks(lines: seq<string>)
    ensures forall k :: 0 <= k < |lines| && Fragmented(lines)[k].Some? ==>
              !Contains(Fragmented(lines)[k].value, Marker.FolhaPrefix)
  {
    forall k | 0 <= k < |lines| && Fragmented(lines)[k].Some?
      ensures !Contains(Fragmented(lines)[k].value, Marker.FolhaPrefix)
    {
      FragmentLacksFolha(lines[k]);
    }
  }

  /** Empty or whitespace-only extracted text gives the empty output. */
  lemma BlankTextGivesEmpty(text: string)
    requires AllSpace(text)
    ensures Output(text) == []
  {
    assert Lines(text) == [[]];
    var items := Fragmented(Lines(text));
    assert |items| == 1 && items[0].None?;
    assert items[1..] == [];
    assert Present(items) == [] + Present(items[1..]);
  }
}
