/** The line pipeline of `pdf_to_txt_multicolumn` in portugues.py: strip and
    split the extracted text, drop blank lines, remove the page header
    literal, pass "Folha:" lines straight to the output, gather the other
    lines into blocks, rewrite the "P" field and join with '\n'. */
module Portugues {
  import opened Text
  import ColumnBreak
  import Marker
  import Pages

  /** The page header removed wherever it appears in a line. */
  const FolhaHeader: string := "Folha: 82-0...82-9   -"

  /** A non-blank line after stripping and header removal: `Kept` lines go
      through the block, `Footer` lines (those starting with "Folha:") do not. */
  datatype Row = Kept(text: string) | Footer(text: string)

  /** What the loop body makes of one raw line: nothing for a blank line, a
      footer for a line starting with "Folha:", otherwise a kept line, which
      is never empty and never starts with whitespace. */
  function Classify(line: string): (r: Option<Row>)
    ensures r.None? <==> AllSpace(line)
    ensures r.Some? ==> (r.value.Footer? <==> StartsWith(Strip(line), Marker.FolhaPrefix))
    ensures r.Some? && r.value.Kept? ==> r.value.text != [] && !IsSpace(r.value.text[0])
  {
    var cleaned := Strip(line);
    if cleaned == [] then None
    else
      var replaced := ReplaceAll(cleaned, FolhaHeader, []);
      if StartsWith(cleaned, Marker.FolhaPrefix) then Some(Footer(replaced))
      else
        assert FolhaHeader[..|Marker.FolhaPrefix|] == Marker.FolhaPrefix;
        ReplaceKeepsHead(cleaned, FolhaHeader);
        Some(Kept(replaced))
  }

  function Classified(lines: seq<string>): seq<Option<Row>>
  {
    seq(|lines|, i requires 0 <= i < |lines| => Classify(lines[i]))
  }

  /** Every kept row is non-empty and starts with a non-whitespace character. */
  predicate KeptHeadsSolid(items: seq<Option<Row>>)
  {
    forall k :: 0 <= k < |items| && items[k].Some? && items[k].value.Kept? ==>
      items[k].value.text != [] && !IsSpace(items[k].value.text[0])
  }

  /** The lines appended to `processed_lines` from `items` on, with `block`
      as `current_block` and `brk` as the break test: a block is flushed when
      the test is false, extended when it is true, and flushed at the end;
      footer rows go straight out. The script passes `ColumnBreak.AtDefault`. */
  function Assemble(items: seq<Option<Row>>, block: seq<string>, brk: (string, string) -> bool): seq<string>
    decreases |items|
  {
    if items == [] then
      if block != [] then [Join(" ", block)] else []
    else
      match items[0]
      case None => Assemble(items[1..], block, brk)
      case Some(Footer(r)) => [r] + Assemble(items[1..], block, brk)
      case Some(Kept(r)) =>
        if Flushes(block, r, brk)
        then [Join(" ", block)] + Assemble(items[1..], [r], brk)
        else Assemble(items[1..], block + [r], brk)
  }

  /** The break test as the loop applies it to the open block. */
  predicate Flushes(block: seq<string>, r: string, brk: (string, string) -> bool)
  {
    block != [] && !brk(block[|block| - 1], r)
  }

  /** Reference behaviour, without blocks: each kept line waits in `pending`
      until the next kept line or the end of the input, while a footer line
      is emitted at once. */
  function Emit(items: seq<Option<Row>>, pending: Option<string>): seq<Row>
    decreases |items|
  {
    if items == [] then
      if pending.Some? then [Kept(pending.value)] else []
    else
      match items[0]
      case None => Emit(items[1..], pending)
      case Some(Footer(r)) => [Footer(r)] + Emit(items[1..], pending)
      case Some(Kept(r)) =>
        (if pending.Some? then [Kept(pending.value)] else []) + Emit(items[1..], Some(r))
  }

  function Texts(rows: seq<Row>): seq<string>
  {
    seq(|rows|, i requires 0 <= i < |rows| => rows[i].text)
  }

  /** The rows of the non-blank lines, in input order. */
  function Rows(items: seq<Option<Row>>): seq<Row>
  {
    if items == [] then []
    else (if items[0].Some? then [items[0].value] else []) + Rows(items[1..])
  }

  function KeptTexts(rows: seq<Row>): seq<string>
  {
    if rows == [] then []
    else (if rows[0].Kept? then [rows[0].text] else []) + KeptTexts(rows[1..])
  }

  function FooterTexts(rows: seq<Row>): seq<string>
  {
    if rows == [] then []
    else (if rows[0].Footer? then [rows[0].text] else []) + FooterTexts(rows[1..])
  }

  function PendingList(pending: Option<string>): seq<string>
  {
    if pending.Some? then [pending.value] else []
  }

  /** `processed_lines` for the extracted text `text`. */
  function Processed(text: string): seq<string>
  {
    Texts(Emit(Classified(Lines(text)), None))
  }

  /** `text_to_write` for the extracted text `text`. */
  function Output(text: string): string
  {
    Join("\n", Marker.ReorderEach(Processed(text), " ", " "))
  }

  // ---------------------------------------------------------------------
  // The loops

  /** The string path of `pdf_to_txt_multicolumn` from the page texts on: the page
      loop, then the line pipeline. A document without page text gives "". */
  method PdfToText(pages: seq<Option<string>>) returns (textToWrite: string)
    ensures textToWrite == Output(Pages.Concat(pages))
    ensures (forall i :: 0 <= i < |pages| ==> Pages.PageText(pages[i]) == []) ==> textToWrite == []
  {
    var text := Pages.ConcatPages(pages);
    if forall i :: 0 <= i < |pages| ==> Pages.PageText(pages[i]) == [] {
      Pages.NoTextGivesEmpty(pages);
    }
    textToWrite := ConvertText(text);
  }

  /** `pdf_to_txt_multicolumn` after text extraction and before the file is
      written. */
  method ConvertText(text: string) returns (textToWrite: string)
    ensures textToWrite == Output(text)
    ensures AllSpace(text) ==> textToWrite == []
  {
    var lines := Split(Strip(text), '\n');
    var processedLines := AssembleLines(lines);
    var finalProcessedLines := Marker.ReorderAll(processedLines);
    textToWrite := Join("\n", finalProcessedLines);
    if AllSpace(text) {
      BlankTextGivesEmpty(text);
    }
  }

  /** The `for line in lines` loop with `current_block`, and the final flush. */
  method AssembleLines(lines: seq<string>) returns (processedLines: seq<string>)
    ensures processedLines == Assemble(Classified(lines), [], ColumnBreak.AtDefault)
    ensures processedLines == Texts(Emit(Classified(lines), None))
  {
    ghost var items := Classified(lines);
    processedLines := [];
    var currentBlock: seq<string> := [];
    var i := 0;
    assert items[0..] == items;
    while i < |lines|
      invariant 0 <= i <= |lines|
      invariant processedLines + Assemble(items[i..], currentBlock, ColumnBreak.AtDefault) == Assemble(items, [], ColumnBreak.AtDefault)
    {
      assert items[i..][1..] == items[i + 1..];
      assert items[i..][0] == Classify(lines[i]);
      ghost var before := Assemble(items[i..], currentBlock, ColumnBreak.AtDefault);
      var cleanedLine := Strip(lines[i]);
      if cleanedLine != [] && !StartsWith(cleanedLine, Marker.FolhaPrefix) {
        var replacedLine := ReplaceAll(cleanedLine, FolhaHeader, []);
        var isBreak := false;
        if currentBlock != [] {
          isBreak := ColumnBreak.CheckColumnBreak(currentBlock[|currentBlock| - 1], replacedLine, ColumnBreak.DefaultThreshold);
        }
        if currentBlock != [] && !isBreak {
          ghost var after := Assemble(items[i + 1..], [replacedLine], ColumnBreak.AtDefault);
          assert before == [Join(" ", currentBlock)] + after;
          Regroup(processedLines, Join(" ", currentBlock), after);
          processedLines := processedLines + [Join(" ", currentBlock)];
          currentBlock := [replacedLine];
        } else {
          currentBlock := currentBlock + [replacedLine];
        }
      } else if cleanedLine != [] && StartsWith(cleanedLine, Marker.FolhaPrefix) {
        var replacedLine := ReplaceAll(cleanedLine, FolhaHeader, []);
        ghost var after := Assemble(items[i + 1..], currentBlock, ColumnBreak.AtDefault);
        assert before == [replacedLine] + after;
        Regroup(processedLines, replacedLine, after);
        processedLines := processedLines + [replacedLine];
      }
      i := i + 1;
    }
    if currentBlock != [] {
      processedLines := processedLines + [Join(" ", currentBlock)];
    }
    AssembledLinesAreEmitted(lines);
  }

  // ---------------------------------------------------------------------
  // What the pipeline guarantees

  lemma ClassifiedHeadsSolid(lines: seq<string>)
    ensures KeptHeadsSolid(Classified(lines))
  {
  }

  /** `processed_lines` is what `Emit` gives for the classified lines. */
  lemma AssembledLinesAreEmitted(lines: seq<string>)
    ensures Assemble(Classified(lines), [], ColumnBreak.AtDefault) == Texts(Emit(Classified(lines), None))
  {
    ClassifiedHeadsSolid(lines);
    ColumnBreak.AtDefaultNeverBreaksSolid();
    AssembleIsEmit(Classified(lines), [], ColumnBreak.AtDefault);
  }

  /** At the call site the break test is always false, so every kept line is
      a block of its own: the block loop behaves as `Emit`. */
  lemma {:induction false} AssembleIsEmit(items: seq<Option<Row>>, block: seq<string>, brk: (string, string) -> bool)
    requires forall prev, current :: current != [] && !IsSpace(current[0]) ==> !brk(prev, current)
    requires KeptHeadsSolid(items) && |block| <= 1
    ensures Assemble(items, block, brk) == Texts(Emit(items, if block == [] then None else Some(block[0])))
    decreases |items|
  {
    var pending := if block == [] then None else Some(block[0]);
    if items == [] {
      if block != [] {
        JoinSingle(" ", block[0]);
        assert block == [block[0]];
      }
    } else {
      var rest := items[1..];
      assert KeptHeadsSolid(rest) by {
        forall k | 0 <= k < |rest| ensures rest[k] == items[k + 1] { }
      }
      match items[0]
      case None =>
        AssembleIsEmit(rest, block, brk);
        assert Emit(items, pending) == Emit(rest, pending);
      case Some(Footer(r)) =>
        AssembleIsEmit(rest, block, brk);
        assert Emit(items, pending) == [Footer(r)] + Emit(rest, pending);
        TextsAppend([Footer(r)], Emit(rest, pending));
      case Some(Kept(r)) =>
        AssembleIsEmit(rest, [r], brk);
        if block != [] {
          JoinSingle(" ", block[0]);
          assert block == [block[0]];
          assert Emit(items, pending) == [Kept(block[0])] + Emit(rest, Some(r));
          TextsAppend([Kept(block[0])], Emit(rest, Some(r)));
        } else {
          assert block + [r] == [r];
          assert Emit(items, pending) == [] + Emit(rest, Some(r));
        }
    }
  }

  lemma TextsAppend(a: seq<Row>, b: seq<Row>)
    ensures Texts(a + b) == Texts(a) + Texts(b)
  {
  }

  /** Every kept line reaches the output exactly once and in input order; the
      pending one comes first. */
  lemma {:induction false} EmitKeepsKeptOrder(items: seq<Option<Row>>, pending: Option<string>)
    ensures KeptTexts(Emit(items, pending)) == PendingList(pending) + KeptTexts(Rows(items))
    decreases |items|
  {
    if items == [] {
      if pending.Some? {
        assert KeptTexts([Kept(pending.value)]) == [pending.value] + KeptTexts([]);
      }
    } else {
      var rest := items[1..];
      match items[0]
      case None =>
        EmitKeepsKeptOrder(rest, pending);
        assert Rows(items) == Rows(rest);
      case Some(Footer(r)) =>
        EmitKeepsKeptOrder(rest, pending);
        KeptTextsAppend([Footer(r)], Emit(rest, pending));
        KeptTextsAppend([Footer(r)], Rows(rest));
      case Some(Kept(r)) =>
        EmitKeepsKeptOrder(rest, Some(r));
        var head := if pending.Some? then [Kept(pending.value)] else [];
        KeptTextsAppend(head, Emit(rest, Some(r)));
        KeptTextsAppend([Kept(r)], Rows(rest));
        if pending.Some? {
          assert KeptTexts(head) == [pending.value] + KeptTexts([]);
        }
    }
  }

  /** Footer lines reach the output exactly once and in input order. */
  lemma {:induction false} EmitKeepsFooterOrder(items: seq<Option<Row>>, pending: Option<string>)
    ensures FooterTexts(Emit(items, pending)) == FooterTexts(Rows(items))
    decreases |items|
  {
    if items == [] {
      if pending.Some? {
        assert FooterTexts([Kept(pending.value)]) == [] + FooterTexts([]);
      }
    } else {
      var rest := items[1..];
      match items[0]
      case None =>
        EmitKeepsFooterOrder(rest, pending);
        assert Rows(items) == Rows(rest);
      case Some(Footer(r)) =>
        EmitKeepsFooterOrder(rest, pending);
        FooterTextsAppend([Footer(r)], Emit(rest, pending));
        FooterTextsAppend([Footer(r)], Rows(rest));
      case Some(Kept(r)) =>
        EmitKeepsFooterOrder(rest, Some(r));
        var head := if pending.Some? then [Kept(pending.value)] else [];
        FooterTextsAppend(head, Emit(rest, Some(r)));
        FooterTextsAppend([Kept(r)], Rows(rest));
        if pending.Some? {
          assert FooterTexts(head) == [] + FooterTexts([]);
        }
    }
  }

  /** Blank lines produce nothing and every other line exactly one
      processed line. */
  lemma {:induction false} EmitCount(items: seq<Option<Row>>, pending: Option<string>)
    ensures |Emit(items, pending)| == |PendingList(pending)| + |Rows(items)|
    decreases |items|
  {
    if items != [] {
      var rest := items[1..];
      match items[0]
      case None =>
        EmitCount(rest, pending);
      case Some(Footer(r)) =>
        EmitCount(rest, pending);
      case Some(Kept(r)) =>
        EmitCount(rest, Some(r));
    }
  }

  /** A kept line followed by a "Folha:" line: the pending line (if any) goes
      out, then the footer, while the kept line waits for what follows. */
  lemma EmitKeptThenFooter(kept: string, footer: string, rest: seq<Option<Row>>, pending: Option<string>)
    ensures Emit([Some(Kept(kept)), Some(Footer(footer))] + rest, pending)
            == (if pending.Some? then [Kept(pending.value)] else []) + [Footer(footer)] + Emit(rest, Some(kept))
  {
    var items := [Some(Kept(kept)), Some(Footer(footer))] + rest;
    assert items[0] == Some(Kept(kept));
    assert items[1..][0] == Some(Footer(footer));
    assert items[1..][1..] == rest;
    assert Emit(items[1..], Some(kept)) == [Footer(footer)] + Emit(rest, Some(kept));
  }

  /** A "Folha:" line right after a kept line is output before it, whatever
      comes before or after the two: the kept line is still waiting in the
      open block, and it is the first kept line out after the footer. */
  lemma FooterOvertakesKept(kept: string, footer: string, rest: seq<Option<Row>>, pending: Option<string>)
    ensures var out := Emit([Some(Kept(kept)), Some(Footer(footer))] + rest, pending);
            var n := |PendingList(pending)|;
            n < |out| && out[n] == Footer(footer)
            && KeptTexts(out[n + 1..]) != [] && KeptTexts(out[n + 1..])[0] == kept
  {
    EmitKeptThenFooter(kept, footer, rest, pending);
    var head := if pending.Some? then [Kept(pending.value)] else [];
    var out := Emit([Some(Kept(kept)), Some(Footer(footer))] + rest, pending);
    var n := |PendingList(pending)|;
    assert |head| == n;
    assert out[n + 1..] == Emit(rest, Some(kept));
    EmitKeepsKeptOrder(rest, Some(kept));
  }

  /** The header literal is removed from a "Folha:" line, which keeps the
      rest of its text, leading space included. */
  lemma HeaderRemovedFromFooter()
    ensures Classify("Folha: 82-0...82-9   - 7") == Some(Footer(" 7"))
  {
    var line := "Folha: 82-0...82-9   - 7";
    StripIdempotent(line);
    assert StartsWith(line, Marker.FolhaPrefix);
    assert line[..|FolhaHeader|] == FolhaHeader;
    assert line[|FolhaHeader|..] == " 7";
    assert ReplaceAll(" 7", FolhaHeader, []) == " 7";
    assert ReplaceAll(line, FolhaHeader, []) == " 7";
    assert Strip(line) == line;
  }

  /** Empty or whitespace-only extracted text gives the empty output. */
  lemma BlankTextGivesEmpty(text: string)
    requires AllSpace(text)
    ensures Output(text) == []
  {
    assert Lines(text) == [[]];
    assert Classify([]) == None;
    assert Classified(Lines(text)) == [None];
    assert Emit([None], None) == Emit([], None);
  }

  lemma {:induction false} KeptTextsAppend(a: seq<Row>, b: seq<Row>)
    ensures KeptTexts(a + b) == KeptTexts(a) + KeptTexts(b)
    decreases |a|
  {
    if a != [] {
      KeptTextsAppend(a[1..], b);
      assert (a + b)[1..] == a[1..] + b;
    } else {
      assert a + b == b;
    }
  }

  lemma {:induction false} FooterTextsAppend(a: seq<Row>, b: seq<Row>)
    ensures FooterTexts(a + b) == FooterTexts(a) + FooterTexts(b)
    decreases |a|
  {
    if a != [] {
      FooterTextsAppend(a[1..], b);
      assert (a + b)[1..] == a[1..] + b;
    } else {
      assert a + b == b;
    }
  }
}
