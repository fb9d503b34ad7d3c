# PDF-to-text line pipelines, modelled in Dafny

The repository holds three near-duplicate scripts that turn the text of a
PDF into a plain-text file: `portugues.py`, `convertepdf.py` and
`converter_pdf.py`. Each reads the page texts, concatenates them, and runs
one line pipeline over the result:

1. strip the text and split it at `'\n'`;
2. strip each line and drop the noise lines;
3. in the first two scripts, gather the lines into blocks, using the
   column-break test `check_column_break`;
4. move a leading "P" field to the end of its line;
5. join the lines with `'\n'` in the first two scripts, or end every line
   with `'\n'` in the third.

This project models that pipeline, script by script. The loops of the
scripts are Dafny methods with loop invariants. Each method is proved equal
to a specification function, and lemmas state what the pipeline
guarantees.

Modules, one per file:

- `Text` (`text.dfy`): the Python string operations used.
  - `strip()` and `split()` use the exact whitespace set of `str.isspace`.
  - Also `split('\n')`, `join`, `startswith` and `str.replace`.
  - Literal search stands for `re.finditer(re.escape(w), s)`.
  - Truncation at the first match stands for `re.sub(r'Folha:.*', '', s)`, since lines hold no `'\n'`.
- `Pages` (`pages.dfy`): page texts concatenated with no separator. A page without text counts as `""`.
- `ColumnBreak` (`column_break.dfy`): `check_column_break`. It is identical in the first two scripts.
- `Marker` (`marker.dfy`): the "P" rewrite. It is parameterised by the separator (`" "` or `"  "`) and by the padding of other lines (`" "` or `""`). It also holds the "Folha:" prefix the three scripts filter on.
- `Portugues`, `Convertepdf`, `ConverterPdf`: the three pipelines.

The block reassembly is modelled as written. The open block is flushed
when `check_column_break` returns False, and extended when it returns True.
`convertepdf.py` passes stripped, non-empty lines. `portugues.py` passes
non-empty lines that start with a non-whitespace character, but that may
end in whitespace once the header literal is removed. In both cases the
first token of the line matches at offset 0, so the test is always False there
(`ColumnBreak.AtDefaultNeverBreaksSolid`). As a result, every kept line
becomes its own processed line: `Portugues.AssembleIsEmit` and
`Convertepdf.EachFragmentOwnLine` prove this about the block functions.

In `portugues.py` a line starting with "Folha:" is appended at once, without
flushing the open block. It therefore comes out ahead of the kept line read
just before it, in any document (`Portugues.FooterOvertakesKept`). The reference function
`Portugues.Emit` keeps that one pending kept line explicitly.

## Model

| member | source | states |
|---|---|---|
| Text.Strip | portugues.py:37 | `strip()` leaves no whitespace at either end, and its result is empty exactly when the line is all whitespace. Its partners `Text.StripIsSlice`, `Text.StripStartIsSpace` and `Text.StripCutsOnlySpace` say which slice it keeps and that only whitespace is cut |
| Text.StripIsSlice | portugues.py:37 | `strip()` returns the slice of the line that starts after the leading whitespace |
| Text.StripStartIsSpace | portugues.py:37 | everything before the kept slice is whitespace |
| Text.StripCutsOnlySpace | portugues.py:37 | everything after the kept slice is whitespace: only trailing whitespace is cut |
| Text.StripStartStops | portugues.py:37 | on a line that is not all whitespace, the leading whitespace ends at a non-whitespace character |
| Text.StripEnd | portugues.py:37 | on a line that is not all whitespace, the kept slice ends right after the last non-whitespace character |
| Text.StripIdempotent | convertepdf.py:35 | stripping a stripped string changes nothing |
| Text.StripOfNonSpaceStart | portugues.py:37 | a line that starts with a non-whitespace character keeps that first character after `strip()` |
| Text.StripLacksChar | converter_pdf.py:23 | stripping adds no character, so a line without `'\n'` stays without one |
| Text.Split | portugues.py:32 | `split('\n')` gives at least one piece, and no piece contains the separator |
| Text.Join | portugues.py:59 | `sep.join(parts)`: empty for no parts, otherwise it starts with the first part. Its partners are `Text.JoinSplit` and `Text.SplitJoin` |
| Text.Lines | portugues.py:32 | `text.strip().split('\n')`: at least one line, no line holds `'\n'`, and blank text gives the single empty line |
| Text.JoinSplit | portugues.py:32 | joining the pieces of `split(sep)` with `sep` gives the string back |
| Text.SplitJoin | portugues.py:59 | splitting at `sep` a join of parts that hold no `sep` gives the parts back |
| Text.JoinAppend | portugues.py:59 | joining a concatenation joins the two joins with the separator between them |
| Text.Tokens | portugues.py:75-76 | `split()` gives non-empty tokens that hold no whitespace, and gives no token at all exactly when the line is all whitespace. Its partners `Text.TokensFirstAt` and `Text.TokensLastEndsAt` say which runs the first and last tokens are |
| Text.TokensFirstAt | portugues.py:75-76 | after leading whitespace `s[..a]`, the first token is the longest whitespace-free run starting at `a`; by `Text.StripStartStops` and `Text.StripStartIsSpace`, `a` can be where `strip()` starts |
| Text.TokensLastEndsAt | portugues.py:75-76 | the last token ends right after the last non-whitespace character, with whitespace or the start of the line before it; by `Text.StripEnd`, that is where `strip()` ends |
| Text.TokensOccur | portugues.py:75-83 | every token of a line occurs in that line, so a search for it succeeds |
| Text.FirstTokenAtStart | portugues.py:85-88 | a line that does not start with whitespace has its first token at offset 0 |
| Text.IndexOf | portugues.py:86-88 | the first match: -1 exactly when there is none, otherwise a match with no earlier match |
| Text.LastEndFromFacts | portugues.py:82-83 | the `finditer` scan returns the end of a real match after which no match starts, or its start value when nothing matches |
| Text.LastMatchEnd | portugues.py:81-83 | the end of the last non-overlapping match: positive exactly when the word occurs, ends a match, and no match starts at or after it |
| Text.LastMatchEndNonOverlapping | portugues.py:82-83 | matches do not overlap: in "aaa" the word "aa" also occurs at 1, yet the end reported is 2 |
| Text.ReplaceAll | portugues.py:39 | `s.replace(pat, rep)`: removing a literal never lengthens the line, and a line that starts with the literal starts with the replacement. Its partners are `Text.ReplaceAtFirst`, `Text.ReplaceAbsent` and `Text.ReplaceKeepsHead` |
| Text.ReplaceAtFirst | portugues.py:39 | at the first occurrence of the literal, `replace` keeps everything before it, puts the replacement in its place and carries on after it |
| Text.ReplaceKeepsHead | portugues.py:39 | removing the header literal from a line that does not start with it keeps the line's first character |
| Text.ReplaceAbsent | portugues.py:39 | `replace` leaves a line without the literal unchanged |
| Text.TruncateAt | convertepdf.py:35 | the result is a prefix of the line and contains no "Folha:". It is the whole line when "Folha:" does not occur; otherwise its length is the offset of the first "Folha:", which occurs there |
| Text.JoinLacks | convertepdf.py:54 | joining parts that lack a pattern on a separator character that does not occur in the pattern creates no occurrence |
| Pages.ConcatPages | portugues.py:28-30 | the page loop builds the concatenation of the page texts, with a page without text counting as `""` |
| Pages.ConcatAppend | portugues.py:29-30 | concatenating two runs of pages concatenates their texts |
| Pages.PageInPlace | portugues.py:29-30 | each page's text stands in the result right after the texts of the pages before it |
| Pages.ConcatLength | portugues.py:29-30 | the length of the text is the sum of the page text lengths |
| Pages.NoTextGivesEmpty | portugues.py:28-30 | a document with no page text gives the empty string |
| ColumnBreak.IsColumnBreak | portugues.py:71-92 | a break needs tokens on both lines, and the first token of the current line must start more than `threshold + 1` characters in |
| ColumnBreak.CheckColumnBreak | portugues.py:71-92 | the method computes the break test, and a line without tokens on either side is never a break, for every threshold |
| ColumnBreak.LastEndScan | portugues.py:81-83 | the first `finditer` loop ends at the end of the last match, which is positive exactly when the last token occurs |
| ColumnBreak.FirstStartScan | portugues.py:85-88 | the second loop stops at the first match, and is -1 exactly when there is none |
| ColumnBreak.LastEndPositive | portugues.py:81-83 | whenever the previous line has a token, its end offset is positive |
| ColumnBreak.OffsetsInRange | portugues.py:81-88 | both offsets lie inside their lines whenever both lines have tokens |
| ColumnBreak.ThresholdMonotone | portugues.py:90-92 | raising the threshold can turn a break into no break, never the reverse |
| ColumnBreak.LeadingTokenNoBreak | portugues.py:85-91 | a current line that does not start with whitespace is no break for any non-negative threshold |
| ColumnBreak.AtDefaultNeverBreaksSolid | convertepdf.py:78-84 | with the default threshold 50, no current line that starts with a non-whitespace character is a break |
| Marker.Reorder | portugues.py:54-57 | a line starting with 'P' ends in 'P' after the rewrite and grows by at most the separator; any other line is kept whole, followed by the padding |
| Marker.ReorderAll | portugues.py:52-57 | one output line per processed line, in order: a line starting with 'P' becomes `line[1:].strip() + " P"` and any other line becomes `line + " "` |
| Marker.ReorderEachAppend | convertepdf.py:48-52 | rewriting a concatenation of lines rewrites each part |
| Marker.ReorderShape | portugues.py:54-57 | a moved marker ends the line after the separator and exactly the stripped rest of the line stands before it, shorter than the line; any other line is kept whole in front of the padding |
| Marker.ReorderNoNewline | converter_pdf.py:25-28 | the rewrite brings no `'\n'` into a line |
| Marker.ReorderLacks | convertepdf.py:47-52 | the rewrite creates no occurrence of a pattern not ending in a character of the separator, the padding or "P" |
| Portugues.Classify | portugues.py:37-39 | a blank line yields nothing; a footer comes exactly from a line starting with "Folha:"; a kept line is non-empty and starts with a non-whitespace character |
| Portugues.ClassifiedHeadsSolid | portugues.py:37-39 | every kept line that reaches the block starts with a non-whitespace character |
| Portugues.HeaderRemovedFromFooter | portugues.py:45-47 | "Folha: 82-0...82-9   - 7" goes out as the footer " 7": the header literal is removed and nothing else |
| Portugues.PdfToText | portugues.py:28-59 | from the page texts to `text_to_write`: the page loop then the line pipeline, and a document without page text gives `""` |
| Portugues.ConvertText | portugues.py:32-59 | the pipeline computes the output function, and blank text gives `""` |
| Portugues.AssembleLines | portugues.py:33-50 | the block loop computes the block function, which equals the reference `Emit`: every kept line is its own processed line, and footers are emitted at once |
| Portugues.AssembledLinesAreEmitted | portugues.py:36-50 | at the call site, the block function equals the reference `Emit` |
| Portugues.AssembleIsEmit | portugues.py:36-50 | for any break test that is false on lines starting with a non-whitespace character, a one-line block is flushed by the next kept line |
| Portugues.EmitKeepsKeptOrder | portugues.py:36-44 | every kept line ends up in exactly one processed line, in input order, including the one still open at the end |
| Portugues.EmitKeepsFooterOrder | portugues.py:45-47 | the footer lines come out exactly once each, in input order |
| Portugues.EmitCount | portugues.py:36-50 | one processed line per non-blank input line: nothing dropped, nothing duplicated |
| Portugues.EmitKeptThenFooter | portugues.py:40-47 | after a kept line and a footer, the previously open line goes out, then the footer, while the kept line stays open for the lines that follow |
| Portugues.FooterOvertakesKept | portugues.py:40-47 | in any document, a footer read right after a kept line is output before it, and that kept line is the first kept line output after the footer |
| Portugues.BlankTextGivesEmpty | portugues.py:32 | empty or whitespace-only text gives the output `""` |
| Portugues.TextsAppend | portugues.py:41-47 | the texts of a concatenation of rows are the concatenation of their texts |
| Portugues.KeptTextsAppend | portugues.py:41-44 | the kept lines of a concatenation of rows are the concatenation of their kept lines |
| Portugues.FooterTextsAppend | portugues.py:45-47 | the footer lines of a concatenation of rows are the concatenation of their footer lines |
| Convertepdf.Fragment | convertepdf.py:29-37 | a line starting with "Folha:" after strip, or a blank line, yields nothing; what remains is non-empty and stripped |
| Convertepdf.FragmentLacksFolha | convertepdf.py:35 | a surviving fragment contains no "Folha:" |
| Convertepdf.PlainLineSurvives | convertepdf.py:29-37 | a non-blank line without "Folha:" survives as its stripped self |
| Convertepdf.FragmentedSolid | convertepdf.py:29-37 | every fragment that enters the block is non-empty and stripped |
| Convertepdf.PdfToText | convertepdf.py:20-54 | from the page texts to `text_to_write`: the page loop then the line pipeline, and a document without page text gives `""` |
| Convertepdf.ConvertText | convertepdf.py:24-54 | the pipeline computes the output function; the output contains no "Folha:"; blank text gives `""` |
| Convertepdf.AssembleLines | convertepdf.py:25-45 | the block loop computes the block function, which equals the surviving fragments in order |
| Convertepdf.AddFragment | convertepdf.py:37-42 | one pass of the loop body for a surviving fragment keeps the processed lines plus what the rest of the input yields unchanged |
| Convertepdf.AssembledFragments | convertepdf.py:38-45 | at the call site, the processed lines are the surviving fragments, in order |
| Convertepdf.EachFragmentOwnLine | convertepdf.py:38-45 | for any break test that is false on every current line starting with a non-whitespace character (`ColumnBreak.AtDefaultNeverBreaksSolid` shows the column-break test at threshold 50 is one), each fragment becomes its own processed line |
| Convertepdf.AssembleKeepsText | convertepdf.py:38-45 | for every break test, reassembly neither drops nor duplicates text: the `" "`-join of the processed lines equals that of the fragments, and no line comes out exactly when there is no fragment |
| Convertepdf.FlushKeepsText | convertepdf.py:39-40 | flushing a block keeps the `" "`-joined text |
| Convertepdf.NoFolhaInProcessed | convertepdf.py:35-45 | no processed line contains "Folha:" |
| Convertepdf.NoFolhaInOutput | convertepdf.py:35-54 | the output text contains no "Folha:" |
| Convertepdf.RewriteLacks | convertepdf.py:47-54 | the marker pass and the join bring in no "Folha:" |
| Convertepdf.PresentLacks | convertepdf.py:37-45 | the fragments that enter the block contain no "Folha:" |
| Convertepdf.FragmentedLacks | convertepdf.py:29-35 | no surviving fragment of any line contains "Folha:" |
| Convertepdf.BlankTextGivesEmpty | convertepdf.py:24 | empty or whitespace-only text gives the output `""` |
| ConverterPdf.KeptLines | converter_pdf.py:22-24 | the filter never keeps more lines than it reads |
| ConverterPdf.Terminated | converter_pdf.py:30-32 | the rendered text is empty exactly when there are no lines, and otherwise ends in `'\n'` |
| ConverterPdf.PdfToText | converter_pdf.py:15-32 | from the page texts to `text_to_write`: the page loop then the line pipeline, and a document without page text gives `""` |
| ConverterPdf.ConvertText | converter_pdf.py:19-32 | the pipeline computes the output function, and blank text gives `""` |
| ConverterPdf.ProcessLines | converter_pdf.py:21-28 | the loop yields the rewrite of the kept lines, in input order |
| ConverterPdf.Render | converter_pdf.py:30-32 | the `+=` loop yields each processed line followed by `'\n'` |
| ConverterPdf.ProcessStep | converter_pdf.py:22-28 | one iteration extends the output by the rewrite of the line exactly when the line is kept |
| ConverterPdf.KeptLinesShape | converter_pdf.py:23-24 | every kept line is non-empty, stripped and does not start with "Folha:" |
| ConverterPdf.KeptLinesAppend | converter_pdf.py:22-24 | the filter keeps input order: filtering a concatenation concatenates the results |
| ConverterPdf.KeptLinesMembers | converter_pdf.py:22-24 | a string is kept exactly when it is the non-empty stripped form of some input line and does not start with "Folha:" |
| ConverterPdf.KeptLinesLack | converter_pdf.py:23 | a character that is in no input line is in no kept line |
| ConverterPdf.TerminatedIsJoin | converter_pdf.py:30-32 | the rendered text is the `'\n'`-join of the lines plus a final empty piece |
| ConverterPdf.OutputLines | converter_pdf.py:19-32 | splitting the output at `'\n'` gives the processed lines back, followed by one empty piece |
| ConverterPdf.TerminatedNewlines | converter_pdf.py:30-32 | rendering lines without `'\n'` puts exactly one `'\n'` per line |
| ConverterPdf.OccurrencesAppend | converter_pdf.py:32 | the count of a character in a concatenation is the sum of the counts |
| ConverterPdf.OccurrencesAbsent | converter_pdf.py:32 | a character that does not occur has count 0 |
| ConverterPdf.OutputNewlines | converter_pdf.py:19-32 | the number of `'\n'` in the output equals the number of kept input lines |
| ConverterPdf.OutputLineBound | converter_pdf.py:22-28 | never more output lines than input lines |
| ConverterPdf.BlankTextGivesEmpty | converter_pdf.py:19 | empty or whitespace-only text gives the output `""` |
| ConverterPdf.PedidoLosesItsP | converter_pdf.py:25-26 | a word starting with 'P' loses that letter: "Pedido 12" becomes "edido 12  P" |

## Left out

- The PDF reader and `page.extract_text()` are a foreign library. The page texts are inputs to `Pages.ConcatPages`. A page without text is `None`.
- File open, read and write, `os.listdir`, `os.makedirs` and `os.path` handling are I/O plumbing. `process_pdf_folder_multicolumn` and `process_pdf_folder` are not part of this model.
- The module-level calls with hard-coded folder paths are left out for the same reason.
- The `try`/`except` blocks and the `print` messages are left out: they only report success or failure on the console.
- Unicode whitespace is the fixed set of code points `str.isspace` accepts. Python's tables for other Unicode versions are not modelled.
- General regular expressions are left out. `re.finditer(re.escape(w), s)` is modelled as literal, non-overlapping, left-to-right search. `re.sub(r'Folha:.*', '', s)` is modelled as a cut at the first "Folha:", which is exact for lines without `'\n'`.
- Text.ReplaceAll: no lemma says the result lacks the header literal. Python's single-pass `replace` can leave an occurrence formed across a removed one, so that claim would be false.
- ColumnBreak.LeadingTokenNoBreak: holds only for a non-negative threshold. With a negative threshold the test can be True even at offset 0. Both scripts use 50.
- ColumnBreak.LastEndScan: the loop advances one character after a failed comparison and past the match after a success. This is how `finditer` finds non-overlapping literal matches. Matches of the empty pattern cannot occur, because tokens are never empty.
- Portugues.HeaderRemovedFromFooter: shows one concrete line only. In general a footer's text is `str.replace` applied to the stripped line, as `Portugues.Classify` computes it.
