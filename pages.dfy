/** The text every script starts from: the text of each PDF page, a page
    without text counting as "", concatenated with no separator. The PDF
    reader itself is not part of this model; the pages arrive as values. */
module Pages {
  import opened Text

  /** `page.extract_text() or ""`: a page without text contributes nothing. */
  function PageText(page: Option<string>): string
  {
    match page
    case None => []
    case Some(t) => t
  }

  /** The concatenation of the page texts, in page order. */
  function Concat(pages: seq<Option<string>>): string
  {
    if pages == [] then [] else Concat(pages[..|pages| - 1]) + PageText(pages[|pages| - 1])
  }

  /** The `text += page.extract_text() or ""` loop. */
  method ConcatPages(pages: seq<Option<string>>) returns (text: string)
    ensures text == Concat(pages)
  {
    text := "";
    var i := 0;
    while i < |pages|
      invariant 0 <= i <= |pages|
      invariant text == Concat(pages[..i])
    {
      assert pages[..i + 1][..i] == pages[..i];
      text := text + PageText(pages[i]);
      i := i + 1;
    }
    assert pages[..|pages|] == pages;
  }

  /** Reading two runs of pages one after the other concatenates their
      texts. */
  lemma {:induction false} ConcatAppend(a: seq<Option<string>>, b: seq<Option<string>>)
    ensures Concat(a + b) == Concat(a) + Concat(b)
    decreases |b|
  {
    if b == [] {
      assert a + b == a;
    } else {
      var init, last := b[..|b| - 1], PageText(b[|b| - 1]);
      assert (a + b)[..|a + b| - 1] == a + init;
      ConcatLast(a + b, a + init, last);
      ConcatLast(b, init, last);
      ConcatAppend(a, init);
    }
  }

  /** `Concat` of a non-empty run: the texts before the last page, then its
      text. */
  lemma ConcatLast(pages: seq<Option<string>>, init: seq<Option<string>>, last: string)
    requires pages != [] && pages[..|pages| - 1] == init && PageText(pages[|pages| - 1]) == last
    ensures Concat(pages) == Concat(init) + last
  {
  }

  /** Each page's text stands in the result right after the texts of the
      pages before it. */
  lemma PageInPlace(pages: seq<Option<string>>, i: nat)
    requires i < |pages|
    ensures var before := |Concat(pages[..i])|;
            before + |PageText(pages[i])| <= |Concat(pages)|
            && Concat(pages)[before..before + |PageText(pages[i])|] == PageText(pages[i])
  {
    var x, t := Concat(pages[..i]), PageText(pages[i]);
    assert pages[..i + 1][..i] == pages[..i];
    assert Concat(pages[..i + 1]) == x + t;
    assert pages == pages[..i + 1] + pages[i + 1..];
    ConcatAppend(pages[..i + 1], pages[i + 1..]);
    var r := Concat(pages[i + 1..]);
    assert Concat(pages) == (x + t) + r;
    assert ((x + t) + r)[|x|..|x| + |t|] == t;
  }

  /** The length of the result is the sum of the page text lengths, so pages
      without text change nothing. */
  lemma {:induction false} ConcatLength(pages: seq<Option<string>>)
    ensures |Concat(pages)| == TotalLength(pages)
    decreases |pages|
  {
    if pages != [] {
      ConcatLength(pages[..|pages| - 1]);
    }
  }

  /** Sum of the page text lengths. */
  function TotalLength(pages: seq<Option<string>>): nat
  {
    if pages == [] then 0 else TotalLength(pages[..|pages| - 1]) + |PageText(pages[|pages| - 1])|
  }

  /** A document none of whose pages has text gives the empty string. */
  lemma {:induction false} NoTextGivesEmpty(pages: seq<Option<string>>)
    requires forall i :: 0 <= i < |pages| ==> PageText(pages[i]) == []
    ensures Concat(pages) == []
    decreases |pages|
  {
    if pages != [] {
      NoTextGivesEmpty(pages[..|pages| - 1]);
    }
  }
}
