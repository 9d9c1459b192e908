/**
 * Text extraction from an uploaded PDF (`extract_text_from_pdf`).
 * The PDF parser is a foreign library: the model receives, per page, what its
 * `extract_text()` call produced, or that the call raised.
 */
module Extraction {
  import opened Wrappers

  /** What reading one page gave: a text, `None`, or an exception. */
  datatype PageRead = Read(text: Option<string>) | Raises

  /** A page's contribution: `page.extract_text() or ""`. */
  function PageText(p: PageRead): string {
    match p
    case Read(Some(t)) => t
    case _ => ""
  }

  /** No page of `pages` yields any text. */
  predicate Blank(pages: seq<PageRead>) {
    pages == [] || (PageText(pages[0]) == "" && Blank(pages[1..]))
  }

  /** A run of pages ending in `p` is blank iff the run before it is and `p` is. */
  lemma {:induction false} BlankSnoc(front: seq<PageRead>, p: PageRead)
    ensures Blank(front + [p]) <==> Blank(front) && PageText(p) == ""
    decreases |front|
  {
    if front != [] {
      assert (front + [p])[1..] == front[1..] + [p];
      BlankSnoc(front[1..], p);
    }
  }

  /** The text accumulated over `pages`, in page order: empty exactly when every page is blank. */
  function PagesText(pages: seq<PageRead>): (r: string)
    ensures |r| == 0 <==> Blank(pages)
  {
    if pages == [] then ""
    else
      var n := |pages| - 1;
      BlankSnoc(pages[..n], pages[n]);
      assert pages[..n] + [pages[n]] == pages;
      PagesText(pages[..n]) + PageText(pages[n])
  }

  /** Sum of the per-page text lengths, counted from the first page. */
  function TextLengthSum(pages: seq<PageRead>): nat {
    if pages == [] then 0 else |PageText(pages[0])| + TextLengthSum(pages[1..])
  }

  /** No page of `pages` raises. */
  predicate AllReadable(pages: seq<PageRead>) {
    forall i :: 0 <= i < |pages| ==> pages[i].Read?
  }

  /**
   * `extract_text_from_pdf`: `opens` is whether the reader could be built.
   * The text of every page is appended in order; any exception gives `None`.
   */
  method ExtractText(opens: bool, pages: seq<PageRead>) returns (r: Option<string>)
    ensures r.Some? <==> opens && AllReadable(pages)
    ensures r.Some? ==> r.value == PagesText(pages)
  {
    if !opens {
      return None;
    }
    var text := "";
    var i := 0;
    while i < |pages|
      invariant 0 <= i <= |pages|
      invariant AllReadable(pages[..i])
      invariant text == PagesText(pages[..i])
    {
      if pages[i].Raises? {
        return None;
      }
      assert pages[..i + 1][..i] == pages[..i];
      text := text + PageText(pages[i]);
      i := i + 1;
    }
    assert pages[..i] == pages;
    return Some(text);
  }

  /** Extraction is a homomorphism: the text of two runs of pages is the two texts joined. */
  lemma {:induction false} PagesTextAppend(a: seq<PageRead>, b: seq<PageRead>)
    ensures PagesText(a + b) == PagesText(a) + PagesText(b)
    decreases |b|
  {
    if b == [] {
      assert a + b == a;
    } else {
      var b' := b[..|b| - 1];
      assert (a + b)[..|a + b| - 1] == a + b';
      PagesTextAppend(a, b');
    }
  }

  /** A page with no text (`None` or "") contributes nothing and the pages after it still count. */
  lemma {:induction false} EmptyPageContributesNothing(before: seq<PageRead>, p: PageRead, after: seq<PageRead>)
    requires p == Read(None) || p == Read(Some(""))
    ensures PagesText(before + [p] + after) == PagesText(before) + PagesText(after)
  {
    PagesTextAppend(before + [p], after);
    assert (before + [p])[..|before + [p]| - 1] == before;
    assert PagesText(before + [p]) == PagesText(before) + PageText(p);
  }

  /** The length of the text is the sum of the page text lengths; no pages give "". */
  lemma {:induction false} PagesTextLength(pages: seq<PageRead>)
    ensures |PagesText(pages)| == TextLengthSum(pages)
    ensures pages == [] ==> PagesText(pages) == ""
    decreases |pages|
  {
    if pages != [] {
      var rest := pages[1..];
      assert pages == [pages[0]] + rest;
      PagesTextAppend([pages[0]], rest);
      assert [pages[0]][..0] == [];
      PagesTextLength(rest);
    }
  }
}
