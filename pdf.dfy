/** The logic inside `fetch_rydbergs_pdf_text`: choosing the menu PDF among
    the links of the landing page, resolving a root-relative link, and
    gathering the text of the PDF's pages. The HTTP requests, the temporary
    file and the PDF parser are the caller's: the links arrive as a list of
    `href` values in document order, and the download as a function from URL
    to the pages' extracted texts. */
module Pdf {
  import opened Options
  import opened Strings

  const BaseUrl := "https://www.restaurangrydbergs.se"
  const PdfMarker := ".pdf"

  /** Python's `str.lower()` on ASCII letters. Lower-casing any other
      character never yields '.', 'p', 'd' or 'f', so the test below needs
      no more. */
  function LowerChar(c: char): char
  {
    if 'A' <= c <= 'Z' then (c as int + 32) as char else c
  }

  function Lower(s: string): (r: string)
    ensures |r| == |s|
    ensures forall k :: 0 <= k < |s| ==> r[k] == LowerChar(s[k])
  {
    if s == [] then [] else [LowerChar(s[0])] + Lower(s[1..])
  }

  /** `".pdf" in href.lower()`: a test for containment anywhere, not for a
      file-name extension at the end. */
  predicate IsPdfHref(href: string)
    ensures Contains(href, ".pdf") || Contains(href, ".PDF") ==> IsPdfHref(href)
    ensures IsPdfHref(href) ==> |href| >= |PdfMarker|
  {
    LowerKeepsMarker(href);
    Contains(Lower(href), PdfMarker)
  }

  /** Lower-casing turns ".pdf" and ".PDF" into the marker, where they stand. */
  lemma LowerKeepsMarker(href: string)
    ensures Contains(href, ".pdf") || Contains(href, ".PDF") ==> Contains(Lower(href), PdfMarker)
  {
    if i :| 0 <= i <= |href| && (InfixAt(href, ".pdf", i) || InfixAt(href, ".PDF", i)) {
      forall k | 0 <= k < 4 ensures Lower(href)[i + k] == PdfMarker[k] {
        assert href[i + k] == href[i..i + 4][k];
      }
      assert Lower(href)[i..i + 4] == PdfMarker;
      assert InfixAt(Lower(href), PdfMarker, i);
    }
  }

  /** The first `href` in document order that passes the test, if any. */
  function FirstPdfHref(hrefs: seq<string>): (r: Option<string>)
    ensures r.None? <==> forall k :: 0 <= k < |hrefs| ==> !IsPdfHref(hrefs[k])
    ensures r.Some? ==> r.value in hrefs && IsPdfHref(r.value)
  {
    if hrefs == [] then None
    else if IsPdfHref(hrefs[0]) then Some(hrefs[0])
    else FirstPdfHref(hrefs[1..])
  }

  /** The first qualifying link is the one chosen, whatever follows it. */
  lemma {:induction false} FirstPdfHrefIsFirst(hrefs: seq<string>, i: nat)
    requires i < |hrefs| && IsPdfHref(hrefs[i])
    requires forall k :: 0 <= k < i ==> !IsPdfHref(hrefs[k])
    ensures FirstPdfHref(hrefs) == Some(hrefs[i])
  {
    if i > 0 {
      assert !IsPdfHref(hrefs[0]);
      assert hrefs[1..][i - 1] == hrefs[i];
      FirstPdfHrefIsFirst(hrefs[1..], i - 1);
    }
  }

  /** A link starting with '/' gets the site's base URL in front of it; any
      other link is kept as it is. */
  function ResolveLink(link: string): (url: string)
    ensures |link| <= |url| && url[|url| - |link|..] == link
    ensures url != link <==> |link| > 0 && link[0] == '/'
    ensures url == [] || url[0] != '/'
    ensures |link| > 0 && link[0] == '/' ==> url == BaseUrl + link
  {
    if |link| > 0 && link[0] == '/' then BaseUrl + link else link
  }

  /** A root-relative link to a menu document gets the site's address in
      front of it. */
  lemma ResolveMenuPath(link: string)
    requires link == "/docs/menu.pdf"
    ensures ResolveLink(link) == "https://www.restaurangrydbergs.se/docs/menu.pdf"
    ensures IsPdfHref(link)
  {
    assert InfixAt(link, ".pdf", 10);
  }

  /** Resolving an already resolved link changes nothing. */
  lemma ResolveLinkIdempotent(link: string)
    ensures ResolveLink(ResolveLink(link)) == ResolveLink(link)
  {
  }

  /** The `for a in soup.find_all("a", href=True)` loop that stops at the
      first link containing ".pdf", followed by the resolution of a
      root-relative link; no link means the function gives up. */
  method FindPdfLink(hrefs: seq<string>) returns (link: Option<string>)
    ensures link.None? <==> forall k :: 0 <= k < |hrefs| ==> !IsPdfHref(hrefs[k])
    ensures link.Some? ==> link == Some(ResolveLink(FirstPdfHref(hrefs).value))
  {
    var found: Option<string> := None;
    var i := 0;
    while i < |hrefs|
      invariant 0 <= i <= |hrefs|
      invariant found.None?
      invariant FirstPdfHref(hrefs) == FirstPdfHref(hrefs[i..])
    {
      if IsPdfHref(hrefs[i]) {
        found := Some(hrefs[i]);
        break;
      }
      assert hrefs[i..][1..] == hrefs[i + 1..];
      i := i + 1;
    }
    if found.None? {
      return None;
    }
    link := Some(ResolveLink(found.value));
  }

  /** `if t:` on a page's extracted text: it exists and is not empty. */
  predicate HasText(page: Option<string>)
  {
    page.Some? && page.value != []
  }

  /** What one page adds: its text and a newline, if it has any text. */
  function PageText(page: Option<string>): string
  {
    if HasText(page) then page.value + "\n" else ""
  }

  /** The text gathered from the pages, in page order. */
  function PagesText(pages: seq<Option<string>>): string
  {
    if pages == [] then "" else PagesText(pages[..|pages| - 1]) + PageText(pages[|pages| - 1])
  }

  /** Gathering distributes over the page list: the text of the first pages
      comes first, unchanged, followed by that of the later ones. */
  lemma {:induction false} PagesTextAppend(a: seq<Option<string>>, b: seq<Option<string>>)
    ensures PagesText(a + b) == PagesText(a) + PagesText(b)
  {
    if b == [] {
      assert a + b == a;
    } else {
      var c, last := b[..|b| - 1], b[|b| - 1];
      assert (a + b)[..|a + b| - 1] == a + c;
      assert (a + b)[|a + b| - 1] == last;
      assert PagesText(a + b) == PagesText(a + c) + PageText(last);
      PagesTextAppend(a, c);
      assert PagesText(b) == PagesText(c) + PageText(last);
    }
  }

  /** The gathered text is empty exactly when no page has text. */
  lemma {:induction false} PagesTextEmptyIff(pages: seq<Option<string>>)
    ensures PagesText(pages) == [] <==> forall k :: 0 <= k < |pages| ==> !HasText(pages[k])
  {
    if pages != [] {
      var init, last := pages[..|pages| - 1], pages[|pages| - 1];
      PagesTextEmptyIff(init);
      assert PagesText(pages) == PagesText(init) + PageText(last);
      if forall k :: 0 <= k < |pages| ==> !HasText(pages[k]) {
        assert forall k :: 0 <= k < |init| ==> !HasText(init[k]);
      } else {
        var k :| 0 <= k < |pages| && HasText(pages[k]);
        if k < |init| {
          assert init[k] == pages[k];
        }
      }
    }
  }

  /** Text gathered from at least one page ends with a newline. */
  lemma PagesTextEndsInNewline(pages: seq<Option<string>>)
    requires PagesText(pages) != []
    ensures PagesText(pages)[|PagesText(pages)| - 1] == '\n'
  {
    var init, last := pages[..|pages| - 1], pages[|pages| - 1];
    if PageText(last) != [] {
      assert PagesText(pages) == PagesText(init) + (last.value + "\n");
    } else {
      assert PagesText(pages) == PagesText(init);
      PagesTextEndsInNewline(init);
    }
  }

  /** The `for page in pdf.pages` loop that appends each page's non-empty
      text and a newline. */
  method GatherPages(pages: seq<Option<string>>) returns (text: string)
    ensures text == PagesText(pages)
  {
    text := "";
    for i := 0 to |pages|
      invariant text == PagesText(pages[..i])
    {
      var page := pages[i];
      if page.Some? && page.value != [] {
        text := text + page.value + "\n";
      }
      assert pages[..i + 1][..i] == pages[..i];
    }
    assert pages[..|pages|] == pages;
  }

  /** The text `fetch_rydbergs_pdf_text` gives for the landing page's links
      and the documents the links lead to. */
  function PdfText(hrefs: seq<string>, download: string -> seq<Option<string>>): string
  {
    match FirstPdfHref(hrefs)
    case None => ""
    case Some(href) => PagesText(download(ResolveLink(href)))
  }

  /** `fetch_rydbergs_pdf_text()`: no PDF link gives the empty text;
      otherwise the text of the pages of the document the resolved link
      points to. `download` stands for fetching and parsing that document. */
  method FetchPdfText(hrefs: seq<string>, download: string -> seq<Option<string>>) returns (text: string)
    ensures text == PdfText(hrefs, download)
  {
    var link := FindPdfLink(hrefs);
    if link.None? {
      return "";
    }
    text := GatherPages(download(link.value));
  }
}
