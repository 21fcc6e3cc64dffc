# Dagens lunch: the text processing of `build.py`, in Dafny

`build.py` scrapes three restaurant sites and writes a static page with
today's lunch menus. Two sources are HTML pages. The third publishes a PDF
that is linked from its landing page. This project models the logic
between the fetches and the written file:

- the weekday table (`WEEKDAYS` and `TODAY`), in module `Weekdays`;
- `clean_lines`, in module `Clean`, over the Python string built-ins in
  module `Strings`. Those are `str.strip`, `str.split("\n")`,
  `"<br>".join` and `in`;
- `extract_today_menu`, in module `Extract`. It searches with the regular
  expression `TODAY(.*?)(MÅNDAG|TISDAG|ONSDAG|TORSDAG|FREDAG|$)` under
  `re.S | re.I`. The model writes out the scan the regex engine performs:
  the match begins at the leftmost case-insensitive occurrence of today's
  label. The captured group ends at the first later position where one of
  the five labels starts, or where `$` matches. Without MULTILINE, `$`
  matches at the end of the text or just before a final `"\n"`;
- the pure parts of `fetch_rydbergs_pdf_text`, in module `Pdf`. These are the
  loop that picks the first link containing `.pdf`, the resolution of a
  root-relative link, and the loop that gathers page texts;
- the loop that builds one HTML fragment per restaurant, and the day line
  of the page header, in module `Render`.

Every network result is a parameter. `Render.Web` bundles three things:
the visible text of an HTML page by URL, the landing page's `href` values in
document order, and the page texts of a PDF by URL. Python's `None` page
text is `None` here. The weekday index that `datetime.now().weekday()`
reads from the clock is an argument.

Some behaviour of build.py that is easy to miss:

- build.py has no step that cuts a menu short, for instance at a price
  line. A menu segment only goes through `clean_lines`.
- The PDF link test is containment: `".pdf" in href.lower()` also accepts
  a link where `.pdf` stands in the middle.
- The captured group starts right after the label, so a colon after the
  label stays in the menu. On Tuesday, `"TISDAG: Fish. ONSDAG: Soup."`
  gives `": Fish."` (`Extract.TuesdayExample`).
- build.py catches no exceptions. A transport error or time-out in
  `requests.get` ends the whole run. An HTTP error status does not raise,
  because the code never calls `raise_for_status`. For an HTML source or
  the PDF source's landing page, the body of such a response is parsed and
  searched like any other page. For the PDF download (build.py:83-91), it is
  written to `rydbergs.pdf` and opened by `pdfplumber` as if it were a PDF.
  It is never searched as a page.
- The no-menu message appears whenever today's label does not occur in the
  text, even if other weekday labels do. An empty text gives it too. Empty
  text has three sources: an HTML page without visible text, a landing page
  that links to no PDF (build.py:77-78), or a linked PDF where no page yields
  text (build.py:87-93, `Pdf.PagesTextEmptyIff`).

The messages are ordinary strings. A menu that reads exactly
`Ingen meny hittades.` therefore looks like the no-menu message. For that
reason `Extract.Capture` states when a label was found, not the message.

## Model

| member | source | states |
|---|---|---|
| `Weekdays.WeekdayLabel` | build.py:35-44 | indices 0 to 4 give MÅNDAG, TISDAG, ONSDAG, TORSDAG, FREDAG in that order; every other index gives no label |
| `Weekdays.LabelsDistinct` | build.py:35-41 | two indices with the same label are the same index, and every label is non-empty |
| `Strings.IsSpace` | build.py:51 | the whitespace set of Python's `str.isspace`, which `strip()` removes: it includes space, tab, newline and carriage return, and no visible ASCII character |
| `Strings.LeadingSpace` | build.py:51 | the characters `strip()` drops at the front are whitespace, and the first one it keeps is not |
| `Strings.TrailingSpace` | build.py:51 | the characters `strip()` drops at the back are whitespace, and the last one it keeps is not |
| `Strings.Strip` | build.py:51 | `line.strip()` has no whitespace at either end and is no longer than the line |
| `Strings.StripInfix` | build.py:51 | `line.strip()` is a contiguous middle part of the line, and only whitespace lies before and after it |
| `Strings.StripEmptyIff` | build.py:51 | a line strips to the empty string exactly when it is all whitespace |
| `Strings.StripOfStripped` | build.py:51 | stripping leaves a stripped string unchanged |
| `Strings.Join` | build.py:52 | a definition without its own contract: the parts in order with the separator between each two neighbours; `Strings.JoinLength`, `Strings.JoinAppend` and `Strings.SplitJoinLines` state its properties |
| `Strings.JoinLength` | build.py:52 | `sep.join(parts)` is "" for no parts; otherwise its length is the parts' total length plus one separator per gap |
| `Strings.SplitLines` | build.py:51 | `text.split("\n")` gives at least one line, no line holds a newline, and joining the lines with "\n" gives the text back |
| `Strings.SplitJoinLines` | build.py:51 | the converse round trip: newline-free lines joined with "\n" split back into the same lines |
| `Strings.SplitLinesAppend` | build.py:51 | the lines of `a + "\n" + b` are the lines of `a` followed by the lines of `b` |
| `Strings.Contains` | build.py:73 | a definition without its own contract: Python's substring test `w in s`, true when `w` occurs at some index of `s`; `Pdf.IsPdfHref` is stated with it |
| `Clean.KeptLines` | build.py:51 | the comprehension `[line.strip() for line in lines if line.strip()]` keeps at most one entry per line |
| `Clean.KeptLinesStripped` | build.py:51 | every line the comprehension keeps is non-empty and stripped, and it keeps no more lines than it gets |
| `Clean.KeptLinesNoNewline` | build.py:51 | kept lines hold no newline when the input lines hold none |
| `Clean.KeptLinesEmptyIff` | build.py:51 | nothing is kept exactly when every line is blank |
| `Clean.KeptLinesAppend` | build.py:51 | the comprehension keeps the order: the kept lines of `a + b` are those of `a` followed by those of `b` |
| `Clean.KeptLine` | build.py:51 | one line is kept, in stripped form, exactly when it is not blank |
| `Clean.CleanLines` | build.py:50-52 | the result holds no newline, has no whitespace at either end, and is empty exactly when the input is empty or all whitespace |
| `Clean.CleanLinesIdempotent` | build.py:50-52 | cleaning a cleaned text changes nothing |
| `Clean.CleanLinesAppend` | build.py:50-52 | cleaning `a + "\n" + b` gives the cleaned `a` and the cleaned `b` joined by "<br>", leaving out an empty one |
| `Extract.Fold` | build.py:103-104 | a definition without its own contract: the case folding of `re.I`, restricted to the ASCII letters and Å/å (see "## Left out") |
| `Extract.OccursAt` | build.py:103-104 | a definition without its own contract: a label matches the text at an index when every character of the label equals the text's character there after folding; `Extract.FindWord` and `Extract.Search` are stated with it |
| `Extract.IsStop` | build.py:103 | a definition without its own contract: where the pattern's stop group, one of the five labels or `$`, can match: at a label, at the end of the text, or just before a newline that ends the text (`$` without MULTILINE); `Extract.StopAt` and `Extract.Search` are stated with it |
| `Extract.FindWord` | build.py:103-104 | the index found is a case-insensitive occurrence of the label, and no occurrence lies before it; none found means none exists |
| `Extract.StopAt` | build.py:103-104 | the lazy group ends at a position where a label or `$` matches, and at no earlier such position |
| `Extract.Search` | build.py:103-104 | the search fails exactly when the label does not occur; otherwise it starts at the leftmost occurrence and the group ends at the first stop after the label |
| `Extract.SearchAt` | build.py:103-104 | the leftmost occurrence and the first stop after it determine the match |
| `Extract.NoLabelBeforeStop` | build.py:103-104 | text that holds no stop position contains none of the five labels |
| `Extract.Capture` | build.py:103-106 | `match.group(1)` exists exactly when the label occurs, and it contains none of the five labels, case-insensitively |
| `Extract.ExtractTodayMenu` | build.py:99-109 | no label gives "Ingen lunch idag."; a label that does not occur gives "Ingen meny hittades."; the result never holds a newline |
| `Extract.ExtractFound` | build.py:103-109 | when the label occurs, the menu is `clean_lines` of the text from just after its leftmost occurrence up to the first later label start or end of text |
| `Extract.StopLabelsAreWeekdays` | build.py:103 | the alternatives of the stop group are the labels of the weekday table, in the same order |
| `Extract.WeekendHasNoLunch` | build.py:100-101 | on a weekend index the menu is "Ingen lunch idag." whatever the text |
| `Extract.EmptyTextHasNoMenu` | build.py:103-107 | on a weekday an empty text gives "Ingen meny hittades." |
| `Extract.NoLabelsNoMenu` | build.py:103-107 | on a weekday a text without any of the five labels gives "Ingen meny hittades." |
| `Extract.TuesdayExample` | build.py:103-109 | on Tuesday "TISDAG: Fish. ONSDAG: Soup." gives ": Fish." |
| `Pdf.Lower` | build.py:73 | `href.lower()` keeps the length and lower-cases each character where it stands |
| `Pdf.IsPdfHref` | build.py:73 | an href holding ".pdf" or ".PDF" anywhere passes the test, and an href that passes is at least four characters long |
| `Pdf.FirstPdfHref` | build.py:71-75 | no link is chosen exactly when no href contains ".pdf" after lower-casing; a chosen link is one of the hrefs and passes that test |
| `Pdf.FirstPdfHrefIsFirst` | build.py:71-75 | the link chosen is the first qualifying href in document order |
| `Pdf.ResolveLink` | build.py:80-81 | a link starting with '/' becomes `https://www.restaurangrydbergs.se` followed by the link; any other link is kept, so the result differs from the link exactly when it starts with '/'; the result never starts with '/' |
| `Pdf.ResolveMenuPath` | build.py:73-81 | "/docs/menu.pdf" passes the PDF test and resolves to "https://www.restaurangrydbergs.se/docs/menu.pdf" |
| `Pdf.ResolveLinkIdempotent` | build.py:80-81 | resolving a resolved link changes nothing |
| `Pdf.FindPdfLink` | build.py:71-81 | the loop with `break` finds no link exactly when no href qualifies; otherwise it gives the first qualifying href, resolved |
| `Pdf.HasText` | build.py:90 | a definition without its own contract: the `if page.extract_text():` test, true when the page has text and it is not empty |
| `Pdf.PageText` | build.py:90-91 | a definition without its own contract: what one page adds, its text followed by `"\n"` when it has text, otherwise nothing |
| `Pdf.PagesText` | build.py:87-91 | a definition without its own contract: the in-order concatenation of `t + "\n"` over the pages whose text `t` is non-empty; the lemmas below state its properties |
| `Pdf.PagesTextAppend` | build.py:87-91 | the gathered text of `a + b` is the text of `a` followed by the text of `b`, so pages contribute in page order |
| `Pdf.PagesTextEmptyIff` | build.py:87-91 | the gathered text is empty exactly when no page has non-empty text |
| `Pdf.PagesTextEndsInNewline` | build.py:87-91 | gathered text that is not empty ends with a newline |
| `Pdf.GatherPages` | build.py:87-91 | the `text +=` loop yields the in-order concatenation of `t + "\n"` over the pages whose text `t` is non-empty |
| `Pdf.PdfText` | build.py:67-93 | a definition without its own contract: "" when no href qualifies, otherwise the gathered text of the pages of the document at the resolved first qualifying href; `Render.RawText` and `Render.BuildPage` use it |
| `Pdf.FetchPdfText` | build.py:67-93 | the function's steps (the link loop, the early `return ""`, the page loop) give exactly the value `Pdf.PdfText` defines |
| `Render.RawText` | build.py:118-121 | a definition without its own contract: an HTML source's text is the page at its URL, the PDF source's is the text of `fetch_rydbergs_pdf_text` |
| `Render.Block` | build.py:125-133 | a definition without its own contract: the f-string fragment with the logo, the name as `<h2>` and the menu as `<p>`; `Render.BlockShows` and `Render.BlockInjective` state its properties |
| `Render.BlockShows` | build.py:125-133 | the fragment shows the menu text unescaped inside `<p>…</p>` and the restaurant's name inside `<h2>…</h2>` |
| `Render.BlockInjective` | build.py:125-133 | different menu texts give different fragments |
| `Render.Lunch` | build.py:123 | a definition without its own contract: `extract_today_menu` of the restaurant's fetched text for the given day; `Render.BuildBlock`, `Render.BuildBlocks` and `Render.EmptyFetchStillRendered` are stated with it |
| `Render.FetchText` | build.py:118-121 | an HTML source is fetched from its own URL; the PDF source gets the text of `fetch_rydbergs_pdf_text`, which ignores the registry's URL |
| `Render.BuildBlock` | build.py:117-135 | one pass of the loop body gives the fragment for that restaurant, holding the menu extracted from its own fetched text |
| `Render.BuildBlocks` | build.py:115-135 | one fragment per restaurant in registry order, each from that restaurant's own fetched text and today's label |
| `Render.RegistryOrder` | build.py:15-33 | the registry has three entries, only the last is the PDF source, and the names differ |
| `Render.BuildPage` | build.py:115-135 | the loop over the registry gives three fragments: the two HTML sources from their own pages, the PDF source last from the text of its menu document |
| `Render.EmptyFetchStillRendered` | build.py:117-123 | on a weekday, a restaurant whose fetch is empty gets the no-menu message; that it still gets a fragment follows from `Render.BuildBlocks` |
| `Render.NoPdfLinkShowsNoMenu` | build.py:77-78 | when the landing page links to no PDF, the PDF source shows the no-menu message on a weekday |
| `Render.DayHeading` | build.py:181 | the header shows today's label, or "Ingen lunch idag" without a full stop |
| `Render.DayHeadingOfWeekday` | build.py:181 | on a weekday the header shows that day's label; on a weekend it shows the placeholder |

## Left out

- HTTP requests, BeautifulSoup text extraction and pdfplumber parsing (build.py:58-61, 68-69, 83-91). They are network access and foreign libraries. Their results are parameters, in `Render.Web` and `Pdf.FetchPdfText`.
- Exceptions from those calls. The code does not catch them: a transport error or time-out ends the run. The model treats every fetch as returning text. For the HTML pages and the landing page, that is also what happens on an HTTP error response. For the PDF download, what `pdfplumber` makes of an error body is left out along with the parser.
- Reading the clock (build.py:43). The weekday index is a parameter.
- Writing `rydbergs.pdf` and `index.html`, and the final `print` (build.py:84-85, 189-191). These are I/O.
- The page template (build.py:141-187). Only its day line (`Render.DayHeading`) is modelled. The rest is fixed text around `''.join(html_blocks)`.
- `Extract.Fold`: covers the ASCII letters and Å/å, which are all the letters in the five labels. Python's `re.I` also treats a few other characters as equal to label letters, for instance U+212B ANGSTROM SIGN and U+017F LATIN SMALL LETTER LONG S. The model does not treat them as matches.
- `Extract.ExtractTodayMenu`: today's label is matched as literal text. This agrees with the regular expression for the five labels, which contain no metacharacters.
- `Pdf.Lower`: lower-cases the ASCII letters only. No other character lower-cases to '.', 'p', 'd' or 'f', so the `.pdf` test is unaffected.
- `page.extract_text()` is called twice per page in the source. The model reads one text per page, assuming both calls agree.
