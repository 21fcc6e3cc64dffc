/** The page assembly: the registry of restaurants, the HTML fragment made
    for each of them, the loop that builds one fragment per restaurant in
    registry order, and the day shown in the page header. */
module Render {
  import opened Options
  import opened Strings
  import Weekdays
  import Extract
  import Pdf

  /** How a restaurant publishes its menu: as an HTML page, or through the
      PDF linked from its landing page. */
  datatype Kind = Html | PdfLink

  datatype Restaurant = Restaurant(name: string, url: string, logo: string, kind: Kind)

  const Restaurants: seq<Restaurant> := [
    Restaurant(
      "FEI Restaurang & Lounge",
      "https://www.fei.se/meny-fei-restaurant-lounge",
      "https://res.cloudinary.com/emg-prod/image/upload/c_limit,h_100,w_200/v1/institutes/institute10621/logos/logo",
      Html),
    Restaurant(
      "Restaurang Cirkeln",
      "https://cirkelnstockholm.se/restauranger/restaurang-cirkeln/",
      "https://cirkelnstockholm.se/wp-content/uploads/2021/09/c_restaurang-S-150x150.png",
      Html),
    Restaurant(
      "Restaurang Rydbergs",
      "https://www.restaurangrydbergs.se/#lunch",
      "Rydbergs-orange-transperant.png",
      PdfLink)
  ]

  /** What the network gives the program: the visible text of an HTML page
      by URL, the `href` values of the PDF source's landing page in document
      order, and the page texts of a PDF document by URL. */
  datatype Web = Web(
    fetchHtml: string -> string,
    landingHrefs: seq<string>,
    download: string -> seq<Option<string>>)

  /** The text fetched for a restaurant: an HTML source is fetched from its
      own URL; the PDF source goes through `fetch_rydbergs_pdf_text`, which
      does not look at the registry's URL at all. */
  function RawText(r: Restaurant, web: Web): string
  {
    if r.kind == Html then web.fetchHtml(r.url) else Pdf.PdfText(web.landingHrefs, web.download)
  }

  /** The fragment's opening up to the heading: the restaurant's logo, with
      its name as the alternative text. */
  function Opening(r: Restaurant): string
  {
    "\n"
    + "    <div class=\"restaurant\">\n"
    + "        <div class=\"header\">\n"
    + "            <img src=\"" + r.logo + "\" alt=\"" + r.name + "\">\n"
    + "            "
  }

  function Heading(r: Restaurant): string
  {
    "<h2>" + r.name + "</h2>"
  }

  const AfterHeading := "\n        </div>\n        "

  /** Everything in the fragment before the menu paragraph. */
  function Front(r: Restaurant): string
  {
    Opening(r) + Heading(r) + AfterHeading
  }

  function Paragraph(lunch: string): string
  {
    "<p>" + lunch + "</p>"
  }

  const Closing := "\n    </div>\n    "

  /** One restaurant's fragment. The menu text is inserted as it is, without
      HTML escaping. */
  function Block(r: Restaurant, lunch: string): string
  {
    Front(r) + Paragraph(lunch) + Closing
  }

  /** The fragment shows the menu text inside the paragraph and the
      restaurant's name as the heading. */
  lemma BlockShows(r: Restaurant, lunch: string)
    ensures InfixAt(Block(r, lunch), "<p>" + lunch + "</p>", |Front(r)|)
    ensures InfixAt(Block(r, lunch), "<h2>" + r.name + "</h2>", |Opening(r)|)
  {
    InfixOfConcat(Front(r), Paragraph(lunch), Closing);
    InfixOfConcat(Opening(r), Heading(r), AfterHeading);
    InfixExtend(Front(r), Paragraph(lunch), Heading(r), |Opening(r)|);
    InfixExtend(Front(r) + Paragraph(lunch), Closing, Heading(r), |Opening(r)|);
  }

  /** The menu text can be read back from a fragment: different menus give
      different fragments. */
  lemma BlockInjective(r: Restaurant, x: string, y: string)
    requires Block(r, x) == Block(r, y)
    ensures x == y
  {
    var k := |Front(r)| + 3;
    assert |x| == |y|;
    assert x == Paragraph(x)[3..3 + |x|] == Block(r, x)[k..k + |x|];
    assert y == Paragraph(y)[3..3 + |y|] == Block(r, y)[k..k + |y|];
  }

  /** The menu text one restaurant gets on the day `today`. */
  function Lunch(r: Restaurant, today: Option<string>, web: Web): string
  {
    Extract.ExtractTodayMenu(today, RawText(r, web))
  }

  /** The fetch at the top of the loop body: `fetch_html_menu(r["url"])` for
      an HTML source, `fetch_rydbergs_pdf_text()` for the PDF source. */
  method FetchText(r: Restaurant, web: Web) returns (raw: string)
    ensures raw == RawText(r, web)
  {
    if r.kind == Html {
      raw := web.fetchHtml(r.url);
    } else {
      raw := Pdf.FetchPdfText(web.landingHrefs, web.download);
    }
  }

  /** The body of the `for r in RESTAURANTS` loop: fetch, extract today's
      menu, and fill in the fragment. */
  method BuildBlock(r: Restaurant, today: Option<string>, web: Web) returns (block: string)
    ensures block == Block(r, Lunch(r, today, web))
  {
    var raw := FetchText(r, web);
    var lunch := Extract.ExtractTodayMenu(today, raw);
    block := Block(r, lunch);
  }

  /** The `for r in RESTAURANTS` loop: one fragment per restaurant, in
      registry order, each made from that restaurant's own fetched text. */
  method BuildBlocks(restaurants: seq<Restaurant>, today: Option<string>, web: Web)
    returns (blocks: seq<string>)
    ensures |blocks| == |restaurants|
    ensures forall i :: 0 <= i < |restaurants| ==>
              blocks[i] == Block(restaurants[i], Lunch(restaurants[i], today, web))
  {
    blocks := [];
    for i := 0 to |restaurants|
      invariant |blocks| == i
      invariant forall k :: 0 <= k < i ==>
                  blocks[k] == Block(restaurants[k], Lunch(restaurants[k], today, web))
    {
      var block := BuildBlock(restaurants[i], today, web);
      blocks := blocks + [block];
    }
  }

  /** The registry lists the two HTML sources first and the PDF source last,
      under three different names. */
  lemma RegistryOrder()
    ensures |Restaurants| == 3
    ensures forall i :: 0 <= i < |Restaurants| ==> (Restaurants[i].kind == PdfLink <==> i == 2)
    ensures forall i, j :: 0 <= i < j < |Restaurants| ==> Restaurants[i].name != Restaurants[j].name
  {
  }

  /** The module-level loop over `RESTAURANTS`: three fragments, the two HTML
      sources from their own pages and the PDF source last, from the text of
      its menu document. */
  method BuildPage(today: Option<string>, web: Web) returns (blocks: seq<string>)
    ensures |blocks| == 3
    ensures forall i :: 0 <= i < 2 ==>
              blocks[i] == Block(Restaurants[i], Extract.ExtractTodayMenu(today, web.fetchHtml(Restaurants[i].url)))
    ensures blocks[2] == Block(Restaurants[2], Extract.ExtractTodayMenu(today, Pdf.PdfText(web.landingHrefs, web.download)))
  {
    RegistryOrder();
    blocks := BuildBlocks(Restaurants, today, web);
  }

  /** A restaurant whose fetch came back empty gets the no-menu message on a
      weekday. */
  lemma EmptyFetchStillRendered(r: Restaurant, index: int, web: Web)
    requires 0 <= index <= 4
    requires RawText(r, web) == ""
    ensures Lunch(r, Weekdays.WeekdayLabel(index), web) == Extract.NoMenuMessage
  {
    Extract.EmptyTextHasNoMenu(index);
  }

  /** When the landing page links to no PDF, the PDF source shows the
      no-menu message on every weekday. */
  lemma NoPdfLinkShowsNoMenu(r: Restaurant, index: int, web: Web)
    requires r.kind == PdfLink && 0 <= index <= 4
    requires forall k :: 0 <= k < |web.landingHrefs| ==> !Pdf.IsPdfHref(web.landingHrefs[k])
    ensures Lunch(r, Weekdays.WeekdayLabel(index), web) == Extract.NoMenuMessage
  {
    EmptyFetchStillRendered(r, index, web);
  }

  /** The day line of the page header: today's label, or a placeholder
      without the final full stop of the no-lunch message. */
  function DayHeading(today: Option<string>): (heading: string)
    ensures today.Some? && today.value != [] ==> heading == today.value
    ensures today.None? || today.value == [] ==> heading == "Ingen lunch idag"
  {
    if today.Some? && today.value != [] then today.value else "Ingen lunch idag"
  }

  /** The header names the weekday on a weekday and shows the placeholder on
      a weekend. */
  lemma DayHeadingOfWeekday(index: int)
    ensures 0 <= index <= 4 ==> DayHeading(Weekdays.WeekdayLabel(index)) == Extract.StopLabels[index]
    ensures !(0 <= index <= 4) ==> DayHeading(Weekdays.WeekdayLabel(index)) == "Ingen lunch idag"
  {
  }
}
