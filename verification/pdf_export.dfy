/** `PDFExporter`: the HTML page a PDF export hands to the renderer. The
    renderer itself (WeasyPrint), the stylesheet it is given and the PDF
    bytes it writes are outside the model; `available` says whether the
    renderer could be imported. */
module PdfExport {
  import opened Wrappers
  import opened Strings
  import opened Values
  import opened ExportDefaults

  // ---------------------------------------------------------------------------
  // Page frame and cover
  // ---------------------------------------------------------------------------

  const HeadOpen: string :=
    "\n        <!DOCTYPE html>\n        <html>\n        <head>\n            <meta charset=\"UTF-8\">\n            <title>"
  const HeadClose: string := "</title>\n        </head>\n        <body>\n        "
  const PageEnd: string := "\n        </body>\n        </html>\n        "

  /** The document head, titled with the project name, and the opening body tag. */
  function Head(name: string): string {
    HeadOpen + name + HeadClose
  }

  const CoverTitleOpen: string :=
    "\n        <div class=\"pdf-cover\">\n            <div class=\"pdf-cover-content\">\n"
    + "                <h1 class=\"pdf-title\">"
  const CoverAuthorOpen: string :=
    "</h1>\n                <div class=\"pdf-subtitle\">Documentation</div>\n"
    + "                <div class=\"pdf-metadata\">\n                    <p class=\"pdf-author\">By "
  const CoverDateOpen: string := "</p>\n                    <p class=\"pdf-date\">"
  const CoverClose: string :=
    "</p>\n                </div>\n            </div>\n        </div>\n"
    + "        <div style=\"page-break-after: always;\"></div>\n        "

  /** The cover with its three interpolated fields. */
  function CoverText(name: string, author: string, date: string): string {
    CoverTitleOpen + name + CoverAuthorOpen + author + CoverDateOpen + date + CoverClose
  }

  /** `_generate_cover_page(project_name, author, date)`; `today` stands for
      the current date as `strftime('%B %d, %Y')` formats it. */
  function CoverPage(config: Value, name: string, author: Value, date: Value, today: string): (r: string)
    ensures StartsWith(r, CoverTitleOpen + name + CoverAuthorOpen)
    ensures OccursAt(r, AuthorText(config, author) + CoverDateOpen, |CoverTitleOpen + name + CoverAuthorOpen|)
    ensures EndsWith(r, CoverDateOpen + Display(Or(date, VStr(today))) + CoverClose)
    ensures |r| == |CoverTitleOpen + name + CoverAuthorOpen| + |AuthorText(config, author)|
                   + |CoverDateOpen + Display(Or(date, VStr(today))) + CoverClose|
  {
    var shown := AuthorText(config, author);
    var day := Display(Or(date, VStr(today)));
    CoverPieces(CoverTitleOpen, name, CoverAuthorOpen, shown, CoverDateOpen, day, CoverClose);
    CoverText(name, shown, day)
  }

  /** Where the fields of a cover sit: title, author and date, each after its tag. */
  lemma CoverPieces(t: string, n: string, a: string, w: string, o: string, d: string, c: string)
    ensures StartsWith(t + n + a + w + o + d + c, t + n + a)
    ensures OccursAt(t + n + a + w + o + d + c, w + o, |t + n + a|)
    ensures EndsWith(t + n + a + w + o + d + c, o + d + c)
    ensures |t + n + a + w + o + d + c| == |t + n + a| + |w| + |o + d + c|
  {
    var p := t + n + a + w + o + d + c;
    assert p == (t + n + a) + (w + o) + (d + c);
    assert p[..|t + n + a|] == t + n + a;
    assert p[|t + n + a|..|t + n + a| + |w + o|] == w + o;
    assert p == (t + n + a) + w + (o + d + c);
    assert p[|p| - |o + d + c|..] == o + d + c;
  }

  /** Without an author argument the cover names the configured author, or
      `Unknown Author`; without a date it carries today's. */
  lemma CoverPageDefaults(config: Value, name: string, today: string)
    ensures IsSet(config, "author") ==>
      CoverPage(config, name, VNull, VNull, today)
      == CoverText(name, Display(Lookup(config.entries, "author").value), today)
    ensures !IsSet(config, "author") ==>
      CoverPage(config, name, VNull, VNull, today) == CoverText(name, DefaultAuthor, today)
  {
  }

  /** A page: head, cover, what the export puts in between, and the closing tags. */
  function Page(name: string, cover: string, middle: string): string {
    Head(name) + cover + middle + PageEnd
  }

  lemma PageLayout(name: string, cover: string, middle: string)
    ensures StartsWith(Page(name, cover, middle), Head(name) + cover)
    ensures OccursAt(Page(name, cover, middle), middle, |Head(name) + cover|)
    ensures EndsWith(Page(name, cover, middle), PageEnd)
  {
    ConcatParts(Head(name), cover, middle, PageEnd);
    var p := Head(name) + cover + middle + PageEnd;
    assert p[..|Head(name) + cover|] == Head(name) + cover;
    assert p[|Head(name) + cover|..|Head(name) + cover| + |middle|] == middle;
  }

  // ---------------------------------------------------------------------------
  // Table of contents
  // ---------------------------------------------------------------------------

  const TocOpen: string :=
    "\n        <div class=\"pdf-toc\">\n            <h2 class=\"pdf-toc-title\">Table of Contents</h2>\n"
    + "            <ul class=\"pdf-toc-list\">\n        "
  const TocClose: string :=
    "\n            </ul>\n        </div>\n        <div style=\"page-break-after: always;\"></div>\n        "

  /** One list item: the navigation item's title, or `Untitled` when it has none. */
  function TocItem(title: Option<string>, i: nat): string {
    "<li class=\"pdf-toc-item\">" + title.GetOr("Untitled") + "</li>\n"
  }

  /** The list items of the navigation, in navigation order. */
  function TocItems(titles: seq<Option<string>>): string {
    Joined(titles, TocItem)
  }

  /** The loop of `_generate_toc`. */
  method GenerateToc(titles: seq<Option<string>>) returns (toc: string)
    ensures toc == TocOpen + TocItems(titles) + TocClose
  {
    var items := "";
    var i := 0;
    while i < |titles|
      invariant 0 <= i <= |titles|
      invariant items == TocItems(titles[..i])
    {
      JoinedNext(titles, i, TocItem);
      items := items + TocItem(titles[i], i);
      i := i + 1;
    }
    assert titles[..|titles|] == titles;
    toc := TocOpen + items + TocClose;
  }

  /** Every navigation item is listed, in order: item `k` sits right after
      the items before it. */
  lemma TocListsEveryItem(titles: seq<Option<string>>, k: nat)
    requires k < |titles|
    ensures OccursAt(TocItems(titles), TocItem(titles[k], k), |TocItems(titles[..k])|)
  {
    JoinedPlaces(titles, TocItem, k);
  }

  // ---------------------------------------------------------------------------
  // Document sections
  // ---------------------------------------------------------------------------

  /** Every document but the first starts a new page. */
  function SectionClass(i: nat): string {
    if i > 0 then "pdf-doc-section" else ""
  }

  function Section(html: string, i: nat): string {
    "<div class=\"" + SectionClass(i) + "\">" + html + "</div>"
  }

  /** The rendered documents, each in its section, in order. */
  function Sections(htmls: seq<string>): string {
    Joined(htmls, Section)
  }

  /** The loop of `export_all_documents`. */
  method CollectSections(htmls: seq<string>) returns (s: string)
    ensures s == Sections(htmls)
  {
    s := "";
    var i := 0;
    while i < |htmls|
      invariant 0 <= i <= |htmls|
      invariant s == Sections(htmls[..i])
    {
      JoinedNext(htmls, i, Section);
      s := s + Section(htmls[i], i);
      i := i + 1;
    }
    assert htmls[..|htmls|] == htmls;
  }

  /** Every document appears, in order, wrapped in its section (the first
      without a class, every later one as a `pdf-doc-section`) right after
      the sections before it. */
  lemma SectionsInOrder(htmls: seq<string>, k: nat)
    requires k < |htmls|
    ensures OccursAt(Sections(htmls), Section(htmls[k], k), |Sections(htmls[..k])|)
    ensures k == 0 ==> |Sections(htmls[..k])| == 0
  {
    JoinedPlaces(htmls, Section, k);
    assert htmls[..0] == [];
  }

  // ---------------------------------------------------------------------------
  // Exports
  // ---------------------------------------------------------------------------

  /** `RuntimeError` from the explicit availability check, or the `NameError`
      of calling a renderer that was never imported. */
  datatype PdfError = RendererUnavailable | UndefinedRenderer

  /** The fixed contents block of a single-document export. */
  const ContentsBlock: string :=
    "\n        <div class=\"pdf-toc\">\n            <h2 class=\"pdf-toc-title\">Contents</h2>\n        </div>\n"
    + "        <div style=\"page-break-after: always;\"></div>\n        "

  const ContentOpen: string := "<div class=\"pdf-content\">"

  /** The project name as the page shows it. */
  function PageName(config: Value, requested: Value): string {
    Display(ProjectName(config, requested))
  }

  /** The page `export_document` renders. */
  function DocumentPage(config: Value, html: string, requested: Value, today: string): string {
    var name := PageName(config, requested);
    Page(name, CoverPage(config, name, VNull, VNull, today), ContentsBlock + ContentOpen + html + "</div>")
  }

  /** `export_document`: the renderer is checked for before it is used. */
  function ExportDocument(config: Value, html: string, requested: Value, today: string, available: bool)
    : (r: Result<string, PdfError>)
    ensures r.Failure? <==> !available
    ensures r.Failure? ==> r.error == RendererUnavailable
    ensures r.Success? ==>
      var name := PageName(config, requested);
      var opening := Head(name) + CoverPage(config, name, VNull, VNull, today) + ContentsBlock;
      && StartsWith(r.value, opening)
      && OccursAt(r.value, ContentOpen + html + "</div>", |opening|)
      && EndsWith(r.value, ContentOpen + html + "</div>" + PageEnd)
      && |r.value| == |opening| + |ContentOpen + html + "</div>"| + |PageEnd|
  {
    if !available then Failure(RendererUnavailable)
    else
      var name := PageName(config, requested);
      var cover := CoverPage(config, name, VNull, VNull, today);
      DocumentPageLayout(name, cover, html);
      Success(DocumentPage(config, html, requested, today))
  }

  lemma DocumentPageLayout(name: string, cover: string, html: string)
    ensures var page := Page(name, cover, ContentsBlock + ContentOpen + html + "</div>");
      var opening := Head(name) + cover + ContentsBlock;
      && StartsWith(page, opening)
      && OccursAt(page, ContentOpen + html + "</div>", |opening|)
      && EndsWith(page, ContentOpen + html + "</div>" + PageEnd)
      && |page| == |opening| + |ContentOpen + html + "</div>"| + |PageEnd|
  {
    Nested(Head(name), cover, ContentsBlock, ContentOpen, html, "</div>", PageEnd);
  }

  /** Where the parts of a page whose middle has four parts sit. */
  lemma Nested(h: string, c: string, b: string, o: string, x: string, d: string, e: string)
    ensures StartsWith(h + c + (b + o + x + d) + e, h + c + b)
    ensures OccursAt(h + c + (b + o + x + d) + e, o + x + d, |h + c + b|)
    ensures EndsWith(h + c + (b + o + x + d) + e, o + x + d + e)
    ensures |h + c + (b + o + x + d) + e| == |h + c + b| + |o + x + d| + |e|
  {
    var p := h + c + (b + o + x + d) + e;
    assert p == (h + c + b) + (o + x + d) + e;
    assert p[..|h + c + b|] == h + c + b;
    assert p[|h + c + b|..|h + c + b| + |o + x + d|] == o + x + d;
    assert p[|p| - |o + x + d + e|..] == o + x + d + e;
  }

  /** The page `export_all_documents` renders. */
  function AllDocumentsPage(config: Value, htmls: seq<string>, titles: seq<Option<string>>, requested: Value, today: string): string {
    var name := PageName(config, requested);
    Page(name, CoverPage(config, name, VNull, VNull, today),
         TocOpen + TocItems(titles) + TocClose + ContentOpen + Sections(htmls) + "</div>")
  }

  /** `export_all_documents` as written: the availability check it would need
      sits inside the stylesheet's string literal, so without the renderer
      the call to it fails on an undefined name. */
  function ExportAllDocumentsAsWritten(config: Value, htmls: seq<string>, titles: seq<Option<string>>,
                                       requested: Value, today: string, available: bool)
    : (r: Result<string, PdfError>)
    ensures r.Failure? <==> !available
    ensures r.Failure? ==> r.error == UndefinedRenderer
    ensures r.Success? ==> r.value == AllDocumentsPage(config, htmls, titles, requested, today)
  {
    if !available then Failure(UndefinedRenderer)
    else Success(AllDocumentsPage(config, htmls, titles, requested, today))
  }

  /** `export_all_documents` with the check `export_document` makes. */
  function ExportAllDocuments(config: Value, htmls: seq<string>, titles: seq<Option<string>>,
                              requested: Value, today: string, available: bool)
    : (r: Result<string, PdfError>)
    ensures r.Failure? <==> !available
    ensures r.Failure? ==> r.error == RendererUnavailable
    ensures r.Success? ==> r.value == AllDocumentsPage(config, htmls, titles, requested, today)
  {
    if !available then Failure(RendererUnavailable)
    else Success(AllDocumentsPage(config, htmls, titles, requested, today))
  }

  /** Without the renderer the two exports fail differently as written, and
      alike once the check is in place; with it, nothing changes. */
  lemma MissingRendererErrors(config: Value, html: string, htmls: seq<string>, titles: seq<Option<string>>,
                              requested: Value, today: string, available: bool)
    ensures !available ==>
      && ExportDocument(config, html, requested, today, available).error == RendererUnavailable
      && ExportAllDocumentsAsWritten(config, htmls, titles, requested, today, available).error == UndefinedRenderer
      && ExportAllDocuments(config, htmls, titles, requested, today, available).error
         == ExportDocument(config, html, requested, today, available).error
    ensures available ==>
      ExportAllDocuments(config, htmls, titles, requested, today, available)
      == ExportAllDocumentsAsWritten(config, htmls, titles, requested, today, available)
  {
  }

  /** Both exports open with the same head and cover and close the same way. */
  lemma ExportsShareFrame(config: Value, html: string, htmls: seq<string>, titles: seq<Option<string>>,
                          requested: Value, today: string)
    ensures var name := PageName(config, requested);
      var opening := Head(name) + CoverPage(config, name, VNull, VNull, today);
      && StartsWith(DocumentPage(config, html, requested, today), opening)
      && StartsWith(AllDocumentsPage(config, htmls, titles, requested, today), opening)
      && EndsWith(DocumentPage(config, html, requested, today), PageEnd)
      && EndsWith(AllDocumentsPage(config, htmls, titles, requested, today), PageEnd)
  {
    var name := PageName(config, requested);
    var cover := CoverPage(config, name, VNull, VNull, today);
    PageLayout(name, cover, ContentsBlock + ContentOpen + html + "</div>");
    PageLayout(name, cover, TocOpen + TocItems(titles) + TocClose + ContentOpen + Sections(htmls) + "</div>");
  }
}
