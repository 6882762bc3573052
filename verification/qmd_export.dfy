/** The defaults both exporters share: the project name and the author. */
module ExportDefaults {
  import opened Wrappers
  import opened Strings
  import opened Values
  import opened Config

  const DefaultProjectName: string := "Documentation"
  const DefaultAuthor: string := "Unknown Author"

  /** A top-level key is set to something other than null. */
  predicate IsSet(config: Value, key: string) {
    config.VMap? && Lookup(config.entries, key).Some? && Lookup(config.entries, key).value != VNull
  }

  /** `project_name or config.get('site_name', 'Documentation')`. */
  function ProjectName(config: Value, requested: Value): (r: Value)
    ensures Truthy(requested) ==> r == requested
    ensures !Truthy(requested) && IsSet(config, "site_name") ==> r == Lookup(config.entries, "site_name").value
    ensures !Truthy(requested) && !IsSet(config, "site_name") ==> r == VStr(DefaultProjectName)
  {
    GetSingle(config, "site_name", VStr(DefaultProjectName));
    Or(requested, Get(config, "site_name", VStr(DefaultProjectName)))
  }

  /** `config.get('author', 'Unknown Author')`, rendered. */
  function ConfiguredAuthor(config: Value): (r: string)
    ensures IsSet(config, "author") ==> r == Display(Lookup(config.entries, "author").value)
    ensures !IsSet(config, "author") ==> r == DefaultAuthor
  {
    GetSingle(config, "author", VStr(DefaultAuthor));
    Display(Get(config, "author", VStr(DefaultAuthor)))
  }

  /** `author or config.get('author', 'Unknown Author')`, rendered. */
  function AuthorText(config: Value, author: Value): (r: string)
    ensures Truthy(author) ==> r == Display(author)
    ensures !Truthy(author) ==> r == ConfiguredAuthor(config)
  {
    if Truthy(author) then Display(author) else ConfiguredAuthor(config)
  }
}

/** `QMDExporter`: Quarto Markdown export of one document or of the whole site. */
module QmdExport {
  import opened Wrappers
  import opened Strings
  import opened Values
  import opened Config
  import opened Navigation
  import opened ExportDefaults

  /** One collected document: its `title` and `markdown` entries, `None` when absent. */
  datatype DocData = DocData(title: Option<string>, markdown: Option<string>)

  // ---------------------------------------------------------------------------
  // Front-matter removal
  // ---------------------------------------------------------------------------

  /** The text opens with `---` and has a second `---` after that. */
  predicate HasFrontMatter(text: string) {
    StartsWith(text, "---") && Contains(text[3..], "---")
  }

  /** What follows the second `---` of a text with front matter. */
  function AfterFrontMatter(text: string): (r: string)
    requires HasFrontMatter(text)
    ensures |r| + 6 <= |text| && EndsWith(text, r)
  {
    var i := FindFrom(text[3..], "---", 0).value;
    text[3 + i + 3..]
  }

  /** `_clean_markdown_content`: a leading front-matter block is dropped and
      what follows it is stripped; any other text is returned unchanged. */
  function CleanMarkdown(text: string): (r: string)
    ensures !HasFrontMatter(text) ==> r == text
    ensures HasFrontMatter(text) ==> r == Strip(AfterFrontMatter(text))
  {
    if StartsWith(text, "---") then
      var parts := SplitN(text, "---", 2);
      SplitLeadingDelimiter(text);
      if |parts| >= 3 then Strip(parts[2]) else text
    else text
  }

  /** Removing a block leaves a strictly shorter piece of the text. */
  lemma CleanShortens(text: string)
    requires HasFrontMatter(text)
    ensures |CleanMarkdown(text)| + 6 <= |text|
    ensures exists i :: OccursAt(text, CleanMarkdown(text), i)
  {
    var tail := AfterFrontMatter(text);
    StrippedSuffix(text, tail);
  }

  lemma StrippedSuffix(text: string, tail: string)
    requires EndsWith(text, tail)
    ensures |Strip(tail)| <= |tail|
    ensures exists i :: OccursAt(text, Strip(tail), i)
  {
    OccursInSuffix(text, tail, Strip(tail), StripStart(tail));
  }

  /** How `split('---', 2)` cuts a text that opens with `---`. */
  lemma SplitLeadingDelimiter(text: string)
    requires StartsWith(text, "---")
    ensures Contains(text[3..], "---") <==> |SplitN(text, "---", 2)| == 3
    ensures Contains(text[3..], "---") ==> SplitN(text, "---", 2)[2] == AfterFrontMatter(text)
  {
    assert OccursAt(text, "---", 0);
    var rest := text[3..];
    assert SplitN(text, "---", 2) == [text[..0]] + SplitN(rest, "---", 1);
    match FindFrom(rest, "---", 0)
    case None =>
      assert SplitN(rest, "---", 1) == [rest];
    case Some(i) =>
      assert SplitN(rest, "---", 1) == [rest[..i]] + SplitN(rest[i + 3..], "---", 0);
      assert rest[i + 3..] == text[3 + i + 3..];
  }

  /** A text that does not open with `---` passes through. */
  lemma CleanKeepsPlainText(text: string)
    requires !StartsWith(text, "---")
    ensures CleanMarkdown(text) == text
  {
  }

  /** A block `---meta---body`, where the first `---` after the opening one
      closes the block, leaves the stripped body. */
  lemma CleanDropsBlock(meta: string, body: string)
    requires !Contains(meta + "--", "---")
    ensures CleanMarkdown("---" + meta + "---" + body) == Strip(body)
  {
    var d := "---";
    var text := d + meta + d + body;
    BlockPieces(d, meta, body);
    FirstDelimiterAfter(meta, body);
    assert AfterFrontMatter(text) == body;
  }

  // ---------------------------------------------------------------------------
  // Front matter
  // ---------------------------------------------------------------------------

  /** The fixed render options under the output format. */
  const FormatOptions: string :=
    "    documentclass: article\n    papersize: a4\n    geometry:\n      - margin=2.5cm\n"
    + "    toc: true\n    toc-depth: 3\n    toc-title: \"Table of Contents\"\n"
    + "    number-sections: true\n    colorlinks: true\n    linkcolor: blue\n    urlcolor: blue\n"
    + "    fig-pos: 'h'\n    code-block-bg: true\n    code-block-border-left: true\n"
    + "    highlight-style: github\n"

  /** The header's first field. */
  function TitleLine(title: string): string {
    "title: \"" + title + "\"\n"
  }

  /** The header's remaining fields and the output options. */
  function HeaderFields(author: string, date: string, formatType: string): string {
    "subtitle: \"Documentation\"\nauthor: \"" + author + "\"\ndate: \"" + date + "\"\nformat:\n  "
    + formatType + ":\n" + FormatOptions
  }

  /** The Quarto header with its four interpolated fields. */
  function FrontMatterText(title: string, author: string, date: string, formatType: string): string {
    "---\n" + TitleLine(title) + HeaderFields(author, date, formatType) + "---\n\n"
  }

  /** The header is a `---` block whose first field is the title. */
  lemma FrontMatterLayout(title: string, author: string, date: string, formatType: string)
    ensures StartsWith(FrontMatterText(title, author, date, formatType), "---\n")
    ensures EndsWith(FrontMatterText(title, author, date, formatType), "---\n\n")
    ensures OccursAt(FrontMatterText(title, author, date, formatType), TitleLine(title), 4)
    ensures OccursAt(FrontMatterText(title, author, date, formatType), HeaderFields(author, date, formatType),
                     4 + |TitleLine(title)|)
  {
    var open, fields := "---\n", HeaderFields(author, date, formatType);
    ConcatParts(open, TitleLine(title), fields, "---\n\n");
    var text := open + TitleLine(title) + fields + "---\n\n";
    assert (open + TitleLine(title) + fields)[..4] == open;
    assert text[4 + |TitleLine(title)|..4 + |TitleLine(title)| + |fields|] == fields;
  }

  /** `_generate_yaml_frontmatter(project_name, author, date, format_type)`;
      `today` stands for the current date. */
  function FrontMatter(config: Value, projectName: Value, author: Value, date: Value, formatType: string, today: string): (r: string)
    ensures StartsWith(r, "---\n") && EndsWith(r, "---\n\n")
    ensures OccursAt(r, TitleLine(Display(projectName)), 4)
    ensures OccursAt(r, HeaderFields(AuthorText(config, author), Display(Or(date, VStr(today))), formatType),
                     4 + |TitleLine(Display(projectName))|)
    ensures |r| == 4 + |TitleLine(Display(projectName))|
                   + |HeaderFields(AuthorText(config, author), Display(Or(date, VStr(today))), formatType)| + 5
  {
    var author, date := AuthorText(config, author), Display(Or(date, VStr(today)));
    FrontMatterLayout(Display(projectName), author, date, formatType);
    FrontMatterText(Display(projectName), author, date, formatType)
  }

  /** Without an author argument the header names the configured author, or
      `Unknown Author`; without a date it carries today's. */
  lemma FrontMatterDefaults(config: Value, projectName: Value, formatType: string, today: string)
    ensures IsSet(config, "author") ==>
      FrontMatter(config, projectName, VNull, VNull, formatType, today)
      == FrontMatterText(Display(projectName), Display(Lookup(config.entries, "author").value), today, formatType)
    ensures !IsSet(config, "author") ==>
      FrontMatter(config, projectName, VNull, VNull, formatType, today)
      == FrontMatterText(Display(projectName), DefaultAuthor, today, formatType)
  {
  }

  // ---------------------------------------------------------------------------
  // Single document
  // ---------------------------------------------------------------------------

  const DocumentTrailer: string :=
    "\n<!-- \nTo render this document to PDF:\n  quarto render document.qmd --to pdf\n\n"
    + "To render to HTML:\n  quarto render document.qmd --to html\n\n"
    + "To render to Word:\n  quarto render document.qmd --to docx\n-->\n"

  /** The header title of a single-document export. */
  function DocumentTitle(config: Value, title: Value, projectName: Value): Value {
    Or(title, ProjectName(config, projectName))
  }

  /** The cleaned document between two line breaks. */
  function DocumentBody(markdown: string): string {
    "\n" + CleanMarkdown(markdown) + "\n\n"
  }

  /** `export_document`. */
  function ExportDocument(config: Value, markdown: string, title: Value, projectName: Value, today: string): (r: string)
    ensures StartsWith(r, "---\n")
    ensures OccursAt(r, TitleLine(Display(DocumentTitle(config, title, projectName))), 4)
    ensures EndsWith(r, DocumentBody(markdown) + DocumentTrailer)
  {
    var fm := FrontMatter(config, DocumentTitle(config, title, projectName), VNull, VNull, "pdf", today);
    var body, trailer := DocumentBody(markdown), DocumentTrailer;
    Opened(fm, body, trailer, "---\n", TitleLine(Display(DocumentTitle(config, title, projectName))), 4);
    fm + body + trailer
  }

  /** A text `head + body + tail` keeps `head`'s opening and occurrences and
      ends with `body + tail`. */
  lemma Opened(head: string, body: string, tail: string, open: string, sub: string, i: int)
    requires StartsWith(head, open) && OccursAt(head, sub, i)
    ensures StartsWith(head + body + tail, open)
    ensures OccursAt(head + body + tail, sub, i)
    ensures EndsWith(head + body + tail, body + tail)
  {
    assert head + body + tail == head + (body + tail);
    assert (head + (body + tail))[..|open|] == head[..|open|];
    OccursInPrefix(head, body + tail, sub, i);
    ConcatEnds(head, body + tail);
  }

  /** A single-document export is the front matter, the cleaned text between
      line breaks and the rendering notes, and its header names the document
      title, else the project name, else the site name, else `Documentation`. */
  lemma ExportDocumentLayout(config: Value, markdown: string, title: Value, projectName: Value, today: string)
    ensures var shown := if Truthy(title) then title
                         else if Truthy(projectName) then projectName
                         else if IsSet(config, "site_name") then Lookup(config.entries, "site_name").value
                         else VStr(DefaultProjectName);
      var fm := FrontMatter(config, shown, VNull, VNull, "pdf", today);
      var r := ExportDocument(config, markdown, title, projectName, today);
      && r == fm + DocumentBody(markdown) + DocumentTrailer
      && StartsWith(r, fm + DocumentBody(markdown))
      && EndsWith(r, DocumentTrailer)
      && OccursAt(r, TitleLine(Display(shown)), 4)
  {
    ShownTitle(config, title, projectName);
    DocumentParts(config, markdown, title, projectName, today);
  }

  /** The parts of a single-document export, with its title still unresolved. */
  lemma DocumentParts(config: Value, markdown: string, title: Value, projectName: Value, today: string)
    ensures var shown := DocumentTitle(config, title, projectName);
      var fm := FrontMatter(config, shown, VNull, VNull, "pdf", today);
      var r := ExportDocument(config, markdown, title, projectName, today);
      && r == fm + DocumentBody(markdown) + DocumentTrailer
      && StartsWith(r, fm + DocumentBody(markdown))
      && EndsWith(r, DocumentTrailer)
      && OccursAt(r, TitleLine(Display(shown)), 4)
  {
    var shown := DocumentTitle(config, title, projectName);
    var fm := FrontMatter(config, shown, VNull, VNull, "pdf", today);
    var body, trailer := DocumentBody(markdown), DocumentTrailer;
    assert ExportDocument(config, markdown, title, projectName, today) == fm + body + trailer;
    Framed(fm, body, trailer, TitleLine(Display(shown)), 4);
  }

  /** The title chain of a single-document export. */
  lemma ShownTitle(config: Value, title: Value, projectName: Value)
    ensures DocumentTitle(config, title, projectName)
         == if Truthy(title) then title
            else if Truthy(projectName) then projectName
            else if IsSet(config, "site_name") then Lookup(config.entries, "site_name").value
            else VStr(DefaultProjectName)
  {
  }

  /** A text `head + body + tail` keeps `head`'s occurrences. */
  lemma Framed(head: string, body: string, tail: string, sub: string, i: int)
    requires OccursAt(head, sub, i)
    ensures StartsWith(head + body + tail, head + body)
    ensures EndsWith(head + body + tail, tail)
    ensures OccursAt(head + body + tail, sub, i)
  {
    ConcatEnds(head + body, tail);
    OccursInPrefix(head, body + tail, sub, i);
    assert head + (body + tail) == head + body + tail;
  }

  // ---------------------------------------------------------------------------
  // All documents
  // ---------------------------------------------------------------------------

  const AllTrailer: string :=
    "\n<!-- \nTo render this document to PDF:\n  quarto render documentation.qmd --to pdf\n\n"
    + "To render to HTML:\n  quarto render documentation.qmd --to html\n\n"
    + "To render to Word:\n  quarto render documentation.qmd --to docx\n\n"
    + "For more information about Quarto, visit: https://quarto.org\n-->\n"

  /** The heading title of document `i`: its own, else `Section <i+1>`. */
  function SectionTitle(d: DocData, i: nat): string {
    d.title.GetOr("Section " + NatToString(i + 1))
  }

  /** The heading before document `i`: none before the first. */
  function Heading(d: DocData, i: nat): string {
    if i > 0 then "\n\n# " + SectionTitle(d, i) + "\n\n" else ""
  }

  /** A document's cleaned text and a blank line. */
  function PartText(d: DocData): string {
    CleanMarkdown(d.markdown.GetOr("")) + "\n\n"
  }

  /** Document `i`'s contribution. */
  function Part(d: DocData, i: nat): string {
    Heading(d, i) + PartText(d)
  }

  /** Every document but the first opens with a `# title` heading, the title
      defaulting to `Section <i+1>`; every document ends with its cleaned
      text and a blank line. */
  lemma PartLayout(d: DocData, i: nat)
    ensures i == 0 ==> Part(d, i) == CleanMarkdown(d.markdown.GetOr("")) + "\n\n"
    ensures i > 0 && d.title.Some? ==> StartsWith(Part(d, i), "\n\n# " + d.title.value + "\n\n")
    ensures i > 0 && d.title.None? ==> StartsWith(Part(d, i), "\n\n# Section " + NatToString(i + 1) + "\n\n")
    ensures EndsWith(Part(d, i), CleanMarkdown(d.markdown.GetOr("")) + "\n\n")
  {
    ConcatEnds(Heading(d, i), PartText(d));
    if i > 0 && d.title.None? {
      Regroup3("\n\n# ", "Section ", NatToString(i + 1), "\n\n");
    }
  }

  /** The parts of the documents, in order. */
  function Body(docs: seq<DocData>): string {
    Joined(docs, Part)
  }

  /** The front matter, a line break, the body and the rendering notes. */
  function Assembled(fm: string, body: string): string {
    fm + "\n" + body + AllTrailer
  }

  /** The whole export, as `export_all_documents` assembles it. */
  function AllDocumentsText(config: Value, docs: seq<DocData>, projectName: Value, today: string): string {
    Assembled(FrontMatter(config, ProjectName(config, projectName), VNull, VNull, "pdf", today), Body(docs))
  }

  /** The loop of `export_all_documents`: the parts, document by document. */
  method CollectParts(docs: seq<DocData>) returns (body: string)
    ensures body == Body(docs)
  {
    body := "";
    var i := 0;
    while i < |docs|
      invariant 0 <= i <= |docs|
      invariant body == Body(docs[..i])
    {
      JoinedNext(docs, i, Part);
      body := body + Part(docs[i], i);
      i := i + 1;
    }
    assert docs[..|docs|] == docs;
  }

  /** `export_all_documents`: the navigation list is accepted and unused. */
  method ExportAllDocuments(config: Value, docs: seq<DocData>, nav: seq<NavEntry>, projectName: Value, today: string)
    returns (r: string)
    ensures r == AllDocumentsText(config, docs, projectName, today)
  {
    var body := CollectParts(docs);
    r := Assembled(FrontMatter(config, ProjectName(config, projectName), VNull, VNull, "pdf", today), body);
  }

  /** No documents still give a file: the front matter, a blank line and the notes. */
  lemma ExportAllEmpty(config: Value, projectName: Value, today: string)
    ensures AllDocumentsText(config, [], projectName, today)
         == FrontMatter(config, ProjectName(config, projectName), VNull, VNull, "pdf", today) + "\n" + AllTrailer
  {
    var fm := FrontMatter(config, ProjectName(config, projectName), VNull, VNull, "pdf", today);
    assert Body([]) == "";
    EmptyMiddle(fm + "\n", AllTrailer);
  }

  /** A proof step only: an empty piece drops out of a concatenation. */
  lemma EmptyMiddle(a: string, b: string)
    ensures a + "" + b == a + b
  {
  }

  /** The body opens with the first document's cleaned text, with no heading. */
  lemma BodyStartsWithFirst(docs: seq<DocData>)
    requires |docs| > 0
    ensures StartsWith(Body(docs), Part(docs[0], 0))
  {
    JoinedPlaces(docs, Part, 0);
    assert docs[..0] == [];
  }

  /** Appending a document appends its part: the parts appear in document
      order, each exactly once. */
  lemma BodySnoc(docs: seq<DocData>, d: DocData)
    ensures Body(docs + [d]) == Body(docs) + Part(d, |docs|)
  {
    JoinedSnoc(docs, d, Part);
  }

  /** Document `k`'s part follows the parts of the documents before it. */
  lemma BodyPlaces(docs: seq<DocData>, k: nat)
    requires k < |docs|
    ensures OccursAt(Body(docs), Part(docs[k], k), |Body(docs[..k])|)
  {
    JoinedPlaces(docs, Part, k);
  }

  /** The body of one document is its cleaned text and a blank line. */
  lemma BodySingle(d: DocData)
    ensures Body([d]) == CleanMarkdown(d.markdown.GetOr("")) + "\n\n"
  {
    JoinedSnoc([], d, Part);
    assert [] + [d] == [d];
    PartLayout(d, 0);
  }

  /** Assembling one document's body gives the front matter, the cleaned
      text between line breaks, and the notes. */
  lemma AssembledSingle(fm: string, md: string)
    ensures Assembled(fm, Body([DocData(None, Some(md))])) == fm + DocumentBody(md) + AllTrailer
  {
    var clean := CleanMarkdown(md);
    BodySingle(DocData(None, Some(md)));
    Regroup(fm, "\n", clean, "\n\n", AllTrailer);
  }

  /** The export of one document is its front matter, the cleaned text
      between line breaks, and the notes. */
  lemma OneDocumentText(config: Value, md: string, projectName: Value, today: string)
    ensures AllDocumentsText(config, [DocData(None, Some(md))], projectName, today)
         == FrontMatter(config, ProjectName(config, projectName), VNull, VNull, "pdf", today) + DocumentBody(md) + AllTrailer
  {
    AssembledSingle(FrontMatter(config, ProjectName(config, projectName), VNull, VNull, "pdf", today), md);
  }

  /** A single-document export without a title and an export of that one
      document differ only in their rendering notes. */
  lemma SingleDocumentAgrees(config: Value, md: string, projectName: Value, today: string)
    ensures var fm := FrontMatter(config, ProjectName(config, projectName), VNull, VNull, "pdf", today);
      && ExportDocument(config, md, VNull, projectName, today) == fm + DocumentBody(md) + DocumentTrailer
      && AllDocumentsText(config, [DocData(None, Some(md))], projectName, today) == fm + DocumentBody(md) + AllTrailer
  {
    assert DocumentTitle(config, VNull, projectName) == ProjectName(config, projectName);
    OneDocumentText(config, md, projectName, today);
  }

  // ---------------------------------------------------------------------------
  // Quarto book project
  // ---------------------------------------------------------------------------

  /** The file name of chapter `n` (counting from 1). */
  function ChapterFile(n: nat): string {
    "chapter_" + NatToString(n) + ".qmd"
  }

  /** Different chapters get different files. */
  lemma ChapterFilesDistinct(a: nat, b: nat)
    requires a != b
    ensures ChapterFile(a) != ChapterFile(b)
  {
    if ChapterFile(a) == ChapterFile(b) {
      var fa := ChapterFile(a);
      assert fa[8..|fa| - 4] == NatToString(a);
      assert ChapterFile(b)[8..|ChapterFile(b)| - 4] == NatToString(b);
      NatToStringInjective(a, b);
    }
  }

  /** The `_quarto.yml` line of the navigation item at position `i`: the
      item itself only decides how many lines there are. */
  function ChapterLine(e: NavEntry, i: nat): string {
    "    - " + ChapterFile(i + 1) + "\n"
  }

  /** The chapter lines, one per navigation item, in order. */
  function Chapters(nav: seq<NavEntry>): string {
    Joined(nav, ChapterLine)
  }

  /** The chapter loop of `create_quarto_project`. */
  method CollectChapters(nav: seq<NavEntry>) returns (lines: string)
    ensures lines == Chapters(nav)
  {
    lines := "";
    var i := 0;
    while i < |nav|
      invariant 0 <= i <= |nav|
      invariant lines == Chapters(nav[..i])
    {
      JoinedNext(nav, i, ChapterLine);
      lines := lines + ChapterLine(nav[i], i);
      i := i + 1;
    }
    assert nav[..|nav|] == nav;
  }

  /** The navigation item at position `k` gets the line naming
      `chapter_<k+1>.qmd`, right after the lines of the items before it. */
  lemma ChaptersInOrder(nav: seq<NavEntry>, k: nat)
    requires k < |nav|
    ensures OccursAt(Chapters(nav), "    - " + ChapterFile(k + 1) + "\n", |Chapters(nav[..k])|)
  {
    JoinedPlaces(nav, ChapterLine, k);
  }

  const BookFormats: string :=
    "\nformat:\n  html:\n    theme: cosmo\n    toc: true\n  pdf:\n    documentclass: book\n    toc: true\n"

  /** `_quarto.yml` and the chapters of the book. */
  datatype QuartoProject = QuartoProject(config: string, chapters: seq<DocData>)

  function BookHeader(title: string, author: string, date: string): string {
    "project:\n  type: book\n  output-dir: _output\n\nbook:\n  title: \"" + title + "\"\n  author: \""
    + author + "\"\n  date: \"" + date + "\"\n  chapters:\n"
  }

  /** `create_quarto_project`: one chapter entry per navigation entry, and
      the documents passed through as they are. */
  function CreateQuartoProject(config: Value, docs: seq<DocData>, nav: seq<NavEntry>, projectName: Value, today: string): (r: QuartoProject)
    ensures r.chapters == docs
    ensures var header := BookHeader(Display(ProjectName(config, projectName)), ConfiguredAuthor(config), today);
      && StartsWith(r.config, header)
      && OccursAt(r.config, Chapters(nav), |header|)
      && EndsWith(r.config, BookFormats)
      && |r.config| == |header| + |Chapters(nav)| + |BookFormats|
  {
    var header := BookHeader(Display(ProjectName(config, projectName)), ConfiguredAuthor(config), today);
    ConcatThree(header, Chapters(nav), BookFormats);
    QuartoProject(header + Chapters(nav) + BookFormats, docs)
  }
}
