# ncmds site assembly in Dafny

This project models the site-assembly core of ncmds (No Code Markdown Sites).
ncmds is a Flask application that serves a folder of Markdown files as a
documentation site. The model covers five parts:

- **Configuration.** `ConfigManager` loads a YAML configuration, deep-merges it
  over built-in defaults, and answers dotted-key lookups. `ThemeLoader`
  discovers colour themes and resolves the active one, with fallbacks. This is
  `settings.dfy`, with modules `Themes` and `Config`.
- **Navigation.** The site derives a navigation entry from every Markdown file
  (URL path, title, order) and sorts the entries by `(order, lowercase title)`.
  It resolves a requested path to a document and finds the previous and next
  entries around a page. This is `navigation.dfy` (modules `Paths` and
  `Navigation`), `sorting.dfy` (module `StableSort`) and `documents.dfy`
  (module `Documents`).
- **Quarto export.** Front matter is stripped and generated, documents are
  concatenated, and a Quarto book project is assembled. This is
  `qmd_export.dfy`, with modules `ExportDefaults` and `QmdExport`.
- **Export route.** The route collects the documents the navigation names,
  refuses an empty export, and derives the download name and the export
  settings. This is `export_routes.dfy`, module `ExportRoutes`.
- **PDF export.** This is the HTML page handed to the PDF renderer: cover,
  table of contents and document sections, plus the renderer-availability
  check. This is `pdf_export.dfy`, module `PdfExport`.

`strings.dfy` (module `Strings`) models the Python string operations the code
uses:

- `split`, `split(sep, maxsplit)`, `strip`, `lstrip(chars)` and ASCII `lower`
  and `isdigit`;
- integer formatting;
- string comparison.

`values.dfy` (module `Values`) models a YAML-loaded value as a Python `dict` in
insertion order. It also defines truthiness, `or`, `str()` and `repr()`.
`wrappers.dfy` defines `Option` and `Result`.

Several things outside the code are parameters of the model:

- **Filesystem.** A docs folder is either absent (`NoDocsDir`) or a sequence of
  `(relative path, content)` files in enumeration order, with `/` as the
  separator. A file is top-level when its path has no `/`.
- **YAML parser.** `yaml.safe_load` is an uninterpreted function from text to
  an optional value. `None` means the parse raised.
- **Date.** The current date is the string parameter `today`.
- **Renderer.** Whether WeasyPrint could be imported is the boolean `available`.

Where the code and the documented design differ, the model follows the code:

- `_resolve_theme` has no special `custom` branch. A `custom` theme name falls
  through to `load_theme`, which substitutes `ncmds_default`.
- Navigation reads an `order` from front matter whenever `---` occurs anywhere
  in the file, not only at its start.
- `get_document` searches top-level files only (`glob`), while navigation
  covers the whole tree (`rglob`). A nested page resolves only through the
  `<path>.md` fallback.
- The WeasyPrint guard that appears in `_get_pdf_styles` sits inside the CSS
  string literal, so `export_all_documents` never checks for the renderer. See
  Findings.
- `load_theme` returns a theme file's `colors` value as it is, with no check
  that it is a mapping.

## Model

| member | source | states |
|---|---|---|
| Themes.DefaultColorsComplete | config/settings.py:77-92 | the fallback palette has exactly the eleven colour keys, each with a non-empty value |
| Themes.Discover | config/settings.py:21-32 | a missing themes directory discovers nothing; otherwise the discovered names are exactly the file stems, a later file winning for a repeated stem |
| Themes.LoadTheme | config/settings.py:34-50 | an unhashable name raises; a discovered theme yields its file's `colors`, or the default palette when the file cannot be read or parsed or has no `colors`; an undiscovered name with no `ncmds_default` yields the default palette; every result is a file's colours or the default palette |
| Themes.LoadThemeSubstitutesDefault | config/settings.py:36-38 | loading an undiscovered name is loading `ncmds_default` |
| Themes.GetThemeInfo | config/settings.py:52-68 | an undiscovered name or a read or parse failure gives `{}`; otherwise exactly `name`, `description` and `author`, defaulting to the theme key, `''` and `''` |
| Themes.ListThemes | config/settings.py:70-75 | one entry per discovered theme, each that theme's info |
| Config.DeepMerge | config/settings.py:142-150 | the merged keys are the base keys plus the update keys; merging an empty update returns the base; unique keys stay unique |
| Config.DeepMergeLookup | config/settings.py:144-149 | a key only in the base keeps its base value; a key in the update gets the recursive merge when both values are mappings, else the update value |
| Config.DeepMergeNestedExample | config/settings.py:145-149 | `{a:{x:1,y:2}}` merged with `{a:{y:3,z:4}}` is `{a:{x:1,y:3,z:4}}` |
| Config.LoadConfig | config/settings.py:104-140 | a missing, unreadable, unparsable, empty or non-mapping file gives exactly the defaults; otherwise the defaults deep-merged with the file, which keeps every default key |
| Config.Get | config/settings.py:171-184 | the lookup never fails, returns the default or a non-null value, and returns the default when the configuration is not a mapping |
| Config.GetSingle | config/settings.py:173-184 | a key without dots returns its stored value when present and non-null, falsy or not, and the default otherwise |
| Config.GetDotted | config/settings.py:173-184 | `a.rest` is `rest` looked up in the value at `a`, or the default when that value is missing or null |
| Config.GetKeepsFalse | config/settings.py:176-184 | a stored `false` is returned even when the default is `true` |
| Config.ResolveTheme | config/settings.py:152-169 | an inline theme with `dark` and `light` leaves the configuration unchanged; otherwise `theme` is the loaded colours, `active_theme_name` is the requested name, and every other key is kept |
| Config.ResolveKeepsRequestedName | config/settings.py:162-169 | an undiscovered requested name is kept as `active_theme_name` while the colours come from `ncmds_default` |
| Config.Create | config/settings.py:98-102 | construction fails exactly when resolving the loaded file's theme fails; a manager holds the discovered themes and the loaded configuration with its theme resolved, which keeps every default key and every other key of the file |
| Config.Reload | config/settings.py:190-193 | reloading keeps the loader; it raises exactly when resolving the reloaded theme fails, and then the manager is left holding the reloaded but unresolved configuration; otherwise it holds the resolved one; either way every default key is present and every key but `theme` and `active_theme_name` has its loaded value |
| Config.ReloadForgetsEdits | config/settings.py:190-193 | two managers with the same loader reload to the same state, so earlier switches are lost |
| Config.SwitchTheme | config/settings.py:199-206 | succeeds iff the name is `custom` or discovered; failure changes nothing; success stores `theme_name` and re-resolves the theme under that name; an inline theme is kept; every key other than `theme_name`, `theme` and `active_theme_name` keeps its value |
| Config.SwitchLostOnReload | config/settings.py:190-206 | reloading after a switch gives what reloading without it gives |
| Config.SwitchWithInlineTheme | config/settings.py:199-206 | with an inline theme, a switch only records `theme_name` |
| StableSort.SortBySorted | app.py:118 | the sort's output is ordered by key |
| StableSort.SortByStable | app.py:118 | entries with equal keys keep their input order |
| Navigation.UrlPath | app.py:79-80 | the URL path is the relative path without its last suffix, with every backslash turned into `/` |
| Navigation.HeadingTitle | app.py:85-86 | a first line starting with `#` gives that line without its leading `#`s and surrounding whitespace; otherwise the title is the file stem |
| Navigation.FrontMatterOrder | app.py:89-99 | the order is 999 without `---` or with fewer than three pieces, or when the middle piece does not parse to a mapping; when it does, the order is its `order` entry, or 999 without one; in every case the order is 999 or the `order` entry of the parsed middle piece |
| Navigation.FrontMatterOrderUsed | app.py:89-97 | a file opening with a `---` block that has no `---` inside and parses to a mapping with an `order` takes that order |
| Navigation.OrderFiveExample | app.py:89-97 | a file whose front matter is `order: 5` gets order 5 |
| Navigation.NumericPrefix | app.py:102-105 | a prefix is reported only when it is all digits and followed by `-` in the stem; none is reported when the stem has no `-` or its first piece is not all digits |
| Navigation.DeriveEntry | app.py:78-115 | the path and file come from the relative path; without a numeric prefix the title and order are the heading and front-matter ones; with a prefix the order is its value and the title loses the prefix and following `-`/space characters |
| Navigation.PrefixOverridesFrontMatter | app.py:101-106 | a numeric filename prefix decides the order whatever the front matter says |
| Navigation.PrefixedTitleExample | app.py:101-108 | `03-getting-started.md` headed `# 03 Getting Started` gives title `Getting Started`, path `03-getting-started`, order 3 |
| Navigation.StemTitleExample | app.py:85-99 | `guide/setup.md` without a heading or front matter gives title `setup`, path `guide/setup`, order 999 |
| Navigation.Entries | app.py:78-115 | one entry per file, in file order |
| Navigation.BuildNavigation | app.py:68-120 | a missing docs folder gives no entries; otherwise the result is a permutation of the file entries, sorted by `(order, lowercase title)`, with ties in file order |
| Documents.GetDocument | app.py:122-150 | `''` and `index` resolve to `01-index.md`, else `index.md`; other paths resolve to the first top-level file whose stem ends with them, else to `<path>.md`; a missing file gives nothing; a result echoes the requested path and carries the file's text |
| Documents.UrlPathOfMarkdown | app.py:79-80 | a navigation path plus `.md` is the file it came from, and for a top-level file it is the stem |
| Documents.NavigationLinksResolve | app.py:122-148 | every navigation entry's path resolves to a document |
| Documents.PrefixedFileShadowsExample | app.py:130-135 | with `01-setup.md` before `setup.md`, `setup` resolves to `01-setup.md` |
| Documents.Around | app.py:188-191 | previous exists iff the index is positive and is the entry before; next exists iff the index is not the last and is the entry after |
| Documents.Neighbours | app.py:185-192 | no matching entry gives neither neighbour; otherwise the neighbours are those of the first entry whose path equals or ends with the request |
| ExportDefaults.ProjectName | export/qmd_export.py:62 | a truthy requested name wins, then a set `site_name`, then `Documentation` |
| ExportDefaults.ConfiguredAuthor | export/qmd_export.py:133 | the configured author when set, else `Unknown Author` |
| ExportDefaults.AuthorText | export/qmd_export.py:20 | a truthy author argument wins over the configured author |
| QmdExport.CleanMarkdown | export/qmd_export.py:50-58 | text without a leading `---` and a second `---` is unchanged; otherwise the result is the stripped text after the second `---` |
| QmdExport.CleanShortens | export/qmd_export.py:53-56 | stripping front matter yields a piece of the input at least six characters shorter |
| QmdExport.CleanKeepsPlainText | export/qmd_export.py:53-58 | text not starting with `---` is returned unchanged |
| QmdExport.CleanDropsBlock | export/qmd_export.py:53-56 | `---` + block + `---` + body, with no `---` inside the block, cleans to the stripped body |
| QmdExport.FrontMatterLayout | export/qmd_export.py:23-47 | the header starts with `---`, ends with `---` and a blank line, its first field is the title and the remaining fields follow it |
| QmdExport.FrontMatter | export/qmd_export.py:18-47 | the header is a `---` block whose first field is the project name and whose next fields carry the author (the argument when truthy, else the configured one), the date argument or today's, and the format |
| QmdExport.FrontMatterDefaults | export/qmd_export.py:18-21 | with no author argument the header names the configured author or `Unknown Author`; with no date it carries today's |
| QmdExport.ExportDocument | export/qmd_export.py:60-85 | a single-document export opens the header with the document title, else the project name, else `site_name`, else `Documentation`, and ends with the cleaned text and the rendering notes |
| QmdExport.ExportDocumentLayout | export/qmd_export.py:60-85 | a single-document export is front matter, a line break, the cleaned text, a blank line and the notes; its title is the document title, else the project name, else `site_name`, else `Documentation` |
| QmdExport.PartLayout | export/qmd_export.py:96-102 | document 0 has no heading; each later document is preceded by `# title`, the title defaulting to `Section <i+1>`; every document is followed by a blank line |
| QmdExport.CollectParts | export/qmd_export.py:96-102 | the loop builds exactly the concatenation of the documents' parts |
| QmdExport.BodySnoc | export/qmd_export.py:96-102 | each further document appends exactly its own part |
| QmdExport.BodyStartsWithFirst | export/qmd_export.py:96-102 | the body opens with the first document's cleaned text, with no heading |
| QmdExport.BodyPlaces | export/qmd_export.py:96-102 | document `k`'s part sits right after the parts of the documents before it |
| QmdExport.ExportAllDocuments | export/qmd_export.py:87-120 | the export is the front matter for the project name, a line break, the parts and the notes |
| QmdExport.ExportAllEmpty | export/qmd_export.py:87-120 | no documents still give a file: front matter, a line break and the notes |
| QmdExport.SingleDocumentAgrees | export/qmd_export.py:60-120 | without a title, exporting one document alone or as the whole site differs only in the notes |
| QmdExport.CollectChapters | export/qmd_export.py:139-141 | the loop builds exactly one chapter line per navigation item |
| QmdExport.ChaptersInOrder | export/qmd_export.py:139-141 | navigation item `k` gets the line naming `chapter_<k+1>.qmd`, right after the lines of the items before it |
| QmdExport.ChapterFilesDistinct | export/qmd_export.py:140 | different chapters get different file names |
| QmdExport.CreateQuartoProject | export/qmd_export.py:122-156 | the book configuration is exactly its header, the chapter lines and the formats, and the documents pass through unchanged |
| ExportRoutes.FindFile | export/export_routes.py:26-30 | the scan finds the first top-level file whose stem ends with the navigation path |
| ExportRoutes.CollectDocuments | export/export_routes.py:23-39 | the loop collects, in navigation order, the contribution of every entry |
| ExportRoutes.CollectedAtMostNav | export/export_routes.py:24-39 | entries without a file are skipped, so there are at most as many documents as entries |
| ExportRoutes.CollectedAllFound | export/export_routes.py:24-39 | when every entry has a file, document `k` carries entry `k`'s title and its file's text |
| ExportRoutes.CollectedSkipsNested | export/export_routes.py:27-30 | an entry whose path has a `/` contributes nothing |
| ExportRoutes.CollectedMissingDirectory | export/export_routes.py:20-39 | a missing docs folder gives no documents |
| ExportRoutes.RequestedName | export/export_routes.py:45-46 | the route's project name is a truthy `export.qmd.project_name`, else a set `site_name`, else `Documentation`, which is the exporter's own choice for that request |
| ExportRoutes.RequestedNameIsExportName | export/export_routes.py:45-51 | handing the route's project name to the exporter leaves it unchanged |
| ExportRoutes.QmdProjectNameSetting | export/export_routes.py:45 | `export.qmd.project_name` is `project_name` in the `qmd` subsection of `export`, or null when either section is missing |
| ExportRoutes.DownloadName | export/export_routes.py:56 | the download name is the project name with each space turned into `_` and every other character kept, followed by `_documentation.qmd` |
| ExportRoutes.DownloadNameRecoversName | export/export_routes.py:56 | a name without underscores can be read back from its download name |
| ExportRoutes.ExportQmdAll | export/export_routes.py:18-63 | no collected documents fail with not-found; a non-string project name fails; otherwise the file is the full export under the derived name |
| ExportRoutes.MissingDirectoryNotFound | export/export_routes.py:20-42 | a site without a docs folder answers not-found |
| ExportRoutes.QmdEnabledSetting | export/export_routes.py:69 | `qmd_enabled` is `export.qmd.enabled`, defaulting to true, with a stored false kept |
| ExportRoutes.QmdButtonTextSetting | export/export_routes.py:70 | `qmd_button_text` is `export.qmd.button_text`, defaulting to `Export Documentation` |
| ExportRoutes.ShowOnAllPagesSetting | export/export_routes.py:71 | `show_on_all_pages` is `export.show_on_all_pages`, defaulting to true |
| ExportRoutes.GetExportSettings | export/export_routes.py:65-72 | none of the three settings is ever null |
| ExportRoutes.ExportSettingsDefaults | export/export_routes.py:68-72 | without an `export` section the settings are true, `Export Documentation` and true |
| PdfExport.CoverPage | export/pdf_export.py:35-53 | the cover shows the project name as its title, then the author (the argument when truthy, else the configured one), then the date argument or today's, each right after its tag |
| PdfExport.CoverPageDefaults | export/pdf_export.py:35-53 | the cover shows the configured author, else `Unknown Author`, and today's date |
| PdfExport.PageLayout | export/pdf_export.py:256-283 | a page starts with the head and cover, holds the export's middle right after them, and ends with the closing tags |
| PdfExport.GenerateToc | export/pdf_export.py:55-72 | the table of contents is its opening, one item per navigation entry, and its closing |
| PdfExport.TocListsEveryItem | export/pdf_export.py:63-65 | item `k` shows entry `k`'s title, or `Untitled`, right after the items before it |
| PdfExport.CollectSections | export/pdf_export.py:325-330 | the loop builds exactly the sections of the documents, in order |
| PdfExport.SectionsInOrder | export/pdf_export.py:326-328 | document `k` sits in its section right after the earlier sections; the first has an empty class and later ones `pdf-doc-section` |
| PdfExport.ExportDocument | export/pdf_export.py:251-301 | without the renderer the export fails before rendering; otherwise the page is head, cover and the fixed `Contents` block, then the document's HTML inside the `pdf-content` division, then the closing tags, with nothing else |
| PdfExport.ExportAllDocumentsAsWritten | export/pdf_export.py:303-345 | as written, a missing renderer surfaces as an undefined name; otherwise the page is head, cover, table of contents and sections |
| PdfExport.ExportAllDocuments | export/pdf_export.py:303-345 | with the availability check, a missing renderer fails as in the single-document export |
| PdfExport.MissingRendererErrors | export/pdf_export.py:286-292 | without the renderer the two exports fail differently as written and alike once corrected; with it they agree |
| PdfExport.ExportsShareFrame | export/pdf_export.py:303-334 | both exports open with the same head and cover and end with the same closing tags |

## Left out

- Flask routing, templates, `send_file`, `jsonify`, static files, the 404 handler and the start-up banner. These are presentation glue. The route's answer is a `Result` value.
- `MarkdownProcessor.convert`, which wraps python-markdown. The PDF exporter receives each document's HTML as a string. `get_document` returns the raw text where the code returns the converted result.
- YAML parsing internals. `yaml.safe_load` is a parameter. Non-string mapping keys and floating-point values are not represented in `Value`.
- WeasyPrint, `FontConfiguration` and the stylesheet `_get_pdf_styles` returns. The PDF model stops at the HTML handed to the renderer.
- `datetime.now()`, which is the parameter `today`. `BytesIO` and UTF-8 encoding are also left out; outputs are strings.
- Filesystem enumeration order, `exists()` on directories and unreadable Markdown files. The docs folder is an input sequence, and every listed file is readable.
- Windows path separators. Paths use `/`, and `UrlPath` still rewrites any backslash as the code does.
- Unicode case mapping and Unicode digits. `lower` and `isdigit` are ASCII.
- The process-wide `get_config` and `reload_config` singletons. Also left out are the `__init__` modules that only re-export names and the page-title metadata of the document route.
- `Navigation.BuildNavigation` is weaker than the source. It fails whenever at least two files exist and some entry's order is not an int or bool, although Python's sort raises only when it actually compares such an order with an int.
- `Values.Repr` quotes strings with single quotes and does not model Python's quote choice or escapes. A non-string title, author or project name is therefore rendered only approximately.
- `Documents.GetDocument` matches the `<path>.md` fallback literally against the listed file paths. The model does not normalise the requested path as `pathlib` and the operating system do: `.` segments and repeated `/` are not collapsed, and `..` is not resolved, so a request that reaches a file outside the docs folder is not modelled.
- `QmdExport.ExportAllDocuments` and `ExportRoutes.CollectDocuments` take each document's title and text as options that are either present or absent. A present-but-`None` title, which makes the code raise, is not represented.

## Findings

| source | as written | input that shows it | evidently intended | confidence | as-written member | corrected member |
|---|---|---|---|---|---|---|
| export/pdf_export.py:242-247 | the renderer-availability check is text inside the CSS string that `_get_pdf_styles` returns (lines 76-249), so `export_all_documents` calls the never-imported `HTML` and fails with `NameError` | WeasyPrint not importable, any documents | raise the same "WeasyPrint is not available" error as `export_document` (lines 287-292) before rendering | high, not executed | PdfExport.ExportAllDocumentsAsWritten | PdfExport.ExportAllDocuments |
