/** `DocumentationSite.get_document` and the previous/next search of the
    document page. */
module Documents {
  import opened Wrappers
  import opened Strings
  import opened Paths
  import opened Navigation

  /** A resolved document: the file it came from, the Markdown text handed to
      the converter, and the requested path echoed back. */
  datatype Document = Document(file: string, text: string, path: string)

  /** The least index whose element satisfies `p`. */
  function IndexWhere<T>(xs: seq<T>, p: T -> bool): (r: Option<nat>)
    ensures r.Some? ==> r.value < |xs| && p(xs[r.value])
    ensures r.Some? ==> forall j :: 0 <= j < r.value ==> !p(xs[j])
    ensures r.None? ==> forall j :: 0 <= j < |xs| ==> !p(xs[j])
  {
    if |xs| == 0 then None
    else if p(xs[0]) then Some(0)
    else match IndexWhere(xs[1..], p)
      case None => None
      case Some(i) => Some(i + 1)
  }

  /** The trees `rglob('*.md')` can produce: distinct paths, each naming a
      `.md` file. */
  predicate WellFormed(dir: DocsDir) {
    dir.DocsTree? ==>
      && (forall i, j :: 0 <= i < j < |dir.files| ==> dir.files[i].path != dir.files[j].path)
      && (forall i :: 0 <= i < |dir.files| ==> EndsWith(Name(dir.files[i].path), ".md"))
  }

  /** The index of the file at relative path `rel`, if the tree has one. */
  function FileAt(dir: DocsDir, rel: string): (r: Option<nat>)
    ensures r.Some? <==> dir.DocsTree? && exists i :: 0 <= i < |dir.files| && dir.files[i].path == rel
    ensures r.Some? ==> dir.DocsTree? && r.value < |dir.files| && dir.files[r.value].path == rel
  {
    match dir
    case NoDocsDir => None
    case DocsTree(files) => IndexWhere(files, (f: DocFile) => f.path == rel)
  }

  /** A file the non-recursive glob sees whose stem ends with the request. */
  predicate StemMatches(f: DocFile, path: string) {
    IsTopLevel(f.path) && EndsWith(Stem(Name(f.path)), path)
  }

  /** The first top-level file whose stem ends with `path`. */
  function StemMatch(dir: DocsDir, path: string): (r: Option<nat>)
    ensures r.Some? ==> dir.DocsTree? && r.value < |dir.files| && StemMatches(dir.files[r.value], path)
    ensures r.Some? ==> forall j :: 0 <= j < r.value ==> !StemMatches(dir.files[j], path)
    ensures r.None? && dir.DocsTree? ==> forall j :: 0 <= j < |dir.files| ==> !StemMatches(dir.files[j], path)
  {
    match dir
    case NoDocsDir => None
    case DocsTree(files) => IndexWhere(files, (f: DocFile) => StemMatches(f, path))
  }

  function Open(dir: DocsDir, i: nat, path: string): (d: Document)
    requires dir.DocsTree? && i < |dir.files|
    ensures d.file == dir.files[i].path && d.text == dir.files[i].content && d.path == path
  {
    Document(dir.files[i].path, dir.files[i].content, path)
  }

  function OpenAt(dir: DocsDir, rel: string, path: string): (r: Option<Document>)
    ensures r.Some? <==> FileAt(dir, rel).Some?
    ensures r.Some? ==> r.value.file == rel && r.value.path == path
  {
    match FileAt(dir, rel)
    case None => None
    case Some(i) => Some(Open(dir, i, path))
  }

  /** `get_document`. The root and `index` resolve to `01-index.md`, or else
      `index.md`. Any other request resolves to the first top-level file
      whose stem ends with it, or else to `<path>.md` at any depth. */
  function GetDocument(dir: DocsDir, path: string): (r: Option<Document>)
    ensures r.Some? ==> r.value.path == path && dir.DocsTree?
    ensures r.Some? ==> exists i :: 0 <= i < |dir.files| && dir.files[i].path == r.value.file
                                   && dir.files[i].content == r.value.text
    ensures path == "" || path == "index" ==>
      && (r.Some? <==> FileAt(dir, "01-index.md").Some? || FileAt(dir, "index.md").Some?)
      && (r.Some? && FileAt(dir, "01-index.md").Some? ==> r.value.file == "01-index.md")
      && (r.Some? && FileAt(dir, "01-index.md").None? ==> r.value.file == "index.md")
    ensures path != "" && path != "index" && StemMatch(dir, path).Some? ==>
      r == Some(Open(dir, StemMatch(dir, path).value, path))
    ensures path != "" && path != "index" && StemMatch(dir, path).None? ==>
      && (r.Some? <==> FileAt(dir, path + ".md").Some?)
      && (r.Some? ==> r.value.file == path + ".md")
  {
    if path == "" || path == "index" then
      if FileAt(dir, "01-index.md").Some? then OpenAt(dir, "01-index.md", path)
      else OpenAt(dir, "index.md", path)
    else
      match StemMatch(dir, path)
      case Some(i) => Some(Open(dir, i, path))
      case None => OpenAt(dir, path + ".md", path)
  }

  // ---------------------------------------------------------------------------
  // Navigation links resolve
  // ---------------------------------------------------------------------------

  /** A request containing a separator matches no stem. */
  lemma SeparatorMatchesNoStem(dir: DocsDir, path: string)
    requires '/' in path
    ensures StemMatch(dir, path).None?
  {
    if dir.DocsTree? {
      forall j | 0 <= j < |dir.files| ensures !StemMatches(dir.files[j], path) {
        StemLacksSeparator(dir.files[j], path);
      }
    }
  }

  lemma StemLacksSeparator(f: DocFile, path: string)
    requires '/' in path
    ensures !EndsWith(Stem(Name(f.path)), path)
  {
    var s := Stem(Name(f.path));
    StemHasNoSeparator(f.path);
    if EndsWith(s, path) {
      SuffixCharsIn(s, path);
    }
  }

  /** Every character of a suffix occurs in the string. */
  lemma SuffixCharsIn(s: string, u: string)
    requires EndsWith(s, u)
    ensures forall c :: c in u ==> c in s
  {
    forall c | c in u ensures c in s {
      var k :| 0 <= k < |u| && u[k] == c;
      assert s[|s| - |u| + k] == c;
    }
  }

  /** The URL path of a `.md` file without a backslash is the path minus `.md`. */
  lemma UrlPathOfMarkdown(rel: string)
    requires EndsWith(Name(rel), ".md") && |Name(rel)| > 3
    requires '\\' !in rel
    ensures UrlPath(rel) + ".md" == rel
    ensures IsTopLevel(rel) ==> UrlPath(rel) == Stem(Name(rel))
  {
    var n := Name(rel);
    var base := n[..|n| - 3];
    assert n == base + ".md";
    MarkdownStem(base);
    var w := WithoutSuffix(rel);
    ReplaceAbsent(w, '\\', '/');
    assert rel == w + ".md";
  }

  /** Every navigation link resolves to some document: the link of a file
      named `<name>.md` (with a non-empty name and no backslash in its path)
      finds a file, though a top-level link may find an earlier file whose
      stem merely ends with the same text. */
  lemma NavigationLinksResolve(dir: DocsDir, f: DocFile)
    requires WellFormed(dir) && dir.DocsTree? && f in dir.files
    requires |Name(f.path)| > 3 && '\\' !in f.path
    ensures GetDocument(dir, UrlPath(f.path)).Some?
  {
    UrlPathOfMarkdown(f.path);
    var url := UrlPath(f.path);
    assert |url| == |f.path| - 3 && |Name(f.path)| <= |f.path|;
    if IsTopLevel(f.path) {
      assert url[|url| - |url|..] == url;
      assert StemMatches(f, url);
      TopLevelLinkResolves(dir, f, url);
    } else {
      NestedLinkResolves(dir, f, url);
    }
  }

  lemma TopLevelLinkResolves(dir: DocsDir, f: DocFile, url: string)
    requires dir.DocsTree? && f in dir.files && IsTopLevel(f.path)
    requires StemMatches(f, url) && url + ".md" == f.path && url != ""
    ensures GetDocument(dir, url).Some?
  {
    var i :| 0 <= i < |dir.files| && dir.files[i] == f;
    if url == "index" {
      IndexFileResolves(dir, i, url);
    } else {
      MatchingStemResolves(dir, i, url);
    }
  }

  lemma MatchingStemResolves(dir: DocsDir, i: nat, url: string)
    requires dir.DocsTree? && i < |dir.files| && StemMatches(dir.files[i], url)
    requires url != "" && url != "index"
    ensures GetDocument(dir, url).Some?
  {
  }

  lemma IndexFileResolves(dir: DocsDir, i: nat, url: string)
    requires dir.DocsTree? && i < |dir.files| && url == "index" && dir.files[i].path == url + ".md"
    ensures GetDocument(dir, url).Some?
  {
    assert url + ".md" == "index.md";
    assert FileAt(dir, "index.md").Some?;
  }

  lemma NestedLinkResolves(dir: DocsDir, f: DocFile, url: string)
    requires dir.DocsTree? && f in dir.files && !IsTopLevel(f.path)
    requires url + ".md" == f.path
    ensures GetDocument(dir, url).Some?
  {
    var i :| 0 <= i < |dir.files| && dir.files[i] == f;
    var k :| 0 <= k < |f.path| && f.path[k] == '/';
    assert f.path[|f.path| - 3..] == ".md";
    assert k < |url| && url[k] == '/';
    SeparatorMatchesNoStem(dir, url);
    assert FileAt(dir, url + ".md").Some?;
  }

  /** A request for `setup` resolves to `01-setup.md` when that file comes
      first, even though `setup.md` exists. */
  lemma PrefixedFileShadowsExample(dir: DocsDir)
    requires dir == DocsTree([DocFile("01-setup.md", "A"), DocFile("setup.md", "B")])
    ensures GetDocument(dir, "setup") == Some(Document("01-setup.md", "A", "setup"))
  {
    SetupStemExample(dir.files[0].path);
    assert StemMatches(dir.files[0], "setup");
  }

  lemma SetupStemExample(p: string)
    requires p == "01-setup.md"
    ensures IsTopLevel(p) && EndsWith(Stem(Name(p)), "setup")
  {
    assert p == "01-setup" + ".md";
    MarkdownStem("01-setup");
    assert Name(p) == p;
    assert "01-setup"[3..] == "setup";
  }

  // ---------------------------------------------------------------------------
  // Previous and next documents
  // ---------------------------------------------------------------------------

  /** The entry is taken for the requested document: same path, or a path
      ending with the request. */
  predicate MatchesPath(e: NavEntry, docPath: string) {
    e.path == docPath || EndsWith(e.path, docPath)
  }

  /** The neighbours of position `i`: the entry before and the entry after,
      where they exist. */
  function Around(nav: seq<NavEntry>, i: nat): (r: (Option<NavEntry>, Option<NavEntry>))
    requires i < |nav|
    ensures r.0.Some? <==> i > 0
    ensures r.1.Some? <==> i < |nav| - 1
    ensures r.0.Some? ==> r.0.value == nav[i - 1]
    ensures r.1.Some? ==> r.1.value == nav[i + 1]
  {
    (if i > 0 then Some(nav[i - 1]) else None, if i < |nav| - 1 then Some(nav[i + 1]) else None)
  }

  /** The search of the document page: the first matching entry decides the
      previous and next links; with no match there are none. */
  method Neighbours(nav: seq<NavEntry>, docPath: string) returns (prev: Option<NavEntry>, next: Option<NavEntry>)
    ensures (forall i :: 0 <= i < |nav| ==> !MatchesPath(nav[i], docPath)) ==> prev.None? && next.None?
    ensures forall i :: 0 <= i < |nav| && MatchesPath(nav[i], docPath)
                        && (forall j :: 0 <= j < i ==> !MatchesPath(nav[j], docPath))
                        ==> (prev, next) == Around(nav, i)
  {
    prev, next := None, None;
    var i := 0;
    while i < |nav|
      invariant 0 <= i <= |nav|
      invariant forall j :: 0 <= j < i ==> !MatchesPath(nav[j], docPath)
      invariant prev.None? && next.None?
    {
      if MatchesPath(nav[i], docPath) {
        if i > 0 {
          prev := Some(nav[i - 1]);
        }
        if i < |nav| - 1 {
          next := Some(nav[i + 1]);
        }
        return;
      }
      i := i + 1;
    }
  }
}
