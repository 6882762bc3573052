/** `pathlib` name, stem and suffix rules for '/'-separated relative paths. */
module Paths {
  import opened Strings

  /** `s.rfind(c)`: the index of the last `c` in `s`, or -1. */
  function RFind(s: string, c: char): (r: int)
    ensures -1 <= r < |s|
    ensures r >= 0 ==> s[r] == c
    ensures forall k :: r < k < |s| ==> s[k] != c
  {
    if |s| == 0 then -1
    else if s[|s| - 1] == c then |s| - 1
    else RFind(s[..|s| - 1], c)
  }

  /** `PurePath(path).name`: the text after the last separator. */
  function Name(path: string): (n: string)
    ensures EndsWith(path, n)
    ensures '/' !in n
    ensures |n| < |path| ==> path[|path| - |n| - 1] == '/'
  {
    var n := path[RFind(path, '/') + 1..];
    assert forall c :: c in n ==> c != '/';
    n
  }

  /** The length of `.suffix`: from the last dot, unless that dot leads the
      name or ends it. */
  function SuffixLength(name: string): (n: nat)
    ensures n <= |name|
    ensures n > 0 ==> n >= 2 && name[|name| - n] == '.' && |name| - n > 0
  {
    var i := RFind(name, '.');
    if 0 < i < |name| - 1 then |name| - i else 0
  }

  /** `.stem`: the name without its suffix. */
  function Stem(name: string): (s: string)
    ensures StartsWith(name, s)
  {
    name[..|name| - SuffixLength(name)]
  }

  /** `.with_suffix('')` as a string. */
  function WithoutSuffix(path: string): (r: string)
    ensures StartsWith(path, r)
    ensures |path| - |r| == SuffixLength(Name(path))
  {
    path[..|path| - SuffixLength(Name(path))]
  }

  /** A file directly in the documentation root, which a non-recursive glob sees. */
  predicate IsTopLevel(path: string) {
    '/' !in path
  }

  /** A name `base.md` with a non-empty base has suffix `.md` and stem `base`. */
  lemma MarkdownStem(base: string)
    requires |base| > 0
    ensures Stem(base + ".md") == base
    ensures SuffixLength(base + ".md") == 3
  {
    var name := base + ".md";
    assert name[|base|] == '.' && name[|base| + 1] == 'm' && name[|base| + 2] == 'd';
    assert RFind(name, '.') == |base|;
    assert name[..|base|] == base;
  }

  /** A stem never contains a separator. */
  lemma StemHasNoSeparator(path: string)
    ensures '/' !in Stem(Name(path))
  {
    var n := Name(path);
    var s := Stem(n);
    assert forall k :: 0 <= k < |s| ==> s[k] == n[k];
  }
}

/** `DocumentationSite.build_navigation`: one entry per Markdown file of the
    documentation tree, with its URL path, title and order, sorted by
    `(order, lowercase title)`. */
module Navigation {
  import opened Wrappers
  import opened Strings
  import opened Values
  import opened Paths
  import opened StableSort

  /** A Markdown file of the tree: its path relative to the root and its text. */
  datatype DocFile = DocFile(path: string, content: string)

  /** The documentation root: absent, or its `*.md` files in enumeration order. */
  datatype DocsDir = NoDocsDir | DocsTree(files: seq<DocFile>)

  /** A navigation entry. `order` is whatever the front matter held when no
      numeric filename prefix replaced it, so it need not be an integer. */
  datatype NavEntry = NavEntry(title: string, path: string, file: string, order: Value)

  /** The order of a file that states none. */
  const DefaultOrder: int := 999

  datatype NavError = IncomparableOrders

  /** The URL path: the relative path without its last suffix, with every
      backslash turned into a slash. */
  function UrlPath(rel: string): (u: string)
    ensures |u| == |rel| - SuffixLength(Name(rel))
    ensures '\\' !in u
    ensures forall k :: 0 <= k < |u| ==> u[k] == (if rel[k] == '\\' then '/' else rel[k])
  {
    ReplaceChar(WithoutSuffix(rel), '\\', '/')
  }

  /** The first line of the text, stripped of surrounding whitespace. */
  function FirstLine(content: string): string {
    Strip(Split(content, '\n')[0])
  }

  /** The title before any prefix rule: a heading first line without its
      `#` marks and surrounding spaces, otherwise the file stem. */
  function HeadingTitle(content: string, rel: string): (t: string)
    ensures StartsWith(FirstLine(content), "#") ==> t == Strip(LStrip(FirstLine(content), {'#'}))
    ensures !StartsWith(FirstLine(content), "#") ==> t == Stem(Name(rel))
  {
    var line := FirstLine(content);
    if StartsWith(line, "#") then Strip(LStrip(line, {'#'})) else Stem(Name(rel))
  }

  /** The order a file's front matter gives. The block is looked for as soon
      as `---` occurs anywhere in the text: the text between the first two
      `---` is parsed, and a mapping's `order` value (whatever its type) is
      used; a missing block, a parse error, a non-mapping block or a missing
      key leave 999. */
  function FrontMatterOrder(content: string, parse: string -> Option<Value>): (r: Value)
    ensures !Contains(content, "---") ==> r == VInt(DefaultOrder)
    ensures |SplitN(content, "---", 2)| < 3 ==> r == VInt(DefaultOrder)
    ensures r != VInt(DefaultOrder) ==>
      && |SplitN(content, "---", 2)| == 3
      && parse(SplitN(content, "---", 2)[1]).Some?
      && parse(SplitN(content, "---", 2)[1]).value.VMap?
      && Lookup(parse(SplitN(content, "---", 2)[1]).value.entries, "order") == Some(r)
    ensures var parts := SplitN(content, "---", 2);
      |parts| == 3 && parse(parts[1]).Some? && parse(parts[1]).value.VMap? ==>
        var order := Lookup(parse(parts[1]).value.entries, "order");
        && (order.Some? ==> r == order.value)
        && (order.None? ==> r == VInt(DefaultOrder))
    ensures var parts := SplitN(content, "---", 2);
      |parts| == 3 && !(parse(parts[1]).Some? && parse(parts[1]).value.VMap?) ==> r == VInt(DefaultOrder)
  {
    if !Contains(content, "---") then
      SplitWithoutSeparator(content, "---");
      VInt(DefaultOrder)
    else
      var parts := SplitN(content, "---", 2);
      if |parts| < 3 then VInt(DefaultOrder)
      else
        match parse(parts[1])
        case Some(VMap(meta)) => Lookup(meta, "order").GetOr(VInt(DefaultOrder))
        case _ => VInt(DefaultOrder)
  }

  /** A block `---meta---body` whose text loads to a mapping with an
      `order` entry takes that entry as the order, whatever follows. */
  lemma FrontMatterOrderUsed(meta: string, body: string, parse: string -> Option<Value>, entries: Entries, order: Value)
    requires !Contains(meta + "--", "---")
    requires parse(meta) == Some(VMap(entries)) && Lookup(entries, "order") == Some(order)
    ensures FrontMatterOrder("---" + meta + "---" + body, parse) == order
  {
    SplitBlock(meta, body);
  }

  /** `---\norder: 5\n---` ahead of the text sets the order to 5. */
  lemma OrderFiveExample(content: string, parse: string -> Option<Value>)
    requires content == "---\norder: 5\n---\n# Intro\n"
    requires parse("\norder: 5\n") == Some(VMap([("order", VInt(5))]))
    ensures FrontMatterOrder(content, parse) == VInt(5)
  {
    var meta, body := "\norder: 5\n", "\n# Intro\n";
    assert content == "---" + meta + "---" + body;
    DashFreeBlock(meta);
    assert Lookup([("order", VInt(5))], "order") == Some(VInt(5));
    FrontMatterOrderUsed(meta, body, parse, [("order", VInt(5))], VInt(5));
  }

  lemma SplitWithoutSeparator(s: string, sep: string)
    requires |sep| > 0 && !Contains(s, sep)
    ensures SplitN(s, sep, 2) == [s]
  {
  }

  /** The leading digits of a stem of the form `<digits>-...`, if it has that form. */
  function NumericPrefix(stem: string): (p: Option<string>)
    ensures p.Some? ==> IsDigitString(p.value) && StartsWith(stem, p.value + "-")
    ensures p.None? ==> '-' !in stem || !IsDigitString(Split(stem, '-')[0])
  {
    if '-' !in stem then None
    else
      var prefix := Split(stem, '-')[0];
      if IsDigitString(prefix) then
        FirstPieceIsPrefix(stem, '-');
        Some(prefix)
      else None
  }

  /** The first piece of a split, followed by the separator, begins the string. */
  lemma {:induction false} FirstPieceIsPrefix(s: string, c: char)
    requires c in s
    ensures StartsWith(s, Split(s, c)[0] + [c])
  {
    if s[0] != c {
      FirstPieceIsPrefix(s[1..], c);
    }
  }

  /** One file's entry. A numeric stem prefix replaces the front-matter order,
      and is removed, with the dashes and spaces after it, from a title that
      starts with it. */
  function DeriveEntry(f: DocFile, parse: string -> Option<Value>): (e: NavEntry)
    ensures e.path == UrlPath(f.path) && e.file == f.path
    ensures NumericPrefix(Stem(Name(f.path))).None? ==>
      e.order == FrontMatterOrder(f.content, parse) && e.title == HeadingTitle(f.content, f.path)
    ensures NumericPrefix(Stem(Name(f.path))).Some? ==>
      var p := NumericPrefix(Stem(Name(f.path))).value;
      var t := HeadingTitle(f.content, f.path);
      && e.order == VInt(DigitsValue(p))
      && e.title == (if StartsWith(t, p) then LStrip(t[|p|..], {'-', ' '}) else t)
  {
    var title := HeadingTitle(f.content, f.path);
    match NumericPrefix(Stem(Name(f.path)))
    case None => NavEntry(title, UrlPath(f.path), f.path, FrontMatterOrder(f.content, parse))
    case Some(p) =>
      var shown := if StartsWith(title, p) then LStrip(title[|p|..], {'-', ' '}) else title;
      NavEntry(shown, UrlPath(f.path), f.path, VInt(DigitsValue(p)))
  }

  /** An order the sort can compare with an integer: an int, or a bool (0 or 1). */
  predicate Comparable(e: NavEntry) {
    e.order.VInt? || e.order.VBool?
  }

  function OrderNumber(order: Value): int {
    match order
    case VInt(n) => n
    case VBool(b) => if b then 1 else 0
    case _ => 0
  }

  /** The sort key `(order, title.lower())`. */
  function NavKey(e: NavEntry): Key {
    Key(OrderNumber(e.order), Lower(e.title))
  }

  /** `f` applied to every element, in order. */
  function MapSeq<T, U>(xs: seq<T>, f: T -> U): (r: seq<U>)
    ensures |r| == |xs|
    ensures forall i :: 0 <= i < |xs| ==> r[i] == f(xs[i])
  {
    if |xs| == 0 then [] else [f(xs[0])] + MapSeq(xs[1..], f)
  }

  /** The entries of the files, in enumeration order. */
  function Entries(files: seq<DocFile>, parse: string -> Option<Value>): (es: seq<NavEntry>)
    ensures |es| == |files|
    ensures forall i :: 0 <= i < |files| ==> es[i] == DeriveEntry(files[i], parse)
  {
    MapSeq(files, (f: DocFile) => DeriveEntry(f, parse))
  }

  /** `build_navigation`. No root gives no entries. Otherwise the entries are
      a permutation of the files' entries, ordered by key, with equal keys in
      enumeration order. An order that is not an integer cannot be compared
      once there are two entries, and the sort fails. */
  function BuildNavigation(dir: DocsDir, parse: string -> Option<Value>): (r: Result<seq<NavEntry>, NavError>)
    ensures dir.NoDocsDir? ==> r == Success([])
    ensures r.Failure? <==>
      dir.DocsTree? && |dir.files| >= 2 && exists e :: e in Entries(dir.files, parse) && !Comparable(e)
    ensures r.Success? && dir.DocsTree? ==>
      && |r.value| == |dir.files|
      && multiset(r.value) == multiset(Entries(dir.files, parse))
      && Sorted(r.value, NavKey)
      && forall k :: WithKey(r.value, NavKey, k) == WithKey(Entries(dir.files, parse), NavKey, k)
  {
    match dir
    case NoDocsDir => Success([])
    case DocsTree(files) =>
      var entries := Entries(files, parse);
      if |entries| >= 2 && exists e :: e in entries && !Comparable(e) then Failure(IncomparableOrders)
      else
        SortBySorted(entries, NavKey);
        SortStableForAll(entries);
        Success(SortBy(entries, NavKey))
  }

  lemma SortStableForAll(entries: seq<NavEntry>)
    ensures forall k :: WithKey(SortBy(entries, NavKey), NavKey, k) == WithKey(entries, NavKey, k)
  {
    forall k {
      SortByStable(entries, NavKey, k);
    }
  }

  // ---------------------------------------------------------------------------
  // Worked cases of the title and order rules
  // ---------------------------------------------------------------------------

  /** `03-getting-started.md` opening with `# 03 Getting Started` is shown as
      `Getting Started`, with order 3 whatever its front matter says. */
  lemma PrefixedTitleExample(f: DocFile, parse: string -> Option<Value>)
    requires f == DocFile("03-getting-started.md", "# 03 Getting Started\nText")
    ensures DeriveEntry(f, parse)
         == NavEntry("Getting Started", "03-getting-started", "03-getting-started.md", VInt(3))
  {
    HeadingExample(f.content, f.path);
    PathExample(f.path);
    PrefixExample(Stem(Name(f.path)));
    DigitsExample("03");
    DropPrefixExample();
  }

  lemma PathExample(path: string)
    requires path == "03-getting-started.md"
    ensures Stem(Name(path)) == "03-getting-started"
    ensures UrlPath(path) == "03-getting-started"
  {
    NameOfTopLevel(path);
    StemExample(path);
    var w := WithoutSuffix(path);
    assert w == "03-getting-started";
    ReplaceAbsent(w, '\\', '/');
  }

  lemma StemExample(path: string)
    requires path == "03-getting-started.md"
    ensures Stem(path) == "03-getting-started"
  {
    assert path == "03-getting-started" + ".md";
    MarkdownStem("03-getting-started");
  }

  lemma DropPrefixExample()
    ensures StartsWith("03 Getting Started", "03")
    ensures LStrip("03 Getting Started"[2..], {'-', ' '}) == "Getting Started"
  {
    assert "03 Getting Started"[2..] == " " + "Getting Started";
    LStripPrefix(" ", "Getting Started", {'-', ' '});
  }

  lemma HeadingExample(content: string, path: string)
    requires content == "# 03 Getting Started\nText" && path == "03-getting-started.md"
    ensures HeadingTitle(content, path) == "03 Getting Started"
  {
    FirstLineExample();
    UnmarkExample();
    StripExample();
  }

  lemma FirstLineExample()
    ensures FirstLine("# 03 Getting Started\nText") == "# 03 Getting Started"
  {
    var line := "# 03 Getting Started";
    assert "# 03 Getting Started\nText" == line + ['\n'] + "Text";
    FirstPiece(line, '\n', "Text");
    StripUnchanged(line);
  }

  lemma UnmarkExample()
    ensures LStrip("# 03 Getting Started", {'#'}) == " 03 Getting Started"
  {
    assert "# 03 Getting Started" == "#" + " 03 Getting Started";
    LStripPrefix("#", " 03 Getting Started", {'#'});
  }

  lemma StripExample()
    ensures Strip(" 03 Getting Started") == "03 Getting Started"
  {
    assert " 03 Getting Started" == " " + "03 Getting Started";
    StripAfterSpaces(" ", "03 Getting Started");
  }

  lemma PrefixExample(stem: string)
    requires stem == "03-getting-started"
    ensures NumericPrefix(stem) == Some("03")
  {
    var p, t := "03", "getting-started";
    assert stem == p + ['-'] + t;
    FirstPiece(p, '-', t);
  }

  lemma DigitsExample(d: string)
    requires d == "03"
    ensures AllDigits(d) && DigitsValue(d) == 3
  {
    var z := d[..1];
    assert z[..0] == [];
    assert DigitsValue(z) == 0;
    assert d[1] == '3';
  }

  /** A path without a separator is its own name. */
  lemma NameOfTopLevel(path: string)
    requires IsTopLevel(path)
    ensures Name(path) == path
  {
  }

  /** The filename prefix wins over a front-matter `order`. */
  lemma PrefixOverridesFrontMatter(f: DocFile, parse: string -> Option<Value>, p: string)
    requires NumericPrefix(Stem(Name(f.path))) == Some(p)
    ensures DeriveEntry(f, parse).order == VInt(DigitsValue(p))
    ensures Comparable(DeriveEntry(f, parse))
  {
  }

  /** A file whose first line is no heading and whose stem has no numeric
      prefix is titled by its stem, and a text without `---` keeps order 999. */
  lemma StemTitleExample(f: DocFile, parse: string -> Option<Value>)
    requires f == DocFile("guide/setup.md", "Plain text")
    ensures DeriveEntry(f, parse) == NavEntry("setup", "guide/setup", "guide/setup.md", VInt(DefaultOrder))
  {
    SetupTitleExample(f);
    SetupOrderExample(f, parse);
    SetupPathExample(f.path);
  }

  lemma SetupTitleExample(f: DocFile)
    requires f == DocFile("guide/setup.md", "Plain text")
    ensures HeadingTitle(f.content, f.path) == "setup"
    ensures NumericPrefix(Stem(Name(f.path))) == None
  {
    SetupPathExample(f.path);
    PlainLineExample(f.content);
    NoPrefixExample(Stem(Name(f.path)));
  }

  lemma SetupOrderExample(f: DocFile, parse: string -> Option<Value>)
    requires f == DocFile("guide/setup.md", "Plain text")
    ensures FrontMatterOrder(f.content, parse) == VInt(DefaultOrder)
  {
    NoDashes(f.content);
    SplitWithoutSeparator(f.content, "---");
  }

  lemma NoPrefixExample(stem: string)
    requires stem == "setup"
    ensures NumericPrefix(stem) == None
  {
    assert '-' !in stem;
  }

  lemma SetupPathExample(path: string)
    requires path == "guide/setup.md"
    ensures Stem(Name(path)) == "setup"
    ensures UrlPath(path) == "guide/setup"
  {
    assert path[5] == '/' && path[6..] == "setup.md";
    assert RFind(path, '/') == 5;
    assert Name(path) == "setup" + ".md";
    MarkdownStem("setup");
    var w := WithoutSuffix(path);
    assert w == "guide/setup";
    ReplaceAbsent(w, '\\', '/');
  }

  lemma PlainLineExample(content: string)
    requires content == "Plain text"
    ensures FirstLine(content) == "Plain text"
    ensures !StartsWith(FirstLine(content), "#")
  {
    SplitPiece(content, '\n');
    StripUnchanged(content);
  }

  /** Text without a dash has no front-matter block. */
  lemma NoDashes(s: string)
    requires '-' !in s
    ensures !Contains(s, "---")
  {
    match FindFrom(s, "---", 0)
    case None =>
    case Some(j) =>
      OccursHead(s, "---", j);
      assert false;
  }
}
