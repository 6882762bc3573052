/** The export routes: gathering the documents the navigation names, the
    download of the whole site as one Quarto file, and the export settings
    handed to the page script. */
module ExportRoutes {
  import opened Wrappers
  import opened Strings
  import opened Values
  import opened Config
  import opened Navigation
  import opened Documents
  import opened ExportDefaults
  import opened QmdExport

  // ---------------------------------------------------------------------------
  // Gathering the documents
  // ---------------------------------------------------------------------------

  /** What one navigation entry contributes: its title and the text of the
      first top-level Markdown file whose stem ends with the entry's path,
      or nothing when there is no such file. */
  function Found(dir: DocsDir, e: NavEntry): (r: seq<DocData>)
    ensures |r| <= 1
    ensures |r| == 1 <==> StemMatch(dir, e.path).Some?
    ensures |r| == 1 ==> r[0].title == Some(e.title)
  {
    match StemMatch(dir, e.path)
    case None => []
    case Some(i) => [DocData(Some(e.title), Some(dir.files[i].content))]
  }

  /** The contributions of `xs` under `f`, in order. */
  function Flatten<T, U>(xs: seq<T>, f: T -> seq<U>): seq<U> {
    if |xs| == 0 then []
    else Flatten(xs[..|xs| - 1], f) + f(xs[|xs| - 1])
  }

  lemma FlattenSnoc<T, U>(xs: seq<T>, x: T, f: T -> seq<U>)
    ensures Flatten(xs + [x], f) == Flatten(xs, f) + f(x)
  {
    assert (xs + [x])[..|xs|] == xs;
  }

  lemma FlattenNext<T, U>(xs: seq<T>, n: nat, f: T -> seq<U>)
    requires n < |xs|
    ensures Flatten(xs[..n + 1], f) == Flatten(xs[..n], f) + f(xs[n])
  {
    FlattenSnoc(xs[..n], xs[n], f);
    assert xs[..n] + [xs[n]] == xs[..n + 1];
  }

  /** When every element contributes exactly one item, the items line up
      with the elements. */
  lemma {:induction false} FlattenSingles<T, U>(xs: seq<T>, f: T -> seq<U>)
    requires forall k :: 0 <= k < |xs| ==> |f(xs[k])| == 1
    ensures |Flatten(xs, f)| == |xs|
    ensures forall k :: 0 <= k < |xs| ==> Flatten(xs, f)[k] == f(xs[k])[0]
  {
    if |xs| > 0 {
      var init := xs[..|xs| - 1];
      FlattenSingles(init, f);
    }
  }

  /** The documents of the navigation, in navigation order. */
  function Collected(dir: DocsDir, nav: seq<NavEntry>): seq<DocData> {
    Flatten(nav, (e: NavEntry) => Found(dir, e))
  }

  lemma CollectedSnoc(dir: DocsDir, nav: seq<NavEntry>, e: NavEntry)
    ensures Collected(dir, nav + [e]) == Collected(dir, nav) + Found(dir, e)
  {
    FlattenSnoc(nav, e, (e: NavEntry) => Found(dir, e));
  }

  /** The inner loop of `export_qmd_all`: scan the top-level files in order
      and stop at the first whose stem ends with `path`. */
  method FindFile(dir: DocsDir, path: string) returns (found: Option<nat>)
    ensures found == StemMatch(dir, path)
  {
    found := None;
    if dir.NoDocsDir? {
      return;
    }
    var k := 0;
    while k < |dir.files|
      invariant 0 <= k <= |dir.files|
      invariant forall j :: 0 <= j < k ==> !StemMatches(dir.files[j], path)
    {
      if StemMatches(dir.files[k], path) {
        found := Some(k);
        return;
      }
      k := k + 1;
    }
  }

  /** One pass of the outer loop of `export_qmd_all`: the entry's document,
      if a file matches it. */
  method FindDocument(dir: DocsDir, e: NavEntry) returns (part: seq<DocData>)
    ensures part == Found(dir, e)
  {
    var found := FindFile(dir, e.path);
    FoundAt(dir, e, found);
    part := [];
    if found.Some? {
      part := [DocData(Some(e.title), Some(dir.files[found.value].content))];
    }
  }

  /** The outer loop of `export_qmd_all`: one document for every navigation
      entry that has a file, in navigation order. */
  method CollectDocuments(dir: DocsDir, nav: seq<NavEntry>) returns (docs: seq<DocData>)
    ensures docs == Collected(dir, nav)
  {
    docs := [];
    var n := 0;
    while n < |nav|
      invariant 0 <= n <= |nav|
      invariant docs == Collected(dir, nav[..n])
    {
      var part := FindDocument(dir, nav[n]);
      NextCollected(dir, nav, n);
      docs := docs + part;
      n := n + 1;
    }
    assert nav[..|nav|] == nav;
  }

  lemma FoundAt(dir: DocsDir, e: NavEntry, found: Option<nat>)
    requires found == StemMatch(dir, e.path)
    ensures found.Some? ==> dir.DocsTree? && found.value < |dir.files|
    ensures Found(dir, e) == if found.Some? then [DocData(Some(e.title), Some(dir.files[found.value].content))] else []
  {
  }

  lemma NextCollected(dir: DocsDir, nav: seq<NavEntry>, n: nat)
    requires n < |nav|
    ensures Collected(dir, nav[..n + 1]) == Collected(dir, nav[..n]) + Found(dir, nav[n])
  {
    FlattenNext(nav, n, (e: NavEntry) => Found(dir, e));
  }

  /** At most one document per navigation entry. */
  lemma {:induction false} CollectedAtMostNav(dir: DocsDir, nav: seq<NavEntry>)
    ensures |Collected(dir, nav)| <= |nav|
  {
    if |nav| > 0 {
      CollectedAtMostNav(dir, nav[..|nav| - 1]);
    }
  }

  /** When every entry has a file, there is one document per entry, each
      the entry's own contribution. */
  lemma CollectedAllFound(dir: DocsDir, nav: seq<NavEntry>)
    requires forall k :: 0 <= k < |nav| ==> |Found(dir, nav[k])| == 1
    ensures |Collected(dir, nav)| == |nav|
    ensures forall k :: 0 <= k < |nav| ==> Collected(dir, nav)[k] == Found(dir, nav[k])[0]
  {
    FlattenSingles(nav, (e: NavEntry) => Found(dir, e));
  }

  /** An entry for a file in a sub-directory has a `/` in its path, which no
      top-level stem ends with, so it contributes nothing. */
  lemma CollectedSkipsNested(dir: DocsDir, nav: seq<NavEntry>, e: NavEntry)
    requires '/' in e.path
    ensures Collected(dir, nav + [e]) == Collected(dir, nav)
  {
    CollectedSnoc(dir, nav, e);
    SeparatorMatchesNoStem(dir, e.path);
  }

  /** Without a documents directory nothing is gathered. */
  lemma {:induction false} CollectedMissingDirectory(nav: seq<NavEntry>)
    ensures Collected(NoDocsDir, nav) == []
  {
    if |nav| > 0 {
      CollectedMissingDirectory(nav[..|nav| - 1]);
    }
  }

  // ---------------------------------------------------------------------------
  // The download
  // ---------------------------------------------------------------------------

  /** Why the download fails: nothing to export (a 404), or a configured
      project name that is not a string, which has no `replace`. */
  datatype ExportError = NoDocuments | NameNotString

  /** The file sent back and the name it is offered under. */
  datatype Download = Download(filename: string, text: string)

  /** `export.qmd.project_name` when it is truthy, else a set site name, else
      `Documentation`: the rule the exporter applies to a missing name. */
  function RequestedName(config: Value): (r: Value)
    ensures var own := Get(config, "export.qmd.project_name", VNull);
      && (Truthy(own) ==> r == own)
      && (!Truthy(own) && IsSet(config, "site_name") ==> r == Lookup(config.entries, "site_name").value)
      && (!Truthy(own) && !IsSet(config, "site_name") ==> r == VStr(DefaultProjectName))
    ensures r == ProjectName(config, Get(config, "export.qmd.project_name", VNull))
  {
    GetSingle(config, "site_name", VStr(DefaultProjectName));
    Or(Get(config, "export.qmd.project_name", VNull), Get(config, "site_name", VStr(DefaultProjectName)))
  }

  /** The route names the file after the same project name that heads the
      export, so the exporter never falls back on its own. */
  lemma RequestedNameIsExportName(config: Value)
    ensures ProjectName(config, RequestedName(config)) == RequestedName(config)
  {
    var r := RequestedName(config);
    if !Truthy(r) {
      GetSingle(config, "site_name", VStr(DefaultProjectName));
      assert !IsSet(config, "site_name") || !Truthy(Lookup(config.entries, "site_name").value);
    }
  }

  /** The download name: spaces become underscores. */
  function DownloadName(name: string): (r: string)
    ensures EndsWith(r, "_documentation.qmd")
    ensures ' ' !in r
    ensures |r| == |name| + 18
    ensures forall k :: 0 <= k < |name| ==> r[k] == (if name[k] == ' ' then '_' else name[k])
  {
    var stem := ReplaceChar(name, ' ', '_');
    var r := stem + "_documentation.qmd";
    assert r[|stem|..] == "_documentation.qmd";
    assert forall k :: 0 <= k < |r| ==> r[k] != ' ' by {
      forall k | 0 <= k < |r| ensures r[k] != ' ' {
        if k < |stem| {
          assert r[k] == stem[k];
        } else {
          assert r[k] == "_documentation.qmd"[k - |stem|];
        }
      }
    }
    r
  }

  /** A name without underscores is recovered from its download name. */
  lemma DownloadNameRecoversName(name: string)
    requires '_' !in name
    ensures ReplaceChar(DownloadName(name)[..|name|], '_', ' ') == name
  {
    var r := DownloadName(name);
    assert r[..|name|] == ReplaceChar(name, ' ', '_');
  }

  /** `export_qmd_all`. */
  function ExportQmdAll(config: Value, dir: DocsDir, nav: seq<NavEntry>, today: string): (r: Result<Download, ExportError>)
    ensures r == Failure(NoDocuments) <==> Collected(dir, nav) == []
    ensures r == Failure(NameNotString) <==> Collected(dir, nav) != [] && !RequestedName(config).VStr?
    ensures r.Success? ==> r.value.text == AllDocumentsText(config, Collected(dir, nav), RequestedName(config), today)
    ensures r.Success? ==> r.value.filename == DownloadName(RequestedName(config).s)
  {
    var docs := Collected(dir, nav);
    if docs == [] then Failure(NoDocuments)
    else
      var name := RequestedName(config);
      var text := AllDocumentsText(config, docs, name, today);
      if !name.VStr? then Failure(NameNotString)
      else Success(Download(DownloadName(name.s), text))
  }

  /** A site without a documents directory has nothing to export. */
  lemma MissingDirectoryNotFound(config: Value, nav: seq<NavEntry>, today: string)
    ensures ExportQmdAll(config, NoDocsDir, nav, today) == Failure(NoDocuments)
  {
    CollectedMissingDirectory(nav);
  }

  // ---------------------------------------------------------------------------
  // Export settings for the page script
  // ---------------------------------------------------------------------------

  datatype ExportSettings = ExportSettings(qmdEnabled: Value, qmdButtonText: Value, showOnAllPages: Value)

  /** `export_config`: each setting has a non-null default, so none of the
      three answers is ever null. */
  function GetExportSettings(config: Value): (r: ExportSettings)
    ensures r.qmdEnabled != VNull && r.qmdButtonText != VNull && r.showOnAllPages != VNull
  {
    ExportSettings(
      Get(config, "export.qmd.enabled", VBool(true)),
      Get(config, "export.qmd.button_text", VStr("Export Documentation")),
      Get(config, "export.show_on_all_pages", VBool(true)))
  }

  /** The value stored under `key` in a mapping, when it is present and not null. */
  predicate HasChild(v: Value, key: string) {
    v.VMap? && Lookup(v.entries, key).Some? && Lookup(v.entries, key).value != VNull
  }

  /** `get("a.b.c")` reads `c` from the section `b` of the section `a`, or
      gives the default when either section is missing or null. */
  lemma GetNested(config: Value, a: string, b: string, c: string, key: string, default: Value)
    requires key == a + "." + (b + "." + c) && '.' !in a && '.' !in b
    ensures HasChild(config, a) && HasChild(Lookup(config.entries, a).value, b) ==>
      Get(config, key, default) == Get(Lookup(Lookup(config.entries, a).value.entries, b).value, c, default)
    ensures !(HasChild(config, a) && HasChild(Lookup(config.entries, a).value, b)) ==>
      Get(config, key, default) == default
  {
    GetDotted(config, a, b + "." + c, default);
    if HasChild(config, a) {
      GetDotted(Lookup(config.entries, a).value, b, c, default);
    }
  }

  /** `show_on_all_pages` is read from the `export` section, defaulting to
      true; a stored `false` is handed on as it is. */
  lemma ShowOnAllPagesSetting(config: Value)
    ensures HasChild(config, "export") ==>
      GetExportSettings(config).showOnAllPages
      == Get(Lookup(config.entries, "export").value, "show_on_all_pages", VBool(true))
    ensures !HasChild(config, "export") ==> GetExportSettings(config).showOnAllPages == VBool(true)
  {
    assert "export.show_on_all_pages" == "export" + "." + "show_on_all_pages";
    GetDotted(config, "export", "show_on_all_pages", VBool(true));
  }

  /** `qmd.enabled` is read from the `qmd` subsection of the `export`
      section, defaulting to true when either is missing. */
  lemma QmdEnabledSetting(config: Value)
    ensures HasChild(config, "export") && HasChild(Lookup(config.entries, "export").value, "qmd") ==>
      var qmd := Lookup(Lookup(config.entries, "export").value.entries, "qmd").value;
      GetExportSettings(config).qmdEnabled == Get(qmd, "enabled", VBool(true))
    ensures !(HasChild(config, "export") && HasChild(Lookup(config.entries, "export").value, "qmd")) ==>
      GetExportSettings(config).qmdEnabled == VBool(true)
  {
    assert "export.qmd.enabled" == "export" + "." + ("qmd" + "." + "enabled");
    GetNested(config, "export", "qmd", "enabled", "export.qmd.enabled", VBool(true));
  }

  /** `qmd.button_text` likewise, defaulting to `Export Documentation`. */
  lemma QmdButtonTextSetting(config: Value)
    ensures HasChild(config, "export") && HasChild(Lookup(config.entries, "export").value, "qmd") ==>
      var qmd := Lookup(Lookup(config.entries, "export").value.entries, "qmd").value;
      GetExportSettings(config).qmdButtonText == Get(qmd, "button_text", VStr("Export Documentation"))
    ensures !(HasChild(config, "export") && HasChild(Lookup(config.entries, "export").value, "qmd")) ==>
      GetExportSettings(config).qmdButtonText == VStr("Export Documentation")
  {
    assert "export.qmd.button_text" == "export" + "." + ("qmd" + "." + "button_text");
    GetNested(config, "export", "qmd", "button_text", "export.qmd.button_text", VStr("Export Documentation"));
  }

  /** Without an `export` section every setting takes its default. */
  lemma ExportSettingsDefaults(config: Value)
    requires !HasChild(config, "export")
    ensures GetExportSettings(config) == ExportSettings(VBool(true), VStr("Export Documentation"), VBool(true))
  {
    QmdEnabledSetting(config);
    QmdButtonTextSetting(config);
    ShowOnAllPagesSetting(config);
  }

  /** The route's own project name is `project_name` in the `qmd` subsection
      of the `export` section, or null when either is missing. */
  lemma QmdProjectNameSetting(config: Value)
    ensures HasChild(config, "export") && HasChild(Lookup(config.entries, "export").value, "qmd") ==>
      var qmd := Lookup(Lookup(config.entries, "export").value.entries, "qmd").value;
      Get(config, "export.qmd.project_name", VNull) == Get(qmd, "project_name", VNull)
    ensures !(HasChild(config, "export") && HasChild(Lookup(config.entries, "export").value, "qmd")) ==>
      Get(config, "export.qmd.project_name", VNull) == VNull
  {
    assert "export.qmd.project_name" == "export" + "." + ("qmd" + "." + "project_name");
    GetNested(config, "export", "qmd", "project_name", "export.qmd.project_name", VNull);
  }
}
