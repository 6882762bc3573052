/** The theme loader: named colour palettes discovered in a themes directory,
    one YAML file per theme, keyed by file stem. */
module Themes {
  import opened Wrappers
  import opened Values

  /** The theme substituted for a name that was not discovered. */
  const DefaultThemeName: string := "ncmds_default"

  /** The eleven colour fields the presentation layer consumes. */
  const ColorKeys: set<string> := {
    "primary_color", "secondary_color", "background_color", "surface_color",
    "text_color", "text_secondary", "accent_color", "border_color",
    "code_background", "link_color", "link_hover"
  }

  /** The hardcoded palette used whenever no theme file can supply one. */
  const DefaultColors: Value := VMap([
    ("primary_color", VStr("#3b82f6")),
    ("secondary_color", VStr("#8b5cf6")),
    ("background_color", VStr("#0f1e35")),
    ("surface_color", VStr("#1a2942")),
    ("text_color", VStr("#e8edf5")),
    ("text_secondary", VStr("#a8b5d1")),
    ("accent_color", VStr("#06b6d4")),
    ("border_color", VStr("#2a4365")),
    ("code_background", VStr("#132336")),
    ("link_color", VStr("#60a5fa")),
    ("link_hover", VStr("#93c5fd"))
  ])

  /** The names of the default palette's fields, in order. */
  lemma DefaultColorNames()
    ensures DefaultColors.VMap? && |DefaultColors.entries| == 11
    ensures seq(11, i requires 0 <= i < 11 => DefaultColors.entries[i].0) == [
      "primary_color", "secondary_color", "background_color", "surface_color",
      "text_color", "text_secondary", "accent_color", "border_color",
      "code_background", "link_color", "link_hover"]
  {
  }

  /** The default palette holds every one of the eleven colour fields, and
      nothing else, each with a non-empty string. */
  lemma DefaultColorsComplete()
    ensures DefaultColors.VMap? && |DefaultColors.entries| == 11
    ensures Keys(DefaultColors.entries) == ColorKeys
    ensures forall i :: 0 <= i < 11 ==> Truthy(DefaultColors.entries[i].1)
  {
    DefaultColorNames();
    ColorKeysPresent();
    forall k | k in Keys(DefaultColors.entries) ensures k in ColorKeys {
      var i :| 0 <= i < 11 && DefaultColors.entries[i].0 == k;
    }
  }

  lemma ColorKeysPresent()
    ensures ColorKeys <= Keys(DefaultColors.entries)
  {
    var e := DefaultColors.entries;
    DefaultColorNames();
    forall k | k in ColorKeys ensures k in Keys(e) {
      if k == "primary_color" { assert e[0].0 == k; }
      else if k == "secondary_color" { assert e[1].0 == k; }
      else if k == "background_color" { assert e[2].0 == k; }
      else if k == "surface_color" { assert e[3].0 == k; }
      else if k == "text_color" { assert e[4].0 == k; }
      else if k == "text_secondary" { assert e[5].0 == k; }
      else if k == "accent_color" { assert e[6].0 == k; }
      else if k == "border_color" { assert e[7].0 == k; }
      else if k == "code_background" { assert e[8].0 == k; }
      else if k == "link_color" { assert e[9].0 == k; }
      else { assert e[10].0 == k; }
    }
  }

  /** A `*.yaml` file of the themes directory: its stem and what reading it gives. */
  datatype ThemeFile = ThemeFile(stem: string, source: Source)

  /** The loader after discovery: each discovered theme name with its file. */
  datatype ThemeLoader = ThemeLoader(available: map<string, Source>)

  /** Discovery: an absent themes directory discovers nothing; otherwise each
      file's stem maps to that file, a later file replacing an earlier one
      with the same stem. */
  function Discover(dir: Option<seq<ThemeFile>>): (l: ThemeLoader)
    ensures dir.None? ==> l.available == map[]
    ensures dir.Some? ==> l.available.Keys == set f | f in dir.value :: f.stem
    ensures dir.Some? ==> forall i :: 0 <= i < |dir.value| && LastWithStem(dir.value, i) ==>
      l.available[dir.value[i].stem] == dir.value[i].source
  {
    match dir
    case None => ThemeLoader(map[])
    case Some(files) => ThemeLoader(DiscoverFiles(files))
  }

  /** No later file has the same stem as file `i`. */
  predicate LastWithStem(files: seq<ThemeFile>, i: int)
    requires 0 <= i < |files|
  {
    forall j :: i < j < |files| ==> files[j].stem != files[i].stem
  }

  function DiscoverFiles(files: seq<ThemeFile>): (m: map<string, Source>)
    ensures m.Keys == set f | f in files :: f.stem
    ensures forall i :: 0 <= i < |files| && LastWithStem(files, i) ==> m[files[i].stem] == files[i].source
  {
    if |files| == 0 then map[]
    else
      var init := files[..|files| - 1];
      var last := files[|files| - 1];
      var m := DiscoverFiles(init)[last.stem := last.source];
      assert forall f :: f in files <==> f in init || f == last;
      assert forall i :: 0 <= i < |init| ==> init[i] == files[i];
      m
  }

  /** `name in self.available_themes` for a name of any type: only a string
      can equal a discovered (string) key. */
  predicate IsDiscovered(l: ThemeLoader, name: Value) {
    name.VStr? && name.s in l.available
  }

  datatype ThemeError = UnhashableThemeName

  /** The `colors` value a theme file yields when it reads and parses to a
      mapping that has that key; `None` for every path that ends in the
      default palette (read error, parse error, a non-mapping document, no
      `colors` key). */
  function FileColors(source: Source, parse: string -> Option<Value>): Option<Value> {
    match source
    case Contents(text) =>
      (match parse(text)
       case Some(VMap(entries)) => Lookup(entries, "colors")
       case _ => None)
    case _ => None
  }

  /** `ThemeLoader.load_theme`. An undiscovered name is replaced by the
      default theme name; a default theme that is also undiscovered, or a
      file that does not supply colours, gives the hardcoded palette. A list
      or mapping used as the name cannot be looked up and raises. */
  function LoadTheme(l: ThemeLoader, name: Value, parse: string -> Option<Value>): (r: Result<Value, ThemeError>)
    ensures r.Failure? <==> !Hashable(name)
    ensures IsDiscovered(l, name) && FileColors(l.available[name.s], parse).Some? ==>
      r == Success(FileColors(l.available[name.s], parse).value)
    ensures IsDiscovered(l, name) && FileColors(l.available[name.s], parse).None? ==>
      r == Success(DefaultColors)
    ensures Hashable(name) && !IsDiscovered(l, name) && DefaultThemeName !in l.available ==>
      r == Success(DefaultColors)
    ensures r.Success? ==>
      r.value == DefaultColors || exists n :: n in l.available && FileColors(l.available[n], parse) == Some(r.value)
  {
    if !Hashable(name) then Failure(UnhashableThemeName)
    else
      var effective := if IsDiscovered(l, name) then name.s else DefaultThemeName;
      if effective !in l.available then Success(DefaultColors)
      else
        match FileColors(l.available[effective], parse)
        case Some(colors) => Success(colors)
        case None => Success(DefaultColors)
  }

  /** An undiscovered hashable name loads exactly what the default theme name loads. */
  lemma LoadThemeSubstitutesDefault(l: ThemeLoader, name: Value, parse: string -> Option<Value>)
    requires Hashable(name) && !IsDiscovered(l, name)
    ensures LoadTheme(l, name, parse) == LoadTheme(l, VStr(DefaultThemeName), parse)
  {
  }

  /** `ThemeLoader.get_theme_info`: `{}` for an undiscovered name or any read,
      parse or shape failure; otherwise the file's `name`, `description` and
      `author`, defaulting to the theme key, `''` and `''`. */
  function GetThemeInfo(l: ThemeLoader, name: string, parse: string -> Option<Value>): (r: Value)
    ensures r.VMap?
    ensures name !in l.available ==> r.entries == []
    ensures r.entries == [] || Keys(r.entries) == {"name", "description", "author"}
    ensures r.entries != [] <==>
      && name in l.available && l.available[name].Contents?
      && parse(l.available[name].text).Some? && parse(l.available[name].text).value.VMap?
    ensures r.entries != [] ==>
      var data := parse(l.available[name].text).value.entries;
      && Lookup(r.entries, "name") == Some(Lookup(data, "name").GetOr(VStr(name)))
      && Lookup(r.entries, "description") == Some(Lookup(data, "description").GetOr(VStr("")))
      && Lookup(r.entries, "author") == Some(Lookup(data, "author").GetOr(VStr("")))
  {
    if name !in l.available then VMap([])
    else
      match l.available[name]
      case Contents(text) =>
        (match parse(text)
         case Some(VMap(data)) =>
           var info := [
             ("name", Lookup(data, "name").GetOr(VStr(name))),
             ("description", Lookup(data, "description").GetOr(VStr(""))),
             ("author", Lookup(data, "author").GetOr(VStr("")))
           ];
           assert info[0].0 == "name" && info[1].0 == "description" && info[2].0 == "author";
           assert Keys(info) == {"name", "description", "author"};
           VMap(info)
         case _ => VMap([]))
      case _ => VMap([])
  }

  /** `ThemeLoader.list_themes`: one entry per discovered theme, each its info. */
  function ListThemes(l: ThemeLoader, parse: string -> Option<Value>): (r: map<string, Value>)
    ensures r.Keys == l.available.Keys
    ensures forall n :: n in r ==> r[n] == GetThemeInfo(l, n, parse)
  {
    map n | n in l.available :: GetThemeInfo(l, n, parse)
  }
}

/** The configuration manager: defaults deep-merged with a user YAML file,
    the active theme resolved into the configuration, dotted lookups. */
module Config {
  import opened Wrappers
  import opened Strings
  import opened Values
  import opened Themes

  /** The configuration used when no user file overrides it. */
  const Defaults: Value := VMap([
    ("site_name", VStr("NCMDS Documentation")),
    ("author", VStr("edujbarrios")),
    ("description", VStr("No Code Markdown Sites - Easy documentation builder")),
    ("theme_name", VStr("ncmds_default")),
    ("server", VMap([
      ("host", VStr("0.0.0.0")),
      ("port", VInt(5000)),
      ("debug", VBool(true))
    ])),
    ("directories", VMap([
      ("docs", VStr("docs")),
      ("static", VStr("static")),
      ("templates", VStr("templates"))
    ])),
    ("features", VMap([
      ("table_of_contents", VBool(true)),
      ("syntax_highlighting", VBool(true)),
      ("auto_reload", VBool(true)),
      ("search", VBool(false))
    ]))
  ])

  // ---------------------------------------------------------------------------
  // Deep merge
  // ---------------------------------------------------------------------------

  /** The value a merge stores under a key whose base value was `previous`: two
      mappings merge recursively, anything else is replaced by `update`. */
  function MergeValue(previous: Option<Value>, update: Value): Value
    decreases update, if update.VMap? then |update.entries| + 1 else 0
  {
    match previous
    case Some(VMap(base)) =>
      if update.VMap? then VMap(MergeAt(base, update, 0)) else update
    case _ => update
  }

  /** Folding the entries of `u` from index `i` onwards into `base`. */
  function MergeAt(base: Entries, u: Value, i: nat): Entries
    requires u.VMap? && i <= |u.entries|
    decreases u, |u.entries| - i
  {
    if i == |u.entries| then base
    else
      var e := u.entries[i];
      assert e < u;
      MergeAt(SetKey(base, e.0, MergeValue(Lookup(base, e.0), e.1)), u, i + 1)
  }

  /** `ConfigManager._deep_merge(base, update)` on two mappings. */
  function DeepMerge(base: Entries, update: Entries): (r: Entries)
    ensures Keys(r) == Keys(base) + Keys(update)
    ensures update == [] ==> r == base
    ensures UniqueKeys(base) ==> UniqueKeys(r)
  {
    MergeAtKeys(base, VMap(update), 0);
    MergeAtUnique(base, VMap(update), 0);
    assert update[0..] == update;
    MergeAt(base, VMap(update), 0)
  }

  lemma TailKeys(entries: Entries, i: nat)
    requires i < |entries|
    ensures Keys(entries[i..]) == {entries[i].0} + Keys(entries[i + 1..])
  {
    KeysSplit(entries[i..]);
    assert entries[i..][1..] == entries[i + 1..];
  }

  lemma {:induction false} MergeAtKeys(base: Entries, u: Value, i: nat)
    requires u.VMap? && i <= |u.entries|
    ensures Keys(MergeAt(base, u, i)) == Keys(base) + Keys(u.entries[i..])
    decreases |u.entries| - i
  {
    if i == |u.entries| {
      assert u.entries[i..] == [];
    } else {
      var e := u.entries[i];
      MergeAtKeys(SetKey(base, e.0, MergeValue(Lookup(base, e.0), e.1)), u, i + 1);
      TailKeys(u.entries, i);
    }
  }

  lemma {:induction false} MergeAtUnique(base: Entries, u: Value, i: nat)
    requires u.VMap? && i <= |u.entries|
    ensures UniqueKeys(base) ==> UniqueKeys(MergeAt(base, u, i))
    decreases |u.entries| - i
  {
    if i < |u.entries| {
      var e := u.entries[i];
      MergeAtUnique(SetKey(base, e.0, MergeValue(Lookup(base, e.0), e.1)), u, i + 1);
    }
  }

  /** Keys the remaining update entries do not mention keep their base value. */
  lemma {:induction false} MergeAtKeepsBase(base: Entries, u: Value, i: nat, k: string)
    requires u.VMap? && i <= |u.entries|
    requires k !in Keys(u.entries[i..])
    ensures Lookup(MergeAt(base, u, i), k) == Lookup(base, k)
    decreases |u.entries| - i
  {
    if i < |u.entries| {
      var e := u.entries[i];
      TailKeys(u.entries, i);
      MergeAtKeepsBase(SetKey(base, e.0, MergeValue(Lookup(base, e.0), e.1)), u, i + 1, k);
    }
  }

  lemma UniqueTail(entries: Entries, j: nat)
    requires UniqueKeys(entries) && j < |entries|
    ensures entries[j].0 !in Keys(entries[j + 1..])
  {
    var t := entries[j + 1..];
    forall m | 0 <= m < |t| ensures t[m].0 != entries[j].0 {
      assert t[m] == entries[j + 1 + m];
    }
  }

  /** A key of the update holds the merge of its base value and its update value. */
  lemma {:induction false} MergeAtUpdated(base: Entries, u: Value, i: nat, j: nat)
    requires u.VMap? && UniqueKeys(u.entries)
    requires i <= j < |u.entries|
    ensures Lookup(MergeAt(base, u, i), u.entries[j].0)
         == Some(MergeValue(Lookup(base, u.entries[j].0), u.entries[j].1))
    decreases |u.entries| - i
  {
    var e := u.entries[i];
    var next := SetKey(base, e.0, MergeValue(Lookup(base, e.0), e.1));
    if i == j {
      UniqueTail(u.entries, j);
      MergeAtKeepsBase(next, u, i + 1, e.0);
    } else {
      assert u.entries[i].0 != u.entries[j].0;
      MergeAtUpdated(next, u, i + 1, j);
    }
  }

  /** The merge keeps every base-only key's value and gives every update key
      the recursive merge (two mappings) or the update's value (otherwise). */
  lemma DeepMergeLookup(base: Entries, update: Entries, k: string)
    requires UniqueKeys(update)
    ensures k !in Keys(update) ==> Lookup(DeepMerge(base, update), k) == Lookup(base, k)
    ensures k in Keys(update) ==>
      Lookup(DeepMerge(base, update), k) == Some(MergeValue(Lookup(base, k), Lookup(update, k).value))
  {
    assert update[0..] == update;
    if k in Keys(update) {
      var j :| 0 <= j < |update| && update[j] == (k, Lookup(update, k).value);
      MergeAtUpdated(base, VMap(update), 0, j);
    } else {
      MergeAtKeepsBase(base, VMap(update), 0, k);
    }
  }

  /** Merging `{a: {y: 3, z: 4}}` over `{a: {x: 1, y: 2}}` gives `{a: {x: 1, y: 3, z: 4}}`. */
  lemma DeepMergeNestedExample()
    ensures DeepMerge([("a", VMap([("x", VInt(1)), ("y", VInt(2))]))],
                      [("a", VMap([("y", VInt(3)), ("z", VInt(4))]))])
         == [("a", VMap([("x", VInt(1)), ("y", VInt(3)), ("z", VInt(4))]))]
  {
    var update := VMap([("a", VMap([("y", VInt(3)), ("z", VInt(4))]))]);
    NestedMergeStep(update);
  }

  lemma NestedMergeStep(update: Value)
    requires update == VMap([("a", VMap([("y", VInt(3)), ("z", VInt(4))]))])
    ensures MergeAt([("a", VMap([("x", VInt(1)), ("y", VInt(2))]))], update, 0)
         == [("a", VMap([("x", VInt(1)), ("y", VInt(3)), ("z", VInt(4))]))]
  {
    var inner := [("x", VInt(1)), ("y", VInt(2))];
    var merged := [("x", VInt(1)), ("y", VInt(3)), ("z", VInt(4))];
    var base := [("a", VMap(inner))];
    InnerMergeValue(update.entries[0].1);
    assert Lookup(base, "a") == Some(VMap(inner));
    assert SetKey(base, "a", VMap(merged)) == [("a", VMap(merged))];
  }

  lemma InnerMergeValue(u: Value)
    requires u == VMap([("y", VInt(3)), ("z", VInt(4))])
    ensures MergeValue(Some(VMap([("x", VInt(1)), ("y", VInt(2))])), u)
         == VMap([("x", VInt(1)), ("y", VInt(3)), ("z", VInt(4))])
  {
    InnerMergeExample();
  }

  lemma InnerMergeExample()
    ensures MergeAt([("x", VInt(1)), ("y", VInt(2))], VMap([("y", VInt(3)), ("z", VInt(4))]), 0)
         == [("x", VInt(1)), ("y", VInt(3)), ("z", VInt(4))]
  {
    var u := VMap([("y", VInt(3)), ("z", VInt(4))]);
    InnerMergeFirst(u);
    InnerMergeSecond(u);
  }

  lemma InnerMergeFirst(u: Value)
    requires u == VMap([("y", VInt(3)), ("z", VInt(4))])
    ensures MergeAt([("x", VInt(1)), ("y", VInt(2))], u, 0) == MergeAt([("x", VInt(1)), ("y", VInt(3))], u, 1)
  {
    var base := [("x", VInt(1)), ("y", VInt(2))];
    assert Lookup(base, "y") == Some(VInt(2));
    assert SetKey(base, "y", VInt(3)) == [("x", VInt(1)), ("y", VInt(3))];
  }

  lemma InnerMergeSecond(u: Value)
    requires u == VMap([("y", VInt(3)), ("z", VInt(4))])
    ensures MergeAt([("x", VInt(1)), ("y", VInt(3))], u, 1) == [("x", VInt(1)), ("y", VInt(3)), ("z", VInt(4))]
  {
    var step := [("x", VInt(1)), ("y", VInt(3))];
    assert Lookup(step, "z") == None;
    assert SetKey(step, "z", VInt(4)) == [("x", VInt(1)), ("y", VInt(3)), ("z", VInt(4))];
  }

  // ---------------------------------------------------------------------------
  // Loading and dotted lookup
  // ---------------------------------------------------------------------------

  /** `ConfigManager._load_config`: the defaults, deep-merged with the user
      file when that file reads and loads to a mapping. A missing or
      unreadable file, a parse error, an empty document and any non-mapping
      document leave the defaults untouched. */
  function LoadConfig(file: Source, parse: string -> Option<Value>): (r: Value)
    ensures r.VMap?
    ensures UniqueKeys(r.entries)
    ensures Keys(Defaults.entries) <= Keys(r.entries)
    ensures !(file.Contents? && parse(file.text).Some? && parse(file.text).value.VMap?) ==> r == Defaults
    ensures file.Contents? && parse(file.text).Some? && parse(file.text).value.VMap? ==>
      r == VMap(DeepMerge(Defaults.entries, parse(file.text).value.entries))
      && Keys(r.entries) == Keys(Defaults.entries) + Keys(parse(file.text).value.entries)
  {
    DefaultsUnique();
    match file
    case Contents(text) =>
      (match parse(text)
       case Some(VMap(user)) => VMap(DeepMerge(Defaults.entries, user))
       case _ => Defaults)
    case _ => Defaults
  }

  lemma DefaultsUnique()
    ensures Defaults.VMap? && UniqueKeys(Defaults.entries)
  {
    var e := Defaults.entries;
    assert e[0].0 == "site_name" && e[1].0 == "author" && e[2].0 == "description";
    assert e[3].0 == "theme_name" && e[4].0 == "server" && e[5].0 == "directories";
    assert e[6].0 == "features";
  }

  /** Following dotted-key segments: a missing or null value, or a non-mapping
      reached before the last segment, gives the default. */
  function Walk(v: Value, segments: seq<string>, default: Value): (r: Value)
    ensures |segments| > 0 ==> r == default || r != VNull
    decreases |segments|
  {
    if |segments| == 0 then v
    else if !v.VMap? then default
    else
      match Lookup(v.entries, segments[0])
      case None => default
      case Some(child) => if child == VNull then default else Walk(child, segments[1..], default)
  }

  /** `ConfigManager.get(key, default)`: never fails, and never returns null
      unless the default is null. */
  function Get(config: Value, key: string, default: Value): (r: Value)
    ensures r == default || r != VNull
    ensures !config.VMap? ==> r == default
  {
    Walk(config, Split(key, '.'), default)
  }

  /** A key without dots is looked up directly; a present, non-null value is
      returned as it is, falsy or not. */
  lemma GetSingle(config: Value, key: string, default: Value)
    requires '.' !in key
    ensures config.VMap? && Lookup(config.entries, key).Some? && Lookup(config.entries, key).value != VNull ==>
      Get(config, key, default) == Lookup(config.entries, key).value
    ensures !(config.VMap? && Lookup(config.entries, key).Some? && Lookup(config.entries, key).value != VNull) ==>
      Get(config, key, default) == default
  {
    SplitPiece(key, '.');
    assert Split(key, '.') == [key] && [key][1..] == [];
    if config.VMap? && Lookup(config.entries, key).Some? && Lookup(config.entries, key).value != VNull {
      var child := Lookup(config.entries, key).value;
      assert Walk(config, [key], default) == Walk(child, [], default);
    }
  }

  /** `get("a.rest")` is `get("rest")` on the value at `a`, or the default
      when that value is missing or null. */
  lemma GetDotted(config: Value, first: string, rest: string, default: Value)
    requires '.' !in first
    ensures config.VMap? && Lookup(config.entries, first).Some? && Lookup(config.entries, first).value != VNull ==>
      Get(config, first + "." + rest, default) == Get(Lookup(config.entries, first).value, rest, default)
    ensures !(config.VMap? && Lookup(config.entries, first).Some? && Lookup(config.entries, first).value != VNull) ==>
      Get(config, first + "." + rest, default) == default
  {
    SplitAfterPiece(first, '.', rest);
    var segs := Split(first + "." + rest, '.');
    assert segs[1..] == Split(rest, '.');
  }

  /** A stored `false` is returned even when the default is `true`. */
  lemma GetKeepsFalse()
    ensures Get(VMap([("search", VBool(false))]), "search", VBool(true)) == VBool(false)
  {
    GetSingle(VMap([("search", VBool(false))]), "search", VBool(true));
  }

  // ---------------------------------------------------------------------------
  // Theme resolution
  // ---------------------------------------------------------------------------

  /** The configuration defines its theme inline: `theme` is a mapping with
      both a `dark` and a `light` variant. */
  predicate HasInlineTheme(config: Value) {
    && config.VMap?
    && Lookup(config.entries, "theme").Some?
    && HasKey(Lookup(config.entries, "theme").value, "dark")
    && HasKey(Lookup(config.entries, "theme").value, "light")
  }

  /** `config.get('theme_name', 'ncmds_default')` on the top-level mapping. */
  function RequestedThemeName(config: Value): Value
    requires config.VMap?
  {
    Lookup(config.entries, "theme_name").GetOr(VStr(DefaultThemeName))
  }

  /** `ConfigManager._resolve_theme`. An inline theme is kept as it is.
      Otherwise `theme` becomes the palette loaded for the requested name and
      `active_theme_name` the requested name itself, even when the loader
      substituted the default theme; nothing else changes. */
  function ResolveTheme(config: Value, l: ThemeLoader, parse: string -> Option<Value>): (r: Result<Value, ThemeError>)
    requires config.VMap?
    ensures HasInlineTheme(config) ==> r == Success(config)
    ensures !HasInlineTheme(config) ==> (r.Failure? <==> !Hashable(RequestedThemeName(config)))
    ensures r.Success? ==> r.value.VMap?
    ensures r.Success? && !HasInlineTheme(config) ==>
      && Lookup(r.value.entries, "theme") == Some(LoadTheme(l, RequestedThemeName(config), parse).value)
      && Lookup(r.value.entries, "active_theme_name") == Some(RequestedThemeName(config))
      && Keys(r.value.entries) == Keys(config.entries) + {"theme", "active_theme_name"}
      && forall k :: k != "theme" && k != "active_theme_name" ==>
           Lookup(r.value.entries, k) == Lookup(config.entries, k)
    ensures r.Success? && UniqueKeys(config.entries) ==> UniqueKeys(r.value.entries)
  {
    if HasInlineTheme(config) then Success(config)
    else
      var name := RequestedThemeName(config);
      match LoadTheme(l, name, parse)
      case Failure(e) => Failure(e)
      case Success(colors) =>
        Success(VMap(SetKey(SetKey(config.entries, "theme", colors), "active_theme_name", name)))
  }

  /** An undiscovered requested name keeps its own name as the active theme
      name while the palette is the default theme's. */
  lemma ResolveKeepsRequestedName(config: Value, l: ThemeLoader, parse: string -> Option<Value>, name: string)
    requires config.VMap? && !HasInlineTheme(config)
    requires RequestedThemeName(config) == VStr(name) && name !in l.available
    ensures ResolveTheme(config, l, parse).Success?
    ensures Lookup(ResolveTheme(config, l, parse).value.entries, "active_theme_name") == Some(VStr(name))
    ensures Lookup(ResolveTheme(config, l, parse).value.entries, "theme")
         == Some(LoadTheme(l, VStr(DefaultThemeName), parse).value)
  {
    LoadThemeSubstitutesDefault(l, VStr(name), parse);
  }

  // ---------------------------------------------------------------------------
  // The manager
  // ---------------------------------------------------------------------------

  /** A configuration manager: the resolved configuration and the theme
      loader built once when the manager was created. */
  datatype Manager = Manager(config: Value, loader: ThemeLoader)

  /** `ConfigManager.__init__`: discover themes, load, resolve. A failing
      resolution means no manager is built. Built, the configuration is the
      loaded one with the theme resolved: every default key is present and
      every key other than `theme` and `active_theme_name` is as loaded. */
  function Create(file: Source, themesDir: Option<seq<ThemeFile>>, parse: string -> Option<Value>): (r: Result<Manager, ThemeError>)
    ensures r.Failure? <==> ResolveTheme(LoadConfig(file, parse), Discover(themesDir), parse).Failure?
    ensures r.Success? ==> r.value.loader == Discover(themesDir)
    ensures r.Success? ==> r.value.config == ResolveTheme(LoadConfig(file, parse), Discover(themesDir), parse).value
    ensures r.Success? ==> r.value.config.VMap? && Keys(Defaults.entries) <= Keys(r.value.config.entries)
    ensures r.Success? ==> forall k :: k != "theme" && k != "active_theme_name" ==>
      Lookup(r.value.config.entries, k) == Lookup(LoadConfig(file, parse).entries, k)
  {
    var reloaded := Reload(Manager(Defaults, Discover(themesDir)), file, parse);
    if reloaded.raised.Some? then Failure(reloaded.raised.value) else Success(reloaded.manager)
  }

  /** What `reload` leaves behind: the manager, and the error it raised, if any. */
  datatype Reloaded = Reloaded(manager: Manager, raised: Option<ThemeError>)

  /** `ConfigManager.reload`: recompute the configuration from the file and
      the already discovered themes; the previous configuration, including
      any theme switch, plays no part. The loaded configuration is stored
      before the theme is resolved, so a failing resolution leaves it in
      place, unresolved. */
  function Reload(m: Manager, file: Source, parse: string -> Option<Value>): (r: Reloaded)
    ensures r.manager.loader == m.loader && r.manager.config.VMap?
    ensures r.raised.Some? <==> ResolveTheme(LoadConfig(file, parse), m.loader, parse).Failure?
    ensures r.raised.Some? ==> r.manager.config == LoadConfig(file, parse)
    ensures r.raised.None? ==> r.manager.config == ResolveTheme(LoadConfig(file, parse), m.loader, parse).value
    ensures Keys(Defaults.entries) <= Keys(r.manager.config.entries)
    ensures forall k :: k != "theme" && k != "active_theme_name" ==>
      Lookup(r.manager.config.entries, k) == Lookup(LoadConfig(file, parse).entries, k)
  {
    var loaded := LoadConfig(file, parse);
    var resolved := ResolveTheme(loaded, m.loader, parse);
    if resolved.Success? then Reloaded(Manager(resolved.value, m.loader), None)
    else Reloaded(Manager(loaded, m.loader), Some(resolved.error))
  }

  /** Two managers sharing a loader reload to the same configuration. */
  lemma ReloadForgetsEdits(m1: Manager, m2: Manager, file: Source, parse: string -> Option<Value>)
    requires m1.loader == m2.loader
    ensures Reload(m1, file, parse) == Reload(m2, file, parse)
  {
  }

  /** `ConfigManager.switch_theme(name)`: refused, with nothing changed, unless
      the name is `custom` or a discovered theme; otherwise `theme_name` is set
      and the theme resolved again. */
  function SwitchTheme(m: Manager, name: string, parse: string -> Option<Value>): (r: (bool, Manager))
    requires m.config.VMap?
    ensures r.0 <==> name == "custom" || name in m.loader.available
    ensures !r.0 ==> r.1 == m
    ensures r.1.loader == m.loader && r.1.config.VMap?
    ensures r.0 ==> Lookup(r.1.config.entries, "theme_name") == Some(VStr(name))
    ensures r.0 && !HasInlineTheme(m.config) ==>
      && Lookup(r.1.config.entries, "theme") == Some(LoadTheme(m.loader, VStr(name), parse).value)
      && Lookup(r.1.config.entries, "active_theme_name") == Some(VStr(name))
    ensures r.0 && HasInlineTheme(m.config) ==>
      Lookup(r.1.config.entries, "theme") == Lookup(m.config.entries, "theme")
    ensures forall k :: k != "theme_name" && k != "theme" && k != "active_theme_name" ==>
      Lookup(r.1.config.entries, k) == Lookup(m.config.entries, k)
  {
    if name != "custom" && name !in m.loader.available then (false, m)
    else
      var edited := VMap(SetKey(m.config.entries, "theme_name", VStr(name)));
      assert RequestedThemeName(edited) == VStr(name);
      InlineThemeUnaffected(m.config, name);
      match ResolveTheme(edited, m.loader, parse)
      case Success(config) => (true, Manager(config, m.loader))
      case Failure(_) => (true, Manager(edited, m.loader))
  }

  lemma InlineThemeUnaffected(config: Value, name: string)
    requires config.VMap?
    ensures HasInlineTheme(VMap(SetKey(config.entries, "theme_name", VStr(name)))) == HasInlineTheme(config)
  {
  }

  /** A reload after a theme switch is a reload of the manager before it:
      the switch is lost. */
  lemma SwitchLostOnReload(m: Manager, name: string, file: Source, parse: string -> Option<Value>)
    requires m.config.VMap?
    ensures Reload(SwitchTheme(m, name, parse).1, file, parse) == Reload(m, file, parse)
  {
    ReloadForgetsEdits(SwitchTheme(m, name, parse).1, m, file, parse);
  }

  /** With an inline theme, an accepted switch only records the new name. */
  lemma SwitchWithInlineTheme(m: Manager, name: string, parse: string -> Option<Value>)
    requires m.config.VMap? && HasInlineTheme(m.config)
    requires name == "custom" || name in m.loader.available
    ensures SwitchTheme(m, name, parse) == (true, Manager(VMap(SetKey(m.config.entries, "theme_name", VStr(name))), m.loader))
  {
    InlineThemeUnaffected(m.config, name);
  }
}
