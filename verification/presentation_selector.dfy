/** The option resolver of the presentation selector: each metadata record
    becomes at most one runnable option for the requested action, and every
    option has a display label and an identity key. The terminal menu that
    shows the options is a collaborator; only its outcome is modelled. */
module PresentationSelector {
  import opened Wrappers
  import opened Text
  import opened MetadataLoader

  /** The two actions the selector serves. */
  datatype Action = Dev | Export

  function ActionName(action: Action): string {
    match action
    case Dev => "dev"
    case Export => "export"
  }

  /** How a chosen presentation is launched: through the workspace's script
      for the action, or directly against the slides file. The optional
      fields of the source's `run` object stay optional. */
  datatype Run =
    | WorkspaceRun(workspace: Option<string>, action: Action)
    | SlidesRun(slidesPath: Option<string>, relativeSlidesPath: Option<string>, action: Action)

  /** `PresentationOption`. */
  datatype PresentationOption = PresentationOption(
    folder: string,
    workspace: Option<string>,
    title: Option<string>,
    run: Run,
    slidesPath: Option<string>,
    relativeSlidesPath: Option<string>)

  /** JavaScript truthiness of an optional string: present and non-empty. */
  predicate Truthy(s: Option<string>) {
    s.Some? && s.value != ""
  }

  /** `scripts[action]` is truthy. */
  predicate HasScript(scripts: map<string, string>, action: Action) {
    ActionName(action) in scripts && scripts[ActionName(action)] != ""
  }

  /** The fields an option copies unchanged from its record. */
  predicate CarriesRecord(o: PresentationOption, m: Metadata) {
    && o.folder == m.folder
    && o.workspace == m.workspace
    && o.title == m.title
    && o.slidesPath == m.slidesPath
    && o.relativeSlidesPath == m.relativeSlidesPath
  }

  // ---------------------------------------------------------------------------
  // Resolving records into options
  // ---------------------------------------------------------------------------

  /** `createOptionFromMetadata`: a workspace run when the record names a
      workspace and a script for the action, else a slides run when it has a
      slides file, else nothing. */
  function CreateOption(m: Metadata, action: Action): (r: Option<PresentationOption>)
    ensures r.Some? ==> CarriesRecord(r.value, m) && r.value.run.action == action
    ensures (r.Some? && r.value.run.WorkspaceRun?) <==> Truthy(m.workspace) && HasScript(m.scripts, action)
    ensures (r.Some? && r.value.run.SlidesRun?) <==>
      !(Truthy(m.workspace) && HasScript(m.scripts, action)) && Truthy(m.slidesPath)
    ensures r.Some? && r.value.run.WorkspaceRun? ==> r.value.run.workspace == m.workspace
    ensures r.Some? && r.value.run.SlidesRun? ==>
      r.value.run.slidesPath == m.slidesPath && r.value.run.relativeSlidesPath == m.relativeSlidesPath
  {
    if Truthy(m.workspace) && HasScript(m.scripts, action) then
      Some(PresentationOption(m.folder, m.workspace, m.title, WorkspaceRun(m.workspace, action),
        m.slidesPath, m.relativeSlidesPath))
    else if Truthy(m.slidesPath) then
      Some(PresentationOption(m.folder, m.workspace, m.title,
        SlidesRun(m.slidesPath, m.relativeSlidesPath, action), m.slidesPath, m.relativeSlidesPath))
    else
      None
  }

  /** The resolution examples: a workspace with a `dev` script runs through
      the workspace for `dev`; for `export`, which it has no script for, it
      falls back to its slides file, and without one it has no option. */
  lemma CreateOptionExample(slidesPath: Option<string>)
    requires Truthy(slidesPath)
    ensures var m := Metadata("pkg", Some("pkg"), map["dev" := "slidev"], None, None, None);
      && CreateOption(m, Dev).Some? && CreateOption(m, Dev).value.run == WorkspaceRun(Some("pkg"), Dev)
      && CreateOption(m.(slidesPath := slidesPath), Export).Some?
      && CreateOption(m.(slidesPath := slidesPath), Export).value.run.SlidesRun?
      && CreateOption(m, Export) == None
  {
    assert "export" != "dev";
  }

  /** `b` is `a` with some elements left out, in the same order. */
  ghost predicate IsSubsequence<T>(a: seq<T>, b: seq<T>)
    decreases |b|
  {
    a == [] || (b != [] && ((a[0] == b[0] && IsSubsequence(a[1..], b[1..])) || IsSubsequence(a, b[1..])))
  }

  /** The option list of `selectPresentation`: map every record to its
      option and drop the records that have none. */
  function BuildOptions(records: seq<Metadata>, action: Action): (r: seq<PresentationOption>)
    ensures |r| <= |records|
  {
    if records == [] then []
    else
      var rest := BuildOptions(records[1..], action);
      match CreateOption(records[0], action)
      case Some(o) => [o] + rest
      case None => rest
  }

  /** Every resolution of a record, in record order: the `map` step. */
  function Resolutions(records: seq<Metadata>, action: Action): seq<Option<PresentationOption>> {
    seq(|records|, i requires 0 <= i < |records| => CreateOption(records[i], action))
  }

  /** The present values, in order: the `filter` step. */
  function Somes<T>(xs: seq<Option<T>>): seq<T> {
    if xs == [] then []
    else (if xs[0].Some? then [xs[0].value] else []) + Somes(xs[1..])
  }

  /** Every element as a present value. */
  function Present<T>(xs: seq<T>): seq<Option<T>> {
    seq(|xs|, i requires 0 <= i < |xs| => Some(xs[i]))
  }

  /** The options are the present resolutions in record order, one per
      record that resolves: the map step followed by the filter step. */
  lemma {:induction false} OptionsFilterResolutions(records: seq<Metadata>, action: Action)
    ensures BuildOptions(records, action) == Somes(Resolutions(records, action))
    decreases |records|
  {
    if records != [] {
      OptionsFilterResolutions(records[1..], action);
      assert Resolutions(records, action)[1..] == Resolutions(records[1..], action);
    }
  }

  /** A value survives the filter exactly when it is present in the input. */
  lemma {:induction false} SomesMembership<T>(xs: seq<Option<T>>, v: T)
    ensures v in Somes(xs) <==> Some(v) in xs
    decreases |xs|
  {
    if xs != [] {
      SomesMembership(xs[1..], v);
      assert xs == [xs[0]] + xs[1..];
    }
  }

  /** The filter keeps the present values in their order. */
  lemma {:induction false} SomesSubsequence<T>(xs: seq<Option<T>>)
    ensures IsSubsequence(Present(Somes(xs)), xs)
    decreases |xs|
  {
    if xs != [] {
      var rest := Somes(xs[1..]);
      SomesSubsequence(xs[1..]);
      if xs[0].Some? {
        assert Somes(xs) == [xs[0].value] + rest;
        assert Present(Somes(xs))[1..] == Present(rest);
      } else {
        assert Somes(xs) == rest;
      }
    }
  }

  /** So an option is in the list exactly when some record resolves to it,
      and the list is an order-preserving subsequence of the resolutions. */
  lemma OptionsAreResolutions(records: seq<Metadata>, action: Action)
    ensures BuildOptions(records, action) == Somes(Resolutions(records, action))
    ensures IsSubsequence(Present(BuildOptions(records, action)), Resolutions(records, action))
    ensures forall o :: o in BuildOptions(records, action) <==>
      exists m :: m in records && CreateOption(m, action) == Some(o)
  {
    var resolutions := Resolutions(records, action);
    OptionsFilterResolutions(records, action);
    SomesSubsequence(resolutions);
    forall o ensures o in BuildOptions(records, action) <==>
      exists m :: m in records && CreateOption(m, action) == Some(o)
    {
      SomesMembership(resolutions, o);
      if Some(o) in resolutions {
        var i :| 0 <= i < |resolutions| && resolutions[i] == Some(o);
        assert records[i] in records;
      }
    }
  }

  /** Options of records with distinct folders have distinct folders. */
  lemma {:induction false} OptionsKeepFoldersDistinct(records: seq<Metadata>, action: Action)
    requires DistinctFolders(records)
    ensures forall i, j :: 0 <= i < j < |BuildOptions(records, action)| ==>
      BuildOptions(records, action)[i].folder != BuildOptions(records, action)[j].folder
    decreases |records|
  {
    if records != [] {
      var tail := records[1..];
      assert DistinctFolders(tail) by {
        assert forall i :: 0 <= i < |tail| ==> tail[i] == records[i + 1];
      }
      OptionsKeepFoldersDistinct(tail, action);
      var rest := BuildOptions(tail, action);
      forall o | o in rest ensures o.folder != records[0].folder {
        OptionFolderOfRecord(tail, action, o);
        var k :| 0 <= k < |tail| && tail[k].folder == o.folder;
        assert records[k + 1] == tail[k];
      }
    }
  }

  /** Every option's folder is the folder of some record. */
  lemma {:induction false} OptionFolderOfRecord(records: seq<Metadata>, action: Action, o: PresentationOption)
    requires o in BuildOptions(records, action)
    ensures exists k :: 0 <= k < |records| && records[k].folder == o.folder
    decreases |records|
  {
    var tail := records[1..];
    if o in BuildOptions(tail, action) {
      OptionFolderOfRecord(tail, action, o);
      var k :| 0 <= k < |tail| && tail[k].folder == o.folder;
      assert records[k + 1] == tail[k];
    } else {
      assert records[0].folder == o.folder;
    }
  }

  /** A record with a slides file path is runnable for every action. */
  lemma SlidesRecordResolves(m: Metadata, action: Action)
    requires Truthy(m.slidesPath)
    ensures CreateOption(m, action).Some?
  {
  }

  /** Every folder the scanner found with a `slides.md` yields an option for
      every action: its slides path is never empty. */
  lemma ScannedSlidesResolve(entries: seq<Entry>, layout: Layout, m: Metadata, action: Action)
    requires m in Load(Listed(entries), layout).value.records
    requires m.slidesPath.Some?
    ensures CreateOption(m, action).Some?
  {
    LoadMembership(entries, layout, m);
    var e :| e in entries && e.isDirectory && Inspect(e, layout).record == Some(m);
    assert m.slidesPath == Some(SlidesPathOf(layout, e.name));
    assert |SlidesPathOf(layout, e.name)| >= |"slides.md"|;
  }

  // ---------------------------------------------------------------------------
  // Labels
  // ---------------------------------------------------------------------------

  /** `s` ends with `t`. */
  predicate EndsWith(s: string, t: string) {
    |t| <= |s| && s[|s| - |t|..] == t
  }

  /** `t` occurs in `s` at position `i`. */
  predicate OccursAt(s: string, t: string, i: int) {
    0 <= i <= |s| - |t| && s[i..i + |t|] == t
  }

  /** `t` occurs in `s`. */
  ghost predicate Contains(s: string, t: string) {
    exists i :: OccursAt(s, t, i)
  }

  /** The text after the last `/` of the workspace name, the whole name when
      it has no `/`, and empty without a workspace. */
  function Slug(workspace: Option<string>): string {
    LastSegment(workspace.GetOr(""))
  }

  function Prefix(run: Run): string {
    if run.WorkspaceRun? then "[workspace]" else "[slides]"
  }

  /** `prefix head (detail)`. */
  function Render(prefix: string, head: string, detail: string): string {
    prefix + " " + head + " (" + detail + ")"
  }

  /** `formatLabel`: three renderings checked in order, chosen so that a
      title equal to the workspace's slug is not shown twice. */
  function FormatLabel(o: PresentationOption): (r: string)
    ensures |r| >= 2 && r[0] == '[' && r[|r| - 1] == ')'
  {
    var workspaceName := o.workspace.GetOr("");
    var slug := Slug(o.workspace);
    var baseTitle := o.title.GetOr(o.folder);
    var detail := if o.run.WorkspaceRun? then workspaceName else o.run.relativeSlidesPath.GetOr("");
    if o.run.WorkspaceRun? && Truthy(o.title) && slug != "" && o.title.value != slug then
      Render(Prefix(o.run), baseTitle, slug)
    else if o.run.WorkspaceRun? && slug != "" && slug != o.folder then
      Render(Prefix(o.run), o.folder, workspaceName)
    else
      Render(Prefix(o.run), baseTitle, detail)
  }

  /** Every label starts with its variant's tag and a space and ends with a
      closing parenthesis; a workspace label always ends with the
      workspace's slug followed by `)`, whichever rendering was chosen. The
      slug is the whole parenthesised detail only in the first rendering;
      the others show the full workspace name, whose last segment it is. */
  lemma LabelShape(o: PresentationOption)
    ensures Prefix(o.run) + " " <= FormatLabel(o)
    ensures EndsWith(FormatLabel(o), ")")
    ensures o.run.WorkspaceRun? ==> EndsWith(FormatLabel(o), Slug(o.workspace) + ")")
  {
    var workspaceName := o.workspace.GetOr("");
    var slug := Slug(o.workspace);
    var baseTitle := o.title.GetOr(o.folder);
    var detail := if o.run.WorkspaceRun? then workspaceName else o.run.relativeSlidesPath.GetOr("");
    var prefix := Prefix(o.run);
    if o.run.WorkspaceRun? && Truthy(o.title) && slug != "" && o.title.value != slug {
      RenderShape(prefix, baseTitle, slug, slug);
    } else if o.run.WorkspaceRun? && slug != "" && slug != o.folder {
      RenderShape(prefix, o.folder, workspaceName, slug);
    } else {
      RenderShape(prefix, baseTitle, detail, if o.run.WorkspaceRun? then slug else "");
    }
  }

  lemma RenderShape(prefix: string, head: string, detail: string, suffix: string)
    requires EndsWith(detail, suffix)
    ensures prefix + " " <= Render(prefix, head, detail)
    ensures EndsWith(Render(prefix, head, detail), ")")
    ensures EndsWith(Render(prefix, head, detail), suffix + ")")
  {
    EndsWithRender(prefix, head, detail, suffix);
    var r := Render(prefix, head, detail);
    assert r == (prefix + " ") + (head + " (" + detail + ")");
  }

  lemma EndsWithRender(prefix: string, head: string, detail: string, suffix: string)
    requires EndsWith(detail, suffix)
    ensures EndsWith(Render(prefix, head, detail), suffix + ")")
  {
    var front := prefix + " " + head + " (";
    assert Render(prefix, head, detail) == front + detail + ")";
    var r := Render(prefix, head, detail);
    assert r[|r| - |suffix| - 1..] == detail[|detail| - |suffix|..] + ")";
  }

  /** The prefix tells the variant: a label starts with `[workspace] `
      exactly for workspace runs. */
  lemma LabelPrefixTellsVariant(o: PresentationOption)
    ensures "[workspace] " <= FormatLabel(o) <==> o.run.WorkspaceRun?
  {
    LabelShape(o);
    var r := FormatLabel(o);
    if o.run.SlidesRun? {
      assert r[1] == "[slides] "[1];
    }
  }

  /** The cascade for workspace runs: (a) a title that is present and is
      not the slug is shown with the slug; (b) failing that, a slug that is
      not the folder name makes the label show the folder with the full
      workspace name; (c) otherwise the title, or the folder, is shown with
      the full workspace name. */
  lemma WorkspaceLabelCascade(o: PresentationOption)
    requires o.run.WorkspaceRun?
    ensures var slug, workspaceName := Slug(o.workspace), o.workspace.GetOr("");
      && (Truthy(o.title) && slug != "" && o.title.value != slug ==>
            FormatLabel(o) == Render("[workspace]", o.title.value, slug))
      && (!(Truthy(o.title) && o.title.value != slug) && slug != "" && slug != o.folder ==>
            FormatLabel(o) == Render("[workspace]", o.folder, workspaceName))
      && (slug == "" || (!(Truthy(o.title) && o.title.value != slug) && slug == o.folder) ==>
            FormatLabel(o) == Render("[workspace]", o.title.GetOr(o.folder), workspaceName))
  {
  }

  /** A slides option renders as `[slides] <title or folder> (<relative
      slides path or empty>)`. */
  lemma SlidesLabel(o: PresentationOption)
    requires o.run.SlidesRun?
    ensures FormatLabel(o) == Render("[slides]", o.title.GetOr(o.folder), o.run.relativeSlidesPath.GetOr(""))
  {
  }

  /** A label always contains the title when there is one, and the folder
      otherwise. */
  lemma LabelShowsTitleOrFolder(o: PresentationOption)
    ensures Contains(FormatLabel(o), o.title.GetOr(o.folder))
  {
    var workspaceName := o.workspace.GetOr("");
    var slug := Slug(o.workspace);
    var baseTitle := o.title.GetOr(o.folder);
    var prefix := Prefix(o.run);
    var r := FormatLabel(o);
    if o.run.WorkspaceRun? && Truthy(o.title) && slug != "" && o.title.value != slug {
      HeadInRender(prefix, baseTitle, slug);
    } else if o.run.WorkspaceRun? && slug != "" && slug != o.folder {
      if Truthy(o.title) {
        assert baseTitle == slug;
        assert EndsWith(workspaceName, slug);
        EndsWithRender(prefix, o.folder, workspaceName, slug);
        var k := |r| - |slug| - 1;
        assert r[k..k + |slug|] == slug;
        assert OccursAt(r, baseTitle, k);
      } else if o.title.Some? {
        assert baseTitle == "" && OccursAt(r, baseTitle, 0);
      } else {
        HeadInRender(prefix, o.folder, workspaceName);
      }
    } else {
      var detail := if o.run.WorkspaceRun? then workspaceName else o.run.relativeSlidesPath.GetOr("");
      HeadInRender(prefix, baseTitle, detail);
    }
  }

  lemma HeadInRender(prefix: string, head: string, detail: string)
    ensures Contains(Render(prefix, head, detail), head)
  {
    var r := Render(prefix, head, detail);
    var i := |prefix| + 1;
    assert r == (prefix + " ") + head + (" (" + detail + ")");
    assert r[i..i + |head|] == head;
    assert OccursAt(r, head, i);
  }

  /** An example: title `Deck`, workspace `org/deck`, folder
      `deck`. The slug `deck` differs from the title by case only, and the
      comparison is exact, so the title is shown with the slug. */
  lemma DeckLabelExample()
    ensures FormatLabel(PresentationOption("deck", Some("org/deck"), Some("Deck"),
      WorkspaceRun(Some("org/deck"), Dev), None, None)) == Render("[workspace]", "Deck", "deck")
  {
    DeckSlug();
  }

  lemma DeckSlug()
    ensures Slug(Some("org/deck")) == "deck"
  {
    assert "org/deck"[..7] == "org/dec";
    assert "org/dec"[..6] == "org/de";
    assert "org/de"[..5] == "org/d";
    assert "org/d"[..4] == "org/";
  }

  // ---------------------------------------------------------------------------
  // Keys
  // ---------------------------------------------------------------------------

  function RunTag(run: Run): string {
    if run.WorkspaceRun? then "workspace" else "slides"
  }

  /** The last key field: the run's workspace (else the folder) for a
      workspace run, the relative slides path (else empty) for a slides run. */
  function KeyDetail(o: PresentationOption): string {
    match o.run
    case WorkspaceRun(workspace, _) => workspace.GetOr(o.folder)
    case SlidesRun(_, relativeSlidesPath, _) => relativeSlidesPath.GetOr("")
  }

  /** `createKey`: `action::folder::type::detail`. */
  function CreateKey(o: PresentationOption, action: Action): (r: string)
    ensures ActionName(action) + "::" <= r
  {
    ActionName(action) + "::" + o.folder + "::" + RunTag(o.run) + "::" + KeyDetail(o)
  }

  /** The four fields of a key. */
  datatype KeyParts = KeyParts(action: string, folder: string, kind: string, detail: string)

  /** Splits at the first `::`. */
  function SplitAtSeparator(s: string): (r: Option<(string, string)>)
    ensures r.Some? ==> s == r.value.0 + "::" + r.value.1
    decreases |s|
  {
    if |s| < 2 then None
    else if s[0] == ':' && s[1] == ':' then Some(([], s[2..]))
    else
      match SplitAtSeparator(s[1..])
      case None => None
      case Some((head, tail)) => Some(([s[0]] + head, tail))
  }

  /** Reads a key back into its fields; the detail keeps any `::` it holds. */
  function ParseKey(key: string): Option<KeyParts> {
    match SplitAtSeparator(key)
    case None => None
    case Some((action, rest)) =>
      match SplitAtSeparator(rest)
      case None => None
      case Some((folder, rest')) =>
        match SplitAtSeparator(rest')
        case None => None
        case Some((kind, detail)) => Some(KeyParts(action, folder, kind, detail))
  }

  /** A field without a colon is split off exactly. */
  lemma {:induction false} SplitAfterField(field: string, rest: string)
    requires ':' !in field
    ensures SplitAtSeparator(field + "::" + rest) == Some((field, rest))
    decreases |field|
  {
    var s := field + "::" + rest;
    if field == [] {
      assert s == "::" + rest;
      assert s[2..] == rest;
    } else {
      assert ':' !in field[1..] by {
        assert forall c :: c in field[1..] ==> c in field;
      }
      SplitAfterField(field[1..], rest);
      assert s[1..] == field[1..] + "::" + rest;
      assert s[0] == field[0] && field[0] != ':' by { assert field[0] in field; }
      assert [field[0]] + field[1..] == field;
    }
  }

  /** Keys read back into the action, folder, run type and detail they were
      built from, provided the folder has no colon. */
  lemma KeyRoundTrip(o: PresentationOption, action: Action)
    requires ':' !in o.folder
    ensures ParseKey(CreateKey(o, action)) ==
      Some(KeyParts(ActionName(action), o.folder, RunTag(o.run), KeyDetail(o)))
  {
    var name, tag, detail := ActionName(action), RunTag(o.run), KeyDetail(o);
    assert ':' !in name;
    assert ':' !in tag;
    assert CreateKey(o, action) == name + "::" + (o.folder + "::" + (tag + "::" + detail));
    SplitAfterField(name, o.folder + "::" + (tag + "::" + detail));
    SplitAfterField(o.folder, tag + "::" + detail);
    SplitAfterField(tag, detail);
  }

  /** For one action, options of different colon-free folders get different
      keys. */
  lemma KeysDistinct(o1: PresentationOption, o2: PresentationOption, action: Action)
    requires ':' !in o1.folder && ':' !in o2.folder
    requires o1.folder != o2.folder
    ensures CreateKey(o1, action) != CreateKey(o2, action)
  {
    KeyRoundTrip(o1, action);
    KeyRoundTrip(o2, action);
  }

  /** Keys of different actions differ, even for the same option. */
  lemma KeysDistinctAcrossActions(o1: PresentationOption, o2: PresentationOption)
    ensures CreateKey(o1, Dev) != CreateKey(o2, Export)
  {
    var rest1 := o1.folder + "::" + (RunTag(o1.run) + "::" + KeyDetail(o1));
    var rest2 := o2.folder + "::" + (RunTag(o2.run) + "::" + KeyDetail(o2));
    assert CreateKey(o1, Dev) == "dev" + "::" + rest1;
    assert CreateKey(o2, Export) == "export" + "::" + rest2;
    SplitAfterField("dev", rest1);
    SplitAfterField("export", rest2);
  }

  /** Without the colon-free proviso keys can collide: a folder whose name
      embeds `::workspace::` and a workspace whose name embeds
      `::slides::`. */
  lemma KeysCollideWithColons(w: string, path: string, action: Action)
    ensures var o1 := PresentationOption("a", Some(w + "::" + "slides" + "::" + path), None,
        WorkspaceRun(Some(w + "::" + "slides" + "::" + path), action), None, None);
      var o2 := PresentationOption("a" + "::" + "workspace" + "::" + w, None, None,
        SlidesRun(Some(path), Some(path), action), Some(path), Some(path));
      o1.folder != o2.folder && CreateKey(o1, action) == CreateKey(o2, action)
  {
    var name, tail := ActionName(action), w + "::" + "slides" + "::" + path;
    var folder := "a" + "::" + "workspace" + "::" + w;
    assert |folder| > 1;
    assert name + "::" + "a" + "::" + "workspace" + "::" + tail == name + "::" + folder + "::" + "slides" + "::" + path;
  }

  /** The keys shown for one scan are pairwise distinct when the listing
      has distinct, colon-free names. */
  lemma ScanKeysDistinct(entries: seq<Entry>, layout: Layout, action: Action)
    requires DistinctNames(entries)
    requires forall e :: e in entries ==> ':' !in e.name
    ensures var options := BuildOptions(Load(Listed(entries), layout).value.records, action);
      forall i, j :: 0 <= i < j < |options| ==> CreateKey(options[i], action) != CreateKey(options[j], action)
  {
    var records := Load(Listed(entries), layout).value.records;
    var options := BuildOptions(records, action);
    LoadFoldersDistinct(entries, layout);
    OptionsKeepFoldersDistinct(records, action);
    OptionsAreResolutions(records, action);
    forall i, j | 0 <= i < j < |options|
      ensures CreateKey(options[i], action) != CreateKey(options[j], action)
    {
      FolderColonFree(entries, layout, action, options[i]);
      FolderColonFree(entries, layout, action, options[j]);
      KeysDistinct(options[i], options[j], action);
    }
  }

  lemma FolderColonFree(entries: seq<Entry>, layout: Layout, action: Action, o: PresentationOption)
    requires forall e :: e in entries ==> ':' !in e.name
    requires o in BuildOptions(Load(Listed(entries), layout).value.records, action)
    ensures ':' !in o.folder
  {
    var records := Load(Listed(entries), layout).value.records;
    OptionsAreResolutions(records, action);
    var m :| m in records && CreateOption(m, action) == Some(o);
    RecordsWellFormed(entries, layout, m);
  }

  // ---------------------------------------------------------------------------
  // Selection
  // ---------------------------------------------------------------------------

  /** What the terminal menu reports: the option the user picked, a
      cancellation (`q` or Escape), or the menu closing without either. */
  datatype MenuOutcome = Picked(option: PresentationOption) | Cancelled | Closed

  /** `SelectPresentationResult`. */
  datatype Selection = Selection(options: seq<PresentationOption>, selected: Option<PresentationOption>, cancelled: bool)

  /** `selectPresentation`: scan, build the options, and consult the menu
      only when there is something to choose from. */
  function SelectPresentation(listing: Listing, layout: Layout, action: Action, menu: MenuOutcome): (r: Result<Selection, string>)
    ensures r.Failure? <==> listing.ListingFailed?
    ensures r.Failure? ==> r.error == listing.code && r.error != "ENOENT"
    ensures r.Success? ==> r.value.options == BuildOptions(Load(listing, layout).value.records, action)
    ensures r.Success? && r.value.options == [] ==> r.value.selected.None? && !r.value.cancelled
    ensures r.Success? ==> !(r.value.selected.Some? && r.value.cancelled)
    ensures r.Success? && r.value.selected.Some? ==> menu == Picked(r.value.selected.value)
    ensures r.Success? && r.value.options != [] ==> (r.value.cancelled <==> menu.Cancelled?)
    ensures r.Success? && r.value.options != [] && menu.Picked? ==> r.value.selected == Some(menu.option)
    ensures r.Success? && menu.Closed? ==> r.value.selected.None? && !r.value.cancelled
  {
    match Load(listing, layout)
    case Failure(code) => Failure(code)
    case Success(scan) =>
      var options := BuildOptions(scan.records, action);
      if options == [] then Success(Selection(options, None, false))
      else
        match menu
        case Picked(o) => Success(Selection(options, Some(o), false))
        case Cancelled => Success(Selection(options, None, true))
        case Closed => Success(Selection(options, None, false))
  }

  /** A missing presentations directory offers nothing and asks nothing. */
  lemma MissingDirectorySelectsNothing(layout: Layout, action: Action, menu: MenuOutcome)
    ensures SelectPresentation(NotFound, layout, action, menu) == Success(Selection([], None, false))
  {
  }
}
