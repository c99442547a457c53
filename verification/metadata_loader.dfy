/** The presentation scanner: lists the presentations directory, inspects
    every sub-directory's `package.json` manifest and `slides.md` file, and
    returns one metadata record per usable folder, sorted by folder name.

    The filesystem is an immutable snapshot: the outcome of listing the
    directory and, per entry, the outcome of reading the manifest and of
    probing and reading the slides file. With that snapshot the scan is a
    pure function. */
module MetadataLoader {
  import opened Wrappers
  import opened Text

  // ---------------------------------------------------------------------------
  // The filesystem snapshot
  // ---------------------------------------------------------------------------

  /** The manifest fields the scanner reads. `None` stands for a field that is
      missing, `undefined` or `null`: each of them lets `??` fall through. */
  datatype ManifestFields = ManifestFields(
    name: Option<string>,
    title: Option<string>,
    displayName: Option<string>,
    scripts: Option<map<string, string>>)

  /** What property access yields on a value without these fields. */
  const NoFields: ManifestFields := ManifestFields(None, None, None, None)

  /** The value `JSON.parse` produced: a falsy value (`null`, `false`, `0`,
      `""`), any other non-object value (which is truthy but carries none of
      the fields), or an object. */
  datatype Json = Falsy | OtherTruthy | Object(fields: ManifestFields)

  /** Reading and parsing `package.json`: the file does not exist (ENOENT),
      reading or parsing failed otherwise, or it parsed to a value. */
  datatype ManifestOutcome = ManifestMissing | ManifestUnreadable | ManifestParsed(json: Json)

  /** Probing `slides.md` for access and, if the probe succeeds, reading it:
      it does not exist (ENOENT), the probe failed otherwise, it exists and
      reads as `content`, or it exists but reading it fails. */
  datatype SlidesOutcome =
    | SlidesMissing
    | SlidesProbeFailed
    | SlidesPresent(content: string)
    | SlidesUnreadable

  /** One entry of the presentations directory. */
  datatype Entry = Entry(name: string, isDirectory: bool, manifest: ManifestOutcome, slides: SlidesOutcome)

  /** The code of a listing error other than ENOENT: a missing directory is
      the separate outcome `NotFound`. */
  type ErrorCode = code: string | code != "ENOENT" witness "EACCES"

  /** Listing the presentations directory: it does not exist (ENOENT),
      listing failed with another error code, or it lists `entries`. */
  datatype Listing = NotFound | ListingFailed(code: ErrorCode) | Listed(entries: seq<Entry>)

  /** The presentations directory, and the same directory relative to the
      root that relative slide paths are expressed against. */
  datatype Layout = Layout(presentationsDir: string, relativeDir: string)

  /** The non-fatal warnings of the scan, by the folder they concern. */
  datatype Warning =
    | ManifestReadFailed(folder: string)
    | SlidesCheckFailed(folder: string)
    | TitleReadFailed(folder: string)

  /** `PresentationMetadata`. */
  datatype Metadata = Metadata(
    folder: string,
    workspace: Option<string>,
    scripts: map<string, string>,
    slidesPath: Option<string>,
    relativeSlidesPath: Option<string>,
    title: Option<string>)

  /** The outcome of inspecting one folder: its record, if any, and the
      warnings it raised. */
  datatype Inspection = Inspection(record: Option<Metadata>, warnings: seq<Warning>)

  /** The outcome of a scan: records and the warnings raised on the way. */
  datatype Scan = Scan(records: seq<Metadata>, warnings: seq<Warning>)

  /** The manifest counts as present when it parsed to a truthy value. */
  predicate HasManifest(m: ManifestOutcome) {
    m.ManifestParsed? && !m.json.Falsy?
  }

  /** The fields optional chaining (`packageJson?.x`) reads off the manifest. */
  function Fields(m: ManifestOutcome): ManifestFields {
    if m.ManifestParsed? && m.json.Object? then m.json.fields else NoFields
  }

  /** The access probe of `slides.md` succeeded. */
  predicate SlidesExist(s: SlidesOutcome) {
    s.SlidesPresent? || s.SlidesUnreadable?
  }

  /** Path joining without normalisation. */
  function JoinPath(dir: string, name: string): string {
    if dir == "" then name else dir + "/" + name
  }

  function SlidesPathOf(layout: Layout, folder: string): string {
    JoinPath(JoinPath(layout.presentationsDir, folder), "slides.md")
  }

  function RelativeSlidesPathOf(layout: Layout, folder: string): string {
    JoinPath(JoinPath(layout.relativeDir, folder), "slides.md")
  }

  // ---------------------------------------------------------------------------
  // Title inference from the slides text
  // ---------------------------------------------------------------------------

  /** A line that decides the inferred title: after trimming it starts with
      `title:` or with `# `. */
  predicate IsTitleLine(line: string) {
    var t := Trim(line);
    "title:" <= t || "# " <= t
  }

  /** The trimmed text after the marker of a title line. */
  function TitleValue(line: string): string
    requires IsTitleLine(line)
  {
    var t := Trim(line);
    if "title:" <= t then Trim(t[|"title:"|..]) else Trim(t[|"# "|..])
  }

  /** `value || null`. */
  function NonEmpty(value: string): (r: Option<string>)
    ensures r.Some? <==> value != ""
    ensures r.Some? ==> r.value == value
  {
    if value == "" then None else Some(value)
  }

  /** No line before index `k` is a title line. */
  predicate NoTitleLineBefore(lines: seq<string>, k: nat)
    requires k <= |lines|
  {
    forall j :: 0 <= j < k ==> !IsTitleLine(lines[j])
  }

  /** The line loop of `inferTitleFromSlides`: skip blank lines and return
      the non-empty value of the first line that starts with `title:` or
      `# `. */
  function TitleFromLines(lines: seq<string>): (r: Option<string>)
    ensures r.Some? ==> r.value != ""
  {
    if lines == [] then None
    else
      var trimmed := Trim(lines[0]);
      if trimmed == "" then TitleFromLines(lines[1..])
      else if "title:" <= trimmed then NonEmpty(Trim(trimmed[|"title:"|..]))
      else if "# " <= trimmed then NonEmpty(Trim(trimmed[|"# "|..]))
      else TitleFromLines(lines[1..])
  }

  /** The first title line decides the title, even when its value is empty
      and whatever the lines after it hold. */
  lemma {:induction false} FirstTitleLineDecides(lines: seq<string>, k: nat)
    requires k < |lines| && IsTitleLine(lines[k]) && NoTitleLineBefore(lines, k)
    ensures TitleFromLines(lines) == NonEmpty(TitleValue(lines[k]))
    decreases k
  {
    if k > 0 {
      NoTitleLineShift(lines, k);
      assert lines[1..][k - 1] == lines[k];
      FirstTitleLineDecides(lines[1..], k - 1);
    }
  }

  /** Without a title line there is no title. */
  lemma {:induction false} NoTitleLineNoTitle(lines: seq<string>)
    requires NoTitleLineBefore(lines, |lines|)
    ensures TitleFromLines(lines) == None
    decreases |lines|
  {
    if lines != [] {
      NoTitleLineShift(lines, |lines|);
      NoTitleLineNoTitle(lines[1..]);
    }
  }

  /** A first line that is no title line is skipped. */
  lemma NoTitleLineShift(lines: seq<string>, k: nat)
    requires 0 < k <= |lines| && NoTitleLineBefore(lines, k)
    ensures !IsTitleLine(lines[0]) && NoTitleLineBefore(lines[1..], k - 1)
    ensures TitleFromLines(lines) == TitleFromLines(lines[1..])
  {
    assert forall j :: 0 <= j < k - 1 ==> lines[1..][j] == lines[j + 1];
  }

  /** The title inferred from the text of `slides.md`. */
  function InferTitle(content: string): (r: Option<string>)
    ensures r.Some? ==> r.value != ""
  {
    TitleFromLines(Lines(content))
  }

  /** A slides text whose first line is `title: <value>` takes `value` as
      its title, whatever follows that line, when `value` is non-empty,
      holds no line feed and has no white space at either end. */
  lemma LeadingTitleLineDecides(value: string, rest: string)
    requires value != [] && !IsSpace(value[0]) && !IsSpace(value[|value| - 1])
    requires '\n' !in value
    ensures InferTitle("title: " + value + "\n" + rest) == Some(value)
  {
    var line := "title: " + value;
    assert '\n' !in line by {
      assert forall c :: c in line ==> c in "title: " || c in value;
    }
    assert line[|line| - 1] == value[|value| - 1];
    assert "title: " + value + "\n" + rest == line + "\n" + rest;
    FirstLine(line, rest);
    TitleLineOf(value);
    FirstTitleLineDecides(Lines(line + "\n" + rest), 0);
  }

  /** The first line of a text is the text before its first LF, less a
      final CR. */
  lemma FirstLine(line: string, rest: string)
    requires '\n' !in line && (line == [] || line[|line| - 1] != '\r')
    ensures Lines(line + "\n" + rest)[0] == line
  {
    SplitLfAfterNewline(rest);
    assert line + "\n" + rest == line + ("\n" + rest);
    SplitLfAfterLine(line, "\n" + rest);
    assert line + "" == line;
    assert |SplitLf(line + "\n" + rest)| >= 2;
  }

  lemma TitleLineOf(value: string)
    requires value != [] && !IsSpace(value[0]) && !IsSpace(value[|value| - 1])
    ensures IsTitleLine("title: " + value) && TitleValue("title: " + value) == value
  {
    var line := "title: " + value;
    assert line[|line| - 1] == value[|value| - 1];
    TrimOfUnpadded(line);
    assert "title:" <= line;
    assert line[|"title:"|..] == " " + value;
    TrimOfUnpadded(value);
    assert (" " + value)[1..] == value;
  }

  /** The example of the loader's tests: the `title:` line comes first and
      wins over the heading after it. */
  lemma InferTitleExample()
    ensures InferTitle("title: " + "Presentation 2" + "\n" + "# Slide 1") == Some("Presentation 2")
  {
    assert '\n' !in "Presentation 2";
    LeadingTitleLineDecides("Presentation 2", "# Slide 1");
  }

  /** A line that starts with `##` is a heading of a lower level, not a
      title line. */
  lemma SubheadingIsNoTitleLine(line: string)
    requires "##" <= Trim(line)
    ensures !IsTitleLine(line)
  {
    var t := Trim(line);
    assert t[1] == '#';
  }

  /** `inferTitleFromSlides` for a slides file whose probe succeeded: a read
      failure yields no title and a warning. */
  function TitleFromSlides(folder: string, slides: SlidesOutcome): (r: (Option<string>, seq<Warning>))
    requires SlidesExist(slides)
    ensures slides.SlidesPresent? ==> r.0 == InferTitle(slides.content)
    ensures r.1 == [] <==> slides.SlidesPresent?
    ensures r.1 != [] ==> r.0 == None && r.1 == [TitleReadFailed(folder)]
    ensures r.0.Some? ==> r.0.value != ""
  {
    match slides
    case SlidesPresent(content) => (InferTitle(content), [])
    case SlidesUnreadable => (None, [TitleReadFailed(folder)])
  }

  // ---------------------------------------------------------------------------
  // Inspecting one folder
  // ---------------------------------------------------------------------------

  /** `inspectPresentation`: the record of one folder, or none when the
      folder has neither a manifest nor a slides file; per-entry failures
      become missing data and warnings. */
  function Inspect(e: Entry, layout: Layout): (r: Inspection)
    ensures r.record.None? <==> !HasManifest(e.manifest) && !SlidesExist(e.slides)
    ensures r.record.Some? ==>
      var m := r.record.value;
      && m.folder == e.name
      && m.workspace == Fields(e.manifest).name
      && m.scripts == Fields(e.manifest).scripts.GetOr(map[])
      && (m.slidesPath.Some? <==> SlidesExist(e.slides))
      && (m.relativeSlidesPath.Some? <==> SlidesExist(e.slides))
      && (SlidesExist(e.slides) ==>
            && m.slidesPath == Some(SlidesPathOf(layout, e.name))
            && m.relativeSlidesPath == Some(RelativeSlidesPathOf(layout, e.name)))
    ensures ManifestReadFailed(e.name) in r.warnings <==> e.manifest.ManifestUnreadable?
    ensures SlidesCheckFailed(e.name) in r.warnings <==> e.slides.SlidesProbeFailed?
    ensures TitleReadFailed(e.name) in r.warnings <==>
      && e.slides.SlidesUnreadable?
      && Fields(e.manifest).title.None?
      && Fields(e.manifest).displayName.None?
    ensures forall w :: w in r.warnings ==> w.folder == e.name
    ensures |r.warnings| <= 3
    ensures forall i, j :: 0 <= i < j < |r.warnings| ==> r.warnings[i] != r.warnings[j]
  {
    var manifestWarnings := if e.manifest.ManifestUnreadable? then [ManifestReadFailed(e.name)] else [];
    var probeWarnings := if e.slides.SlidesProbeFailed? then [SlidesCheckFailed(e.name)] else [];
    var slidesExist := SlidesExist(e.slides);
    if !HasManifest(e.manifest) && !slidesExist then
      Inspection(None, manifestWarnings + probeWarnings)
    else
      var fields := Fields(e.manifest);
      var titleFromPackage := fields.title.OrElse(fields.displayName);
      var (title, readWarnings) :=
        if titleFromPackage.Some? then (titleFromPackage, [])
        else if slidesExist then TitleFromSlides(e.name, e.slides)
        else (None, []);
      var record := Metadata(
        e.name,
        fields.name,
        fields.scripts.GetOr(map[]),
        if slidesExist then Some(SlidesPathOf(layout, e.name)) else None,
        if slidesExist then Some(RelativeSlidesPathOf(layout, e.name)) else None,
        title);
      Inspection(Some(record), manifestWarnings + probeWarnings + readWarnings)
  }

  /** The title of a record follows a fixed order: the manifest's `title`,
      then its `displayName`, then the title inferred from `slides.md`;
      present-but-empty manifest values still win. */
  lemma TitlePrecedence(e: Entry, layout: Layout)
    requires Inspect(e, layout).record.Some?
    ensures var title := Inspect(e, layout).record.value.title;
      var fields := Fields(e.manifest);
      && (fields.title.Some? ==> title == fields.title)
      && (fields.title.None? && fields.displayName.Some? ==> title == fields.displayName)
      && (fields.title.None? && fields.displayName.None? ==>
            title == if e.slides.SlidesPresent? then InferTitle(e.slides.content) else None)
  {
  }

  /** When the manifest supplies a title the slides text is never consulted:
      two folders that differ only in what `slides.md` holds give the same
      record and the same warnings. */
  lemma ManifestTitleIgnoresSlides(e: Entry, slides: SlidesOutcome, layout: Layout)
    requires SlidesExist(e.slides) && SlidesExist(slides)
    requires Fields(e.manifest).title.Some? || Fields(e.manifest).displayName.Some?
    ensures Inspect(e.(slides := slides), layout) == Inspect(e, layout)
  {
  }

  // ---------------------------------------------------------------------------
  // Collecting the records of a listing
  // ---------------------------------------------------------------------------

  /** Scans laid end to end. */
  function Concat(x: Scan, y: Scan): Scan {
    Scan(x.records + y.records, x.warnings + y.warnings)
  }

  /** The contribution of one listing entry: nothing for a non-directory,
      else its inspection. */
  function EntryScan(e: Entry, layout: Layout): Scan {
    if !e.isDirectory then Scan([], [])
    else
      var inspection := Inspect(e, layout);
      Scan(if inspection.record.Some? then [inspection.record.value] else [], inspection.warnings)
  }

  function EntryScanner(layout: Layout): Entry -> Scan {
    e => EntryScan(e, layout)
  }

  /** Runs `scanOne` over the entries in listing order and lays the results
      end to end. */
  function CollectBy(entries: seq<Entry>, scanOne: Entry -> Scan): Scan {
    if entries == [] then Scan([], [])
    else Concat(scanOne(entries[0]), CollectBy(entries[1..], scanOne))
  }

  /** The `for` loop of `loadPresentationMetadata`: inspect every directory
      entry in listing order and keep the records that exist. */
  function Collect(entries: seq<Entry>, layout: Layout): (r: Scan)
    ensures |r.records| <= |entries|
  {
    CollectByBounded(entries, EntryScanner(layout));
    CollectBy(entries, EntryScanner(layout))
  }

  /** When every entry contributes at most one record, so does the whole
      collection. */
  lemma {:induction false} CollectByBounded(entries: seq<Entry>, scanOne: Entry -> Scan)
    requires forall e :: |scanOne(e).records| <= 1
    ensures |CollectBy(entries, scanOne).records| <= |entries|
    decreases |entries|
  {
    if entries != [] {
      CollectByBounded(entries[1..], scanOne);
    }
  }

  /** A record is collected exactly when it is the record of a directory
      entry. */
  lemma CollectMembership(entries: seq<Entry>, layout: Layout, m: Metadata)
    ensures m in Collect(entries, layout).records <==>
      exists e :: e in entries && e.isDirectory && Inspect(e, layout).record == Some(m)
  {
    var scanOne := EntryScanner(layout);
    CollectByMembership(entries, scanOne, m);
    forall e ensures m in scanOne(e).records <==> e.isDirectory && Inspect(e, layout).record == Some(m) {
      assert scanOne(e) == EntryScan(e, layout);
    }
  }

  lemma {:induction false} CollectByMembership(entries: seq<Entry>, scanOne: Entry -> Scan, m: Metadata)
    ensures m in CollectBy(entries, scanOne).records <==> exists e :: e in entries && m in scanOne(e).records
    decreases |entries|
  {
    if entries != [] {
      var tail := entries[1..];
      CollectByMembership(tail, scanOne, m);
      assert entries == [entries[0]] + tail;
      assert forall e :: e in tail ==> e in entries;
    }
  }

  /** Entries are inspected independently: the scan of a concatenated
      listing is the concatenation of the scans, so no entry can abort or
      alter the inspection of another. */
  lemma CollectAppend(a: seq<Entry>, b: seq<Entry>, layout: Layout)
    ensures Collect(a + b, layout) == Concat(Collect(a, layout), Collect(b, layout))
  {
    CollectByAppend(a, b, EntryScanner(layout));
  }

  lemma {:induction false} CollectByAppend(a: seq<Entry>, b: seq<Entry>, scanOne: Entry -> Scan)
    ensures CollectBy(a + b, scanOne) == Concat(CollectBy(a, scanOne), CollectBy(b, scanOne))
    decreases |a|
  {
    if a == [] {
      assert a + b == b;
    } else {
      assert (a + b)[0] == a[0];
      assert (a + b)[1..] == a[1..] + b;
      CollectByAppend(a[1..], b, scanOne);
      var x, y, z := scanOne(a[0]), CollectBy(a[1..], scanOne), CollectBy(b, scanOne);
      assert x.records + (y.records + z.records) == (x.records + y.records) + z.records;
      assert x.warnings + (y.warnings + z.warnings) == (x.warnings + y.warnings) + z.warnings;
    }
  }

  /** The entries of a listing have distinct names. */
  predicate DistinctNames(entries: seq<Entry>) {
    forall i, j :: 0 <= i < j < |entries| ==> entries[i].name != entries[j].name
  }

  /** The records of a sequence have distinct folders. */
  predicate DistinctFolders(records: seq<Metadata>) {
    forall i, j :: 0 <= i < j < |records| ==> records[i].folder != records[j].folder
  }

  /** Distinct entry names give records with distinct folders. */
  lemma {:induction false} CollectDistinct(entries: seq<Entry>, layout: Layout)
    requires DistinctNames(entries)
    ensures DistinctFolders(Collect(entries, layout).records)
    decreases |entries|
  {
    if entries != [] {
      var tail := entries[1..];
      assert DistinctNames(tail) by {
        assert forall i :: 0 <= i < |tail| ==> tail[i] == entries[i + 1];
      }
      CollectDistinct(tail, layout);
      var rest := Collect(tail, layout).records;
      forall m | m in rest ensures m.folder != entries[0].name {
        CollectMembership(tail, layout, m);
        var e :| e in tail && e.isDirectory && Inspect(e, layout).record == Some(m);
        var i :| 0 <= i < |tail| && tail[i] == e;
        assert entries[i + 1] == e;
      }
      var first := EntryScan(entries[0], layout).records;
      assert Collect(entries, layout).records == first + rest;
      if first != [] {
        assert first == [first[0]] && first[0].folder == entries[0].name;
        PrependDistinct(first[0], rest);
      }
    }
  }

  // ---------------------------------------------------------------------------
  // Sorting by folder
  // ---------------------------------------------------------------------------

  /** Ascending by folder name. */
  predicate SortedByFolder(records: seq<Metadata>) {
    forall i, j :: 0 <= i < j < |records| ==> LessOrEqual(records[i].folder, records[j].folder)
  }

  /** Inserts `m` into a sorted sequence before the first record whose
      folder is not below it. */
  function InsertByFolder(m: Metadata, records: seq<Metadata>): (r: seq<Metadata>)
    requires SortedByFolder(records)
    ensures SortedByFolder(r)
    ensures multiset(r) == multiset(records) + multiset{m}
  {
    if records == [] then [m]
    else if LessOrEqual(m.folder, records[0].folder) then
      BelowHeadBelowAll(m, records);
      [m] + records
    else
      var head, tail := records[0], records[1..];
      assert records == [head] + tail;
      assert SortedByFolder(tail) by {
        assert forall i :: 0 <= i < |tail| ==> tail[i] == records[i + 1];
      }
      var rest := InsertByFolder(m, tail);
      HeadBelowInserted(m, records, rest);
      PrependSorted(head, rest);
      [head] + rest
  }

  /** A record below the head of a sorted sequence is below all of it. */
  lemma BelowHeadBelowAll(m: Metadata, records: seq<Metadata>)
    requires SortedByFolder(records) && records != [] && LessOrEqual(m.folder, records[0].folder)
    ensures SortedByFolder([m] + records)
  {
    forall j | 0 <= j < |records| ensures LessOrEqual(m.folder, records[j].folder) {
      if j > 0 {
        LessOrEqualTransitive(m.folder, records[0].folder, records[j].folder);
      }
    }
    var r := [m] + records;
    assert forall j :: 1 <= j < |r| ==> r[j] == records[j - 1];
  }

  /** The head of a sorted sequence is below every record of `rest`, which
      holds the tail and a record above the head. */
  lemma HeadBelowInserted(m: Metadata, records: seq<Metadata>, rest: seq<Metadata>)
    requires SortedByFolder(records) && records != [] && !LessOrEqual(m.folder, records[0].folder)
    requires multiset(rest) == multiset(records[1..]) + multiset{m}
    ensures forall x :: x in rest ==> LessOrEqual(records[0].folder, x.folder)
  {
    LessOrEqualTotal(m.folder, records[0].folder);
    var tail := records[1..];
    forall x | x in rest ensures LessOrEqual(records[0].folder, x.folder) {
      assert x in multiset(rest);
      if x != m {
        assert x in multiset(tail);
        var k :| 0 <= k < |tail| && tail[k] == x;
        assert records[k + 1] == x;
      }
    }
  }

  lemma PrependSorted(head: Metadata, rest: seq<Metadata>)
    requires SortedByFolder(rest)
    requires forall x :: x in rest ==> LessOrEqual(head.folder, x.folder)
    ensures SortedByFolder([head] + rest)
  {
    var r := [head] + rest;
    assert forall j :: 1 <= j < |r| ==> r[j] == rest[j - 1];
  }

  /** Insertion sort by folder name: a sorted permutation of the input. */
  function SortByFolder(records: seq<Metadata>): (r: seq<Metadata>)
    ensures SortedByFolder(r)
    ensures multiset(r) == multiset(records)
  {
    if records == [] then []
    else
      assert records == [records[0]] + records[1..];
      InsertByFolder(records[0], SortByFolder(records[1..]))
  }

  /** Sorting keeps folders distinct. */
  lemma {:induction false} SortKeepsFoldersDistinct(records: seq<Metadata>)
    requires DistinctFolders(records)
    ensures DistinctFolders(SortByFolder(records))
    decreases |records|
  {
    if records != [] {
      var tail := records[1..];
      assert DistinctFolders(tail) by {
        assert forall i :: 0 <= i < |tail| ==> tail[i] == records[i + 1];
      }
      SortKeepsFoldersDistinct(tail);
      var sorted := SortByFolder(tail);
      forall x | x in sorted ensures x.folder != records[0].folder {
        assert x in multiset(tail);
        var k :| 0 <= k < |tail| && tail[k] == x;
        assert records[k + 1] == x;
      }
      InsertKeepsFoldersDistinct(records[0], sorted);
    }
  }

  lemma {:induction false} InsertKeepsFoldersDistinct(m: Metadata, records: seq<Metadata>)
    requires SortedByFolder(records) && DistinctFolders(records)
    requires forall x :: x in records ==> x.folder != m.folder
    ensures DistinctFolders(InsertByFolder(m, records))
    decreases |records|
  {
    if records == [] || LessOrEqual(m.folder, records[0].folder) {
      PrependDistinct(m, records);
    } else {
      var tail := records[1..];
      DistinctTail(records);
      assert SortedByFolder(tail) by {
        assert forall i :: 0 <= i < |tail| ==> tail[i] == records[i + 1];
      }
      InsertKeepsFoldersDistinct(m, tail);
      var rest := InsertByFolder(m, tail);
      forall x | x in rest ensures x.folder != records[0].folder {
        assert x in multiset(rest);
        if x != m {
          assert x in multiset(tail);
        }
      }
      assert InsertByFolder(m, records) == [records[0]] + rest;
      PrependDistinct(records[0], rest);
    }
  }

  /** The tail of records with distinct folders keeps them distinct, and
      none of its folders is the head's. */
  lemma DistinctTail(records: seq<Metadata>)
    requires records != [] && DistinctFolders(records)
    ensures DistinctFolders(records[1..])
    ensures forall x :: x in records[1..] ==> x.folder != records[0].folder
  {
    var tail := records[1..];
    assert forall i :: 0 <= i < |tail| ==> tail[i] == records[i + 1];
  }

  /** A record whose folder is new keeps folders distinct when put in front. */
  lemma PrependDistinct(head: Metadata, rest: seq<Metadata>)
    requires DistinctFolders(rest)
    requires forall x :: x in rest ==> x.folder != head.folder
    ensures DistinctFolders([head] + rest)
  {
    assert forall i :: 0 < i <= |rest| ==> ([head] + rest)[i] == rest[i - 1];
  }

  /** With distinct folders, a sorted order is unique: two sorted
      sequences of the same records are equal. */
  lemma {:induction false} SortedUnique(a: seq<Metadata>, b: seq<Metadata>)
    requires SortedByFolder(a) && SortedByFolder(b)
    requires DistinctFolders(a) && DistinctFolders(b)
    requires forall m :: m in a <==> m in b
    ensures a == b
    decreases |a|
  {
    assert a != [] ==> a[0] in b;
    assert b != [] ==> b[0] in a;
    if a != [] {
      SortedHeadsEqual(a, b);
      SortedTails(a, b);
      SortedUnique(a[1..], b[1..]);
      assert a == [a[0]] + a[1..] && b == [b[0]] + b[1..];
    }
  }

  /** The record with the least folder is the same in both. */
  lemma SortedHeadsEqual(a: seq<Metadata>, b: seq<Metadata>)
    requires a != [] && b != []
    requires SortedByFolder(a) && SortedByFolder(b)
    requires DistinctFolders(a)
    requires forall m :: m in a <==> m in b
    ensures a[0] == b[0]
  {
    assert a[0] in b;
    var j :| 0 <= j < |b| && b[j] == a[0];
    assert b[0] in a;
    var k :| 0 <= k < |a| && a[k] == b[0];
    LessOrEqualReflexive(a[0].folder);
    assert LessOrEqual(b[0].folder, a[0].folder) by {
      if j > 0 { assert LessOrEqual(b[0].folder, b[j].folder); }
    }
    assert LessOrEqual(a[0].folder, b[0].folder) by {
      if k > 0 { assert LessOrEqual(a[0].folder, a[k].folder); }
    }
    LessOrEqualAntisymmetric(a[0].folder, b[0].folder);
    assert k == 0;
  }

  /** Dropping equal heads keeps both sequences sorted, distinct and with
      the same records. */
  lemma SortedTails(a: seq<Metadata>, b: seq<Metadata>)
    requires a != [] && b != [] && a[0] == b[0]
    requires SortedByFolder(a) && SortedByFolder(b)
    requires DistinctFolders(a) && DistinctFolders(b)
    requires forall m :: m in a <==> m in b
    ensures SortedByFolder(a[1..]) && SortedByFolder(b[1..])
    ensures DistinctFolders(a[1..]) && DistinctFolders(b[1..])
    ensures forall m :: m in a[1..] <==> m in b[1..]
  {
    assert forall i :: 0 <= i < |a| - 1 ==> a[1..][i] == a[i + 1];
    assert forall i :: 0 <= i < |b| - 1 ==> b[1..][i] == b[i + 1];
    forall m | m in a[1..] ensures m in b[1..] {
      var i :| 0 <= i < |a| - 1 && a[1..][i] == m;
      assert m.folder != a[0].folder;
      assert m in b && m != b[0];
      assert b == [b[0]] + b[1..];
    }
    forall m | m in b[1..] ensures m in a[1..] {
      var i :| 0 <= i < |b| - 1 && b[1..][i] == m;
      assert m.folder != b[0].folder;
      assert m in a && m != a[0];
      assert a == [a[0]] + a[1..];
    }
  }

  // ---------------------------------------------------------------------------
  // The scan
  // ---------------------------------------------------------------------------

  /** `loadPresentationMetadata`: a missing directory gives no records, any
      other listing error propagates, and a listing gives the kept records
      sorted by folder together with the per-entry warnings. */
  function Load(listing: Listing, layout: Layout): (r: Result<Scan, string>)
    ensures listing.NotFound? ==> r == Success(Scan([], []))
    ensures listing.ListingFailed? ==> r == Failure(listing.code) && r.error != "ENOENT"
    ensures listing.Listed? ==>
      && r.Success?
      && SortedByFolder(r.value.records)
      && multiset(r.value.records) == multiset(Collect(listing.entries, layout).records)
      && r.value.warnings == Collect(listing.entries, layout).warnings
  {
    match listing
    case NotFound => Success(Scan([], []))
    case ListingFailed(code) => Failure(code)
    case Listed(entries) =>
      var scan := Collect(entries, layout);
      Success(Scan(SortByFolder(scan.records), scan.warnings))
  }

  /** A record is in the scan exactly when it is the record of a directory
      entry; files never give records, and every record has a manifest or a
      slides file behind it. */
  lemma LoadMembership(entries: seq<Entry>, layout: Layout, m: Metadata)
    ensures m in Load(Listed(entries), layout).value.records <==>
      exists e :: e in entries && e.isDirectory && Inspect(e, layout).record == Some(m)
  {
    var records := Load(Listed(entries), layout).value.records;
    assert m in records <==> m in multiset(records);
    assert m in Collect(entries, layout).records <==> m in multiset(Collect(entries, layout).records);
    CollectMembership(entries, layout, m);
  }

  /** Every record of a scan names a directory entry that had a manifest or
      a slides file, and has both slide paths or neither. */
  lemma RecordsWellFormed(entries: seq<Entry>, layout: Layout, m: Metadata)
    requires m in Load(Listed(entries), layout).value.records
    ensures exists e :: (e in entries && e.isDirectory && e.name == m.folder &&
      (HasManifest(e.manifest) || SlidesExist(e.slides)))
    ensures m.slidesPath.Some? <==> m.relativeSlidesPath.Some?
  {
    LoadMembership(entries, layout, m);
  }

  /** Non-directory entries are skipped: removing a file from the listing
      changes nothing. */
  lemma FilesIgnored(a: seq<Entry>, file: Entry, b: seq<Entry>, layout: Layout)
    requires !file.isDirectory
    ensures Load(Listed(a + [file] + b), layout) == Load(Listed(a + b), layout)
  {
    CollectSkipsFile(a, file, b, layout);
  }

  lemma CollectSkipsFile(a: seq<Entry>, file: Entry, b: seq<Entry>, layout: Layout)
    requires !file.isDirectory
    ensures Collect(a + [file] + b, layout) == Collect(a + b, layout)
  {
    CollectBySkips(a, file, b, EntryScanner(layout));
  }

  lemma CollectBySkips(a: seq<Entry>, skipped: Entry, b: seq<Entry>, scanOne: Entry -> Scan)
    requires scanOne(skipped) == Scan([], [])
    ensures CollectBy(a + [skipped] + b, scanOne) == CollectBy(a + b, scanOne)
  {
    CollectByAppend(a, [skipped] + b, scanOne);
    CollectByAppend(a, b, scanOne);
    assert ([skipped] + b)[1..] == b;
    assert a + [skipped] + b == a + ([skipped] + b);
  }

  /** The published order does not depend on the listing order: two
      listings of the same entries give the same records. */
  lemma LoadIgnoresListingOrder(a: seq<Entry>, b: seq<Entry>, layout: Layout)
    requires forall e :: e in a <==> e in b
    requires DistinctNames(a) && DistinctNames(b)
    ensures Load(Listed(a), layout).value.records == Load(Listed(b), layout).value.records
  {
    var ra := Load(Listed(a), layout).value.records;
    var rb := Load(Listed(b), layout).value.records;
    LoadFoldersDistinct(a, layout);
    LoadFoldersDistinct(b, layout);
    forall m ensures m in ra <==> m in rb {
      LoadMembership(a, layout, m);
      LoadMembership(b, layout, m);
    }
    SortedUnique(ra, rb);
  }

  /** Distinct entry names give a scan with distinct folders. */
  lemma LoadFoldersDistinct(entries: seq<Entry>, layout: Layout)
    requires DistinctNames(entries)
    ensures DistinctFolders(Load(Listed(entries), layout).value.records)
  {
    CollectDistinct(entries, layout);
    SortKeepsFoldersDistinct(Collect(entries, layout).records);
  }

  /** The listing of the loader's tests: two folders, one with only a
      manifest and one with only a slides file, and a stray file. */
  lemma LoadExample()
    ensures Load(Listed([ExamplePres1(), ExamplePres2(), ExampleFile()]), ExampleLayout()) ==
      Success(Scan([ExampleRecord1(), ExampleRecord2()], []))
  {
    CollectExample();
    SortExample();
  }

  lemma CollectExample()
    ensures Collect([ExamplePres1(), ExamplePres2(), ExampleFile()], ExampleLayout()) ==
      Scan([ExampleRecord1(), ExampleRecord2()], [])
  {
    var scanOne := EntryScanner(ExampleLayout());
    InspectExamplePres1();
    InspectExamplePres2();
    assert scanOne(ExamplePres1()) == Scan([ExampleRecord1()], []);
    assert scanOne(ExamplePres2()) == Scan([ExampleRecord2()], []);
    assert scanOne(ExampleFile()) == Scan([], []);
    CollectByThree(ExamplePres1(), ExamplePres2(), ExampleFile(), scanOne);
  }

  lemma CollectByThree(x: Entry, y: Entry, z: Entry, scanOne: Entry -> Scan)
    ensures CollectBy([x, y, z], scanOne) ==
      Concat(scanOne(x), Concat(scanOne(y), Concat(scanOne(z), Scan([], []))))
  {
    assert [z][1..] == [];
    assert CollectBy([z], scanOne) == Concat(scanOne(z), Scan([], []));
    assert [y, z][1..] == [z];
    assert CollectBy([y, z], scanOne) == Concat(scanOne(y), CollectBy([z], scanOne));
    assert [x, y, z][1..] == [y, z];
  }

  function ExampleLayout(): Layout {
    Layout("/mock/cwd/presentations", "presentations")
  }

  function ExamplePres1(): Entry {
    Entry("pres1", true,
      ManifestParsed(Object(ManifestFields(Some("pres1-workspace"), Some("Presentation 1"), None, None))),
      SlidesMissing)
  }

  function ExamplePres2(): Entry {
    Entry("pres2", true, ManifestMissing, SlidesPresent("title: " + "Presentation 2" + "\n" + "# Slide 1"))
  }

  function ExampleFile(): Entry {
    Entry("file.txt", false, ManifestMissing, SlidesMissing)
  }

  function ExampleRecord1(): Metadata {
    Metadata("pres1", Some("pres1-workspace"), map[], None, None, Some("Presentation 1"))
  }

  /** The paths are `/mock/cwd/presentations/pres2/slides.md` and
      `presentations/pres2/slides.md`, written as the joins that build them. */
  function ExampleRecord2(): Metadata {
    Metadata("pres2", None, map[],
      Some("/mock/cwd/presentations" + "/" + "pres2" + "/" + "slides.md"),
      Some("presentations" + "/" + "pres2" + "/" + "slides.md"),
      Some("Presentation 2"))
  }

  lemma InspectExamplePres1()
    ensures Inspect(ExamplePres1(), ExampleLayout()) == Inspection(Some(ExampleRecord1()), [])
  {
  }

  lemma InspectExamplePres2()
    ensures Inspect(ExamplePres2(), ExampleLayout()) == Inspection(Some(ExampleRecord2()), [])
  {
    InspectSlidesOnly("pres2", "title: " + "Presentation 2" + "\n" + "# Slide 1", ExampleLayout());
    InferTitleExample();
  }

  /** A folder with a readable `slides.md` and no manifest. */
  lemma InspectSlidesOnly(name: string, content: string, layout: Layout)
    ensures Inspect(Entry(name, true, ManifestMissing, SlidesPresent(content)), layout) ==
      Inspection(Some(Metadata(name, None, map[], Some(SlidesPathOf(layout, name)),
        Some(RelativeSlidesPathOf(layout, name)), InferTitle(content))), [])
  {
  }

  lemma SortExample()
    ensures SortByFolder([ExampleRecord1(), ExampleRecord2()]) == [ExampleRecord1(), ExampleRecord2()]
  {
    assert LessOrEqual("pres1", "pres2");
    assert [ExampleRecord1(), ExampleRecord2()][1..] == [ExampleRecord2()];
    assert SortByFolder([ExampleRecord2()]) == [ExampleRecord2()];
  }
}
