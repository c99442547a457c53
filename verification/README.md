# Presentation scanner and selector, modelled in Dafny

This project models the core of a Vite plugin that lets a user pick one of
several Slidev presentations kept under a `presentations/` directory:

- **The metadata scanner** (`MetadataLoader`, in `metadata_loader.dfy`). It
  lists the presentations directory and inspects every sub-directory. Each
  folder's `package.json` manifest and `slides.md` file give one metadata
  record: the workspace name, the scripts, the absolute and the relative
  slides path, and a title. The title comes from the manifest or is read
  off the slides text. The records are sorted by folder name.
- **The option resolver** (`PresentationSelector`, in
  `presentation_selector.dfy`). It turns every record into at most one
  runnable option for the requested action (`dev` or `export`). An option
  runs through the workspace's script or directly against the slides file.
  Every option also gets a display label and an identity key.
- **Shared string operations** (`Text`, in `text.dfy`): JavaScript's `trim`,
  `split(/\r?\n/)` and `split('/').pop()`, and the order used for sorting.
- **`Option` and `Result`** (`Wrappers`, in `wrappers.dfy`). They stand in
  for `null`/`undefined`, for `??`, and for errors that propagate.

The filesystem is an immutable snapshot. The scanner gets the outcome of
listing the directory (`Listing`) and, for every entry, the outcome of
reading and parsing the manifest (`ManifestOutcome`) and of probing and
reading the slides file (`SlidesOutcome`). Given that snapshot the scan is a
pure function, `MetadataLoader.Load`. The terminal menu is represented only
by what it reports (`MenuOutcome`).

A manifest that parses to a truthy value that is not an object (a number,
say) still counts as a manifest: the folder is kept even
without a slides file, and it just has no name, title or scripts. Only a
falsy parse result (`null`, `false`, `0`, `""`) counts as no manifest.

## Model

| member | source | states |
|---|---|---|
| MetadataLoader.Load | src/metadata-loader.ts:16-50 | A missing directory (ENOENT) gives no records and no warnings. Any other listing error is returned as a failure carrying its code, which is never ENOENT. A listing gives records sorted by folder that are a permutation of the records its directory entries produce, in listing order, plus their warnings. |
| MetadataLoader.LoadMembership | src/metadata-loader.ts:33-46 | A record is in the scan exactly when some directory entry of the listing inspects to it. |
| MetadataLoader.FilesIgnored | src/metadata-loader.ts:33-36 | Adding a non-directory entry anywhere in a listing changes neither the records nor the warnings. |
| MetadataLoader.RecordsWellFormed | src/metadata-loader.ts:90-109 | Every scanned record names a directory entry that has a manifest or a slides file, and has both slide paths or neither. |
| MetadataLoader.LoadIgnoresListingOrder | src/metadata-loader.ts:33-48 | Two listings of the same entries, with distinct names, give the same record sequence, whatever their order. |
| MetadataLoader.LoadFoldersDistinct | src/metadata-loader.ts:16-50 | Distinct entry names give records with distinct folders. |
| MetadataLoader.Collect | src/metadata-loader.ts:31-46 | The loop yields at most one record per directory entry. Its other properties are stated by `CollectMembership`, `CollectAppend`, `CollectDistinct` and `FilesIgnored`. |
| MetadataLoader.CollectByBounded | src/metadata-loader.ts:33-46 | When every entry contributes at most one record, the collection has at most as many records as entries. |
| MetadataLoader.CollectMembership | src/metadata-loader.ts:33-46 | Before sorting, a record is collected exactly when it is the inspection result of a directory entry. |
| MetadataLoader.CollectAppend | src/metadata-loader.ts:33-46 | Entries are inspected independently: the scan of two listings laid end to end is the two scans laid end to end. So no entry, failing or not, can abort or change the inspection of another. |
| MetadataLoader.CollectDistinct | src/metadata-loader.ts:33-46 | Collection keeps folder names distinct when entry names are distinct. |
| MetadataLoader.SortByFolder | src/metadata-loader.ts:48 | The result is sorted by folder and is a permutation (equal multiset) of the input. |
| MetadataLoader.InsertByFolder | src/metadata-loader.ts:48 | Inserting into a sorted sequence keeps it sorted and adds exactly the inserted record. |
| MetadataLoader.SortKeepsFoldersDistinct | src/metadata-loader.ts:48 | Sorting keeps distinct folders distinct. |
| MetadataLoader.SortedUnique | src/metadata-loader.ts:48 | With distinct folders, two sorted sequences with the same members are equal, so the sorted order is unique. |
| Text.LessOrEqualTotal | src/metadata-loader.ts:48 | Any two folder names are comparable. |
| Text.LessOrEqualTransitive | src/metadata-loader.ts:48 | The sort order is transitive. |
| Text.LessOrEqualAntisymmetric | src/metadata-loader.ts:48 | Names ordered both ways are equal. |
| Text.LessOrEqualReflexive | src/metadata-loader.ts:48 | Every name is ordered with itself. |
| MetadataLoader.Inspect | src/metadata-loader.ts:52-110 | A folder gives no record exactly when it has neither a manifest nor a slides file. The record's folder is the entry name. The workspace is the manifest `name`, or none. The scripts are the manifest `scripts`, or empty. Both slide paths are present exactly when the slides probe succeeded, and then they are the joined paths. A manifest read failure, a probe failure other than ENOENT and a title read failure are each warned about exactly when they happen, and every warning names the folder. The warnings are pairwise distinct, so each appears at most once, and there are at most three. A title read failure warns only when the manifest gave no title. |
| MetadataLoader.TitlePrecedence | src/metadata-loader.ts:94-98 | The title is the manifest `title`, else its `displayName`, else the title inferred from readable slides text, else none. A present but empty manifest value still wins. |
| MetadataLoader.ManifestTitleIgnoresSlides | src/metadata-loader.ts:94-98 | When the manifest gives a title or display name, changing what the slides file holds or whether it reads changes neither the record nor the warnings. |
| MetadataLoader.TitleFromSlides | src/metadata-loader.ts:112-141 | A slides file that reads gives `InferTitle` of its text as the title, and no warning. One that does not read gives no title and exactly one title-read warning for the folder. A title is never empty. `InferTitle` scans the text's lines with `TitleFromLines`, whose result `FirstTitleLineDecides` and `NoTitleLineNoTitle` fix. |
| MetadataLoader.InferTitle | src/metadata-loader.ts:116-132 | An inferred title is never empty. The line it comes from is fixed by `FirstTitleLineDecides`, `NoTitleLineNoTitle` and `LeadingTitleLineDecides`. |
| MetadataLoader.TitleFromLines | src/metadata-loader.ts:119-132 | An inferred title is never empty. |
| MetadataLoader.FirstTitleLineDecides | src/metadata-loader.ts:119-131 | The first line whose trimmed form starts with `title:` or `# ` decides the title: its trimmed remainder, or none if that is empty, whatever the later lines hold. Blank and other lines before it are skipped. |
| MetadataLoader.NoTitleLineNoTitle | src/metadata-loader.ts:119-140 | Without such a line there is no title. |
| MetadataLoader.SubheadingIsNoTitleLine | src/metadata-loader.ts:129-131 | A line that trims to something starting with `##` is not a title line. |
| MetadataLoader.LeadingTitleLineDecides | src/metadata-loader.ts:117-131 | A slides text whose first line is `title: v` has title `v`, whatever follows, when `v` is non-empty, has no white space at its ends and holds no line feed. |
| MetadataLoader.InferTitleExample | src/metadata-loader.test.ts:63-70 | The text `title: Presentation 2` followed by `# Slide 1` gives the title `Presentation 2`. |
| MetadataLoader.LoadExample | src/metadata-loader.test.ts:29-105 | The tests' listing (`pres1` with a manifest only, `pres2` with a slides file only, and a file) gives exactly the two expected records, in order, with no warnings. |
| MetadataLoader.NonEmpty | src/metadata-loader.ts:126 | `value \|\| null`: present exactly when the value is non-empty, and then unchanged. |
| Text.Trim | src/metadata-loader.ts:120 | Trimming never lengthens a string. What it removes is stated by `TrimSpec`, `TrimStartSpec` and `TrimEndSpec`. |
| Text.TrimSpec | src/metadata-loader.ts:120 | The trim of a string is a slice of it with only white space around it and none at its ends. It is empty exactly when the string is all white space. |
| Text.TrimStartSpec | src/metadata-loader.ts:120 | Trimming the front removes the longest all-white-space prefix. |
| Text.TrimEndSpec | src/metadata-loader.ts:120 | Trimming the back removes the longest all-white-space suffix. |
| Text.TrimIdempotent | src/metadata-loader.ts:126 | Trimming an already trimmed value changes nothing. |
| Text.SplitLfSpec | src/metadata-loader.ts:117 | The pieces of a split hold no line feed and join back, with line feeds, into the original text. |
| Text.SplitJoinLf | src/metadata-loader.ts:117 | Splitting the join of LF-free lines gives the lines back. |
| Text.Lines | src/metadata-loader.ts:117 | There is one line per LF-separated piece. Each piece followed by an LF loses one trailing CR, the CR of a CRLF break. The last piece, which no LF follows, is kept as it is, a trailing CR included. |
| Text.LinesWithoutLf | src/metadata-loader.ts:117 | A text without line feeds is one line, kept whole, even when it ends in a CR. |
| Text.LastSegment | src/presentation-selector.tsx:179-181 | The slug is the suffix after the last `/`, it holds no `/`, and it is the whole name when there is no `/`. |
| PresentationSelector.CreateOption | src/presentation-selector.tsx:139-175 | The option is a workspace run exactly when the workspace and the script for the action are both non-empty. It is a slides run exactly when that fails and the slides path is non-empty. Otherwise there is no option. Both variants copy folder, workspace, title and both slide paths unchanged and carry the requested action. The run carries the workspace, or both slide paths. |
| PresentationSelector.CreateOptionExample | src/presentation-selector.tsx:143-174 | A workspace with only a `dev` script runs through the workspace for `dev`. For `export` it falls back to its slides file when it has one, and has no option otherwise. |
| PresentationSelector.BuildOptions | src/presentation-selector.tsx:46-48 | There are never more options than records. |
| PresentationSelector.OptionsFilterResolutions | src/presentation-selector.tsx:46-48 | The options are exactly the present per-record resolutions, in record order: the map step followed by the filter step. |
| PresentationSelector.OptionsAreResolutions | src/presentation-selector.tsx:46-48 | The options are exactly the filtered resolutions, so each resolving record gives one option, in record order. Hence an option is listed exactly when some record resolves to it, and the options are an order-preserving subsequence of the resolutions. |
| PresentationSelector.SomesMembership | src/presentation-selector.tsx:48 | The filter step keeps exactly the present values. |
| PresentationSelector.SomesSubsequence | src/presentation-selector.tsx:48 | The filter step keeps the present values in their order. |
| PresentationSelector.OptionFolderOfRecord | src/presentation-selector.tsx:46-48 | Every option's folder is the folder of some record. |
| PresentationSelector.OptionsKeepFoldersDistinct | src/presentation-selector.tsx:46-48 | Records with distinct folders give options with distinct folders. |
| PresentationSelector.SlidesRecordResolves | src/presentation-selector.tsx:158-172 | A record with a non-empty slides path always yields an option. |
| PresentationSelector.ScannedSlidesResolve | src/presentation-selector.tsx:158-172 | Every scanned folder with a slides file yields an option for every action, because its slides path is never empty. |
| PresentationSelector.FormatLabel | src/presentation-selector.tsx:177-208 | Every label opens with `[` and closes with `)`. The tag, the rule chosen and what each rule shows are stated by `LabelShape`, `WorkspaceLabelCascade`, `SlidesLabel` and `LabelShowsTitleOrFolder`. |
| PresentationSelector.LabelShape | src/presentation-selector.tsx:188-207 | Every label starts with `[workspace] ` or `[slides] ` according to the run and ends with `)`. A workspace label always ends with the workspace slug followed by `)`, whichever rule was chosen. Rule (a) shows the slug alone in the parentheses. The other rules show the full workspace name there, which ends with the slug. |
| PresentationSelector.LabelPrefixTellsVariant | src/presentation-selector.tsx:188 | A label starts with `[workspace] ` exactly for workspace runs. |
| PresentationSelector.LabelShowsTitleOrFolder | src/presentation-selector.tsx:183-207 | Every label contains the title when there is one, and the folder otherwise. |
| PresentationSelector.WorkspaceLabelCascade | src/presentation-selector.tsx:190-207 | Rule (a): a present title that differs from a non-empty slug is shown with the slug. Rule (b): otherwise, a non-empty slug that differs from the folder gives the folder with the full workspace name. Rule (c): otherwise the title or folder is shown with the full workspace name. |
| PresentationSelector.SlidesLabel | src/presentation-selector.tsx:183-207 | A slides label is `[slides] <title, else folder> (<relative slides path, else empty>)`. |
| PresentationSelector.DeckLabelExample | src/presentation-selector.tsx:190-196 | Title `Deck`, workspace `org/deck`, folder `deck` give `[workspace] Deck (deck)`. The exact, case-sensitive comparison keeps the title. |
| PresentationSelector.DeckSlug | src/presentation-selector.tsx:179-181 | The slug of `org/deck` is `deck`. |
| PresentationSelector.CreateKey | src/presentation-selector.tsx:210-220 | A key starts with its action and the `::` separator. That the key determines its fields is stated by `KeyRoundTrip` and `KeysDistinct`. |
| PresentationSelector.KeyRoundTrip | src/presentation-selector.tsx:210-219 | When the folder holds no `:`, the key splits back at `::` into exactly the action, the folder, the run type and the detail. The detail is the run's workspace, else the folder, for workspace runs, and the relative slides path, else empty, for slides runs. |
| PresentationSelector.KeysDistinct | src/presentation-selector.tsx:214-219 | For one action, options with different colon-free folders get different keys. |
| PresentationSelector.KeysDistinctAcrossActions | src/presentation-selector.tsx:218 | A `dev` key is never an `export` key. |
| PresentationSelector.KeysCollideWithColons | src/presentation-selector.tsx:214-219 | Without the colon-free proviso, two options with different folders can share a key. |
| PresentationSelector.ScanKeysDistinct | src/presentation-selector.tsx:113-119 | The menu items of one scan have pairwise distinct keys when the listing's names are distinct and colon-free. |
| PresentationSelector.SelectPresentation | src/presentation-selector.tsx:39-86 | It fails exactly when the listing fails, with its code, which is never ENOENT. Otherwise the options are the resolved records of the scan. An empty option list means no selection and no cancellation. With options to choose from, a menu that reports a pick selects exactly that option, and a cancellation is reported exactly when the menu was cancelled. A selection is never also a cancellation, and is only ever the option the menu reported. A menu that closes without either selects nothing and cancels nothing. |
| PresentationSelector.MissingDirectorySelectsNothing | src/presentation-selector.tsx:45-52 | A missing presentations directory offers no options and selects nothing. |

## Left out

- The terminal UI (Ink rendering, `useInput`, `SelectInput`, the unmount and `waitUntilExit` sequence): the menu is a parameter that reports a picked option, a cancellation (`q` or Escape) or a close. That it picks one of the offered options is not modelled.
- The plugin and process plumbing of `src/index.ts` (Vite hooks, environment and argument checks, spawning Slidev, exit codes): not part of this model.
- Filesystem calls and `JSON.parse`: replaced by the snapshot outcomes described above. A failed read and a failed parse both become `ManifestUnreadable`.
- Manifest fields of types other than string (and a `scripts` object with non-string values): fields are optional strings and `scripts` an optional string map.
- `console.warn` message text: each warning is a tag naming the folder it concerns.
- `localeCompare`: replaced by lexicographic order on code points, a total order that only approximates ICU collation. Unlike that order, `localeCompare` returns 0 for distinct names, such as canonically equivalent spellings (`e` with a combining accent against the precomposed `é`) or names that differ only in ignorable characters. The stable sort then keeps such names in listing order.
- MetadataLoader.LoadIgnoresListingOrder: holds for the lexicographic order only. Under `localeCompare`, two distinct folder names that compare equal keep their listing order, so the record sequence can depend on the listing order. `MetadataLoader.SortedUnique` rests on the same antisymmetry.
- Path normalisation by `path.join` and `path.relative`: paths are joined with `/`, and the relative path is the presentations directory relative to the root (a `Layout` field) joined with the folder and `slides.md`.
- The `process.cwd()` defaults, the `rootDir` constant and the sequential `await`s: the root and the presentations directory come in through `Layout`, and there is no concurrency to model.
- Unicode white space: `trim` is modelled with the full ECMAScript set of white space and line terminator code points. Strings are sequences of code points, so UTF-16 surrogate pairs are not modelled.
- PresentationSelector.LabelShape: states the shape of a label (prefix, closing parenthesis, slug). It does not state the ` (` separator, which `SlidesLabel` and `WorkspaceLabelCascade` give per rule.
