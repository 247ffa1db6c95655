# kedro-wings in Dafny

A model of the core of kedro-wings, a Kedro hook that infers data-catalog entries from dataset
names such as `02_intermediate/x.csv`, with proofs of what it promises.

- **Name parser** (`kedro_wings/wing_info.py`, module `Wings`). `parse_wing_info` tries the
  registered extensions in priority order: more dot-separated segments first, then longer. The
  first one that ends the name is chosen. What precedes it is split into a directory and a name.
  When nothing matches, the result is the all-empty `WingInfo()`.
  - The model keeps the double stable sort (`StableSort`) and the first-match search on a
    sequence, which is the order in which the caller's iterable is iterated.
  - It is proved equal to a reference parse that picks the longest registered suffix from the
    set. So the result does not depend on iteration order.
  - Python's `os.path.join`, `dirname` and `basename` are modelled in `PosixPath`.
- **Entry synthesis** (`kedro_wings/kedro_wings.py`, class `KedroWings`).
  - Registry merge and `_verify_config` live in `WingConfig`, and so does
    `_wing_to_dataset_config`.
  - `WingEntries` holds what the wing pass, the chrono pass (names ending in `!`) and
    `_create_entries` compute, as pure "plans" over the names in iteration order. The first
    exception raised in that order wins.
  - `KedroWings` holds the objects:
    - datasets, where `from_config` always yields a fresh object;
    - a `DataCatalog` with `list` and `add`;
    - the `KedroWings` hook, whose fields are set by its constructor;
    - a `Context` whose catalog getter the hook wraps once.
  - The loops that fill `out` are methods, and each is proved against its plan. A reused
    dataset is the very object held by the catalog.
  - `before_pipeline_run` and the wrapped getter add only the names the catalog does not list.
- **Test cases** (`Vectors`): the cases in `tests/test_wing_info.py` and
  `tests/test_kedro_wings.py`, stated as lemmas.

Where the code and its description differ, the model follows the code:
- A `"filepath"` key in a registry configuration overrides the computed path. The registry
  keys are spread after `filepath`.
- A chrono name never aliases a wing entry, even though the lookup table includes the wing
  entries. A wing entry's name parses, so the chrono name built from it is built afresh
  (`WingEntries.EntryPlanEntries`).
- All entries are computed before the first `add`, so a raise leaves the catalog unchanged.
- `_add_wings_to_context` sets its backup marker before it computes the entries. A raise
  therefore leaves the marker set and the getter unwrapped, and every later call returns at once.
- `tests/test_kedro_wings.py` calls `_create_catalog_entries`, which the class does not define.
  Only its expected file paths are used.

## Model

| member | source | states |
|---|---|---|
| `StableSort.Sort` | kedro_wings/wing_info.py:18-22 | `sorted(..., reverse=True)` returns a permutation of its input, in non-increasing key order |
| `StableSort.InsertSorted` | kedro_wings/wing_info.py:18-22 | inserting into a key-sorted sequence keeps it sorted |
| `StableSort.SortIsStable` | kedro_wings/wing_info.py:18-22 | sorting by a second key an input already sorted by the first keeps the first key's order among ties |
| `StableSort.InsertKeepsTies` | kedro_wings/wing_info.py:18-22 | the insertion step preserves the tie order |
| `Wings.SplitOn` | kedro_wings/wing_info.py:20 | `split(".")` gives one more piece than there are dots, and no piece contains a dot |
| `Wings.Prioritized` | kedro_wings/wing_info.py:18-22 | the double `sorted(..., reverse=True)`: by length, then by segment count; its meaning is `Wings.PrioritizedOrder` |
| `Wings.PrioritizedOrder` | kedro_wings/wing_info.py:18-22 | the priority order holds exactly the given extensions, in descending segment count and then descending length |
| `Wings.FirstSuffix` | kedro_wings/wing_info.py:18-27 | the `for … break / else` search finds nothing exactly when no candidate ends the name; otherwise it finds the first candidate, in order, that ends the name |
| `Wings.SplitName` | kedro_wings/wing_info.py:29-37 | the record built for the chosen extension: dirname and basename of the cleaned name, the extension, and `name + extension`; its meaning is `Wings.SplitNameAt` and `Wings.SplitNameRoundTrip` |
| `Wings.Cleaned` | kedro_wings/wing_info.py:29 | for a non-empty extension, the cleaned name followed by the extension is the name |
| `Wings.EmptyExtensionGivesSentinel` | kedro_wings/wing_info.py:29-37 | the empty extension ends every name, and because `[:-0]` is empty it yields the all-empty record |
| `Wings.LongestSuffix` | kedro_wings/wing_info.py:18-25 | reference: the longest extension in the set that ends the name, or none when no extension does |
| `Wings.EndsWith` | kedro_wings/wing_info.py:24 | `str.endswith`: the last `len(e)` characters are `e` |
| `Wings.ParseLongest` | kedro_wings/wing_info.py:12-37 | reference parse: the sentinel exactly when no non-empty extension ends the name; otherwise the extension is registered, non-empty and a literal suffix |
| `Wings.LongerSuffixHasNoFewerSegments` | kedro_wings/wing_info.py:18-22 | of two suffixes of the same name, the longer never has fewer dot-separated segments |
| `Wings.FirstSuffixIsLongest` | kedro_wings/wing_info.py:18-25 | on a priority-ordered list, the first suffix found is at least as long as every other suffix in the list |
| `Wings.FirstSuffixIsLongestSuffix` | kedro_wings/wing_info.py:18-25 | the first suffix found in priority order is the longest suffix in the set |
| `Wings.ParseWingInfo` | kedro_wings/wing_info.py:12-37 | `parse_wing_info` as written, over the extensions in iteration order; its meaning is `Wings.ParseMeaning` and `Wings.ParseIsLongestMatch` |
| `Wings.ParseIsLongestMatch` | kedro_wings/wing_info.py:12-37 | `parse_wing_info` equals the reference longest-suffix parse on the set of extensions, for every iteration order |
| `Wings.ParseIgnoresOrder` | kedro_wings/wing_info.py:18-25 | two iteration orders of the same extensions give the same result |
| `Wings.ParseIgnoresNamespaces` | kedro_wings/wing_info.py:12-16 | the result does not depend on the namespaces argument |
| `Wings.ParseMeaning` | kedro_wings/wing_info.py:24-37 | the sentinel iff no non-empty extension ends the name; otherwise the longest matching registered extension, with `directory`/`name` the dirname/basename of the rest and `basename == name + extension` |
| `Wings.ParseByLongest` | kedro_wings/wing_info.py:18-37 | the reference parse splits at any non-empty matching extension that no longer match beats |
| `Wings.SplitNameAt` | kedro_wings/wing_info.py:29-37 | `directory/stem + ext` split at `ext` gives back `directory`, `stem`, `ext` and `stem + ext` |
| `Wings.ParseLongestSplitsAt` | kedro_wings/wing_info.py:12-37 | a name `directory/stem + ext`, where `ext` is the longest match, parses (reference) into exactly those parts |
| `Wings.ParseSplitsAt` | kedro_wings/wing_info.py:12-37 | the same for `parse_wing_info`, whatever the iteration order |
| `Wings.SplitNameRoundTrip` | kedro_wings/wing_info.py:29-35 | joining the directory and the basename of a split gives the name back (no doubled '/') |
| `Wings.ParseRoundTrip` | tests/test_wing_info.py:57-60 | `os.path.join(directory, basename) == name` for every matched name without a doubled '/' |
| `Wings.ParseLongestRelativeParts` | kedro_wings/wing_info.py:29-35 | for a relative name, the parsed directory and basename are relative and join back to the name |
| `PosixPath.SplitPoint` | kedro_wings/wing_info.py:31-32 | the last segment starts right after the last '/', and holds no '/' |
| `PosixPath.RStripSeps` | kedro_wings/wing_info.py:31 | `rstrip('/')` is a prefix that does not end in '/', and only '/' was removed |
| `PosixPath.Join` | kedro_wings/kedro_wings.py:99-100 | two-argument `os.path.join`, an absolute second argument discarding the first; its meaning is `PosixPath.JoinKeepsParts` |
| `PosixPath.JoinKeepsParts` | tests/test_wing_info.py:58 | `join(a, b)` is `b` for an absolute `b`; otherwise `a`, then one '/' exactly when `a` is non-empty and does not end in one, then `b` |
| `PosixPath.Dirname` | kedro_wings/wing_info.py:31 | `os.path.dirname` is a prefix of the path |
| `PosixPath.Basename` | kedro_wings/wing_info.py:32 | `os.path.basename` is a suffix of the path and contains no '/' |
| `PosixPath.SplitAtLastSep` | kedro_wings/wing_info.py:31-32 | `dirname(d/b) == d` and `basename(d/b) == b` for a `b` without '/' |
| `PosixPath.HeadOfSplit` | kedro_wings/wing_info.py:31 | without doubled '/', the dirname plus the separator `join` adds is everything before the basename |
| `PosixPath.JoinDirnameBasename` | tests/test_wing_info.py:57-60 | `join(dirname(p), basename(p) + ext) == p + ext` |
| `PosixPath.JoinAssociates` | kedro_wings/kedro_wings.py:98-100 | `join(join(root, d), b) == join(root, join(d, b))` for relative `d` and `b` |
| `WingConfig.MergeRegistry` | kedro_wings/kedro_wings.py:71 | the registry is the defaults overridden key by key: its keys are the union, the caller's values win, and default values survive elsewhere |
| `WingConfig.StripNamespaceDots` | kedro_wings/kedro_wings.py:76 | one trailing '.' is removed from each namespace, and nothing else changes |
| `WingConfig.FoundConfig` | kedro_wings/kedro_wings.py:84-104 | a bare value `v` becomes `{"type": v}`; it raises `MissingType(ext)` exactly for a dictionary without "type"; otherwise the dictionary, which has "type" |
| `WingConfig.FilePath` | kedro_wings/kedro_wings.py:96-100 | the computed file path; its meaning is `WingConfig.FilePathJoinsRootAndName` |
| `WingConfig.DatasetConfig` | kedro_wings/kedro_wings.py:92-109 | fails exactly when the registry entry lacks "type"; otherwise the registry's keys plus "filepath", with the registry's values (a registry "filepath" wins) and the computed path otherwise |
| `WingConfig.FilePathJoinsRootAndName` | kedro_wings/kedro_wings.py:96-100 | with no rewrite of the directory, the file path is `os.path.join(root, name)` (and `name` itself for an empty root) |
| `WingEntries.IsChrono` | kedro_wings/kedro_wings.py:131 | a chrono name is one ending in '!' |
| `WingEntries.Stem` | kedro_wings/kedro_wings.py:152-154 | a chrono name's stem is the name without its '!': `stem + "!" == name` |
| `WingEntries.Parse` | kedro_wings/kedro_wings.py:134-136 | the hook's call of `parse_wing_info` over the registry keys, as the reference parse on their set, equal to the as-written parse for every key order (`Wings.ParseIsLongestMatch`) |
| `WingEntries.WingStep` | kedro_wings/kedro_wings.py:130-141 | one iteration of the wing loop; its meaning is `WingEntries.WingPlanMeaning` |
| `WingEntries.ChronoStep` | kedro_wings/kedro_wings.py:151-167 | one iteration of the chrono loop; its meaning is `WingEntries.ChronoPlanSucceeds` and `WingEntries.EntryPlanChronoEntries` |
| `WingEntries.WingPlan` | kedro_wings/kedro_wings.py:126-142 | the entries of `_create_wing_entries`; its meaning is `WingEntries.WingPlanMeaning` |
| `WingEntries.ChronoPlan` | kedro_wings/kedro_wings.py:144-169 | the entries of `_create_chronocode_entries`; its meaning is `WingEntries.ChronoPlanSucceeds`, `WingEntries.ChronoPlanMeaning` and `WingEntries.ChronoPlanFailure` |
| `WingEntries.EntryPlan` | kedro_wings/kedro_wings.py:111-124 | the entries of `_create_entries`; its meaning is `WingEntries.EntryPlanSucceeds`, `WingEntries.EntryPlanKeys`, `WingEntries.EntryPlanEntries` and `WingEntries.EntryPlanChronoEntries` |
| `WingEntries.Collect` | kedro_wings/kedro_wings.py:129-142 | the loop filling `out` succeeds iff every step does; it fails with the first failing step's error, and otherwise keys exactly the names whose step gives a value |
| `WingEntries.CollectFailsAt` | kedro_wings/kedro_wings.py:130-141 | the first raising iteration determines the error of the whole loop |
| `WingEntries.WingPlanMeaning` | kedro_wings/kedro_wings.py:126-142 | the wing pass fails iff some non-chrono parsing name's entry lacks "type"; otherwise it keys exactly those names, each built from `_wing_to_dataset_config` of its parse |
| `WingEntries.ChronoReusesKnown` | kedro_wings/kedro_wings.py:164-167 | the chrono pass reuses only names found in the lookup table |
| `WingEntries.ChronoPlanSucceeds` | kedro_wings/kedro_wings.py:151-166 | the chrono pass succeeds exactly when every chrono name's stem parses to a configuration with "type" or, when it does not parse, is a known name |
| `WingEntries.ChronoPlanMeaning` | kedro_wings/kedro_wings.py:144-169 | a successful chrono pass keys exactly the chrono names, each with its step's entry |
| `WingEntries.ChronoPlanFailure` | kedro_wings/kedro_wings.py:151-166 | a failing chrono pass fails on a chrono name of the input; `MissingChronoDataSetTarget` names one whose stem neither parses nor is known |
| `WingEntries.EntryPlanSucceeds` | kedro_wings/kedro_wings.py:111-169 | `_create_entries` succeeds exactly when every wing name's registry entry has "type" and every chrono name's stem parses to such a configuration or, when it does not parse, is a catalog name |
| `WingEntries.EntryPlanChronoEntries` | kedro_wings/kedro_wings.py:151-167 | on success every chrono name `n!` has an entry: built from `n`'s configuration when `n` parses, otherwise a reuse of `n` |
| `WingEntries.EntryPlanKeys` | kedro_wings/kedro_wings.py:111-124 | `_create_entries` keys exactly the wing names and the chrono names, a subset of the input, and the two are disjoint |
| `WingEntries.EntryPlanEntries` | kedro_wings/kedro_wings.py:119-123 | non-chrono entries are built from their own parse; every reused target is a catalog name whose name does not parse |
| `WingEntries.ChronoTargetsOutsideWings` | kedro_wings/kedro_wings.py:119-123 | the chrono pass's reuse targets are catalog names and never wing entries |
| `WingEntries.SingleWingPlan` | kedro_wings/kedro_wings.py:126-142 | a single parsing non-chrono name whose configuration succeeds gives a one-entry plan |
| `WingEntries.SingleWingFailure` | kedro_wings/kedro_wings.py:126-142 | a single parsing non-chrono name whose configuration fails raises `MissingType` |
| `WingEntries.SingleChronoPlan` | kedro_wings/kedro_wings.py:151-167 | a single chrono name whose stem does not parse reuses the stem from the catalog, or raises |
| `WingEntries.MergeAbsent` | kedro_wings/kedro_wings.py:227-231 | the insert-if-absent merge: all keys of both maps, old entries kept, new entries only under new names |
| `WingEntries.EntryPlanStable` | kedro_wings/kedro_wings.py:119-123 | a catalog with more names does not change a successful plan |
| `WingEntries.MergeIsIdempotent` | kedro_wings/kedro_wings.py:225-231 | a second run on the catalog the first run produced computes the same plan, and its insert-if-absent merge leaves that catalog unchanged |
| `KedroWings.DataSet.FromConfig` | kedro_wings/kedro_wings.py:139-141 | `from_config` yields a fresh dataset with the given name and configuration |
| `KedroWings.DataCatalog.List` | kedro_wings/kedro_wings.py:193 | `catalog.list()` is the set of the catalog's names |
| `KedroWings.DataCatalog.Add` | kedro_wings/kedro_wings.py:197 | `catalog.add` stores the dataset under a name the catalog does not have |
| `KedroWings.RealizesUnion` | kedro_wings/kedro_wings.py:119-124 | the wing datasets together with the chrono datasets realize the union plan against the catalog |
| `KedroWings.AddAbsent` | kedro_wings/kedro_wings.py:227-231 | the insert-if-absent loop leaves the catalog as `MergeAbsent` of the old catalog and the entries |
| `KedroWings.Materialize` | kedro_wings/kedro_wings.py:129-142 | the `out`-filling loop: the plan's error on failure; otherwise one dataset per planned name, the reused object for a `Reuse` entry and a newly allocated one for every `Build` entry |
| `KedroWings.KedroWings.constructor` | kedro_wings/kedro_wings.py:68-76 | the fields hold the merged registry, the paths, the root, the flag and the stripped namespaces |
| `KedroWings.KedroWings.Default` | kedro_wings/kedro_wings.py:50-76 | `KedroWings()` has the default registry, no path rewrites, root "data" and is enabled |
| `KedroWings.KedroWings.CreateWingEntries` | kedro_wings/kedro_wings.py:126-142 | fails as the wing plan does; otherwise a fresh dataset per planned wing name, with its configuration |
| `KedroWings.KedroWings.CreateChronoEntries` | kedro_wings/kedro_wings.py:144-169 | fails as the chrono plan does; otherwise a newly allocated dataset for every built chrono name and the identical known object for every reused one |
| `KedroWings.KedroWings.CreateEntries` | kedro_wings/kedro_wings.py:111-124 | fails as `_create_entries`'s plan does; otherwise realizes the plan, every reused object being the catalog's own and every built one newly allocated |
| `KedroWings.KedroWings.BeforePipelineRun` | kedro_wings/kedro_wings.py:209-231 | disabled: no change; a raise: the error and no change; otherwise adds the planned entries under new names only, each built one newly allocated, and keeps every existing entry |
| `KedroWings.KedroWings.AddWingsToContext` | kedro_wings/kedro_wings.py:173-207 | one-shot: with the marker set nothing changes; otherwise sets the marker and, unless the plan raises, wraps the getter over the realized entries, each built one newly allocated |
| `KedroWings.Context.GetCatalog` | kedro_wings/kedro_wings.py:189-198 | once wrapped, the getter adds the wing entries the catalog lacks and nothing else |
| `Vectors.ParsesSampleCsv` | tests/test_wing_info.py:33-40 | `01_raw/sample_data.csv` parses to `("01_raw", "sample_data", ".csv", "sample_data.csv")` |
| `Vectors.ParsesSampleTxt` | tests/test_wing_info.py:33-40 | `02_intermediate/sample_data.txt` parses to its four parts |
| `Vectors.ParsesSamplePng` | tests/test_wing_info.py:33-40 | `03_primary/sample_data.png` parses to its four parts |
| `Vectors.NoExtensionsGiveSentinel` | tests/test_wing_info.py:43-45 | with no extensions every name parses to `WingInfo()` |
| `Vectors.PrefersProfileHtml` | tests/test_wing_info.py:48-60 | `test.profile.html` is split at ".profile.html" |
| `Vectors.PrefersTrueCsv` | tests/test_wing_info.py:48-60 | `test.true.csv` is split at ".true.csv" |
| `Vectors.KeepsPlainHtml` | tests/test_wing_info.py:48-60 | `test.html` is split at ".html" |
| `Vectors.DefaultParseOfDataCsv` | tests/test_kedro_wings.py:6-14 | with the default registry, `01_raw/data.csv` parses at ".csv" |
| `Vectors.DefaultConfigOfDataCsv` | tests/test_kedro_wings.py:6-14 | its configuration is `{"filepath": "data/01_raw/data.csv", "type": "pandas.CSVDataSet"}` |
| `Vectors.DefaultEntryForDataCsv` | tests/test_kedro_wings.py:6-14 | the whole plan for that name is one dataset built from that configuration |
| `Vectors.PlainNameParse` | tests/test_kedro_wings.py:6-42 | with only plain extensions (".csv"-like), `directory/data<ext>` parses at `ext` |
| `Vectors.PlainNamePath` | tests/test_kedro_wings.py:6-42 | under root "data" its file path is `os.path.join("data", name)`, which is `"data/" + name` |
| `Vectors.PlainNameConfig` | tests/test_kedro_wings.py:6-42 | with a registry entry `{"type": t}`, its configuration is that path and type `t` |
| `Vectors.PlainNameEntry` | tests/test_kedro_wings.py:6-42 | under such settings the whole plan for the name is that one built dataset |
| `Vectors.DefaultEntryForTestNames` | tests/test_kedro_wings.py:6-42 | `KedroWings()` gives each of the test's five names (.csv, .png, .yml, .xls, .pkl) one dataset of the expected type stored at `os.path.join("data", name)` |
| `Vectors.DataIsNotAWing` | kedro_wings/kedro_wings.py:134-138 | `data` matches no default extension |
| `Vectors.ChronoAlias` | kedro_wings/kedro_wings.py:151-167 | `data!` reuses the catalog's `data`, and raises `MissingChronoDataSetTarget("data!")` without it |
| `Vectors.MissingTypeIsReported` | kedro_wings/kedro_wings.py:89-90 | a registry dictionary without "type" makes the plan raise `MissingType` for its extension |

## Left out

- Kedro itself is not part of this model. `AbstractDataSet.from_config` is a constructor that
  always succeeds and returns a new object. Its own failures and the dataset classes are not
  modelled. `hook_impl`, `Pipeline`, `reduce` over `context.pipelines` and logging are left
  out too.
- Collecting the dataset names from `pipeline.nodes` is not modelled. The names are an input
  sequence in iteration order. The set's iteration order only decides which exception is
  reported when several names would raise.
- The constructor's `context` argument is not modelled. With a context, the constructor only
  calls `_add_wings_to_context`, which is modelled as `AddWingsToContext`.
- Monkey-patching becomes two flags on `Context`: the backup marker and whether the getter is
  wrapped. The original `_get_catalog` builds a new catalog on every call, but the model keeps
  one catalog object, so the wrapped getter's additions are seen by later calls.
- `KedroWings.AddWingsToContext` and `KedroWings.Context.GetCatalog` do not capture aliasing
  across catalogs. In the source, the chrono aliases of the context path are resolved against
  the datasets of the catalog built when the hook runs. Each later call of the wrapped getter
  adds them to a freshly built catalog. So there a `data!` entry is the `data` object of that
  earlier catalog, not of the catalog returned. In the model there is only one catalog, and the
  alias is that catalog's own object.
- Registry order: the model's `KedroWings` parses against the set of registry keys. That is
  what `parse_wing_info` returns for every iteration order of the keys
  (`Wings.ParseIsLongestMatch`).
- Configuration values are strings. A registry value is either a bare type name or a
  dictionary. The `type(found_config) is not dict` test for dict subclasses is not modelled.
- `InvalidKedroWingsDataSet` is declared but never raised, so it has no counterpart.
- Namespaces are only stripped of one trailing '.'. Parsing never uses them.
- `PosixPath.JoinDirnameBasename`, `Wings.ParseRoundTrip` and
  `WingConfig.FilePathJoinsRootAndName` require names without doubled '/'. The last also
  requires relative names and extensions, because `os.path.join` discards the root for an
  absolute path and `dirname` keeps repeated separators. `Join` and `Dirname` themselves model
  those cases.
- `Vectors.MissingTypeIsReported` uses a registry that holds only the faulty extension. The
  defaults are not added, to keep the case small, and do not affect it.
