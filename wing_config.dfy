/**
  The pure part of `KedroWings` (kedro_wings/kedro_wings.py): the extension registry and its
  defaults, namespace clean-up, `_verify_config`, and `_wing_to_dataset_config`, which turns a
  parsed name into a dataset configuration.
 */
module WingConfig {
  import opened Results
  import PosixPath
  import Wings

  /** A dataset configuration: the keyword arguments given to the dataset's constructor. */
  type Config = map<string, string>

  /** A registry value: either a bare dataset type or a full configuration dictionary. */
  datatype RegistryValue = BareType(typeName: string) | FullConfig(config: Config)

  /** The plugin's exceptions that the modelled operations raise. */
  datatype Error =
    | MissingType(extension: string)
    | MissingChronoDataSetTarget(name: string)

  /** What a `KedroWings` object was configured with, as its fields hold it. */
  datatype Settings = Settings(
    registry: map<string, RegistryValue>,
    paths: map<string, string>,
    root: string,
    namespaces: seq<string>)

  /** `KedroWings.DEFAULT_TYPES`. */
  const DefaultTypes: map<string, RegistryValue> := map[
    ".csv" := FullConfig(map["type" := "pandas.CSVDataSet"]),
    ".yml" := FullConfig(map["type" := "yaml.YAMLDataSet"]),
    ".yaml" := FullConfig(map["type" := "yaml.YAMLDataSet"]),
    ".xls" := FullConfig(map["type" := "pandas.ExcelDataSet"]),
    ".txt" := FullConfig(map["type" := "text.TextDataSet"]),
    ".png" := FullConfig(map["type" := "pillow.ImageDataSet"]),
    ".jpg" := FullConfig(map["type" := "pillow.ImageDataSet"]),
    ".jpeg" := FullConfig(map["type" := "pillow.ImageDataSet"]),
    ".img" := FullConfig(map["type" := "pillow.ImageDataSet"]),
    ".pkl" := FullConfig(map["type" := "pickle.PickleDataSet"]),
    ".parquet" := FullConfig(map["type" := "pandas.ParquetDataSet"])
  ]

  /** `{**DEFAULT_TYPES, **dataset_configs}`: the caller's entries override the defaults key by key. */
  function MergeRegistry(datasetConfigs: map<string, RegistryValue>): (r: map<string, RegistryValue>)
    ensures r.Keys == DefaultTypes.Keys + datasetConfigs.Keys
    ensures forall ext :: ext in datasetConfigs ==> r[ext] == datasetConfigs[ext]
    ensures forall ext :: ext in DefaultTypes && ext !in datasetConfigs ==> r[ext] == DefaultTypes[ext]
  {
    DefaultTypes + datasetConfigs
  }

  predicate EndsWithDot(s: string) {
    |s| > 0 && s[|s| - 1] == '.'
  }

  /** `n if not n.endswith(".") else n[:-1]`. */
  function StripDot(n: string): string {
    if EndsWithDot(n) then n[..|n| - 1] else n
  }

  /** The namespaces with one trailing '.' removed from each (the constructor's list comprehension). */
  function StripNamespaceDots(namespaces: seq<string>): (r: seq<string>)
    ensures |r| == |namespaces|
    ensures forall i :: 0 <= i < |r| ==> r[i] + (if EndsWithDot(namespaces[i]) then "." else "") == namespaces[i]
  {
    if namespaces == [] then []
    else [StripDot(namespaces[0])] + StripNamespaceDots(namespaces[1..])
  }

  /**
    The registry lookup of `_wing_to_dataset_config` followed by `_verify_config`: a bare value
    `v` becomes `{"type": v}`; a dictionary without a "type" key raises `MissingType`.
   */
  function FoundConfig(extension: string, v: RegistryValue): (r: Result<Config, Error>)
    ensures r.Success? ==> "type" in r.value
    ensures r.Failure? <==> v.FullConfig? && "type" !in v.config
    ensures r.Failure? ==> r.error == MissingType(extension)
    ensures v.BareType? ==> r == Success(map["type" := v.typeName])
    ensures v.FullConfig? && r.Success? ==> r.value == v.config
  {
    match v
    case BareType(t) => Success(map["type" := t])
    case FullConfig(c) => if "type" in c then Success(c) else Failure(MissingType(extension))
  }

  /** The dataset's file path: the directory rewritten through `paths`, prefixed by `root` when it is non-empty, joined with the basename. */
  function FilePath(w: Wings.WingInfo, paths: map<string, string>, root: string): string {
    var directory := if w.directory in paths then paths[w.directory] else w.directory;
    var filepathDir := if root != "" then PosixPath.Join(root, directory) else directory;
    PosixPath.Join(filepathDir, w.basename)
  }

  /**
    `_wing_to_dataset_config`: `{"filepath": ..., **found_config}`. Every configuration it
    returns carries "type"; the registry's keys, a "filepath" among them, win over the computed path.
   */
  function DatasetConfig(w: Wings.WingInfo, s: Settings): (r: Result<Config, Error>)
    requires w.extension in s.registry
    ensures r.Failure? <==> FoundConfig(w.extension, s.registry[w.extension]).Failure?
    ensures r.Failure? ==> r.error == MissingType(w.extension)
    ensures r.Success? ==>
      var found := FoundConfig(w.extension, s.registry[w.extension]).value;
      && "type" in r.value && "filepath" in r.value
      && r.value.Keys == found.Keys + {"filepath"}
      && (forall k :: k in found ==> r.value[k] == found[k])
      && ("filepath" !in found ==> r.value["filepath"] == FilePath(w, s.paths, s.root))
  {
    match FoundConfig(w.extension, s.registry[w.extension])
    case Failure(e) => Failure(e)
    case Success(found) => Success(map["filepath" := FilePath(w, s.paths, s.root)] + found)
  }

  /**
    With no rewrite for the directory, the file path is `os.path.join(root, name)` for a relative
    name without a doubled '/', as the plugin's tests expect (`data/01_raw/data.csv`).
   */
  lemma FilePathJoinsRootAndName(name: string, extensions: set<string>, paths: map<string, string>, root: string)
    requires !PosixPath.StartsWithSep(name) && PosixPath.NoDoubleSep(name)
    requires forall e :: e in extensions ==> !PosixPath.StartsWithSep(e)
    requires Wings.ParseLongest(name, extensions) != Wings.Sentinel
    requires Wings.ParseLongest(name, extensions).directory !in paths
    ensures FilePath(Wings.ParseLongest(name, extensions), paths, root) == PosixPath.Join(root, name)
  {
    var w := Wings.ParseLongest(name, extensions);
    Wings.ParseLongestRelativeParts(name, extensions);
    if root != "" {
      assert FilePath(w, paths, root) == PosixPath.Join(PosixPath.Join(root, w.directory), w.basename);
      PosixPath.JoinAssociates(root, w.directory, w.basename);
    } else {
      assert FilePath(w, paths, root) == PosixPath.Join(w.directory, w.basename);
      assert PosixPath.Join(root, name) == root + name == name;
    }
  }
}
