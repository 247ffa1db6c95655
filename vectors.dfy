/**
  The cases of the plugin's own tests (tests/test_wing_info.py, tests/test_kedro_wings.py)
  and of its chrono-name behaviour, stated as lemmas about the model.
 */
module Vectors {
  import opened Results
  import opened Wings
  import opened WingConfig
  import opened WingEntries
  import PosixPath

  /** How the three sample names of the tests split, and which sample extensions end them. */
  lemma SampleShapes()
    ensures "01_raw/sample_data.csv" == "01_raw" + "/" + "sample_data" + ".csv"
    ensures "02_intermediate/sample_data.txt" == "02_intermediate" + "/" + "sample_data" + ".txt"
    ensures "03_primary/sample_data.png" == "03_primary" + "/" + "sample_data" + ".png"
    ensures "sample_data.csv" == "sample_data" + ".csv" && "sample_data.txt" == "sample_data" + ".txt"
    ensures "sample_data.png" == "sample_data" + ".png"
    ensures !PosixPath.EndsWithSep("01_raw") && !PosixPath.EndsWithSep("02_intermediate")
    ensures !PosixPath.EndsWithSep("03_primary")
    ensures forall j :: 0 <= j < |"sample_data"| ==> "sample_data"[j] != '/'
    ensures forall f :: f in {".csv", ".txt", ".png"} && EndsWith("01_raw/sample_data.csv", f) ==> f == ".csv"
    ensures forall f :: f in {".csv", ".txt", ".png"} && EndsWith("02_intermediate/sample_data.txt", f) ==> f == ".txt"
    ensures forall f :: f in {".csv", ".txt", ".png"} && EndsWith("03_primary/sample_data.png", f) ==> f == ".png"
  {
  }

  /** `01_raw/sample_data.csv` with extensions {".csv", ".txt", ".png"}, in whatever order the set is iterated. */
  lemma ParsesSampleCsv(extensions: seq<string>, namespaces: seq<string>)
    requires forall e :: e in extensions <==> e in {".csv", ".txt", ".png"}
    ensures ParseWingInfo("01_raw/sample_data.csv", extensions, namespaces)
      == WingInfo("01_raw", "sample_data", ".csv", "sample_data.csv")
  {
    SampleShapes();
    ParseSplitsAt("01_raw/sample_data.csv", "01_raw", "sample_data", ".csv", "sample_data.csv", extensions, namespaces);
  }

  /** `02_intermediate/sample_data.txt` with the same extensions. */
  lemma ParsesSampleTxt(extensions: seq<string>, namespaces: seq<string>)
    requires forall e :: e in extensions <==> e in {".csv", ".txt", ".png"}
    ensures ParseWingInfo("02_intermediate/sample_data.txt", extensions, namespaces)
      == WingInfo("02_intermediate", "sample_data", ".txt", "sample_data.txt")
  {
    SampleShapes();
    ParseSplitsAt("02_intermediate/sample_data.txt", "02_intermediate", "sample_data", ".txt", "sample_data.txt",
      extensions, namespaces);
  }

  /** `03_primary/sample_data.png` with the same extensions. */
  lemma ParsesSamplePng(extensions: seq<string>, namespaces: seq<string>)
    requires forall e :: e in extensions <==> e in {".csv", ".txt", ".png"}
    ensures ParseWingInfo("03_primary/sample_data.png", extensions, namespaces)
      == WingInfo("03_primary", "sample_data", ".png", "sample_data.png")
  {
    SampleShapes();
    ParseSplitsAt("03_primary/sample_data.png", "03_primary", "sample_data", ".png", "sample_data.png",
      extensions, namespaces);
  }

  /** With no extensions at all every name parses to the sentinel. */
  lemma NoExtensionsGiveSentinel(name: string, namespaces: seq<string>)
    ensures ParseWingInfo(name, [], namespaces) == Sentinel
  {
    ParseMeaning(name, [], namespaces);
  }

  /** How the three priority-test names split. */
  lemma PriorityShapes()
    ensures "01_raw/test.profile.html" == "01_raw" + "/" + "test" + ".profile.html"
    ensures "01_raw/test.true.csv" == "01_raw" + "/" + "test" + ".true.csv"
    ensures "01_raw/test.html" == "01_raw" + "/" + "test" + ".html"
    ensures "test.profile.html" == "test" + ".profile.html" && "test.true.csv" == "test" + ".true.csv"
    ensures "test.html" == "test" + ".html"
    ensures !PosixPath.EndsWithSep("01_raw") && forall j :: 0 <= j < |"test"| ==> "test"[j] != '/'
  {
  }

  /** Which of the priority test's extensions end its three names. */
  lemma PriorityMatches()
    ensures forall f :: f in {".html", ".profile.html", ".csv", ".true.csv"} && EndsWith("01_raw/test.profile.html", f) ==>
      |f| <= |".profile.html"|
    ensures forall f :: f in {".html", ".profile.html", ".csv", ".true.csv"} && EndsWith("01_raw/test.true.csv", f) ==>
      |f| <= |".true.csv"|
    ensures forall f :: f in {".html", ".profile.html", ".csv", ".true.csv"} && EndsWith("01_raw/test.html", f) ==>
      f == ".html"
  {
  }

  /** The longer, more dotted extension wins: `test.profile.html` is split at ".profile.html", not ".html". */
  lemma PrefersProfileHtml(extensions: seq<string>, namespaces: seq<string>)
    requires forall e :: e in extensions <==> e in {".html", ".profile.html", ".csv", ".true.csv"}
    ensures ParseWingInfo("01_raw/test.profile.html", extensions, namespaces)
      == WingInfo("01_raw", "test", ".profile.html", "test.profile.html")
  {
    PriorityShapes();
    PriorityMatches();
    ParseSplitsAt("01_raw/test.profile.html", "01_raw", "test", ".profile.html", "test.profile.html",
      extensions, namespaces);
  }

  /** `test.true.csv` is split at ".true.csv". */
  lemma PrefersTrueCsv(extensions: seq<string>, namespaces: seq<string>)
    requires forall e :: e in extensions <==> e in {".html", ".profile.html", ".csv", ".true.csv"}
    ensures ParseWingInfo("01_raw/test.true.csv", extensions, namespaces)
      == WingInfo("01_raw", "test", ".true.csv", "test.true.csv")
  {
    PriorityShapes();
    PriorityMatches();
    ParseSplitsAt("01_raw/test.true.csv", "01_raw", "test", ".true.csv", "test.true.csv", extensions, namespaces);
  }

  /** A plain `test.html` keeps ".html" when ".profile.html" does not match. */
  lemma KeepsPlainHtml(extensions: seq<string>, namespaces: seq<string>)
    requires forall e :: e in extensions <==> e in {".html", ".profile.html", ".csv", ".true.csv"}
    ensures ParseWingInfo("01_raw/test.html", extensions, namespaces)
      == WingInfo("01_raw", "test", ".html", "test.html")
  {
    PriorityShapes();
    PriorityMatches();
    ParseSplitsAt("01_raw/test.html", "01_raw", "test", ".html", "test.html", extensions, namespaces);
  }

  /** The settings of `KedroWings()`. */
  const Defaults := Settings(DefaultTypes, map[], "data", [])

  lemma DefaultExtensions()
    ensures DefaultTypes.Keys
      == {".csv", ".yml", ".yaml", ".xls", ".txt", ".png", ".jpg", ".jpeg", ".img", ".pkl", ".parquet"}
  {
  }

  lemma OnlyCsvEndsDataCsv()
    ensures forall f :: f in DefaultTypes.Keys && EndsWith("01_raw/data.csv", f) ==> |f| <= |".csv"|
  {
    DefaultExtensions();
  }

  lemma DataCsvShape()
    ensures "01_raw/data.csv" == "01_raw" + "/" + "data" + ".csv" && "data.csv" == "data" + ".csv"
    ensures !PosixPath.EndsWithSep("01_raw") && forall j :: 0 <= j < |"data"| ==> "data"[j] != '/'
  {
  }

  /** Of the default extensions, only ".csv" ends `01_raw/data.csv`. */
  lemma DefaultParseOfDataCsv()
    ensures Parse("01_raw/data.csv", Defaults) == WingInfo("01_raw", "data", ".csv", "data.csv")
  {
    OnlyCsvEndsDataCsv();
    DataCsvShape();
    assert ".csv" in DefaultTypes.Keys;
    ParseLongestSplitsAt("01_raw/data.csv", "01_raw", "data", ".csv", "data.csv", DefaultTypes.Keys);
  }

  /** `KedroWings()` stores `01_raw/data.csv` at `data/01_raw/data.csv` as a `pandas.CSVDataSet`. */
  lemma DefaultConfigOfDataCsv()
    ensures DatasetConfig(WingInfo("01_raw", "data", ".csv", "data.csv"), Defaults)
      == Success(map["filepath" := "data/01_raw/data.csv", "type" := "pandas.CSVDataSet"])
  {
    DataCsvPath();
    assert FoundConfig(".csv", DefaultTypes[".csv"]) == Success(map["type" := "pandas.CSVDataSet"]);
    assert map["filepath" := "data/01_raw/data.csv"] + map["type" := "pandas.CSVDataSet"]
      == map["filepath" := "data/01_raw/data.csv", "type" := "pandas.CSVDataSet"];
  }

  lemma DataCsvPath()
    ensures FilePath(WingInfo("01_raw", "data", ".csv", "data.csv"), map[], "data") == "data/01_raw/data.csv"
  {
    assert PosixPath.Join("data", "01_raw") == "data/01_raw";
    assert PosixPath.Join("data/01_raw", "data.csv") == "data/01_raw/data.csv";
  }

  /** An extension such as ".csv": a '.' followed by at least one character other than '.', '/' and '!'. */
  predicate PlainExtension(f: string) {
    |f| > 1 && f[0] == '.' && forall j :: 0 < j < |f| ==> f[j] != '.' && f[j] != '/' && f[j] != '!'
  }

  /** A directory such as "01_raw": non-empty, with neither '.' nor '/'. */
  predicate PlainDirectory(d: string) {
    d != [] && forall j :: 0 <= j < |d| ==> d[j] != '.' && d[j] != '/'
  }

  lemma LiteralExtensionsArePlain()
    ensures PlainExtension(".csv") && PlainExtension(".yml") && PlainExtension(".yaml") && PlainExtension(".xls")
    ensures PlainExtension(".txt") && PlainExtension(".png") && PlainExtension(".jpg") && PlainExtension(".jpeg")
    ensures PlainExtension(".img") && PlainExtension(".pkl") && PlainExtension(".parquet")
  {
  }

  lemma DefaultExtensionsArePlain()
    ensures forall f :: f in DefaultTypes.Keys ==> PlainExtension(f)
  {
    DefaultExtensions();
    LiteralExtensionsArePlain();
  }

  /** `directory/data<ext>` is relative, has no doubled '/', and has no '.' before `ext`. */
  lemma PlainNameShape(directory: string, ext: string)
    requires PlainDirectory(directory) && PlainExtension(ext)
    ensures !PosixPath.StartsWithSep(directory + "/data" + ext)
    ensures PosixPath.NoDoubleSep(directory + "/data" + ext)
    ensures forall k :: 0 <= k < |directory| + 5 ==> (directory + "/data" + ext)[k] != '.'
  {
    var name := directory + "/data" + ext;
    forall k | 0 <= k < |name|
      ensures name[k] != '/' <== k != |directory|
      ensures name[k] != '.' <== k < |directory| + 5
    {
      if k < |directory| {
        assert name[k] == directory[k];
      } else if k < |directory| + 5 {
        assert name[k] == "/data"[k - |directory|];
      } else {
        assert name[k] == ext[k - |directory| - 5];
      }
    }
  }

  /** With plain extensions only, `directory/data<ext>` parses at `ext`: no longer extension can end it. */
  lemma PlainNameParse(directory: string, ext: string, extensions: set<string>)
    requires PlainDirectory(directory) && ext in extensions
    requires forall f :: f in extensions ==> PlainExtension(f)
    ensures ParseLongest(directory + "/data" + ext, extensions) == WingInfo(directory, "data", ext, "data" + ext)
  {
    var name := directory + "/data" + ext;
    PlainNameShape(directory, ext);
    forall f | f in extensions && EndsWith(name, f)
      ensures |f| <= |ext|
    {
      assert name[|name| - |f|] == f[0];
    }
    assert name == directory + "/" + "data" + ext;
    ParseLongestSplitsAt(name, directory, "data", ext, "data" + ext, extensions);
  }

  /** Such a name's file path under root "data" is `os.path.join("data", name)`, which is "data/" + name. */
  lemma PlainNamePath(directory: string, ext: string)
    requires PlainDirectory(directory) && PlainExtension(ext)
    ensures FilePath(WingInfo(directory, "data", ext, "data" + ext), map[], "data")
      == PosixPath.Join("data", directory + "/data" + ext)
      == "data/" + directory + "/data" + ext
  {
    var name := directory + "/data" + ext;
    var dir := PosixPath.Join("data", directory);
    PosixPath.JoinRelative("data", directory);
    assert PosixPath.Prefix("data") == "data/";
    assert dir == "data/" + directory;
    assert dir[|dir| - 1] == directory[|directory| - 1] != '/';
    PosixPath.JoinRelative(dir, "data" + ext);
    assert PosixPath.Prefix(dir) == dir + "/";
    assert PosixPath.Join(dir, "data" + ext) == "data/" + directory + "/data" + ext;
    PlainNameShape(directory, ext);
    PosixPath.JoinRelative("data", name);
  }

  /** Under such settings the name's configuration is its type and that file path. */
  lemma PlainNameConfig(directory: string, ext: string, typeName: string, s: Settings)
    requires PlainDirectory(directory)
    requires s.paths == map[] && s.root == "data"
    requires forall f :: f in s.registry ==> PlainExtension(f)
    requires ext in s.registry && s.registry[ext] == FullConfig(map["type" := typeName])
    ensures DatasetConfig(WingInfo(directory, "data", ext, "data" + ext), s) == Success(map[
      "filepath" := PosixPath.Join("data", directory + "/data" + ext), "type" := typeName])
  {
    var w := WingInfo(directory, "data", ext, "data" + ext);
    PlainNamePath(directory, ext);
    var path := PosixPath.Join("data", directory + "/data" + ext);
    assert FoundConfig(ext, s.registry[ext]) == Success(map["type" := typeName]);
    assert map["filepath" := path] + map["type" := typeName] == map["filepath" := path, "type" := typeName];
  }

  /**
    Settings like those of `KedroWings()` (root "data", no rewrites, plain extensions) give
    `directory/data<ext>` one dataset of the extension's type, stored at `os.path.join("data", name)`.
   */
  lemma PlainNameEntry(directory: string, ext: string, typeName: string, s: Settings, catalogNames: set<string>)
    requires PlainDirectory(directory)
    requires s.paths == map[] && s.root == "data"
    requires forall f :: f in s.registry ==> PlainExtension(f)
    requires ext in s.registry && s.registry[ext] == FullConfig(map["type" := typeName])
    ensures EntryPlan([directory + "/data" + ext], s, catalogNames) == Success(map[
      directory + "/data" + ext := Build(map[
        "filepath" := PosixPath.Join("data", directory + "/data" + ext), "type" := typeName])])
  {
    var name := directory + "/data" + ext;
    var w := WingInfo(directory, "data", ext, "data" + ext);
    PlainNameParse(directory, ext, s.registry.Keys);
    assert Parse(name, s) == w && w != Sentinel;
    PlainNameConfig(directory, ext, typeName, s);
    assert name[|name| - 1] == ext[|ext| - 1] != '!';
    SingleWingPlan(name, s, catalogNames, map["filepath" := PosixPath.Join("data", name), "type" := typeName]);
  }

  /** The five names of the plugin's catalog-entry test, each with the dataset type it expects. */
  lemma DefaultEntryForTestNames(directory: string, ext: string, typeName: string, catalogNames: set<string>)
    requires (directory, ext, typeName) in {
      ("01_raw", ".csv", "pandas.CSVDataSet"), ("02_intermediate", ".png", "pillow.ImageDataSet"),
      ("02_intermediate", ".yml", "yaml.YAMLDataSet"), ("02_intermediate", ".xls", "pandas.ExcelDataSet"),
      ("02_intermediate", ".pkl", "pickle.PickleDataSet")}
    ensures PosixPath.Join("data", directory + "/data" + ext) == "data/" + directory + "/data" + ext
    ensures EntryPlan([directory + "/data" + ext], Defaults, catalogNames) == Success(map[
      directory + "/data" + ext := Build(map[
        "filepath" := PosixPath.Join("data", directory + "/data" + ext), "type" := typeName])])
  {
    assert PlainDirectory("01_raw") && PlainDirectory("02_intermediate");
    assert DefaultTypes[ext] == FullConfig(map["type" := typeName]);
    DefaultExtensionsArePlain();
    PlainNamePath(directory, ext);
    PlainNameEntry(directory, ext, typeName, Defaults, catalogNames);
  }

  /** The whole plan of `KedroWings()` for the single name `01_raw/data.csv`. */
  lemma DefaultEntryForDataCsv(catalogNames: set<string>)
    ensures EntryPlan(["01_raw/data.csv"], Defaults, catalogNames) == Success(map[
      "01_raw/data.csv" := Build(map["filepath" := "data/01_raw/data.csv", "type" := "pandas.CSVDataSet"])])
  {
    DefaultParseOfDataCsv();
    DefaultConfigOfDataCsv();
    SingleWingPlan("01_raw/data.csv", Defaults, catalogNames,
      map["filepath" := "data/01_raw/data.csv", "type" := "pandas.CSVDataSet"]);
  }

  lemma NoDefaultEndsData()
    ensures forall f :: f in DefaultTypes.Keys && f != [] ==> !EndsWith("data", f)
  {
    DefaultExtensions();
  }

  /** No default extension ends `data`: it is not a wing name. */
  lemma DataIsNotAWing()
    ensures Parse("data", Defaults) == Sentinel
  {
    NoDefaultEndsData();
  }

  /** `data!` reuses the catalog's `data` dataset, and raises `MissingChronoDataSetTarget("data!")` without it. */
  lemma ChronoAlias(catalogNames: set<string>)
    ensures "data" in catalogNames ==>
      EntryPlan(["data!"], Defaults, catalogNames) == Success(map["data!" := Reuse("data")])
    ensures "data" !in catalogNames ==>
      EntryPlan(["data!"], Defaults, catalogNames) == Failure(MissingChronoDataSetTarget("data!"))
  {
    assert Stem("data!") == "data";
    DataIsNotAWing();
    SingleChronoPlan("data!", Defaults, catalogNames);
  }

  /** A registry holding only ".x", mapped to a dictionary without "type". */
  const Untyped := Settings(map[".x" := FullConfig(map["not_type" := "1"])], map[], "data", [])

  lemma UntypedParse()
    ensures Parse("01_raw/data.x", Untyped) == WingInfo("01_raw", "data", ".x", "data.x")
  {
    DataCsvShape();
    assert "01_raw/data.x" == "01_raw" + "/" + "data" + ".x" && "data.x" == "data" + ".x";
    ParseLongestSplitsAt("01_raw/data.x", "01_raw", "data", ".x", "data.x", Untyped.registry.Keys);
  }

  /** A name using ".x" makes the plan raise `MissingType(".x")`. */
  lemma MissingTypeIsReported(catalogNames: set<string>)
    ensures EntryPlan(["01_raw/data.x"], Untyped, catalogNames) == Failure(MissingType(".x"))
  {
    UntypedParse();
    assert "type" !in map["not_type" := "1"];
    assert FoundConfig(".x", Untyped.registry[".x"]).Failure?;
    assert !IsChrono("01_raw/data.x");
    SingleWingFailure("01_raw/data.x", Untyped, catalogNames);
  }
}
