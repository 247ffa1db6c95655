/**
  The `KedroWings` hook of kedro_wings/kedro_wings.py, with the parts of Kedro it touches:
  datasets made by `AbstractDataSet.from_config`, a `DataCatalog` that lists and adds
  datasets, and a context whose catalog getter the plugin wraps once.
 */
module KedroWings {
  import opened Results
  import opened WingConfig
  import opened WingEntries
  import Wings

  /** A dataset object; `FromConfig` stands for `AbstractDataSet.from_config` and always yields a new object. */
  class DataSet {
    const name: string
    const config: Config

    constructor FromConfig(name: string, config: Config)
      ensures this.name == name && this.config == config
    {
      this.name := name;
      this.config := config;
    }
  }

  /** A `DataCatalog`, seen through its `_data_sets` dictionary. */
  class DataCatalog {
    var dataSets: map<string, DataSet>

    constructor (dataSets: map<string, DataSet>)
      ensures this.dataSets == dataSets
    {
      this.dataSets := dataSets;
    }

    /** `catalog.list()`. */
    function List(): set<string>
      reads this
    {
      dataSets.Keys
    }

    /** `catalog.add(name, dataset)`, which refuses a name the catalog already has. */
    method Add(name: string, dataSet: DataSet)
      requires name !in dataSets
      modifies this
      ensures dataSets == old(dataSets)[name := dataSet]
    {
      dataSets := dataSets[name := dataSet];
    }
  }

  /** The object `entry` is for `name`: a dataset built from its configuration, or the same object as the reused one. */
  ghost predicate Realized(ds: DataSet, name: string, entry: Entry, known: map<string, DataSet>) {
    match entry
    case Build(c) => ds.name == name && ds.config == c
    case Reuse(t) => t in known && ds == known[t]
  }

  /** The datasets `out` carry out `plan`, reusing objects from `known`. */
  ghost predicate Realizes(out: map<string, DataSet>, plan: map<string, Entry>, known: map<string, DataSet>) {
    && out.Keys == plan.Keys
    && forall k :: k in plan ==> Realized(out[k], k, plan[k], known)
  }

  /** Realizing one more entry. */
  lemma RealizesAdd(out: map<string, DataSet>, plan: map<string, Entry>, known: map<string, DataSet>,
                    name: string, ds: DataSet, e: Entry)
    requires Realizes(out, plan, known) && Realized(ds, name, e, known)
    ensures Realizes(out[name := ds], plan[name := e], known)
  {
  }

  /**
    The wing datasets and the chrono datasets together realize the union of their plans against
    the catalog, when no chrono entry reuses a wing dataset.
   */
  lemma RealizesUnion(wingsOut: map<string, DataSet>, chronosOut: map<string, DataSet>,
                      wingPlan: map<string, Entry>, chronoPlan: map<string, Entry>, catalog: map<string, DataSet>)
    requires Realizes(wingsOut, wingPlan, map[])
    requires Realizes(chronosOut, chronoPlan, catalog + wingsOut)
    requires forall k :: k in chronoPlan && chronoPlan[k].Reuse? ==>
      chronoPlan[k].target in catalog && chronoPlan[k].target !in wingsOut
    ensures Realizes(wingsOut + chronosOut, wingPlan + chronoPlan, catalog)
  {
    forall k | k in wingPlan + chronoPlan
      ensures Realized((wingsOut + chronosOut)[k], k, (wingPlan + chronoPlan)[k], catalog)
    {
      if k in chronoPlan {
        assert Realized(chronosOut[k], k, chronoPlan[k], catalog + wingsOut);
      } else {
        assert Realized(wingsOut[k], k, wingPlan[k], map[]);
      }
    }
  }

  /** Merging one more entry adds it exactly when the catalog lacks its name. */
  lemma MergeAbsentAdd(catalog: map<string, DataSet>, done: map<string, DataSet>, name: string, ds: DataSet)
    requires name !in done
    ensures name in catalog ==> MergeAbsent(catalog, done[name := ds]) == MergeAbsent(catalog, done)
    ensures name !in catalog ==> name !in MergeAbsent(catalog, done)
    ensures name !in catalog ==> MergeAbsent(catalog, done[name := ds]) == MergeAbsent(catalog, done)[name := ds]
  {
  }

  /**
    The insert-if-absent loop of `before_pipeline_run` and `_get_wings_catalog`: the catalog's
    names are listed once, and every entry under a name not listed is added.
   */
  method AddAbsent(catalog: DataCatalog, entries: map<string, DataSet>)
    modifies catalog
    ensures catalog.dataSets == MergeAbsent(old(catalog.dataSets), entries)
  {
    var existing := catalog.List();
    var todo := entries.Keys;
    ghost var done: map<string, DataSet> := map[];
    while todo != {}
      invariant existing == old(catalog.dataSets).Keys
      invariant todo <= entries.Keys && done.Keys == entries.Keys - todo
      invariant forall k :: k in done ==> done[k] == entries[k]
      invariant catalog.dataSets == MergeAbsent(old(catalog.dataSets), done)
      decreases todo
    {
      var name :| name in todo;
      todo := todo - {name};
      MergeAbsentAdd(old(catalog.dataSets), done, name, entries[name]);
      if name !in existing {
        catalog.Add(name, entries[name]);
      }
      done := done[name := entries[name]];
    }
    assert done == entries;
  }

  /**
    The loop of `_create_wing_entries` and `_create_chronocode_entries`: `step` decides per name
    (skip, build, reuse or raise); a build calls `from_config`, a reuse stores the object `known`
    holds, and the first raise ends the loop.
   */
  method Materialize(names: seq<string>, step: string -> Result<Option<Entry>, Error>, known: map<string, DataSet>)
    returns (r: Result<map<string, DataSet>, Error>)
    requires forall n :: n in names && step(n).Success? && step(n).value.Some? && step(n).value.value.Reuse? ==>
      step(n).value.value.target in known
    ensures Collect(names, step).Failure? ==> r == Failure(Collect(names, step).error)
    ensures Collect(names, step).Success? ==> r.Success? && Realizes(r.value, Collect(names, step).value, known)
    ensures r.Success? ==> forall k :: k in r.value && r.value[k] !in known.Values ==> fresh(r.value[k])
    ensures Collect(names, step).Success? ==>
      forall k :: k in r.value && Collect(names, step).value[k].Build? ==> fresh(r.value[k])
  {
    ghost var plan: map<string, Entry> := map[];
    var out: map<string, DataSet> := map[];
    for i := 0 to |names|
      invariant Collect(names[..i], step) == Success(plan)
      invariant Realizes(out, plan, known)
      invariant forall k :: k in out && out[k] !in known.Values ==> fresh(out[k])
      invariant forall k :: k in out && plan[k].Build? ==> fresh(out[k])
    {
      var name := names[i];
      CollectStep(names, step, i);
      var entry := step(name);
      if entry.Failure? {
        CollectFailsAt(names, step, i);
        return Failure(entry.error);
      }
      if entry.value.Some? {
        var e := entry.value.value;
        var ds: DataSet;
        if e.Build? {
          ds := new DataSet.FromConfig(name, e.config);
        } else {
          ds := known[e.target];
        }
        RealizesAdd(out, plan, known, name, ds, e);
        out := out[name := ds];
        plan := plan[name := e];
      }
    }
    assert names[..|names|] == names;
    return Success(out);
  }

  class KedroWings {
    var datasetConfigs: map<string, RegistryValue>
    var paths: map<string, string>
    var enabled: bool
    var root: string
    var namespaces: seq<string>

    /** `KedroWings(dataset_configs, paths, root, namespaces, enabled)` without a context. */
    constructor (datasetConfigs: map<string, RegistryValue>, paths: map<string, string>, root: string,
                 namespaces: seq<string>, enabled: bool)
      ensures this.datasetConfigs == MergeRegistry(datasetConfigs)
      ensures this.paths == paths && this.root == root && this.enabled == enabled
      ensures this.namespaces == StripNamespaceDots(namespaces)
    {
      this.datasetConfigs := MergeRegistry(datasetConfigs);
      this.paths := paths;
      this.enabled := enabled;
      this.root := root;
      this.namespaces := StripNamespaceDots(namespaces);
    }

    /** `KedroWings()`: the default registry, no path rewrites, root "data", enabled. */
    constructor Default()
      ensures datasetConfigs == DefaultTypes && paths == map[] && root == "data"
      ensures namespaces == [] && enabled
    {
      datasetConfigs := MergeRegistry(map[]);
      paths := map[];
      enabled := true;
      root := "data";
      namespaces := [];
    }

    function Settings(): Settings
      reads this
    {
      WingConfig.Settings(datasetConfigs, paths, root, namespaces)
    }

    /** `_create_wing_entries`: a fresh dataset for every non-chrono name that parses. */
    method CreateWingEntries(names: seq<string>) returns (r: Result<map<string, DataSet>, Error>)
      ensures WingPlan(names, Settings()).Failure? ==> r == Failure(WingPlan(names, Settings()).error)
      ensures WingPlan(names, Settings()).Success? ==>
        r.Success? && Realizes(r.value, WingPlan(names, Settings()).value, map[])
      ensures r.Success? ==> forall k :: k in r.value ==> fresh(r.value[k])
    {
      var s := Settings();
      r := Materialize(names, n => WingStep(n, s), map[]);
    }

    /**
      `_create_chronocode_entries`: for each chrono name, a fresh dataset from its stem's parse,
      else the very object `known` holds under the stem, else `MissingChronoDataSetTarget`.
     */
    method CreateChronoEntries(names: seq<string>, known: map<string, DataSet>) returns (r: Result<map<string, DataSet>, Error>)
      ensures ChronoPlan(names, Settings(), known.Keys).Failure? ==>
        r == Failure(ChronoPlan(names, Settings(), known.Keys).error)
      ensures ChronoPlan(names, Settings(), known.Keys).Success? ==>
        r.Success? && Realizes(r.value, ChronoPlan(names, Settings(), known.Keys).value, known)
      ensures r.Success? ==> forall k :: k in r.value && r.value[k] !in known.Values ==> fresh(r.value[k])
      ensures ChronoPlan(names, Settings(), known.Keys).Success? ==>
        forall k :: k in r.value && ChronoPlan(names, Settings(), known.Keys).value[k].Build? ==> fresh(r.value[k])
    {
      var s := Settings();
      ChronoReusesKnown(s, known.Keys);
      r := Materialize(names, n => ChronoStep(n, s, known.Keys), known);
    }

    /**
      `_create_entries`: the wing entries, then the chrono entries resolved against the catalog's
      datasets and the wing entries; a reused dataset is always one of the catalog's objects.
     */
    method CreateEntries(names: seq<string>, catalogDataSets: map<string, DataSet>) returns (r: Result<map<string, DataSet>, Error>)
      ensures EntryPlan(names, Settings(), catalogDataSets.Keys).Failure? ==>
        r == Failure(EntryPlan(names, Settings(), catalogDataSets.Keys).error)
      ensures EntryPlan(names, Settings(), catalogDataSets.Keys).Success? ==>
        r.Success? && Realizes(r.value, EntryPlan(names, Settings(), catalogDataSets.Keys).value, catalogDataSets)
      ensures r.Success? ==> forall k :: k in r.value && r.value[k] !in catalogDataSets.Values ==> fresh(r.value[k])
      ensures EntryPlan(names, Settings(), catalogDataSets.Keys).Success? ==>
        forall k :: k in r.value && EntryPlan(names, Settings(), catalogDataSets.Keys).value[k].Build? ==> fresh(r.value[k])
    {
      var s := Settings();
      var wings := CreateWingEntries(names);
      if wings.Failure? {
        return Failure(wings.error);
      }
      var catalogAndWings := catalogDataSets + wings.value;
      var chronos := CreateChronoEntries(names, catalogAndWings);
      if chronos.Failure? {
        return Failure(chronos.error);
      }
      r := Success(wings.value + chronos.value);
      var plan := EntryPlan(names, s, catalogDataSets.Keys).value;
      var wingPlan := WingPlan(names, s).value;
      var chronoPlan := ChronoPlan(names, s, catalogDataSets.Keys + wingPlan.Keys).value;
      assert plan == wingPlan + chronoPlan;
      ChronoTargetsOutsideWings(names, s, catalogDataSets.Keys);
      RealizesUnion(wings.value, chronos.value, wingPlan, chronoPlan, catalogDataSets);
    }

    /**
      `before_pipeline_run`: when enabled, adds every synthesised entry whose name the catalog
      does not list, and nothing else; entries are all computed before the first `add`, so a
      raise leaves the catalog as it was.
     */
    method BeforePipelineRun(names: seq<string>, catalog: DataCatalog) returns (r: Outcome<Error>)
      modifies catalog
      ensures !enabled ==> r == Pass && catalog.dataSets == old(catalog.dataSets)
      ensures enabled && EntryPlan(names, Settings(), old(catalog.dataSets).Keys).Failure? ==>
        && r == Fail(EntryPlan(names, Settings(), old(catalog.dataSets).Keys).error)
        && catalog.dataSets == old(catalog.dataSets)
      ensures enabled && EntryPlan(names, Settings(), old(catalog.dataSets).Keys).Success? ==>
        var plan := EntryPlan(names, Settings(), old(catalog.dataSets).Keys).value;
        && r == Pass
        && catalog.dataSets.Keys == old(catalog.dataSets).Keys + plan.Keys
        && (forall k :: k in old(catalog.dataSets) ==> catalog.dataSets[k] == old(catalog.dataSets)[k])
        && (forall k :: k in plan && k !in old(catalog.dataSets) ==>
              Realized(catalog.dataSets[k], k, plan[k], old(catalog.dataSets)))
        && (forall k :: k in plan && k !in old(catalog.dataSets) && plan[k].Build? ==>
              fresh(catalog.dataSets[k]))
    {
      if !enabled {
        return Pass;
      }
      var entries := CreateEntries(names, catalog.dataSets);
      if entries.Failure? {
        return Fail(entries.error);
      }
      AddAbsent(catalog, entries.value);
      return Pass;
    }

    /**
      `_add_wings_to_context`: once the context carries the backup marker it returns at once;
      otherwise it sets the marker, computes the entries against the context's catalog and
      wraps the catalog getter so that it adds them. A raise leaves the marker set and the
      getter unwrapped.
     */
    method AddWingsToContext(names: seq<string>, context: Context) returns (r: Outcome<Error>)
      modifies context
      ensures old(context.backupSet) ==> r == Pass && unchanged(context)
      ensures !old(context.backupSet) ==>
        var plan := EntryPlan(names, Settings(), context.catalog.dataSets.Keys);
        && context.backupSet && context.catalog == old(context.catalog)
        && (plan.Failure? ==>
              && r == Fail(plan.error)
              && context.wrapped == old(context.wrapped) && context.wingEntries == old(context.wingEntries))
        && (plan.Success? ==>
              && r == Pass && context.wrapped
              && Realizes(context.wingEntries, plan.value, context.catalog.dataSets)
              && (forall k :: k in plan.value && plan.value[k].Build? ==> fresh(context.wingEntries[k])))
    {
      if context.backupSet {
        return Pass;
      }
      context.backupSet := true;
      var entries := CreateEntries(names, context.catalog.dataSets);
      if entries.Failure? {
        return Fail(entries.error);
      }
      context.wingEntries := entries.value;
      context.wrapped := true;
      return Pass;
    }
  }

  /**
    A Kedro context as the plugin sees it: `catalog` is what the original `_get_catalog` returns,
    `backupSet` is the `__wings_backup_get_catalog` marker, and `wrapped` with `wingEntries`
    is the replacement getter and the entries it closes over.
   */
  class Context {
    var catalog: DataCatalog
    var backupSet: bool
    var wrapped: bool
    var wingEntries: map<string, DataSet>

    constructor (catalog: DataCatalog)
      ensures this.catalog == catalog && !backupSet && !wrapped && wingEntries == map[]
    {
      this.catalog := catalog;
      backupSet := false;
      wrapped := false;
      wingEntries := map[];
    }

    /** `context._get_catalog()`: once wrapped, the original catalog with the wing entries it lacks added. */
    method GetCatalog() returns (c: DataCatalog)
      modifies catalog
      ensures c == catalog
      ensures !wrapped ==> catalog.dataSets == old(catalog.dataSets)
      ensures wrapped ==> catalog.dataSets == MergeAbsent(old(catalog.dataSets), wingEntries)
    {
      if wrapped {
        AddAbsent(catalog, wingEntries);
      }
      return catalog;
    }
  }
}
