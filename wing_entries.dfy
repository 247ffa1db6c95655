/**
  What `_create_wing_entries`, `_create_chronocode_entries` and `_create_entries`
  (kedro_wings/kedro_wings.py) compute, as pure functions over the dataset names in the
  order they are iterated: for every name that gets an entry, either a configuration to
  build a fresh dataset from, or the name of an existing catalog dataset to reuse.
 */
module WingEntries {
  import opened Results
  import opened WingConfig
  import Wings

  /** A "chrono" name ends in '!'. */
  predicate IsChrono(name: string) {
    |name| > 0 && name[|name| - 1] == '!'
  }

  /** `dataset_catalog_name[:-1]`. */
  function Stem(name: string): (r: string)
    requires IsChrono(name)
    ensures r + "!" == name
  {
    name[..|name| - 1]
  }

  /** `parse_wing_info(name, self._dataset_configs.keys(), ...)`, which gives this result for every key order (Wings.ParseIsLongestMatch). */
  function Parse(name: string, s: Settings): Wings.WingInfo {
    Wings.ParseLongest(name, s.registry.Keys)
  }

  /** How a name's entry is obtained: built from a configuration, or the same object as an existing dataset. */
  datatype Entry = Build(config: Config) | Reuse(target: string)

  /**
    The entries that a loop over `names` collects into its `out` dict: `step` says, per name,
    to skip it (`None`), to record a value, or to raise; the first raise in iteration order wins.
   */
  function Collect<T>(names: seq<string>, step: string -> Result<Option<T>, Error>): (r: Result<map<string, T>, Error>)
    ensures r.Success? <==> forall i :: 0 <= i < |names| ==> step(names[i]).Success?
    ensures r.Failure? ==> exists i :: (0 <= i < |names| && step(names[i]) == Failure(r.error)
      && forall j :: 0 <= j < i ==> step(names[j]).Success?)
    ensures r.Success? ==> r.value.Keys == set n | n in names && step(n).Success? && step(n).value.Some?
    ensures r.Success? ==> forall n :: n in r.value ==> step(n) == Success(Some(r.value[n]))
  {
    if names == [] then Success(map[])
    else
      var init, last := names[..|names| - 1], names[|names| - 1];
      assert forall i :: 0 <= i < |init| ==> init[i] == names[i];
      assert forall n :: n in names <==> n in init || n == last;
      match Collect(init, step)
      case Failure(e) => Failure(e)
      case Success(m) =>
        match step(last)
        case Failure(e) => Failure(e)
        case Success(None) => Success(m)
        case Success(Some(v)) => Success(m[last := v])
  }

  /** Collecting one more name: the loop body of every `out`-filling loop. */
  lemma CollectStep<T>(names: seq<string>, step: string -> Result<Option<T>, Error>, i: nat)
    requires i < |names|
    ensures Collect(names[..i + 1], step) ==
      match Collect(names[..i], step)
      case Failure(e) => Failure(e)
      case Success(m) =>
        match step(names[i])
        case Failure(e) => Failure(e)
        case Success(None) => Success(m)
        case Success(Some(v)) => Success(m[names[i] := v])
  {
    assert names[..i + 1][..i] == names[..i];
  }

  /** The first failing step, found by a loop that stopped there, is the failure of the whole collection. */
  lemma CollectFailsAt<T>(names: seq<string>, step: string -> Result<Option<T>, Error>, i: nat)
    requires i < |names| && step(names[i]).Failure?
    requires Collect(names[..i], step).Success?
    ensures Collect(names, step) == Failure(step(names[i]).error)
  {
    assert forall j :: 0 <= j < i ==> names[..i][j] == names[j];
    assert forall j :: 0 <= j < i ==> step(names[j]).Success?;
    var e := Collect(names, step).error;
    var k :| 0 <= k < |names| && step(names[k]) == Failure(e) && forall j :: 0 <= j < k ==> step(names[j]).Success?;
    if k < i {
      assert false;
    } else if k > i {
      assert false;
    }
  }

  /** One iteration of `_create_wing_entries`. */
  function WingStep(name: string, s: Settings): Result<Option<Entry>, Error> {
    if IsChrono(name) then Success(None)
    else
      var w := Parse(name, s);
      if w == Wings.Sentinel then Success(None)
      else
        match DatasetConfig(w, s)
        case Failure(e) => Failure(e)
        case Success(c) => Success(Some(Build(c)))
  }

  /** One iteration of `_create_chronocode_entries`, looking targets up among the `known` names. */
  function ChronoStep(name: string, s: Settings, known: set<string>): Result<Option<Entry>, Error> {
    if !IsChrono(name) then Success(None)
    else
      var w := Parse(Stem(name), s);
      if w != Wings.Sentinel then
        match DatasetConfig(w, s)
        case Failure(e) => Failure(e)
        case Success(c) => Success(Some(Build(c)))
      else if Stem(name) in known then Success(Some(Reuse(Stem(name))))
      else Failure(MissingChronoDataSetTarget(name))
  }

  /** The entries `_create_wing_entries` makes, every one built from a configuration. */
  function WingPlan(names: seq<string>, s: Settings): Result<map<string, Entry>, Error> {
    Collect(names, n => WingStep(n, s))
  }

  /** The entries `_create_chronocode_entries` makes, given the names of the datasets it can reuse. */
  function ChronoPlan(names: seq<string>, s: Settings, known: set<string>): Result<map<string, Entry>, Error> {
    Collect(names, n => ChronoStep(n, s, known))
  }

  /**
    `_create_entries`: the wing pass, then the chrono pass looking up the external catalog
    together with the wing entries, and the union of both.
   */
  function EntryPlan(names: seq<string>, s: Settings, catalogNames: set<string>): Result<map<string, Entry>, Error> {
    match WingPlan(names, s)
    case Failure(e) => Failure(e)
    case Success(wings) =>
      match ChronoPlan(names, s, catalogNames + wings.Keys)
      case Failure(e) => Failure(e)
      case Success(chronos) => Success(wings + chronos)
  }

  /** `{**catalog, **entries}` restricted to new names: existing entries are never overwritten. */
  function MergeAbsent<V>(catalog: map<string, V>, entries: map<string, V>): (r: map<string, V>)
    ensures r.Keys == catalog.Keys + entries.Keys
    ensures forall k :: k in catalog ==> r[k] == catalog[k]
    ensures forall k :: k in entries && k !in catalog ==> r[k] == entries[k]
  {
    entries + catalog
  }

  // ---------------------------------------------------------------------------
  // Properties

  /** Names that the wing pass gives an entry: not chrono, and parsed to something other than the sentinel. */
  ghost function WingNames(names: seq<string>, s: Settings): set<string> {
    set n | n in names && !IsChrono(n) && Parse(n, s) != Wings.Sentinel
  }

  ghost function ChronoNames(names: seq<string>): set<string> {
    set n | n in names && IsChrono(n)
  }

  /**
    The wing pass succeeds unless some wing name's registry entry lacks "type"; it then
    keys exactly the non-chrono names that parse, each with its `_wing_to_dataset_config`.
   */
  lemma WingPlanMeaning(names: seq<string>, s: Settings)
    ensures WingPlan(names, s).Failure? <==>
      exists i :: 0 <= i < |names| && names[i] in WingNames(names, s) && DatasetConfig(Parse(names[i], s), s).Failure?
    ensures WingPlan(names, s).Failure? ==> WingPlan(names, s).error.MissingType?
    ensures WingPlan(names, s).Success? ==>
      && WingPlan(names, s).value.Keys == WingNames(names, s)
      && forall n :: n in WingPlan(names, s).value ==>
           WingPlan(names, s).value[n].Build? && Success(WingPlan(names, s).value[n].config) == DatasetConfig(Parse(n, s), s)
  {
    var step := n => WingStep(n, s);
    var r := WingPlan(names, s);
    assert r == Collect(names, step);
    if r.Failure? {
      var i :| 0 <= i < |names| && step(names[i]) == Failure(r.error);
      assert names[i] in WingNames(names, s);
    } else {
      assert forall i :: 0 <= i < |names| ==> step(names[i]).Success?;
      forall i | 0 <= i < |names| && names[i] in WingNames(names, s)
        ensures DatasetConfig(Parse(names[i], s), s).Success?
      {
        assert step(names[i]).Success?;
      }
      assert r.value.Keys == WingNames(names, s) by {
        forall n ensures n in r.value.Keys <==> n in WingNames(names, s) {
          if n in names {
            assert step(n).Success?;
          }
        }
      }
    }
  }

  /** What one iteration of the chrono pass yields for a chrono name. */
  lemma ChronoStepMeaning(n: string, s: Settings, known: set<string>)
    requires IsChrono(n)
    ensures var r := ChronoStep(n, s, known);
      && (Parse(Stem(n), s) != Wings.Sentinel ==>
            match DatasetConfig(Parse(Stem(n), s), s)
            case Success(c) => r == Success(Some(Build(c)))
            case Failure(e) => r == Failure(e) && e.MissingType?)
      && (Parse(Stem(n), s) == Wings.Sentinel && Stem(n) in known ==> r == Success(Some(Reuse(Stem(n)))))
      && (Parse(Stem(n), s) == Wings.Sentinel && Stem(n) !in known ==> r == Failure(MissingChronoDataSetTarget(n)))
  {
  }

  /** The chrono pass reuses only names it was told are known. */
  lemma ChronoReusesKnown(s: Settings, known: set<string>)
    ensures forall n ::
      (ChronoStep(n, s, known).Success? && ChronoStep(n, s, known).value.Some? && ChronoStep(n, s, known).value.value.Reuse?)
      ==> ChronoStep(n, s, known).value.value.target in known
  {
    forall n | ChronoStep(n, s, known).Success? && ChronoStep(n, s, known).value.Some? &&
      ChronoStep(n, s, known).value.value.Reuse?
      ensures ChronoStep(n, s, known).value.value.target in known
    {
      ChronoStepMeaning(n, s, known);
    }
  }

  /**
    The chrono pass: every chrono name gets an entry; a name whose stem parses is built from the
    stem's parse, any other must have its stem among the `known` names and reuses it.
   */
  lemma ChronoPlanMeaning(names: seq<string>, s: Settings, known: set<string>)
    ensures ChronoPlan(names, s, known).Success? ==>
      var m := ChronoPlan(names, s, known).value;
      && m.Keys == ChronoNames(names)
      && forall n :: n in m ==> ChronoStep(n, s, known) == Success(Some(m[n]))
  {
    var step := n => ChronoStep(n, s, known);
    var r := ChronoPlan(names, s, known);
    assert r == Collect(names, step);
    if r.Success? {
      forall n ensures n in r.value.Keys <==> n in ChronoNames(names) {
        if n in names {
          var i :| 0 <= i < |names| && names[i] == n;
          assert step(n).Success?;
        }
      }
    }
  }

  /**
    When the chrono pass fails, it is on a chrono name of the input: `MissingType` for a stem that
    parses, or `MissingChronoDataSetTarget` naming one whose stem neither parses nor is known.
   */
  lemma ChronoPlanFailure(names: seq<string>, s: Settings, known: set<string>)
    requires ChronoPlan(names, s, known).Failure?
    ensures var e := ChronoPlan(names, s, known).error;
      exists n :: n in ChronoNames(names) && ChronoStep(n, s, known) == Failure(e)
    ensures var e := ChronoPlan(names, s, known).error;
      e.MissingChronoDataSetTarget? ==>
        e.name in ChronoNames(names) && Parse(Stem(e.name), s) == Wings.Sentinel && Stem(e.name) !in known
  {
    var step := n => ChronoStep(n, s, known);
    var r := ChronoPlan(names, s, known);
    assert r == Collect(names, step);
    var i :| 0 <= i < |names| && step(names[i]) == Failure(r.error);
    var n := names[i];
    assert IsChrono(n);
    ChronoStepMeaning(n, s, known);
    assert n in ChronoNames(names);
  }

  /**
    A chrono name the chrono pass resolves: its stem parses to a configuration with "type",
    or, when the stem does not parse, the stem is one of the `known` names.
   */
  ghost predicate ChronoResolvable(n: string, s: Settings, known: set<string>)
    requires IsChrono(n)
  {
    var w := Parse(Stem(n), s);
    if w != Wings.Sentinel then DatasetConfig(w, s).Success? else Stem(n) in known
  }

  /** The chrono pass succeeds exactly when every chrono name of the input is resolvable. */
  lemma ChronoPlanSucceeds(names: seq<string>, s: Settings, known: set<string>)
    ensures ChronoPlan(names, s, known).Success? <==>
      forall n :: n in ChronoNames(names) ==> ChronoResolvable(n, s, known)
  {
    var step := n => ChronoStep(n, s, known);
    assert ChronoPlan(names, s, known) == Collect(names, step);
    forall i | 0 <= i < |names|
      ensures step(names[i]).Success? <==> (IsChrono(names[i]) ==> ChronoResolvable(names[i], s, known))
    {
      if IsChrono(names[i]) {
        ChronoStepMeaning(names[i], s, known);
      }
    }
    if forall n :: n in ChronoNames(names) ==> ChronoResolvable(n, s, known) {
      forall i | 0 <= i < |names| && IsChrono(names[i])
        ensures ChronoResolvable(names[i], s, known)
      {
        assert names[i] in ChronoNames(names);
      }
    } else {
      var n :| n in ChronoNames(names) && !ChronoResolvable(n, s, known);
      var i :| 0 <= i < |names| && names[i] == n;
      assert !step(names[i]).Success?;
    }
  }

  /**
    `_create_entries` succeeds exactly when every wing name's registry entry has "type" and every
    chrono name is resolvable against the catalog's names alone: an unparsed stem is never a
    wing entry.
   */
  lemma EntryPlanSucceeds(names: seq<string>, s: Settings, catalogNames: set<string>)
    ensures EntryPlan(names, s, catalogNames).Success? <==>
      && (forall n :: n in WingNames(names, s) ==> DatasetConfig(Parse(n, s), s).Success?)
      && (forall n :: n in ChronoNames(names) ==> ChronoResolvable(n, s, catalogNames))
  {
    WingPlanMeaning(names, s);
    var wp := WingPlan(names, s);
    if wp.Success? {
      var known := catalogNames + wp.value.Keys;
      ChronoPlanSucceeds(names, s, known);
      forall n | n in ChronoNames(names)
        ensures ChronoResolvable(n, s, known) <==> ChronoResolvable(n, s, catalogNames)
      {
        if Parse(Stem(n), s) == Wings.Sentinel {
          assert Stem(n) !in WingNames(names, s);
        }
      }
      forall n | n in WingNames(names, s)
        ensures DatasetConfig(Parse(n, s), s).Success?
      {
        var i :| 0 <= i < |names| && names[i] == n;
      }
    } else {
      var i :| 0 <= i < |names| && names[i] in WingNames(names, s) && DatasetConfig(Parse(names[i], s), s).Failure?;
    }
  }

  /**
    In a successful `_create_entries` every chrono name has an entry: built from its stem's
    `_wing_to_dataset_config` when the stem parses, otherwise a reuse of the stem.
   */
  lemma EntryPlanChronoEntries(names: seq<string>, s: Settings, catalogNames: set<string>)
    requires EntryPlan(names, s, catalogNames).Success?
    ensures var plan := EntryPlan(names, s, catalogNames).value;
      forall n :: n in ChronoNames(names) ==>
        && n in plan
        && (Parse(Stem(n), s) != Wings.Sentinel ==>
              plan[n].Build? && Success(plan[n].config) == DatasetConfig(Parse(Stem(n), s), s))
        && (Parse(Stem(n), s) == Wings.Sentinel ==> plan[n] == Reuse(Stem(n)))
  {
    var wings := WingPlan(names, s).value;
    var known := catalogNames + wings.Keys;
    ChronoPlanMeaning(names, s, known);
    var chronos := ChronoPlan(names, s, known).value;
    var plan := EntryPlan(names, s, catalogNames).value;
    assert plan == wings + chronos;
    forall n | n in ChronoNames(names)
      ensures n in plan && plan[n] == chronos[n]
    {
    }
    forall n | n in ChronoNames(names)
      ensures Parse(Stem(n), s) != Wings.Sentinel ==>
        plan[n].Build? && Success(plan[n].config) == DatasetConfig(Parse(Stem(n), s), s)
      ensures Parse(Stem(n), s) == Wings.Sentinel ==> plan[n] == Reuse(Stem(n))
    {
      ChronoStepMeaning(n, s, known);
    }
  }

  /** The keys of a successful `_create_entries`: exactly the wing names and the chrono names. */
  lemma EntryPlanKeys(names: seq<string>, s: Settings, catalogNames: set<string>)
    requires EntryPlan(names, s, catalogNames).Success?
    ensures var plan := EntryPlan(names, s, catalogNames).value;
      && plan.Keys == WingNames(names, s) + ChronoNames(names)
      && plan.Keys <= set n | n in names
      && WingNames(names, s) !! ChronoNames(names)
  {
    WingPlanMeaning(names, s);
    var wings := WingPlan(names, s).value;
    ChronoPlanMeaning(names, s, catalogNames + wings.Keys);
  }

  /**
    In a successful `_create_entries`, a non-chrono name is built from its own parse, and every
    reused dataset comes from the external catalog: a wing entry is never an alias target, since
    its name parses and a chrono name whose stem parses is built instead.
   */
  lemma EntryPlanEntries(names: seq<string>, s: Settings, catalogNames: set<string>)
    requires EntryPlan(names, s, catalogNames).Success?
    ensures var plan := EntryPlan(names, s, catalogNames).value;
      && (forall n :: n in plan && !IsChrono(n) ==>
            plan[n].Build? && Success(plan[n].config) == DatasetConfig(Parse(n, s), s))
      && (forall n :: n in plan && plan[n].Reuse? ==>
            IsChrono(n) && plan[n].target == Stem(n) && Parse(Stem(n), s) == Wings.Sentinel
            && Stem(n) in catalogNames)
  {
    WingPlanMeaning(names, s);
    var wings := WingPlan(names, s).value;
    var known := catalogNames + wings.Keys;
    ChronoPlanMeaning(names, s, known);
    var chronos := ChronoPlan(names, s, known).value;
    var plan := EntryPlan(names, s, catalogNames).value;
    assert plan == wings + chronos;
    forall n | n in plan && !IsChrono(n)
      ensures plan[n].Build? && Success(plan[n].config) == DatasetConfig(Parse(n, s), s)
    {
      assert n !in chronos;
    }
    forall n | n in plan && plan[n].Reuse?
      ensures IsChrono(n) && plan[n].target == Stem(n) && Parse(Stem(n), s) == Wings.Sentinel
        && Stem(n) in catalogNames
    {
      assert n in chronos;
      ChronoStepMeaning(n, s, known);
      assert Stem(n) !in wings;
    }
  }

  /** The same fact seen from the chrono pass: its reuse targets are catalog names and never wing entries. */
  lemma ChronoTargetsOutsideWings(names: seq<string>, s: Settings, catalogNames: set<string>)
    requires EntryPlan(names, s, catalogNames).Success?
    ensures var wings := WingPlan(names, s).value;
      var chronos := ChronoPlan(names, s, catalogNames + wings.Keys).value;
      forall n :: n in chronos && chronos[n].Reuse? ==> chronos[n].target in catalogNames && chronos[n].target !in wings
  {
    var wings := WingPlan(names, s).value;
    var known := catalogNames + wings.Keys;
    var chronos := ChronoPlan(names, s, known).value;
    EntryPlanEntries(names, s, catalogNames);
    forall n | n in chronos && chronos[n].Reuse?
      ensures chronos[n].target in catalogNames && chronos[n].target !in wings
    {
      assert EntryPlan(names, s, catalogNames).value[n] == chronos[n];
    }
  }

  lemma CollectSingle<T>(name: string, step: string -> Result<Option<T>, Error>)
    ensures Collect([name], step) ==
      match step(name)
      case Failure(e) => Failure(e)
      case Success(None) => Success(map[])
      case Success(Some(v)) => Success(map[name := v])
  {
    assert [name][..0] == [];
  }

  lemma UnionWithNothing(m: map<string, Entry>)
    ensures m + map[] == m
  {
  }

  /** A single wing name that parses gets the configuration `_wing_to_dataset_config` gives it. */
  lemma SingleWingPlan(name: string, s: Settings, catalogNames: set<string>, config: Config)
    requires !IsChrono(name) && Parse(name, s) != Wings.Sentinel
    requires DatasetConfig(Parse(name, s), s) == Success(config)
    ensures EntryPlan([name], s, catalogNames) == Success(map[name := Build(config)])
  {
    var wingStep := n => WingStep(n, s);
    assert wingStep(name) == Success(Some(Build(config)));
    CollectSingle(name, wingStep);
    var wings := map[name := Build(config)];
    var none: map<string, Entry> := map[];
    UnionWithNothing(wings);
    assert WingPlan([name], s) == Success(wings);
    var known := catalogNames + wings.Keys;
    var chronoStep := n => ChronoStep(n, s, known);
    assert chronoStep(name) == Success(None);
    CollectSingle(name, chronoStep);
    assert ChronoPlan([name], s, known) == Success(none);
  }

  /** A single wing name whose registry entry lacks "type" makes the whole plan raise `MissingType`. */
  lemma SingleWingFailure(name: string, s: Settings, catalogNames: set<string>)
    requires !IsChrono(name) && Parse(name, s) != Wings.Sentinel
    requires DatasetConfig(Parse(name, s), s).Failure?
    ensures EntryPlan([name], s, catalogNames) == Failure(MissingType(Parse(name, s).extension))
  {
    var wingStep := n => WingStep(n, s);
    assert wingStep(name) == Failure(MissingType(Parse(name, s).extension));
    CollectSingle(name, wingStep);
  }

  /** A single chrono name whose stem does not parse reuses the stem when the catalog has it, and raises otherwise. */
  lemma SingleChronoPlan(name: string, s: Settings, catalogNames: set<string>)
    requires IsChrono(name) && Parse(Stem(name), s) == Wings.Sentinel
    ensures Stem(name) in catalogNames ==> EntryPlan([name], s, catalogNames) == Success(map[name := Reuse(Stem(name))])
    ensures Stem(name) !in catalogNames ==> EntryPlan([name], s, catalogNames) == Failure(MissingChronoDataSetTarget(name))
  {
    var wingStep := n => WingStep(n, s);
    assert wingStep(name) == Success(None);
    CollectSingle(name, wingStep);
    var none: map<string, Entry> := map[];
    assert WingPlan([name], s) == Success(none);
    var known := catalogNames + none.Keys;
    assert known == catalogNames;
    var chronoStep := n => ChronoStep(n, s, known);
    CollectSingle(name, chronoStep);
    if Stem(name) in catalogNames {
      assert chronoStep(name) == Success(Some(Reuse(Stem(name))));
      assert ChronoPlan([name], s, known) == Success(map[name := Reuse(Stem(name))]);
      assert none + map[name := Reuse(Stem(name))] == map[name := Reuse(Stem(name))];
    } else {
      assert chronoStep(name) == Failure(MissingChronoDataSetTarget(name));
      assert ChronoPlan([name], s, known) == Failure(MissingChronoDataSetTarget(name));
    }
  }

  /** Two steps that agree wherever the first succeeds collect the same entries where the first collection succeeds. */
  lemma {:induction false} CollectAgrees<T>(names: seq<string>, step1: string -> Result<Option<T>, Error>, step2: string -> Result<Option<T>, Error>)
    requires forall n :: n in names && step1(n).Success? ==> step2(n) == step1(n)
    requires Collect(names, step1).Success?
    ensures Collect(names, step2) == Collect(names, step1)
  {
    if names != [] {
      var init := names[..|names| - 1];
      CollectAgrees(init, step1, step2);
    }
  }

  /**
    A catalog that knows more names does not change a successful plan: the wing entries do not
    depend on the catalog, and every reused name is still there.
   */
  lemma EntryPlanStable(names: seq<string>, s: Settings, c1: set<string>, c2: set<string>)
    requires EntryPlan(names, s, c1).Success?
    requires c1 <= c2
    ensures EntryPlan(names, s, c2) == EntryPlan(names, s, c1)
  {
    var wings := WingPlan(names, s).value;
    var k1, k2 := c1 + wings.Keys, c2 + wings.Keys;
    assert ChronoPlan(names, s, k1).Success?;
    CollectAgrees(names, n => ChronoStep(n, s, k1), n => ChronoStep(n, s, k2));
  }

  /**
    Running the hook a second time on the catalog the first run produced computes the same plan,
    and its insert-if-absent merge, whatever objects the second run creates, leaves that
    catalog as it is.
   */
  lemma MergeIsIdempotent<V>(names: seq<string>, s: Settings, catalog: map<string, V>,
                             first: map<string, V>, second: map<string, V>)
    requires EntryPlan(names, s, catalog.Keys).Success?
    requires first.Keys == EntryPlan(names, s, catalog.Keys).value.Keys
    requires EntryPlan(names, s, MergeAbsent(catalog, first).Keys).Success?
    requires second.Keys == EntryPlan(names, s, MergeAbsent(catalog, first).Keys).value.Keys
    ensures EntryPlan(names, s, MergeAbsent(catalog, first).Keys) == EntryPlan(names, s, catalog.Keys)
    ensures MergeAbsent(MergeAbsent(catalog, first), second) == MergeAbsent(catalog, first)
  {
    var merged := MergeAbsent(catalog, first);
    EntryPlanStable(names, s, catalog.Keys, merged.Keys);
    assert second.Keys <= merged.Keys;
    assert MergeAbsent(merged, second) == merged;
  }

}
