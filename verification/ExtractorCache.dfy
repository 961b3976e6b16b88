/**
 The cached path of the fact pipeline against the path that builds every extractor per call.
 Patterns are compiled when the catalog is loaded, extractors are built from them on first
 use, and only extractors whose id is not cached are built per call.
 */
module ExtractorCache {
  import opened Wrappers
  import opened EnrichmentModels

  // ---- The per-call path ------------------------------------------------------------------

  /** Build one extractor and run it; an invalid regex and an unknown type yield nothing. */
  function RunExtractor(engine: Engine, config: ExtractorConfig): seq<Fact> {
    if config.extractorType == "regex" then
      var regex := engine.Compile(config.pattern);
      if regex.None? then []
      else engine.extract(RegexExtractor(config.id, regex.value, config.factKey, config.mergeMode))
    else if config.extractorType == "glob" then
      engine.extract(GlobExtractor(config.id, config.pattern, config.factKey, config.mergeMode))
    else if config.extractorType == "command" then
      engine.extract(CommandExtractor(config.id, if config.policy.Some? then config.policy.value else DEFAULT_POLICY))
    else []
  }

  /** The facts of the extractors that `keep` selects, in order. */
  function Gather(engine: Engine, configs: seq<ExtractorConfig>, keep: ExtractorConfig -> bool): seq<Fact> {
    if configs == [] then [] else
      var last := configs[|configs| - 1];
      Gather(engine, configs[..|configs| - 1], keep) + if keep(last) then RunExtractor(engine, last) else []
  }

  /** What the pipeline extracts without any cache. */
  function PerCall(engine: Engine, enricher: Enricher): seq<Fact> {
    Gather(engine, enricher.extractors, (_: ExtractorConfig) => true)
  }

  // ---- The cache --------------------------------------------------------------------------

  /** Extractors that are compiled ahead: globs, and regexes that compile. */
  predicate Cacheable(engine: Engine, config: ExtractorConfig) {
    config.extractorType == "glob" || (config.extractorType == "regex" && engine.isValid(config.pattern))
  }

  function Validate(engine: Engine, config: ExtractorConfig): ValidatedPattern
    requires Cacheable(engine, config)
  {
    if config.extractorType == "regex"
    then ValidatedPattern(Regex(config.pattern), config.pattern, config.factKey, config.id, config.mergeMode, "regex")
    else ValidatedPattern(Regex("."), config.pattern, config.factKey, config.id, config.mergeMode, "glob")
  }

  function Validated(engine: Engine, configs: seq<ExtractorConfig>): seq<ValidatedPattern> {
    if configs == [] then [] else
      var last := configs[|configs| - 1];
      Validated(engine, configs[..|configs| - 1]) + if Cacheable(engine, last) then [Validate(engine, last)] else []
  }

  /** The extractors of the last enricher with this id, which is the one the cache keeps. */
  function ExtractorsOf(enrichers: seq<Enricher>, id: string): Option<seq<ExtractorConfig>> {
    if enrichers == [] then None
    else if enrichers[|enrichers| - 1].id == id then Some(enrichers[|enrichers| - 1].extractors)
    else ExtractorsOf(enrichers[..|enrichers| - 1], id)
  }

  /** `patterns` is the cache of these enrichers. */
  ghost predicate IsCacheOf(engine: Engine, enrichers: seq<Enricher>, patterns: map<string, seq<ValidatedPattern>>) {
    forall id: string ::
      if ExtractorsOf(enrichers, id).None? then id !in patterns
      else id in patterns && patterns[id] == Validated(engine, ExtractorsOf(enrichers, id).value)
  }

  method FromEnrichers(engine: Engine, enrichers: seq<Enricher>) returns (patterns: map<string, seq<ValidatedPattern>>)
    ensures IsCacheOf(engine, enrichers, patterns)
  {
    patterns := map[];
    for i := 0 to |enrichers|
      invariant IsCacheOf(engine, enrichers[..i], patterns)
    {
      var validated := ValidateAll(engine, enrichers[i].extractors);
      patterns := patterns[enrichers[i].id := validated];
      assert enrichers[..i + 1][..i] == enrichers[..i];
    }
    assert enrichers[..|enrichers|] == enrichers;
  }

  method ValidateAll(engine: Engine, configs: seq<ExtractorConfig>) returns (validated: seq<ValidatedPattern>)
    ensures validated == Validated(engine, configs)
  {
    validated := [];
    for i := 0 to |configs|
      invariant validated == Validated(engine, configs[..i])
    {
      var config := configs[i];
      assert configs[..i + 1][..i] == configs[..i];
      if config.extractorType == "regex" {
        var regex := engine.Compile(config.pattern);
        if regex.Some? {
          validated := validated +
            [ValidatedPattern(regex.value, config.pattern, config.factKey, config.id, config.mergeMode, "regex")];
        }
      } else if config.extractorType == "glob" {
        validated := validated +
          [ValidatedPattern(Regex("."), config.pattern, config.factKey, config.id, config.mergeMode, "glob")];
      }
    }
    assert configs[..|configs|] == configs;
  }

  function Instantiate(vp: ValidatedPattern): Extractor {
    if vp.extractorType == "glob" then GlobExtractor(vp.extractorId, vp.patternStr, vp.factKey, vp.mergeMode)
    else RegexExtractor(vp.extractorId, vp.regex, vp.factKey, vp.mergeMode)
  }

  function Instances(patterns: seq<ValidatedPattern>): (r: seq<Extractor>)
    ensures |r| == |patterns| && forall i :: 0 <= i < |r| ==> r[i] == Instantiate(patterns[i])
  {
    if patterns == [] then [] else Instances(patterns[..|patterns| - 1]) + [Instantiate(patterns[|patterns| - 1])]
  }

  function ExtractAll(engine: Engine, extractors: seq<Extractor>): seq<Fact> {
    if extractors == [] then [] else
      ExtractAll(engine, extractors[..|extractors| - 1]) + engine.extract(extractors[|extractors| - 1])
  }

  function Names(extractors: seq<Extractor>): set<string> {
    set i | 0 <= i < |extractors| :: extractors[i].name
  }

  /** The pipeline's cached run: cached extractors first, then those whose id is not cached. */
  function CachedRun(engine: Engine, patterns: map<string, seq<ValidatedPattern>>, enricher: Enricher): seq<Fact> {
    var cached := if enricher.id in patterns then Instances(patterns[enricher.id]) else [];
    ExtractAll(engine, cached) + Gather(engine, enricher.extractors, (c: ExtractorConfig) => c.id !in Names(cached))
  }

  method InstantiateAll(patterns: seq<ValidatedPattern>) returns (extractors: seq<Extractor>)
    ensures extractors == Instances(patterns)
  {
    extractors := [];
    for i := 0 to |patterns|
      invariant |extractors| == i && forall j :: 0 <= j < i ==> extractors[j] == Instantiate(patterns[j])
    {
      extractors := extractors + [Instantiate(patterns[i])];
    }
  }

  /** The extractors are built from the cache on first use and kept. */
  class FactPipeline {
    const engine: Engine
    const patterns: map<string, seq<ValidatedPattern>>
    var cachedExtractors: Option<map<string, seq<Extractor>>>

    ghost predicate Valid()
      reads this
    {
      cachedExtractors.Some? ==> IsBuilt(cachedExtractors.value)
    }

    ghost predicate IsBuilt(built: map<string, seq<Extractor>>) {
      built.Keys == patterns.Keys && forall id :: id in patterns ==> built[id] == Instances(patterns[id])
    }

    constructor (engine: Engine, patterns: map<string, seq<ValidatedPattern>>)
      ensures Valid() && this.engine == engine && this.patterns == patterns
    {
      this.engine, this.patterns, cachedExtractors := engine, patterns, None;
    }

    method BuildCachedExtractors()
      requires Valid()
      modifies this
      ensures Valid() && cachedExtractors.Some?
    {
      if cachedExtractors.Some? {
        return;
      }
      var built: map<string, seq<Extractor>> := map[];
      var left := patterns.Keys;
      while left != {}
        invariant left <= patterns.Keys && built.Keys == patterns.Keys - left
        invariant forall id :: id in built ==> built[id] == Instances(patterns[id])
        decreases |left|
      {
        var id :| id in left;
        var instances := InstantiateAll(patterns[id]);
        built := built[id := instances];
        left := left - {id};
      }
      cachedExtractors := Some(built);
    }

    method ExecuteExtractors(enricher: Enricher) returns (allFacts: seq<Fact>)
      requires Valid()
      modifies this
      ensures Valid() && allFacts == CachedRun(engine, patterns, enricher)
    {
      hide Gather, RunExtractor, ExtractAll, Names, Instances;
      BuildCachedExtractors();
      var instances := if enricher.id in cachedExtractors.value then cachedExtractors.value[enricher.id] else [];
      var fromCache, cachedIds := RunCached(instances);
      var perCall := RunOthers(enricher.extractors, cachedIds);
      allFacts := fromCache + perCall;
      GatherSame(engine, enricher.extractors, (c: ExtractorConfig) => c.id !in cachedIds,
                 (c: ExtractorConfig) => c.id !in Names(instances));
    }

    /** Run the cached extractors and note their ids. */
    method RunCached(instances: seq<Extractor>) returns (facts: seq<Fact>, cachedIds: set<string>)
      ensures facts == ExtractAll(engine, instances) && cachedIds == Names(instances)
    {
      hide ExtractAll, Names;
      facts, cachedIds := [], {};
      NothingExtracted(engine);
      for i := 0 to |instances|
        invariant facts == ExtractAll(engine, instances[..i]) && cachedIds == Names(instances[..i])
      {
        assert instances[..i + 1] == instances[..i] + [instances[i]];
        ExtractAppend(engine, instances[..i], instances[i]);
        NamesAppend(instances[..i], instances[i]);
        cachedIds := cachedIds + {instances[i].name};
        facts := facts + engine.extract(instances[i]);
      }
      assert instances[..|instances|] == instances;
    }

    /** Build and run every extractor whose id is not cached. */
    method RunOthers(configs: seq<ExtractorConfig>, cachedIds: set<string>) returns (facts: seq<Fact>)
      ensures facts == Gather(engine, configs, (c: ExtractorConfig) => c.id !in cachedIds)
    {
      hide Gather, RunExtractor;
      ghost var keep := (c: ExtractorConfig) => c.id !in cachedIds;
      facts := [];
      GatherNothing(engine, keep);
      for i := 0 to |configs|
        invariant facts == Gather(engine, configs[..i], keep)
      {
        GatherStep(engine, configs, i, keep);
        if configs[i].id !in cachedIds {
          facts := facts + RunExtractor(engine, configs[i]);
        }
      }
      assert configs[..|configs|] == configs;
      GatherSame(engine, configs, keep, (c: ExtractorConfig) => c.id !in cachedIds);
    }
  }

  lemma {:induction false} GatherNothing(engine: Engine, keep: ExtractorConfig -> bool)
    ensures Gather(engine, [], keep) == []
  {
  }

  lemma {:induction false} GatherStep(
      engine: Engine, configs: seq<ExtractorConfig>, i: nat, keep: ExtractorConfig -> bool)
    requires i < |configs|
    ensures Gather(engine, configs[..i + 1], keep) ==
            Gather(engine, configs[..i], keep) + if keep(configs[i]) then RunExtractor(engine, configs[i]) else []
  {
    assert configs[..i + 1][..i] == configs[..i];
  }

  lemma {:induction false} NothingExtracted(engine: Engine)
    ensures ExtractAll(engine, []) == [] && Names([]) == {} && Instances([]) == []
  {
  }

  lemma {:induction false} ExtractAppend(engine: Engine, extractors: seq<Extractor>, x: Extractor)
    ensures ExtractAll(engine, extractors + [x]) == ExtractAll(engine, extractors) + engine.extract(x)
  {
    assert (extractors + [x])[..|extractors|] == extractors;
  }

  lemma {:induction false} NamesAppend(extractors: seq<Extractor>, x: Extractor)
    ensures Names(extractors + [x]) == Names(extractors) + {x.name}
  {
    var longer := extractors + [x];
    forall name ensures name in Names(longer) <==> name in Names(extractors) + {x.name} {
      if name in Names(extractors) {
        var j :| 0 <= j < |extractors| && extractors[j].name == name;
        assert longer[j].name == name;
      }
      if name == x.name {
        assert longer[|extractors|].name == name;
      }
      if name in Names(longer) {
        var j :| 0 <= j < |longer| && longer[j].name == name;
        assert j < |extractors| ==> extractors[j].name == name;
      }
    }
  }

  lemma {:induction false} InstancesAppend(patterns: seq<ValidatedPattern>, vp: ValidatedPattern)
    ensures Instances(patterns + [vp]) == Instances(patterns) + [Instantiate(vp)]
  {
    hide Instances;
  }

  lemma {:induction false} ValidatedStep(engine: Engine, configs: seq<ExtractorConfig>)
    requires configs != []
    ensures var front, last := configs[..|configs| - 1], configs[|configs| - 1];
            Validated(engine, configs) ==
            Validated(engine, front) + if Cacheable(engine, last) then [Validate(engine, last)] else []
  {
  }

  lemma {:induction false} ValidateRuns(engine: Engine, c: ExtractorConfig)
    requires Cacheable(engine, c)
    ensures engine.extract(Instantiate(Validate(engine, c))) == RunExtractor(engine, c)
    ensures Instantiate(Validate(engine, c)).name == c.id
  {
  }

  // ---- Agreement --------------------------------------------------------------------------

  lemma {:induction false} GatherSame(
      engine: Engine, configs: seq<ExtractorConfig>, keep1: ExtractorConfig -> bool, keep2: ExtractorConfig -> bool)
    requires forall i :: 0 <= i < |configs| ==> keep1(configs[i]) == keep2(configs[i])
    ensures Gather(engine, configs, keep1) == Gather(engine, configs, keep2)
  {
    hide RunExtractor;
    if configs != [] {
      GatherSame(engine, configs[..|configs| - 1], keep1, keep2);
    }
  }

  /** Splitting the extractors by a condition splits the facts, as multisets. */
  lemma {:induction false} GatherSplits(
      engine: Engine, configs: seq<ExtractorConfig>,
      all: ExtractorConfig -> bool, one: ExtractorConfig -> bool, other: ExtractorConfig -> bool)
    requires forall i :: 0 <= i < |configs| ==>
               (all(configs[i]) <==> one(configs[i]) || other(configs[i])) && !(one(configs[i]) && other(configs[i]))
    ensures multiset(Gather(engine, configs, all)) ==
            multiset(Gather(engine, configs, one)) + multiset(Gather(engine, configs, other))
  {
    hide RunExtractor, Gather;
    if configs == [] {
      GatherNothing(engine, all);
      GatherNothing(engine, one);
      GatherNothing(engine, other);
    } else {
      var last := |configs| - 1;
      assert configs[..last + 1] == configs;
      GatherSplits(engine, configs[..last], all, one, other);
      GatherStep(engine, configs, last, all);
      GatherStep(engine, configs, last, one);
      GatherStep(engine, configs, last, other);
      assert all(configs[last]) <==> one(configs[last]) || other(configs[last]);
    }
  }

  /** The cached extractors find what the cacheable ones would find if built per call. */
  lemma {:induction false} CachedInstancesAgree(
      engine: Engine, configs: seq<ExtractorConfig>, keep: ExtractorConfig -> bool)
    requires forall i :: 0 <= i < |configs| ==> keep(configs[i]) == Cacheable(engine, configs[i])
    ensures ExtractAll(engine, Instances(Validated(engine, configs))) == Gather(engine, configs, keep)
  {
    if configs == [] {
      NothingExtracted(engine);
      GatherNothing(engine, keep);
    } else {
      hide RunExtractor, Gather, Validated, Instances, ExtractAll, Cacheable, Validate, Instantiate;
      var front, last := configs[..|configs| - 1], configs[|configs| - 1];
      var before := Validated(engine, front);
      CachedInstancesAgree(engine, front, keep);
      ValidatedStep(engine, configs);
      GatherStep(engine, configs, |front|, keep);
      assert configs[..|front| + 1] == configs;
      assert keep(configs[|front|]) == Cacheable(engine, last);
      if Cacheable(engine, last) {
        var vp := Validate(engine, last);
        ValidateRuns(engine, last);
        InstancesAppend(before, vp);
        ExtractAppend(engine, Instances(before), Instantiate(vp));
      } else {
        assert before + [] == before;
      }
    }
  }

  /** Some cacheable extractor has this id. */
  predicate CachesId(engine: Engine, configs: seq<ExtractorConfig>, id: string) {
    exists i :: 0 <= i < |configs| && Cacheable(engine, configs[i]) && configs[i].id == id
  }

  lemma {:induction false} CachesIdStep(engine: Engine, configs: seq<ExtractorConfig>, id: string)
    requires configs != []
    ensures var front, last := configs[..|configs| - 1], configs[|configs| - 1];
            CachesId(engine, configs, id) <==> CachesId(engine, front, id) || (Cacheable(engine, last) && last.id == id)
  {
    hide Cacheable;
    var front, last := configs[..|configs| - 1], configs[|configs| - 1];
    if CachesId(engine, front, id) {
      var i :| 0 <= i < |front| && Cacheable(engine, front[i]) && front[i].id == id;
      assert configs[i].id == id;
    }
    if CachesId(engine, configs, id) {
      var i :| 0 <= i < |configs| && Cacheable(engine, configs[i]) && configs[i].id == id;
      assert i < |front| ==> front[i].id == id;
    }
  }

  lemma {:induction false} CachedNames(engine: Engine, configs: seq<ExtractorConfig>, name: string)
    ensures name in Names(Instances(Validated(engine, configs))) <==> CachesId(engine, configs, name)
  {
    if configs == [] {
      NothingExtracted(engine);
    } else {
      hide Validated, Instances, Names, Cacheable, Validate, Instantiate, CachesId;
      CachesIdStep(engine, configs, name);
      var front, last := configs[..|configs| - 1], configs[|configs| - 1];
      var before := Validated(engine, front);
      CachedNames(engine, front, name);
      ValidatedStep(engine, configs);
      if Cacheable(engine, last) {
        var vp := Validate(engine, last);
        ValidateRuns(engine, last);
        InstancesAppend(before, vp);
        NamesAppend(Instances(before), Instantiate(vp));
      } else {
        assert before + [] == before;
      }
    }
  }

  /** Exactly the globs, and the regexes that compile, are run from the cache. */
  lemma {:induction false} CachedIds(
      engine: Engine, enrichers: seq<Enricher>, patterns: map<string, seq<ValidatedPattern>>, id: string, name: string)
    requires IsCacheOf(engine, enrichers, patterns) && id in patterns
    ensures ExtractorsOf(enrichers, id).Some?
    ensures var configs := ExtractorsOf(enrichers, id).value;
            name in Names(Instances(patterns[id])) <==>
            exists c: ExtractorConfig :: c in configs && c.id == name
              && (c.extractorType == "glob" || (c.extractorType == "regex" && engine.isValid(c.pattern)))
  {
    hide Names, Instances, Validated;
    assert patterns[id] == Validated(engine, ExtractorsOf(enrichers, id).value);
    var configs := ExtractorsOf(enrichers, id).value;
    CachedNames(engine, configs, name);
    if CachesId(engine, configs, name) {
      var i :| 0 <= i < |configs| && configs[i].id == name && Cacheable(engine, configs[i]);
      assert configs[i] in configs;
    }
  }

  /** A per-call extractor is lost when a cached one of the same enricher has its id. */
  predicate IsShadowed(engine: Engine, configs: seq<ExtractorConfig>, c: ExtractorConfig) {
    !Cacheable(engine, c) && CachesId(engine, configs, c.id)
  }

  function Shadowed(engine: Engine, enricher: Enricher): seq<Fact> {
    Gather(engine, enricher.extractors, (c: ExtractorConfig) => IsShadowed(engine, enricher.extractors, c))
  }

  /**
   Up to order, the cached run finds what the per-call run finds, less the facts of the
   extractors shadowed by a cached one with the same id.
   */
  lemma {:induction false} CacheAgrees(
      engine: Engine, enrichers: seq<Enricher>, patterns: map<string, seq<ValidatedPattern>>, enricher: Enricher)
    requires IsCacheOf(engine, enrichers, patterns)
    requires ExtractorsOf(enrichers, enricher.id) == Some(enricher.extractors)
    ensures multiset(CachedRun(engine, patterns, enricher)) + multiset(Shadowed(engine, enricher)) ==
            multiset(PerCall(engine, enricher))
  {
    hide RunExtractor, Gather, Validated, Instances, ExtractAll, Names, ExtractorsOf, Cacheable;
    var configs := enricher.extractors;
    var names := Names(Instances(Validated(engine, configs)));
    forall i | 0 <= i < |configs| ensures configs[i].id in names <==>
        Cacheable(engine, configs[i]) || IsShadowed(engine, configs, configs[i])
    {
      assert Cacheable(engine, configs[i]) ==> CachesId(engine, configs, configs[i].id);
      CachedNames(engine, configs, configs[i].id);
    }
    CachedInstancesAgree(engine, configs, (c: ExtractorConfig) => Cacheable(engine, c));
    GatherSplits(engine, configs, (_: ExtractorConfig) => true,
                 (c: ExtractorConfig) => c.id in names, (c: ExtractorConfig) => c.id !in names);
    GatherSplits(engine, configs, (c: ExtractorConfig) => c.id in names,
                 (c: ExtractorConfig) => Cacheable(engine, c), (c: ExtractorConfig) => IsShadowed(engine, configs, c));
  }

  /** The two paths agree exactly when no shadowed extractor would have found anything. */
  lemma {:induction false} CacheAgreesIff(
      engine: Engine, enrichers: seq<Enricher>, patterns: map<string, seq<ValidatedPattern>>, enricher: Enricher)
    requires IsCacheOf(engine, enrichers, patterns)
    requires ExtractorsOf(enrichers, enricher.id) == Some(enricher.extractors)
    ensures multiset(CachedRun(engine, patterns, enricher)) == multiset(PerCall(engine, enricher)) <==>
            Shadowed(engine, enricher) == []
  {
    hide CachedRun, PerCall, Shadowed, IsCacheOf, ExtractorsOf;
    CacheAgrees(engine, enrichers, patterns, enricher);
    var lost := Shadowed(engine, enricher);
    if lost != [] {
      assert multiset(lost)[lost[0]] > 0;
    }
  }

  /** With distinct extractor ids nothing is shadowed, so the cache changes no fact. */
  lemma {:induction false} UniqueIdsAgree(
      engine: Engine, enrichers: seq<Enricher>, patterns: map<string, seq<ValidatedPattern>>, enricher: Enricher)
    requires IsCacheOf(engine, enrichers, patterns)
    requires enricher in enrichers
    requires forall i, j :: 0 <= i < j < |enrichers| ==> enrichers[i].id != enrichers[j].id
    requires forall i, j :: 0 <= i < j < |enricher.extractors| ==>
        enricher.extractors[i].id != enricher.extractors[j].id
    ensures multiset(CachedRun(engine, patterns, enricher)) == multiset(PerCall(engine, enricher))
  {
    hide CachedRun, PerCall, Gather, IsCacheOf;
    UniqueEnricher(enrichers, enricher);
    var configs := enricher.extractors;
    forall i | 0 <= i < |configs| ensures !IsShadowed(engine, configs, configs[i]) {
      assert forall j :: 0 <= j < |configs| && configs[j].id == configs[i].id ==> i == j;
    }
    GatherSame(engine, configs, (c: ExtractorConfig) => IsShadowed(engine, configs, c), (_: ExtractorConfig) => false);
    GatherNone(engine, configs);
    CacheAgreesIff(engine, enrichers, patterns, enricher);
  }

  lemma {:induction false} GatherNone(engine: Engine, configs: seq<ExtractorConfig>)
    ensures Gather(engine, configs, (_: ExtractorConfig) => false) == []
  {
    if configs != [] {
      GatherNone(engine, configs[..|configs| - 1]);
      GatherSame(engine, configs[..|configs| - 1], (_: ExtractorConfig) => false, (_: ExtractorConfig) => false);
    }
  }

  lemma {:induction false} UniqueEnricher(enrichers: seq<Enricher>, enricher: Enricher)
    requires enricher in enrichers
    requires forall i, j :: 0 <= i < j < |enrichers| ==> enrichers[i].id != enrichers[j].id
    ensures ExtractorsOf(enrichers, enricher.id) == Some(enricher.extractors)
  {
    var last := |enrichers| - 1;
    if enrichers[last] != enricher {
      assert enricher in enrichers[..last];
      UniqueEnricher(enrichers[..last], enricher);
    }
  }

  /** An empty cache is the per-call path itself. */
  lemma {:induction false} EmptyCacheIsPerCall(engine: Engine, enricher: Enricher)
    ensures CachedRun(engine, map[], enricher) == PerCall(engine, enricher)
  {
    GatherSame(engine, enricher.extractors, (c: ExtractorConfig) => c.id !in Names([]), (_: ExtractorConfig) => true);
  }

  // ---- Commands ---------------------------------------------------------------------------

  /**
   A command extractor is never cached: on both paths it runs with the policy it is configured
   with, or else with the default one.
   */
  lemma {:induction false} CommandRuns(
      engine: Engine, enrichers: seq<Enricher>, patterns: map<string, seq<ValidatedPattern>>, enricher: Enricher)
    requires IsCacheOf(engine, enrichers, patterns)
    requires |enricher.extractors| == 1 && enricher.extractors[0].extractorType == "command"
    requires ExtractorsOf(enrichers, enricher.id) == Some(enricher.extractors)
    ensures var c := enricher.extractors[0];
            var policy := if c.policy.Some? then c.policy.value else Policy(true, true, true, true, 64, 4096, None);
            PerCall(engine, enricher) == CachedRun(engine, patterns, enricher) ==
            engine.extract(CommandExtractor(c.id, policy))
  {
    hide Gather;
    var configs := enricher.extractors;
    var cached: seq<Extractor> := [];
    assert configs == [configs[0]] && configs[..0] == [];
    assert patterns[enricher.id] == Validated(engine, configs) == [];
    NothingExtracted(engine);
    GatherOne(engine, configs[0], (_: ExtractorConfig) => true);
    GatherOne(engine, configs[0], (c: ExtractorConfig) => c.id !in Names(cached));
    GatherSame(engine, configs, (_: ExtractorConfig) => true, (_: ExtractorConfig) => true);
  }

  lemma {:induction false} GatherOne(engine: Engine, config: ExtractorConfig, keep: ExtractorConfig -> bool)
    ensures Gather(engine, [config], keep) == if keep(config) then RunExtractor(engine, config) else []
  {
    assert [config][..0] == [];
    GatherNothing(engine, keep);
  }

  /** The cache changes the order: the facts of a glob come before those of a command that is listed first. */
  lemma {:induction false} CachedFirst(
      engine: Engine, enrichers: seq<Enricher>, patterns: map<string, seq<ValidatedPattern>>, enricher: Enricher)
    requires IsCacheOf(engine, enrichers, patterns)
    requires ExtractorsOf(enrichers, enricher.id) == Some(enricher.extractors)
    requires |enricher.extractors| == 2 && enricher.extractors[0].id != enricher.extractors[1].id
    requires enricher.extractors[0].extractorType == "command" && enricher.extractors[1].extractorType == "glob"
    ensures var (command, glob) := (enricher.extractors[0], enricher.extractors[1]);
            var found := engine.extract(GlobExtractor(glob.id, glob.pattern, glob.factKey, glob.mergeMode));
            var others := RunExtractor(engine, command);
            && PerCall(engine, enricher) == others + found
            && CachedRun(engine, patterns, enricher) == found + others
  {
    hide Gather, RunExtractor, Validated;
    var configs := enricher.extractors;
    var (command, glob) := (configs[0], configs[1]);
    assert configs == [command, glob];
    var vp := Validate(engine, glob);
    assert patterns[enricher.id] == [vp] by { OneCached(engine, command, glob); }
    ValidateRuns(engine, glob);
    RunGlob(engine, glob);
    var cached := Instances([vp]);
    assert cached == [Instantiate(vp)];
    ExtractOne(engine, Instantiate(vp));
    assert cached[0].name == glob.id;
    assert glob.id in Names(cached) && command.id !in Names(cached);
    GatherTwo(engine, command, glob, (_: ExtractorConfig) => true);
    GatherTwo(engine, command, glob, (c: ExtractorConfig) => c.id !in Names(cached));
    GatherSame(engine, configs, (_: ExtractorConfig) => true, (_: ExtractorConfig) => true);
    GatherSame(engine, configs, (c: ExtractorConfig) => c.id !in Names(cached),
               (c: ExtractorConfig) => c.id !in Names(Instances(patterns[enricher.id])));
  }

  lemma {:induction false} OneCached(engine: Engine, command: ExtractorConfig, glob: ExtractorConfig)
    requires command.extractorType == "command" && glob.extractorType == "glob"
    ensures Validated(engine, [command, glob]) == [Validate(engine, glob)]
  {
    assert [command, glob][..1] == [command] && [command][..0] == [];
    assert Validated(engine, [command]) == [];
  }

  lemma {:induction false} RunGlob(engine: Engine, glob: ExtractorConfig)
    requires glob.extractorType == "glob"
    ensures RunExtractor(engine, glob) ==
            engine.extract(GlobExtractor(glob.id, glob.pattern, glob.factKey, glob.mergeMode))
  {
  }

  lemma {:induction false} ExtractOne(engine: Engine, x: Extractor)
    ensures ExtractAll(engine, [x]) == engine.extract(x)
  {
    assert [x][..0] == [];
    NothingExtracted(engine);
  }

  lemma {:induction false} GatherTwo(
      engine: Engine, first: ExtractorConfig, second: ExtractorConfig, keep: ExtractorConfig -> bool)
    ensures Gather(engine, [first, second], keep) ==
            (if keep(first) then RunExtractor(engine, first) else [])
            + if keep(second) then RunExtractor(engine, second) else []
  {
    hide RunExtractor;
    assert [first, second][..1] == [first];
    GatherOne(engine, first, keep);
  }

  /** An extractor with an invalid regex or of an unknown type finds nothing. */
  lemma {:induction false} OthersFindNothing(engine: Engine, enricher: Enricher)
    requires forall i :: 0 <= i < |enricher.extractors| ==>
               var c := enricher.extractors[i];
               || (c.extractorType == "regex" && !engine.isValid(c.pattern))
               || c.extractorType !in {"regex", "glob", "command"}
    ensures PerCall(engine, enricher) == []
  {
    var all := (_: ExtractorConfig) => true;
    NothingGathered(engine, enricher.extractors, all);
    GatherSame(engine, enricher.extractors, all, (_: ExtractorConfig) => true);
  }

  lemma {:induction false} NothingGathered(engine: Engine, configs: seq<ExtractorConfig>, keep: ExtractorConfig -> bool)
    requires forall i :: 0 <= i < |configs| ==> RunExtractor(engine, configs[i]) == []
    ensures Gather(engine, configs, keep) == []
  {
    hide RunExtractor;
    if configs != [] {
      NothingGathered(engine, configs[..|configs| - 1], keep);
    }
  }
}
