/**
 What the order of the facts may change. The cached path of the pipeline finds the same facts
 as the per-call path in another order, and a tie between equally confident facts of a key is
 decided by order.
 */
module PipelineAgreement {
  import opened Wrappers
  import opened EnrichmentModels
  import opened ExtractorCache
  import opened Normalizer

  /** No other fact of the group is as confident as its best one. */
  ghost predicate HasClearBest(group: seq<Fact>)
    requires group != []
  {
    forall f :: f in group && f.confidence == Best(group).confidence ==> f == Best(group)
  }

  ghost predicate IsReordering(group: seq<Fact>, other: seq<Fact>) {
    multiset(other) == multiset(group)
  }

  /** The best fact of a group is the same in every order exactly when no other fact is as confident. */
  lemma {:induction false} BestIgnoresOrder(group: seq<Fact>)
    requires group != []
    ensures HasClearBest(group) <==>
            forall other: seq<Fact> :: other != [] && IsReordering(group, other) ==> Best(other) == Best(group)
  {
    hide Best, IsReordering;
    if HasClearBest(group) {
      forall other: seq<Fact> | other != [] && IsReordering(group, other) ensures Best(other) == Best(group) {
        SameBest(group, other);
      }
    } else {
      var other := TieBrokenOtherwise(group);
    }
  }

  lemma {:induction false} TieBrokenOtherwise(group: seq<Fact>) returns (other: seq<Fact>)
    requires group != [] && !HasClearBest(group)
    ensures other != [] && IsReordering(group, other) && Best(other) != Best(group)
  {
    hide Best;
    var i := BestIsLastMaximum(group);
    var j :| 0 <= j < |group| && group[j].confidence == Best(group).confidence && group[j] != Best(group);
    other := MovedToEnd(group, j);
    forall g | g in multiset(other) ensures g.confidence <= group[j].confidence {
      assert g in group;
    }
    LastMaximumWins(other, group[j]);
  }

  lemma {:induction false} MovedToEnd(group: seq<Fact>, j: nat) returns (other: seq<Fact>)
    requires j < |group|
    ensures other != [] && other[|other| - 1] == group[j] && IsReordering(group, other)
    ensures multiset(other) == multiset(group)
  {
    other := group[..j] + group[j + 1..] + [group[j]];
    assert group == group[..j] + [group[j]] + group[j + 1..];
  }

  lemma {:induction false} LastMaximumWins(group: seq<Fact>, f: Fact)
    requires group != [] && group[|group| - 1] == f
    requires forall g :: g in multiset(group) ==> g.confidence <= f.confidence
    ensures Best(group) == f
  {
    assert forall j :: 0 <= j < |group| ==> group[j] in multiset(group);
    BestIsUnique(group, |group| - 1);
  }

  lemma {:induction false} SameBest(group: seq<Fact>, other: seq<Fact>)
    requires group != [] && other != [] && IsReordering(group, other) && HasClearBest(group)
    ensures Best(other) == Best(group)
  {
    hide Best;
    var i := BestIsLastMaximum(group);
    var j := BestIsLastMaximum(other);
    assert group[i] in multiset(other) && other[j] in multiset(group);
    assert group[i] in other && other[j] in group;
  }

  /** Every key in single mode has a clear best fact. */
  ghost predicate Decisive(config: Config, facts: seq<Fact>) {
    forall k: string :: Group(facts, k) != [] && !IsMulti(config, Group(facts, k)) ==> HasClearBest(Group(facts, k))
  }

  lemma {:induction false} CountOne(facts: seq<Fact>, last: Fact, f: Fact)
    ensures multiset(facts + [last])[f] == multiset(facts)[f] + if last == f then 1 else 0
  {
  }

  lemma {:induction false} AboveCounts(config: Config, facts: seq<Fact>, f: Fact)
    ensures multiset(AboveThreshold(config, facts))[f] ==
        if f.confidence >= config.threshold then multiset(facts)[f] else 0
  {
    if facts != [] {
      hide AboveThreshold;
      var front, last := facts[..|facts| - 1], facts[|facts| - 1];
      AboveCounts(config, front, f);
      assert facts == front + [last];
      AboveOne(config, front, last);
      CountOne(front, last, f);
      CountOne(AboveThreshold(config, front), last, f);
    } else {
      NoFacts(config);
    }
  }

  /** Reordering a group leaves the same facts of it, if its mode and its best fact do not depend on the order. */
  lemma {:induction false} KeptIgnoresOrder(config: Config, group: seq<Fact>, other: seq<Fact>)
    requires multiset(group) == multiset(other)
    requires forall f, g :: f in group && g in group ==> (IsMultiFact(config, f) <==> IsMultiFact(config, g))
    requires group != [] && !IsMulti(config, group) ==> HasClearBest(group)
    ensures multiset(Kept(config, group)) == multiset(Kept(config, other))
  {
    hide AboveThreshold, Best;
    assert |multiset(group)| == |group| && |multiset(other)| == |other|;
    if group != [] {
      assert other[0] in multiset(group);
      assert group[0] in group && other[0] in group;
      assert IsMulti(config, other) <==> IsMulti(config, group);
      if !IsMulti(config, group) {
        SameBest(group, other);
      }
    }
    forall f: Fact ensures multiset(Kept(config, group))[f] == multiset(Kept(config, other))[f] {
      AboveCounts(config, Survivors(config, group), f);
      AboveCounts(config, Survivors(config, other), f);
    }
  }

  /** Facts in another order normalise to the same facts, if modes are shared and best facts are unique. */
  lemma {:induction false} OrderIrrelevant(config: Config, a: seq<Fact>, b: seq<Fact>, outA: seq<Fact>, outB: seq<Fact>)
    requires multiset(a) == multiset(b) && Uniform(config, a) && Decisive(config, a)
    requires IsNormalisation(config, a, outA) && IsNormalisation(config, b, outB)
    ensures multiset(outA) == multiset(outB)
  {
    hide Group, Kept, Uniform, Best, IsMulti;
    forall f: Fact ensures multiset(outA)[f] == multiset(outB)[f] {
      var k := f.key;
      SameGroups(a, b, k);
      if Group(a, k) != [] {
        UniformGroup(config, a, k);
      }
      KeptIgnoresOrder(config, Group(a, k), Group(b, k));
      GroupCounts(outA, f);
      GroupCounts(outB, f);
      assert Group(outA, k) == Kept(config, Group(a, k)) && Group(outB, k) == Kept(config, Group(b, k));
    }
  }

  /**
   With distinct ids, shared merge modes and unique best facts, the cache changes nothing in
   the normalised facts, whatever the orders in which the keys are visited.
   */
  lemma {:induction false} CacheIsTransparent(
      engine: Engine, enrichers: seq<Enricher>, patterns: map<string, seq<ValidatedPattern>>, enricher: Enricher,
      config: Config, cached: seq<Fact>, perCall: seq<Fact>)
    requires IsCacheOf(engine, enrichers, patterns) && enricher in enrichers
    requires forall i, j :: 0 <= i < j < |enrichers| ==> enrichers[i].id != enrichers[j].id
    requires forall i, j :: 0 <= i < j < |enricher.extractors| ==>
        enricher.extractors[i].id != enricher.extractors[j].id
    requires Uniform(config, PerCall(engine, enricher)) && Decisive(config, PerCall(engine, enricher))
    requires IsNormalisation(config, CachedRun(engine, patterns, enricher), cached)
    requires IsNormalisation(config, PerCall(engine, enricher), perCall)
    ensures multiset(cached) == multiset(perCall)
  {
    hide IsCacheOf, CachedRun, PerCall, IsNormalisation, Uniform, Decisive;
    UniqueIdsAgree(engine, enrichers, patterns, enricher);
    OrderIrrelevant(config, PerCall(engine, enricher), CachedRun(engine, patterns, enricher), perCall, cached);
  }
}
