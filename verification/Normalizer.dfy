/**
 Normalisation of facts: facts are grouped by key, a key in single mode keeps its best fact,
 a key in multi mode keeps all of them, and facts below the threshold are dropped. The order
 in which the keys are visited is arbitrary. Confidences are real numbers.
 */
module Normalizer {
  import opened EnrichmentModels

  /** The threshold, and the merge mode of each extractor. */
  datatype Config = Config(threshold: real, mergeModes: map<string, string>)

  // ---- Specification ----------------------------------------------------------------------

  /** The facts with key `k`, in order. */
  function Group(facts: seq<Fact>, k: string): seq<Fact> {
    if facts == [] then [] else
      Group(facts[..|facts| - 1], k) + if facts[|facts| - 1].key == k then [facts[|facts| - 1]] else []
  }

  predicate IsMultiFact(config: Config, f: Fact) {
    f.sourceExtractor in config.mergeModes && config.mergeModes[f.sourceExtractor] == "multi"
  }

  /** The merge mode of a group is that of its first fact. */
  predicate IsMulti(config: Config, group: seq<Fact>) {
    group != [] && IsMultiFact(config, group[0])
  }

  /** The most confident fact of a group, the last one if several are equally confident. */
  function Best(group: seq<Fact>): Fact
    requires group != []
  {
    var last := group[|group| - 1];
    if |group| == 1 then last else
      var best := Best(group[..|group| - 1]);
      if last.confidence >= best.confidence then last else best
  }

  function Survivors(config: Config, group: seq<Fact>): seq<Fact> {
    if group == [] || IsMulti(config, group) then group else [Best(group)]
  }

  function AboveThreshold(config: Config, facts: seq<Fact>): seq<Fact> {
    if facts == [] then [] else
      AboveThreshold(config, facts[..|facts| - 1]) +
      if facts[|facts| - 1].confidence >= config.threshold then [facts[|facts| - 1]] else []
  }

  /** What remains of a group. */
  function Kept(config: Config, group: seq<Fact>): seq<Fact> {
    AboveThreshold(config, Survivors(config, group))
  }

  /** `out` is a normalisation of `facts`: each key keeps what its own group calls for. */
  ghost predicate IsNormalisation(config: Config, facts: seq<Fact>, out: seq<Fact>) {
    forall k: string :: Group(out, k) == Kept(config, Group(facts, k))
  }

  // ---- Basic facts ------------------------------------------------------------------------

  lemma {:induction false} GroupOne(facts: seq<Fact>, f: Fact, k: string)
    ensures Group(facts + [f], k) == if f.key == k then Group(facts, k) + [f] else Group(facts, k)
  {
    assert (facts + [f])[..|facts|] == facts;
  }

  lemma {:induction false} AboveOne(config: Config, facts: seq<Fact>, f: Fact)
    ensures AboveThreshold(config, facts + [f]) ==
            if f.confidence >= config.threshold then AboveThreshold(config, facts) + [f]
              else AboveThreshold(config, facts)
  {
    assert (facts + [f])[..|facts|] == facts;
  }

  lemma {:induction false} BestOne(group: seq<Fact>, f: Fact)
    ensures Best(group + [f]) == if group == [] || f.confidence >= Best(group).confidence then f else Best(group)
  {
    assert (group + [f])[..|group|] == group;
  }

  lemma {:induction false} Associates(a: seq<Fact>, b: seq<Fact>, c: seq<Fact>)
    ensures (a + b) + c == a + (b + c)
  {
  }

  lemma {:induction false} GroupAppend(facts: seq<Fact>, more: seq<Fact>, k: string)
    ensures Group(facts + more, k) == Group(facts, k) + Group(more, k)
  {
    if more == [] {
      assert facts + more == facts;
    } else {
      hide Group;
      var front, last := more[..|more| - 1], more[|more| - 1];
      GroupAppend(facts, front, k);
      assert more == front + [last];
      assert facts + more == (facts + front) + [last];
      GroupOne(facts + front, last, k);
      GroupOne(front, last, k);
      Associates(Group(facts, k), Group(front, k), [last]);
    }
  }

  lemma {:induction false} GroupHasKey(facts: seq<Fact>, k: string)
    ensures forall f :: f in Group(facts, k) ==> f.key == k && f in facts
  {
    if facts != [] {
      GroupHasKey(facts[..|facts| - 1], k);
    }
  }

  lemma {:induction false} GroupOfOneKey(facts: seq<Fact>, k: string, j: string)
    requires forall f :: f in facts ==> f.key == j
    ensures Group(facts, k) == if k == j then facts else []
  {
    if facts != [] {
      GroupOfOneKey(facts[..|facts| - 1], k, j);
      assert facts[|facts| - 1] in facts;
      assert facts[..|facts| - 1] + [facts[|facts| - 1]] == facts;
    }
  }

  lemma {:induction false} GroupCounts(facts: seq<Fact>, f: Fact)
    ensures multiset(facts)[f] == multiset(Group(facts, f.key))[f]
  {
    if facts != [] {
      var front, last := facts[..|facts| - 1], facts[|facts| - 1];
      GroupCounts(front, f);
      assert facts == front + [last];
    }
  }

  /** Sequences with the same groups hold the same facts. */
  lemma {:induction false} GroupsDetermine(a: seq<Fact>, b: seq<Fact>)
    requires forall k: string :: Group(a, k) == Group(b, k)
    ensures multiset(a) == multiset(b)
  {
    forall f: Fact ensures multiset(a)[f] == multiset(b)[f] {
      GroupCounts(a, f);
      GroupCounts(b, f);
    }
  }

  lemma {:induction false} SameGroups(a: seq<Fact>, b: seq<Fact>, k: string)
    requires multiset(a) == multiset(b)
    ensures multiset(Group(a, k)) == multiset(Group(b, k))
  {
    hide Group;
    GroupHasKey(a, k);
    GroupHasKey(b, k);
    forall f: Fact ensures multiset(Group(a, k))[f] == multiset(Group(b, k))[f] {
      if f.key == k {
        GroupCounts(a, f);
        GroupCounts(b, f);
      } else {
        assert f !in Group(a, k) && f !in Group(b, k);
      }
    }
  }

  lemma {:induction false} AboveMember(config: Config, facts: seq<Fact>)
    ensures forall f :: f in AboveThreshold(config, facts) <==> f in facts && f.confidence >= config.threshold
  {
    if facts != [] {
      var front, last := facts[..|facts| - 1], facts[|facts| - 1];
      AboveMember(config, front);
      assert facts == front + [last];
    }
  }

  lemma {:induction false} AboveGroup(config: Config, facts: seq<Fact>, k: string)
    ensures Group(AboveThreshold(config, facts), k) == AboveThreshold(config, Group(facts, k))
  {
    if facts != [] {
      hide Group, AboveThreshold;
      var front, last := facts[..|facts| - 1], facts[|facts| - 1];
      AboveGroup(config, front, k);
      assert facts == front + [last];
      GroupOne(front, last, k);
      AboveOne(config, front, last);
      GroupOne(AboveThreshold(config, front), last, k);
      AboveOne(config, Group(front, k), last);
    }
  }

  lemma {:induction false} AboveTwice(config: Config, facts: seq<Fact>)
    requires forall f :: f in facts ==> f.confidence >= config.threshold
    ensures AboveThreshold(config, facts) == facts
  {
    if facts != [] {
      var front, last := facts[..|facts| - 1], facts[|facts| - 1];
      assert last in facts && facts == front + [last];
      AboveTwice(config, front);
    }
  }

  // ---- Single mode ------------------------------------------------------------------------

  /** The index of `Best`: nothing is more confident, and everything after it is less. */
  lemma {:induction false} BestIsLastMaximum(group: seq<Fact>) returns (i: nat)
    requires group != []
    ensures i < |group| && group[i] == Best(group)
    ensures forall j :: 0 <= j < |group| ==> group[j].confidence <= group[i].confidence
    ensures forall j :: i < j < |group| ==> group[j].confidence < group[i].confidence
  {
    i := |group| - 1;
    if |group| > 1 {
      var j := BestIsLastMaximum(group[..i]);
      assert group[..i][j] == group[j];
      if group[i].confidence < group[j].confidence {
        i := j;
      }
    }
  }

  lemma {:induction false} BestIsUnique(group: seq<Fact>, i: nat)
    requires i < |group|
    requires forall j :: 0 <= j < |group| ==> group[j].confidence <= group[i].confidence
    requires forall j :: i < j < |group| ==> group[j].confidence < group[i].confidence
    ensures group[i] == Best(group)
  {
    var b := BestIsLastMaximum(group);
  }

  /** A key in single mode survives at most once, as its last most confident fact. */
  lemma {:induction false} SingleModeKeepsBest(config: Config, facts: seq<Fact>, out: seq<Fact>, k: string)
    requires IsNormalisation(config, facts, out)
    requires Group(facts, k) != [] && !IsMulti(config, Group(facts, k))
    ensures Group(out, k) ==
            if Best(Group(facts, k)).confidence >= config.threshold then [Best(Group(facts, k))] else []
  {
    hide Group, Best, AboveThreshold;
    assert Group(out, k) == Kept(config, Group(facts, k));
    OneAbove(config, Best(Group(facts, k)));
  }

  // ---- Filtering commutes with deduplication ------------------------------------------------

  lemma {:induction false} BestOfFiltered(config: Config, group: seq<Fact>)
    requires group != []
    ensures AboveThreshold(config, group) == [] <==> Best(group).confidence < config.threshold
    ensures AboveThreshold(config, group) != [] ==> Best(AboveThreshold(config, group)) == Best(group)
  {
    hide Best, AboveThreshold;
    var front, last := group[..|group| - 1], group[|group| - 1];
    assert group == front + [last];
    AboveOne(config, front, last);
    BestOne(front, last);
    BestOne(AboveThreshold(config, front), last);
    if front == [] {
      NoFacts(config);
    } else {
      BestOfFiltered(config, front);
    }
  }

  /** Filtering a group first, or last, comes to the same exactly unless it changes the mode of several facts. */
  lemma {:induction false} GroupCommutes(config: Config, group: seq<Fact>)
    ensures var above := AboveThreshold(config, group);
            Survivors(config, above) == Kept(config, group) <==>
            |above| <= 1 || (IsMulti(config, above) <==> IsMulti(config, group))
  {
    hide AboveThreshold, Best;
    var above := AboveThreshold(config, group);
    if group == [] {
      assert above == [] by { AboveMember(config, group); NoFacts(config); }
    } else {
      BestOfFiltered(config, group);
      OneAbove(config, Best(group));
      if |above| == 1 {
        OnlyBest(above);
      }
    }
  }

  lemma {:induction false} NoFacts(config: Config)
    ensures AboveThreshold(config, []) == []
  {
  }

  lemma {:induction false} OneAbove(config: Config, f: Fact)
    ensures AboveThreshold(config, [f]) == if f.confidence >= config.threshold then [f] else []
  {
    assert [f][..0] == [];
  }

  lemma {:induction false} OnlyBest(group: seq<Fact>)
    requires |group| == 1
    ensures [Best(group)] == group
  {
  }

  /** All facts of one key come from extractors with the same merge mode. */
  ghost predicate Uniform(config: Config, facts: seq<Fact>) {
    forall i, j :: 0 <= i < |facts| && 0 <= j < |facts| && facts[i].key == facts[j].key ==>
      (IsMultiFact(config, facts[i]) <==> IsMultiFact(config, facts[j]))
  }

  lemma {:induction false} UniformGroup(config: Config, facts: seq<Fact>, k: string)
    requires Uniform(config, facts) && Group(facts, k) != []
    ensures forall f :: f in Group(facts, k) ==> (IsMultiFact(config, f) <==> IsMulti(config, Group(facts, k)))
  {
    hide Group;
    GroupHasKey(facts, k);
    assert Group(facts, k)[0] in Group(facts, k);
  }

  /** Filtering the facts of a key does not change the merge mode of several of them. */
  predicate KeepsMode(config: Config, group: seq<Fact>) {
    var above := AboveThreshold(config, group);
    |above| <= 1 || (IsMulti(config, above) <==> IsMulti(config, group))
  }

  lemma {:induction false} FilteredGroup(config: Config, facts: seq<Fact>, first: seq<Fact>, k: string)
    requires IsNormalisation(config, AboveThreshold(config, facts), first)
    ensures Group(first, k) == Survivors(config, AboveThreshold(config, Group(facts, k)))
  {
    hide AboveThreshold, Survivors, Group;
    AboveGroup(config, facts, k);
    SurvivorsStay(config, Group(facts, k));
    assert Group(first, k) == Kept(config, AboveThreshold(config, Group(facts, k)));
  }

  /** Where filtering changes the mode of several facts, it also changes how many of them survive. */
  lemma {:induction false} ModeChangeShows(config: Config, group: seq<Fact>)
    requires !KeepsMode(config, group)
    ensures |Survivors(config, AboveThreshold(config, group))| != |Kept(config, group)|
  {
    hide AboveThreshold, Best;
    if group == [] {
      NoFacts(config);
    } else {
      OneAbove(config, Best(group));
    }
  }

  /**
   Threshold then deduplicate is deduplicate then threshold, as multisets, exactly when for no
   key filtering changes the merge mode of several facts.
   */
  lemma {:induction false} ThresholdCommutesIff(config: Config, facts: seq<Fact>, first: seq<Fact>, last: seq<Fact>)
    requires IsNormalisation(config, AboveThreshold(config, facts), first) && IsNormalisation(config, facts, last)
    ensures multiset(first) == multiset(last) <==> forall k: string :: KeepsMode(config, Group(facts, k))
  {
    hide AboveThreshold, Survivors, Group, Kept, IsMulti, KeepsMode;
    if forall k: string :: KeepsMode(config, Group(facts, k)) {
      forall k: string ensures Group(first, k) == Group(last, k) {
        FilteredGroup(config, facts, first, k);
        ModeKept(config, Group(facts, k));
        assert Group(last, k) == Kept(config, Group(facts, k));
      }
      GroupsDetermine(first, last);
    } else {
      var k: string :| !KeepsMode(config, Group(facts, k));
      FilteredGroup(config, facts, first, k);
      ModeChangeShows(config, Group(facts, k));
      assert Group(last, k) == Kept(config, Group(facts, k));
      if multiset(first) == multiset(last) {
        SameLengths(first, last, k);
      }
    }
  }

  lemma {:induction false} ModeKept(config: Config, group: seq<Fact>)
    requires KeepsMode(config, group)
    ensures Survivors(config, AboveThreshold(config, group)) == Kept(config, group)
  {
    hide AboveThreshold, Survivors, Kept, IsMulti;
    GroupCommutes(config, group);
  }

  lemma {:induction false} SameLengths(a: seq<Fact>, b: seq<Fact>, k: string)
    requires multiset(a) == multiset(b)
    ensures |Group(a, k)| == |Group(b, k)|
  {
    hide Group;
    SameGroups(a, b, k);
    assert |multiset(Group(a, k))| == |Group(a, k)| && |multiset(Group(b, k))| == |Group(b, k)|;
  }

  /** In particular the two commute when the facts of each key share one merge mode. */
  lemma {:induction false} ThresholdCommutes(config: Config, facts: seq<Fact>, first: seq<Fact>, last: seq<Fact>)
    requires Uniform(config, facts)
    requires IsNormalisation(config, AboveThreshold(config, facts), first) && IsNormalisation(config, facts, last)
    ensures multiset(first) == multiset(last)
  {
    hide AboveThreshold, Survivors, Uniform, Group, IsNormalisation, IsMulti;
    forall k: string ensures KeepsMode(config, Group(facts, k)) {
      SameMode(config, facts, k);
    }
    ThresholdCommutesIff(config, facts, first, last);
  }

  lemma {:induction false} SameMode(config: Config, facts: seq<Fact>, k: string)
    requires Uniform(config, facts)
    ensures var group := Group(facts, k); var above := AboveThreshold(config, group);
            |above| <= 1 || (IsMulti(config, above) <==> IsMulti(config, group))
  {
    hide AboveThreshold, Uniform, Group;
    var group := Group(facts, k);
    var above := AboveThreshold(config, group);
    AboveMember(config, group);
    if above != [] {
      assert above[0] in above && above[0] in group;
      UniformGroup(config, facts, k);
    }
  }

  /** Survivors of facts above the threshold are above it. */
  lemma {:induction false} SurvivorsStay(config: Config, group: seq<Fact>)
    ensures var above := AboveThreshold(config, group);
            AboveThreshold(config, Survivors(config, above)) == Survivors(config, above)
  {
    hide AboveThreshold;
    var above := AboveThreshold(config, group);
    AboveMember(config, group);
    if above != [] {
      var i := BestIsLastMaximum(above);
      assert Best(above) in above;
    }
    AboveTwice(config, Survivors(config, above));
  }

  // ---- Idempotence --------------------------------------------------------------------------

  /** A multi group of which several facts are above the threshold is still one after filtering. */
  predicate StaysMulti(config: Config, group: seq<Fact>) {
    var above := AboveThreshold(config, group);
    !IsMulti(config, group) || |above| <= 1 || IsMulti(config, above)
  }

  /**
   Normalising a group again changes nothing exactly unless filtering turns a multi group into a
   single one of several facts.
   */
  lemma {:induction false} GroupIdempotent(config: Config, group: seq<Fact>)
    ensures Kept(config, Kept(config, group)) == Kept(config, group) <==> StaysMulti(config, group)
    ensures !StaysMulti(config, group) ==> |Kept(config, Kept(config, group))| == 1 < |Kept(config, group)|
  {
    hide AboveThreshold, Best, IsMulti;
    var kept := Kept(config, group);
    if group == [] {
      NoFacts(config);
    } else {
      OneAbove(config, Best(group));
      SurvivorsStay(config, Survivors(config, group));
      if |kept| == 1 {
        OnlyBest(kept);
      }
    }
  }

  /** Normalising twice is normalising once exactly when every key stays multi that is. */
  lemma {:induction false} IdempotentIff(config: Config, facts: seq<Fact>, once: seq<Fact>, twice: seq<Fact>)
    requires IsNormalisation(config, facts, once) && IsNormalisation(config, once, twice)
    ensures multiset(twice) == multiset(once) <==> forall k: string :: StaysMulti(config, Group(facts, k))
  {
    hide Kept, Group, StaysMulti;
    if forall k: string :: StaysMulti(config, Group(facts, k)) {
      forall k: string ensures Group(twice, k) == Group(once, k) {
        GroupIdempotent(config, Group(facts, k));
        assert Group(once, k) == Kept(config, Group(facts, k));
        assert Group(twice, k) == Kept(config, Group(once, k));
      }
      GroupsDetermine(twice, once);
    } else {
      var k: string :| !StaysMulti(config, Group(facts, k));
      GroupIdempotent(config, Group(facts, k));
      assert Group(once, k) == Kept(config, Group(facts, k));
      assert Group(twice, k) == Kept(config, Group(once, k));
      if multiset(twice) == multiset(once) {
        SameLengths(twice, once, k);
      }
    }
  }

  /** In particular it is when the facts of each key share one merge mode. */
  lemma {:induction false} Idempotent(config: Config, facts: seq<Fact>, once: seq<Fact>, twice: seq<Fact>)
    requires Uniform(config, facts)
    requires IsNormalisation(config, facts, once) && IsNormalisation(config, once, twice)
    ensures multiset(twice) == multiset(once)
  {
    hide Group, Uniform, IsMulti, IsNormalisation, AboveThreshold;
    forall k: string ensures StaysMulti(config, Group(facts, k)) {
      SameMode(config, facts, k);
    }
    IdempotentIff(config, facts, once, twice);
  }

  /** Without a shared merge mode it may not be: here the first normalisation keeps two facts, the second one. */
  lemma {:induction false} MixedModesNotIdempotent()
    ensures var config := Config(0.5, map["list" := "multi", "one" := "single"]);
            var facts := [Fact("k", "a", [], "list", 0.1), Fact("k", "b", [], "one", 0.6),
                          Fact("k", "c", [], "one", 0.9)];
            Kept(config, Group(facts, "k")) == [facts[1], facts[2]]
            && Kept(config, [facts[1], facts[2]]) == [facts[2]]
  {
    hide Best, AboveThreshold, Group;
    var config := Config(0.5, map["list" := "multi", "one" := "single"]);
    var a, b, c := Fact("k", "a", [], "list", 0.1), Fact("k", "b", [], "one", 0.6), Fact("k", "c", [], "one", 0.9);
    var facts := [a, b, c];
    GroupOfOneKey(facts, "k", "k");
    assert facts == ([a] + [b]) + [c];
    OneAbove(config, a);
    AboveOne(config, [a], b);
    AboveOne(config, [a] + [b], c);
    BestIsUnique([b, c], 1);
    OneAbove(config, c);
  }

  // ---- The normaliser -----------------------------------------------------------------------

  class FactNormalizer {
    const config: Config

    constructor (config: Config)
      ensures this.config == config
    {
      this.config := config;
    }

    method GroupByKey(facts: seq<Fact>) returns (byKey: map<string, seq<Fact>>)
      ensures forall k :: k in byKey ==> byKey[k] == Group(facts, k) && byKey[k] != []
      ensures forall k :: k !in byKey ==> Group(facts, k) == []
    {
      byKey := map[];
      for i := 0 to |facts|
        invariant forall k :: k in byKey ==> byKey[k] == Group(facts[..i], k) && byKey[k] != []
        invariant forall k :: k !in byKey ==> Group(facts[..i], k) == []
      {
        assert facts[..i + 1][..i] == facts[..i];
        var fact := facts[i];
        var group := if fact.key in byKey then byKey[fact.key] else [];
        byKey := byKey[fact.key := group + [fact]];
      }
      assert facts[..|facts|] == facts;
    }

    method MaxByConfidence(group: seq<Fact>) returns (best: Fact)
      requires group != []
      ensures best == Best(group)
    {
      best := group[0];
      assert group[..1] == [group[0]];
      for i := 1 to |group|
        invariant best == Best(group[..i])
      {
        assert group[..i + 1][..i] == group[..i];
        if group[i].confidence >= best.confidence {
          best := group[i];
        }
      }
      assert group[..|group|] == group;
    }

    method Filter(facts: seq<Fact>) returns (kept: seq<Fact>)
      ensures kept == AboveThreshold(config, facts)
    {
      kept := [];
      for i := 0 to |facts|
        invariant kept == AboveThreshold(config, facts[..i])
      {
        assert facts[..i + 1][..i] == facts[..i];
        if facts[i].confidence >= config.threshold {
          kept := kept + [facts[i]];
        }
      }
      assert facts[..|facts|] == facts;
    }

    /** Whatever the order in which the keys are visited, each key keeps exactly what its group calls for. */
    method Normalize(facts: seq<Fact>) returns (out: seq<Fact>)
      ensures IsNormalisation(config, facts, out)
    {
      hide Group, Best, AboveThreshold;
      var byKey := GroupByKey(facts);
      var keys := byKey.Keys;
      var result: seq<Fact> := [];
      forall k ensures Group(result, k) == [] {
        GroupOfOneKey(result, k, k);
      }
      while keys != {}
        invariant keys <= byKey.Keys
        invariant forall k: string ::
          Group(result, k) == if k in byKey && k !in keys then Survivors(config, Group(facts, k)) else []
        decreases |keys|
      {
        var key :| key in keys;
        keys := keys - {key};
        var group := byKey[key];
        var kept := group;
        if !IsMultiFact(config, group[0]) {
          var best := MaxByConfidence(group);
          kept := [best];
        }
        VisitKey(config, facts, result, key, kept);
        result := result + kept;
      }
      out := Filter(result);
      forall k: string ensures Group(out, k) == Kept(config, Group(facts, k)) {
        AboveGroup(config, result, k);
      }
    }
  }

  lemma {:induction false} VisitKey(config: Config, facts: seq<Fact>, result: seq<Fact>, key: string, kept: seq<Fact>)
    requires Group(facts, key) != [] && kept == Survivors(config, Group(facts, key))
    ensures forall k: string ::
              Group(result + kept, k) == if k == key then Group(result, k) + kept else Group(result, k)
  {
    hide Group, Best;
    GroupHasKey(facts, key);
    var i := BestIsLastMaximum(Group(facts, key));
    assert Best(Group(facts, key)) in Group(facts, key);
    forall k: string ensures Group(result + kept, k) == if k == key then Group(result, k) + kept else Group(result, k) {
      GroupAppend(result, kept, k);
      GroupOfOneKey(kept, k, key);
    }
  }
}
