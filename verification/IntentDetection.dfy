/** Intent detection with a growing cache of compiled patterns that must not show in the result. */
module IntentDetection {
  import opened Wrappers
  import opened EnrichmentModels

  /** What detection means, without a cache: enabled, and some valid pattern matches the command. */
  predicate Matches(engine: Engine, command: string, e: Enricher) {
    e.enabled && exists i :: 0 <= i < |e.matchPatterns| && PatternMatches(engine, command, e.matchPatterns[i])
  }

  predicate PatternMatches(engine: Engine, command: string, pattern: string) {
    engine.isValid(pattern) && engine.isMatch(Regex(pattern), command)
  }

  function Detected(engine: Engine, command: string, enrichers: seq<Enricher>): seq<Enricher> {
    if enrichers == [] then [] else
      var last := enrichers[|enrichers| - 1];
      Detected(engine, command, enrichers[..|enrichers| - 1]) + if Matches(engine, command, last) then [last] else []
  }

  class IntentDetector {
    const engine: Engine
    var compiled: map<string, Regex>

    ghost predicate Valid()
      reads this
    {
      forall p :: p in compiled ==> engine.Compile(p) == Some(compiled[p])
    }

    constructor (engine: Engine)
      ensures Valid() && this.engine == engine
    {
      this.engine, compiled := engine, map[];
    }

    /** Whatever is in the cache, the answer is that of the regex engine; the cache only grows. */
    method GetOrCompile(pattern: string) returns (r: Option<Regex>)
      requires Valid()
      modifies this
      ensures Valid() && r == engine.Compile(pattern)
      ensures compiled.Keys == old(compiled.Keys) + if engine.isValid(pattern) then {pattern} else {}
    {
      if pattern in compiled {
        return Some(compiled[pattern]);
      }
      r := engine.Compile(pattern);
      if r.Some? {
        compiled := compiled[pattern := r.value];
      }
    }

    /** The short-circuiting test of one enricher's patterns. */
    method AnyMatch(command: string, patterns: seq<string>) returns (found: bool)
      requires Valid()
      modifies this
      ensures Valid() && (found <==> exists i :: 0 <= i < |patterns| && PatternMatches(engine, command, patterns[i]))
    {
      for i := 0 to |patterns|
        invariant Valid() && forall j :: 0 <= j < i ==> !PatternMatches(engine, command, patterns[j])
      {
        var regex := GetOrCompile(patterns[i]);
        if regex.Some? && engine.isMatch(regex.value, command) {
          assert PatternMatches(engine, command, patterns[i]);
          return true;
        }
      }
      found := false;
    }

    /** The matching enrichers in catalog order, the same for every state of the cache. */
    method Detect(command: string, enrichers: seq<Enricher>) returns (matched: seq<Enricher>)
      requires Valid()
      modifies this
      ensures Valid() && matched == Detected(engine, command, enrichers)
    {
      matched := [];
      for i := 0 to |enrichers|
        invariant Valid() && matched == Detected(engine, command, enrichers[..i])
      {
        assert enrichers[..i + 1][..i] == enrichers[..i];
        var active := enrichers[i].enabled;
        if active {
          active := AnyMatch(command, enrichers[i].matchPatterns);
        }
        if active {
          matched := matched + [enrichers[i]];
        }
      }
      assert enrichers[..|enrichers|] == enrichers;
    }
  }

  /**
   Detection keeps exactly the enabled enrichers with a valid pattern that matches, each as often
   as it is listed.
   */
  lemma {:induction false} DetectedAreMatches(engine: Engine, command: string, enrichers: seq<Enricher>, e: Enricher)
    ensures multiset(Detected(engine, command, enrichers))[e] ==
            if e.enabled && exists pattern: string ::
                pattern in e.matchPatterns && engine.isValid(pattern) && engine.isMatch(Regex(pattern), command)
            then multiset(enrichers)[e] else 0
  {
    if enrichers != [] {
      var front, last := enrichers[..|enrichers| - 1], enrichers[|enrichers| - 1];
      DetectedAreMatches(engine, command, front, e);
      assert enrichers == front + [last];
      MatchesByPattern(engine, command, last);
    }
  }

  lemma {:induction false} MatchesByPattern(engine: Engine, command: string, e: Enricher)
    ensures Matches(engine, command, e) <==>
            e.enabled && exists pattern: string ::
              pattern in e.matchPatterns && engine.isValid(pattern) && engine.isMatch(Regex(pattern), command)
  {
    if Matches(engine, command, e) {
      var i :| 0 <= i < |e.matchPatterns| && PatternMatches(engine, command, e.matchPatterns[i]);
      assert e.matchPatterns[i] in e.matchPatterns;
    }
  }

  /** The order of the catalog is kept: detection in two catalogs is detection in both joined. */
  lemma {:induction false} DetectedInOrder(engine: Engine, command: string, a: seq<Enricher>, b: seq<Enricher>)
    ensures Detected(engine, command, a + b) == Detected(engine, command, a) + Detected(engine, command, b)
  {
    hide Matches;
    if b == [] {
      assert a + b == a;
    } else {
      var front, last := b[..|b| - 1], b[|b| - 1];
      DetectedInOrder(engine, command, a, front);
      assert (a + b)[..|a + b| - 1] == a + front;
    }
  }
}
