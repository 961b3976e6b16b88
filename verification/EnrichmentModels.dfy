/** The data of the enrichment pipeline: facts, extractor configurations and enrichers. */
module EnrichmentModels {
  import opened Wrappers

  /** A compiled regular expression; compiling the same pattern again gives an equal one. */
  datatype Regex = Regex(pattern: string)

  datatype Policy = Policy(
    strict: bool, allowFlags: bool, allowOptions: bool, allowTargets: bool,
    maxTokens: nat, maxInputLen: nat, goalMap: Option<map<string, string>>)

  const DEFAULT_POLICY := Policy(true, true, true, true, 64, 4096, None)

  datatype ExtractorConfig = ExtractorConfig(
    id: string, extractorType: string, pattern: string, factKey: string, mergeMode: string, policy: Option<Policy>)

  datatype Enricher = Enricher(id: string, matchPatterns: seq<string>, enabled: bool, extractors: seq<ExtractorConfig>)

  datatype Fact = Fact(key: string, value: string, tags: seq<string>, sourceExtractor: string, confidence: real)

  /** A pattern that was compiled when the catalog was loaded. */
  datatype ValidatedPattern = ValidatedPattern(
    regex: Regex, patternStr: string, factKey: string, extractorId: string, mergeMode: string, extractorType: string)

  datatype Extractor =
    | RegexExtractor(name: string, regex: Regex, factKey: string, mergeMode: string)
    | GlobExtractor(name: string, pattern: string, factKey: string, mergeMode: string)
    | CommandExtractor(name: string, policy: Policy)

  /** The regex engine, and what each extractor finds in the operation at hand. */
  datatype Engine = Engine(
    isValid: string -> bool,
    isMatch: (Regex, string) -> bool,
    extract: Extractor -> seq<Fact>)
  {
    function Compile(pattern: string): Option<Regex> {
      if isValid(pattern) then Some(Regex(pattern)) else None
    }
  }
}
