/**
 * Concrete runs of the builder and the index: each method builds a small
 * index through the public operations and states what the mapping calls
 * answer.
 */
module Scenarios {
  import opened Wrappers
  import opened Languages
  import opened Grouping
  import opened Resolution
  import opened Index

  const En := Language("en", None)
  const EnUS := Language("en", Some("US"))
  const EnGB := Language("en", Some("GB"))
  const EnCA := Language("en", Some("CA"))
  const It := Language("it", None)
  const Fr := Language("fr", None)

  /** Registering the same pair twice: one supported pair, two entries under its key. */
  method AddSamePairTwice() returns (size: nat, entries: nat)
    ensures size == 1 && entries == 2
  {
    var b := new Builder();
    b.Add(LanguagePair(En, It));
    b.Add(LanguagePair(En, It));
    var li := b.Build();
    size := li.Size();
    entries := |Lookup(li.index, LanguageKey("en", "it"))|;
  }

  /** A rule filed under a regioned tag is refused and leaves the rules as they were. */
  method RegionedRuleRejected() returns (status: Status, ruleCount: nat)
    ensures status == IllegalArgument(EnUS) && ruleCount == 0
  {
    var b := new Builder();
    status := b.AddWildcardRule(EnUS, EnGB);
    ruleCount := |b.rules|;
  }

  /** With one supported pair, asSingleLanguagePair returns it; with two, nothing. */
  method SinglePair() returns (one: Option<LanguagePair>, two: Option<LanguagePair>)
    ensures one == Some(LanguagePair(En, It)) && two == None
  {
    var b := new Builder();
    b.Add(LanguagePair(En, It));
    var li := b.Build();
    one := li.AsSingleLanguagePair();
    b.Add(LanguagePair(It, En));
    li := b.Build();
    two := li.AsSingleLanguagePair();
  }

  /** The tables of a wildcard rule en -> en-US and the one pair (en-US, it). */
  lemma WildcardRuleTables(languages: set<LanguagePair>, index: map<LanguageKey, seq<Entry>>,
                           rules: map<string, seq<Rule>>)
    requires languages == {LanguagePair(EnUS, It)}
    requires index == AppendAt(map[], LanguageKey("en", "it"), EntryOf(LanguagePair(EnUS, It)))
    requires rules == AppendAt(map[], "en", Rule(Wildcard, EnUS))
    ensures Resolve(SkipSet(languages), rules, index, LanguagePair(EnGB, It))
      == Some(CacheEntry(LanguagePair(EnUS, It), LanguagePair(EnUS, It)))
  {
    var skip := SkipSet(languages);
    SkipSetMembers(languages, EnGB);
    SkipSetMembers(languages, It);
    assert FirstMatchingRule(Lookup(rules, "en"), EnGB, 0);
    assert NoRuleMatches(Lookup(rules, "it"), It);
    assert Normalize(skip, rules, LanguagePair(EnGB, It)) == LanguagePair(EnUS, It);
    assert Lookup(index, LanguageKey("en", "it")) == [EntryOf(LanguagePair(EnUS, It))];
  }

  /**
   * A wildcard rule en -> en-US with the pair (en-US, it): a request for
   * (en-GB, it) is rewritten to (en-US, it) and matches that pair.
   */
  method WildcardRuleSubstitution() returns (normalized: Option<LanguagePair>, masked: Option<LanguagePair>)
    ensures normalized == Some(LanguagePair(EnUS, It))
    ensures masked == Some(LanguagePair(EnUS, It))
  {
    var b := new Builder();
    var _ := b.AddWildcardRule(En, EnUS);
    b.Add(LanguagePair(EnUS, It));
    WildcardRuleTables(b.languages, b.index, b.rules);
    var li := b.Build();
    normalized := li.Map(LanguagePair(EnGB, It), false);
    masked := li.Map(LanguagePair(EnGB, It), true);
  }

  /** The tables of the one pair (en, it) with no rules. */
  lemma SinglePairTables(languages: set<LanguagePair>, index: map<LanguageKey, seq<Entry>>)
    requires languages == {LanguagePair(En, It)}
    requires index == AppendAt(map[], LanguageKey("en", "it"), EntryOf(LanguagePair(En, It)))
    ensures Resolve(SkipSet(languages), map[], index, LanguagePair(EnCA, It))
      == Some(CacheEntry(LanguagePair(En, It), LanguagePair(En, It)))
    ensures Resolve(SkipSet(languages), map[], index, LanguagePair(En, Fr)) == None
  {
    var skip := SkipSet(languages);
    SkipSetMembers(languages, EnCA);
    SkipSetMembers(languages, It);
    SkipSetMembers(languages, En);
    SkipSetMembers(languages, Fr);
    assert NoRuleMatches(Lookup(map[], "en"), EnCA);
    assert NoRuleMatches(Lookup(map[], "en"), En);
    assert NoRuleMatches(Lookup(map[], "it"), It);
    assert NoRuleMatches(Lookup(map[], "fr"), Fr);
    assert Normalize(skip, map[], LanguagePair(EnCA, It)) == LanguagePair(En, It);
    assert Normalize(skip, map[], LanguagePair(En, Fr)) == LanguagePair(En, Fr);
    assert LanguageKey("en", "fr") !in index;
  }

  /** With the pair (en, it) and no rule, a request for (en-CA, it) loses its region and matches. */
  method RegionStrippingFallback() returns (masked: Option<LanguagePair>)
    ensures masked == Some(LanguagePair(En, It))
  {
    var b := new Builder();
    b.Add(LanguagePair(En, It));
    SinglePairTables(b.languages, b.index);
    var li := b.Build();
    masked := li.Map(LanguagePair(EnCA, It), true);
  }

  /** An unsupported request fails every time and never enters the cache. */
  method UnsupportedNotCached() returns (first: Option<LanguagePair>, second: Option<LanguagePair>, cacheSize: nat)
    ensures first == None && second == None && cacheSize == 0
  {
    var b := new Builder();
    b.Add(LanguagePair(En, It));
    SinglePairTables(b.languages, b.index);
    var li := b.Build();
    first := li.Map(LanguagePair(En, Fr), true);
    second := li.Map(LanguagePair(En, Fr), true);
    cacheSize := |li.cache|;
  }

  /** The tables of (en-US, it) and (en-GB, it) with no rules. */
  lemma TwoRegionsTables(languages: set<LanguagePair>, index: map<LanguageKey, seq<Entry>>)
    requires languages == {LanguagePair(EnUS, It), LanguagePair(EnGB, It)}
    requires index == AppendAt(AppendAt(map[], LanguageKey("en", "it"), EntryOf(LanguagePair(EnUS, It))),
                               LanguageKey("en", "it"), EntryOf(LanguagePair(EnGB, It)))
    ensures Resolve(SkipSet(languages), map[], index, LanguagePair(En, It)) == None
  {
    var skip := SkipSet(languages);
    SkipSetMembers(languages, En);
    SkipSetMembers(languages, It);
    assert NoRuleMatches(Lookup(map[], "en"), En) && NoRuleMatches(Lookup(map[], "it"), It);
    assert Normalize(skip, map[], LanguagePair(En, It)) == LanguagePair(En, It);
    var entries := Lookup(index, LanguageKey("en", "it"));
    assert entries == [EntryOf(LanguagePair(EnUS, It)), EntryOf(LanguagePair(EnGB, It))];
    assert NoEntryMatches(entries, LanguagePair(En, It));
  }

  /** With (en-US, it) and (en-GB, it) and no rule, a request for (en, it) cannot pick a region. */
  method AmbiguousRegions() returns (masked: Option<LanguagePair>)
    ensures masked == None
  {
    var b := new Builder();
    b.Add(LanguagePair(EnUS, It));
    b.Add(LanguagePair(EnGB, It));
    TwoRegionsTables(b.languages, b.index);
    var li := b.Build();
    masked := li.Map(LanguagePair(En, It), true);
  }

  /** The tables of (en, it) registered before (en-US, it), with no rules. */
  lemma GeneralFirstTables(languages: set<LanguagePair>, index: map<LanguageKey, seq<Entry>>)
    requires languages == {LanguagePair(En, It), LanguagePair(EnUS, It)}
    requires index == AppendAt(AppendAt(map[], LanguageKey("en", "it"), EntryOf(LanguagePair(En, It))),
                               LanguageKey("en", "it"), EntryOf(LanguagePair(EnUS, It)))
    ensures Resolve(SkipSet(languages), map[], index, LanguagePair(EnUS, It))
      == Some(CacheEntry(LanguagePair(EnUS, It), LanguagePair(En, It)))
  {
    var skip := SkipSet(languages);
    SkipSetMembers(languages, EnUS);
    SkipSetMembers(languages, It);
    assert NoRuleMatches(Lookup(map[], "it"), It);
    assert Normalize(skip, map[], LanguagePair(EnUS, It)) == LanguagePair(EnUS, It);
    assert Lookup(index, LanguageKey("en", "it")) == [EntryOf(LanguagePair(En, It)), EntryOf(LanguagePair(EnUS, It))];
  }

  /**
   * With (en, it) registered before (en-US, it), a request for the
   * supported pair (en-US, it) is masked to (en, it): the first registered
   * entry that accepts the request wins, not the most specific one.
   */
  method RegistrationOrderWins() returns (normalized: Option<LanguagePair>, masked: Option<LanguagePair>)
    ensures normalized == Some(LanguagePair(EnUS, It))
    ensures masked == Some(LanguagePair(En, It))
  {
    var b := new Builder();
    b.Add(LanguagePair(En, It));
    b.Add(LanguagePair(EnUS, It));
    GeneralFirstTables(b.languages, b.index);
    var li := b.Build();
    normalized := li.Map(LanguagePair(EnUS, It), false);
    masked := li.Map(LanguagePair(EnUS, It), true);
  }

  /** The tables of the one pair (en, it) with a wildcard rule for `en` whose target is `to`. */
  lemma RuleOverBareTables(languages: set<LanguagePair>, index: map<LanguageKey, seq<Entry>>,
                           rules: map<string, seq<Rule>>, to: Language)
    requires languages == {LanguagePair(En, It)}
    requires index == AppendAt(map[], LanguageKey("en", "it"), EntryOf(LanguagePair(En, It)))
    requires rules == AppendAt(map[], "en", Rule(Wildcard, to))
    requires to == EnUS || to == Fr
    ensures to == EnUS ==>
      Resolve(SkipSet(languages), rules, index, LanguagePair(En, It))
        == Some(CacheEntry(LanguagePair(EnUS, It), LanguagePair(En, It)))
    ensures to == Fr ==> Resolve(SkipSet(languages), rules, index, LanguagePair(En, It)) == None
  {
    var skip := SkipSet(languages);
    SkipSetMembers(languages, En);
    SkipSetMembers(languages, It);
    assert FirstMatchingRule(Lookup(rules, "en"), En, 0);
    assert NoRuleMatches(Lookup(rules, "it"), It);
    assert Normalize(skip, rules, LanguagePair(En, It)) == LanguagePair(to, It);
    assert Lookup(index, LanguageKey("en", "it")) == [EntryOf(LanguagePair(En, It))];
    assert LanguageKey("fr", "it") !in index;
  }

  /**
   * With the supported pair (en, it) and a wildcard rule en -> en-US, the
   * request (en, it) is rewritten: its normalized answer is (en-US, it),
   * not the pair itself, although its masked answer is.
   */
  method RuleRewritesSupportedPair() returns (normalized: Option<LanguagePair>, masked: Option<LanguagePair>)
    ensures normalized == Some(LanguagePair(EnUS, It))
    ensures masked == Some(LanguagePair(En, It))
  {
    var b := new Builder();
    b.Add(LanguagePair(En, It));
    var _ := b.AddWildcardRule(En, EnUS);
    RuleOverBareTables(b.languages, b.index, b.rules, EnUS);
    var li := b.Build();
    normalized := li.Map(LanguagePair(En, It), false);
    masked := li.Map(LanguagePair(En, It), true);
  }

  /**
   * With the supported pair (en, it) and a wildcard rule en -> fr, the
   * request (en, it) is rewritten to (fr, it), which has no entries: the
   * supported pair itself cannot be mapped.
   */
  method RuleHidesSupportedPair() returns (masked: Option<LanguagePair>)
    ensures masked == None
  {
    var b := new Builder();
    b.Add(LanguagePair(En, It));
    var _ := b.AddWildcardRule(En, Fr);
    RuleOverBareTables(b.languages, b.index, b.rules, Fr);
    var li := b.Build();
    masked := li.Map(LanguagePair(En, It), true);
  }

  /** The tables of the one pair (it, en) with no rules. */
  lemma OppositePairTables(languages: set<LanguagePair>, index: map<LanguageKey, seq<Entry>>)
    requires languages == {LanguagePair(It, En)}
    requires index == AppendAt(map[], LanguageKey("it", "en"), EntryOf(LanguagePair(It, En)))
    ensures Resolve(SkipSet(languages), map[], index, LanguagePair(En, It)) == None
    ensures Resolve(SkipSet(languages), map[], index, LanguagePair(It, En))
      == Some(CacheEntry(LanguagePair(It, En), LanguagePair(It, En)))
  {
    var skip := SkipSet(languages);
    SkipSetMembers(languages, En);
    SkipSetMembers(languages, It);
    assert NoRuleMatches(Lookup(map[], "en"), En) && NoRuleMatches(Lookup(map[], "it"), It);
    assert Normalize(skip, map[], LanguagePair(En, It)) == LanguagePair(En, It);
    assert Normalize(skip, map[], LanguagePair(It, En)) == LanguagePair(It, En);
    assert LanguageKey("en", "it") !in index;
  }

  /**
   * With only (it, en) supported, (en, it) has no mapping of its own, is
   * not cached, and maps ignoring direction to (en, it).
   */
  method ReversedDirection() returns (direct: Option<LanguagePair>, cached: bool, ignoring: Option<LanguagePair>)
    ensures direct == None && !cached
    ensures ignoring == Some(LanguagePair(En, It))
  {
    var b := new Builder();
    b.Add(LanguagePair(It, En));
    OppositePairTables(b.languages, b.index);
    var li := b.Build();
    direct := li.Map(LanguagePair(En, It), true);
    cached := LanguagePair(En, It) in li.cache;
    ignoring := li.MapIgnoringDirection(LanguagePair(En, It), true);
  }

  /** The tables built from (en, it) and then (it, en-US), with no rules. */
  lemma CrossedPairsTables(languages: set<LanguagePair>, index: map<LanguageKey, seq<Entry>>)
    requires languages == {LanguagePair(En, It), LanguagePair(It, EnUS)}
    requires index == AppendAt(AppendAt(map[], LanguageKey("en", "it"), EntryOf(LanguagePair(En, It))),
                               LanguageKey("it", "en"), EntryOf(LanguagePair(It, EnUS)))
    ensures Resolve(SkipSet(languages), map[], index, LanguagePair(EnUS, It))
      == Some(CacheEntry(LanguagePair(EnUS, It), LanguagePair(En, It)))
    ensures Resolve(SkipSet(languages), map[], index, LanguagePair(It, EnUS))
      == Some(CacheEntry(LanguagePair(It, EnUS), LanguagePair(It, EnUS)))
  {
    var skip := SkipSet(languages);
    SkipSetMembers(languages, EnUS);
    SkipSetMembers(languages, It);
    assert NoRuleMatches(Lookup(map[], "it"), It);
    assert Lookup(index, LanguageKey("en", "it")) == [EntryOf(LanguagePair(En, It))];
    assert Lookup(index, LanguageKey("it", "en")) == [EntryOf(LanguagePair(It, EnUS))];
    assert Normalize(skip, map[], LanguagePair(EnUS, It)) == LanguagePair(EnUS, It);
    assert Normalize(skip, map[], LanguagePair(It, EnUS)) == LanguagePair(It, EnUS);
  }

  /**
   * With (en, it) and (it, en-US) supported, (en-US, it) maps ignoring
   * direction to (en, it) on a fresh index: its own forward match.
   */
  method ForwardMatchOnFreshIndex() returns (masked: Option<LanguagePair>)
    ensures masked == Some(LanguagePair(En, It))
  {
    var b := new Builder();
    b.Add(LanguagePair(En, It));
    b.Add(LanguagePair(It, EnUS));
    CrossedPairsTables(b.languages, b.index);
    var li := b.Build();
    masked := li.MapIgnoringDirection(LanguagePair(EnUS, It), true);
  }

  /**
   * The same index once (it, en-US) has been mapped and cached: now
   * (en-US, it) maps ignoring direction to (en-US, it), the reversed cached
   * answer, although its own forward match is (en, it).
   */
  method CachedReverseWins() returns (masked: Option<LanguagePair>)
    ensures masked == Some(LanguagePair(EnUS, It))
  {
    var b := new Builder();
    b.Add(LanguagePair(En, It));
    b.Add(LanguagePair(It, EnUS));
    CrossedPairsTables(b.languages, b.index);
    var li := b.Build();
    var _ := li.Map(LanguagePair(It, EnUS), true);
    assert li.cache == map[LanguagePair(It, EnUS) := CacheEntry(LanguagePair(It, EnUS), LanguagePair(It, EnUS))];
    assert LanguagePair(EnUS, It) !in li.cache;
    assert MappedIgnoringDirection(li.skip, li.rules, li.index, li.cache, LanguagePair(EnUS, It), true)
      == Some(LanguagePair(EnUS, It));
    masked := li.MapIgnoringDirection(LanguagePair(EnUS, It), true);
  }

  /**
   * mapIgnoringDirection caches what it finds: once (it, en-US) has been
   * mapped ignoring direction, a request for (en-US, it) is answered from
   * that cached entry, reversed, rather than by its own forward match.
   */
  method IgnoringDirectionCachesItsAnswer() returns (first: Option<LanguagePair>, second: Option<LanguagePair>)
    ensures first == Some(LanguagePair(It, EnUS))
    ensures second == Some(LanguagePair(EnUS, It))
  {
    var b := new Builder();
    b.Add(LanguagePair(En, It));
    b.Add(LanguagePair(It, EnUS));
    CrossedPairsTables(b.languages, b.index);
    var li := b.Build();
    first := li.MapIgnoringDirection(LanguagePair(It, EnUS), true);
    assert li.cache == map[LanguagePair(It, EnUS) := CacheEntry(LanguagePair(It, EnUS), LanguagePair(It, EnUS))];
    assert LanguagePair(EnUS, It) !in li.cache;
    second := li.MapIgnoringDirection(LanguagePair(EnUS, It), true);
  }
}
