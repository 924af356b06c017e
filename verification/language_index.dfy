/**
 * The language index as objects: a builder that collects the supported
 * pairs and the rules, and the index it builds, which answers mapping
 * requests and remembers every successful answer in a cache that only
 * grows. Each scan is a loop proved against the functions of module
 * Resolution.
 */
module Index {
  import opened Wrappers
  import opened Languages
  import opened Grouping
  import opened Resolution

  /** The outcome of registering a rule: accepted, or IllegalArgumentException. */
  datatype Status = Ok | IllegalArgument(language: Language)

  /** The (key, entry) that registering each pair files in the index. */
  function Keyed(pairs: seq<LanguagePair>): seq<(LanguageKey, Entry)> {
    seq(|pairs|, i requires 0 <= i < |pairs| => (KeyOf(pairs[i]), EntryOf(pairs[i])))
  }

  /** Filing one more pair keeps the index describing exactly the supported pairs. */
  lemma AddKeepsIndexWellFormed(index: map<LanguageKey, seq<Entry>>, languages: set<LanguagePair>, p: LanguagePair)
    requires IndexWellFormed(index, languages)
    ensures IndexWellFormed(AppendAt(index, KeyOf(p), EntryOf(p)), languages + {p})
  {
    var index': map<LanguageKey, seq<Entry>> := AppendAt(index, KeyOf(p), EntryOf(p));
    forall k, i | k in index' && 0 <= i < |index'[k]|
      ensures index'[k][i] == EntryOf(index'[k][i].pair)
      ensures KeyOf(index'[k][i].pair) == k
      ensures index'[k][i].pair in languages + {p}
    {
      assert index'[k] == Lookup(index', k);
      if k != KeyOf(p) || i < |Lookup(index, k)| {
        assert index'[k][i] == index[k][i];
      }
    }
    forall x | x in languages + {p} ensures EntryOf(x) in Lookup(index', KeyOf(x)) {
      if x != p {
        assert EntryOf(x) in Lookup(index, KeyOf(x));
      }
    }
  }

  /** Registering one more pair extends the set and files its entry last under its key. */
  lemma RegisterPair(added: seq<LanguagePair>, pair: LanguagePair)
    ensures (set p | p in added + [pair]) == (set p | p in added) + {pair}
    ensures Group(Keyed(added + [pair])) == AppendAt(Group(Keyed(added)), KeyOf(pair), EntryOf(pair))
  {
    assert Keyed(added + [pair]) == Keyed(added) + [(KeyOf(pair), EntryOf(pair))];
    assert Keyed(added + [pair])[..|added|] == Keyed(added);
  }

  class Builder {
    var languages: set<LanguagePair>
    var index: map<LanguageKey, seq<Entry>>
    var rules: map<string, seq<Rule>>
    /** Every pair passed to Add, in call order. */
    ghost var added: seq<LanguagePair>
    /** Every accepted rule with the code it was filed under, in call order. */
    ghost var ruleLog: seq<(string, Rule)>

    ghost predicate Valid()
      reads this
    {
      languages == (set p | p in added) &&
      index == Group(Keyed(added)) &&
      rules == Group(ruleLog) &&
      IndexWellFormed(index, languages)
    }

    constructor ()
      ensures Valid()
      ensures added == [] && ruleLog == []
      ensures languages == {} && index == map[] && rules == map[]
    {
      languages, index, rules := {}, map[], map[];
      added, ruleLog := [], [];
    }

    /** Registers a supported pair: it joins the set and its entry goes last under its key. */
    method Add(pair: LanguagePair)
      requires Valid()
      modifies this
      ensures Valid()
      ensures added == old(added) + [pair] && ruleLog == old(ruleLog)
      ensures languages == old(languages) + {pair}
      ensures |languages| == |old(languages)| + (if pair in old(languages) then 0 else 1)
      ensures index == AppendAt(old(index), KeyOf(pair), EntryOf(pair))
      ensures rules == old(rules)
    {
      AddKeepsIndexWellFormed(index, languages, pair);
      RegisterPair(added, pair);
      languages := languages + {pair};
      index := AppendAt(index, KeyOf(pair), EntryOf(pair));
      added := added + [pair];
    }

    /**
     * Registers a rule for a bare code: a `language` with a region is
     * refused and nothing changes; otherwise the rule goes last under the
     * code.
     */
    method AddRule(language: Language, from: Option<Language>, to: Language) returns (status: Status)
      requires Valid()
      modifies this
      ensures Valid()
      ensures status == (if language.region.Some? then IllegalArgument(language) else Ok)
      ensures status.Ok? ==> rules == AppendAt(old(rules), language.code, MakeRule(from, to)) &&
                             ruleLog == old(ruleLog) + [(language.code, MakeRule(from, to))]
      ensures status.IllegalArgument? ==> rules == old(rules) && ruleLog == old(ruleLog)
      ensures languages == old(languages) && index == old(index) && added == old(added)
    {
      if language.region.Some? {
        return IllegalArgument(language);
      }
      var rule := MakeRule(from, to);
      assert (ruleLog + [(language.code, rule)])[..|ruleLog|] == ruleLog;
      rules := AppendAt(rules, language.code, rule);
      ruleLog := ruleLog + [(language.code, rule)];
      return Ok;
    }

    /** A rule with no `from` tag: it rewrites every tag filed under the code. */
    method AddWildcardRule(language: Language, to: Language) returns (status: Status)
      requires Valid()
      modifies this
      ensures Valid()
      ensures status == (if language.region.Some? then IllegalArgument(language) else Ok)
      ensures status.Ok? ==> rules == AppendAt(old(rules), language.code, Rule(Wildcard, to)) &&
                             ruleLog == old(ruleLog) + [(language.code, Rule(Wildcard, to))]
      ensures status.IllegalArgument? ==> rules == old(rules) && ruleLog == old(ruleLog)
      ensures languages == old(languages) && index == old(index) && added == old(added)
    {
      status := AddRule(language, None, to);
    }

    method Build() returns (li: LanguageIndex)
      requires Valid()
      ensures fresh(li) && li.Valid()
      ensures li.languages == languages && li.index == index && li.rules == rules
      ensures li.skip == SkipSet(languages) && li.cache == map[]
      ensures IndexWellFormed(li.index, li.languages)
    {
      li := new LanguageIndex(languages, index, rules);
    }
  }

  class LanguageIndex {
    const languages: set<LanguagePair>
    const index: map<LanguageKey, seq<Entry>>
    const rules: map<string, seq<Rule>>
    /** rulesSkipList */
    const skip: set<Language>
    /** mappingCache */
    var cache: map<LanguagePair, CacheEntry>

    ghost predicate Valid()
      reads this
    {
      skip == SkipSet(languages) && CacheConsistent(skip, rules, index, cache)
    }

    constructor (languages: set<LanguagePair>, index: map<LanguageKey, seq<Entry>>, rules: map<string, seq<Rule>>)
      ensures Valid()
      ensures this.languages == languages && this.index == index && this.rules == rules
      ensures skip == SkipSet(languages) && cache == map[]
    {
      // Every regioned source and target tag of a supported pair is skip-listed.
      var s: set<Language> := {};
      var remaining := languages;
      ghost var visited: set<LanguagePair> := {};
      while remaining != {}
        invariant visited + remaining == languages
        invariant s == SkipSet(visited)
        decreases |remaining|
      {
        var p :| p in remaining;
        SkipSetAdd(visited, p);
        if p.source.region.Some? {
          s := s + {p.source};
        }
        if p.target.region.Some? {
          s := s + {p.target};
        }
        remaining := remaining - {p};
        visited := visited + {p};
      }
      this.languages := languages;
      this.index := index;
      this.rules := rules;
      skip := s;
      cache := map[];
    }

    /** The number of distinct supported pairs. */
    function Size(): nat {
      |languages|
    }

    /** The sole supported pair, if there is exactly one. */
    method AsSingleLanguagePair() returns (r: Option<LanguagePair>)
      ensures r.Some? <==> Size() == 1
      ensures r.Some? ==> languages == {r.value}
    {
      if Size() == 1 {
        var p :| p in languages;
        assert |languages - {p}| == 0;
        r := Some(p);
      } else {
        r := None;
      }
    }

    /** transform(Language): the first rule in registration order that accepts the tag wins. */
    method TransformTag(language: Language) returns (r: Option<Language>)
      ensures r == Rewrite(skip, rules, language)
    {
      if language in skip {
        return None;
      }
      if language.code in rules {
        var candidates := rules[language.code];
        var i := 0;
        while i < |candidates|
          invariant 0 <= i <= |candidates|
          invariant forall j :: 0 <= j < i ==> !RuleMatches(candidates[j], language)
        {
          if RuleMatches(candidates[i], language) {
            FirstRuleAt(candidates, language, i);
            return Some(candidates[i].to);
          }
          i := i + 1;
        }
      }
      assert NoRuleMatches(Lookup(rules, language.code), language);
      return if language.region.None? then None else Some(language.Bare());
    }

    /** transform(LanguagePair): each side independently. */
    method Transform(pair: LanguagePair) returns (q: LanguagePair)
      ensures q == Normalize(skip, rules, pair)
    {
      var source := TransformTag(pair.source);
      var target := TransformTag(pair.target);
      if source.None? && target.None? {
        return pair;
      }
      q := LanguagePair(source.GetOr(pair.source), target.GetOr(pair.target));
    }

    /** search(pair): the first entry under the transformed pair's key that accepts it. */
    method Search(pair: LanguagePair) returns (r: Option<CacheEntry>)
      ensures r == Resolve(skip, rules, index, pair)
    {
      var q := Transform(pair);
      var key := KeyOf(q);
      if key !in index {
        return None;
      }
      var entries := index[key];
      var i := 0;
      while i < |entries|
        invariant 0 <= i <= |entries|
        invariant forall j :: 0 <= j < i ==> !EntryMatches(entries[j], q)
      {
        if EntryMatches(entries[i], q) {
          FirstEntryAt(entries, q, i);
          return Some(CacheEntry(q, entries[i].pair));
        }
        i := i + 1;
      }
      assert NoEntryMatches(entries, q);
      return None;
    }

    /**
     * map(pair, mask): answers from the cache, or searches and caches the
     * result when one is found. A failed search leaves the cache as it was.
     */
    method Map(pair: LanguagePair, mask: bool) returns (r: Option<LanguagePair>)
      requires Valid()
      modifies this
      ensures Valid()
      ensures r == Mapped(skip, rules, index, pair, mask)
      ensures IndexWellFormed(index, languages) && mask && r.Some? ==> r.value in languages
      ensures cache == if pair in old(cache) then old(cache)
                       else match Resolve(skip, rules, index, pair)
                            case None => old(cache)
                            case Some(e) => old(cache)[pair := e]
    {
      var cached: Option<CacheEntry>;
      if pair in cache {
        cached := Some(cache[pair]);
      } else {
        cached := Search(pair);
        if cached.Some? {
          cache := cache[pair := cached.value];
        }
      }
      if IndexWellFormed(index, languages) {
        ResolvedIsSupported(languages, index, skip, rules, pair);
      }
      if cached.None? {
        return None;
      }
      return Some(if mask then cached.value.masked else cached.value.normalized);
    }

    /**
     * mapIgnoringDirection(pair, mask): a cached answer for the pair, then
     * the reversed cached answer for the reversed pair, then map(pair), then
     * map of the reversed pair, reversed.
     */
    method MapIgnoringDirection(pair: LanguagePair, mask: bool) returns (r: Option<LanguagePair>)
      requires Valid()
      modifies this
      ensures Valid()
      ensures r == MappedIgnoringDirection(skip, rules, index, old(cache), pair, mask)
      ensures IndexWellFormed(index, languages) && mask && r.Some? ==>
        r.value in languages || r.value.Reversed() in languages
      ensures cache == if pair in old(cache) || pair.Reversed() in old(cache) then old(cache)
                       else match Resolve(skip, rules, index, pair)
                            case Some(e) => old(cache)[pair := e]
                            case None =>
                              match Resolve(skip, rules, index, pair.Reversed())
                              case None => old(cache)
                              case Some(e) => old(cache)[pair.Reversed() := e]
    {
      if IndexWellFormed(index, languages) {
        IgnoringDirectionSupported(languages, index, skip, rules, cache, pair);
      }
      if pair in cache {
        var cached := cache[pair];
        return Some(if mask then cached.masked else cached.normalized);
      }
      if pair.Reversed() in cache {
        var cached := cache[pair.Reversed()];
        return Some((if mask then cached.masked else cached.normalized).Reversed());
      }
      r := Map(pair, mask);
      if r.None? {
        r := Map(pair.Reversed(), mask);
        if r.Some? {
          r := Some(r.value.Reversed());
        }
      }
    }
  }
}
