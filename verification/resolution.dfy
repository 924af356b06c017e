/**
 * The read-only half of the language index: the value types it keeps
 * (index keys, matchers, entries, rules, cache entries) and what resolving
 * a requested pair computes, written as functions. The index class in
 * language_index.dfy runs the same scans as loops and is proved against
 * these functions.
 */
module Resolution {
  import opened Wrappers
  import opened Languages
  import opened Grouping

  /** LanguageKey: the bare codes of a pair; pairs that differ only in region share it. */
  datatype LanguageKey = LanguageKey(source: string, target: string)

  function KeyOf(p: LanguagePair): LanguageKey {
    LanguageKey(p.source.code, p.target.code)
  }

  /** A test on one language tag: accept anything, or accept one tag only. */
  datatype Matcher = Wildcard | Exact(language: Language)

  predicate Accepts(m: Matcher, l: Language) {
    match m
    case Wildcard => true
    case Exact(x) => x == l
  }

  /** Matcher.forLanguage: a region-free tag accepts any tag, a regioned tag only itself. */
  function MatcherFor(l: Language): (m: Matcher)
    ensures m.Wildcard? <==> l.region.None?
    ensures forall x :: Accepts(m, x) <==> l.region.None? || x == l
  {
    if l.region.None? then Wildcard else Exact(l)
  }

  /** LanguageEntry: a registered pair with one matcher per side. */
  datatype Entry = Entry(pair: LanguagePair, source: Matcher, target: Matcher)

  predicate EntryMatches(e: Entry, q: LanguagePair) {
    Accepts(e.target, q.target) && Accepts(e.source, q.source)
  }

  /** LanguageEntry.fromLanguage. */
  function EntryOf(p: LanguagePair): (e: Entry)
    ensures e.pair == p
    ensures forall q :: EntryMatches(e, q) <==>
      (p.source.region.None? || q.source == p.source) &&
      (p.target.region.None? || q.target == p.target)
  {
    Entry(p, MatcherFor(p.source), MatcherFor(p.target))
  }

  /** LanguageRule: a test on the requested tag and the tag to substitute. */
  datatype Rule = Rule(matcher: Matcher, to: Language)

  predicate RuleMatches(r: Rule, l: Language) {
    Accepts(r.matcher, l)
  }

  /** LanguageRule.make: with no `from` tag the rule accepts every tag. */
  function MakeRule(from: Option<Language>, to: Language): (r: Rule)
    ensures r.to == to
    ensures forall x :: RuleMatches(r, x) <==> from.None? || from == Some(x)
  {
    Rule(if from.None? then Wildcard else Exact(from.value), to)
  }

  /** CacheEntry: the transformed request and the registered pair it matched. */
  datatype CacheEntry = CacheEntry(normalized: LanguagePair, masked: LanguagePair)

  /** `map(pair, mask)` hands back the registered pair when `mask` holds, else the transformed request. */
  function Pick(e: CacheEntry, mask: bool): LanguagePair {
    if mask then e.masked else e.normalized
  }

  // ---------------------------------------------------------------------
  // First-match scans

  /** `i` is the first position of `rules` whose rule accepts `l`. */
  predicate FirstMatchingRule(rules: seq<Rule>, l: Language, i: int) {
    0 <= i < |rules| && RuleMatches(rules[i], l) &&
    forall j :: 0 <= j < i ==> !RuleMatches(rules[j], l)
  }

  predicate NoRuleMatches(rules: seq<Rule>, l: Language) {
    forall i :: 0 <= i < |rules| ==> !RuleMatches(rules[i], l)
  }

  /** The target tag of the first rule, in registration order, that accepts `l`. */
  function FirstRule(rules: seq<Rule>, l: Language): (r: Option<Language>)
    ensures r.None? <==> NoRuleMatches(rules, l)
    ensures r.Some? ==> exists i :: FirstMatchingRule(rules, l, i) && r.value == rules[i].to
  {
    if rules == [] then None
    else if RuleMatches(rules[0], l) then
      assert FirstMatchingRule(rules, l, 0);
      Some(rules[0].to)
    else
      var r := FirstRule(rules[1..], l);
      assert r.Some? ==> exists i :: FirstMatchingRule(rules, l, i) && r.value == rules[i].to by {
        if r.Some? {
          var i :| FirstMatchingRule(rules[1..], l, i) && r.value == rules[1..][i].to;
          assert FirstMatchingRule(rules, l, i + 1);
        }
      }
      assert r.None? ==> NoRuleMatches(rules, l) by {
        if r.None? {
          forall i | 0 <= i < |rules| ensures !RuleMatches(rules[i], l) {
            if i > 0 { assert rules[i] == rules[1..][i - 1]; }
          }
        }
      }
      r
  }

  /** The scan's answer is the rule at the first matching position. */
  lemma FirstRuleAt(rules: seq<Rule>, l: Language, i: int)
    requires FirstMatchingRule(rules, l, i)
    ensures FirstRule(rules, l) == Some(rules[i].to)
  {
    var r := FirstRule(rules, l);
    var k :| FirstMatchingRule(rules, l, k) && r.value == rules[k].to;
    assert k == i;
  }

  /** `i` is the first position of `entries` whose entry accepts `q`. */
  predicate FirstMatchingEntry(entries: seq<Entry>, q: LanguagePair, i: int) {
    0 <= i < |entries| && EntryMatches(entries[i], q) &&
    forall j :: 0 <= j < i ==> !EntryMatches(entries[j], q)
  }

  predicate NoEntryMatches(entries: seq<Entry>, q: LanguagePair) {
    forall i :: 0 <= i < |entries| ==> !EntryMatches(entries[i], q)
  }

  /** The first entry, in registration order, that accepts `q`. */
  function FirstEntry(entries: seq<Entry>, q: LanguagePair): (r: Option<Entry>)
    ensures r.None? <==> NoEntryMatches(entries, q)
    ensures r.Some? ==> exists i :: FirstMatchingEntry(entries, q, i) && r.value == entries[i]
  {
    if entries == [] then None
    else if EntryMatches(entries[0], q) then
      assert FirstMatchingEntry(entries, q, 0);
      Some(entries[0])
    else
      var r := FirstEntry(entries[1..], q);
      assert r.Some? ==> exists i :: FirstMatchingEntry(entries, q, i) && r.value == entries[i] by {
        if r.Some? {
          var i :| FirstMatchingEntry(entries[1..], q, i) && r.value == entries[1..][i];
          assert FirstMatchingEntry(entries, q, i + 1);
        }
      }
      assert r.None? ==> NoEntryMatches(entries, q) by {
        if r.None? {
          forall i | 0 <= i < |entries| ensures !EntryMatches(entries[i], q) {
            if i > 0 { assert entries[i] == entries[1..][i - 1]; }
          }
        }
      }
      r
  }

  /** The scan's answer is the entry at the first matching position. */
  lemma FirstEntryAt(entries: seq<Entry>, q: LanguagePair, i: int)
    requires FirstMatchingEntry(entries, q, i)
    ensures FirstEntry(entries, q) == Some(entries[i])
  {
    var r := FirstEntry(entries, q);
    var k :| FirstMatchingEntry(entries, q, k) && r.value == entries[k];
    assert k == i;
  }

  // ---------------------------------------------------------------------
  // Skip set

  /**
   * The constructor's rulesSkipList: every regioned tag that is the source
   * or the target of a supported pair.
   */
  function SkipSet(languages: set<LanguagePair>): set<Language> {
    (set p | p in languages && p.source.region.Some? :: p.source) +
    (set p | p in languages && p.target.region.Some? :: p.target)
  }

  /** A tag is skip-listed exactly when it carries a region and is a side of a supported pair. */
  lemma SkipSetMembers(languages: set<LanguagePair>, l: Language)
    ensures l in SkipSet(languages) <==>
      l.region.Some? && exists p :: p in languages && (p.source == l || p.target == l)
  {
  }

  /** One step of the constructor's loop: a tag joins the skip set when it carries a region. */
  function AddIfRegioned(s: set<Language>, l: Language): set<Language> {
    if l.region.Some? then s + {l} else s
  }

  /** The skip set is built one pair at a time, source side first. */
  lemma SkipSetAdd(languages: set<LanguagePair>, p: LanguagePair)
    ensures SkipSet(languages + {p}) == AddIfRegioned(AddIfRegioned(SkipSet(languages), p.source), p.target)
  {
    var a, b := SkipSet(languages + {p}), AddIfRegioned(AddIfRegioned(SkipSet(languages), p.source), p.target);
    forall l | l in a ensures l in b {
      SkipSetMembers(languages + {p}, l);
      var x :| x in languages + {p} && (x.source == l || x.target == l);
      if x != p {
        SkipSetMembers(languages, l);
      }
    }
    forall l | l in b ensures l in a {
      SkipSetMembers(languages + {p}, l);
      SkipSetMembers(languages, l);
    }
  }

  // ---------------------------------------------------------------------
  // Transformation

  /**
   * transform(Language): `None` (Java's null) means "leave the tag as it is".
   * A skip-listed tag is left alone; otherwise the first rule filed under the
   * tag's code that accepts it supplies the result; otherwise a regioned tag
   * falls back to its bare code and a region-free tag is left alone.
   */
  function Rewrite(skip: set<Language>, rules: map<string, seq<Rule>>, l: Language): (r: Option<Language>)
    ensures l in skip ==> r.None?
    ensures l !in skip ==> forall i :: FirstMatchingRule(Lookup(rules, l.code), l, i) ==>
      r == Some(Lookup(rules, l.code)[i].to)
    ensures l !in skip && NoRuleMatches(Lookup(rules, l.code), l) ==>
      r == (if l.region.Some? then Some(l.Bare()) else None)
  {
    if l in skip then None
    else
      var found := FirstRule(Lookup(rules, l.code), l);
      if found.Some? then
        found
      else if l.region.None? then None
      else Some(l.Bare())
  }

  /** The tag that transform(LanguagePair) puts on one side. */
  function Rewritten(skip: set<Language>, rules: map<string, seq<Rule>>, l: Language): Language {
    Rewrite(skip, rules, l).GetOr(l)
  }

  /**
   * transform(LanguagePair): the two sides are transformed independently;
   * when neither changes, the request itself is returned.
   */
  function Normalize(skip: set<Language>, rules: map<string, seq<Rule>>, p: LanguagePair): (q: LanguagePair)
    ensures q.source == Rewritten(skip, rules, p.source)
    ensures q.target == Rewritten(skip, rules, p.target)
  {
    var source := Rewrite(skip, rules, p.source);
    var target := Rewrite(skip, rules, p.target);
    if source.None? && target.None? then p
    else LanguagePair(source.GetOr(p.source), target.GetOr(p.target))
  }

  /**
   * A tag no rule can touch: it carries a region (and so, when it belongs
   * to a supported pair, is skip-listed), or nothing is filed under its code.
   */
  predicate Untouched(rules: map<string, seq<Rule>>, l: Language) {
    l.region.Some? || Lookup(rules, l.code) == []
  }

  /**
   * With no rules at all, every transformed side is either a skip-listed tag
   * or a region-free one: the region-stripping fallback.
   */
  lemma RewrittenWithoutRules(skip: set<Language>, l: Language)
    ensures var x := Rewritten(skip, map[], l);
      (x == l && l in skip) || (x == l.Bare() && l !in skip)
  {
    assert NoRuleMatches(Lookup(map[], l.code), l);
  }

  // ---------------------------------------------------------------------
  // Search

  /**
   * search(pair): transform the request, then take the first entry filed
   * under the transformed pair's bare key that accepts it. A result pairs
   * the transformed request with that entry's registered pair.
   */
  function Resolve(skip: set<Language>, rules: map<string, seq<Rule>>,
                   index: map<LanguageKey, seq<Entry>>, p: LanguagePair): Option<CacheEntry> {
    var q := Normalize(skip, rules, p);
    var key := KeyOf(q);
    if key !in index then None
    else
      match FirstEntry(index[key], q)
      case None => None
      case Some(e) => Some(CacheEntry(q, e.pair))
  }

  /**
   * Search finds nothing exactly when no entry under the transformed pair's
   * key accepts it; otherwise its result is the transformed pair and the
   * registered pair of the first entry that accepts it.
   */
  lemma ResolveFindsFirstMatch(skip: set<Language>, rules: map<string, seq<Rule>>,
                               index: map<LanguageKey, seq<Entry>>, p: LanguagePair)
    ensures var r := Resolve(skip, rules, index, p);
      var q := Normalize(skip, rules, p); var es := Lookup(index, KeyOf(q));
      && (r.None? <==> NoEntryMatches(es, q))
      && (r.Some? ==> r.value.normalized == q &&
                      exists i :: FirstMatchingEntry(es, q, i) && r.value.masked == es[i].pair)
  {
  }

  /**
   * The index was built from the supported pairs: every entry is the entry
   * of a supported pair, filed under that pair's key, and every supported
   * pair has its entry in the index.
   */
  ghost predicate IndexWellFormed(index: map<LanguageKey, seq<Entry>>, languages: set<LanguagePair>) {
    (forall k, i :: k in index && 0 <= i < |index[k]| ==>
      index[k][i] == EntryOf(index[k][i].pair) &&
      KeyOf(index[k][i].pair) == k &&
      index[k][i].pair in languages) &&
    (forall p :: p in languages ==> EntryOf(p) in Lookup(index, KeyOf(p)))
  }

  /**
   * A found pair is a supported pair with the same bare codes as the
   * transformed request, whose regions, where it has any, are the request's.
   */
  lemma ResolvedIsSupported(languages: set<LanguagePair>, index: map<LanguageKey, seq<Entry>>,
                            skip: set<Language>, rules: map<string, seq<Rule>>, p: LanguagePair)
    requires IndexWellFormed(index, languages)
    ensures var r := Resolve(skip, rules, index, p);
      r.Some? ==>
        r.value.masked in languages &&
        KeyOf(r.value.masked) == KeyOf(r.value.normalized) &&
        (r.value.masked.source.region.None? || r.value.masked.source == r.value.normalized.source) &&
        (r.value.masked.target.region.None? || r.value.masked.target == r.value.normalized.target)
  {
    var r := Resolve(skip, rules, index, p);
    ResolveFindsFirstMatch(skip, rules, index, p);
    if r.Some? {
      var q := Normalize(skip, rules, p);
      var es := Lookup(index, KeyOf(q));
      var i :| FirstMatchingEntry(es, q, i) && r.value.masked == es[i].pair;
      assert KeyOf(q) in index;
      assert es[i] == EntryOf(es[i].pair);
      assert EntryMatches(EntryOf(r.value.masked), q);
    }
  }

  /**
   * A supported pair whose region-free sides no rule can rewrite is left as
   * it is by the transformation and is always found; its normalized result
   * is itself. (Its masked result need not be: an entry registered earlier
   * under the same key may accept it first.)
   */
  lemma RegisteredPairResolves(languages: set<LanguagePair>, index: map<LanguageKey, seq<Entry>>,
                               rules: map<string, seq<Rule>>, p: LanguagePair)
    requires IndexWellFormed(index, languages)
    requires p in languages
    requires Untouched(rules, p.source) && Untouched(rules, p.target)
    ensures Normalize(SkipSet(languages), rules, p) == p
    ensures Resolve(SkipSet(languages), rules, index, p).Some?
    ensures Resolve(SkipSet(languages), rules, index, p).value.normalized == p
  {
    var skip := SkipSet(languages);
    if p.source.region.None? {
      assert NoRuleMatches(Lookup(rules, p.source.code), p.source);
    } else {
      assert p.source in skip;
    }
    if p.target.region.None? {
      assert NoRuleMatches(Lookup(rules, p.target.code), p.target);
    } else {
      assert p.target in skip;
    }
    var es := Lookup(index, KeyOf(p));
    assert EntryOf(p) in es;
    var i :| 0 <= i < |es| && es[i] == EntryOf(p);
    assert EntryMatches(es[i], p);
    ResolveFindsFirstMatch(skip, rules, index, p);
  }

  // ---------------------------------------------------------------------
  // Mapping with the cache

  /** Every cached entry is what a fresh search for its key would find. */
  ghost predicate CacheConsistent(skip: set<Language>, rules: map<string, seq<Rule>>,
                                  index: map<LanguageKey, seq<Entry>>, cache: map<LanguagePair, CacheEntry>) {
    forall p :: p in cache ==> Resolve(skip, rules, index, p) == Some(cache[p])
  }

  /** What `map(pair, mask)` answers when no cache is consulted. */
  function Mapped(skip: set<Language>, rules: map<string, seq<Rule>>,
                  index: map<LanguageKey, seq<Entry>>, p: LanguagePair, mask: bool): Option<LanguagePair> {
    match Resolve(skip, rules, index, p)
    case None => None
    case Some(e) => Some(Pick(e, mask))
  }

  /**
   * mapIgnoringDirection(pair, mask) against the cache it starts from:
   * a cached result for the pair; else the reversed cached result for the
   * reversed pair; else the pair's own mapping; else the reversed mapping of
   * the reversed pair.
   */
  function MappedIgnoringDirection(skip: set<Language>, rules: map<string, seq<Rule>>,
                                   index: map<LanguageKey, seq<Entry>>, cache: map<LanguagePair, CacheEntry>,
                                   p: LanguagePair, mask: bool): Option<LanguagePair> {
    if p in cache then Some(Pick(cache[p], mask))
    else if p.Reversed() in cache then Some(Pick(cache[p.Reversed()], mask).Reversed())
    else
      var forward := Mapped(skip, rules, index, p, mask);
      if forward.Some? then forward
      else ReverseOption(Mapped(skip, rules, index, p.Reversed(), mask))
  }

  /**
   * With a consistent cache, the direction-insensitive answer is the
   * forward mapping, except when the pair is not cached and either its
   * reverse is cached or the forward mapping fails: then it is the reversed
   * mapping of the reversed pair. So a cached reverse takes precedence over
   * a forward match.
   */
  lemma IgnoringDirectionCharacterized(skip: set<Language>, rules: map<string, seq<Rule>>,
                                       index: map<LanguageKey, seq<Entry>>,
                                       cache: map<LanguagePair, CacheEntry>,
                                       p: LanguagePair, mask: bool)
    requires CacheConsistent(skip, rules, index, cache)
    ensures MappedIgnoringDirection(skip, rules, index, cache, p, mask) ==
      if p in cache || (p.Reversed() !in cache && Mapped(skip, rules, index, p, mask).Some?)
      then Mapped(skip, rules, index, p, mask)
      else ReverseOption(Mapped(skip, rules, index, p.Reversed(), mask))
  {
    if p in cache {
      assert Resolve(skip, rules, index, p) == Some(cache[p]);
    } else if p.Reversed() in cache {
      assert Resolve(skip, rules, index, p.Reversed()) == Some(cache[p.Reversed()]);
    }
  }

  /**
   * With a consistent cache over a well-formed index, a masked answer of
   * mapIgnoringDirection is a supported pair or the reverse of one.
   */
  lemma IgnoringDirectionSupported(languages: set<LanguagePair>, index: map<LanguageKey, seq<Entry>>,
                                   skip: set<Language>, rules: map<string, seq<Rule>>,
                                   cache: map<LanguagePair, CacheEntry>, p: LanguagePair)
    requires IndexWellFormed(index, languages)
    requires CacheConsistent(skip, rules, index, cache)
    ensures var r := MappedIgnoringDirection(skip, rules, index, cache, p, true);
      r.Some? ==> r.value in languages || r.value.Reversed() in languages
  {
    IgnoringDirectionCharacterized(skip, rules, index, cache, p, true);
    ResolvedIsSupported(languages, index, skip, rules, p);
    ResolvedIsSupported(languages, index, skip, rules, p.Reversed());
    var rev := Resolve(skip, rules, index, p.Reversed());
    if rev.Some? {
      assert rev.value.masked.Reversed().Reversed() == rev.value.masked;
    }
  }
}
