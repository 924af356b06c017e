# Language pair index — a Dafny model

This project models the language index of ModernMT's translation engine
(`eu.modernmt.lang.LanguageIndex`). The index holds a fixed set of
supported translation directions (language pairs such as `en > it` or
`en-US > it`). It maps any requested pair onto one of them, or onto nothing
when the pair is unsupported.

- **Builder.** A builder collects the supported pairs and the rewriting
  rules. Each pair joins a set, and its entry (the pair plus one matcher per
  side) goes last in the list kept under the pair's bare key (its two codes
  without regions). Each rule goes last in the list kept under a bare
  language code. A rule filed under a regioned tag is refused.
- **Construction.** Building the index computes the skip list: every
  regioned tag that is a side of a supported pair.
- **Transform.** Each side of a request is transformed on its own:
  - a skip-listed tag stays as it is;
  - otherwise the first rule filed under the tag's code that accepts the
    tag supplies the new tag;
  - otherwise a regioned tag falls back to its bare code.
- **Search.** Search takes the transformed pair and scans the entries under
  its bare key in registration order. The first entry whose two matchers
  accept the pair wins. A wildcard matcher accepts any tag; an exact matcher
  accepts only its own tag.
- **map.** `map` answers from a cache. A cache miss runs the search, and
  the result is cached only when one was found.
- **mapIgnoringDirection.** It also tries the reversed pair, consulting the
  cache for the pair and then for its reverse before it searches.

Files:

- `wrappers.dfy`: `Option`, which stands for Java's nullable references.
- `languages.dfy`: the `Language` and `LanguagePair` value types.
- `grouping.dfy`: the builder's `computeIfAbsent(key, …).add(value)` as
  functions on `map<K, seq<V>>`, and the lemma that the lists keep
  registration order.
- `resolution.dfy`: the read-only part, as functions with first-match
  characterisations and lemmas:
  - keys, matchers, entries, rules, cache entries;
  - the rule and entry scans, transform and search;
  - the skip set;
  - the result of `mapIgnoringDirection` for a given cache.
- `language_index.dfy`: the imperative part.
  - `Builder` holds the mutable set and maps.
  - `LanguageIndex` holds the constant tables and the mutable cache. Its
    constructor fills the skip set in a loop over the supported pairs. Its
    transform and search methods are loops proved equal to the functions of
    `resolution.dfy`.
  - The object invariant says that every cached entry is exactly what a
    fresh search of its key finds.
- `scenarios.dfy`: concrete builder/index runs with their exact answers.

`LanguageIndex.Size` returns the number of distinct supported pairs. It has
no contract of its own. What it counts is stated by `Builder.Add`: adding a
pair already present leaves the set's size unchanged. `AddSamePairTwice`
shows the same thing on concrete values. The supported set itself
(`getLanguages`) is the constant field `languages`.

A reader might expect every supported pair to map to itself, both
normalized and masked. The code guarantees neither half:
- An entry registered earlier under the same bare key may accept the pair
  first. This breaks the masked half. In `Scenarios.RegistrationOrderWins`,
  `en > it` is registered before `en-US > it`, and the request
  `en-US > it` is normalized to itself but masked to `en > it`.
- A rule filed under the code of a region-free side rewrites that side.
  This breaks the normalized half, and can make the pair unfindable. With
  `en > it` supported, a wildcard rule `en -> en-US` normalizes the request
  `en > it` to `en-US > it`, though it is still masked to `en > it`
  (`Scenarios.RuleRewritesSupportedPair`). A wildcard rule `en -> fr`
  leaves `en > it` with no mapping at all
  (`Scenarios.RuleHidesSupportedPair`).

The model follows the code. `Resolution.RegisteredPairResolves` proves what
does hold: when no rule applies to the pair's region-free sides, the pair is
left unchanged by the transform, it is always found, and its normalized
answer is itself.

## Model

| member | source | states |
|---|---|---|
| `Grouping.AppendAt` | src/commons/src/main/java/eu/modernmt/lang/LanguageIndex.java:18-19 | `computeIfAbsent(k).add(v)`: the key becomes present, `v` is appended after the old list under `k`, and every other key's list is unchanged |
| `Grouping.GroupLookup` | src/commons/src/main/java/eu/modernmt/lang/LanguageIndex.java:14-35 | the list under a key is exactly the values filed under it, oldest first; a key is present iff something was filed under it (so entry and rule lists keep registration order) |
| `Resolution.MatcherFor` | src/commons/src/main/java/eu/modernmt/lang/LanguageIndex.java:266-276 | the matcher is a wildcard iff the tag has no region; it accepts a tag iff the registered tag is region-free or the tags are equal |
| `Resolution.EntryOf` | src/commons/src/main/java/eu/modernmt/lang/LanguageIndex.java:213-229 | an entry keeps its pair and accepts a request iff each side is region-free in the registered pair or equal to the request's side |
| `Resolution.MakeRule` | src/commons/src/main/java/eu/modernmt/lang/LanguageIndex.java:239-254 | a rule substitutes `to` and accepts a tag iff it has no `from` tag or the tag equals `from` |
| `Resolution.FirstRule` | src/commons/src/main/java/eu/modernmt/lang/LanguageIndex.java:158-163 | finds nothing iff no rule accepts the tag; otherwise returns the target of the first accepting rule in list order |
| `Resolution.FirstRuleAt` | src/commons/src/main/java/eu/modernmt/lang/LanguageIndex.java:159-162 | when position `i` is the first accepting rule, the scan answers that rule's target |
| `Resolution.FirstEntry` | src/commons/src/main/java/eu/modernmt/lang/LanguageIndex.java:129-132 | finds nothing iff no entry accepts the pair; otherwise returns the first accepting entry in registration order |
| `Resolution.FirstEntryAt` | src/commons/src/main/java/eu/modernmt/lang/LanguageIndex.java:129-132 | when position `i` is the first accepting entry, the scan answers that entry |
| `Resolution.SkipSetMembers` | src/commons/src/main/java/eu/modernmt/lang/LanguageIndex.java:62-68 | a tag is skip-listed iff it has a region and is the source or target of a supported pair |
| `Resolution.SkipSetAdd` | src/commons/src/main/java/eu/modernmt/lang/LanguageIndex.java:63-68 | one loop step: the skip set of one more pair is the old one plus that pair's source, then target, each only if regioned |
| `Resolution.Rewrite` | src/commons/src/main/java/eu/modernmt/lang/LanguageIndex.java:152-166 | a skip-listed tag is left alone; otherwise the first rule filed under its code that accepts it supplies the result; otherwise a regioned tag becomes its bare code and a region-free one is left alone |
| `Resolution.Normalize` | src/commons/src/main/java/eu/modernmt/lang/LanguageIndex.java:137-150 | each side of the transformed pair is its own side's transform; the two sides do not interact |
| `Resolution.RewrittenWithoutRules` | src/commons/src/main/java/eu/modernmt/lang/LanguageIndex.java:152-166 | with no rules, a tag is either skip-listed and kept, or reduced to its bare code (region-stripping fallback) |
| `Resolution.ResolveFindsFirstMatch` | src/commons/src/main/java/eu/modernmt/lang/LanguageIndex.java:120-135 | search fails iff no entry under the transformed pair's bare key accepts it; otherwise `normalized` is the transformed pair and `masked` is the pair of the first accepting entry |
| `Resolution.ResolvedIsSupported` | src/commons/src/main/java/eu/modernmt/lang/LanguageIndex.java:120-135 | over an index built from the supported pairs, a found `masked` pair is supported, shares the bare codes of `normalized`, and where it has a region equals `normalized` on that side |
| `Resolution.RegisteredPairResolves` | src/commons/src/main/java/eu/modernmt/lang/LanguageIndex.java:120-166 | a supported pair whose region-free sides have no rules is left unchanged by the transform, is always found, and normalizes to itself |
| `Resolution.IgnoringDirectionCharacterized` | src/commons/src/main/java/eu/modernmt/lang/LanguageIndex.java:85-102 | with a consistent cache: the forward answer when the pair is cached, or when its reverse is not cached and the forward search succeeds; otherwise the reversed answer for the reversed pair (a cached reverse beats a forward match) |
| `Resolution.IgnoringDirectionSupported` | src/commons/src/main/java/eu/modernmt/lang/LanguageIndex.java:85-102 | a masked answer of mapIgnoringDirection is a supported pair or the reverse of one |
| `Index.AddKeepsIndexWellFormed` | src/commons/src/main/java/eu/modernmt/lang/LanguageIndex.java:14-22 | filing a pair's entry under its key keeps every entry a supported pair's entry under that pair's key, and every supported pair indexed |
| `Index.RegisterPair` | src/commons/src/main/java/eu/modernmt/lang/LanguageIndex.java:14-22 | registering one more pair adds it to the set and files its entry last under its key, matching the registration log |
| `Index.Builder.constructor` | src/commons/src/main/java/eu/modernmt/lang/LanguageIndex.java:10-12 | a new builder has no pairs, no entries and no rules |
| `Index.Builder.Add` | src/commons/src/main/java/eu/modernmt/lang/LanguageIndex.java:14-22 | the pair joins the set (size grows by one only if it was new); its entry is appended under its bare key even when the pair was already present; rules unchanged |
| `Index.Builder.AddRule` | src/commons/src/main/java/eu/modernmt/lang/LanguageIndex.java:28-35 | a regioned rule language yields IllegalArgument and changes nothing; otherwise the rule is appended last under the bare code; pairs and entries unchanged |
| `Index.Builder.AddWildcardRule` | src/commons/src/main/java/eu/modernmt/lang/LanguageIndex.java:24-26 | the same as AddRule with no `from` tag: a wildcard rule appended last under the code, or IllegalArgument with nothing changed; pairs and entries unchanged |
| `Index.Builder.Build` | src/commons/src/main/java/eu/modernmt/lang/LanguageIndex.java:37-39 | a fresh index over the builder's pairs, entries and rules, with the skip set of those pairs, an empty cache and a well-formed index |
| `Index.LanguageIndex.constructor` | src/commons/src/main/java/eu/modernmt/lang/LanguageIndex.java:57-71 | the loop over the supported pairs leaves exactly the skip set; the cache starts empty |
| `Index.LanguageIndex.AsSingleLanguagePair` | src/commons/src/main/java/eu/modernmt/lang/LanguageIndex.java:81-83 | answers a pair iff exactly one pair is supported, and then that pair is the whole set |
| `Index.LanguageIndex.TransformTag` | src/commons/src/main/java/eu/modernmt/lang/LanguageIndex.java:152-166 | the rule loop with early return computes `Rewrite` |
| `Index.LanguageIndex.Transform` | src/commons/src/main/java/eu/modernmt/lang/LanguageIndex.java:137-150 | computes `Normalize` |
| `Index.LanguageIndex.Search` | src/commons/src/main/java/eu/modernmt/lang/LanguageIndex.java:120-135 | the entry loop with early return computes `Resolve` |
| `Index.LanguageIndex.Map` | src/commons/src/main/java/eu/modernmt/lang/LanguageIndex.java:113-118 | the answer is the search's, whatever was cached; the cache gains the pair only on a successful miss and never loses or changes an entry; masked answers over a well-formed index are supported pairs |
| `Index.LanguageIndex.MapIgnoringDirection` | src/commons/src/main/java/eu/modernmt/lang/LanguageIndex.java:85-102 | the answer is `MappedIgnoringDirection` of the cache it started from; the new cache is exact: unchanged when the pair or its reverse was cached, otherwise it gains the pair if its search succeeds, else the reverse if that search succeeds, else nothing (at most one key per call); masked answers are supported pairs or their reverses |
| `Scenarios.AddSamePairTwice` | src/commons/src/main/java/eu/modernmt/lang/LanguageIndex.java:14-22 | adding `en > it` twice gives size 1 and two entries under `en > it` |
| `Scenarios.RegionedRuleRejected` | src/commons/src/main/java/eu/modernmt/lang/LanguageIndex.java:28-30 | a rule for `en-US` is refused and no rule list is created |
| `Scenarios.SinglePair` | src/commons/src/main/java/eu/modernmt/lang/LanguageIndex.java:81-83 | one supported pair is returned; with two, nothing |
| `Scenarios.WildcardRuleTables` | src/commons/src/main/java/eu/modernmt/lang/LanguageIndex.java:120-166 | with rule `en -> en-US` and pair `en-US > it`, `en-GB > it` normalizes and masks to `en-US > it` |
| `Scenarios.WildcardRuleSubstitution` | src/commons/src/main/java/eu/modernmt/lang/LanguageIndex.java:113-118 | the same through the builder and `map`, for both values of `mask` |
| `Scenarios.SinglePairTables` | src/commons/src/main/java/eu/modernmt/lang/LanguageIndex.java:120-166 | with only `en > it`, `en-CA > it` resolves to `en > it` and `en > fr` resolves to nothing |
| `Scenarios.RegionStrippingFallback` | src/commons/src/main/java/eu/modernmt/lang/LanguageIndex.java:165 | `en-CA > it` maps to `en > it` through the region fallback |
| `Scenarios.UnsupportedNotCached` | src/commons/src/main/java/eu/modernmt/lang/LanguageIndex.java:113-118 | `en > fr` fails twice and the cache stays empty |
| `Scenarios.TwoRegionsTables` | src/commons/src/main/java/eu/modernmt/lang/LanguageIndex.java:120-135 | with `en-US > it` and `en-GB > it`, `en > it` resolves to nothing |
| `Scenarios.AmbiguousRegions` | src/commons/src/main/java/eu/modernmt/lang/LanguageIndex.java:113-135 | the same through the builder and `map` |
| `Scenarios.GeneralFirstTables` | src/commons/src/main/java/eu/modernmt/lang/LanguageIndex.java:129-132 | with `en > it` registered before `en-US > it`, `en-US > it` resolves with `masked` = `en > it` |
| `Scenarios.RegistrationOrderWins` | src/commons/src/main/java/eu/modernmt/lang/LanguageIndex.java:113-135 | the same through `map`: normalized `en-US > it`, masked `en > it` |
| `Scenarios.RuleOverBareTables` | src/commons/src/main/java/eu/modernmt/lang/LanguageIndex.java:120-166 | with `en > it` supported, a wildcard rule `en -> en-US` turns the request `en > it` into normalized `en-US > it`, masked `en > it`; a rule `en -> fr` leaves it unresolved |
| `Scenarios.RuleRewritesSupportedPair` | src/commons/src/main/java/eu/modernmt/lang/LanguageIndex.java:113-166 | the same through the builder and `map`: a supported pair whose normalized answer is not itself |
| `Scenarios.RuleHidesSupportedPair` | src/commons/src/main/java/eu/modernmt/lang/LanguageIndex.java:113-166 | the same through the builder and `map`: a supported pair that maps to nothing |
| `Scenarios.OppositePairTables` | src/commons/src/main/java/eu/modernmt/lang/LanguageIndex.java:120-135 | with only `it > en`, `en > it` resolves to nothing and `it > en` to itself |
| `Scenarios.ReversedDirection` | src/commons/src/main/java/eu/modernmt/lang/LanguageIndex.java:85-118 | `map(en > it)` fails and is not cached; `mapIgnoringDirection(en > it)` answers `en > it` |
| `Scenarios.CrossedPairsTables` | src/commons/src/main/java/eu/modernmt/lang/LanguageIndex.java:120-135 | with `en > it` and `it > en-US`, `en-US > it` masks to `en > it` and `it > en-US` to itself |
| `Scenarios.ForwardMatchOnFreshIndex` | src/commons/src/main/java/eu/modernmt/lang/LanguageIndex.java:85-102 | on a fresh index `mapIgnoringDirection(en-US > it)` answers its forward match `en > it` |
| `Scenarios.CachedReverseWins` | src/commons/src/main/java/eu/modernmt/lang/LanguageIndex.java:89-91 | after `map(it > en-US)`, `mapIgnoringDirection(en-US > it)` answers the reversed cached `en-US > it` instead of the forward match |
| `Scenarios.IgnoringDirectionCachesItsAnswer` | src/commons/src/main/java/eu/modernmt/lang/LanguageIndex.java:85-102 | `mapIgnoringDirection(it > en-US)` caches its answer, so a later `mapIgnoringDirection(en-US > it)` answers that entry reversed, `en-US > it`, instead of its forward match |

## Left out

- Concurrency of the cache. The `ConcurrentHashMap`'s thread safety and
  its at-most-one-computation-per-key behaviour are not modelled. The cache
  is a sequential map, and each call is one atomic step.
- Shared collections between builder and index. In Java, `build()` hands
  the builder's own set and maps to the index without copying them. Pairs
  or rules registered on the builder after `build()` would show through
  that index, while its skip list would not change. The model's index
  receives the builder's values at `Build` and cannot see later changes.
- Method chaining. The builder's methods return the builder for chaining.
  Here `Add` returns nothing, and `AddRule`/`AddWildcardRule` return a
  `Status` in place of returning or throwing `IllegalArgumentException`.
- Null arguments. Every argument is a non-null value. A null `to` tag
  (which would make a matching rule leave the tag unchanged) and a null
  pair (a `NullPointerException`) are not modelled.
- The protected no-argument constructor, which leaves every field null,
  and `toString`.
- `LanguageKey`'s `hashCode`: only its structural equality is modelled.
- `Language` and `LanguagePair` are not part of this model. They are taken
  to be immutable values with structural equality, where `reversed()`
  swaps the sides and `new Language(code)` has no region.
- `src/Core/src/main/java/eu/modernmt/Engine.java` (the lazily built
  decoder, aligner, processors, context analyzer and vocabulary under one
  lock) is not part of this model. It consists of locking, foreign
  resources and file I/O.
- `SentenceQueryBuilder.java` (Lucene query construction) and
  `speed_test_with_timeline.py` (a decoder timing script) are not part of
  this model.
