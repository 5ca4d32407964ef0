# Course bundle matcher — a Dafny model

This project models the matching-and-pricing engine of the course bundle
system. A teacher sends a mapping from topic names to resource counts.
The engine keeps the three topics with the highest counts. It then walks
the provider catalog, where each provider offers a `+`-joined bundle of
topics, and quotes a price for every provider whose bundle contains at
least one of those three topics:

- **Pair rule.** Exactly two matches whose ranks, in bundle order, are `i`
  and `i + 1` are quoted at 10% of the two counts added together.
- **Single rule.** In every other case, the first match in bundle order is
  quoted at 20%, 25% or 30% of its count for rank 0, 1 or 2, and 0 for any
  other rank.

Modules, one per part of `app/services/matcher.py`:

- `TopicRanker` (`topic_ranker.dfy`) models `get_top_3_topics`. The
  mapping's items are a sequence in insertion order. `Sort` is a stable
  descending insertion sort, proved to be the only stable descending
  rearrangement of its input. `Top3` then keeps the first three entries.
- `Pricing` (`pricing.dfy`) models `calculate_single_topic_price`.
- `BundleSplit` (`bundle_split.dfy`) models the `str.split("+")` the
  matcher applies to a bundle, with join/split round trips.
- `Schemas` (`schemas.dfy`) holds the `Quote` record.
- `ProviderMatcher` (`provider_matcher.dfy`) models `get_provider_matches`.
  - `GetProviderMatches` is the imperative loop over the catalog, with
    `continue` where the source skips a provider or leaves after the pair
    rule.
  - `MatchBundle` is the inner loop over a bundle.
  - `GetProviderMatches` is proved equal to the functional specification
    `ProviderMatches`, and `MatchBundle` to `Matches`.
  - The lemmas prove the pricing rules, the one-quote-per-matching-provider
    property and the catalog-order property against that specification.
- `MatcherExamples` (`matcher_examples.dfy`) works through the scenarios of
  the repository's tests on the model.

Prices are exact reals.

## Model

| member | source | states |
|---|---|---|
| TopicRanker.Sort | app/services/matcher.py:20 | The result is a permutation of the input (same multiset, same length), its counts never increase, and for every count the entries carrying it keep their input order (a stable sort). |
| TopicRanker.SortUnique | app/services/matcher.py:20 | Any descending rearrangement with the same tie order as the input equals `Sort` of the input, so `Sort` is exactly Python's stable `sorted(..., reverse=True)`. |
| TopicRanker.Top3 | app/services/matcher.py:20 | The ranking has min(3, n) entries for n input items (none for an empty mapping), with counts never increasing. |
| TopicRanker.Top3FromInput | app/services/matcher.py:20 | Every ranked entry is an item of the input, taken at most as often as it occurs there. |
| TopicRanker.Top3IsTopK | app/services/matcher.py:20 | An input item left out of the ranking means the ranking is full (3 entries) and the item's count is at most the third entry's count. |
| TopicRanker.Top3KeepsInputOrder | app/services/matcher.py:20 | For every count, the ranked entries carrying it are a prefix of the input's entries carrying it, in input order (stability at the cut). |
| TopicRanker.Top3DistinctKeys | app/services/matcher.py:20 | A mapping's ranking names every topic at most once. |
| TopicRanker.Top3Idempotent | app/services/matcher.py:20 | Ranking a ranking returns it unchanged. |
| Pricing.SinglePrice | app/services/matcher.py:23-33 | For rank 0, 1 or 2 the price is `count * (20 + 5 * rank) / 100`; for any other rank it is 0 (no failure). |
| Pricing.SinglePriceGrowsWithRank | app/services/matcher.py:27-32 | For a non-negative count the price is non-negative, never falls from rank 0 to rank 2, and never exceeds the count. |
| Pricing.SinglePriceExamples | tests/services/test_matcher.py:21-33 | A count of 100 gives 20, 25 and 30 at ranks 0 to 2, and 0 at rank 3. |
| BundleSplit.Split | app/services/matcher.py:59 | Splitting gives at least one piece, and no piece contains the delimiter. |
| BundleSplit.JoinSplit | app/services/matcher.py:59 | Joining the pieces of any string with the delimiter gives the string back. |
| BundleSplit.SplitJoin | app/services/matcher.py:59 | Splitting the join of one or more delimiter-free topic names gives back exactly those names, in order. |
| BundleSplit.SplitExamples | app/services/matcher.py:59 | `"math+science"` splits into `["math", "science"]`, `"math"` into `["math"]`, and `""` into `[""]`. |
| ProviderMatcher.RankTable | app/services/matcher.py:54 | The rank table of a ranking, built left to right: each topic maps to its count and position, and a later entry for the same topic overwrites an earlier one. |
| ProviderMatcher.RankTableLast | app/services/matcher.py:54 | Every ranked topic is a key of the rank table, and a key maps to the count and position of the last ranked entry carrying it (a later item overwrites an earlier one). |
| ProviderMatcher.RankTableKeys | app/services/matcher.py:54 | The table's keys are exactly the ranked topic names. |
| ProviderMatcher.RankTableAt | app/services/matcher.py:54 | When the ranking names each topic once, the table maps the topic at position `a` to its count and to rank `a`. |
| ProviderMatcher.MatchOf | app/services/matcher.py:64-66 | One piece's contribution to the matches: the piece with its table count and rank if the table has it, nothing otherwise. |
| ProviderMatcher.Matches | app/services/matcher.py:62-66 | There are no more matches than pieces, and every match carries the count and rank the table gives its topic. |
| ProviderMatcher.MatchBundle | app/services/matcher.py:62-66 | The inner loop's `matching_topics` equals `Matches` of the bundle's pieces. |
| ProviderMatcher.MatchedTopics | app/services/matcher.py:62-66 | The matched topic names are exactly the bundle's pieces that are ranked topics, in bundle order, repeats included. |
| ProviderMatcher.MatchesAreRanked | app/services/matcher.py:63-66 | Every match is the ranked entry at its own rank. |
| ProviderMatcher.PairRuleApplies | app/services/matcher.py:73-76 | Holds exactly when there are two matches whose ranks, in bundle order, are `i` and `i + 1`. |
| ProviderMatcher.Price | app/services/matcher.py:72-87 | For at least one match: 10% of the two counts summed when `PairRuleApplies`, otherwise `SinglePrice` of the first match's count at its rank. |
| ProviderMatcher.ProviderQuote | app/services/matcher.py:59-87 | One provider's contribution: no quote when no piece of its split bundle matches, otherwise one quote naming the provider at `Price` of its matches. |
| ProviderMatcher.Quotes | app/services/matcher.py:57-89 | The `ProviderQuote`s of the catalog's providers, concatenated in catalog order. |
| ProviderMatcher.ProviderMatches | app/services/matcher.py:50-57 | The result of the matcher: `Quotes` of the catalog against the rank table of `Top3` of the requester's topics. |
| ProviderMatcher.GetProviderMatches | app/services/matcher.py:36-89 | The loop returns `ProviderMatches(topics, catalog)`: the quotes of the catalog's providers, in catalog order, priced against the rank table of the top three. |
| ProviderMatcher.PairRuleIn | app/services/matcher.py:73-80 | Over any ranking that names each topic once: if a bundle's ranked topics, in bundle order, are exactly those at positions `a` and `a + 1`, the quote is 10% of their summed counts. |
| ProviderMatcher.PairRule | app/services/matcher.py:73-80 | The pair rule over `Top3(topics)` of a mapping. |
| ProviderMatcher.SingleRuleIn | app/services/matcher.py:81-87 | Over any ranking that names each topic once: if the first ranked topic in bundle order is at position `j`, and the ranked topics are not some consecutive pair in ascending order, the quote is `SinglePrice(count_j, j)`. This covers one match, a non-ascending pair and three matches. |
| ProviderMatcher.SingleRule | app/services/matcher.py:81-87 | The single rule over `Top3(topics)` of a mapping. |
| ProviderMatcher.QuotedIffMatch | app/services/matcher.py:68-70 | A provider gets one quote if some piece of its bundle is a ranked topic, and no quote otherwise. |
| ProviderMatcher.PriceNonNegative | app/services/matcher.py:72-87 | With non-negative counts, both rules give a non-negative price. |
| ProviderMatcher.QuotesAppend | app/services/matcher.py:57 | Providers are quoted independently: the quotes of a concatenated catalog are the quotes of its parts, in order. |
| ProviderMatcher.QuotesFromCatalog | app/services/matcher.py:57-87 | Every quote names a provider of the catalog. |
| ProviderMatcher.NoQuoteOutsideCatalog | app/services/matcher.py:57-87 | A name that no catalog entry carries is never quoted. |
| ProviderMatcher.QuotesForProvider | app/services/matcher.py:57-89 | In a catalog with distinct names, the quotes naming a provider are exactly that provider's own quote. |
| ProviderMatcher.OneQuoteIffTopTopic | app/services/matcher.py:57-89 | In a catalog with distinct names, a provider has exactly one quote if one of its bundle's topics is among the top three, and none otherwise. |
| ProviderMatcher.NothingToQuote | app/services/matcher.py:50-57 | No topics, or no providers, give no quotes. |
| ProviderMatcher.QuotesNonNegative | app/services/matcher.py:72-87 | When every count is non-negative, every quote's price is non-negative. |
| MatcherExamples.Top3Example | tests/services/test_matcher.py:6-18 | The ranking of `{reading: 20, math: 50, science: 30, history: 15, art: 10}` is math, science, reading. |
| MatcherExamples.ConsecutiveTopicsExample | tests/services/test_matcher.py:36-58 | `math+science` is quoted 8.0, `science+reading` 5.0 and `math+reading` 10.0. |
| MatcherExamples.EdgeCasesExample | tests/services/test_matcher.py:61-91 | `art+history` gets no quote; `math` is quoted 10.0, `reading+art` 6.0 and `reading+science` 6.0. |
| MatcherExamples.QuoteReadingScience | tests/services/test_matcher.py:74-91 | `reading+science` has ranks 2 then 1 in bundle order, so the pair rule does not apply and reading alone is priced at 30%. |
| MatcherExamples.EqualCountsExample | tests/services/test_matcher.py:103-111 | Three equal counts are all kept, in the mapping's order. |

## Left out

- The HTTP endpoint (`app/api/v1/endpoints/quotes.py`), `main.py` and logging setup: plumbing with no decision logic.
- Loading the catalog file (`app/core/config.py`): file I/O. The model takes the already-parsed `provider_config["provider_topics"]` items as a sequence of `CatalogEntry` in insertion order.
- The `KeyError` raised when a configuration has no `provider_topics` entry: the model's input is that entry itself.
- `InvalidTopicsError` and `InvalidProviderConfigError` (`app/core/exceptions.py`): declared but never raised by the matcher. The model has no validation path, because the code has none. A mapping whose values are not integers is excluded by the types.
- A malformed bundle is never skipped, because `str.split` cannot fail on a string. Every piece is looked up, empty pieces included.
- An empty ranking still walks the whole catalog. The result is the same empty list (`ProviderMatcher.NothingToQuote`).
- The output is the list in catalog order, not an unordered collection.
- Pydantic coercion of `Quote` fields: the model's `Quote` is a plain record.
- Floating point: prices are exact reals. IEEE rounding of `count * 0.25` and similar, and of `total_count * 0.1`, is not modelled.
- Dictionary key uniqueness. Mappings are sequences, and no topic or provider name repeating is a hypothesis (`DistinctKeys`, `DistinctNames`) of the lemmas that need it. The operations themselves accept repeats, and a repeated ranked topic resolves to its last occurrence, as a dict comprehension does.
- The test comment "Topics in reverse order still count as consecutive" (`tests/services/test_matcher.py:90`): the test only checks that a quote exists. The code, and so the model, prices `reading+science` by the single rule rather than the pair rule (`MatcherExamples.QuoteReadingScience`).
