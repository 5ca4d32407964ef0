/**
 * Matching providers against the requester's top three topics and pricing
 * each provider that matches: the pair rule (10% of two counts whose
 * ranks are consecutive and ascending in bundle order) or else the
 * single-topic rule on the first match in bundle order.
 */
module ProviderMatcher {
  import opened TopicRanker
  import opened Pricing
  import opened BundleSplit
  import opened Schemas

  /** One item of the provider catalog: a provider and its '+'-joined bundle. */
  datatype CatalogEntry = CatalogEntry(provider: string, bundle: string)

  /** The value the rank table keeps per topic: its count and its rank. */
  datatype Ranked = Ranked(count: int, rank: nat)

  /** A bundle topic found in the ranking, with its count and rank. */
  datatype Match = Match(topic: string, count: int, rank: nat)

  /** No provider name occurs twice (always true of the items of a mapping). */
  ghost predicate DistinctNames(catalog: seq<CatalogEntry>) {
    forall i, j :: 0 <= i < j < |catalog| ==> catalog[i].provider != catalog[j].provider
  }

  /** The topic names of a ranking. */
  function TopicNames(top: seq<Entry>): set<string> {
    set i | 0 <= i < |top| :: top[i].topic
  }

  /**
   * `r` is what the table keeps for `name`: the count and position of the
   * last entry of `top` that carries `name`.
   */
  ghost predicate LastOccurrence(top: seq<Entry>, name: string, r: Ranked) {
    r.rank < |top| && top[r.rank] == Entry(name, r.count) &&
    forall j :: r.rank < j < |top| ==> top[j].topic != name
  }

  /**
   * The rank table built from the ranking: each topic maps to its count and
   * its position, built left to right, so that a later entry overwriting an
   * earlier one for the same topic wins.
   */
  function RankTable(top: seq<Entry>): map<string, Ranked>
  {
    if top == [] then map[]
    else
      var n := |top| - 1;
      RankTable(top[..n])[top[n].topic := Ranked(top[n].count, n)]
  }

  /**
   * Every ranked topic is a key, and a key maps to the count and position
   * of its last occurrence in the ranking.
   */
  lemma {:induction false} RankTableLast(top: seq<Entry>)
    ensures forall i :: 0 <= i < |top| ==> top[i].topic in RankTable(top)
    ensures forall name :: name in RankTable(top) ==> LastOccurrence(top, name, RankTable(top)[name])
  {
    if top != [] {
      var n := |top| - 1;
      RankTableLast(top[..n]);
      var t0 := RankTable(top[..n]);
      var t := RankTable(top);
      assert t == t0[top[n].topic := Ranked(top[n].count, n)];
      assert forall i :: 0 <= i < n ==> top[..n][i] == top[i];
      forall name | name in t0 && name != top[n].topic ensures LastOccurrence(top, name, t0[name]) {
        assert LastOccurrence(top[..n], name, t0[name]);
      }
    }
  }

  /** The table's keys are exactly the ranked topics. */
  lemma {:induction false} RankTableKeys(top: seq<Entry>)
    ensures RankTable(top).Keys == TopicNames(top)
  {
    RankTableLast(top);
    var t := RankTable(top);
    forall name | name in t ensures name in TopicNames(top) {
      assert LastOccurrence(top, name, t[name]);
    }
  }

  /**
   * The inner loop's `matching_topics`: the pieces that are keys of the
   * table, in bundle order, each with the count and rank the table gives.
   */
  function Matches(pieces: seq<string>, table: map<string, Ranked>): (ms: seq<Match>)
    ensures |ms| <= |pieces|
    ensures forall k :: 0 <= k < |ms| ==>
      ms[k].topic in table && table[ms[k].topic] == Ranked(ms[k].count, ms[k].rank)
  {
    if pieces == [] then []
    else
      var n := |pieces| - 1;
      Matches(pieces[..n], table) + MatchOf(pieces[n], table)
  }

  /** What one piece contributes to the matches: itself if the table has it. */
  function MatchOf(piece: string, table: map<string, Ranked>): seq<Match> {
    if piece in table then [Match(piece, table[piece].count, table[piece].rank)] else []
  }

  /** The topic names of some matches. */
  function TopicsOf(ms: seq<Match>): (r: seq<string>)
    ensures |r| == |ms|
    ensures forall k :: 0 <= k < |ms| ==> r[k] == ms[k].topic
  {
    if ms == [] then [] else [ms[0].topic] + TopicsOf(ms[1..])
  }

  /** Reference filter: the pieces that belong to `names`, in their order. */
  function Keep(pieces: seq<string>, names: set<string>): seq<string> {
    if pieces == [] then []
    else (if pieces[0] in names then [pieces[0]] else []) + Keep(pieces[1..], names)
  }

  /** Some piece belongs to `names`. */
  ghost predicate SomeIn(pieces: seq<string>, names: set<string>) {
    exists k :: 0 <= k < |pieces| && pieces[k] in names
  }

  /** Exactly two matches whose ranks, in bundle order, are `i` and `i + 1`. */
  predicate PairRuleApplies(ms: seq<Match>) {
    |ms| == 2 && ms[0].rank < ms[1].rank && ms[1].rank - ms[0].rank == 1
  }

  /** The price of a provider with at least one match. */
  function Price(ms: seq<Match>): real
    requires ms != []
  {
    if PairRuleApplies(ms) then (ms[0].count + ms[1].count) as real * 0.1
    else SinglePrice(ms[0].count, ms[0].rank)
  }

  /** One provider's contribution to the result: no quote without a match, else exactly one. */
  function ProviderQuote(e: CatalogEntry, table: map<string, Ranked>): seq<Quote> {
    var ms := Matches(Split(e.bundle, Delimiter), table);
    if ms == [] then [] else [Quote(e.provider, Price(ms))]
  }

  /** The quotes of the catalog's providers, in catalog order. */
  function Quotes(catalog: seq<CatalogEntry>, table: map<string, Ranked>): seq<Quote> {
    if catalog == [] then []
    else
      var n := |catalog| - 1;
      Quotes(catalog[..n], table) + ProviderQuote(catalog[n], table)
  }

  /** The result of matching a requester's topics against a provider catalog. */
  function ProviderMatches(topics: seq<Entry>, catalog: seq<CatalogEntry>): seq<Quote> {
    Quotes(catalog, RankTable(Top3(topics)))
  }

  /** The quotes naming `p`. */
  function QuotesFor(qs: seq<Quote>, p: string): seq<Quote> {
    if qs == [] then []
    else (if qs[0].provider == p then [qs[0]] else []) + QuotesFor(qs[1..], p)
  }

  /**
   * `get_provider_matches`: one pass over the catalog, building each
   * provider's matches with an inner pass over its bundle and appending
   * at most one quote per provider.
   */
  method GetProviderMatches(topics: seq<Entry>, catalog: seq<CatalogEntry>) returns (quotes: seq<Quote>)
    ensures quotes == ProviderMatches(topics, catalog)
  {
    quotes := [];
    var top3 := Top3(topics);
    var table := RankTable(top3);
    for i := 0 to |catalog|
      invariant quotes == Quotes(catalog[..i], table)
    {
      QuotesStep(catalog, i, table);
      var provider := catalog[i].provider;
      var pieces := Split(catalog[i].bundle, Delimiter);
      var matching := MatchBundle(pieces, table);
      QuoteOfMatches(catalog[i], table, matching);
      if matching == [] {
        continue;
      }
      if |matching| == 2 {
        var indices := [matching[0].rank, matching[1].rank];
        if indices[0] < indices[1] && indices[1] - indices[0] == 1 {
          var totalCount := matching[0].count + matching[1].count;
          var price := totalCount as real * 0.1;
          assert Price(matching) == price;
          quotes := quotes + [Quote(provider, price)];
          continue;
        }
      }
      var price := SinglePrice(matching[0].count, matching[0].rank);
      assert Price(matching) == price;
      quotes := quotes + [Quote(provider, price)];
    }
    assert catalog[..|catalog|] == catalog;
  }

  /**
   * The inner loop of `get_provider_matches`: every piece of the bundle
   * that is a key of the table is appended, with its count and rank.
   */
  method MatchBundle(pieces: seq<string>, table: map<string, Ranked>) returns (matching: seq<Match>)
    ensures matching == Matches(pieces, table)
  {
    matching := [];
    for j := 0 to |pieces|
      invariant matching == Matches(pieces[..j], table)
    {
      MatchesStep(pieces, j, table);
      var topic := pieces[j];
      if topic in table {
        var count, index := table[topic].count, table[topic].rank;
        matching := matching + [Match(topic, count, index)];
      }
    }
    assert pieces[..|pieces|] == pieces;
  }

  /** A provider's quote in terms of its matches. */
  lemma QuoteOfMatches(e: CatalogEntry, table: map<string, Ranked>, ms: seq<Match>)
    requires ms == Matches(Split(e.bundle, Delimiter), table)
    ensures ProviderQuote(e, table) == if ms == [] then [] else [Quote(e.provider, Price(ms))]
  {
  }

  // ---------------------------------------------------------------------
  // Matching

  /** One more piece of the bundle: its match, if any, goes at the end. */
  lemma {:induction false} MatchesStep(pieces: seq<string>, j: nat, table: map<string, Ranked>)
    requires j < |pieces|
    ensures Matches(pieces[..j + 1], table) == Matches(pieces[..j], table) + MatchOf(pieces[j], table)
  {
    assert pieces[..j + 1][..j] == pieces[..j];
  }

  /** One more provider of the catalog: its quote, if any, goes at the end. */
  lemma {:induction false} QuotesStep(catalog: seq<CatalogEntry>, i: nat, table: map<string, Ranked>)
    requires i < |catalog|
    ensures Quotes(catalog[..i + 1], table) == Quotes(catalog[..i], table) + ProviderQuote(catalog[i], table)
  {
    assert catalog[..i + 1][..i] == catalog[..i];
  }

  /** Matching distributes over concatenation of bundles. */
  lemma {:induction false} MatchesAppend(a: seq<string>, b: seq<string>, table: map<string, Ranked>)
    ensures Matches(a + b, table) == Matches(a, table) + Matches(b, table)
    decreases |b|
  {
    if b == [] {
      assert a + b == a;
    } else {
      var n := |b| - 1;
      var last := MatchOf(b[n], table);
      assert Matches(a + b, table) == Matches(a + b[..n], table) + last by {
        MatchesLast(a + b, table);
        DropLastOfAppend(a, b);
      }
      MatchesAppend(a, b[..n], table);
      MatchesLast(b, table);
      AppendAssoc(Matches(a, table), Matches(b[..n], table), last);
    }
  }

  /** The last piece of a non-empty bundle contributes the last match, if any. */
  lemma MatchesLast(pieces: seq<string>, table: map<string, Ranked>)
    requires pieces != []
    ensures Matches(pieces, table) == Matches(pieces[..|pieces| - 1], table) + MatchOf(pieces[|pieces| - 1], table)
  {
  }

  /** TopicsOf distributes over concatenation. */
  lemma {:induction false} TopicsOfAppend(a: seq<Match>, b: seq<Match>)
    ensures TopicsOf(a + b) == TopicsOf(a) + TopicsOf(b)
  {
  }

  /** Keep distributes over concatenation. */
  lemma {:induction false} KeepAppend(a: seq<string>, b: seq<string>, names: set<string>)
    ensures Keep(a + b, names) == Keep(a, names) + Keep(b, names)
  {
    if a == [] {
      assert a + b == b;
    } else {
      assert (a + b)[0] == a[0];
      assert (a + b)[1..] == a[1..] + b;
      KeepAppend(a[1..], b, names);
      var h := if a[0] in names then [a[0]] else [];
      assert Keep(a + b, names) == h + Keep(a[1..] + b, names);
      assert Keep(a, names) == h + Keep(a[1..], names);
    }
  }

  /**
   * The matched topics are exactly the bundle's pieces that are topics of
   * the ranking, in bundle order.
   */
  lemma {:induction false} MatchedTopics(pieces: seq<string>, top: seq<Entry>)
    ensures TopicsOf(Matches(pieces, RankTable(top))) == Keep(pieces, TopicNames(top))
  {
    RankTableKeys(top);
    MatchedKeys(pieces, RankTable(top), TopicNames(top));
  }

  /** The matched topics are the pieces that are keys of the table. */
  lemma {:induction false} MatchedKeys(pieces: seq<string>, table: map<string, Ranked>, names: set<string>)
    requires table.Keys == names
    ensures TopicsOf(Matches(pieces, table)) == Keep(pieces, names)
    decreases |pieces|
  {
    if pieces != [] {
      var n := |pieces| - 1;
      var init, last := pieces[..n], pieces[n];
      var h := if last in names then [last] else [];
      assert TopicsOf(Matches(pieces, table)) == Keep(init, names) + h by {
        MatchedKeys(init, table, names);
        assert Matches(pieces, table) == Matches(init, table) + MatchOf(last, table);
        TopicsOfAppend(Matches(init, table), MatchOf(last, table));
        assert TopicsOf(MatchOf(last, table)) == h;
      }
      assert Keep(pieces, names) == Keep(init, names) + h by {
        assert pieces == init + [last];
        KeepAppend(init, [last], names);
        assert Keep([last], names) == h + Keep([], names);
      }
    }
  }

  /** Every match is the ranked entry at its rank, when the ranking names each topic once. */
  lemma {:induction false} MatchesAreRanked(pieces: seq<string>, top: seq<Entry>, k: nat)
    requires DistinctKeys(top)
    requires k < |Matches(pieces, RankTable(top))|
    ensures var m := Matches(pieces, RankTable(top))[k];
      m.rank < |top| && top[m.rank] == Entry(m.topic, m.count)
  {
    var table := RankTable(top);
    var m := Matches(pieces, table)[k];
    RankTableLast(top);
    assert LastOccurrence(top, m.topic, table[m.topic]);
  }

  /** In a ranking that names each topic once, the table gives every topic its position. */
  lemma {:induction false} RankTableAt(top: seq<Entry>, a: nat)
    requires DistinctKeys(top)
    requires a < |top|
    ensures top[a].topic in RankTable(top)
    ensures RankTable(top)[top[a].topic] == Ranked(top[a].count, a)
  {
    RankTableLast(top);
    var t := RankTable(top);
    assert LastOccurrence(top, top[a].topic, t[top[a].topic]);
  }

  // ---------------------------------------------------------------------
  // Pricing of one provider

  /** The match of a piece that is the rank-`a` topic of a ranking naming each topic once. */
  lemma {:induction false} MatchIsRanked(top: seq<Entry>, m: Match, a: nat)
    requires DistinctKeys(top)
    requires a < |top|
    requires m.topic == top[a].topic
    requires m.topic in RankTable(top) && RankTable(top)[m.topic] == Ranked(m.count, m.rank)
    ensures m == Match(top[a].topic, top[a].count, a)
  {
    RankTableAt(top, a);
  }

  /** The matches of a bundle whose ranked topics are the rank-a and rank-(a+1) ones. */
  lemma {:induction false} PairMatches(pieces: seq<string>, top: seq<Entry>, a: nat)
    requires DistinctKeys(top)
    requires a + 1 < |top|
    requires Keep(pieces, TopicNames(top)) == [top[a].topic, top[a + 1].topic]
    ensures Matches(pieces, RankTable(top)) ==
      [Match(top[a].topic, top[a].count, a), Match(top[a + 1].topic, top[a + 1].count, a + 1)]
  {
    var ms := Matches(pieces, RankTable(top));
    MatchedTopics(pieces, top);
    var names := TopicsOf(ms);
    assert |ms| == 2 && names[0] == top[a].topic && names[1] == top[a + 1].topic;
    MatchIsRanked(top, ms[0], a);
    MatchIsRanked(top, ms[1], a + 1);
  }

  /** Pair rule over any ranking that names each topic once. */
  lemma {:induction false} PairRuleIn(top: seq<Entry>, e: CatalogEntry, a: nat)
    requires DistinctKeys(top)
    requires a + 1 < |top|
    requires Keep(Split(e.bundle, Delimiter), TopicNames(top)) == [top[a].topic, top[a + 1].topic]
    ensures ProviderQuote(e, RankTable(top)) == [Quote(e.provider, (top[a].count + top[a + 1].count) as real * 0.1)]
  {
    PairMatches(Split(e.bundle, Delimiter), top, a);
    PairQuote(e, RankTable(top), top[a].topic, top[a + 1].topic, top[a].count, top[a + 1].count, a);
  }

  /** A provider whose matches are ranks `a` and `a + 1`, in that order, is quoted 10% of their counts. */
  lemma PairQuote(e: CatalogEntry, table: map<string, Ranked>, x: string, y: string, cx: int, cy: int, a: nat)
    requires Matches(Split(e.bundle, Delimiter), table) == [Match(x, cx, a), Match(y, cy, a + 1)]
    ensures ProviderQuote(e, table) == [Quote(e.provider, (cx + cy) as real * 0.1)]
  {
  }

  /**
   * Pair rule: when the bundle's ranked topics, in bundle order, are the
   * rank-a and rank-(a+1) topics, the quote is 10% of their summed counts.
   */
  lemma {:induction false} PairRule(topics: seq<Entry>, e: CatalogEntry, a: nat)
    requires DistinctKeys(topics)
    requires a + 1 < |Top3(topics)|
    requires Keep(Split(e.bundle, Delimiter), TopicNames(Top3(topics))) ==
      [Top3(topics)[a].topic, Top3(topics)[a + 1].topic]
    ensures ProviderQuote(e, RankTable(Top3(topics))) ==
      [Quote(e.provider, (Top3(topics)[a].count + Top3(topics)[a + 1].count) as real * 0.1)]
  {
    Top3DistinctKeys(topics);
    PairRuleIn(Top3(topics), e, a);
  }

  /** Single rule over any ranking that names each topic once. */
  lemma {:induction false} SingleRuleIn(top: seq<Entry>, e: CatalogEntry, j: nat)
    requires DistinctKeys(top)
    requires j < |top|
    requires var kept := Keep(Split(e.bundle, Delimiter), TopicNames(top));
      kept != [] && kept[0] == top[j].topic &&
      forall a :: 0 <= a && a + 1 < |top| ==> kept != [top[a].topic, top[a + 1].topic]
    ensures ProviderQuote(e, RankTable(top)) == [Quote(e.provider, SinglePrice(top[j].count, j))]
  {
    var pieces := Split(e.bundle, Delimiter);
    var table := RankTable(top);
    var ms := Matches(pieces, table);
    var kept := Keep(pieces, TopicNames(top));
    MatchedTopics(pieces, top);
    RankTableAt(top, j);
    assert ms[0] == Match(top[j].topic, top[j].count, j);
    if |ms| == 2 {
      MatchesAreRanked(pieces, top, 0);
      MatchesAreRanked(pieces, top, 1);
      var r := ms[0].rank;
      assert kept == [top[r].topic, ms[1].topic];
      assert r + 1 < |top| ==> kept != [top[r].topic, top[r + 1].topic];
    }
    assert !PairRuleApplies(ms);
  }

  /**
   * Single rule: in every other case with at least one match (one match,
   * two matches not consecutive-ascending in bundle order, three matches)
   * the quote prices the first ranked topic in bundle order alone, at the
   * percentage of its rank.
   */
  lemma {:induction false} SingleRule(topics: seq<Entry>, e: CatalogEntry, j: nat)
    requires DistinctKeys(topics)
    requires j < |Top3(topics)|
    requires var kept := Keep(Split(e.bundle, Delimiter), TopicNames(Top3(topics)));
      kept != [] && kept[0] == Top3(topics)[j].topic &&
      forall a :: 0 <= a && a + 1 < |Top3(topics)| ==>
        kept != [Top3(topics)[a].topic, Top3(topics)[a + 1].topic]
    ensures ProviderQuote(e, RankTable(Top3(topics))) ==
      [Quote(e.provider, SinglePrice(Top3(topics)[j].count, j))]
  {
    Top3DistinctKeys(topics);
    SingleRuleIn(Top3(topics), e, j);
  }

  /** A provider is quoted iff some piece of its bundle is a ranked topic. */
  lemma {:induction false} QuotedIffMatch(e: CatalogEntry, top: seq<Entry>)
    ensures |ProviderQuote(e, RankTable(top))| == if SomeIn(Split(e.bundle, Delimiter), TopicNames(top)) then 1 else 0
  {
    var pieces := Split(e.bundle, Delimiter);
    var ms := Matches(pieces, RankTable(top));
    MatchedTopics(pieces, top);
    KeepEmptyIff(pieces, TopicNames(top));
    assert ms == [] <==> Keep(pieces, TopicNames(top)) == [];
    assert ProviderQuote(e, RankTable(top)) == if ms == [] then [] else [Quote(e.provider, Price(ms))];
  }

  /** Something is kept iff some piece belongs to the names. */
  lemma {:induction false} KeepEmptyIff(pieces: seq<string>, names: set<string>)
    ensures Keep(pieces, names) != [] <==> SomeIn(pieces, names)
  {
    if pieces != [] {
      KeepEmptyIff(pieces[1..], names);
      if pieces[0] !in names && exists k :: 0 <= k < |pieces| && pieces[k] in names {
        var k :| 0 <= k < |pieces| && pieces[k] in names;
        assert pieces[1..][k - 1] == pieces[k];
      }
      if exists k :: 0 <= k < |pieces[1..]| && pieces[1..][k] in names {
        var k :| 0 <= k < |pieces[1..]| && pieces[1..][k] in names;
        assert pieces[k + 1] == pieces[1..][k];
      }
    }
  }

  /** With non-negative counts every price is non-negative. */
  lemma {:induction false} PriceNonNegative(ms: seq<Match>)
    requires ms != []
    requires forall k :: 0 <= k < |ms| ==> ms[k].count >= 0
    ensures Price(ms) >= 0.0
  {
  }

  // ---------------------------------------------------------------------
  // The whole catalog

  /** Providers are quoted independently and in catalog order. */
  lemma {:induction false} QuotesAppend(a: seq<CatalogEntry>, b: seq<CatalogEntry>, table: map<string, Ranked>)
    ensures Quotes(a + b, table) == Quotes(a, table) + Quotes(b, table)
    decreases |b|
  {
    if b == [] {
      assert a + b == a;
    } else {
      var n := |b| - 1;
      var last := ProviderQuote(b[n], table);
      assert Quotes(a + b, table) == Quotes(a + b[..n], table) + last by {
        QuotesLast(a + b, table);
        DropLastOfAppend(a, b);
      }
      QuotesAppend(a, b[..n], table);
      QuotesLast(b, table);
      AppendAssoc(Quotes(a, table), Quotes(b[..n], table), last);
    }
  }

  /** Dropping the last element of a concatenation with a non-empty right part. */
  lemma DropLastOfAppend<T>(a: seq<T>, b: seq<T>)
    requires b != []
    ensures (a + b)[..|a + b| - 1] == a + b[..|b| - 1]
    ensures (a + b)[|a + b| - 1] == b[|b| - 1]
  {
  }

  /** Concatenation is associative. */
  lemma AppendAssoc<T>(x: seq<T>, y: seq<T>, z: seq<T>)
    ensures (x + y) + z == x + (y + z)
  {
  }

  /** The last provider of a non-empty catalog contributes the last quotes. */
  lemma QuotesLast(catalog: seq<CatalogEntry>, table: map<string, Ranked>)
    requires catalog != []
    ensures Quotes(catalog, table) ==
      Quotes(catalog[..|catalog| - 1], table) + ProviderQuote(catalog[|catalog| - 1], table)
  {
  }

  /** QuotesFor distributes over concatenation. */
  lemma {:induction false} QuotesForAppend(a: seq<Quote>, b: seq<Quote>, p: string)
    ensures QuotesFor(a + b, p) == QuotesFor(a, p) + QuotesFor(b, p)
  {
    if a == [] {
      assert a + b == b;
    } else {
      assert (a + b)[0] == a[0];
      assert (a + b)[1..] == a[1..] + b;
      QuotesForAppend(a[1..], b, p);
      var h := if a[0].provider == p then [a[0]] else [];
      assert QuotesFor(a + b, p) == h + QuotesFor(a[1..] + b, p);
      assert QuotesFor(a, p) == h + QuotesFor(a[1..], p);
    }
  }

  /** A name that is not in the catalog is never quoted. */
  lemma {:induction false} NoQuoteOutsideCatalog(catalog: seq<CatalogEntry>, table: map<string, Ranked>, p: string)
    requires forall i :: 0 <= i < |catalog| ==> catalog[i].provider != p
    ensures QuotesFor(Quotes(catalog, table), p) == []
    decreases |catalog|
  {
    if catalog != [] {
      var n := |catalog| - 1;
      var init, qn := Quotes(catalog[..n], table), ProviderQuote(catalog[n], table);
      assert QuotesFor(init, p) == [] by {
        forall k | 0 <= k < n ensures catalog[..n][k].provider != p {
          assert catalog[..n][k] == catalog[k];
        }
        NoQuoteOutsideCatalog(catalog[..n], table, p);
      }
      assert QuotesFor(qn, p) == [] by {
        QuoteOfMatches(catalog[n], table, Matches(Split(catalog[n].bundle, Delimiter), table));
        if qn != [] {
          assert qn[1..] == [];
        }
      }
      QuotesForAppend(init, qn, p);
    }
  }

  /** Every quote names a provider of the catalog. */
  lemma {:induction false} QuotesFromCatalog(catalog: seq<CatalogEntry>, table: map<string, Ranked>, q: Quote)
    requires q in Quotes(catalog, table)
    ensures exists i :: 0 <= i < |catalog| && catalog[i].provider == q.provider
    decreases |catalog|
  {
    var n := |catalog| - 1;
    if q in Quotes(catalog[..n], table) {
      QuotesFromCatalog(catalog[..n], table, q);
      var i :| 0 <= i < n && catalog[..n][i].provider == q.provider;
      assert catalog[i] == catalog[..n][i];
    } else {
      assert q in ProviderQuote(catalog[n], table);
    }
  }

  /**
   * In a catalog with distinct names, the quotes naming a provider are
   * that provider's own quote: exactly one if it matched, none otherwise.
   */
  lemma {:induction false} QuotesForProvider(catalog: seq<CatalogEntry>, table: map<string, Ranked>, i: nat)
    requires DistinctNames(catalog)
    requires i < |catalog|
    ensures QuotesFor(Quotes(catalog, table), catalog[i].provider) == ProviderQuote(catalog[i], table)
  {
    var p := catalog[i].provider;
    var before, after := catalog[..i], catalog[i + 1..];
    assert QuotesFor(Quotes(before, table), p) == [] by {
      forall k | 0 <= k < |before| ensures before[k].provider != p {
        assert before[k] == catalog[k];
        assert catalog[k].provider != catalog[i].provider;
      }
      NoQuoteOutsideCatalog(before, table, p);
    }
    assert QuotesFor(Quotes(after, table), p) == [] by {
      forall k | 0 <= k < |after| ensures after[k].provider != p {
        assert after[k] == catalog[i + 1 + k];
        assert catalog[i].provider != catalog[i + 1 + k].provider;
      }
      NoQuoteOutsideCatalog(after, table, p);
    }
    var qi := ProviderQuote(catalog[i], table);
    assert |qi| <= 1 && forall k :: 0 <= k < |qi| ==> qi[k].provider == p by {
      QuoteOfMatches(catalog[i], table, Matches(Split(catalog[i].bundle, Delimiter), table));
    }
    QuotesAround(catalog, i, table);
    OwnQuotes(Quotes(before, table), qi, Quotes(after, table), p);
  }

  /** The quotes of a catalog split around its `i`-th provider. */
  lemma {:induction false} QuotesAround(catalog: seq<CatalogEntry>, i: nat, table: map<string, Ranked>)
    requires i < |catalog|
    ensures Quotes(catalog, table) ==
      Quotes(catalog[..i], table) + ProviderQuote(catalog[i], table) + Quotes(catalog[i + 1..], table)
  {
    var before, after := catalog[..i], catalog[i + 1..];
    assert catalog == before + [catalog[i]] + after;
    QuotesAppend(before + [catalog[i]], after, table);
    QuotesAppend(before, [catalog[i]], table);
    assert [catalog[i]][..0] == [];
  }

  /** Filtering by `p` keeps only the middle part when the outer parts never name `p`. */
  lemma {:induction false} OwnQuotes(qb: seq<Quote>, qi: seq<Quote>, qa: seq<Quote>, p: string)
    requires QuotesFor(qb, p) == [] && QuotesFor(qa, p) == []
    requires forall k :: 0 <= k < |qi| ==> qi[k].provider == p
    requires |qi| <= 1
    ensures QuotesFor(qb + qi + qa, p) == qi
  {
    QuotesForAppend(qb + qi, qa, p);
    QuotesForAppend(qb, qi, p);
    if qi != [] {
      assert qi[1..] == [];
    }
  }

  /**
   * A provider of the catalog gets exactly one quote iff at least one
   * topic of its bundle is among the requester's top three, else none.
   */
  lemma {:induction false} OneQuoteIffTopTopic(topics: seq<Entry>, catalog: seq<CatalogEntry>, i: nat)
    requires DistinctNames(catalog)
    requires i < |catalog|
    ensures |QuotesFor(ProviderMatches(topics, catalog), catalog[i].provider)| ==
      var pieces, top := Split(catalog[i].bundle, Delimiter), Top3(topics);
      if exists k, j :: 0 <= k < |pieces| && 0 <= j < |top| && pieces[k] == top[j].topic then 1 else 0
  {
    var top := Top3(topics);
    QuotesForProvider(catalog, RankTable(top), i);
    QuotedIffMatch(catalog[i], top);
  }

  /** No topics, or no providers: no quotes. */
  lemma {:induction false} NothingToQuote(topics: seq<Entry>, catalog: seq<CatalogEntry>)
    requires topics == [] || catalog == []
    ensures ProviderMatches(topics, catalog) == []
  {
    if topics == [] {
      NoRankedTopicNoQuote(catalog, RankTable(Top3(topics)));
    }
  }

  /** An empty table quotes nobody. */
  lemma {:induction false} NoRankedTopicNoQuote(catalog: seq<CatalogEntry>, table: map<string, Ranked>)
    requires table == map[]
    ensures Quotes(catalog, table) == []
    decreases |catalog|
  {
    if catalog != [] {
      var n := |catalog| - 1;
      NoRankedTopicNoQuote(catalog[..n], table);
      NoMatchInEmptyTable(Split(catalog[n].bundle, Delimiter), table);
    }
  }

  lemma {:induction false} NoMatchInEmptyTable(pieces: seq<string>, table: map<string, Ranked>)
    requires table == map[]
    ensures Matches(pieces, table) == []
    decreases |pieces|
  {
    if pieces != [] {
      NoMatchInEmptyTable(pieces[..|pieces| - 1], table);
    }
  }

  /** With non-negative counts every quote has a non-negative price. */
  lemma {:induction false} QuotesNonNegative(topics: seq<Entry>, catalog: seq<CatalogEntry>)
    requires forall k :: 0 <= k < |topics| ==> topics[k].count >= 0
    ensures forall q :: q in ProviderMatches(topics, catalog) ==> q.price >= 0.0
    decreases |catalog|
  {
    var top := Top3(topics);
    var table := RankTable(top);
    Top3FromInput(topics);
    if catalog != [] {
      var n := |catalog| - 1;
      QuotesNonNegative(topics, catalog[..n]);
      var ms := Matches(Split(catalog[n].bundle, Delimiter), table);
      if ms != [] {
        forall k | 0 <= k < |ms| ensures ms[k].count >= 0 {
          var name := ms[k].topic;
          RankTableLast(top);
          assert LastOccurrence(top, name, table[name]);
          var r := table[name].rank;
          assert top[r] in top;
        }
        PriceNonNegative(ms);
      }
    }
  }
}
