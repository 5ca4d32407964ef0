/**
 * The scenarios of the repository's matcher tests, evaluated on the model
 * one step at a time.
 */
module MatcherExamples {
  import opened TopicRanker
  import opened BundleSplit
  import opened ProviderMatcher
  import opened Schemas

  const Math50 := Entry("math", 50)
  const Science30 := Entry("science", 30)
  const Reading20 := Entry("reading", 20)
  const History15 := Entry("history", 15)
  const Art10 := Entry("art", 10)

  lemma {:induction false} InsertHistory() ensures Insert(History15, [Art10]) == [History15, Art10] {}
  lemma {:induction false} InsertReadingLow() ensures Insert(Reading20, [History15, Art10]) == [Reading20, History15, Art10] {}
  lemma {:induction false} InsertScience() ensures Insert(Science30, [History15, Art10]) == [Science30, History15, Art10] {}
  lemma {:induction false} InsertMath() ensures Insert(Math50, [Science30, History15, Art10]) == [Math50, Science30, History15, Art10] {}

  lemma {:induction false} InsertReadingMid()
    ensures Insert(Reading20, [Science30, History15, Art10]) == [Science30, Reading20, History15, Art10]
  {
    assert [Science30, History15, Art10][1..] == [History15, Art10];
    InsertReadingLow();
  }

  lemma {:induction false} InsertReadingHigh()
    ensures Insert(Reading20, [Math50, Science30, History15, Art10]) == [Math50, Science30, Reading20, History15, Art10]
  {
    assert [Math50, Science30, History15, Art10][1..] == [Science30, History15, Art10];
    InsertReadingMid();
  }

  lemma {:induction false} SortTail1() ensures Sort([History15, Art10]) == [History15, Art10] {
    assert [History15, Art10][1..] == [Art10];
    assert Sort([Art10]) == [Art10];
    InsertHistory();
  }

  lemma {:induction false} SortTail2() ensures Sort([Science30, History15, Art10]) == [Science30, History15, Art10] {
    assert [Science30, History15, Art10][1..] == [History15, Art10];
    SortTail1();
    InsertScience();
  }

  lemma {:induction false} SortTail3() ensures Sort([Math50, Science30, History15, Art10]) == [Math50, Science30, History15, Art10] {
    assert [Math50, Science30, History15, Art10][1..] == [Science30, History15, Art10];
    SortTail2();
    InsertMath();
  }

  /** `get_top_3_topics` on the mapping of the repository's first test. */
  lemma {:induction false} Top3Example()
    ensures Top3([Reading20, Math50, Science30, History15, Art10]) == [Math50, Science30, Reading20]
  {
    var s := [Reading20, Math50, Science30, History15, Art10];
    assert s[1..] == [Math50, Science30, History15, Art10];
    SortTail3();
    InsertReadingHigh();
    assert Sort(s) == [Math50, Science30, Reading20, History15, Art10];
    FirstThree();
  }

  lemma {:induction false} FirstThree()
    ensures [Math50, Science30, Reading20, History15, Art10][..3] == [Math50, Science30, Reading20]
  {
  }

  // ---------------------------------------------------------------------
  // The matcher tests: requester {math: 50, science: 30, reading: 20(, history: 15)}

  lemma {:induction false} SortMSR() ensures Sort([Math50, Science30, Reading20]) == [Math50, Science30, Reading20] {
    assert [Math50, Science30, Reading20][1..] == [Science30, Reading20];
    assert [Science30, Reading20][1..] == [Reading20];
    assert Sort([Reading20]) == [Reading20];
    assert Insert(Science30, [Reading20]) == [Science30, Reading20];
    assert Sort([Science30, Reading20]) == [Science30, Reading20];
    assert Insert(Math50, [Science30, Reading20]) == [Math50, Science30, Reading20];
  }

  lemma {:induction false} SortRH() ensures Sort([Reading20, History15]) == [Reading20, History15] {
    assert [Reading20, History15][1..] == [History15];
    assert Sort([History15]) == [History15];
    assert Insert(Reading20, [History15]) == [Reading20, History15];
  }

  lemma {:induction false} SortSRH() ensures Sort([Science30, Reading20, History15]) == [Science30, Reading20, History15] {
    assert [Science30, Reading20, History15][1..] == [Reading20, History15];
    SortRH();
    assert Insert(Science30, [Reading20, History15]) == [Science30, Reading20, History15];
  }

  lemma {:induction false} SortMSRH() ensures Sort([Math50, Science30, Reading20, History15]) == [Math50, Science30, Reading20, History15] {
    assert [Math50, Science30, Reading20, History15][1..] == [Science30, Reading20, History15];
    SortSRH();
    InsertMathFirst();
  }

  lemma {:induction false} InsertMathFirst()
    ensures Insert(Math50, [Science30, Reading20, History15]) == [Math50, Science30, Reading20, History15]
  {
  }

  lemma {:induction false} Top3MSR()
    ensures Top3([Math50, Science30, Reading20]) == [Math50, Science30, Reading20]
    ensures Top3([Math50, Science30, Reading20, History15]) == [Math50, Science30, Reading20]
  {
    SortMSR();
    SortMSRH();
    FirstThreeOfFour();
  }

  lemma {:induction false} FirstThreeOfFour()
    ensures [Math50, Science30, Reading20, History15][..3] == [Math50, Science30, Reading20]
  {
  }

  /** The rank table of math, science, reading. */
  function Table(): map<string, Ranked> {
    map["math" := Ranked(50, 0), "science" := Ranked(30, 1), "reading" := Ranked(20, 2)]
  }

  lemma {:induction false} TableMSR() ensures RankTable([Math50, Science30, Reading20]) == Table() {
    var top := [Math50, Science30, Reading20];
    assert top[..2] == [Math50, Science30];
    assert [Math50, Science30][..1] == [Math50];
    assert [Math50][..0] == [];
    assert RankTable([Math50]) == map["math" := Ranked(50, 0)];
    assert RankTable([Math50, Science30]) == map["math" := Ranked(50, 0), "science" := Ranked(30, 1)];
  }

  /** A two-topic bundle string splits into its two topics. */
  lemma {:induction false} SplitTwo(x: string, y: string)
    requires Delimiter !in x && Delimiter !in y
    ensures Split(x + [Delimiter] + y, Delimiter) == [x, y]
  {
    assert [x, y][1..] == [y];
    assert Join([y], Delimiter) == y;
    assert Join([x, y], Delimiter) == x + [Delimiter] + y;
    SplitJoin([x, y], Delimiter);
  }

  /** Matches of a two-piece bundle. */
  lemma {:induction false} MatchesTwo(x: string, y: string, table: map<string, Ranked>)
    ensures Matches([x, y], table) == MatchOf(x, table) + MatchOf(y, table)
  {
    assert [x, y][..1] == [x];
    assert [x][..0] == [];
  }

  /** What each topic of the tests contributes to a provider's matches. */
  lemma {:induction false} TableLookups()
    ensures MatchOf("math", Table()) == [Match("math", 50, 0)]
    ensures MatchOf("science", Table()) == [Match("science", 30, 1)]
    ensures MatchOf("reading", Table()) == [Match("reading", 20, 2)]
    ensures MatchOf("art", Table()) == [] && MatchOf("history", Table()) == []
  {
  }

  /** The quote of a provider whose bundle has two topics. */
  lemma {:induction false} QuoteTwo(e: CatalogEntry, x: string, y: string, table: map<string, Ranked>)
    requires Delimiter !in x && Delimiter !in y
    requires e.bundle == x + [Delimiter] + y
    ensures var ms := MatchOf(x, table) + MatchOf(y, table);
      ProviderQuote(e, table) == if ms == [] then [] else [Quote(e.provider, Price(ms))]
  {
    SplitTwo(x, y);
    MatchesTwo(x, y, table);
  }

  lemma {:induction false} QuoteMathScience(e: CatalogEntry, table: map<string, Ranked>)
    requires e == CatalogEntry("provider_a", "math+science") && table == Table()
    ensures ProviderQuote(e, table) == [Quote("provider_a", 8.0)]
  {
    assert "math+science" == "math" + [Delimiter] + "science";
    QuoteTwo(e, "math", "science", table);
    TableLookups();
    var ms := [Match("math", 50, 0), Match("science", 30, 1)];
    assert PairRuleApplies(ms) && Price(ms) == 8.0;
  }

  lemma {:induction false} QuoteScienceReading(e: CatalogEntry, table: map<string, Ranked>)
    requires e == CatalogEntry("provider_b", "science+reading") && table == Table()
    ensures ProviderQuote(e, table) == [Quote("provider_b", 5.0)]
  {
    assert "science+reading" == "science" + [Delimiter] + "reading";
    QuoteTwo(e, "science", "reading", table);
    TableLookups();
    var ms := [Match("science", 30, 1), Match("reading", 20, 2)];
    assert PairRuleApplies(ms) && Price(ms) == 5.0;
  }

  lemma {:induction false} QuoteMathReading(e: CatalogEntry, table: map<string, Ranked>)
    requires e == CatalogEntry("provider_c", "math+reading") && table == Table()
    ensures ProviderQuote(e, table) == [Quote("provider_c", 10.0)]
  {
    assert "math+reading" == "math" + [Delimiter] + "reading";
    QuoteTwo(e, "math", "reading", table);
    TableLookups();
    var ms := [Match("math", 50, 0), Match("reading", 20, 2)];
    assert !PairRuleApplies(ms) && Price(ms) == 10.0;
  }

  lemma {:induction false} QuoteArtHistory(e: CatalogEntry, table: map<string, Ranked>)
    requires e == CatalogEntry("provider_a", "art+history") && table == Table()
    ensures ProviderQuote(e, table) == []
  {
    assert "art+history" == "art" + [Delimiter] + "history";
    QuoteTwo(e, "art", "history", table);
    TableLookups();
  }

  lemma {:induction false} QuoteMath(e: CatalogEntry, table: map<string, Ranked>)
    requires e == CatalogEntry("provider_b", "math") && table == Table()
    ensures ProviderQuote(e, table) == [Quote("provider_b", 10.0)]
  {
    SplitExamples();
    assert ["math"][..0] == [];
  }

  lemma {:induction false} QuoteReadingArt(e: CatalogEntry, table: map<string, Ranked>)
    requires e == CatalogEntry("provider_c", "reading+art") && table == Table()
    ensures ProviderQuote(e, table) == [Quote("provider_c", 6.0)]
  {
    assert "reading+art" == "reading" + [Delimiter] + "art";
    QuoteTwo(e, "reading", "art", table);
    TableLookups();
    var ms := [Match("reading", 20, 2)];
    assert Price(ms) == 6.0;
  }

  /** Ranks 2 then 1 in bundle order: not ascending, so reading alone is priced at 30%. */
  lemma {:induction false} QuoteReadingScience(e: CatalogEntry, table: map<string, Ranked>)
    requires e == CatalogEntry("provider_d", "reading+science") && table == Table()
    ensures ProviderQuote(e, table) == [Quote("provider_d", 6.0)]
  {
    assert "reading+science" == "reading" + [Delimiter] + "science";
    QuoteTwo(e, "reading", "science", table);
    var ms := [Match("reading", 20, 2), Match("science", 30, 1)];
    assert MatchOf("reading", table) + MatchOf("science", table) == ms;
    assert !PairRuleApplies(ms);
    assert Price(ms) == 6.0;
  }

  /** Quotes of a catalog of three or four providers, one provider at a time. */
  lemma {:induction false} QuotesOfThree(a: CatalogEntry, b: CatalogEntry, c: CatalogEntry, table: map<string, Ranked>)
    ensures Quotes([a, b, c], table) == ProviderQuote(a, table) + ProviderQuote(b, table) + ProviderQuote(c, table)
  {
    assert [a, b, c][..2] == [a, b];
    assert [a, b][..1] == [a];
    assert [a][..0] == [];
    assert Quotes([a], table) == ProviderQuote(a, table);
    assert Quotes([a, b], table) == Quotes([a], table) + ProviderQuote(b, table);
    assert Quotes([a, b, c], table) == Quotes([a, b], table) + ProviderQuote(c, table);
  }

  lemma {:induction false} QuotesOfFour(a: CatalogEntry, b: CatalogEntry, c: CatalogEntry, d: CatalogEntry, table: map<string, Ranked>)
    ensures Quotes([a, b, c, d], table) ==
      ProviderQuote(a, table) + ProviderQuote(b, table) + ProviderQuote(c, table) + ProviderQuote(d, table)
  {
    assert [a, b, c, d][..3] == [a, b, c];
    QuotesOfThree(a, b, c, table);
    assert Quotes([a, b, c, d], table) == Quotes([a, b, c], table) + ProviderQuote(d, table);
  }

  lemma ThreeSingles(qa: seq<Quote>, qb: seq<Quote>, qc: seq<Quote>, x: Quote, y: Quote, z: Quote)
    requires qa == [x] && qb == [y] && qc == [z]
    ensures qa + qb + qc == [x, y, z]
  {
  }

  const ProviderA := CatalogEntry("provider_a", "math+science")
  const ProviderB := CatalogEntry("provider_b", "science+reading")
  const ProviderC := CatalogEntry("provider_c", "math+reading")

  /** Consecutive ranks (0, 1) and (1, 2) take the pair rule; (0, 2) prices math alone. */
  lemma {:induction false} ConsecutiveTopicsExample(topics: seq<Entry>, catalog: seq<CatalogEntry>)
    requires topics == [Math50, Science30, Reading20, History15]
    requires catalog == [ProviderA, ProviderB, ProviderC]
    ensures ProviderMatches(topics, catalog)
      == [Quote("provider_a", 8.0), Quote("provider_b", 5.0), Quote("provider_c", 10.0)]
  {
    Top3MSR();
    TableMSR();
    var table := RankTable(Top3(topics));
    assert table == Table();
    var a, b, c := catalog[0], catalog[1], catalog[2];
    assert catalog == [a, b, c];
    assert ProviderMatches(topics, catalog) == Quotes(catalog, table);
    QuotesOfThree(a, b, c, table);
    QuoteMathScience(a, table);
    QuoteScienceReading(b, table);
    QuoteMathReading(c, table);
    var qa, qb, qc := ProviderQuote(a, table), ProviderQuote(b, table), ProviderQuote(c, table);
    assert Quotes(catalog, table) == qa + qb + qc;
    ThreeSingles(qa, qb, qc, Quote("provider_a", 8.0), Quote("provider_b", 5.0), Quote("provider_c", 10.0));
  }

  const EdgeA := CatalogEntry("provider_a", "art+history")
  const EdgeB := CatalogEntry("provider_b", "math")
  const EdgeC := CatalogEntry("provider_c", "reading+art")
  const EdgeD := CatalogEntry("provider_d", "reading+science")

  /** No match: omitted; one match: its own rate; reversed consecutive ranks: still quoted. */
  lemma {:induction false} EdgeCasesExample(topics: seq<Entry>, catalog: seq<CatalogEntry>)
    requires topics == [Math50, Science30, Reading20]
    requires catalog == [EdgeA, EdgeB, EdgeC, EdgeD]
    ensures ProviderMatches(topics, catalog)
      == [Quote("provider_b", 10.0), Quote("provider_c", 6.0), Quote("provider_d", 6.0)]
  {
    Top3MSR();
    TableMSR();
    var table := RankTable(Top3(topics));
    assert table == Table();
    var a, b, c, d := catalog[0], catalog[1], catalog[2], catalog[3];
    assert catalog == [a, b, c, d];
    assert ProviderMatches(topics, catalog) == Quotes(catalog, table);
    QuotesOfFour(a, b, c, d, table);
    QuoteArtHistory(a, table);
    QuoteMath(b, table);
    QuoteReadingArt(c, table);
    QuoteReadingScience(d, table);
    var qa, qb, qc, qd := ProviderQuote(a, table), ProviderQuote(b, table), ProviderQuote(c, table), ProviderQuote(d, table);
    assert Quotes(catalog, table) == qa + qb + qc + qd;
    assert qa + qb + qc + qd == qb + qc + qd by { assert qa + qb == qb; }
    ThreeSingles(qb, qc, qd, Quote("provider_b", 10.0), Quote("provider_c", 6.0), Quote("provider_d", 6.0));
  }

  /** Equal counts: all three are kept, in the mapping's order. */
  lemma {:induction false} EqualCountsExample()
    ensures Top3([Entry("math", 30), Entry("science", 30), Entry("reading", 30)])
      == [Entry("math", 30), Entry("science", 30), Entry("reading", 30)]
  {
    var m, sc, r := Entry("math", 30), Entry("science", 30), Entry("reading", 30);
    assert [m, sc, r][1..] == [sc, r];
    assert [sc, r][1..] == [r];
    assert Sort([r]) == [r];
    assert Insert(sc, [r]) == [sc, r];
    assert Insert(m, [sc, r]) == [m, sc, r];
  }
}
