/**
 * The single-topic price: a percentage of the topic's resource count that
 * depends on the topic's rank among the requester's top three.
 */
module Pricing {

  /**
   * The count times the rate of its rank: 20% plus 5% per rank step for
   * ranks 0 to 2, nothing for any other rank. It is total: an unknown rank
   * gives a zero price rather than a failure.
   */
  function SinglePrice(count: int, rank: int): (r: real)
    ensures 0 <= rank <= 2 ==> r == (count * (20 + 5 * rank)) as real / 100.0
    ensures !(0 <= rank <= 2) ==> r == 0.0
  {
    var percentage :=
      if rank == 0 then 0.20
      else if rank == 1 then 0.25
      else if rank == 2 then 0.30
      else 0.0;
    count as real * percentage
  }

  /** For a non-negative count the price never falls as the rank goes from 0 to 2. */
  lemma SinglePriceGrowsWithRank(count: int, a: int, b: int)
    requires count >= 0
    requires 0 <= a <= b <= 2
    ensures 0.0 <= SinglePrice(count, a) <= SinglePrice(count, b) <= count as real
  {
  }

  /** The values the repository's tests expect for a count of 100. */
  lemma SinglePriceExamples()
    ensures SinglePrice(100, 0) == 20.0
    ensures SinglePrice(100, 1) == 25.0
    ensures SinglePrice(100, 2) == 30.0
    ensures SinglePrice(100, 3) == 0.0
  {
  }
}
