/**
 * Topic ranking: the requester's topic -> resource-count mapping, in the
 * mapping's insertion order, is sorted by count from highest to lowest
 * with a stable sort and cut down to its first three entries.
 */
module TopicRanker {

  /** One item of the requester's mapping: a topic name and its resource count. */
  datatype Entry = Entry(topic: string, count: int)

  /** How many entries the ranking keeps. */
  const TopN: nat := 3

  /** Counts never increase from left to right. */
  ghost predicate SortedDesc(s: seq<Entry>) {
    forall i, j :: 0 <= i < j < |s| ==> s[i].count >= s[j].count
  }

  /** No topic name occurs twice (always true of the items of a mapping). */
  ghost predicate DistinctKeys(s: seq<Entry>) {
    forall i, j :: 0 <= i < j < |s| ==> s[i].topic != s[j].topic
  }

  /** The entries of `s` whose count is `c`, in their order in `s`. */
  function WithCount(s: seq<Entry>, c: int): seq<Entry>
  {
    if s == [] then []
    else (if s[0].count == c then [s[0]] else []) + WithCount(s[1..], c)
  }

  /**
   * `t` rearranges `s` the way a stable sort keyed on `count` does: for
   * every count, the entries carrying it keep their relative order.
   */
  ghost predicate SameTies(t: seq<Entry>, s: seq<Entry>) {
    forall c :: WithCount(t, c) == WithCount(s, c)
  }

  /**
   * Inserts `x` into the descending sequence `s` in front of every entry
   * whose count is not larger, so that `x` precedes its equals.
   */
  function Insert(x: Entry, s: seq<Entry>): seq<Entry>
  {
    if s == [] || x.count >= s[0].count then [x] + s
    else [s[0]] + Insert(x, s[1..])
  }

  /** Insertion adds `x` and loses nothing. */
  lemma {:induction false} InsertPermutes(x: Entry, s: seq<Entry>)
    ensures multiset(Insert(x, s)) == multiset(s) + multiset{x}
  {
    if s != [] && x.count < s[0].count {
      var rest := Insert(x, s[1..]);
      InsertPermutes(x, s[1..]);
      assert Insert(x, s) == [s[0]] + rest;
      assert multiset(Insert(x, s)) == multiset{s[0]} + multiset(rest);
      assert s == [s[0]] + s[1..];
      assert multiset(s) == multiset{s[0]} + multiset(s[1..]);
    } else {
      assert Insert(x, s) == [x] + s;
    }
  }

  /** Insertion into a descending sequence keeps it descending. */
  lemma {:induction false} InsertSorted(x: Entry, s: seq<Entry>)
    requires SortedDesc(s)
    ensures SortedDesc(Insert(x, s))
  {
    if s != [] && x.count < s[0].count {
      var tail := s[1..];
      var rest := Insert(x, tail);
      assert SortedDesc(rest) by {
        assert forall i :: 0 <= i < |tail| ==> tail[i] == s[i + 1];
        InsertSorted(x, tail);
      }
      assert forall k :: 0 <= k < |rest| ==> rest[k].count <= s[0].count by {
        assert forall i :: 0 <= i < |tail| ==> tail[i] == s[i + 1];
        InsertBelow(x, tail, s[0].count);
      }
      var r := [s[0]] + rest;
      assert Insert(x, s) == r;
      forall i, j | 0 <= i < j < |r| ensures r[i].count >= r[j].count {
        assert r[j] == rest[j - 1];
        if i > 0 {
          assert r[i] == rest[i - 1];
        }
      }
    }
  }

  /** Inserting an entry under a bound into entries under the bound stays under it. */
  lemma {:induction false} InsertBelow(x: Entry, s: seq<Entry>, b: int)
    requires x.count <= b
    requires forall i :: 0 <= i < |s| ==> s[i].count <= b
    ensures forall k :: 0 <= k < |Insert(x, s)| ==> Insert(x, s)[k].count <= b
  {
    if s != [] && x.count < s[0].count {
      var tail := s[1..];
      assert forall i :: 0 <= i < |tail| ==> tail[i] == s[i + 1];
      InsertBelow(x, tail, b);
      var r := [s[0]] + Insert(x, tail);
      assert Insert(x, s) == r;
      assert forall k :: 0 < k < |r| ==> r[k] == Insert(x, tail)[k - 1];
    }
  }

  /** `x` lands in front of the entries that tie with it; other ties are untouched. */
  lemma {:induction false} InsertTies(x: Entry, s: seq<Entry>, c: int)
    ensures WithCount(Insert(x, s), c) == (if x.count == c then [x] else []) + WithCount(s, c)
  {
    var hx := if x.count == c then [x] else [];
    if s == [] || x.count >= s[0].count {
      var r := [x] + s;
      assert r[0] == x && r[1..] == s;
      assert WithCount(r, c) == hx + WithCount(s, c);
    } else {
      var rest := Insert(x, s[1..]);
      InsertTies(x, s[1..], c);
      var r := [s[0]] + rest;
      assert r[0] == s[0] && r[1..] == rest;
      var h0 := if s[0].count == c then [s[0]] else [];
      assert WithCount(r, c) == h0 + WithCount(rest, c);
      assert WithCount(s, c) == h0 + WithCount(s[1..], c);
      // x and s[0] have different counts, so at most one of them has count c
      assert h0 == [] || hx == [];
      assert h0 + (hx + WithCount(s[1..], c)) == hx + (h0 + WithCount(s[1..], c));
    }
  }

  /**
   * Stable insertion sort by descending count; entries that tie keep the
   * order they have in `s`.
   */
  function Sort(s: seq<Entry>): (r: seq<Entry>)
    ensures multiset(r) == multiset(s)
    ensures |r| == |s|
    ensures SortedDesc(r)
    ensures SameTies(r, s)
  {
    if s == [] then []
    else
      assert s == [s[0]] + s[1..];
      var rest := Sort(s[1..]);
      InsertPermutes(s[0], rest);
      InsertSorted(s[0], rest);
      assert forall c :: WithCount(Insert(s[0], rest), c) == WithCount(s, c) by {
        forall c ensures WithCount(Insert(s[0], rest), c) == WithCount(s, c) {
          InsertTies(s[0], rest, c);
        }
      }
      Insert(s[0], rest)
  }

  /**
   * The first three items of the mapping after a stable sort by descending
   * count: min(3, |topics|) entries (none for an empty mapping), counts not
   * increasing.
   */
  function Top3(topics: seq<Entry>): (r: seq<Entry>)
    ensures |r| == if |topics| <= TopN then |topics| else TopN
    ensures SortedDesc(r)
  {
    var sorted := Sort(topics);
    if |sorted| <= TopN then sorted else sorted[..TopN]
  }

  /** WithCount distributes over concatenation. */
  lemma {:induction false} WithCountAppend(a: seq<Entry>, b: seq<Entry>, c: int)
    ensures WithCount(a + b, c) == WithCount(a, c) + WithCount(b, c)
  {
    if a == [] {
      assert a + b == b;
    } else {
      assert (a + b)[0] == a[0];
      assert (a + b)[1..] == a[1..] + b;
      WithCountAppend(a[1..], b, c);
      var h := if a[0].count == c then [a[0]] else [];
      assert WithCount(a + b, c) == h + WithCount(a[1..] + b, c);
      assert WithCount(a, c) == h + WithCount(a[1..], c);
    }
  }

  /** Distinct keys survive insertion of an entry whose key is new. */
  lemma {:induction false} InsertDistinct(x: Entry, s: seq<Entry>)
    requires DistinctKeys(s)
    requires forall i :: 0 <= i < |s| ==> s[i].topic != x.topic
    ensures DistinctKeys(Insert(x, s))
  {
    if s == [] || x.count >= s[0].count {
      var r := [x] + s;
      assert Insert(x, s) == r;
      forall i, j | 0 <= i < j < |r| ensures r[i].topic != r[j].topic {
        assert r[j] == s[j - 1];
        if i > 0 {
          assert r[i] == s[i - 1];
        }
      }
    } else {
      var tail := s[1..];
      var rest := Insert(x, tail);
      assert DistinctKeys(rest) by {
        assert forall i :: 0 <= i < |tail| ==> tail[i] == s[i + 1];
        InsertDistinct(x, tail);
      }
      assert forall k :: 0 <= k < |rest| ==> rest[k].topic != s[0].topic by {
        forall k | 0 <= k < |rest| ensures rest[k].topic != s[0].topic {
          InsertPermutes(x, tail);
          assert rest[k] in multiset(rest);
          if rest[k] != x {
            assert rest[k] in multiset(tail);
            var j :| 0 <= j < |tail| && tail[j] == rest[k];
            assert s[j + 1] == rest[k];
          }
        }
      }
      var r := [s[0]] + rest;
      assert Insert(x, s) == r;
      forall i, j | 0 <= i < j < |r| ensures r[i].topic != r[j].topic {
        assert r[j] == rest[j - 1];
        if i > 0 {
          assert r[i] == rest[i - 1];
        }
      }
    }
  }

  /** Sorting keeps keys distinct. */
  lemma {:induction false} SortDistinct(s: seq<Entry>)
    requires DistinctKeys(s)
    ensures DistinctKeys(Sort(s))
  {
    if s != [] {
      SortDistinct(s[1..]);
      var rest := Sort(s[1..]);
      forall i | 0 <= i < |rest| ensures rest[i].topic != s[0].topic {
        assert rest[i] in multiset(s[1..]);
      }
      InsertDistinct(s[0], rest);
    }
  }

  /**
   * A descending sequence with the same ties as `s` is `Sort(s)`: the
   * stable descending sort is unique, so `Sort` is exactly the stable
   * descending sort the ranking uses.
   */
  lemma {:induction false} SortUnique(t: seq<Entry>, s: seq<Entry>)
    requires SortedDesc(t)
    requires SameTies(t, s)
    ensures t == Sort(s)
  {
    SortedSameTiesEqual(t, Sort(s));
  }

  lemma {:induction false} SortedSameTiesEqual(a: seq<Entry>, b: seq<Entry>)
    requires SortedDesc(a) && SortedDesc(b)
    requires forall c :: WithCount(a, c) == WithCount(b, c)
    ensures a == b
    decreases |a| + |b|
  {
    if a == [] || b == [] {
      // a non-empty side has an entry with its head's count, the other none
      var h := if a != [] then a[0] else if b != [] then b[0] else Entry("", 0);
      if a != [] || b != [] {
        assert WithCount(a, h.count) != WithCount(b, h.count);
      }
    } else {
      var ca, cb := a[0].count, b[0].count;
      // the largest count of each side occurs on the other side too
      HeadBound(b, ca, WithCount(a, ca));
      HeadBound(a, cb, WithCount(b, cb));
      assert ca == cb;
      assert WithCount(a, ca)[0] == a[0];
      assert WithCount(b, ca)[0] == b[0];
      forall c ensures WithCount(a[1..], c) == WithCount(b[1..], c) {
        assert WithCount(a, c) == WithCount(b, c);
        if c == ca {
          assert WithCount(a, c) == [a[0]] + WithCount(a[1..], c);
          assert WithCount(b, c) == [b[0]] + WithCount(b[1..], c);
          assert WithCount(a[1..], c) == WithCount(a, c)[1..];
          assert WithCount(b[1..], c) == WithCount(b, c)[1..];
        } else {
          assert WithCount(a, c) == WithCount(a[1..], c);
          assert WithCount(b, c) == WithCount(b[1..], c);
        }
      }
      SortedSameTiesEqual(a[1..], b[1..]);
      assert a == [a[0]] + a[1..] && b == [b[0]] + b[1..];
    }
  }

  /** If some entry of a descending `s` has count `c`, the head's count is at least `c`. */
  lemma {:induction false} HeadBound(s: seq<Entry>, c: int, w: seq<Entry>)
    requires SortedDesc(s)
    requires w == WithCount(s, c) && w != []
    ensures s != [] && s[0].count >= c
  {
    if s != [] && s[0].count != c {
      HeadBound(s[1..], c, w);
      assert s[1..][0] == s[1];
    }
  }

  /** Every ranked entry is an item of the input, taken at most as often as it occurs. */
  lemma Top3FromInput(topics: seq<Entry>)
    ensures multiset(Top3(topics)) <= multiset(topics)
    ensures forall e :: e in Top3(topics) ==> e in topics
  {
    var sorted := Sort(topics);
    var r := Top3(topics);
    if |sorted| > TopN {
      assert sorted == r + sorted[TopN..];
      assert multiset(sorted) == multiset(r) + multiset(sorted[TopN..]);
    }
    forall e | e in r ensures e in topics {
      assert e in multiset(r);
    }
  }

  /** A mapping's ranking names every topic at most once. */
  lemma Top3DistinctKeys(topics: seq<Entry>)
    requires DistinctKeys(topics)
    ensures DistinctKeys(Top3(topics))
  {
    SortDistinct(topics);
  }

  /** True top-k: an input item left out of a non-empty ranking counts no more than its last entry. */
  lemma Top3IsTopK(topics: seq<Entry>, x: Entry)
    requires x in topics
    requires x !in Top3(topics)
    ensures |Top3(topics)| == TopN
    ensures x.count <= Top3(topics)[TopN - 1].count
  {
    var sorted := Sort(topics);
    assert x in multiset(sorted);
    var i :| 0 <= i < |sorted| && sorted[i] == x;
    assert i >= TopN;
  }

  /**
   * Stability at the cut: for every count, the ranked entries carrying it
   * are the first ones carrying it in input order.
   */
  lemma Top3KeepsInputOrder(topics: seq<Entry>, c: int)
    ensures WithCount(Top3(topics), c) <= WithCount(topics, c)
  {
    var sorted := Sort(topics);
    if |sorted| > TopN {
      assert sorted == sorted[..TopN] + sorted[TopN..];
      WithCountAppend(sorted[..TopN], sorted[TopN..], c);
    }
  }

  /** Ranking a ranking changes nothing. */
  lemma Top3Idempotent(topics: seq<Entry>)
    ensures Top3(Top3(topics)) == Top3(topics)
  {
    var r := Top3(topics);
    SortUnique(r, r);
  }
}
