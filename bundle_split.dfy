/**
 * A provider's bundle is stored as one string of topic names joined by a
 * delimiter ('+'). Splitting on a one-character separator cuts the string
 * at every occurrence of the separator: `n` separators give `n + 1`
 * pieces, some possibly empty, and the empty string gives one empty piece.
 */
module BundleSplit {

  const Delimiter: char := '+'

  /** Pieces of `s` between consecutive occurrences of `d`, left to right. */
  function Split(s: string, d: char): (r: seq<string>)
    ensures |r| >= 1
    ensures forall k :: 0 <= k < |r| ==> d !in r[k]
    decreases |s|
  {
    if s == [] then [""]
    else
      var rest := Split(s[1..], d);
      if s[0] == d then [""] + rest
      else [[s[0]] + rest[0]] + rest[1..]
  }

  /** The pieces glued back together with `d` between consecutive pieces. */
  function Join(pieces: seq<string>, d: char): string
  {
    if |pieces| == 0 then ""
    else if |pieces| == 1 then pieces[0]
    else pieces[0] + [d] + Join(pieces[1..], d)
  }

  /** Joining the pieces back with the delimiter restores the string. */
  lemma {:induction false} JoinSplit(s: string, d: char)
    ensures Join(Split(s, d), d) == s
    decreases |s|
  {
    if s != [] {
      var rest := Split(s[1..], d);
      JoinSplit(s[1..], d);
      assert Join(Split(s, d), d) == [s[0]] + Join(rest, d) by {
        if s[0] == d {
          assert Split(s, d) == [""] + rest;
          JoinCons("", rest, d);
        } else {
          var r := Split(s, d);
          assert r == [[s[0]] + rest[0]] + rest[1..];
          if |rest| == 1 {
            assert r == [[s[0]] + rest[0]];
          } else {
            assert r[1..] == rest[1..];
            assert rest == [rest[0]] + rest[1..];
            JoinCons(rest[0], rest[1..], d);
            JoinCons([s[0]] + rest[0], rest[1..], d);
          }
        }
      }
      assert s == [s[0]] + s[1..];
    }
  }

  /** Unfolding Join on a sequence given as head and tail. */
  lemma JoinCons(p: string, ps: seq<string>, d: char)
    requires |ps| >= 1
    ensures Join([p] + ps, d) == p + [d] + Join(ps, d)
  {
    assert ([p] + ps)[1..] == ps;
  }

  /**
   * Splitting a join of at least one delimiter-free piece gives back the
   * pieces, so every list of topic names has exactly one bundle string.
   */
  lemma {:induction false} SplitJoin(pieces: seq<string>, d: char)
    requires |pieces| >= 1
    requires forall k :: 0 <= k < |pieces| ==> d !in pieces[k]
    ensures Split(Join(pieces, d), d) == pieces
    decreases |pieces|, |pieces[0]|
  {
    var p := pieces[0];
    if |pieces| == 1 {
      SplitPlain(p, [], d);
      assert p + [] == p;
    } else {
      var tail := pieces[1..];
      SplitJoin(tail, d);
      JoinCons(p, tail, d);
      assert pieces == [p] + tail;
      SplitPlain(p, [d] + Join(tail, d), d);
      assert p + [d] + Join(tail, d) == p + ([d] + Join(tail, d));
      SplitDelimiterFirst(Join(tail, d), d);
      var r := Split([d] + Join(tail, d), d);
      assert r == [""] + tail;
      assert r[0] == "" && r[1..] == tail;
      assert p + r[0] == p;
      assert [p + r[0]] + r[1..] == [p] + tail;
    }
  }

  /** A string that starts with the delimiter splits into "" and the rest's pieces. */
  lemma SplitDelimiterFirst(s: string, d: char)
    ensures Split([d] + s, d) == [""] + Split(s, d)
  {
    assert ([d] + s)[1..] == s;
  }

  /** A delimiter-free prefix is glued onto the first piece of what follows it. */
  lemma {:induction false} SplitPlain(p: string, s: string, d: char)
    requires d !in p
    ensures var r := Split(s, d); Split(p + s, d) == [p + r[0]] + r[1..]
    decreases |p|
  {
    if p == [] {
      assert p + s == s;
      var r := Split(s, d);
      assert p + r[0] == r[0];
      assert [r[0]] + r[1..] == r;
    } else {
      var q := p[1..];
      SplitPlain(q, s, d);
      assert (p + s)[1..] == q + s;
      assert (p + s)[0] == p[0];
      var r := Split(s, d);
      var rest := Split(q + s, d);
      assert rest == [q + r[0]] + r[1..];
      assert [p[0]] + (q + r[0]) == p + r[0];
    }
  }

  /** The repository's bundles split as expected. */
  lemma SplitExamples()
    ensures Split("math+science", '+') == ["math", "science"]
    ensures Split("math", '+') == ["math"]
    ensures Split("", '+') == [""]
  {
    var pieces := ["math", "science"];
    assert Join(pieces, '+') == "math+science";
    SplitJoin(pieces, '+');
    assert Join(["math"], '+') == "math";
    SplitJoin(["math"], '+');
  }
}
