/**
 * The rank-abundance curve: the local abundances sorted in descending order
 * (the `std::sort` with `std::greater`) and rescaled so that the most
 * abundant species reads 100.
 */
module RankAbundance {

  /** The abundances as the `double`s the curve is built from. */
  function AsReals(s: seq<int>): (r: seq<real>)
    ensures |r| == |s|
    ensures forall i :: 0 <= i < |s| ==> r[i] == s[i] as real
  {
    seq(|s|, i requires 0 <= i < |s| => s[i] as real)
  }

  predicate NonIncreasing(s: seq<real>)
  {
    forall i, j :: 0 <= i < j < |s| ==> s[i] >= s[j]
  }

  /** Inserts `v` into a list before its first element smaller than `v`. */
  function InsertDesc(v: real, s: seq<real>): (r: seq<real>)
    ensures |r| == |s| + 1
    ensures r[0] == if s == [] || v >= s[0] then v else s[0]
  {
    if s == [] then [v]
    else if v >= s[0] then [v] + s
    else [s[0]] + InsertDesc(v, s[1..])
  }

  /** Inserting adds exactly `v`. */
  lemma {:induction false} InsertDescPermutes(v: real, s: seq<real>)
    ensures multiset(InsertDesc(v, s)) == multiset(s) + multiset{v}
  {
    if s != [] && v < s[0] {
      InsertDescPermutes(v, s[1..]);
      assert s == [s[0]] + s[1..];
    }
  }

  /** Inserting into a descending list keeps it descending. */
  lemma {:induction false} InsertDescSorted(v: real, s: seq<real>)
    requires NonIncreasing(s)
    ensures NonIncreasing(InsertDesc(v, s))
  {
    if s != [] && v < s[0] {
      var rest := InsertDesc(v, s[1..]);
      InsertDescSorted(v, s[1..]);
      var r := [s[0]] + rest;
      assert InsertDesc(v, s) == r;
      forall i, j | 0 <= i < j < |r|
        ensures r[i] >= r[j]
      {
        assert r[j] == rest[j - 1];
        if i == 0 {
          assert rest[0] <= s[0];
        } else {
          assert r[i] == rest[i - 1];
        }
      }
    }
  }

  /**
   * The descending sort, written as an insertion sort: a specification of
   * the library sort, not of its algorithm.
   */
  function SortDesc(s: seq<real>): (r: seq<real>)
    ensures |r| == |s|
    ensures NonIncreasing(r)
    ensures multiset(r) == multiset(s)
  {
    if s == [] then []
    else
      var init, last := s[..|s| - 1], s[|s| - 1];
      var pre := SortDesc(init);
      InsertDescPermutes(last, pre);
      InsertDescSorted(last, pre);
      assert s == init + [last];
      assert multiset(s) == multiset(init) + multiset{last};
      InsertDesc(last, pre)
  }

  /** Every abundance on the curve is a count of at least one individual. */
  predicate AllAtLeastOne(s: seq<real>)
  {
    forall i :: 0 <= i < |s| ==> s[i] >= 1.0
  }

  /**
   * The running maximum of the fill loop, which starts at -1: the largest
   * element, or -1 when there is none.
   */
  function MaxOrMinusOne(s: seq<real>): (m: real)
    requires AllAtLeastOne(s)
    ensures s == [] ==> m == -1.0
    ensures s != [] ==> m in s
    ensures forall i :: 0 <= i < |s| ==> s[i] <= m
  {
    if s == [] then -1.0
    else
      var pre := s[..|s| - 1];
      var m := MaxOrMinusOne(pre);
      assert forall i :: 0 <= i < |pre| ==> pre[i] == s[i];
      assert m in pre ==> m in s;
      if s[|s| - 1] > m then s[|s| - 1] else m
  }

  /** One point of the curve: `v * (100.0 / max)`, the source's `i *= mult`. */
  function Percent(v: real, max: real): real
    requires max != 0.0
  {
    v * (100.0 / max)
  }

  lemma {:induction false} PercentMonotone(a: real, b: real, max: real)
    requires a >= b && max > 0.0
    ensures Percent(a, max) >= Percent(b, max)
  {
    var mult := 100.0 / max;
    assert mult > 0.0;
    assert (a - b) * mult >= 0.0;
  }

  lemma PercentOfMax(max: real)
    requires max >= 1.0
    ensures Percent(max, max) == 100.0
  {
  }

  function Scale(s: seq<real>, max: real): (r: seq<real>)
    requires max != 0.0
    ensures |r| == |s|
    ensures forall i :: 0 <= i < |s| ==> r[i] == Percent(s[i], max)
  {
    seq(|s|, i requires 0 <= i < |s| => Percent(s[i], max))
  }

  /** The curve built from the abundances `values`. */
  function RankCurve(values: seq<real>): (r: seq<real>)
    requires AllAtLeastOne(values)
    ensures |r| == |values|
  {
    Scale(SortDesc(values), MaxOrMinusOne(values))
  }

  /** A descending permutation starts with the maximum. */
  lemma SortedHeadIsMax(values: seq<real>)
    requires values != [] && AllAtLeastOne(values)
    ensures SortDesc(values)[0] == MaxOrMinusOne(values)
  {
    var r := SortDesc(values);
    var m := MaxOrMinusOne(values);
    assert r[0] in multiset(values);
    assert m in multiset(r);
    var j :| 0 <= j < |r| && r[j] == m;
    var k :| 0 <= k < |values| && values[k] == r[0];
  }

  /** Scaling by a positive maximum keeps a descending list descending. */
  lemma ScalePreservesOrder(s: seq<real>, max: real)
    requires NonIncreasing(s) && max > 0.0
    ensures NonIncreasing(Scale(s, max))
  {
    forall i, j | 0 <= i < j < |s|
      ensures Percent(s[i], max) >= Percent(s[j], max)
    {
      PercentMonotone(s[i], s[j], max);
    }
  }

  /**
   * The curve has one point per species, is in non-increasing order and
   * starts at exactly 100.
   */
  lemma RankCurveProperties(values: seq<real>)
    requires AllAtLeastOne(values)
    ensures |RankCurve(values)| == |values|
    ensures NonIncreasing(RankCurve(values))
    ensures values != [] ==> RankCurve(values)[0] == 100.0
  {
    if values != [] {
      var m := MaxOrMinusOne(values);
      assert m >= values[0];
      ScalePreservesOrder(SortDesc(values), m);
      SortedHeadIsMax(values);
      PercentOfMax(m);
    }
  }
}
