/**
 * The local-community histogram: occupancy counts keyed by species id.
 * A `std::map<int, int>` iterates in ascending key order, so it is kept here
 * as a list of bins with strictly increasing ids.
 */
module Histogram {

  datatype Bin = Bin(id: int, abundance: nat)

  predicate Ordered(h: seq<Bin>)
  {
    forall i, j :: 0 <= i < j < |h| ==> h[i].id < h[j].id
  }

  function Keys(h: seq<Bin>): set<int>
  {
    if h == [] then {} else {h[0].id} + Keys(h[1..])
  }

  lemma {:induction false} KeysMember(h: seq<Bin>, k: int)
    ensures k in Keys(h) <==> exists i :: 0 <= i < |h| && h[i].id == k
  {
    if h != [] {
      KeysMember(h[1..], k);
      if k in Keys(h[1..]) {
        var i :| 0 <= i < |h| - 1 && h[1..][i].id == k;
        assert h[i + 1].id == k;
      }
      if exists i :: 0 <= i < |h| && h[i].id == k {
        var i :| 0 <= i < |h| && h[i].id == k;
        if i > 0 {
          assert h[1..][i - 1].id == k;
        }
      }
    }
  }

  /** An id below every key of an ordered histogram has no bin. */
  lemma {:induction false} LookupBelow(h: seq<Bin>, k: int)
    requires Ordered(h) && (h != [] ==> k < h[0].id)
    ensures Lookup(h, k) == 0 && k !in Keys(h)
  {
    if h != [] {
      LookupBelow(h[1..], k);
    }
  }

  /** The count stored for `k`, or 0 when `k` has no bin (what `operator[]` starts from). */
  function Lookup(h: seq<Bin>, k: int): nat
  {
    if h == [] then 0 else if h[0].id == k then h[0].abundance else Lookup(h[1..], k)
  }

  function Total(h: seq<Bin>): nat
  {
    if h == [] then 0 else h[0].abundance + Total(h[1..])
  }

  predicate Positive(h: seq<Bin>)
  {
    forall i :: 0 <= i < |h| ==> h[i].abundance > 0
  }

  /** `++histogram[k]`: bump the bin of `k`, inserting it in key order when absent. */
  function Increment(h: seq<Bin>, k: int): (r: seq<Bin>)
    ensures |h| <= |r| <= |h| + 1
  {
    if h == [] then [Bin(k, 1)]
    else if k < h[0].id then [Bin(k, 1)] + h
    else if k == h[0].id then [Bin(k, h[0].abundance + 1)] + h[1..]
    else [h[0]] + Increment(h[1..], k)
  }

  /** The increment adds `k` to the keys and nothing else. */
  lemma {:induction false} IncrementKeys(h: seq<Bin>, k: int)
    ensures Keys(Increment(h, k)) == Keys(h) + {k}
  {
    if h != [] {
      var r := Increment(h, k);
      if k < h[0].id {
        assert r[1..] == h;
      } else if k == h[0].id {
        assert r[1..] == h[1..];
      } else {
        IncrementKeys(h[1..], k);
        assert r[1..] == Increment(h[1..], k);
      }
    }
  }

  /** The increment keeps the bins in strictly increasing key order. */
  lemma {:induction false} IncrementOrdered(h: seq<Bin>, k: int)
    requires Ordered(h)
    ensures Ordered(Increment(h, k))
  {
    if h != [] && k > h[0].id {
      var rest := Increment(h[1..], k);
      IncrementOrdered(h[1..], k);
      IncrementKeys(h[1..], k);
      var r := Increment(h, k);
      assert r == [h[0]] + rest;
      forall j | 0 < j < |r|
        ensures h[0].id < r[j].id
      {
        assert r[j] == rest[j - 1];
        KeysMember(rest, r[j].id);
        KeysMember(h[1..], r[j].id);
      }
    }
  }

  /** The increment adds one to the count of `k`, one to the total, and leaves every other count alone. */
  lemma {:induction false} IncrementCounts(h: seq<Bin>, k: int)
    requires Ordered(h)
    ensures Lookup(Increment(h, k), k) == Lookup(h, k) + 1
    ensures forall k' :: k' != k ==> Lookup(Increment(h, k), k') == Lookup(h, k')
    ensures Total(Increment(h, k)) == Total(h) + 1
  {
    if h != [] {
      var r := Increment(h, k);
      if k < h[0].id {
        LookupBelow(h, k);
        assert r[1..] == h;
      } else if k == h[0].id {
        assert r[1..] == h[1..];
      } else {
        IncrementCounts(h[1..], k);
        assert r[1..] == Increment(h[1..], k);
      }
    }
  }

  /** No bin of an incremented histogram of non-empty bins is empty. */
  lemma {:induction false} IncrementPositive(h: seq<Bin>, k: int)
    requires Positive(h)
    ensures Positive(Increment(h, k))
  {
    if h != [] && k > h[0].id {
      IncrementPositive(h[1..], k);
    }
  }

  /** The histogram of a sequence of ids, built by one increment per id in order. */
  function Build(ids: seq<int>): (h: seq<Bin>)
    ensures Ordered(h) && Positive(h)
  {
    if ids == [] then []
    else
      var prev := Build(ids[..|ids| - 1]);
      IncrementOrdered(prev, ids[|ids| - 1]);
      IncrementPositive(prev, ids[|ids| - 1]);
      Increment(prev, ids[|ids| - 1])
  }

  /** How often `k` occurs in `ids`. */
  function Occurrences(ids: seq<int>, k: int): nat
  {
    if ids == [] then 0 else Occurrences(ids[..|ids| - 1], k) + (if ids[|ids| - 1] == k then 1 else 0)
  }

  /**
   * The histogram is exactly the occurrence count: its keys are the ids that
   * occur, each stored with how often it occurs, and its counts sum to `|ids|`.
   */
  lemma {:induction false} BuildCounts(ids: seq<int>)
    ensures Keys(Build(ids)) == set x | x in ids
    ensures Total(Build(ids)) == |ids|
    ensures forall k :: Lookup(Build(ids), k) == Occurrences(ids, k)
  {
    if ids != [] {
      var n := |ids|;
      var pre := ids[..n - 1];
      BuildCounts(pre);
      IncrementKeys(Build(pre), ids[n - 1]);
      IncrementCounts(Build(pre), ids[n - 1]);
      assert ids == pre + [ids[n - 1]];
      assert (set x | x in ids) == (set x | x in pre) + {ids[n - 1]};
    }
  }

  /** In an ordered histogram every id has one bin, so the richness is the number of distinct ids. */
  lemma {:induction false} OrderedSize(h: seq<Bin>)
    requires Ordered(h)
    ensures |Keys(h)| == |h|
  {
    if h != [] {
      OrderedSize(h[1..]);
      KeysMember(h[1..], h[0].id);
    }
  }

  /** The abundances in key order, as the map iteration visits them. */
  function Abundances(h: seq<Bin>): (a: seq<int>)
    ensures |a| == |h|
    ensures forall i :: 0 <= i < |h| ==> a[i] == h[i].abundance
  {
    seq(|h|, i requires 0 <= i < |h| => h[i].abundance)
  }

  /** No bin holds more than the whole population. */
  lemma {:induction false} BinAtMostTotal(h: seq<Bin>, i: nat)
    requires i < |h|
    ensures h[i].abundance <= Total(h)
  {
    if i > 0 {
      BinAtMostTotal(h[1..], i - 1);
    }
  }
}
