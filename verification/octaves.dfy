/**
 * Base-2 abundance classes ("octaves"): the class of an abundance n >= 1 is
 * the k with 2^k <= n < 2^(k+1), and abundances n <= 0 fall in class 0.
 */
module Octaves {
  import opened Seqs

  function Pow2(k: nat): (r: nat)
    ensures r >= 1
  {
    if k == 0 then 1 else 2 * Pow2(k - 1)
  }

  function FloorLog2(n: nat): nat
  {
    if n < 2 then 0 else 1 + FloorLog2(n / 2)
  }

  lemma {:induction false} FloorLog2Bounds(n: nat)
    requires n >= 1
    ensures Pow2(FloorLog2(n)) <= n < Pow2(FloorLog2(n) + 1)
  {
    if n >= 2 {
      FloorLog2Bounds(n / 2);
    }
  }

  lemma {:induction false} Pow2Monotone(a: nat, b: nat)
    requires a <= b
    ensures Pow2(a) <= Pow2(b)
  {
    if a < b {
      Pow2Monotone(a, b - 1);
    }
  }

  /** The octave of an abundance; the bracketing by powers of two pins it down. */
  function Octave(n: int): (k: nat)
    ensures n >= 1 ==> Pow2(k) <= n < Pow2(k + 1)
    ensures n <= 1 ==> k == 0
  {
    if n <= 0 then 0 else FloorLog2Bounds(n); FloorLog2(n)
  }

  /** At most one class brackets a given abundance. */
  lemma OctaveUnique(n: int, k: nat)
    requires Pow2(k) <= n < Pow2(k + 1)
    ensures k == Octave(n)
  {
    var o := Octave(n);
    if k < o {
      Pow2Monotone(k + 1, o);
    } else if o < k {
      Pow2Monotone(o + 1, k);
    }
  }

  lemma OctaveMonotone(a: int, b: int)
    requires a <= b
    ensures Octave(a) <= Octave(b)
  {
    if a >= 1 && Octave(b) < Octave(a) {
      Pow2Monotone(Octave(b) + 1, Octave(a));
    }
  }

  /**
   * A count no larger than `size` (>= 1) has its class among the
   * `1 + floor(log2(size))` buckets sized for that population.
   */
  lemma OctaveWithin(n: int, size: nat)
    requires 1 <= size && n <= size
    ensures Octave(n) < 1 + FloorLog2(size)
  {
    FloorLog2Bounds(size);
    OctaveMonotone(n, size);
    OctaveUnique(size, FloorLog2(size));
  }

  /**
   * `octave_sort`: doubles a window [min, max) until it holds the abundance.
   * The window bounds are `long`s, so the loop stays in range only for
   * abundances below 2^62.
   */
  method OctaveSort(abIn: int) returns (result: nat)
    requires abIn < 0x4000_0000_0000_0000
    ensures result == Octave(abIn)
  {
    if abIn <= 0 {
      result := 0;
    } else {
      var min := 1;
      var max := 2;
      result := 0;
      while !(abIn < max && abIn >= min)
        invariant min == Pow2(result) && max == 2 * min
        invariant min <= abIn
        decreases abIn - min
      {
        min := min * 2;
        max := max * 2;
        result := result + 1;
      }
      OctaveUnique(abIn, result);
    }
  }

  /**
   * The per-class species counts of a list of abundances, in `size` buckets,
   * one increment per abundance in list order.
   */
  function OctaveCounts(abundances: seq<int>, size: nat): (c: seq<int>)
    requires forall i :: 0 <= i < |abundances| ==> Octave(abundances[i]) < size
    ensures |c| == size
  {
    if abundances == [] then Zeros(size)
    else
      var prev := OctaveCounts(abundances[..|abundances| - 1], size);
      var k := Octave(abundances[|abundances| - 1]);
      prev[k := prev[k] + 1]
  }

  /** Every abundance lands in exactly one bucket, so the buckets sum to the number of abundances. */
  lemma {:induction false} OctaveCountsSum(abundances: seq<int>, size: nat)
    requires forall i :: 0 <= i < |abundances| ==> Octave(abundances[i]) < size
    ensures Sum(OctaveCounts(abundances, size)) == |abundances|
    ensures forall k :: 0 <= k < size ==> OctaveCounts(abundances, size)[k] >= 0
  {
    if abundances == [] {
      SumZeros(size);
    } else {
      var n := |abundances|;
      OctaveCountsSum(abundances[..n - 1], size);
      var prev := OctaveCounts(abundances[..n - 1], size);
      SumUpdate(prev, Octave(abundances[n - 1]), 1);
    }
  }

  /**
   * The bucket-filling loop shared by both octave histograms: a zeroed
   * vector of `size` buckets, then `octaves[octave_sort(a)]++` per abundance.
   */
  method CountOctaves(abundances: seq<int>, size: nat) returns (octaves: seq<int>)
    requires forall i :: 0 <= i < |abundances| ==> abundances[i] < 0x4000_0000_0000_0000
    requires forall i :: 0 <= i < |abundances| ==> Octave(abundances[i]) < size
    ensures octaves == OctaveCounts(abundances, size)
  {
    octaves := Zeros(size);
    for i := 0 to |abundances|
      invariant octaves == OctaveCounts(abundances[..i], size)
    {
      var oct := OctaveSort(abundances[i]);
      assert abundances[..i + 1][..i] == abundances[..i];
      octaves := octaves[oct := octaves[oct] + 1];
    }
    assert abundances[..|abundances|] == abundances;
  }

  /** How many of the abundances fall in class `k`. */
  function CountInClass(abundances: seq<int>, k: nat): nat
  {
    if abundances == [] then 0
    else CountInClass(abundances[..|abundances| - 1], k) + (if Octave(abundances[|abundances| - 1]) == k then 1 else 0)
  }

  /** Bucket k counts exactly the abundances whose class is k. */
  lemma {:induction false} OctaveCountsAt(abundances: seq<int>, size: nat, k: nat)
    requires forall i :: 0 <= i < |abundances| ==> Octave(abundances[i]) < size
    requires k < size
    ensures OctaveCounts(abundances, size)[k] == CountInClass(abundances, k)
  {
    if abundances != [] {
      OctaveCountsAt(abundances[..|abundances| - 1], size, k);
    }
  }

  /** Drops trailing zero buckets, as the `pop_back` loop does. */
  function TrimZeros(s: seq<int>): (r: seq<int>)
    ensures |r| <= |s| && r == s[..|r|]
    ensures r != [] ==> r[|r| - 1] != 0
    ensures forall i :: |r| <= i < |s| ==> s[i] == 0
  {
    if s == [] || s[|s| - 1] != 0 then s else TrimZeros(s[..|s| - 1])
  }

  lemma {:induction false} TrimZerosSum(s: seq<int>)
    ensures Sum(TrimZeros(s)) == Sum(s)
  {
    if s != [] && s[|s| - 1] == 0 {
      TrimZerosSum(s[..|s| - 1]);
    }
  }
}
