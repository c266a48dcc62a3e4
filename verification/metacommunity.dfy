/**
 * The metacommunity: a Hoppe-urn abundance-by-rank table grown one
 * individual at a time, one species per nonzero bucket, a cumulative
 * abundance table and the abundance-proportional draw over it.
 *
 * The uniform draws of the random source are inputs: `xs[j - 1]` is the
 * uniform drawn in iteration `j` of the urn loop, `mint[k]` the id and
 * colour drawn for the k-th species materialised, `u` the uniform of a draw.
 * Floating-point values are exact reals.
 */
module Metacommunity {
  import opened Seqs
  import opened Cells
  import opened Octaves

  predicate NonNegative(s: seq<int>)
  {
    forall i :: 0 <= i < |s| ==> s[i] >= 0
  }

  predicate Uniforms(xs: seq<real>)
  {
    forall i :: 0 <= i < |xs| ==> 0.0 <= xs[i] < 1.0
  }

  /** `static_cast<int>` of a real: truncation toward zero. */
  function TruncToInt(r: real): (t: int)
    ensures r >= 0.0 ==> t as real <= r < t as real + 1.0
    ensures r < 0.0 ==> t as real - 1.0 < r <= t as real
  {
    if r >= 0.0 then r.Floor else -((-r).Floor)
  }

  /** `translate_to_abund` for uniform `x` in iteration `j`. */
  function Translate(x: real, j: nat): int
  {
    TruncToInt(x * j as real - 1.0)
  }

  /**
   * The translated index lies in [-1, j - 1], and it is -1 exactly when the
   * uniform is 0; in particular it is below the `j` individuals in the urn.
   */
  lemma TranslateBounds(x: real, j: nat)
    requires 0.0 <= x < 1.0 && j >= 1
    ensures -1 <= Translate(x, j) <= j - 1
    ensures Translate(x, j) == -1 <==> x == 0.0
  {
    var r := x * j as real;
    assert 0.0 <= r < j as real by {
      assert x * j as real < 1.0 * j as real;
    }
    if x > 0.0 {
      assert r > 0.0;
    }
  }

  /** The chance that draw `j` founds a new species: `theta / (theta + j - 1)`. */
  function SpeciationChance(j: nat, theta: real): real
    requires theta > 0.0 && j >= 1
  {
    theta / (theta + j as real - 1.0)
  }

  /** The new-species test `x < theta / (theta + j - 1)`. */
  predicate IsNewSpecies(x: real, j: nat, theta: real)
    requires theta > 0.0 && j >= 1
  {
    x < SpeciationChance(j, theta)
  }

  /** The running total of the table through bucket `k`. */
  function Running(abund: seq<int>, k: nat): int
    requires k < |abund|
  {
    Sum(abund[..k + 1])
  }

  /**
   * Where the linear scan of `create_meta_community` stops, starting at
   * bucket `i`: the first bucket whose running total reaches `t`, or
   * `|abund|` when none does.
   */
  function ScanIndex(abund: seq<int>, t: int, i: nat): (r: nat)
    requires i <= |abund|
    ensures i <= r <= |abund|
    ensures r < |abund| ==> t <= Running(abund, r)
    ensures forall k :: i <= k < r ==> t > Running(abund, k)
    decreases |abund| - i
  {
    if i == |abund| then i
    else if t - Running(abund, i) <= 0 then i
    else ScanIndex(abund, t, i + 1)
  }

  /** A target below the urn's total always stops the scan inside the table. */
  lemma ScanInBounds(abund: seq<int>, t: int)
    requires |abund| >= 1 && t < Sum(abund)
    ensures ScanIndex(abund, t, 0) < |abund|
  {
    var r := ScanIndex(abund, t, 0);
    assert abund[..|abund|] == abund;
    assert Running(abund, |abund| - 1) == Sum(abund);
  }

  /** One iteration `j` of the urn loop on the table `abund`. */
  function HoppeStep(abund: seq<int>, j: nat, x: real, theta: real): (r: seq<int>)
    requires |abund| >= 1 && j >= 1 && Sum(abund) == j && 0.0 <= x < 1.0 && theta > 0.0
    ensures |abund| <= |r| <= |abund| + 1
    ensures forall i :: 0 <= i < |abund| ==> r[i] >= abund[i]
  {
    if IsNewSpecies(x, j, theta) then abund + [1]
    else
      TranslateBounds(x, j);
      ScanInBounds(abund, Translate(x, j));
      var i := ScanIndex(abund, Translate(x, j), 0);
      abund[i := abund[i] + 1]
  }

  /** A step that does not speciate adds one individual to the scanned bucket. */
  lemma HoppeStepExisting(abund: seq<int>, j: nat, x: real, theta: real, i: nat)
    requires |abund| >= 1 && j >= 1 && Sum(abund) == j && 0.0 <= x < 1.0 && theta > 0.0
    requires !IsNewSpecies(x, j, theta) && i == ScanIndex(abund, Translate(x, j), 0) && i < |abund|
    ensures HoppeStep(abund, j, x, theta) == abund[i := abund[i] + 1]
  {
    TranslateBounds(x, j);
    ScanInBounds(abund, Translate(x, j));
  }

  /**
   * A draw of an existing individual whose translated index is at most 0
   * stops the scan at bucket 0, the placeholder bucket, which then holds an
   * individual of its own.
   */
  lemma HoppeStepPlaceholder(abund: seq<int>, j: nat, x: real, theta: real)
    requires |abund| >= 1 && j >= 1 && Sum(abund) == j && 0.0 <= x < 1.0 && theta > 0.0
    requires NonNegative(abund) && !IsNewSpecies(x, j, theta) && Translate(x, j) <= 0
    ensures HoppeStep(abund, j, x, theta) == abund[0 := abund[0] + 1]
  {
    assert Running(abund, 0) == abund[0] by {
      assert abund[..1] == [abund[0]];
      assert Sum([abund[0]]) == abund[0] + Sum([]);
    }
  }

  /**
   * With theta = 1, a speciation in draw 1 and the uniform 0.9 in draw 2,
   * the second draw goes to the placeholder bucket 0. The table then has
   * three nonempty buckets after a single speciation event: the species
   * opened by draw 1, the first species, and bucket 0 itself.
   */
  lemma PlaceholderExample()
    ensures Hoppe([0.5, 0.9], 1.0) == [1, 1, 1]
  {
    var xs := [0.5, 0.9];
    FirstDrawSpeciates();
    assert Sum([0, 1, 1]) == 2 by {
      assert [0, 1, 1][..2] == [0, 1];
    }
    assert SpeciationChance(2, 1.0) == 0.5;
    assert Translate(0.9, 2) == 0 by {
      assert 0.9 * 2 as real - 1.0 == 0.8;
    }
    assert xs[..1] == [0.5];
    HoppeStepPlaceholder([0, 1, 1], 2, 0.9, 1.0);
  }

  /** With theta = 1 the first draw always speciates. */
  lemma FirstDrawSpeciates()
    ensures Hoppe([0.5], 1.0) == [0, 1, 1]
  {
    assert SpeciationChance(1, 1.0) == 1.0;
    assert Sum([0, 1]) == 1 by {
      assert Sum([0, 1]) == 1 + Sum([0]) && Sum([0]) == 0 + Sum([]);
    }
    assert [0.5][..0] == [];
  }

  /**
   * A step adds one individual: either a new bucket holding 1, or one more
   * in an existing bucket.
   */
  lemma HoppeStepShape(abund: seq<int>, j: nat, x: real, theta: real)
    requires |abund| >= 1 && j >= 1 && Sum(abund) == j && 0.0 <= x < 1.0 && theta > 0.0
    requires NonNegative(abund)
    ensures var r := HoppeStep(abund, j, x, theta);
      && NonNegative(r) && Sum(r) == j + 1
      && |r| == |abund| + (if IsNewSpecies(x, j, theta) then 1 else 0)
  {
    if IsNewSpecies(x, j, theta) {
      SumAppend(abund, [1]);
      assert [1][..0] == [];
    } else {
      TranslateBounds(x, j);
      ScanInBounds(abund, Translate(x, j));
      SumUpdate(abund, ScanIndex(abund, Translate(x, j), 0), 1);
    }
  }

  /**
   * The abundance-by-rank table after the draws `xs`: bucket 0 is the
   * placeholder the source starts with, bucket 1 the first species.
   * It has between 2 and `|xs| + 2` buckets, none negative, holding
   * `|xs| + 1` individuals.
   */
  function Hoppe(xs: seq<real>, theta: real): (r: seq<int>)
    requires Uniforms(xs) && theta > 0.0
    ensures 2 <= |r| <= |xs| + 2 && NonNegative(r)
    ensures Sum(r) == |xs| + 1
  {
    if xs == [] then
      assert [0, 1][..1] == [0];
      [0, 1]
    else
      var prev := Hoppe(xs[..|xs| - 1], theta);
      HoppeStepShape(prev, |xs|, xs[|xs| - 1], theta);
      HoppeStep(prev, |xs|, xs[|xs| - 1], theta)
  }

  /** The nonzero buckets, in bucket order. */
  function NonZero(abund: seq<int>): (nz: seq<int>)
    ensures |nz| <= |abund|
    ensures forall k :: 0 <= k < |nz| ==> nz[k] > 0
  {
    if abund == [] then []
    else
      var prev := NonZero(abund[..|abund| - 1]);
      if abund[|abund| - 1] > 0 then prev + [abund[|abund| - 1]] else prev
  }

  /** Dropping empty buckets loses no individuals. */
  lemma {:induction false} NonZeroSum(abund: seq<int>)
    requires NonNegative(abund)
    ensures Sum(NonZero(abund)) == Sum(abund)
  {
    if abund != [] {
      var n := |abund|;
      NonZeroSum(abund[..n - 1]);
      SumAppend(NonZero(abund[..n - 1]), [abund[n - 1]]);
      assert [abund[n - 1]][..0] == [];
    }
  }

  /** One species per nonzero bucket: the k-th takes its id and colour from `mint[k]`. */
  function Materialize(abund: seq<int>, mint: seq<SpeciesDraw>): (meta: seq<Species>)
    requires |mint| >= |abund| && forall k :: 0 <= k < |mint| ==> ValidDraw(mint[k])
  {
    var nz := NonZero(abund);
    seq(|nz|, k requires 0 <= k < |nz| => NewSpecies(nz[k], mint[k]))
  }

  function Counts(meta: seq<Species>): (c: seq<int>)
    ensures |c| == |meta|
    ensures forall i :: 0 <= i < |meta| ==> c[i] == meta[i].count
  {
    seq(|meta|, i requires 0 <= i < |meta| => meta[i].count)
  }

  /** The cumulative table: entry `i` is the total of the first `i + 1` counts. */
  function CumSum(c: seq<int>): (cdf: seq<int>)
    ensures |cdf| == |c|
    ensures forall i :: 0 <= i < |c| ==> cdf[i] == Running(c, i)
  {
    if c == [] then []
    else
      var pre := c[..|c| - 1];
      var prev := CumSum(pre);
      forall i | 0 <= i < |pre| ensures Running(pre, i) == Running(c, i) {
        assert pre[..i + 1] == c[..i + 1];
      }
      assert c[..|c|] == c;
      prev + [Sum(c)]
  }

  predicate StrictlyIncreasing(s: seq<int>)
  {
    forall i, j :: 0 <= i < j < |s| ==> s[i] < s[j]
  }

  predicate NonDecreasing(s: seq<int>)
  {
    forall i, j :: 0 <= i < j < |s| ==> s[i] <= s[j]
  }

  /** Prefix totals of positive counts grow strictly. */
  lemma {:induction false} CumSumStrict(c: seq<int>)
    requires forall k :: 0 <= k < |c| ==> c[k] > 0
    ensures StrictlyIncreasing(CumSum(c))
  {
    var cdf := CumSum(c);
    forall i, j | 0 <= i < j < |c|
      ensures cdf[i] < cdf[j]
    {
      PrefixSumGrows(c, i, j);
    }
  }

  lemma {:induction false} PrefixSumGrows(c: seq<int>, i: nat, j: nat)
    requires forall k :: 0 <= k < |c| ==> c[k] > 0
    requires i < j < |c|
    ensures Running(c, i) < Running(c, j)
  {
    assert c[..j + 1][..j] == c[..j];
    if i < j - 1 {
      PrefixSumGrows(c, i, j - 1);
    }
  }

  /**
   * The materialised metacommunity of a table holding `total >= 1`
   * individuals: one species per nonzero bucket with that bucket's count,
   * all counts positive and summing to `total`, at least one species, and a
   * cumulative table of the same length that increases strictly up to `total`.
   */
  lemma MaterializeProperties(abund: seq<int>, mint: seq<SpeciesDraw>, total: nat)
    requires |mint| >= |abund| && forall k :: 0 <= k < |mint| ==> ValidDraw(mint[k])
    requires NonNegative(abund) && Sum(abund) == total && total >= 1
    ensures Counts(Materialize(abund, mint)) == NonZero(abund)
    ensures forall k :: 0 <= k < |Materialize(abund, mint)| ==> Materialize(abund, mint)[k].count > 0
    ensures forall k :: 0 <= k < |Materialize(abund, mint)| ==> ColorInRange(Materialize(abund, mint)[k])
    ensures |Materialize(abund, mint)| >= 1
    ensures Sum(Counts(Materialize(abund, mint))) == total
    ensures StrictlyIncreasing(CumSum(Counts(Materialize(abund, mint))))
    ensures CumSum(Counts(Materialize(abund, mint)))[|Materialize(abund, mint)| - 1] == total
  {
    var meta := Materialize(abund, mint);
    var c := Counts(meta);
    assert c == NonZero(abund);
    NonZeroSum(abund);
    assert c != [];
    CumSumStrict(c);
    assert c[..|c|] == c;
  }

  /**
   * `std::lower_bound` over a non-decreasing table: the first position in
   * [lo, hi) whose entry is at least `p`, or `hi`.
   */
  function LowerBound(s: seq<int>, p: real, lo: nat, hi: nat): (r: nat)
    requires lo <= hi <= |s| && NonDecreasing(s)
    ensures lo <= r <= hi
    ensures forall i :: lo <= i < r ==> (s[i] as real) < p
    ensures forall i :: r <= i < hi ==> (s[i] as real) >= p
    decreases hi - lo
  {
    if lo == hi then lo
    else
      var mid := (lo + hi) / 2;
      if (s[mid] as real) < p then LowerBound(s, p, mid + 1, hi) else LowerBound(s, p, lo, mid)
  }

  /**
   * For `0 <= p <= cdf.back()` the search lands inside the table, and on
   * position `i` exactly when `cdf[i - 1] < p <= cdf[i]`.
   */
  lemma LowerBoundSelects(cdf: seq<int>, p: real, i: nat)
    requires NonDecreasing(cdf) && cdf != [] && p <= cdf[|cdf| - 1] as real
    requires i < |cdf|
    ensures LowerBound(cdf, p, 0, |cdf|) < |cdf|
    ensures LowerBound(cdf, p, 0, |cdf|) == i <==> (i == 0 || (cdf[i - 1] as real) < p) && p <= cdf[i] as real
  {
  }

  /** What the metacommunity and its cumulative table satisfy once built. */
  predicate WellFormed(meta: seq<Species>, cdf: seq<int>)
  {
    && |meta| >= 1
    && cdf == CumSum(Counts(meta))
    && StrictlyIncreasing(cdf)
    && (forall k :: 0 <= k < |meta| ==> meta[k].count > 0 && ColorInRange(meta[k]))
  }

  lemma CdfBackPositive(meta: seq<Species>, cdf: seq<int>)
    requires WellFormed(meta, cdf)
    ensures NonDecreasing(cdf) && cdf[|cdf| - 1] > 0
  {
    var c := Counts(meta);
    assert c[..1][..0] == [];
    assert Running(c, 0) == Sum(c[..1]) == c[0];
    assert cdf[0] == meta[0].count;
  }

  /** The point `p = u * cdf.back()` of a draw, in [0, cdf.back()] for a uniform `u` in [0, 1). */
  function DrawPoint(u: real, total: real): (p: real)
    requires 0.0 <= u < 1.0
    ensures total >= 0.0 ==> 0.0 <= p <= total
  {
    var w := 1.0 - u;
    assert total >= 0.0 ==> w * total >= 0.0;
    assert w * total == total - u * total;
    u * total
  }

  /** The position the draw with uniform `u` selects: the lower bound of its point in the table. */
  function DrawIndex(meta: seq<Species>, cdf: seq<int>, u: real): (i: nat)
    requires WellFormed(meta, cdf) && 0.0 <= u < 1.0
    ensures i < |meta|
  {
    CdfBackPositive(meta, cdf);
    var p := DrawPoint(u, cdf[|cdf| - 1] as real);
    LowerBoundSelects(cdf, p, 0);
    LowerBound(cdf, p, 0, |cdf|)
  }

  /**
   * `get_species_from_meta_community`: `p = u * cdf.back()`, then the species
   * at the lower bound of `p` in the cumulative table.
   */
  function DrawFromMeta(meta: seq<Species>, cdf: seq<int>, u: real): (s: Species)
    requires WellFormed(meta, cdf) && 0.0 <= u < 1.0
    ensures s in meta
    ensures ColorInRange(s)
  {
    meta[DrawIndex(meta, cdf, u)]
  }

  /**
   * The draw with uniform `u` selects species `i` exactly when its point
   * `p = u * Jm` lies in (cdf[i - 1], cdf[i]], an interval as long as that
   * species' count.
   */
  lemma DrawFromMetaSelects(meta: seq<Species>, cdf: seq<int>, u: real, i: nat)
    requires WellFormed(meta, cdf) && 0.0 <= u < 1.0 && i < |meta|
    ensures var p := DrawPoint(u, cdf[|cdf| - 1] as real);
      DrawIndex(meta, cdf, u) == i <==> (i == 0 || (cdf[i - 1] as real) < p) && p <= cdf[i] as real
    ensures cdf[i] - (if i == 0 then 0 else cdf[i - 1]) == meta[i].count
  {
    CumSumStep(Counts(meta), i);
    CdfBackPositive(meta, cdf);
    LowerBoundSelects(cdf, DrawPoint(u, cdf[|cdf| - 1] as real), i);
  }

  /** Consecutive entries of the cumulative table differ by one count. */
  lemma CumSumStep(c: seq<int>, i: nat)
    requires i < |c|
    ensures CumSum(c)[i] - (if i == 0 then 0 else CumSum(c)[i - 1]) == c[i]
  {
    var cdf := CumSum(c);
    assert cdf[i] == Sum(c[..i + 1]);
    assert c[..i + 1][..i] == c[..i];
    assert Sum(c[..i + 1]) == Sum(c[..i]) + c[i];
    if i == 0 {
      assert Sum(c[..0]) == 0;
    } else {
      assert cdf[i - 1] == Sum(c[..i]);
    }
  }

  lemma Pow2At31()
    ensures Pow2(31) == 0x8000_0000
  {
    assert Pow2(8) == 256;
    assert Pow2(16) == 65536;
    assert Pow2(24) == 16777216;
  }

  /** A positive 32-bit count falls in one of the first 31 classes. */
  lemma OctaveOfInt(n: int)
    requires 1 <= n < 0x8000_0000
    ensures Octave(n) < 31
  {
    Pow2At31();
    if Octave(n) >= 31 {
      Pow2Monotone(31, Octave(n));
    }
  }

  /** Counts that fit a 32-bit `int` and are positive. */
  predicate IntCounts(meta: seq<Species>)
  {
    forall k :: 0 <= k < |meta| ==> 1 <= meta[k].count < 0x8000_0000
  }

  lemma IntCountsFitOctaves(meta: seq<Species>)
    requires IntCounts(meta)
    ensures forall k :: 0 <= k < |meta| ==> Octave(Counts(meta)[k]) < 100
  {
    forall k | 0 <= k < |meta| ensures Octave(Counts(meta)[k]) < 100 {
      OctaveOfInt(meta[k].count);
    }
  }

  /** The metacommunity octave buckets: 100 classes, trailing empty ones trimmed. */
  function MetaOctaves(meta: seq<Species>): seq<int>
    requires IntCounts(meta)
  {
    IntCountsFitOctaves(meta);
    TrimZeros(OctaveCounts(Counts(meta), 100))
  }

  /**
   * `update_octave_meta_comm`: counts the species of each class in 100
   * buckets, then pops trailing empty buckets. The buckets sum to the number
   * of species, and the last one is nonzero.
   */
  method UpdateOctaveMetaComm(meta: seq<Species>) returns (octaves: seq<int>)
    requires |meta| >= 1 && IntCounts(meta)
    ensures octaves == MetaOctaves(meta)
    ensures Sum(octaves) == |meta|
    ensures octaves != [] && octaves[|octaves| - 1] != 0
    ensures |octaves| <= 100
  {
    var counts := Counts(meta);
    IntCountsFitOctaves(meta);
    octaves := CountOctaves(counts, 100);
    ghost var full := octaves;
    OctaveCountsSum(counts, 100);
    TrimZerosSum(full);
    while octaves[|octaves| - 1] == 0
      invariant octaves != [] && |octaves| <= 100
      invariant TrimZeros(octaves) == TrimZeros(full)
      invariant Sum(octaves) == |meta|
      decreases |octaves|
    {
      DropTrailingZero(octaves);
      octaves := octaves[..|octaves| - 1];
    }
  }

  /** Popping a trailing zero keeps the sum and the trimmed form. */
  lemma DropTrailingZero(s: seq<int>)
    requires s != [] && s[|s| - 1] == 0
    ensures Sum(s[..|s| - 1]) == Sum(s)
    ensures TrimZeros(s[..|s| - 1]) == TrimZeros(s)
  {
  }

  /** The scan stops at `r` when `r` is the first bucket whose running total reaches `t`. */
  lemma ScanIndexIs(abund: seq<int>, t: int, r: nat)
    requires r < |abund| && t <= Running(abund, r)
    requires forall k :: 0 <= k < r ==> t > Running(abund, k)
    ensures ScanIndex(abund, t, 0) == r
  {
  }

  /** The scan of the urn loop: walks the buckets, subtracting each from the target. */
  method FindBucket(abund: seq<int>, translateToAbund: int) returns (index: nat)
    requires |abund| >= 1 && translateToAbund < Sum(abund)
    ensures index < |abund| && index == ScanIndex(abund, translateToAbund, 0)
  {
    var translate := translateToAbund;
    index := 0;
    while index < |abund|
      invariant 0 <= index < |abund|
      invariant translate == translateToAbund - Sum(abund[..index])
      invariant forall k :: 0 <= k < index ==> translateToAbund > Running(abund, k)
    {
      assert abund[..index + 1][..index] == abund[..index];
      assert index + 1 == |abund| ==> abund[..index + 1] == abund;
      translate := translate - abund[index];
      if translate <= 0 {
        ScanIndexIs(abund, translateToAbund, index);
        return;
      }
      index := index + 1;
    }
    assert false;
  }

  /** One species per nonzero bucket, in bucket order. */
  method MaterializeBuckets(abund: seq<int>, mint: seq<SpeciesDraw>) returns (meta: seq<Species>)
    requires |mint| >= |abund| && forall k :: 0 <= k < |mint| ==> ValidDraw(mint[k])
    ensures meta == Materialize(abund, mint)
  {
    meta := [];
    for i := 0 to |abund|
      invariant meta == Materialize(abund[..i], mint)
    {
      assert abund[..i + 1][..i] == abund[..i];
      if abund[i] > 0 {
        meta := meta + [NewSpecies(abund[i], mint[|meta|])];
      }
    }
    assert abund[..|abund|] == abund;
  }

  /** The running sums of the counts, one entry per species. */
  method CumulativeTable(meta: seq<Species>) returns (cdf: seq<int>)
    ensures cdf == CumSum(Counts(meta))
  {
    var counts := Counts(meta);
    var cumsum := 0;
    cdf := [];
    for i := 0 to |meta|
      invariant cdf == CumSum(counts[..i]) && cumsum == Sum(counts[..i])
    {
      assert counts[..i + 1][..i] == counts[..i];
      cumsum := cumsum + meta[i].count;
      cdf := cdf + [cumsum];
    }
    assert counts[..|meta|] == counts;
  }

  /**
   * The pool grown from `Jm - 1` urn draws: one species per nonzero bucket,
   * all counts positive and below 2^31, summing to `Jm`; its cumulative
   * table is strictly increasing and ends at `Jm`.
   */
  lemma PoolProperties(jm: nat, theta: real, xs: seq<real>, mint: seq<SpeciesDraw>)
    requires 1 <= jm < 0x8000_0000 && |xs| == jm - 1 && theta > 0.0 && Uniforms(xs)
    requires |mint| >= jm + 1 && forall k :: 0 <= k < |mint| ==> ValidDraw(mint[k])
    ensures var meta := Materialize(Hoppe(xs, theta), mint);
      && Counts(meta) == NonZero(Hoppe(xs, theta))
      && WellFormed(meta, CumSum(Counts(meta))) && IntCounts(meta)
      && Sum(Counts(meta)) == jm && CumSum(Counts(meta))[|meta| - 1] == jm
  {
    var meta := Materialize(Hoppe(xs, theta), mint);
    MaterializeProperties(Hoppe(xs, theta), mint, jm);
    forall k | 0 <= k < |meta| ensures meta[k].count < 0x8000_0000 {
      ElementAtMostSum(Counts(meta), k);
    }
  }

  /** The octave summary of a pool counts every species once and ends in a nonzero bucket. */
  lemma MetaOctavesProperties(meta: seq<Species>)
    requires |meta| >= 1 && IntCounts(meta)
    ensures Sum(MetaOctaves(meta)) == |meta|
    ensures MetaOctaves(meta) != [] && MetaOctaves(meta)[|MetaOctaves(meta)| - 1] != 0
  {
    IntCountsFitOctaves(meta);
    OctaveCountsSum(Counts(meta), 100);
    TrimZerosSum(OctaveCounts(Counts(meta), 100));
  }

  /**
   * `create_meta_community`. The urn loop keeps `|abund| == nsp + 1` and
   * `Sum(abund) == j`, so `abund[nsp] = 1` is in bounds and the scan always
   * stops inside the table.
   */
  method CreateMetaCommunity(jm: nat, theta: real, xs: seq<real>, mint: seq<SpeciesDraw>)
    returns (metaCommunity: seq<Species>, cdf: seq<int>, octaves: seq<int>)
    requires 1 <= jm < 0x8000_0000 && |xs| == jm - 1 && theta > 0.0 && Uniforms(xs)
    requires |mint| >= jm + 1 && forall k :: 0 <= k < |mint| ==> ValidDraw(mint[k])
    ensures metaCommunity == Materialize(Hoppe(xs, theta), mint)
    ensures cdf == CumSum(Counts(metaCommunity))
    ensures WellFormed(metaCommunity, cdf) && IntCounts(metaCommunity)
    ensures octaves == MetaOctaves(metaCommunity)
  {
    var abund := GrowUrn(jm, theta, xs);
    metaCommunity := MaterializeBuckets(abund, mint);
    PoolProperties(jm, theta, xs, mint);
    cdf := CumulativeTable(metaCommunity);
    octaves := UpdateOctaveMetaComm(metaCommunity);
  }

  /** The table after `j` draws is one step on from the table after `j - 1`. */
  lemma HoppeNext(xs: seq<real>, j: nat, theta: real)
    requires 1 <= j <= |xs| && Uniforms(xs) && theta > 0.0
    ensures Hoppe(xs[..j], theta) == HoppeStep(Hoppe(xs[..j - 1], theta), j, xs[j - 1], theta)
  {
    assert xs[..j][..j - 1] == xs[..j - 1];
  }

  /**
   * A new species in the urn loop: pad the table with empty buckets until
   * `nsp` is an index of it, then put one individual in bucket `nsp`.
   */
  method OpenBucket(abund: seq<int>, nsp: nat) returns (r: seq<int>)
    requires |abund| == nsp
    ensures r == abund + [1]
  {
    r := abund;
    if nsp > |r| - 1 {
      var dif := 1 + nsp - |r|;
      for k := 0 to dif
        invariant r == abund + Zeros(k)
      {
        assert Zeros(k + 1) == Zeros(k) + [0];
        r := r + [0];
      }
    }
    r := r[nsp := 1];
  }

  /** One pass of the urn loop of `create_meta_community`: draw `j` with uniform `x`. */
  method UrnDraw(abund: seq<int>, nsp: nat, j: nat, x: real, theta: real) returns (next: seq<int>, nsp': nat)
    requires |abund| == nsp + 1 && nsp >= 1 && j >= 1 && Sum(abund) == j && NonNegative(abund)
    requires 0.0 <= x < 1.0 && theta > 0.0
    ensures next == HoppeStep(abund, j, x, theta)
    ensures nsp' >= 1 && |next| == nsp' + 1
  {
    var val := SpeciationChance(j, theta);
    if x < val {
      assert IsNewSpecies(x, j, theta);
      nsp' := nsp + 1;
      next := OpenBucket(abund, nsp');
    } else {
      assert !IsNewSpecies(x, j, theta);
      TranslateBounds(x, j);
      var index := FindBucket(abund, Translate(x, j));
      HoppeStepExisting(abund, j, x, theta, index);
      nsp' := nsp;
      next := abund[index := abund[index] + 1];
    }
  }

  /** The urn loop of `create_meta_community`, which grows `abund` one individual at a time. */
  method GrowUrn(jm: nat, theta: real, xs: seq<real>) returns (abund: seq<int>)
    requires 1 <= jm && |xs| == jm - 1 && theta > 0.0 && Uniforms(xs)
    ensures abund == Hoppe(xs, theta)
    ensures Sum(abund) == jm
  {
    abund := [0];
    var nsp := 1;
    abund := abund + [1];
    for j := 1 to jm
      invariant nsp >= 1 && |abund| == nsp + 1
      invariant abund == Hoppe(xs[..j - 1], theta)
    {
      HoppeNext(xs, j, theta);
      abund, nsp := UrnDraw(abund, nsp, j, xs[j - 1], theta);
    }
    assert xs[..jm - 1] == xs;
  }
}
