/**
 * The simulation engine: an L x L torus of cells, each holding one
 * individual, fed by a fixed metacommunity. One `Update` replaces the
 * individual in one cell by a local offspring, a new species or an
 * immigrant; the statistics methods summarise the grid.
 */
module Engine {
  import opened Seqs
  import opened Cells
  import opened Octaves
  import opened Histogram
  import opened RankAbundance
  import opened Metacommunity
  import opened Dispersal
  import opened SpeciesArea

  /**
   * The grid sizes the random source can address: `set_world_size`
   * narrows the number of cells to an `int`, so there are fewer than 2^31.
   */
  predicate GridSize(L: nat)
  {
    1 <= L && L * L < 0x8000_0000
  }

  /** What one `Update` did to the dying cell. */
  datatype Event =
    | LocalCopy(parent: nat)
    | Speciation
    | Migration
    | NoParentFound

  /**
   * The draws of one `update`, in the order the source makes them: the
   * dying position, the local-birth coin, the speciation coin, and then the
   * draws of whichever branch runs (the dispersal targets, the new species,
   * or the uniform of the metacommunity draw).
   */
  datatype UpdateDraws = UpdateDraws(
    posToDie: nat,
    local: bool,
    speciate: bool,
    targets: seq<Target>,
    newSpecies: SpeciesDraw,
    u: real)

  /** A fresh grid of `n` distinct cells. */
  method NewGrid(n: nat) returns (w: array<Cell>, ghost cs: seq<Cell>)
    ensures fresh(w) && w.Length == n && w[..] == cs
    ensures forall i :: 0 <= i < n ==> fresh(cs[i])
    ensures forall i, j :: 0 <= i < j < n ==> cs[i] != cs[j]
  {
    var built: seq<Cell> := [];
    for i := 0 to n
      invariant |built| == i
      invariant forall k :: 0 <= k < i ==> fresh(built[k])
      invariant forall k, l :: 0 <= k < l < i ==> built[k] != built[l]
    {
      var c := new Cell();
      built := built + [c];
    }
    w := new Cell[n](i requires 0 <= i < n => built[i]);
    cs := built;
  }

  class Simulation {
    /** The side of the square grid. */
    const L: nat
    /** The grid, one cell per position, row-major; the cells themselves never move. */
    const world: array<Cell>
    /** The cells of `world`, in position order. */
    ghost const cells: seq<Cell>
    /** The species pool, built once by the constructor. */
    const metaCommunity: seq<Species>
    /** The running totals of the pool's counts. */
    const cdf: seq<int>
    const metaCommunityOctaves: seq<int>

    var histogramLocalComm: seq<Bin>
    var localCommunityOctaves: seq<int>
    var rankAbundCurve: seq<real>
    /** The number of updates done. */
    var t: nat

    /** The grid and the pool: fixed after construction. */
    ghost predicate Valid()
      reads world, cells
    {
      && GridSize(L)
      && world.Length == L * L && |cells| == L * L && 1 <= world.Length
      && world[..] == cells
      && (forall i, j :: 0 <= i < j < |cells| ==> cells[i] != cells[j])
      && (forall i :: 0 <= i < |cells| ==> cells[i].x == i / L && cells[i].y == i % L)
      && (forall i :: 0 <= i < |cells| ==> ColorInRange(cells[i].localSpecies))
      && WellFormed(metaCommunity, cdf) && IntCounts(metaCommunity)
    }

    /** The histogram is a map: ordered by id, no empty bins. */
    ghost predicate StatsValid()
      reads this
    {
      Ordered(histogramLocalComm) && Positive(histogramLocalComm)
    }

    /** Everything `Valid` demands except the coordinates and colours of the cells. */
    ghost predicate Laid()
      reads world
    {
      && GridSize(L)
      && world.Length == L * L && |cells| == L * L && 1 <= world.Length
      && world[..] == cells
      && (forall i, j :: 0 <= i < j < |cells| ==> cells[i] != cells[j])
      && WellFormed(metaCommunity, cdf) && IntCounts(metaCommunity)
    }

    /** The constructor's loop: seed every cell and give it its coordinates. */
    method SeedCells(initMonoDom: bool, u0: real, us: seq<real>)
      requires Laid() && 0.0 <= u0 < 1.0 && |us| == L * L && Uniforms(us)
      modifies cells
      ensures Valid() && unchanged(this)
      ensures forall i :: 0 <= i < world.Length ==>
        world[i].localSpecies == SeedOccupant(metaCommunity, cdf, initMonoDom, u0, us, i)
    {
      var monoDomSpec := DrawFromMeta(metaCommunity, cdf, u0);
      ghost var seeds := seq(world.Length, k requires 0 <= k < world.Length =>
        SeedOccupant(metaCommunity, cdf, initMonoDom, u0, us, k));
      for cnt := 0 to world.Length
        invariant forall k :: 0 <= k < cnt ==> cells[k].x == k / L && cells[k].y == k % L
        invariant forall k :: 0 <= k < cnt ==> cells[k].localSpecies == seeds[k]
        invariant forall k :: 0 <= k < cnt ==> ColorInRange(cells[k].localSpecies)
      {
        var s := if initMonoDom then monoDomSpec else DrawFromMeta(metaCommunity, cdf, us[cnt]);
        assert s == seeds[cnt];
        var c := world[cnt];
        assert c == cells[cnt];
        c.SetSpecies(s);
        c.SetXY(cnt, L);
      }
    }

    /** The individual the constructor puts in cell `i`. */
    static function SeedOccupant(meta: seq<Species>, table: seq<int>, initMonoDom: bool,
                                 u0: real, us: seq<real>, i: nat): Species
      requires WellFormed(meta, table) && 0.0 <= u0 < 1.0 && Uniforms(us) && i < |us|
    {
      if initMonoDom then DrawFromMeta(meta, table, u0) else DrawFromMeta(meta, table, us[i])
    }

    /**
     * The constructor: a grid of `oneSide * oneSide` cells, the metacommunity
     * grown from the urn draws `xs` and species draws `mint`, and every cell
     * seeded from the metacommunity, either all with the one species drawn
     * with `u0` or each with its own draw from `us`.
     */
    constructor (oneSide: nat, jm: nat, theta: real, initMonoDom: bool,
                 xs: seq<real>, mint: seq<SpeciesDraw>, u0: real, us: seq<real>)
      requires GridSize(oneSide)
      requires 1 <= jm < 0x8000_0000 && |xs| == jm - 1 && theta > 0.0 && Uniforms(xs)
      requires |mint| >= jm + 1 && forall k :: 0 <= k < |mint| ==> ValidDraw(mint[k])
      requires 0.0 <= u0 < 1.0 && |us| == oneSide * oneSide && Uniforms(us)
      ensures Valid() && StatsValid()
      ensures fresh(world) && forall i :: 0 <= i < |cells| ==> fresh(cells[i])
      ensures L == oneSide && t == 0
      ensures metaCommunity == Materialize(Hoppe(xs, theta), mint)
      ensures metaCommunityOctaves == MetaOctaves(metaCommunity)
      ensures forall i :: 0 <= i < world.Length ==>
        world[i].localSpecies == SeedOccupant(metaCommunity, cdf, initMonoDom, u0, us, i)
      ensures histogramLocalComm == [] && localCommunityOctaves == [] && rankAbundCurve == []
    {
      L := oneSide;
      MulMonotone(1, oneSide, oneSide);
      var meta, table, octaves := CreateMetaCommunity(jm, theta, xs, mint);
      metaCommunity, cdf, metaCommunityOctaves := meta, table, octaves;
      var w, cs := NewGrid(oneSide * oneSide);
      world, cells := w, cs;
      histogramLocalComm, localCommunityOctaves, rankAbundCurve := [], [], [];
      t := 0;
      new;
      assert world == w && cells == cs && w[..] == cs;
      SeedCells(initMonoDom, u0, us);
      assert forall i :: 0 <= i < |cs| ==> fresh(cs[i]);
    }

    /**
     * `get_coordinate` from the coordinates of cell `source`: the cell whose
     * occupant `local_reproduction` copies, if a target misses the source.
     */
    function Parent(source: nat, targets: seq<Target>): (p: Option<nat>)
      reads world, cells
      requires Valid() && source < world.Length
      ensures p.Some? ==> p.value < world.Length
    {
      GetCoordinate(world[source].x, world[source].y, targets, L)
    }

    /** Cell `source` has coordinates (source / L, source % L), which `x * L + y` maps back to `source`. */
    lemma {:induction false} ParentNotSource(source: nat, targets: seq<Target>)
      requires Valid() && source < world.Length
      requires forall i :: 0 <= i < |targets| ==> InReach(targets[i], L)
      ensures Parent(source, targets).Some? ==> Parent(source, targets).value != source
    {
      var c := cells[source];
      assert c == world[source];
      ConvertDecomposed(source, L);
      assert source == (source / L) * L + source % L;
      GetCoordinateInReach(c.x, c.y, targets, L);
    }

    /** `local_reproduction`: the occupant of the parent cell, if one is found. */
    function LocalReproduction(source: nat, targets: seq<Target>): (r: Option<Species>)
      reads world, cells
      requires Valid() && source < world.Length
      ensures r.Some? <==> Parent(source, targets).Some?
      ensures r.Some? ==> r.value == world[Parent(source, targets).value].localSpecies
      ensures r.Some? ==> ColorInRange(r.value)
    {
      match Parent(source, targets)
      case None => None
      case Some(p) =>
        assert world[p] == cells[p];
        Some(world[p].GetSpecies())
    }

    /**
     * `update`: the individual in cell `posToDie` dies and is replaced by a
     * copy of a neighbour (local birth), a species of its own with count 1
     * (speciation), or a draw from the metacommunity (migration). Nothing
     * else in the grid changes, and `t` counts the update. When every
     * dispersal target drawn hits the dying cell itself, no parent is found
     * and nothing changes; the source would keep drawing.
     */
    method Update(d: UpdateDraws) returns (e: Event)
      requires Valid() && d.posToDie < world.Length
      requires ValidDraw(d.newSpecies) && 0.0 <= d.u < 1.0
      modifies this`t, (world[d.posToDie] as Cell)`localSpecies
      ensures Valid()
      ensures forall i :: 0 <= i < world.Length && i != d.posToDie ==>
        world[i].localSpecies == old(world[i].localSpecies)
      ensures e.NoParentFound? <==> d.local && old(Parent(d.posToDie, d.targets)).None?
      ensures e.NoParentFound? ==>
        t == old(t) && world[d.posToDie].localSpecies == old(world[d.posToDie].localSpecies)
      ensures !e.NoParentFound? ==> t == old(t) + 1
      ensures e.LocalCopy? <==> d.local && old(Parent(d.posToDie, d.targets)).Some?
      ensures e.LocalCopy? ==>
        && old(Parent(d.posToDie, d.targets)) == Some(e.parent)
        && world[d.posToDie].localSpecies == old(world[e.parent].localSpecies)
      ensures e.Speciation? <==> !d.local && d.speciate
      ensures e.Speciation? ==> world[d.posToDie].localSpecies == NewSpecies(1, d.newSpecies)
      ensures e.Migration? <==> !d.local && !d.speciate
      ensures e.Migration? ==> world[d.posToDie].localSpecies == DrawFromMeta(metaCommunity, cdf, d.u)
    {
      var pos := d.posToDie;
      assert world[pos] == cells[pos];
      if d.local {
        var offspring := LocalReproduction(pos, d.targets);
        if offspring.None? {
          return NoParentFound;
        }
        e := LocalCopy(Parent(pos, d.targets).value);
        world[pos].SetSpecies(offspring.value);
      } else if d.speciate {
        world[pos].SetSpecies(NewSpecies(1, d.newSpecies));
        e := Speciation;
      } else {
        world[pos].SetSpecies(DrawFromMeta(metaCommunity, cdf, d.u));
        e := Migration;
      }
      t := t + 1;
    }

    /** `get_color` of cell `pos`: three components in [0, 255]. */
    function GetColor(pos: nat): (c: Rgb)
      reads world, cells
      requires Valid() && pos < world.Length
      ensures c.r < 256 && c.g < 256 && c.b < 256
    {
      assert world[pos] == cells[pos];
      Cells.GetColor(world[pos].GetSpecies())
    }

    /** `get_species_id` of the first `n` cells, in position order. */
    function IdsUpTo(n: nat): (ids: seq<int>)
      reads world, cells
      requires Valid() && n <= world.Length
      ensures |ids| == n
    {
      if n == 0 then []
      else
        assert world[n - 1] == cells[n - 1];
        IdsUpTo(n - 1) + [world[n - 1].GetSpeciesId()]
    }

    /** `get_species_id` of every cell. */
    function Ids(): (ids: seq<int>)
      reads world, cells
      requires Valid()
      ensures |ids| == world.Length
    {
      IdsUpTo(world.Length)
    }

    /** `update_rank_abund_curve`: store the rank curve of the current histogram. */
    method UpdateRankAbundCurve()
      requires StatsValid()
      modifies this`rankAbundCurve
      ensures rankAbundCurve == RankCurve(AsReals(Abundances(histogramLocalComm)))
    {
      rankAbundCurve := ComputeRankCurve(histogramLocalComm);
    }

    /** The histogram loop of `update_stats`: `++histogram[id]` for every cell in order. */
    method CountIds() returns (h: seq<Bin>)
      requires Valid()
      ensures h == Build(Ids())
    {
      h := [];
      for i := 0 to world.Length
        invariant h == Build(IdsUpTo(i))
      {
        assert world[i] == cells[i];
        assert IdsUpTo(i + 1)[..i] == IdsUpTo(i);
        h := Increment(h, world[i].GetSpeciesId());
      }
    }

    /**
     * `update_stats`: the histogram of species ids over the grid, the octave
     * counts of its abundances in `1 + floor(log2(L * L))` buckets, and the
     * rank-abundance curve; returns the number of species.
     */
    method UpdateStats() returns (n: nat)
      requires Valid()
      modifies this`histogramLocalComm, this`localCommunityOctaves, this`rankAbundCurve
      ensures StatsValid()
      ensures histogramLocalComm == Build(old(Ids()))
      ensures localCommunityOctaves == LocalOctaves(old(Ids()))
      ensures rankAbundCurve == RankCurve(AsReals(Abundances(histogramLocalComm)))
      ensures n == |histogramLocalComm|
    {
      ghost var ids := Ids();
      var h := CountIds();
      var octaves := HistogramOctaves(ids, h, world.Length);
      var curve := ComputeRankCurve(h);
      StoreStats(h, octaves, curve);
      n := |h|;
    }

    /** Store freshly computed statistics. */
    method StoreStats(h: seq<Bin>, octaves: seq<int>, curve: seq<real>)
      requires Ordered(h) && Positive(h)
      modifies this`histogramLocalComm, this`localCommunityOctaves, this`rankAbundCurve
      ensures StatsValid()
      ensures histogramLocalComm == h && localCommunityOctaves == octaves && rankAbundCurve == curve
    {
      histogramLocalComm, localCommunityOctaves, rankAbundCurve := h, octaves, curve;
    }

    /** `get_local_octaves`: computes the statistics first if they were never computed. */
    method GetLocalOctaves() returns (octaves: seq<int>)
      requires Valid() && StatsValid()
      modifies this`histogramLocalComm, this`localCommunityOctaves, this`rankAbundCurve
      ensures StatsValid() && octaves == localCommunityOctaves
      ensures old(localCommunityOctaves) != [] ==> unchanged(this)
      ensures old(localCommunityOctaves) == [] ==>
        && histogramLocalComm == Build(old(Ids()))
        && octaves == LocalOctaves(old(Ids()))
    {
      if localCommunityOctaves == [] {
        var _ := UpdateStats();
      }
      octaves := localCommunityOctaves;
    }

    /**
     * `update_species_area`: scan rows 0 .. L - 1 of the lower-left
     * triangle, cells (x, 0) .. (x, x), keeping the list of distinct species
     * found; after every row x >= 1 emit the area x * x and the number found.
     * The ghost `grid` names the occupants the scan reads.
     */
    method UpdateSpeciesArea(ghost grid: seq<Species>) returns (area: seq<real>, numSpecies: seq<real>)
      requires GridSize(L) && world.Length == L * L
      requires |grid| == world.Length && forall i :: 0 <= i < world.Length ==> grid[i] == world[i].localSpecies
      ensures area == AreaCurve(L - 1)
      ensures numSpecies == SpeciesCurve(grid, L, L - 1)
    {
      area, numSpecies := [], [];
      var found: seq<Species> := [];
      for x := 0 to L
        invariant forall i :: 0 <= i < world.Length ==> grid[i] == world[i].localSpecies
        invariant found == SpeciesFound(grid, x, L)
        invariant area == AreaCurve(if x == 0 then 0 else x - 1)
        invariant numSpecies == SpeciesCurve(grid, L, if x == 0 then 0 else x - 1)
      {
        found := ScanRow(found, x, grid);
        if x > 0 {
          area := area + [(x * x) as real];
          numSpecies := numSpecies + [|found| as real];
        }
      }
    }

    /** Row x of the scan: look up each occupant of (x, 0) .. (x, x) and append it when new. */
    method ScanRow(found0: seq<Species>, x: nat, ghost grid: seq<Species>) returns (found: seq<Species>)
      requires GridSize(L) && world.Length == L * L && x < L
      requires |grid| == world.Length && forall i :: 0 <= i < world.Length ==> grid[i] == world[i].localSpecies
      requires found0 == SpeciesFound(grid, x, L)
      ensures found == SpeciesFound(grid, x + 1, L)
    {
      RowStart(grid, x, L);
      found := found0;
      for y := 0 to x + 1
        invariant forall i :: 0 <= i < world.Length ==> grid[i] == world[i].localSpecies
        invariant found == ScanPrefix(grid, x, y, L)
      {
        var pos := ConvertToPos(x, y, L);
        ConvertIsRowMajor(x, y, L);
        var local := world[pos].GetSpecies();
        var matched := FindMatch(found, local);
        ScanStep(grid, x, y, L);
        if !matched {
          found := found + [local];
        }
      }
      RowEnd(grid, x, L);
    }

    /** `num_species`: the number of distinct ids in the histogram. */
    function NumSpecies(): (n: nat)
      reads this
      requires StatsValid()
      ensures n == |Keys(histogramLocalComm)|
    {
      OrderedSize(histogramLocalComm);
      |histogramLocalComm|
    }
  }

  /**
   * The body of `update_rank_abund_curve`: copy the abundances in key order
   * while tracking the largest, sort them in descending order, and rescale
   * by `100 / max`.
   */
  method ComputeRankCurve(h: seq<Bin>) returns (curve: seq<real>)
    requires Positive(h)
    ensures curve == RankCurve(AsReals(Abundances(h)))
  {
    var max;
    curve, max := CopyAbundances(h);
    curve := SortDesc(curve);
    curve := Rescale(curve, max);
  }

  /** The fill loop of `update_rank_abund_curve`: the abundances in key order and their maximum. */
  method CopyAbundances(h: seq<Bin>) returns (curve: seq<real>, max: real)
    requires Positive(h)
    ensures AllAtLeastOne(curve)
    ensures curve == AsReals(Abundances(h)) && max == MaxOrMinusOne(curve)
  {
    ghost var values := AsReals(Abundances(h));
    curve := seq(|h|, _ => 0.0);
    max := -1.0;
    for cnt := 0 to |h|
      invariant |curve| == |h|
      invariant forall k :: 0 <= k < cnt ==> curve[k] == values[k]
      invariant AllAtLeastOne(values[..cnt]) && max == MaxOrMinusOne(values[..cnt])
    {
      curve := curve[cnt := h[cnt].abundance as real];
      assert values[..cnt + 1][..cnt] == values[..cnt];
      if h[cnt].abundance as real > max {
        max := h[cnt].abundance as real;
      }
    }
    assert curve == values && values[..|h|] == values;
  }

  /** The scaling loop of `update_rank_abund_curve`: every point times `100 / max`. */
  method Rescale(sorted: seq<real>, max: real) returns (curve: seq<real>)
    requires max != 0.0
    ensures curve == Scale(sorted, max)
  {
    curve := sorted;
    var mult := 100.0 / max;
    for i := 0 to |curve|
      invariant |curve| == |sorted|
      invariant forall k :: 0 <= k < i ==> curve[k] == Percent(sorted[k], max)
      invariant forall k :: i <= k < |curve| ==> curve[k] == sorted[k]
    {
      curve := curve[i := curve[i] * mult];
    }
  }

  /**
   * The histogram of a grid with ids `ids` accounts for every cell, has one
   * bin per distinct id, and every abundance falls in one of the
   * `1 + floor(log2 |ids|)` octave buckets.
   */
  lemma HistogramBounds(ids: seq<int>)
    requires 1 <= |ids|
    ensures var h := Build(ids);
      && Total(h) == |ids| && |Keys(h)| == |h|
      && (forall i :: 0 <= i < |h| ==> 1 <= Abundances(h)[i] <= |ids|)
      && (forall i :: 0 <= i < |h| ==> Octave(Abundances(h)[i]) < 1 + FloorLog2(|ids|))
  {
    var h := Build(ids);
    BuildCounts(ids);
    OrderedSize(h);
    forall i | 0 <= i < |h|
      ensures Abundances(h)[i] <= |ids|
    {
      BinAtMostTotal(h, i);
    }
    forall i | 0 <= i < |h|
      ensures Octave(Abundances(h)[i]) < 1 + FloorLog2(|ids|)
    {
      OctaveWithin(Abundances(h)[i], |ids|);
    }
  }

  /** The octave loop of `update_stats`, over the histogram `h` of a grid of `size` cells. */
  method HistogramOctaves(ghost ids: seq<int>, h: seq<Bin>, size: nat) returns (octaves: seq<int>)
    requires 1 <= |ids| == size < 0x8000_0000 && h == Build(ids)
    ensures octaves == LocalOctaves(ids)
  {
    HistogramBounds(ids);
    octaves := CountOctaves(Abundances(h), 1 + FloorLog2(size));
  }

  /** The local octave buckets of a grid with ids `ids`. */
  function LocalOctaves(ids: seq<int>): (r: seq<int>)
    requires 1 <= |ids|
    ensures |r| == 1 + FloorLog2(|ids|)
  {
    HistogramBounds(ids);
    OctaveCounts(Abundances(Build(ids)), 1 + FloorLog2(|ids|))
  }

  /** The local octave buckets count every species exactly once. */
  lemma LocalOctavesSum(ids: seq<int>)
    requires 1 <= |ids|
    ensures Sum(LocalOctaves(ids)) == |Build(ids)| == |Keys(Build(ids))|
  {
    HistogramBounds(ids);
    OctaveCountsSum(Abundances(Build(ids)), 1 + FloorLog2(|ids|));
  }

  /**
   * The rank curve of a grid has one point per species, in non-increasing
   * order, starting at 100.
   */
  lemma LocalRankCurve(ids: seq<int>)
    requires 1 <= |ids|
    ensures var values := AsReals(Abundances(Build(ids)));
      && AllAtLeastOne(values)
      && |RankCurve(values)| == |Build(ids)|
      && NonIncreasing(RankCurve(values))
      && RankCurve(values)[0] == 100.0
  {
    var h := Build(ids);
    HistogramBounds(ids);
    BuildCounts(ids);
    KeysMember(h, ids[0]);
    RankCurveProperties(AsReals(Abundances(h)));
  }
}
