# Neutralizer: a verified model of the neutral-community simulator

This project models the engine of Neutralizer, a simulator of a neutral
ecological community. The model is written in Dafny.

The community lives on an `L x L` torus of cells, and every cell holds one
individual of some species. A fixed metacommunity (the species pool) is
grown once with a Hoppe urn, and an abundance-proportional draw samples from
it. Each update kills the individual in one cell and replaces it by one of
three things:

- an offspring of a nearby cell (local reproduction);
- a brand-new species (speciation);
- an immigrant drawn from the metacommunity (migration).

The statistics summarise the grid:

- a histogram of species ids;
- base-2 abundance classes (octaves) of the local community and of the metacommunity;
- the rank-abundance curve;
- the species-area curve over the lower-left triangle of the grid.

The random source becomes inputs. These are:

- the urn uniforms `xs`;
- the id and colour draws of new species;
- the uniform of a metacommunity draw;
- the dying position and the two Bernoulli outcomes of an update;
- the already-rounded dispersal targets (`Target`).

The modules follow the program's structure:

- `Cells` (`cell.dfy`): `species` and `cell`. `Cell` is a class whose occupant changes in place.
- `Octaves` (`octaves.dfy`): `octave_sort` and the octave buckets.
- `Histogram` (`histogram.dfy`): the `std::map<int, int>` histogram. It is an ordered list of bins.
- `RankAbundance` (`ranking.dfy`): the descending sort and the rescaling.
- `Metacommunity` (`metacommunity.dfy`): the urn, the materialisation, the cumulative table and the draw.
- `Dispersal` (`dispersal.dfy`): `convert_to_pos`, the toroidal wrap and `get_coordinate`.
- `SpeciesArea` (`species_area.dfy`): the specification of the species-area scan.
- `Engine` (`simulation.dfy`): the `Simulation` class. It holds a fixed `array<Cell>`, the pool and the statistics fields.
- `Seqs` (`seqs.dfy`): sums over integer sequences.

Two behaviours of the code are kept as written:

- **The placeholder bucket can fill up.** The urn table starts as `[0, 1]`. A draw of an existing individual whose `translate_to_abund` truncates to 0 or less stops the scan at bucket 0, which then holds individuals. Bucket 0 then becomes a species of the pool like any other nonzero bucket. `HoppeStepPlaceholder` and `PlaceholderExample` state this.
- **Far targets are not brought back onto the torus.** `get_coordinate` wraps a target at most once in each direction. A coordinate still outside [0, L) after that goes through `size_t` arithmetic: a negative one becomes a huge value, and the row-major sum wraps around modulo 2^64. `convert_to_pos` clamps only a position at or past L * L, and it clamps that position to the last cell. So a far target can land on any cell, and any cell, not only the last, can be its own parent. Three lemmas show this:
  - `FarTargetPicksLastCell`: the target is clamped to the last cell, which is the source itself.
  - `OverflowingColumnPicksSource`: column 7 on a 3 x 3 grid wraps once to 4. Its position 4 is inside the grid, and it is the source cell (1, 1).
  - `NegativeColumnWrapsAround`: column -4 on a 3 x 3 grid wraps once to -1. That becomes 2^64 - 1, and the position wraps around to cell 5.

## Model

| member | source | states |
|---|---|---|
| Cells.NewSpecies | cell.h:20-25 | the counted constructor stores the given count and the drawn id, and each colour component lies in [0, 255] when the draws of `random_number(256)` do |
| Cells.SameSpeciesCharacterised | cell.h:36-42 | `operator==` holds exactly when the ids and all three colour components agree; the count plays no part |
| Cells.SameSpeciesIsEquivalence | cell.h:36-42 | `operator==` is reflexive, symmetric and transitive |
| Cells.NarrowToInt | cell.h:72-74 | narrowing a `size_t` id to `int` gives a value in the 32-bit range that is congruent to the id modulo 2^32 |
| Cells.SameSpeciesSameId | cell.h:72-74 | equal species give equal `get_species_id()` values |
| Cells.Cell.constructor | cell.h:60-62 | a new cell holds the placeholder occupant |
| Cells.Cell.SetSpecies | cell.h:64-70 | afterwards `get_species()` returns the species just stored, which is `==` to it; only the occupant field may change, so `x_` and `y_` are untouched |
| Cells.Cell.GetSpeciesId | cell.h:72-74 | the id of the occupant narrowed to a 32-bit `int` |
| Cells.Cell.SetXY | cell.h:76-79 | `x_ = pos / L` and `y_ = pos % L`, so `y_ < L` and `x_ * L + y_ == pos`; the occupant is untouched |
| Octaves.FloorLog2Bounds | simulation.h:209 | the integer `log2` of n >= 1 brackets n between consecutive powers of two |
| Octaves.Octave | simulation.h:236-251 | class 0 for abundances at most 1, otherwise the k with 2^k <= n < 2^(k+1) |
| Octaves.OctaveUnique | simulation.h:236-251 | only one class brackets an abundance |
| Octaves.OctaveMonotone | simulation.h:236-251 | larger abundances never fall in a lower class |
| Octaves.OctaveWithin | simulation.h:209-212 | an abundance no larger than the grid indexes one of the `1 + floor(log2 N)` local buckets |
| Octaves.OctaveSort | simulation.h:236-251 | the doubling window loop returns exactly the class of its argument |
| Octaves.CountOctaves | simulation.h:210-213 | the bucket-filling loop yields the per-class counts of the abundances |
| Octaves.OctaveCountsSum | simulation.h:210-213 | the buckets are non-negative and sum to the number of abundances |
| Octaves.OctaveCountsAt | simulation.h:210-213 | bucket k counts exactly the abundances of class k |
| Octaves.TrimZeros | simulation.h:266-269 | the trim keeps a prefix, ends in a nonzero bucket, and drops only zero buckets |
| Octaves.TrimZerosSum | simulation.h:266-269 | trimming keeps the bucket total |
| Histogram.Increment | simulation.h:205 | `++histogram[k]` inserts at most one bin; IncrementKeys, IncrementOrdered, IncrementCounts and IncrementPositive state which bin it inserts or bumps |
| Histogram.IncrementKeys | simulation.h:205 | `++histogram[k]` adds `k` to the keys and no other key |
| Histogram.IncrementOrdered | simulation.h:205 | the increment keeps the bins in strictly increasing key order |
| Histogram.IncrementCounts | simulation.h:205 | the count of `k` goes up by one, every other count stays, and the total goes up by one |
| Histogram.IncrementPositive | simulation.h:205 | the increment creates no empty bin |
| Histogram.Build | simulation.h:203-206 | the histogram of a list of ids is key-ordered with no empty bin |
| Histogram.BuildCounts | simulation.h:203-206 | its keys are the ids that occur, each with its number of occurrences, and the counts sum to the number of ids |
| Histogram.OrderedSize | simulation.h:283-285 | in a key-ordered histogram the number of bins is the number of distinct ids |
| RankAbundance.InsertDesc | simulation.h:229 | inserting lengthens the list by one and puts the larger of the value and the old head in front |
| RankAbundance.InsertDescPermutes | simulation.h:229 | inserting adds exactly the value to the multiset |
| RankAbundance.InsertDescSorted | simulation.h:229 | inserting into a descending list keeps it descending |
| RankAbundance.SortDesc | simulation.h:229 | `std::sort` with `std::greater`: a non-increasing permutation of its input |
| RankAbundance.MaxOrMinusOne | simulation.h:222-228 | the running maximum starting at -1: -1 for no species, otherwise an element that no other element exceeds |
| RankAbundance.PercentMonotone | simulation.h:230-233 | scaling by `100 / max` with a positive max keeps the order of two values |
| RankAbundance.PercentOfMax | simulation.h:230-233 | the maximum scales to exactly 100 |
| RankAbundance.SortedHeadIsMax | simulation.h:223-229 | the head of the sorted abundances is the tracked maximum |
| RankAbundance.ScalePreservesOrder | simulation.h:230-233 | rescaling a descending list keeps it descending |
| RankAbundance.RankCurve | simulation.h:220-234 | the curve has one point per abundance; RankCurveProperties states its order and its head |
| RankAbundance.RankCurveProperties | simulation.h:220-234 | the curve has one point per abundance, is non-increasing, and starts at 100 when non-empty |
| Metacommunity.TruncToInt | simulation.h:98 | `static_cast<int>` truncates toward zero |
| Metacommunity.TranslateBounds | simulation.h:98 | `translate_to_abund` lies in [-1, j - 1] and is -1 exactly when the uniform is 0 |
| Metacommunity.ScanIndex | simulation.h:100-106 | the scan stops at the first bucket whose running total reaches the target, or past the end |
| Metacommunity.ScanInBounds | simulation.h:100-106 | a target below the urn's total stops the scan inside the table |
| Metacommunity.ScanIndexIs | simulation.h:100-106 | the scan stops at `r` when `r` is the first bucket whose running total reaches the target |
| Metacommunity.FindBucket | simulation.h:98-106 | the decrementing `while` loop stops inside the table, at the bucket `ScanIndex` names |
| Metacommunity.HoppeStep | simulation.h:97-108 | one draw of the urn adds at most one bucket and takes no individual from any bucket; HoppeStepShape states the total |
| Metacommunity.HoppeStepPlaceholder | simulation.h:97-108 | a non-speciating step whose translated index is at most 0 adds the individual to bucket 0 |
| Metacommunity.PlaceholderExample | simulation.h:84-108 | with theta 1 and uniforms 0.5 then 0.9, the table becomes [1, 1, 1] |
| Metacommunity.HoppeStepShape | simulation.h:84-109 | a step adds one individual, either as a new bucket or in an existing one, and keeps buckets non-negative |
| Metacommunity.Hoppe | simulation.h:80-110 | after `Jm - 1` draws the table has between 2 and `Jm + 1` non-negative buckets holding `Jm` individuals |
| Metacommunity.OpenBucket | simulation.h:87-96 | opening species `nsp` with `nsp == abund.size()` appends one bucket holding 1 |
| Metacommunity.UrnDraw | simulation.h:85-108 | one pass of the urn loop performs exactly one Hoppe step, and the table keeps `nsp + 1` buckets |
| Metacommunity.GrowUrn | simulation.h:80-110 | the urn loop, with `abund.size() == nsp + 1` and the total equal to the draw count, computes the Hoppe table holding `Jm` individuals |
| Metacommunity.NonZero | simulation.h:114-118 | the nonzero buckets, all positive, no more of them than buckets |
| Metacommunity.NonZeroSum | simulation.h:114-118 | dropping empty buckets keeps the total |
| Metacommunity.MaterializeBuckets | simulation.h:112-118 | one species per nonzero bucket, in bucket order, with the drawn ids and colours |
| Metacommunity.CumSum | simulation.h:120-124 | entry i of the cumulative table is the total of the first i + 1 counts |
| Metacommunity.CumSumStrict | simulation.h:120-124 | with positive counts the cumulative table increases strictly |
| Metacommunity.CumulativeTable | simulation.h:120-124 | the `cumsum` loop builds the cumulative table of the pool's counts |
| Metacommunity.MaterializeProperties | simulation.h:112-124 | the pool has one species per nonzero bucket with that bucket's count; all counts are positive and sum to the urn total; the table increases strictly and ends at that total |
| Metacommunity.PoolProperties | simulation.h:78-126 | the pool grown from `Jm - 1` draws has positive 32-bit counts summing to `Jm`, and a strictly increasing cumulative table ending at `Jm` |
| Metacommunity.CreateMetaCommunity | simulation.h:78-129 | `create_meta_community` returns the materialised Hoppe pool, its cumulative table and its octave summary |
| Metacommunity.OctaveOfInt | simulation.h:259-263 | a positive 32-bit count falls in one of the first 31 classes |
| Metacommunity.IntCountsFitOctaves | simulation.h:260-263 | every pool count indexes one of the 100 buckets |
| Metacommunity.UpdateOctaveMetaComm | simulation.h:253-270 | the metacommunity octaves sum to the number of species, end in a nonzero bucket, and number at most 100 |
| Metacommunity.MetaOctavesProperties | simulation.h:253-270 | the octave summary of a pool counts every species once and ends in a nonzero bucket |
| Metacommunity.LowerBound | simulation.h:133 | `std::lower_bound`: every entry before the result is below `p`, and every entry from it on is at least `p` |
| Metacommunity.LowerBoundSelects | simulation.h:133 | for `p <= cdf.back()` the search lands inside the table, on `i` exactly when `cdf[i - 1] < p <= cdf[i]` |
| Metacommunity.DrawPoint | simulation.h:132 | `p = u * cdf.back()` lies in [0, cdf.back()] |
| Metacommunity.DrawIndex | simulation.h:132-133 | the drawn index is a valid index of the pool |
| Metacommunity.DrawFromMeta | simulation.h:131-135 | the drawn species is a member of the pool with its colour in range |
| Metacommunity.DrawFromMetaSelects | simulation.h:131-135 | species i is drawn exactly when `p` lies in (`cdf[i - 1]`, `cdf[i]`], an interval as long as its count |
| Dispersal.ToSizeT | simulation.h:138 | `size_t` arithmetic reduces modulo 2^64 and leaves values in range unchanged |
| Dispersal.RowMajorIs | simulation.h:138 | the repeated-addition row-major position equals `x * L + y` |
| Dispersal.ConvertToPos | simulation.h:137-143 | the position is always inside the grid, and equals `x * L + y` for in-grid coordinates |
| Dispersal.ConvertIsRowMajor | simulation.h:137-143 | on the grid, `convert_to_pos` is the row-major position the species-area scan reads |
| Dispersal.RowMajorInjective | simulation.h:137-143 | distinct in-grid coordinates have distinct positions |
| Dispersal.ConvertDecomposed | simulation.h:137-143 | decomposing a position with `/ L` and `% L` and converting back gives the position |
| Dispersal.DecomposeConverted | cell.h:76-79 | `set_xy` applied to the position of (x, y) gives back (x, y) |
| Dispersal.WrapOnce | simulation.h:157-161 | a coordinate in [-L, 2L) wraps into [0, L) and stays congruent modulo L; in-grid coordinates are unchanged |
| Dispersal.GetCoordinate | simulation.h:145-168 | a position is found exactly when some target misses the source, and it is inside the grid |
| Dispersal.ChosenCell | simulation.h:157-167 | a target within reach that misses the source picks its wrapped row-major position, never the source's |
| Dispersal.GetCoordinateInReach | simulation.h:157-167 | for targets within reach, the chosen cell is the wrapped position of one of them and never the source cell |
| Dispersal.FarTargetPicksLastCell | simulation.h:157-167 | on a 2 x 2 grid, a target two widths away from cell (1, 1) is clamped to the last cell, the source itself |
| Dispersal.OverflowingColumnPicksSource | simulation.h:137-168 | on a 3 x 3 grid, target (0, 7) from cell (1, 1) wraps once to column 4, is not clamped, and picks the source cell 4 |
| Dispersal.NegativeColumnWrapsAround | simulation.h:137-168 | on a 3 x 3 grid, target (2, -4) from cell (0, 0) becomes column 2^64 - 1 and wraps around modulo 2^64 to cell 5 |
| SpeciesArea.Found | simulation.h:297-308 | the list of species found never outgrows the visits, and one visit finds a species; FoundDistinct, FoundCovers and FoundFromVisits state its contents |
| SpeciesArea.FoundDistinct | simulation.h:297-308 | `found_species` never holds two `==`-equal species |
| SpeciesArea.FoundCovers | simulation.h:297-308 | every visited occupant has an equal species in `found_species` |
| SpeciesArea.FoundFromVisits | simulation.h:297-308 | every found species is a visited occupant, so there are no more of them than visits |
| SpeciesArea.FoundGrows | simulation.h:306-308 | later visits only append to the list |
| SpeciesArea.RowVisitsAt | simulation.h:295-298 | visit y of row x reads the occupant at the row-major position of (x, y) |
| SpeciesArea.VisitsSize | simulation.h:294-295 | rows 0 .. r - 1 of the triangle hold r (r + 1) / 2 cells |
| SpeciesArea.VisitsPrefix | simulation.h:294-295 | the visits of fewer rows come first among the visits of more rows |
| SpeciesArea.VisitAt | simulation.h:294-298 | row x adds x + 1 visits, visit y of it being cell (x, y) |
| SpeciesArea.SpeciesFoundGrows | simulation.h:294-309 | the species list after fewer rows is a prefix of the list after more rows |
| SpeciesArea.SpeciesFoundProperties | simulation.h:294-309 | after r rows the list is duplicate-free, covers every visited occupant, and has at most r (r + 1) / 2 entries |
| SpeciesArea.ScanStep | simulation.h:296-308 | visiting (x, y) adds its occupant unless an equal species is already found |
| SpeciesArea.CurveAt | simulation.h:310-313 | point i of a curve over the sides 1 .. m is its value at side i + 1 |
| SpeciesArea.AreaCurveAt | simulation.h:311 | area point i is `(i + 1)^2` |
| SpeciesArea.SpeciesCurveAt | simulation.h:312 | species point i is the number of species found in rows 0 .. i + 1 |
| SpeciesArea.SpeciesAreaPoints | simulation.h:287-316 | an L x L grid gives L - 1 points, point i being the area `(i + 1)^2` and the species count of rows 0 .. i + 1 |
| SpeciesArea.SpeciesCurveMonotone | simulation.h:312 | the species counts never decrease along the curve |
| SpeciesArea.SpeciesCurveBound | simulation.h:312 | the count after row x is at most (x + 1)(x + 2) / 2 |
| SpeciesArea.FindMatch | simulation.h:299-304 | the search with `break` reports a match exactly when some found species is `==` to the occupant |
| Engine.NewGrid | simulation.h:52 | `world(one_side * one_side)` gives fresh, pairwise distinct cells |
| Engine.Simulation.SeedCells | simulation.h:61-74 | the seeding loop gives cell i coordinates (i / L, i % L) and the occupant drawn for it; one species for every cell when `init_mono_dom` holds, a draw per cell otherwise |
| Engine.Simulation.constructor | simulation.h:44-75 | the simulation holds the Hoppe pool with its table and octaves, a fully seeded grid, empty statistics and `t == 0` |
| Engine.Simulation.Parent | simulation.h:173-174 | the parent found from the source cell's coordinates is a cell of the grid |
| Engine.Simulation.ParentNotSource | simulation.h:163-167 | for targets within reach the parent is never the dying cell itself |
| Engine.Simulation.LocalReproduction | simulation.h:172-177 | the offspring exists exactly when a parent is found, and is that parent's occupant |
| Engine.Simulation.Update | simulation.h:180-196 | only the dying cell changes: it receives a copy of the parent's occupant, a new species of count 1, or a pool member, as the coins decide; `t` goes up by one |
| Engine.Simulation.GetColor | simulation.h:198-200 | the colour of a cell is its occupant's colour (`species::get_color`, cell.h:44-46), and each of its three components is below 256 |
| Engine.Simulation.CountIds | simulation.h:203-206 | the histogram loop builds the histogram of the grid's ids in position order |
| Engine.CopyAbundances | simulation.h:221-228 | the fill loop copies the abundances in key order, each at least 1, and returns their maximum |
| Engine.Rescale | simulation.h:230-233 | the scaling loop multiplies every point by `100 / max` |
| Engine.ComputeRankCurve | simulation.h:221-233 | the copy, sort and rescale steps compute the rank curve of the histogram's abundances |
| Engine.Simulation.UpdateRankAbundCurve | simulation.h:220-234 | the stored curve is the descending, rescaled abundance list of the histogram |
| Engine.HistogramBounds | simulation.h:202-212 | the grid histogram counts every cell, has one bin per distinct id, and each abundance lies in [1, N] and within the local buckets |
| Engine.HistogramOctaves | simulation.h:208-213 | the octave loop fills the `1 + floor(log2 N)` buckets with the class counts of the histogram |
| Engine.LocalOctaves | simulation.h:208-213 | the local octaves have `1 + floor(log2 N)` buckets; LocalOctavesSum states their total |
| Engine.LocalOctavesSum | simulation.h:208-213 | the local octave buckets sum to the number of species |
| Engine.LocalRankCurve | simulation.h:215-234 | the rank curve of a grid has one point per species, is non-increasing, and starts at 100 |
| Engine.Simulation.UpdateStats | simulation.h:202-218 | histogram, local octaves and rank curve are those of the grid's ids, and the result is the number of species |
| Engine.Simulation.GetLocalOctaves | simulation.h:276-281 | the statistics are computed first only when the octaves are empty; the result is the stored octaves |
| Engine.Simulation.NumSpecies | simulation.h:283-285 | the histogram size is the number of distinct ids in it |
| Engine.Simulation.ScanRow | simulation.h:295-309 | one pass of the inner loop turns the species found before row x into those found through row x |
| Engine.Simulation.UpdateSpeciesArea | simulation.h:287-316 | the outputs are the area curve `1, 4, ..., (L - 1)^2` and the species counts of the triangle scan after each row x >= 1 |

## Left out

- Floating point is modelled as exact reals. This covers the urn uniforms, `theta / (theta + j - 1)`, `u * cdf.back()`, the `cdf_` entries (which are whole numbers in the source) and `100.0 / max`. Rounding is not modelled.
- The random source (`rnd_t`, `std::mt19937`, the clock-based seed) is not part of this model. Every draw is a parameter.
- The dispersal direction and distance (`sinf`, `cosf`, `std::round`) are left out. The rounded target coordinates are inputs.
- Engine.Simulation.Update: the source retries `get_coordinate` until a target misses the source, which may never end. The model takes a finite list of targets. When every one of them hits the source, the result is `NoParentFound`, nothing changes, and `t` is not incremented.
- The species id is abstract. `random_number(1e10)` and its overflow through `int` are not modelled. The id is narrowed to `int` only where `get_species_id` does so.
- The default `species()` constructor, which draws with `std::rand`, is left out. A new cell holds a fixed placeholder occupant, which the constructor overwrites before anyone reads it.
- `log2(world.size())` is the integer floor of the base-2 logarithm.
- `std::sort` is specified as a pure function: a non-increasing permutation. Sorting in place is not modelled.
- The grid is limited to fewer than 2^31 cells. `set_world_size` narrows the cell count to an `int`, and the histogram counts are `int`s.
- Octaves.OctaveSort: it is modelled only for abundances below 2^62, so that the doubling `long` window cannot overflow.
- `create_meta_community` runs only from the constructor. Calling it a second time would append to a `cdf_` that is never cleared, and that is not modelled.
- The metacommunity size must satisfy `1 <= Jm < 2^31`, so that the species counts fit an `int`.
- `get_meta_octaves` returns the stored field and is not modelled separately.
- Engine.Simulation.UpdateStats: its results are stated against the grid's ids before the call (`old(Ids())`). The grid does not change, but the statement is framed that way.
- Engine.Simulation.GetLocalOctaves: it is stated against `old(Ids())` for the same reason.
- Engine.Simulation.UpdateSpeciesArea: its ghost parameter `grid` names the occupants the scan reads. The result is stated over that list of occupants.
- SpeciesArea.SpeciesCurveBound: the bound is stated doubled, as `2 * count <= (x + 1)(x + 2)`.
- SpeciesArea.VisitsSize: it is stated doubled for the same reason.
- The Qt user interface and its driver loop (`mainwindow.cpp`, `mainwindow.hpp`) are not part of this model.
