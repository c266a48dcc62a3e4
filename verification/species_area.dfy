/**
 * The species-area scan: the cells of the lower-left triangle of the grid
 * are visited row by row, and every occupant not yet seen (by species
 * equality) is appended to the list of species found.
 */
module SpeciesArea {
  import opened Cells
  import opened Dispersal

  /** Some species in `found` is equal to `s`. */
  predicate Contains(found: seq<Species>, s: Species)
  {
    exists i :: 0 <= i < |found| && SameSpecies(found[i], s)
  }

  /** No two species in the list are equal. */
  predicate Distinct(found: seq<Species>)
  {
    forall i, j :: 0 <= i < j < |found| ==> !SameSpecies(found[i], found[j])
  }

  /** One step of the scan: append `s` unless an equal species is already listed. */
  function AddIfNew(found: seq<Species>, s: Species): seq<Species>
  {
    if Contains(found, s) then found else found + [s]
  }

  /** The species found after visiting the occupants `occ` in order. */
  function Found(occ: seq<Species>): (r: seq<Species>)
    ensures |r| <= |occ|
    ensures occ != [] ==> r != []
  {
    if occ == [] then [] else AddIfNew(Found(occ[..|occ| - 1]), occ[|occ| - 1])
  }

  /** The list holds no two equal species. */
  lemma {:induction false} FoundDistinct(occ: seq<Species>)
    ensures Distinct(Found(occ))
  {
    if occ != [] {
      var s := occ[|occ| - 1];
      var f := Found(occ[..|occ| - 1]);
      FoundDistinct(occ[..|occ| - 1]);
      if !Contains(f, s) {
        var r := f + [s];
        forall i, j | 0 <= i < j < |r|
          ensures !SameSpecies(r[i], r[j])
        {
          if j == |f| {
            assert !SameSpecies(f[i], s);
          } else {
            assert r[i] == f[i] && r[j] == f[j];
          }
        }
      }
    }
  }

  /** Every visited occupant has an equal species in the list. */
  lemma {:induction false} FoundCovers(occ: seq<Species>)
    ensures forall k :: 0 <= k < |occ| ==> Contains(Found(occ), occ[k])
  {
    if occ != [] {
      var n := |occ|;
      var pre := occ[..n - 1];
      var f := Found(pre);
      FoundCovers(pre);
      forall k | 0 <= k < n
        ensures Contains(Found(occ), occ[k])
      {
        if k < n - 1 {
          assert occ[k] == pre[k];
          var i :| 0 <= i < |f| && SameSpecies(f[i], pre[k]);
          assert Found(occ)[i] == f[i];
        } else if !Contains(f, occ[n - 1]) {
          assert Found(occ)[|f|] == occ[n - 1];
        }
      }
    }
  }

  /** Each entry of the list is a visited occupant, so there are no more entries than visits. */
  lemma {:induction false} FoundFromVisits(occ: seq<Species>)
    ensures forall i :: 0 <= i < |Found(occ)| ==> Found(occ)[i] in occ
    ensures |Found(occ)| <= |occ|
  {
    if occ != [] {
      var pre := occ[..|occ| - 1];
      var f := Found(pre);
      FoundFromVisits(pre);
      forall i | 0 <= i < |Found(occ)|
        ensures Found(occ)[i] in occ
      {
        if i < |f| {
          assert f[i] in pre;
        }
      }
    }
  }

  /** One more visit: the scan over a longer prefix adds that occupant if it is new. */
  lemma FoundStep(occ: seq<Species>, n: nat)
    requires n < |occ|
    ensures Found(occ[..n + 1]) == AddIfNew(Found(occ[..n]), occ[n])
  {
    assert occ[..n + 1][..n] == occ[..n];
  }

  lemma FoundWhole(occ: seq<Species>, m: nat)
    requires m == |occ|
    ensures Found(occ[..m]) == Found(occ)
  {
    assert occ[..m] == occ;
  }

  /** Visiting more cells only appends: the earlier list is a prefix of the later one. */
  lemma {:induction false} FoundGrows(occ: seq<Species>, more: seq<Species>)
    ensures |Found(occ)| <= |Found(occ + more)|
    ensures Found(occ) == Found(occ + more)[..|Found(occ)|]
  {
    if more != [] {
      var m := |more|;
      FoundGrows(occ, more[..m - 1]);
      assert (occ + more)[..|occ + more| - 1] == occ + more[..m - 1];
    } else {
      assert occ + more == occ;
    }
  }

  /** The area of a square of side `x`, in cells, as a `double`. */
  function Square(x: nat): real
  {
    (x * x) as real
  }

  /**
   * The occupant at position `p` of the row-major list `grid`; the scan
   * only visits positions inside the grid, so the fallback is never read.
   */
  function Occupant(grid: seq<Species>, p: nat): Species
  {
    if p < |grid| then grid[p] else Placeholder
  }

  /** The occupants of cells (x, 0) .. (x, n - 1) of an L x L grid holding `grid`, in visiting order. */
  function RowVisits(grid: seq<Species>, x: nat, n: nat, L: nat): (v: seq<Species>)
    ensures |v| == n
  {
    if n == 0 then [] else RowVisits(grid, x, n - 1, L) + [Occupant(grid, RowMajor(x, n - 1, L))]
  }

  /**
   * The occupants the scan visits in rows 0 .. rows - 1, row x being the
   * cells (x, 0) .. (x, x) of the lower-left triangle.
   */
  function Visits(grid: seq<Species>, rows: nat, L: nat): seq<Species>
  {
    if rows == 0 then [] else Visits(grid, rows - 1, L) + RowVisits(grid, rows - 1, rows, L)
  }

  lemma {:induction false} RowVisitsAt(grid: seq<Species>, x: nat, n: nat, y: nat, L: nat)
    requires ValidSide(L) && |grid| == L * L && x < L && n <= L && y < n
    ensures RowMajor(x, y, L) < L * L
    ensures RowVisits(grid, x, n, L)[y] == grid[RowMajor(x, y, L)]
  {
    ConvertIsRowMajor(x, y, L);
    if y < n - 1 {
      RowVisitsAt(grid, x, n - 1, y, L);
    }
  }

  /** The scan of `rows` rows visits 1 + 2 + ... + rows cells. */
  lemma {:induction false} VisitsSize(grid: seq<Species>, rows: nat, L: nat)
    ensures 2 * |Visits(grid, rows, L)| == rows * (rows + 1)
  {
    if rows > 0 {
      var r := rows - 1;
      VisitsSize(grid, r, L);
      assert |Visits(grid, rows, L)| == |Visits(grid, r, L)| + rows;
      assert rows * (rows + 1) == r * (r + 1) + 2 * rows by {
        assert rows * (rows + 1) == (r + 1) * (r + 2);
      }
    }
  }

  /** The visits of fewer rows come first among the visits of more rows. */
  lemma {:induction false} VisitsPrefix(grid: seq<Species>, a: nat, b: nat, L: nat)
    requires a <= b
    ensures |Visits(grid, a, L)| <= |Visits(grid, b, L)|
    ensures Visits(grid, a, L) == Visits(grid, b, L)[..|Visits(grid, a, L)|]
  {
    if a < b {
      VisitsPrefix(grid, a, b - 1, L);
      var va, vm, vb := Visits(grid, a, L), Visits(grid, b - 1, L), Visits(grid, b, L);
      assert vb == vm + RowVisits(grid, b - 1, b, L);
      assert vb[..|va|] == vm[..|va|];
    }
  }

  /** Row x adds x + 1 visits, and visit y of the row is the occupant of cell (x, y). */
  lemma VisitAt(grid: seq<Species>, x: nat, y: nat, L: nat)
    requires ValidSide(L) && |grid| == L * L && x < L && y <= x
    ensures |Visits(grid, x + 1, L)| == |Visits(grid, x, L)| + x + 1
    ensures RowMajor(x, y, L) < L * L
    ensures Visits(grid, x + 1, L)[|Visits(grid, x, L)| + y] == grid[RowMajor(x, y, L)]
  {
    RowVisitsAt(grid, x, x + 1, y, L);
  }

  /** The species found by the scan after rows 0 .. rows - 1. */
  function SpeciesFound(grid: seq<Species>, rows: nat, L: nat): seq<Species>
  {
    Found(Visits(grid, rows, L))
  }

  /** Scanning more rows only appends: the earlier list of species is a prefix of the later one. */
  lemma SpeciesFoundGrows(grid: seq<Species>, a: nat, b: nat, L: nat)
    requires a <= b
    ensures |SpeciesFound(grid, a, L)| <= |SpeciesFound(grid, b, L)|
    ensures SpeciesFound(grid, a, L) == SpeciesFound(grid, b, L)[..|SpeciesFound(grid, a, L)|]
  {
    var va, vb := Visits(grid, a, L), Visits(grid, b, L);
    assert vb == va + vb[|va|..] by {
      VisitsPrefix(grid, a, b, L);
    }
    FoundGrows(va, vb[|va|..]);
    assert SpeciesFound(grid, a, L) == Found(va) && SpeciesFound(grid, b, L) == Found(vb);
  }

  /**
   * After `rows` rows the scan holds pairwise distinct species, one equal to
   * every visited occupant, and no more than the rows * (rows + 1) / 2 cells visited.
   */
  lemma SpeciesFoundProperties(grid: seq<Species>, rows: nat, L: nat)
    ensures Distinct(SpeciesFound(grid, rows, L))
    ensures forall k :: 0 <= k < |Visits(grid, rows, L)| ==> Contains(SpeciesFound(grid, rows, L), Visits(grid, rows, L)[k])
    ensures 2 * |SpeciesFound(grid, rows, L)| <= rows * (rows + 1)
  {
    FoundDistinct(Visits(grid, rows, L));
    FoundCovers(Visits(grid, rows, L));
    FoundFromVisits(Visits(grid, rows, L));
    VisitsSize(grid, rows, L);
  }

  /** The species found once the scan has visited rows 0 .. x - 1 and cells (x, 0) .. (x, y - 1). */
  function ScanPrefix(grid: seq<Species>, x: nat, y: nat, L: nat): seq<Species>
    requires y <= x + 1
  {
    Found(Visits(grid, x + 1, L)[..|Visits(grid, x, L)| + y])
  }

  /** Row x of the scan starts from the species found in rows 0 .. x - 1. */
  lemma RowStart(grid: seq<Species>, x: nat, L: nat)
    ensures ScanPrefix(grid, x, 0, L) == SpeciesFound(grid, x, L)
  {
    VisitsPrefix(grid, x, x + 1, L);
  }

  /** Visiting cell (x, y) adds its occupant unless an equal species is already found. */
  lemma ScanStep(grid: seq<Species>, x: nat, y: nat, L: nat)
    requires ValidSide(L) && |grid| == L * L && x < L && y <= x
    ensures RowMajor(x, y, L) < L * L
    ensures ScanPrefix(grid, x, y + 1, L) == AddIfNew(ScanPrefix(grid, x, y, L), grid[RowMajor(x, y, L)])
  {
    VisitAt(grid, x, y, L);
    var occ, n := Visits(grid, x + 1, L), |Visits(grid, x, L)| + y;
    FoundStep(occ, n);
    assert ScanPrefix(grid, x, y, L) == Found(occ[..n]);
    assert ScanPrefix(grid, x, y + 1, L) == Found(occ[..n + 1]);
  }

  /** After cell (x, x) the scan has found the species of rows 0 .. x. */
  lemma RowEnd(grid: seq<Species>, x: nat, L: nat)
    ensures ScanPrefix(grid, x, x + 1, L) == SpeciesFound(grid, x + 1, L)
  {
    FoundWhole(Visits(grid, x + 1, L), |Visits(grid, x, L)| + x + 1);
  }

  /** The points of a curve over the square sides 1 .. m: point i is `f(i + 1)`. */
  function Curve(f: nat -> real, m: nat): (c: seq<real>)
    ensures |c| == m
  {
    if m == 0 then [] else Curve(f, m - 1) + [f(m)]
  }

  lemma {:induction false} CurveAt(f: nat -> real, m: nat, i: nat)
    requires i < m
    ensures Curve(f, m)[i] == f(i + 1)
  {
    if i < m - 1 {
      CurveAt(f, m - 1, i);
    }
  }

  /** The areas emitted after rows 1 .. m: the squares 1, 4, ..., m * m. */
  function AreaCurve(m: nat): seq<real>
  {
    Curve((x: nat) => Square(x), m)
  }

  /**
   * The species counts emitted after rows 1 .. m of an L x L grid: the point
   * of side x is the number of species the scan has found in rows 0 .. x.
   */
  function SpeciesCurve(grid: seq<Species>, L: nat, m: nat): seq<real>
  {
    Curve((x: nat) => |SpeciesFound(grid, x + 1, L)| as real, m)
  }

  lemma AreaCurveAt(m: nat, i: nat)
    requires i < m
    ensures |AreaCurve(m)| == m && AreaCurve(m)[i] == Square(i + 1)
  {
    CurveAt((x: nat) => Square(x), m, i);
  }

  lemma SpeciesCurveAt(grid: seq<Species>, L: nat, m: nat, i: nat)
    requires i < m
    ensures |SpeciesCurve(grid, L, m)| == m
    ensures SpeciesCurve(grid, L, m)[i] == |SpeciesFound(grid, i + 2, L)| as real
  {
    CurveAt((x: nat) => |SpeciesFound(grid, x + 1, L)| as real, m, i);
  }

  /**
   * The species-area curve of an L x L grid, one point per row x >= 1: the
   * area x * x and the number of species found in rows 0 .. x.
   */
  lemma SpeciesAreaPoints(grid: seq<Species>, L: nat, i: nat)
    requires i < L - 1
    ensures AreaCurve(L - 1)[i] == Square(i + 1)
    ensures SpeciesCurve(grid, L, L - 1)[i] == |SpeciesFound(grid, i + 2, L)| as real
  {
    AreaCurveAt(L - 1, i);
    SpeciesCurveAt(grid, L, L - 1, i);
  }

  /** The species counts of the curve never fall. */
  lemma SpeciesCurveMonotone(grid: seq<Species>, L: nat, m: nat, i: nat, j: nat)
    requires i <= j < m
    ensures SpeciesCurve(grid, L, m)[i] <= SpeciesCurve(grid, L, m)[j]
  {
    SpeciesCurveAt(grid, L, m, i);
    SpeciesCurveAt(grid, L, m, j);
    SpeciesFoundGrows(grid, i + 2, j + 2, L);
  }

  /** Point i of the curve counts at most the (i + 2) * (i + 3) / 2 cells scanned by then. */
  lemma SpeciesCurveBound(grid: seq<Species>, L: nat, m: nat, i: nat)
    requires i < m
    ensures 2.0 * SpeciesCurve(grid, L, m)[i] <= ((i + 2) * (i + 3)) as real
  {
    SpeciesCurveAt(grid, L, m, i);
    SpeciesFoundProperties(grid, i + 2, L);
  }

  /** The search of the scan: does `found` already hold a species equal to `local`? */
  method FindMatch(found: seq<Species>, local: Species) returns (matched: bool)
    ensures matched == Contains(found, local)
  {
    matched := false;
    var i := 0;
    while i < |found|
      invariant 0 <= i <= |found|
      invariant forall k :: 0 <= k < i ==> !SameSpecies(found[k], local)
    {
      if SameSpecies(found[i], local) {
        matched := true;
        break;
      }
      i := i + 1;
    }
  }
}
