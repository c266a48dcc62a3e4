/**
 * Lattice addressing and local dispersal on the L x L torus: the row-major
 * position of a cell, and the choice of the parent cell for a local birth.
 */
module Dispersal {

  datatype Option<T> = None | Some(value: T)

  const SizeModulus: int := 0x1_0000_0000_0000_0000

  /** The conversion of an `int` to a 64-bit `size_t`: reduce modulo 2^64. */
  function ToSizeT(v: int): (r: nat)
    ensures r < SizeModulus && (v - r) % SizeModulus == 0
    ensures 0 <= v < SizeModulus ==> r == v
  {
    v % SizeModulus
  }

  /** The grid sizes for which `L * L` cells can be addressed by a `size_t`. */
  predicate ValidSide(L: nat)
  {
    1 <= L && L * L <= SizeModulus
  }

  lemma {:induction false} MulMonotone(a: nat, b: nat, c: nat)
    requires a <= b
    ensures a * c <= b * c
  {
    if c > 0 {
      MulMonotone(a, b, c - 1);
      assert a * c == a * (c - 1) + a && b * c == b * (c - 1) + b;
    }
  }

  lemma RowMajorBound(x: nat, y: nat, L: nat)
    requires x < L && y < L
    ensures x * L + y < L * L
  {
    MulMonotone(x + 1, L, L);
    assert (x + 1) * L == x * L + L;
  }

  /**
   * The row-major position `x * L + y` as repeated addition of the row
   * length, the form in which the scans of the grid reason about positions.
   */
  function RowMajor(x: nat, y: nat, L: nat): nat
  {
    if x == 0 then y else RowMajor(x - 1, y, L) + L
  }

  lemma {:induction false} RowMajorIs(x: nat, y: nat, L: nat)
    ensures RowMajor(x, y, L) == x * L + y
  {
    if x > 0 {
      RowMajorIs(x - 1, y, L);
      assert x * L == (x - 1) * L + L;
    }
  }

  /**
   * `convert_to_pos`: the row-major position `x * L + y` (written with
   * `RowMajor`), computed in `size_t` arithmetic and clamped to the last
   * cell when it falls outside the grid.
   */
  function ConvertToPos(x: nat, y: nat, L: nat): (r: nat)
    requires ValidSide(L)
    ensures r < L * L
    ensures x < L && y < L ==> r == x * L + y
  {
    var output := ToSizeT(RowMajor(x, y, L));
    var r := if output >= L * L then L * L - 1 else output;
    RowMajorIs(x, y, L);
    if x < L && y < L then RowMajorBound(x, y, L); r else r
  }

  /** On the grid, `convert_to_pos` is the plain row-major position. */
  lemma ConvertIsRowMajor(x: nat, y: nat, L: nat)
    requires ValidSide(L) && x < L && y < L
    ensures RowMajor(x, y, L) < L * L
    ensures ConvertToPos(x, y, L) == RowMajor(x, y, L)
  {
    RowMajorIs(x, y, L);
    RowMajorBound(x, y, L);
  }

  /** Distinct in-grid coordinates have distinct positions. */
  lemma RowMajorInjective(x1: nat, y1: nat, x2: nat, y2: nat, L: nat)
    requires x1 < L && y1 < L && x2 < L && y2 < L
    requires x1 * L + y1 == x2 * L + y2
    ensures x1 == x2 && y1 == y2
  {
    if x1 < x2 {
      MulMonotone(x1 + 1, x2, L);
    } else if x2 < x1 {
      MulMonotone(x2 + 1, x1, L);
    }
  }

  /** Row-major decomposition and `convert_to_pos` are inverse on the grid. */
  lemma {:induction false} ConvertDecomposed(pos: nat, L: nat)
    requires ValidSide(L) && pos < L * L
    ensures pos / L < L && pos % L < L
    ensures ConvertToPos(pos / L, pos % L, L) == pos
  {
    var x, y := pos / L, pos % L;
    assert pos == x * L + y;
    if x >= L {
      MulMonotone(L, x, L);
    }
  }

  /** ... and the other way round: the position of (x, y) decomposes back to (x, y). */
  lemma {:induction false} DecomposeConverted(x: nat, y: nat, L: nat)
    requires ValidSide(L) && x < L && y < L
    ensures ConvertToPos(x, y, L) / L == x && ConvertToPos(x, y, L) % L == y
  {
    assert ConvertToPos(x, y, L) == x * L + y;
    RowMajorDivMod(x, y, L);
  }

  lemma RowMajorDivMod(x: nat, y: nat, L: nat)
    requires x < L && y < L
    ensures (x * L + y) / L == x && (x * L + y) % L == y
  {
    var p := x * L + y;
    var a, b := p / L, p % L;
    assert p == a * L + b && 0 <= b < L;
    if a >= L {
      MulMonotone(L, a, L);
      RowMajorBound(x, y, L);
    }
    RowMajorInjective(a, b, x, y, L);
  }

  /** The toroidal wrap of one coordinate: at most one shift by L each way. */
  function WrapOnce(v: int, L: nat): (r: int)
    ensures -(L as int) <= v < 2 * L ==> 0 <= r < L && (r - v) % L == 0
    ensures 0 <= v < L ==> r == v
  {
    var a := if v < 0 then v + L else v;
    if a >= L then a - L else a
  }

  /** A dispersal target: the rounded coordinates `source + offset` before wrapping. */
  datatype Target = Target(x: int, y: int)

  /** The target lands back on the source cell, as the source compares them. */
  predicate HitsSource(sx: nat, sy: nat, t: Target, L: nat)
  {
    ToSizeT(WrapOnce(t.x, L)) == sx && ToSizeT(WrapOnce(t.y, L)) == sy
  }

  predicate InReach(t: Target, L: nat)
  {
    -(L as int) <= t.x < 2 * L && -(L as int) <= t.y < 2 * L
  }

  /**
   * `get_coordinate`: wrap the target and convert it to a position, drawing
   * again while it is the source cell. The draws are the list `targets`;
   * `None` means every target in the list hit the source.
   */
  function GetCoordinate(sx: nat, sy: nat, targets: seq<Target>, L: nat): (r: Option<nat>)
    requires ValidSide(L)
    ensures r.Some? ==> r.value < L * L
    ensures r.Some? <==> exists i :: 0 <= i < |targets| && !HitsSource(sx, sy, targets[i], L)
  {
    if targets == [] then None
    else
      var t := targets[0];
      if HitsSource(sx, sy, t, L) then
        var r := GetCoordinate(sx, sy, targets[1..], L);
        assert forall i :: 0 < i < |targets| ==> targets[i] == targets[1..][i - 1];
        r
      else
        Some(ConvertToPos(ToSizeT(WrapOnce(t.x, L)), ToSizeT(WrapOnce(t.y, L)), L))
  }

  /** One target within reach that misses the source picks its wrapped position. */
  lemma ChosenCell(sx: nat, sy: nat, t: Target, L: nat)
    requires ValidSide(L) && sx < L && sy < L
    requires InReach(t, L) && !HitsSource(sx, sy, t, L)
    ensures var p := ConvertToPos(ToSizeT(WrapOnce(t.x, L)), ToSizeT(WrapOnce(t.y, L)), L);
      p == WrapOnce(t.x, L) * L + WrapOnce(t.y, L) && p != sx * L + sy
  {
    var wx, wy := WrapOnce(t.x, L), WrapOnce(t.y, L);
    assert ToSizeT(wx) == wx && ToSizeT(wy) == wy;
    if wx * L + wy == sx * L + sy {
      RowMajorInjective(wx, wy, sx, sy, L);
    }
  }

  /**
   * For targets within one grid width of the grid, the chosen cell is the
   * wrapped position of a target, inside the grid, and never the source.
   */
  lemma {:induction false} GetCoordinateInReach(sx: nat, sy: nat, targets: seq<Target>, L: nat)
    requires ValidSide(L) && sx < L && sy < L
    requires forall i :: 0 <= i < |targets| ==> InReach(targets[i], L)
    ensures var r := GetCoordinate(sx, sy, targets, L);
      r.Some? ==>
        && r.value != sx * L + sy
        && exists i :: 0 <= i < |targets| && r.value == WrapOnce(targets[i].x, L) * L + WrapOnce(targets[i].y, L)
  {
    if targets != [] {
      var t := targets[0];
      if HitsSource(sx, sy, t, L) {
        GetCoordinateInReach(sx, sy, targets[1..], L);
        var r := GetCoordinate(sx, sy, targets[1..], L);
        if r.Some? {
          var i :| 0 <= i < |targets[1..]|
            && r.value == WrapOnce(targets[1..][i].x, L) * L + WrapOnce(targets[1..][i].y, L);
          assert targets[1..][i] == targets[i + 1];
        }
      } else {
        ChosenCell(sx, sy, t, L);
      }
    }
  }

  /**
   * A target two grid widths away is not brought back by the single wrap:
   * its position is clamped to the last cell, so the last cell can pick
   * itself as parent.
   */
  lemma FarTargetPicksLastCell()
    ensures GetCoordinate(1, 1, [Target(5, 1)], 2) == Some(3)
  {
    assert !HitsSource(1, 1, Target(5, 1), 2);
    RowMajorIs(3, 1, 2);
  }

  /**
   * A target still outside the grid after one wrap is not always clamped:
   * on a 3 x 3 grid, column 7 wraps once to column 4, whose row-major
   * position 0 * 3 + 4 lies inside the grid. It is cell (1, 1), which thus
   * picks itself although it is not the last cell.
   */
  lemma OverflowingColumnPicksSource()
    ensures GetCoordinate(1, 1, [Target(0, 7)], 3) == Some(4)
    ensures ConvertToPos(1, 1, 3) == 4
  {
    assert !HitsSource(1, 1, Target(0, 7), 3);
    RowMajorIs(0, 4, 3);
    RowMajorIs(1, 1, 3);
  }

  /**
   * A column still negative after one wrap becomes `2^64 - 1` as a `size_t`,
   * and the row-major sum wraps around modulo 2^64 to an ordinary cell:
   * on a 3 x 3 grid the target (2, -4) picks cell 5.
   */
  lemma NegativeColumnWrapsAround()
    ensures GetCoordinate(0, 0, [Target(2, -4)], 3) == Some(5)
  {
    assert ToSizeT(WrapOnce(-4, 3)) == SizeModulus - 1;
    assert !HitsSource(0, 0, Target(2, -4), 3);
    RowMajorIs(2, SizeModulus - 1, 3);
    assert ToSizeT(2 * 3 + (SizeModulus - 1)) == 5;
  }
}
