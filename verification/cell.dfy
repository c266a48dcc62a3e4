/**
 * The lattice data model: a species (an identity with a colour and a
 * snapshot abundance) and a cell of the fixed grid that holds one.
 */
module Cells {

  /** The three colour components a species carries (a `std::array<size_t, 3>`). */
  datatype Rgb = Rgb(r: nat, g: nat, b: nat)

  /**
   * What the species constructor draws from the random source, in order:
   * the id, then `random_number(256)` once per colour component.
   */
  datatype SpeciesDraw = SpeciesDraw(id: nat, r: nat, g: nat, b: nat)

  /** `random_number(256)` yields a value in [0, 255]. */
  predicate ValidDraw(d: SpeciesDraw)
  {
    d.r < 256 && d.g < 256 && d.b < 256
  }

  /** The abstract id, the abundance recorded at creation and the colour. */
  datatype Species = Species(id: nat, count: int, color: Rgb)

  predicate ColorInRange(s: Species)
  {
    s.color.r <= 255 && s.color.g <= 255 && s.color.b <= 255
  }

  /** The counted constructor `species(count, rng)`. */
  function NewSpecies(count: int, d: SpeciesDraw): (s: Species)
    requires ValidDraw(d)
    ensures s.count == count && s.id == d.id
    ensures ColorInRange(s)
  {
    Species(d.id, count, Rgb(d.r, d.g, d.b))
  }

  /** `species::operator==`: the id and all three colour components agree; the count is ignored. */
  predicate SameSpecies(a: Species, b: Species)
  {
    if a.id != b.id then false
    else if a.color.r != b.color.r then false
    else if a.color.g != b.color.g then false
    else a.color.b == b.color.b
  }

  lemma SameSpeciesIsEquivalence(a: Species, b: Species, c: Species)
    ensures SameSpecies(a, a)
    ensures SameSpecies(a, b) ==> SameSpecies(b, a)
    ensures SameSpecies(a, b) && SameSpecies(b, c) ==> SameSpecies(a, c)
  {
  }

  lemma SameSpeciesCharacterised(a: Species, b: Species)
    ensures SameSpecies(a, b) <==> a.id == b.id && a.color == b.color
  {
  }

  const IntModulus: int := 0x1_0000_0000

  /** The conversion of a `size_t` to a 32-bit `int`: reduce modulo 2^32, two's complement. */
  function NarrowToInt(v: nat): (r: int)
    ensures -0x8000_0000 <= r < 0x8000_0000
    ensures (v - r) % IntModulus == 0
  {
    var m := v % IntModulus;
    if m < 0x8000_0000 then m else m - IntModulus
  }

  /** `species::get_color`. */
  function GetColor(s: Species): (c: Rgb)
    ensures c == s.color
  {
    s.color
  }

  /** Equal species give equal `get_species_id()` values. */
  lemma SameSpeciesSameId(a: Species, b: Species)
    requires SameSpecies(a, b)
    ensures NarrowToInt(a.id) == NarrowToInt(b.id)
  {
  }

  /** The occupant a cell holds before the grid is filled. */
  const Placeholder: Species := Species(0, 0, Rgb(0, 0, 0))

  /**
   * One cell of the fixed grid. Cells are never copied or moved: the grid
   * holds references to them, and only the occupant changes after the grid
   * is laid out.
   */
  class Cell {
    var localSpecies: Species
    var x: nat
    var y: nat

    constructor ()
      ensures localSpecies == Placeholder && x == 0 && y == 0
    {
      localSpecies := Placeholder;
      x, y := 0, 0;
    }

    /** Replaces the occupant by a copy of `s`; the coordinates are untouched. */
    method SetSpecies(s: Species)
      modifies this`localSpecies
      ensures GetSpecies() == s
      ensures SameSpecies(GetSpecies(), s)
    {
      localSpecies := s;
    }

    function GetSpecies(): Species
      reads this
    {
      localSpecies
    }

    function GetSpeciesId(): (r: int)
      reads this
      ensures -0x8000_0000 <= r < 0x8000_0000
      ensures (localSpecies.id - r) % IntModulus == 0
    {
      NarrowToInt(localSpecies.id)
    }

    /** Row-major decomposition of a linear position; the occupant is untouched. */
    method SetXY(pos: nat, rowSize: nat)
      requires rowSize > 0
      modifies this`x, this`y
      ensures x == pos / rowSize && y == pos % rowSize
      ensures y < rowSize && x * rowSize + y == pos
    {
      x := pos / rowSize;
      y := pos % rowSize;
    }
  }
}
