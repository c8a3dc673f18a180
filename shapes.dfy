/** The shape table and the rotation mapper of the piece-placement engine. */
module Shapes {

  /** Number of piece kinds: the seven tetrominoes and the four special kinds. */
  const KindCount := 11

  /** A piece kind is the source's integer type code: 0..6 are I, T, S, Z, O, L, J;
      7..10 are Frozen, Electrical, Fire and Ghost. */
  type Kind = k: int | 0 <= k < KindCount

  const Frozen: Kind := 7
  const Electrical: Kind := 8
  const Fire: Kind := 9
  const Ghost: Kind := 10

  /** Side of a piece's bounding box, and the number of cells in a mask. */
  const BoxSide := 4
  const MaskSize := 16

  /** The 4x4 occupancy masks at rotation 0, row-major, 'X' for an occupied cell,
      indexed by kind. */
  const MaskTable: seq<string> := [
    "..X...X...X...X.",   // I
    "..X..XX...X.....",   // T
    ".X..XX..X.......",   // S
    "..X..XX..X......",   // Z
    ".XX..XX.........",   // O
    ".X...X...XX.....",   // L
    "..X...X..XX.....",   // J
    "..X..XX..X......",   // Frozen, as Z
    ".XX..XX.........",   // Electrical, as O
    "..X..XX...X.....",   // Fire, as T
    "..X...X...X...X."    // Ghost, as I
  ]

  /** The mask of a kind. */
  function Mask(k: Kind): (m: string)
    ensures |m| == MaskSize
  {
    EntryIsIndex(MaskTable, k);
    Entry(MaskTable, k)
  }

  /** Entry k of a table, found by walking the table. */
  function Entry(table: seq<string>, k: nat): string
    requires k < |table|
  {
    if k == 0 then table[0] else Entry(table[1..], k - 1)
  }

  lemma {:induction false} EntryIsIndex(table: seq<string>, k: nat)
    requires k < |table|
    ensures Entry(table, k) == table[k]
  {
    if k > 0 {
      EntryIsIndex(table[1..], k - 1);
    }
  }

  /** Whether mask index i of kind k is occupied. */
  predicate IsBlock(k: Kind, i: int)
    requires 0 <= i < MaskSize
  {
    Mask(k)[i] == 'X'
  }

  /** Every mask has an occupied cell, at index 1 or 2. */
  lemma MaskHasBlock(k: Kind)
    ensures IsBlock(k, 1) || IsBlock(k, 2)
  {
    EntryIsIndex(MaskTable, k);
  }

  /** The four special kinds reuse the masks of Z, O, T and I. */
  lemma SpecialMasksAreAliases()
    ensures Mask(Frozen) == Mask(3) && Mask(Electrical) == Mask(4)
    ensures Mask(Fire) == Mask(1) && Mask(Ghost) == Mask(0)
  {
    EntryIsIndex(MaskTable, Frozen);
    EntryIsIndex(MaskTable, 3);
    EntryIsIndex(MaskTable, Electrical);
    EntryIsIndex(MaskTable, 4);
    EntryIsIndex(MaskTable, Fire);
    EntryIsIndex(MaskTable, 1);
    EntryIsIndex(MaskTable, Ghost);
    EntryIsIndex(MaskTable, 0);
  }

  /** The mask index shown at local cell (px, py) of a piece turned r quarter turns.
      Rotations only ever count up from 0, so r is a natural number and the remainder
      is always one of the four cases. */
  function Rotate(px: int, py: int, r: nat): (i: int)
    ensures 0 <= px < BoxSide && 0 <= py < BoxSide ==> 0 <= i < MaskSize
  {
    match r % 4
    case 0 => py * 4 + px
    case 1 => 12 + py - px * 4
    case 2 => 15 - py * 4 - px
    case _ => 3 - py + px * 4
  }

  /** The local cell that shows mask index i at rotation r: the inverse of Rotate. */
  function CellOf(i: int, r: nat): (cell: (int, int))
    requires 0 <= i < MaskSize
    ensures 0 <= cell.0 < BoxSide && 0 <= cell.1 < BoxSide
  {
    match r % 4
    case 0 => (i % 4, i / 4)
    case 1 => (3 - i / 4, i % 4)
    case 2 => ((15 - i) % 4, (15 - i) / 4)
    case _ => (i / 4, 3 - i % 4)
  }

  /** Rotate undoes CellOf: every mask index is shown by some cell. */
  lemma RotateCellOf(i: int, r: nat)
    requires 0 <= i < MaskSize
    ensures Rotate(CellOf(i, r).0, CellOf(i, r).1, r) == i
  {
  }

  /** CellOf undoes Rotate: no two cells show the same mask index. */
  lemma CellOfRotate(px: int, py: int, r: nat)
    requires 0 <= px < BoxSide && 0 <= py < BoxSide
    ensures CellOf(Rotate(px, py, r), r) == (px, py)
  {
  }

  /** Each rotation maps the 16 cells one-to-one onto the 16 mask indices. */
  lemma {:induction false} RotateIsPermutation(r: nat)
    ensures forall px, py | 0 <= px < BoxSide && 0 <= py < BoxSide :: 0 <= Rotate(px, py, r) < MaskSize
    ensures forall px, py, qx, qy |
              0 <= px < BoxSide && 0 <= py < BoxSide && 0 <= qx < BoxSide && 0 <= qy < BoxSide &&
              Rotate(px, py, r) == Rotate(qx, qy, r) :: px == qx && py == qy
    ensures forall i | 0 <= i < MaskSize ::
              var cell := CellOf(i, r);
              0 <= cell.0 < BoxSide && 0 <= cell.1 < BoxSide && Rotate(cell.0, cell.1, r) == i
  {
    forall px, py, qx, qy |
      0 <= px < BoxSide && 0 <= py < BoxSide && 0 <= qx < BoxSide && 0 <= qy < BoxSide &&
      Rotate(px, py, r) == Rotate(qx, qy, r)
      ensures px == qx && py == qy
    {
      CellOfRotate(px, py, r);
      CellOfRotate(qx, qy, r);
    }
    forall i | 0 <= i < MaskSize
      ensures Rotate(CellOf(i, r).0, CellOf(i, r).1, r) == i
    {
      RotateCellOf(i, r);
    }
  }

  /** Four quarter turns are the identity. */
  lemma RotatePeriodic(px: int, py: int, r: nat)
    ensures Rotate(px, py, r + 4) == Rotate(px, py, r)
  {
  }
}
