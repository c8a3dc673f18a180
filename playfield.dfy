/** The playfield as a value: 200 cells, row-major, 0 for empty and kind + 1 for a
    locked block. These functions specify what the game's in-place loops compute. */
module Playfield {
  import opened Shapes

  const Width := 10
  const Height := 20
  const Cells := Width * Height

  /** The falling piece: its kind, quarter turns, and the playfield cell of the
      top-left corner of its 4x4 box. */
  datatype Piece = Piece(kind: Kind, rotation: nat, x: int, y: int)

  /** Outcome of a clearing pass: the new board and how many rows or blocks went. */
  datatype Cleared = Cleared(board: seq<int>, count: nat)

  predicate InBounds(cx: int, cy: int) {
    0 <= cx < Width && 0 <= cy < Height
  }

  /** Flat index of column cx, row cy. */
  function Index(cx: int, cy: int): (i: int)
    ensures InBounds(cx, cy) ==> 0 <= i < Cells
  {
    cy * Width + cx
  }

  /** Every flat index names a cell on the field. */
  lemma IndexOnto(i: int)
    requires 0 <= i < Cells
    ensures InBounds(i % Width, i / Width) && Index(i % Width, i / Width) == i
  {
  }

  /** A cell on the field is recovered from its flat index. */
  lemma IndexInverse(cx: int, cy: int)
    requires InBounds(cx, cy)
    ensures Index(cx, cy) / Width == cy && Index(cx, cy) % Width == cx
  {
  }

  /** Every cell is empty or names one of the eleven kinds. */
  ghost predicate CellsInRange(board: seq<int>) {
    forall i | 0 <= i < |board| :: 0 <= board[i] <= KindCount
  }

  function EmptyBoard(): (board: seq<int>)
    ensures |board| == Cells && CellsInRange(board)
    ensures forall i | 0 <= i < Cells :: board[i] == 0
  {
    seq(Cells, _ => 0)
  }

  /** Whether local cell (px, py) of the piece is occupied under its rotation. */
  predicate Occupied(p: Piece, px: int, py: int)
    requires 0 <= px < BoxSide && 0 <= py < BoxSide
  {
    IsBlock(p.kind, Rotate(px, py, p.rotation))
  }

  // ---------------------------------------------------------------------------
  // Fit test
  //
  // The scans below (and LockUpTo and BurnUpTo) list an argument that stays fixed
  // ahead of the loop counters in their decreases clauses, so that the verifier does
  // not unfold a whole scan whenever the counters are literals.

  /** The test made for one local cell: an occupied cell must land on the field,
      on an empty cell. */
  predicate CellFits(board: seq<int>, p: Piece, px: int, py: int)
    requires |board| == Cells && 0 <= px < BoxSide && 0 <= py < BoxSide
  {
    if InBounds(p.x + px, p.y + py) then
      !(Occupied(p, px, py) && board[Index(p.x + px, p.y + py)] != 0)
    else
      !Occupied(p, px, py)
  }

  /** The inner loop of the fit test: rows py..3 of column px, stopping at the
      first cell that fails. */
  predicate ColumnFits(board: seq<int>, p: Piece, px: int, py: int)
    requires |board| == Cells && 0 <= px < BoxSide && 0 <= py <= BoxSide
    decreases p, BoxSide - py
  {
    py == BoxSide || (CellFits(board, p, px, py) && ColumnFits(board, p, px, py + 1))
  }

  /** The outer loop of the fit test: columns px..3. */
  predicate FitsFrom(board: seq<int>, p: Piece, px: int)
    requires |board| == Cells && 0 <= px <= BoxSide
    decreases p, BoxSide - px
  {
    px == BoxSide || (ColumnFits(board, p, px, 0) && FitsFrom(board, p, px + 1))
  }

  /** The fit test: whether the piece may stand where it is. */
  predicate Fits(board: seq<int>, p: Piece)
    requires |board| == Cells
  {
    FitsFrom(board, p, 0)
  }

  /** Reference definition of fitting: every occupied cell of the rotated mask lands
      inside the 10x20 field on an empty cell. */
  ghost predicate Admits(board: seq<int>, p: Piece)
    requires |board| == Cells
  {
    forall px, py | 0 <= px < BoxSide && 0 <= py < BoxSide && Occupied(p, px, py) ::
      InBounds(p.x + px, p.y + py) && board[Index(p.x + px, p.y + py)] == 0
  }

  lemma {:induction false} ColumnFitsAll(board: seq<int>, p: Piece, px: int, py: int)
    requires |board| == Cells && 0 <= px < BoxSide && 0 <= py <= BoxSide
    ensures ColumnFits(board, p, px, py) <==> forall q | py <= q < BoxSide :: CellFits(board, p, px, q)
    decreases BoxSide - py
  {
    if py < BoxSide {
      ColumnFitsAll(board, p, px, py + 1);
    }
  }

  /** A column the outer loop reaches from column c passes the inner loop. */
  lemma {:induction false} FitsFromColumn(board: seq<int>, p: Piece, c: int, px: int)
    requires |board| == Cells && 0 <= c <= px < BoxSide && FitsFrom(board, p, c)
    ensures ColumnFits(board, p, px, 0)
    decreases px - c
  {
    if c < px {
      FitsFromColumn(board, p, c + 1, px);
    }
  }

  /** A cell the inner loop reaches from row q passes the cell test. */
  lemma {:induction false} ColumnFitsCell(board: seq<int>, p: Piece, px: int, q: int, py: int)
    requires |board| == Cells && 0 <= px < BoxSide && 0 <= q <= py < BoxSide
    requires ColumnFits(board, p, px, q)
    ensures CellFits(board, p, px, py)
    decreases py - q
  {
    if q < py {
      ColumnFitsCell(board, p, px, q + 1, py);
    }
  }

  /** Under the reference definition, the inner loop passes from any row on. */
  lemma {:induction false} AdmitsColumn(board: seq<int>, p: Piece, px: int, py: int)
    requires |board| == Cells && Admits(board, p) && 0 <= px < BoxSide && 0 <= py <= BoxSide
    ensures ColumnFits(board, p, px, py)
    decreases BoxSide - py
  {
    if py < BoxSide {
      AdmitsColumn(board, p, px, py + 1);
      assert CellFits(board, p, px, py);
    }
  }

  /** Under the reference definition, the outer loop passes from any column on. */
  lemma {:induction false} AdmitsFitsFrom(board: seq<int>, p: Piece, c: int)
    requires |board| == Cells && Admits(board, p) && 0 <= c <= BoxSide
    ensures FitsFrom(board, p, c)
    decreases BoxSide - c
  {
    if c < BoxSide {
      AdmitsColumn(board, p, c, 0);
      AdmitsFitsFrom(board, p, c + 1);
    }
  }

  /** The fit test accepts a placement exactly when the reference definition does. */
  lemma FitsIff(board: seq<int>, p: Piece)
    requires |board| == Cells
    ensures Fits(board, p) <==> Admits(board, p)
  {
    if Fits(board, p) {
      FitsAdmits(board, p);
    }
    if Admits(board, p) {
      AdmitsFits(board, p);
    }
  }

  lemma FitsAdmits(board: seq<int>, p: Piece)
    requires |board| == Cells && Fits(board, p)
    ensures Admits(board, p)
  {
    forall px, py | 0 <= px < BoxSide && 0 <= py < BoxSide && Occupied(p, px, py)
      ensures InBounds(p.x + px, p.y + py) && board[Index(p.x + px, p.y + py)] == 0
    {
      FitsOccupiedOnField(board, p, px, py);
    }
  }

  lemma AdmitsFits(board: seq<int>, p: Piece)
    requires |board| == Cells && Admits(board, p)
    ensures Fits(board, p)
  {
    AdmitsFitsFrom(board, p, 0);
  }

  /** An occupied cell of a piece that fits lies on the field, on an empty cell. */
  lemma FitsOccupiedOnField(board: seq<int>, p: Piece, px: int, py: int)
    requires |board| == Cells && Fits(board, p)
    requires 0 <= px < BoxSide && 0 <= py < BoxSide && Occupied(p, px, py)
    ensures InBounds(p.x + px, p.y + py) && board[Index(p.x + px, p.y + py)] == 0
  {
    FitsFromColumn(board, p, 0, px);
    ColumnFitsCell(board, p, px, 0, py);
  }

  /** A piece that fits has its top row above the floor: every mask has a block. */
  lemma FitsAboveFloor(board: seq<int>, p: Piece)
    requires |board| == Cells && Fits(board, p)
    ensures p.y < Height
  {
    FitsIff(board, p);
    MaskHasBlock(p.kind);
    var i := if IsBlock(p.kind, 1) then 1 else 2;
    RotateCellOf(i, p.rotation);
    var cell := CellOf(i, p.rotation);
    assert Occupied(p, cell.0, cell.1);
  }

  /** Any piece fits anywhere its whole box lies inside an empty field; in
      particular at the spawn position (3, 0). */
  lemma EmptyBoardFits(p: Piece)
    requires 0 <= p.x <= Width - BoxSide && 0 <= p.y <= Height - BoxSide
    ensures Fits(EmptyBoard(), p)
  {
    FitsIff(EmptyBoard(), p);
  }

  // ---------------------------------------------------------------------------
  // Moves

  /** A guarded move: the piece takes the new placement only when it fits there.
      A piece that fits keeps fitting. */
  function TryMove(board: seq<int>, from: Piece, to: Piece): (r: Piece)
    requires |board| == Cells
    ensures r == to || r == from
    ensures Fits(board, r) <==> Fits(board, to) || Fits(board, from)
    ensures Fits(board, from) && to != from ==> (r == to <==> Fits(board, to))
  {
    if Fits(board, to) then to else from
  }

  // ---------------------------------------------------------------------------
  // Hard drop and ghost shadow

  /** The row the piece comes to rest on when pushed down one row at a time while
      the row below fits. */
  function DropRow(board: seq<int>, p: Piece): (row: int)
    requires |board| == Cells
    ensures row >= p.y
    decreases Height - p.y
  {
    var below := p.(y := p.y + 1);
    if !Fits(board, below) then p.y
    else
      FitsAboveFloor(board, below);
      DropRow(board, below)
  }

  /** The drop ends on a row the piece cannot leave downwards, and a piece that fits
      where it starts fits where it comes to rest. */
  lemma {:induction false} DropRowLands(board: seq<int>, p: Piece)
    requires |board| == Cells
    ensures !Fits(board, p.(y := DropRow(board, p) + 1))
    ensures Fits(board, p) ==> Fits(board, p.(y := DropRow(board, p)))
    decreases Height - p.y
  {
    var below := p.(y := p.y + 1);
    if Fits(board, below) {
      FitsAboveFloor(board, below);
      DropRowLands(board, below);
      assert DropRow(board, p) == DropRow(board, below);
      assert below.(y := DropRow(board, below)) == p.(y := DropRow(board, p));
      assert below.(y := DropRow(board, below) + 1) == p.(y := DropRow(board, p) + 1);
    }
  }

  /** Hard drop: the piece moved straight down to the row it comes to rest on. It
      keeps its kind, rotation and column, never rises, still fits if it fitted, and
      cannot go one row lower. */
  function HardDrop(board: seq<int>, p: Piece): (q: Piece)
    requires |board| == Cells
    ensures q.kind == p.kind && q.rotation == p.rotation && q.x == p.x && q.y >= p.y
    ensures Fits(board, p) ==> Fits(board, q)
    ensures !Fits(board, q.(y := q.y + 1))
  {
    DropRowLands(board, p);
    p.(y := DropRow(board, p))
  }

  /** One step of the drop: when the row below fits, the piece comes to rest where the
      piece one row lower does, and that row is still above the floor. */
  lemma DropRowStep(board: seq<int>, p: Piece)
    requires |board| == Cells && Fits(board, p.(y := p.y + 1))
    ensures p.y + 1 < Height
    ensures DropRow(board, p) == DropRow(board, p.(y := p.y + 1))
  {
    var below := p.(y := p.y + 1);
    FitsAboveFloor(board, below);
    assert DropRow(board, p) == DropRow(board, below);
  }

  /** The end of the drop: when the row below does not fit, the piece stays. */
  lemma DropRowStop(board: seq<int>, p: Piece)
    requires |board| == Cells && !Fits(board, p.(y := p.y + 1))
    ensures DropRow(board, p) == p.y
  {
  }

  // ---------------------------------------------------------------------------
  // Locking

  /** The write made for local cell (px, py): kind + 1 at the cell's flat index,
      skipped when that index is outside the 200 cells. */
  function WriteCell(board: seq<int>, p: Piece, px: int, py: int): (r: seq<int>)
    requires |board| == Cells && 0 <= px < BoxSide && 0 <= py < BoxSide
    ensures |r| == Cells
  {
    var fi := Index(p.x + px, p.y + py);
    if Occupied(p, px, py) && 0 <= fi < Cells then board[fi := p.kind + 1] else board
  }

  /** Whether local cell (c, q) comes before (px, py) in the lock loop's order
      (columns outer, rows inner). */
  predicate Before(c: int, q: int, px: int, py: int) {
    c < px || (c == px && q < py)
  }

  /** The writes of the lock loop for every cell before (px, py). */
  function LockUpTo(board: seq<int>, p: Piece, px: int, py: int): (r: seq<int>)
    requires |board| == Cells && 0 <= px <= BoxSide && 0 <= py <= BoxSide && (px < BoxSide || py == 0)
    ensures |r| == Cells
    decreases p, px, py
  {
    if py == 0 then
      if px == 0 then board else LockUpTo(board, p, px - 1, BoxSide)
    else
      WriteCell(LockUpTo(board, p, px, py - 1), p, px, py - 1)
  }

  /** The board after the piece is locked in. */
  function Locked(board: seq<int>, p: Piece): (r: seq<int>)
    requires |board| == Cells
    ensures |r| == Cells
  {
    LockUpTo(board, p, BoxSide, 0)
  }

  /** Whether local cell (c, q) is occupied and has flat index i. */
  predicate CoversAt(p: Piece, c: int, q: int, i: int)
    requires 0 <= c < BoxSide && 0 <= q < BoxSide
  {
    Occupied(p, c, q) && Index(p.x + c, p.y + q) == i
  }

  /** Whether some occupied cell of the piece has flat index i. */
  ghost predicate Covers(p: Piece, i: int) {
    exists c, q | 0 <= c < BoxSide && 0 <= q < BoxSide :: CoversAt(p, c, q, i)
  }

  /** One write of the lock loop changes only the cell its local cell covers. */
  lemma WriteCellAt(board: seq<int>, p: Piece, px: int, py: int, i: int)
    requires |board| == Cells && 0 <= px < BoxSide && 0 <= py < BoxSide && 0 <= i < Cells
    ensures WriteCell(board, p, px, py)[i] == if CoversAt(p, px, py, i) then p.kind + 1 else board[i]
  {
  }

  /** Whether an occupied cell before (px, py) in the lock loop's order has flat index i. */
  ghost predicate CoveredBefore(p: Piece, px: int, py: int, i: int) {
    exists c, q | 0 <= c < BoxSide && 0 <= q < BoxSide && Before(c, q, px, py) :: CoversAt(p, c, q, i)
  }

  /** The cells before the top of column px are those before the end of column px - 1. */
  lemma CoveredBeforeColumn(p: Piece, px: int, i: int)
    ensures CoveredBefore(p, px, 0, i) == CoveredBefore(p, px - 1, BoxSide, i)
  {
    assert forall c, q | 0 <= c < BoxSide && 0 <= q < BoxSide ::
             Before(c, q, px, 0) == Before(c, q, px - 1, BoxSide);
  }

  /** The cells before (px, py) are those before (px, py - 1) and (px, py - 1) itself. */
  lemma CoveredBeforeCell(p: Piece, px: int, py: int, i: int)
    requires 0 <= px < BoxSide && 0 < py <= BoxSide
    ensures CoveredBefore(p, px, py, i) == (CoveredBefore(p, px, py - 1, i) || CoversAt(p, px, py - 1, i))
  {
    if CoveredBefore(p, px, py, i) && !CoversAt(p, px, py - 1, i) {
      var c, q :| 0 <= c < BoxSide && 0 <= q < BoxSide && Before(c, q, px, py) && CoversAt(p, c, q, i);
      assert Before(c, q, px, py - 1);
    }
    if CoveredBefore(p, px, py - 1, i) {
      var c, q :| 0 <= c < BoxSide && 0 <= q < BoxSide && Before(c, q, px, py - 1) && CoversAt(p, c, q, i);
      assert Before(c, q, px, py);
    }
    if CoversAt(p, px, py - 1, i) {
      assert Before(px, py - 1, px, py);
    }
  }

  lemma {:induction false} LockUpToAt(board: seq<int>, p: Piece, px: int, py: int, i: int)
    requires |board| == Cells && 0 <= px <= BoxSide && 0 <= py <= BoxSide && (px < BoxSide || py == 0)
    requires 0 <= i < Cells
    ensures LockUpTo(board, p, px, py)[i] == if CoveredBefore(p, px, py, i) then p.kind + 1 else board[i]
    decreases px, py
  {
    if py == 0 {
      if px > 0 {
        LockUpToAt(board, p, px - 1, BoxSide, i);
        CoveredBeforeColumn(p, px, i);
      } else {
        assert !CoveredBefore(p, 0, 0, i);
      }
    } else {
      LockUpToAt(board, p, px, py - 1, i);
      WriteCellAt(LockUpTo(board, p, px, py - 1), p, px, py - 1, i);
      CoveredBeforeCell(p, px, py, i);
    }
  }

  /** Locking writes kind + 1 into exactly the cells whose flat index some occupied
      cell of the piece has, and leaves every other cell as it was. */
  lemma LockedAt(board: seq<int>, p: Piece, i: int)
    requires |board| == Cells && 0 <= i < Cells
    ensures Locked(board, p)[i] == if Covers(p, i) then p.kind + 1 else board[i]
  {
    LockUpToAt(board, p, BoxSide, 0, i);
    assert CoveredBefore(p, BoxSide, 0, i) == Covers(p, i);
  }

  /** Whether field cell (cx, cy) shows an occupied cell of the piece. */
  predicate Shows(p: Piece, cx: int, cy: int) {
    0 <= cx - p.x < BoxSide && 0 <= cy - p.y < BoxSide && Occupied(p, cx - p.x, cy - p.y)
  }

  /** Locking a piece that fits paints exactly the field cells the piece shows,
      with no wrap-around into a neighbouring row. */
  lemma LockedFitting(board: seq<int>, p: Piece, cx: int, cy: int)
    requires |board| == Cells && Fits(board, p) && InBounds(cx, cy)
    ensures Locked(board, p)[Index(cx, cy)] == if Shows(p, cx, cy) then p.kind + 1 else board[Index(cx, cy)]
  {
    LockedAt(board, p, Index(cx, cy));
    CoversIffShows(board, p, cx, cy);
  }

  /** For a piece that fits, the flat indices its cells cover are exactly the field
      cells it shows. */
  lemma CoversIffShows(board: seq<int>, p: Piece, cx: int, cy: int)
    requires |board| == Cells && Fits(board, p) && InBounds(cx, cy)
    ensures Covers(p, Index(cx, cy)) <==> Shows(p, cx, cy)
  {
    if Covers(p, Index(cx, cy)) {
      FitsAdmits(board, p);
      CoversShows(p, cx, cy);
    }
    if Shows(p, cx, cy) {
      assert CoversAt(p, cx - p.x, cy - p.y, Index(cx, cy));
    }
  }

  /** Whether every occupied cell of the piece lies on the field. */
  ghost predicate OnField(p: Piece) {
    forall px, py | 0 <= px < BoxSide && 0 <= py < BoxSide && Occupied(p, px, py) :: InBounds(p.x + px, p.y + py)
  }

  /** A flat index covered by a piece on the field is a field cell the piece shows. */
  lemma CoversShows(p: Piece, cx: int, cy: int)
    requires OnField(p) && InBounds(cx, cy) && Covers(p, Index(cx, cy))
    ensures Shows(p, cx, cy)
  {
    var c, q :| 0 <= c < BoxSide && 0 <= q < BoxSide && CoversAt(p, c, q, Index(cx, cy));
    IndexInverse(cx, cy);
    IndexInverse(p.x + c, p.y + q);
    assert cx == p.x + c && cy == p.y + q;
  }

  /** Locking keeps every cell within 0..11. */
  lemma LockedInRange(board: seq<int>, p: Piece)
    requires |board| == Cells && CellsInRange(board)
    ensures CellsInRange(Locked(board, p))
  {
    forall i | 0 <= i < Cells ensures 0 <= Locked(board, p)[i] <= KindCount {
      LockedAt(board, p, i);
    }
  }

  // ---------------------------------------------------------------------------
  // Counting blocks

  /** Number of non-empty cells. */
  function BlockCount(s: seq<int>): (n: nat)
    ensures n <= |s|
  {
    if s == [] then 0 else (if s[0] != 0 then 1 else 0) + BlockCount(s[1..])
  }

  /** Emptying a non-empty cell removes exactly one block. */
  lemma {:induction false} BlockCountEmptyCell(s: seq<int>, i: int)
    requires 0 <= i < |s| && s[i] != 0
    ensures BlockCount(s[i := 0]) + 1 == BlockCount(s)
  {
    if i > 0 {
      assert s[i := 0][1..] == s[1..][i - 1 := 0];
      BlockCountEmptyCell(s[1..], i - 1);
    } else {
      assert s[i := 0][1..] == s[1..];
    }
  }

  // ---------------------------------------------------------------------------
  // Electrical piece

  /** The board with row `row` emptied: the flat indices row * 10 .. row * 10 + 9. */
  function ZeroRow(board: seq<int>, row: int): (r: seq<int>)
    ensures |r| == |board|
  {
    seq(|board|, i requires 0 <= i < |board| => if row * Width <= i < row * Width + Width then 0 else board[i])
  }

  /** Empties the row if it lies on the field, counting it. */
  function ZeroRowOnField(board: seq<int>, row: int): Cleared {
    if 0 <= row < Height then Cleared(ZeroRow(board, row), 1) else Cleared(board, 0)
  }

  /** The Electrical piece's effect: the landing row y and the row above it are
      emptied, each only when it lies on the field, and counted. */
  function Electrify(board: seq<int>, y: int): (c: Cleared)
    ensures |c.board| == |board|
    ensures c.count <= 2
    ensures c.count == 2 <==> 1 <= y < Height
    ensures c.count == 0 <==> y < 0 || Height < y
  {
    var first := ZeroRowOnField(board, y);
    var second := ZeroRowOnField(first.board, y - 1);
    Cleared(second.board, first.count + second.count)
  }

  /** Electrical empties rows y and y - 1 and leaves every other cell as it was. */
  lemma ElectrifyAt(board: seq<int>, y: int, cx: int, cy: int)
    requires |board| == Cells && InBounds(cx, cy)
    ensures Electrify(board, y).board[Index(cx, cy)] ==
              if cy == y || cy == y - 1 then 0 else board[Index(cx, cy)]
  {
  }

  // ---------------------------------------------------------------------------
  // Fire piece

  /** Whether field cell (cx, cy) lies in the 5x5 box centred on (x, y). */
  predicate InBlast(x: int, y: int, cx: int, cy: int) {
    x - 2 <= cx <= x + 2 && y - 2 <= cy <= y + 2
  }

  /** The step of the blast scan at offset (ex, ey) from (x, y): the cell there is
      emptied and counted when it is on the field and not empty. */
  function BurnCell(board: seq<int>, x: int, y: int, ex: int, ey: int): (c: Cleared)
    requires |board| == Cells
    ensures |c.board| == Cells
  {
    var nx, ny := x + ex, y + ey;
    if InBounds(nx, ny) && board[Index(nx, ny)] != 0 then Cleared(board[Index(nx, ny) := 0], 1)
    else Cleared(board, 0)
  }

  /** The steps of the blast scan before offset (ex, ey) (offsets -2..2, columns
      outer, rows inner), with the running count of emptied cells. */
  function BurnUpTo(board: seq<int>, x: int, y: int, ex: int, ey: int): (c: Cleared)
    requires |board| == Cells && -2 <= ex <= 3 && -2 <= ey <= 3 && (ex < 3 || ey == -2)
    ensures |c.board| == Cells
    decreases board, ex + 2, ey + 2
  {
    if ey == -2 then
      if ex == -2 then Cleared(board, 0) else BurnUpTo(board, x, y, ex - 1, 3)
    else
      var before := BurnUpTo(board, x, y, ex, ey - 1);
      var step := BurnCell(before.board, x, y, ex, ey - 1);
      Cleared(step.board, before.count + step.count)
  }

  /** The Fire piece's effect around the piece origin (x, y). */
  function Burn(board: seq<int>, x: int, y: int): (c: Cleared)
    requires |board| == Cells
    ensures |c.board| == Cells
  {
    BurnUpTo(board, x, y, 3, -2)
  }

  /** One step of the blast changes only the cell at (x + ex, y + ey). */
  lemma BurnCellAt(board: seq<int>, x: int, y: int, ex: int, ey: int, cx: int, cy: int)
    requires |board| == Cells && InBounds(cx, cy)
    ensures BurnCell(board, x, y, ex, ey).board[Index(cx, cy)] ==
              if cx == x + ex && cy == y + ey then 0 else board[Index(cx, cy)]
  {
    IndexInverse(cx, cy);
    if InBounds(x + ex, y + ey) {
      IndexInverse(x + ex, y + ey);
    }
  }

  lemma {:induction false} BurnUpToAt(board: seq<int>, x: int, y: int, ex: int, ey: int, cx: int, cy: int)
    requires |board| == Cells && -2 <= ex <= 3 && -2 <= ey <= 3 && (ex < 3 || ey == -2)
    requires InBounds(cx, cy)
    ensures BurnUpTo(board, x, y, ex, ey).board[Index(cx, cy)] ==
              if InBlast(x, y, cx, cy) && Before(cx - x, cy - y, ex, ey) then 0 else board[Index(cx, cy)]
    decreases ex + 2, ey + 2
  {
    if ey == -2 {
      if ex > -2 {
        BurnUpToAt(board, x, y, ex - 1, 3, cx, cy);
        assert BurnUpTo(board, x, y, ex, ey) == BurnUpTo(board, x, y, ex - 1, 3);
      }
    } else {
      BurnUpToAt(board, x, y, ex, ey - 1, cx, cy);
      var before := BurnUpTo(board, x, y, ex, ey - 1);
      BurnCellAt(before.board, x, y, ex, ey - 1, cx, cy);
      assert BurnUpTo(board, x, y, ex, ey).board == BurnCell(before.board, x, y, ex, ey - 1).board;
      assert (InBlast(x, y, cx, cy) && Before(cx - x, cy - y, ex, ey)) <==>
             (InBlast(x, y, cx, cy) && Before(cx - x, cy - y, ex, ey - 1)) || (cx == x + ex && cy == y + ey - 1);
    }
  }

  /** Fire empties every cell of the 5x5 box around (x, y) that lies on the field
      and leaves every other cell as it was. */
  lemma BurnAt(board: seq<int>, x: int, y: int, cx: int, cy: int)
    requires |board| == Cells && InBounds(cx, cy)
    ensures Burn(board, x, y).board[Index(cx, cy)] == if InBlast(x, y, cx, cy) then 0 else board[Index(cx, cy)]
  {
    BurnUpToAt(board, x, y, 3, -2, cx, cy);
  }

  /** One step of the blast removes one block exactly when it counts one. */
  lemma BurnCellCount(board: seq<int>, x: int, y: int, ex: int, ey: int)
    requires |board| == Cells
    ensures BlockCount(BurnCell(board, x, y, ex, ey).board) + BurnCell(board, x, y, ex, ey).count == BlockCount(board)
    ensures BurnCell(board, x, y, ex, ey).count <= 1
  {
    var nx, ny := x + ex, y + ey;
    if InBounds(nx, ny) && board[Index(nx, ny)] != 0 {
      BlockCountEmptyCell(board, Index(nx, ny));
    }
  }

  /** The blocks counted by the blast scan are exactly the blocks it removed. */
  lemma {:induction false} BurnUpToCount(board: seq<int>, x: int, y: int, ex: int, ey: int)
    requires |board| == Cells && -2 <= ex <= 3 && -2 <= ey <= 3 && (ex < 3 || ey == -2)
    ensures BlockCount(BurnUpTo(board, x, y, ex, ey).board) + BurnUpTo(board, x, y, ex, ey).count == BlockCount(board)
    decreases ex + 2, ey + 2
  {
    if ey == -2 {
      if ex > -2 {
        BurnUpToCount(board, x, y, ex - 1, 3);
        assert BurnUpTo(board, x, y, ex, ey) == BurnUpTo(board, x, y, ex - 1, 3);
      }
    } else {
      BurnUpToCount(board, x, y, ex, ey - 1);
      var before := BurnUpTo(board, x, y, ex, ey - 1);
      var step := BurnCell(before.board, x, y, ex, ey - 1);
      BurnCellCount(before.board, x, y, ex, ey - 1);
      assert BurnUpTo(board, x, y, ex, ey) == Cleared(step.board, before.count + step.count);
    }
  }

  /** The blast scan counts at most one block per offset visited. */
  lemma {:induction false} BurnUpToBound(board: seq<int>, x: int, y: int, ex: int, ey: int)
    requires |board| == Cells && -2 <= ex <= 3 && -2 <= ey <= 3 && (ex < 3 || ey == -2)
    ensures BurnUpTo(board, x, y, ex, ey).count <= 5 * (ex + 2) + (ey + 2)
    decreases ex + 2, ey + 2
  {
    if ey == -2 {
      if ex > -2 {
        BurnUpToBound(board, x, y, ex - 1, 3);
      }
    } else {
      BurnUpToBound(board, x, y, ex, ey - 1);
      var before := BurnUpTo(board, x, y, ex, ey - 1);
      BurnCellCount(before.board, x, y, ex, ey - 1);
    }
  }

  /** Fire scores 10 per block it removes: its count is the drop in the number of
      blocks on the board, at most the 25 cells of the box. */
  lemma BurnCount(board: seq<int>, x: int, y: int)
    requires |board| == Cells
    ensures Burn(board, x, y).count <= 25
    ensures BlockCount(Burn(board, x, y).board) + Burn(board, x, y).count == BlockCount(board)
  {
    BurnUpToCount(board, x, y, 3, -2);
    BurnUpToBound(board, x, y, 3, -2);
  }

  // ---------------------------------------------------------------------------
  // Line clear

  /** Whether all ten cells of row y are non-empty. */
  predicate RowFull(board: seq<int>, y: int)
    requires |board| == Cells && 0 <= y < Height
  {
    forall cx | 0 <= cx < Width :: board[Index(cx, y)] != 0
  }

  /** The board after full row y is removed: rows below y (flat indices from
      (y + 1) * 10 on) stay, each row 1..y takes the old contents of the row above it,
      and row 0 (indices 0..9) is emptied. */
  function ClearRow(board: seq<int>, y: int): (r: seq<int>)
    requires |board| == Cells && 0 <= y < Height
    ensures |r| == Cells
  {
    seq(Cells, i requires 0 <= i < Cells =>
      if (y + 1) * Width <= i then board[i]
      else if i < Width then 0
      else board[i - Width])
  }

  /** ClearRow in terms of rows and columns. */
  lemma ClearRowAt(board: seq<int>, y: int, cx: int, cy: int)
    requires |board| == Cells && 0 <= y < Height && InBounds(cx, cy)
    ensures ClearRow(board, y)[Index(cx, cy)] ==
              if cy > y then board[Index(cx, cy)]
              else if cy == 0 then 0
              else board[Index(cx, cy - 1)]
  {
  }

  /** The first n steps of the line scan over rows top..top+3: each row on the field
      that is full on the board as left by the earlier steps is removed and counted. */
  function ScanRows(board: seq<int>, top: int, n: nat): (c: Cleared)
    requires |board| == Cells && n <= BoxSide
    ensures |c.board| == Cells
  {
    if n == 0 then Cleared(board, 0)
    else
      var before := ScanRows(board, top, n - 1);
      var y := top + n - 1;
      if 0 <= y < Height && RowFull(before.board, y) then Cleared(ClearRow(before.board, y), before.count + 1)
      else before
  }

  /** Number of rows among top..top+n-1 that lie on the field and are full. */
  function FullRowsAmong(board: seq<int>, top: int, n: nat): nat
    requires |board| == Cells
  {
    if n == 0 then 0
    else FullRowsAmong(board, top, n - 1) + (if 0 <= top + n - 1 < Height && RowFull(board, top + n - 1) then 1 else 0)
  }

  /** The scan only changes rows above the last row it has looked at. */
  lemma {:induction false} ScanRowsKeepsLowerRows(board: seq<int>, top: int, n: nat, i: int)
    requires |board| == Cells && n <= BoxSide && 0 <= i < Cells && i / Width >= top + n
    ensures ScanRows(board, top, n).board[i] == board[i]
  {
    if n > 0 {
      ScanRowsKeepsLowerRows(board, top, n - 1, i);
    }
  }

  /** The sequential scan clears exactly the rows that were full when it began: a
      removal shifts only rows above it, so the rows still to be scanned are intact. */
  lemma {:induction false} ScanRowsCount(board: seq<int>, top: int, n: nat)
    requires |board| == Cells && n <= BoxSide
    ensures ScanRows(board, top, n).count == FullRowsAmong(board, top, n)
  {
    if n > 0 {
      ScanRowsCount(board, top, n - 1);
      var y := top + n - 1;
      if 0 <= y < Height {
        var before := ScanRows(board, top, n - 1).board;
        forall cx | 0 <= cx < Width ensures before[Index(cx, y)] == board[Index(cx, y)] {
          ScanRowsKeepsLowerRows(board, top, n - 1, Index(cx, y));
        }
        assert RowFull(before, y) == RowFull(board, y);
      }
    }
  }

  lemma {:induction false} ScanRowsInRange(board: seq<int>, top: int, n: nat)
    requires |board| == Cells && n <= BoxSide && CellsInRange(board)
    ensures CellsInRange(ScanRows(board, top, n).board)
  {
    if n > 0 {
      ScanRowsInRange(board, top, n - 1);
    }
  }

  // ---------------------------------------------------------------------------
  // Landing: lock, special effect, line scan

  /** What a landing does to the board and the counters. */
  datatype Landing = Landing(board: seq<int>, points: nat, lines: nat, effects: nat)

  /** The special effect of the landed piece, applied to the board with the piece
      locked in: Electrical empties two rows (100 points and 10 sparks each), Fire
      empties its 5x5 box (10 points and 1 spark per block); other kinds do nothing. */
  function SpecialEffect(board: seq<int>, p: Piece): (l: Landing)
    requires |board| == Cells
  {
    if p.kind == Electrical then
      var e := Electrify(board, p.y);
      Landing(e.board, 100 * e.count, 0, Width * e.count)
    else if p.kind == Fire then
      var f := Burn(board, p.x, p.y);
      Landing(f.board, 10 * f.count, 0, f.count)
    else
      Landing(board, 0, 0, 0)
  }

  /** The whole landing of piece p: lock, special effect, then the scan of the four
      rows of the piece's box at 100 points and 10 sparks per cleared row. */
  function Land(board: seq<int>, p: Piece): (l: Landing)
    requires |board| == Cells
  {
    var special := SpecialEffect(Locked(board, p), p);
    var scan := ScanRows(special.board, p.y, BoxSide);
    Landing(scan.board, special.points + 100 * scan.count, scan.count, special.effects + Width * scan.count)
  }

  /** A special effect only empties cells, so it keeps the board's size and its
      cells within 0..11. */
  lemma SpecialEffectInRange(board: seq<int>, p: Piece)
    requires |board| == Cells && CellsInRange(board)
    ensures |SpecialEffect(board, p).board| == Cells && CellsInRange(SpecialEffect(board, p).board)
  {
    var special := SpecialEffect(board, p);
    if p.kind == Fire {
      forall i | 0 <= i < Cells ensures 0 <= special.board[i] <= KindCount {
        IndexOnto(i);
        BurnAt(board, p.x, p.y, i % Width, i / Width);
      }
    }
  }

  /** A landing keeps the board's size and its cells within 0..11, and clears at
      most four lines. */
  lemma LandInRange(board: seq<int>, p: Piece)
    requires |board| == Cells && CellsInRange(board)
    ensures |Land(board, p).board| == Cells && CellsInRange(Land(board, p).board)
    ensures Land(board, p).lines == FullRowsAmong(SpecialEffect(Locked(board, p), p).board, p.y, BoxSide)
    ensures Land(board, p).lines <= BoxSide
  {
    var locked := Locked(board, p);
    LockedInRange(board, p);
    var special := SpecialEffect(locked, p);
    SpecialEffectInRange(locked, p);
    ScanRowsInRange(special.board, p.y, BoxSide);
    ScanRowsCount(special.board, p.y, BoxSide);
    FullRowsBound(special.board, p.y, BoxSide);
  }

  lemma {:induction false} FullRowsBound(board: seq<int>, top: int, n: nat)
    requires |board| == Cells
    ensures FullRowsAmong(board, top, n) <= n
  {
    if n > 0 {
      FullRowsBound(board, top, n - 1);
    }
  }

  // ---------------------------------------------------------------------------
  // Spawning

  /** Kind of the next piece: every third spawn draws one of the four special kinds
      7 + roll % 4, the others a tetromino roll % 7. */
  function SpawnKind(counter: nat, roll: nat): (k: Kind)
    ensures (Frozen <= k <= Ghost) <==> counter % 3 == 0
  {
    if counter % 3 == 0 then 7 + roll % 4 else roll % 7
  }

  /** A new piece: rotation 0, box at column Width / 2 - 2 = 3, row 0. */
  function SpawnPiece(k: Kind): (p: Piece)
    ensures p.kind == k && p.rotation == 0 && p.x == 3 && p.y == 0
  {
    Piece(k, 0, Width / 2 - 2, 0)
  }
}
