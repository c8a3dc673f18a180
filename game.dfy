/** The game state machine: the playfield array, the falling piece, the counters and
    the menu / playing / game-over state, updated in place as the frame loop does. */
module Tetris {
  import opened Shapes
  import opened Playfield

  datatype GameState = Menu | Playing | GameOver

  class Game {
    /** The 10x20 playfield, row-major, 0 for empty and kind + 1 for a block. */
    const field: array<int>
    var state: GameState
    var piece: Piece
    var score: nat
    var linesCleared: nat
    var level: int
    /** Pieces locked since the last reset; every third spawn is special. */
    var pieceCounter: nat
    var isFrozen: bool
    var isPaused: bool
    /** Row the Ghost piece's shadow is drawn at. */
    var ghostShadowY: int
    /** Whether the rotate and hard-drop keys were held on the previous frame. */
    var rotatePrev: bool
    var spacePrev: bool
    /** Number of particle effects emitted since the last reset. */
    var effects: nat

    /** The object invariant: a 200-cell field whose cells are 0..11, the level
        derived from the lines, and a falling piece that fits while playing. */
    ghost predicate Valid()
      reads this, field
    {
      field.Length == Cells && CellsInRange(field[..]) &&
      level == linesCleared / 10 + 1 &&
      (state == Playing ==> Fits(field[..], piece))
    }

    /** Whether input and gravity are processed this frame. */
    predicate Active()
      reads this
    {
      state == Playing && !isFrozen && !isPaused
    }

    /** The state right after a reset with random draw `roll`. */
    ghost predicate NewGame(roll: nat)
      reads this, field
    {
      state == Playing && field[..] == EmptyBoard() && piece == SpawnPiece(roll % 7) &&
      score == 0 && linesCleared == 0 && level == 1 && pieceCounter == 0 &&
      !isFrozen && !isPaused && effects == 0
    }

    /** A new program: the menu, over an empty field. */
    constructor ()
      ensures Valid() && fresh(field)
      ensures state == Menu && field[..] == EmptyBoard()
      ensures score == 0 && linesCleared == 0 && level == 1 && pieceCounter == 0
      ensures !isFrozen && !isPaused && effects == 0
      ensures !rotatePrev && !spacePrev && ghostShadowY == 0
    {
      field := new int[Cells](_ => 0);
      state := Menu;
      piece := Piece(0, 0, 0, 0);
      score, linesCleared, level, pieceCounter := 0, 0, 1, 0;
      isFrozen, isPaused := false, false;
      ghostShadowY := 0;
      rotatePrev, spacePrev := false, false;
      effects := 0;
      new;
      assert field[..] == EmptyBoard();
    }

    /** Starts a new game: empty field, counters reset, a tetromino roll % 7 at the
        spawn position, playing. The new piece always fits. */
    method Reset(roll: nat)
      requires Valid()
      modifies this, field
      ensures Valid() && NewGame(roll)
      ensures ghostShadowY == old(ghostShadowY) && rotatePrev == old(rotatePrev) && spacePrev == old(spacePrev)
    {
      var i := 0;
      while i < field.Length
        modifies field
        invariant 0 <= i <= field.Length
        invariant forall j | 0 <= j < i :: field[j] == 0
      {
        field[i] := 0;
        i := i + 1;
      }
      assert field[..] == EmptyBoard();
      piece := Piece(roll % 7, 0, Width / 2 - 2, 0);
      score, linesCleared, level := 0, 0, 1;
      pieceCounter := 0;
      isFrozen, isPaused := false, false;
      effects := 0;
      state := Playing;
      EmptyBoardFits(piece);
    }

    /** The start / restart button: it resets the game from the menu or the
        game-over screen, and does nothing while playing. */
    method PressStart(roll: nat)
      requires Valid()
      modifies this, field
      ensures Valid()
      ensures old(state) == Playing ==> unchanged(this) && unchanged(field)
      ensures old(state) != Playing ==> NewGame(roll)
      ensures ghostShadowY == old(ghostShadowY) && rotatePrev == old(rotatePrev) && spacePrev == old(spacePrev)
    {
      if state == Menu || state == GameOver {
        Reset(roll);
      }
    }

    /** The pause button, which only acts while playing. */
    method PressPause()
      requires Valid()
      modifies this`isPaused
      ensures Valid()
      ensures isPaused == if old(state) == Playing then !old(isPaused) else old(isPaused)
    {
      if state == Playing {
        isPaused := !isPaused;
      }
    }

    /** The freeze countdown reaching zero: the game thaws if it is playing. */
    method FreezeExpired()
      requires Valid()
      modifies this`isFrozen
      ensures Valid()
      ensures isFrozen == (old(isFrozen) && old(state) != Playing)
    {
      if state == Playing && isFrozen {
        isFrozen := false;
      }
    }

    /** A frame in which the move-repeat delay has elapsed: left wins over right,
        and the piece moves one column only if it fits there. */
    method MoveSideways(leftHeld: bool, rightHeld: bool)
      requires Valid()
      modifies this`piece
      ensures Valid()
      ensures piece ==
                if !old(Active()) then old(piece)
                else if leftHeld then TryMove(field[..], old(piece), old(piece).(x := old(piece).x - 1))
                else if rightHeld then TryMove(field[..], old(piece), old(piece).(x := old(piece).x + 1))
                else old(piece)
    {
      if Active() {
        if leftHeld {
          if Fits(field[..], piece.(x := piece.x - 1)) {
            piece := piece.(x := piece.x - 1);
          }
        } else if rightHeld {
          if Fits(field[..], piece.(x := piece.x + 1)) {
            piece := piece.(x := piece.x + 1);
          }
        }
      }
    }

    /** The rotate key: on a press (held now, not on the previous frame) the piece
        turns a quarter if it fits turned. */
    method RotateKey(upHeld: bool)
      requires Valid()
      modifies this`piece, this`rotatePrev
      ensures Valid()
      ensures !old(Active()) ==> piece == old(piece) && rotatePrev == old(rotatePrev)
      ensures old(Active()) ==> rotatePrev == upHeld
      ensures old(Active()) ==>
                piece == if upHeld && !old(rotatePrev)
                         then TryMove(field[..], old(piece), old(piece).(rotation := old(piece).rotation + 1))
                         else old(piece)
    {
      if Active() {
        if upHeld && !rotatePrev {
          if Fits(field[..], piece.(rotation := piece.rotation + 1)) {
            piece := piece.(rotation := piece.rotation + 1);
          }
        }
        rotatePrev := upHeld;
      }
    }

    /** A frame with the down key held: the piece drops a row if it fits there. */
    method SoftDrop()
      requires Valid()
      modifies this`piece
      ensures Valid()
      ensures piece == if old(Active()) then TryMove(field[..], old(piece), old(piece).(y := old(piece).y + 1)) else old(piece)
    {
      if Active() {
        if Fits(field[..], piece.(y := piece.y + 1)) {
          piece := piece.(y := piece.y + 1);
        }
      }
    }

    /** The row a piece comes to rest on when pushed down one row at a time while the
        row below fits, read from the field. */
    method RestingRow(p: Piece) returns (row: int)
      requires field.Length == Cells
      ensures row == DropRow(field[..], p)
    {
      var board := field[..];
      var q := p;
      while Fits(board, q.(y := q.y + 1))
        invariant DropRow(board, q) == DropRow(board, p)
        decreases Height - q.y
      {
        DropRowStep(board, q);
        q := q.(y := q.y + 1);
      }
      DropRowStop(board, q);
      row := q.y;
    }

    /** The hard-drop key: on a press the piece falls to the lowest row it reaches
        one row at a time; it fits there and not one row lower. */
    method HardDropKey(spaceHeld: bool)
      requires Valid()
      modifies this`piece, this`spacePrev
      ensures Valid()
      ensures !old(Active()) ==> piece == old(piece) && spacePrev == old(spacePrev)
      ensures old(Active()) ==> spacePrev == spaceHeld
      ensures old(Active()) ==>
                piece == if spaceHeld && !old(spacePrev) then HardDrop(field[..], old(piece)) else old(piece)
    {
      if Active() {
        if spaceHeld && !spacePrev {
          var row := RestingRow(piece);
          piece := piece.(y := row);
          assert piece == HardDrop(field[..], old(piece));
        }
        spacePrev := spaceHeld;
      }
    }

    /** The shadow of a Ghost piece: the row it would come to rest on. */
    method UpdateGhostShadow()
      requires Valid()
      modifies this`ghostShadowY
      ensures Valid()
      ensures old(state) == Playing && piece.kind == Ghost ==>
                ghostShadowY == HardDrop(field[..], piece).y
      ensures !(old(state) == Playing && piece.kind == Ghost) ==> ghostShadowY == old(ghostShadowY)
    {
      if state == Playing && piece.kind == Ghost {
        ghostShadowY := RestingRow(piece);
      }
    }

    /** A gravity step: the piece falls a row if it fits there, and lands otherwise. */
    method GravityTick(roll: nat)
      requires Valid()
      modifies field, this`isFrozen, this`score, this`linesCleared, this`level, this`effects
      modifies this`pieceCounter, this`piece, this`state
      ensures Valid()
      ensures !old(Active()) ==> unchanged(this) && unchanged(field)
      ensures old(Active()) && old(Fits(field[..], piece.(y := piece.y + 1))) ==>
                piece == old(piece).(y := old(piece).y + 1) && field[..] == old(field[..]) &&
                state == Playing && score == old(score) && linesCleared == old(linesCleared) &&
                level == old(level) && pieceCounter == old(pieceCounter) && !isFrozen &&
                effects == old(effects)
      ensures old(Active()) && !old(Fits(field[..], piece.(y := piece.y + 1))) ==>
                Landed(old(field[..]), old(piece), old(score), old(linesCleared), old(effects), old(pieceCounter), roll)
    {
      if !Active() {
        return;
      }
      if Fits(field[..], piece.(y := piece.y + 1)) {
        piece := piece.(y := piece.y + 1);
      } else {
        LandPiece(roll);
      }
    }

    /** The state after piece p landed on `board` and the next piece spawned: the
        landing's board and counters, the freeze for a Frozen piece, the new piece
        at (3, 0) with rotation 0, and game over exactly when it does not fit. */
    ghost predicate Landed(board: seq<int>, p: Piece, score0: nat, lines0: nat, effects0: nat, counter0: nat, roll: nat)
      requires |board| == Cells
      reads this, field
    {
      var landing := Land(board, p);
      field[..] == landing.board &&
      score == score0 + landing.points &&
      linesCleared == lines0 + landing.lines &&
      effects == effects0 + landing.effects &&
      isFrozen == (p.kind == Frozen) &&
      pieceCounter == counter0 + 1 &&
      piece == SpawnPiece(SpawnKind(pieceCounter, roll)) &&
      field.Length == Cells &&
      (state == Playing <==> Fits(field[..], piece)) &&
      (state != Playing ==> state == GameOver)
    }

    /** The landing of the falling piece: lock, special effect, line scan, then the
        spawn of the next piece. */
    method LandPiece(roll: nat)
      requires Valid() && Active()
      modifies field, this`isFrozen, this`score, this`linesCleared, this`level, this`effects
      modifies this`pieceCounter, this`piece, this`state
      ensures Valid()
      ensures Landed(old(field[..]), old(piece), old(score), old(linesCleared), old(effects), old(pieceCounter), roll)
    {
      Settle();
      SpawnNext(roll);
    }

    /** The landing proper: the piece is locked, its special effect applied and the
        rows it spans scanned, as Land describes; a Frozen piece freezes the game. */
    method Settle()
      requires field.Length == Cells && CellsInRange(field[..]) && level == linesCleared / 10 + 1
      modifies field, this`isFrozen, this`score, this`linesCleared, this`level, this`effects
      ensures var landing := Land(old(field[..]), piece);
                field[..] == landing.board &&
                score == old(score) + landing.points &&
                linesCleared == old(linesCleared) + landing.lines &&
                effects == old(effects) + landing.effects
      ensures CellsInRange(field[..]) && level == linesCleared / 10 + 1
      ensures isFrozen == (old(isFrozen) || piece.kind == Frozen)
    {
      ghost var board := field[..];
      LandInRange(board, piece);
      LockPiece();
      ApplySpecial();
      ClearLines();
    }

    /** The spawn after a landing: the piece counter advances, every third piece is
        one of the four special kinds, and the game is over when the new piece does
        not fit at (3, 0). */
    method SpawnNext(roll: nat)
      requires field.Length == Cells && state == Playing
      modifies this`pieceCounter, this`piece, this`state
      ensures pieceCounter == old(pieceCounter) + 1
      ensures piece == SpawnPiece(SpawnKind(pieceCounter, roll))
      ensures state == if Fits(field[..], piece) then Playing else GameOver
    {
      pieceCounter := pieceCounter + 1;
      var kind := if pieceCounter % 3 == 0 then 7 + roll % 4 else roll % 7;
      piece := Piece(kind, 0, Width / 2 - 2, 0);
      if !Fits(field[..], piece) {
        state := GameOver;
      }
    }

    /** Locks the falling piece: kind + 1 is written at the flat index of every
        occupied cell, skipping indices outside the 200 cells. */
    method LockPiece()
      requires field.Length == Cells
      modifies field
      ensures field[..] == Locked(old(field[..]), piece)
    {
      var p := piece;
      ghost var board0 := field[..];
      var px := 0;
      while px < BoxSide
        invariant 0 <= px <= BoxSide
        invariant field[..] == LockUpTo(board0, p, px, 0)
      {
        LockColumn(p, px, board0);
        px := px + 1;
      }
    }

    /** Column px of the lock loop: rows 0..3, in order. Given the writes so far, it
        completes the writes up to the next column. */
    method LockColumn(p: Piece, px: int, ghost board0: seq<int>)
      requires field.Length == Cells && |board0| == Cells && 0 <= px < BoxSide
      requires field[..] == LockUpTo(board0, p, px, 0)
      modifies field
      ensures field[..] == LockUpTo(board0, p, px + 1, 0)
    {
      var py := 0;
      while py < BoxSide
        invariant 0 <= py <= BoxSide
        invariant field[..] == LockUpTo(board0, p, px, py)
      {
        LockCell(p, px, py);
        py := py + 1;
      }
    }

    /** One cell of the lock loop: an occupied local cell writes kind + 1 at its flat
        index when that index is one of the 200 cells. */
    method LockCell(p: Piece, px: int, py: int)
      requires field.Length == Cells && 0 <= px < BoxSide && 0 <= py < BoxSide
      modifies field
      ensures field[..] == WriteCell(old(field[..]), p, px, py)
    {
      var pi := Rotate(px, py, p.rotation);
      if Mask(p.kind)[pi] == 'X' {
        var fi := (p.y + py) * Width + (p.x + px);
        if 0 <= fi < field.Length {
          field[fi] := p.kind + 1;
        }
      }
    }

    /** The landed piece's special effect: Frozen freezes the game, Electrical
        empties its landing row and the row above, Fire empties its 5x5 box. */
    method ApplySpecial()
      requires field.Length == Cells
      modifies field, this`isFrozen, this`score, this`effects
      ensures var special := SpecialEffect(old(field[..]), piece);
                field[..] == special.board &&
                score == old(score) + special.points &&
                effects == old(effects) + special.effects
      ensures isFrozen == (old(isFrozen) || piece.kind == Frozen)
    {
      if piece.kind == Frozen {
        isFrozen := true;
      } else if piece.kind == Electrical {
        var row1 := piece.y;
        var row2 := piece.y - 1;
        if 0 <= row1 < Height {
          EmptyRow(row1);
          score := score + 100;
          effects := effects + Width;
        }
        if 0 <= row2 < Height {
          EmptyRow(row2);
          score := score + 100;
          effects := effects + Width;
        }
      } else if piece.kind == Fire {
        Explode(piece.x, piece.y);
      }
    }

    /** Empties one row of the field. */
    method EmptyRow(row: int)
      requires field.Length == Cells && 0 <= row < Height
      modifies field
      ensures field[..] == ZeroRow(old(field[..]), row)
    {
      var x := 0;
      while x < Width
        invariant 0 <= x <= Width
        invariant forall i | 0 <= i < Cells :: field[i] == if row * Width <= i < row * Width + x then 0 else old(field[i])
      {
        field[row * Width + x] := 0;
        x := x + 1;
      }
    }

    /** The Fire explosion around (x, y), the origin of the landed piece's box: every
        non-empty cell of the 5x5 box around it that lies on the field is emptied,
        at 10 points and one effect each. */
    method Explode(x: int, y: int)
      requires field.Length == Cells
      modifies field, this`score, this`effects
      ensures var fire := Burn(old(field[..]), x, y);
                field[..] == fire.board &&
                score == old(score) + 10 * fire.count &&
                effects == old(effects) + fire.count
    {
      ghost var board0 := field[..];
      var blocksCleared: nat := 0;
      var ex := -2;
      while ex <= 2
        invariant -2 <= ex <= 3
        invariant BurnUpTo(board0, x, y, ex, -2) == Cleared(field[..], blocksCleared)
        invariant effects == old(effects) + blocksCleared && score == old(score)
      {
        var hits := BurnColumn(x, y, ex, board0, blocksCleared);
        blocksCleared := blocksCleared + hits;
        ex := ex + 1;
      }
      score := score + blocksCleared * 10;
    }

    /** Column ex of the explosion: the cells at offsets ey = -2..2, in order. Given
        the scan so far, it completes the scan up to the next column. */
    method BurnColumn(x: int, y: int, ex: int, ghost board0: seq<int>, ghost before: nat) returns (hits: nat)
      requires field.Length == Cells && |board0| == Cells && -2 <= ex <= 2
      requires BurnUpTo(board0, x, y, ex, -2) == Cleared(field[..], before)
      modifies field, this`effects
      ensures BurnUpTo(board0, x, y, ex + 1, -2) == Cleared(field[..], before + hits)
      ensures effects == old(effects) + hits
    {
      hits := 0;
      var ey := -2;
      while ey <= 2
        invariant -2 <= ey <= 3
        invariant BurnUpTo(board0, x, y, ex, ey) == Cleared(field[..], before + hits)
        invariant effects == old(effects) + hits
      {
        var hit := BurnCellInPlace(x, y, ex, ey);
        hits := hits + hit;
        ey := ey + 1;
      }
    }

    /** One cell of the explosion: cell (x + ex, y + ey), when on the field and not
        empty, is emptied and counted as one effect. */
    method BurnCellInPlace(x: int, y: int, ex: int, ey: int) returns (hit: nat)
      requires field.Length == Cells
      modifies field, this`effects
      ensures BurnCell(old(field[..]), x, y, ex, ey) == Cleared(field[..], hit)
      ensures effects == old(effects) + hit
    {
      var nx := x + ex;
      var ny := y + ey;
      hit := 0;
      if 0 <= nx < Width && 0 <= ny < Height && field[ny * Width + nx] != 0 {
        field[ny * Width + nx] := 0;
        hit := 1;
        effects := effects + 1;
      }
    }

    /** Whether row y is full, scanning left to right and stopping at the first
        empty cell. */
    method LineFull(y: int) returns (line: bool)
      requires field.Length == Cells && 0 <= y < Height
      ensures line == RowFull(field[..], y)
    {
      line := true;
      var x := 0;
      while x < Width
        invariant 0 <= x <= Width
        invariant forall c | 0 <= c < x :: field[Index(c, y)] != 0
      {
        if field[y * Width + x] == 0 {
          assert field[..][Index(x, y)] == 0;
          line := false;
          break;
        }
        x := x + 1;
      }
    }

    /** Removes full row y in place: from row y up to row 1 each row takes the row
        above it, then row 0 is emptied. */
    method ShiftRowsDown(y: int)
      requires field.Length == Cells && 0 <= y < Height
      modifies field
      ensures field[..] == ClearRow(old(field[..]), y)
    {
      ghost var board0 := field[..];
      var ty := y;
      while ty > 0
        invariant 0 <= ty <= y
        invariant forall i | 0 <= i < Cells ::
                    field[i] == if (ty + 1) * Width <= i < (y + 1) * Width then board0[i - Width] else board0[i]
      {
        ghost var prev := field[..];
        assert forall k {:trigger prev[k]} | 0 <= k < Cells ::
                 prev[k] == if (ty + 1) * Width <= k < (y + 1) * Width then board0[k - Width] else board0[k];
        CopyRowDown(ty);
        forall i | 0 <= i < Cells
          ensures field[i] == if ty * Width <= i < (y + 1) * Width then board0[i - Width] else board0[i]
        {
          if ty * Width <= i < (ty + 1) * Width {
            assert field[i] == prev[i - Width];
          }
        }
        ty := ty - 1;
      }
      ghost var shifted := field[..];
      assert forall k {:trigger shifted[k]} | 0 <= k < Cells ::
               shifted[k] == if Width <= k < (y + 1) * Width then board0[k - Width] else board0[k];
      EmptyRow(0);
      forall i | 0 <= i < Cells ensures field[i] == ClearRow(board0, y)[i] {
        assert field[i] == if i < Width then 0 else shifted[i];
      }
    }

    /** Row ty takes the contents of row ty - 1; every other row stays. */
    method CopyRowDown(ty: int)
      requires field.Length == Cells && 0 < ty < Height
      modifies field
      ensures forall i | 0 <= i < Cells ::
                field[i] == if ty * Width <= i < (ty + 1) * Width then old(field[i - Width]) else old(field[i])
    {
      var x := 0;
      while x < Width
        invariant 0 <= x <= Width
        invariant forall i | 0 <= i < Cells ::
                    field[i] == if ty * Width <= i < ty * Width + x then old(field[i - Width]) else old(field[i])
      {
        field[ty * Width + x] := field[(ty - 1) * Width + x];
        x := x + 1;
      }
    }

    /** The line scan after a landing: rows piece.y .. piece.y + 3, in order, each
        removed when it is on the field and full, at 100 points, one line and ten
        effects per row; the level follows the line count. */
    method ClearLines()
      requires field.Length == Cells && level == linesCleared / 10 + 1
      modifies field, this`score, this`linesCleared, this`level, this`effects
      ensures var scan := ScanRows(old(field[..]), piece.y, BoxSide);
                field[..] == scan.board &&
                linesCleared == old(linesCleared) + scan.count &&
                score == old(score) + 100 * scan.count &&
                effects == old(effects) + Width * scan.count
      ensures level == linesCleared / 10 + 1
    {
      var py := 0;
      while py < BoxSide
        invariant 0 <= py <= BoxSide
        invariant var scan := ScanRows(old(field[..]), piece.y, py);
                    field[..] == scan.board &&
                    linesCleared == old(linesCleared) + scan.count &&
                    score == old(score) + 100 * scan.count &&
                    effects == old(effects) + Width * scan.count
        invariant level == linesCleared / 10 + 1
      {
        var y := piece.y + py;
        if 0 <= y < Height {
          var line := LineFull(y);
          if line {
            ShiftRowsDown(y);
            score := score + 100;
            linesCleared := linesCleared + 1;
            level := linesCleared / 10 + 1;
            effects := effects + Width;
          }
        }
        py := py + 1;
      }
    }
  }
}
