/**
 * The `Tetris` object of www/tetris.js: one player's arena, falling piece
 * and score, and what the board sends on its socket. Drawing, the animation
 * loop and the DOM are not modelled; each `socket.emit` appends to `sent`.
 */
module TetrisBoard {
  import opened Common
  import opened TetrisMatrix

  /** A message the board emits on its socket. */
  datatype Outgoing =
    | MoveSent(gameId: int, playerNumber: int, arena: Matrix, pos: Pos, piece: Matrix)
    | ScoreSent(gameId: int, playerNumber: int, score: int)
    | GameOverSent(gameId: int, playerId: Option<int>)

  /** The opponent's falling piece, drawn over this board. */
  datatype GhostPiece = GhostPiece(pos: Pos, matrix: Matrix)

  /** Whether the piece of `kind` collides where `playerReset` spawns it. */
  ghost predicate SpawnBlocked(arena: Matrix, kind: PieceKind) {
    Collides(arena, CreatePiece(kind), SpawnPos(Width, CreatePiece(kind)))
  }

  /** Where `playerRotate` has moved the piece after `k` kicks from `start`. */
  function KickPos(start: Pos, k: nat): Pos {
    Pos(start.x + Kick(k), start.y)
  }

  /** The first `k` positions `playerRotate` kicks the piece to, from `start`, all collide. */
  ghost predicate KicksBlocked(arena: Matrix, piece: Matrix, start: Pos, k: int) {
    forall j: nat :: j < k ==> Collides(arena, piece, KickPos(start, j))
  }

  /** Kick `k` is the first position, among those `playerRotate` tests, where the piece fits. */
  ghost predicate FirstFit(arena: Matrix, piece: Matrix, start: Pos, k: nat) {
    k < Tries(|piece|) && !Collides(arena, piece, KickPos(start, k)) && KicksBlocked(arena, piece, start, k)
  }

  /** The outcomes of the kick search exclude each other, and the first fit is unique. */
  lemma KickOutcomes(arena: Matrix, piece: Matrix, start: Pos, k: nat, k': nat)
    requires FirstFit(arena, piece, start, k)
    ensures !KicksBlocked(arena, piece, start, Tries(|piece|))
    ensures FirstFit(arena, piece, start, k') ==> k == k'
  {
    if FirstFit(arena, piece, start, k') {
      assert k < k' ==> Collides(arena, piece, KickPos(start, k));
      assert k' < k ==> Collides(arena, piece, KickPos(start, k'));
    }
  }

  /** The arena, score, piece and position of a board. */
  datatype Landing = Landing(arena: Matrix, score: int, matrix: Matrix, pos: Pos)

  /**
   * The board after a piece lands at `pos0`: the piece merged, a new piece
   * spawned (on an emptied arena with the score zeroed if the spawn was
   * blocked), and the arena swept with its points added.
   */
  ghost function Landed(arena0: Matrix, matrix0: Matrix, pos0: Pos, score0: int, draw: nat, retry: nat): Landing
    requires draw < |Draws| && retry < |Draws|
  {
    var landed := Merged(arena0, matrix0, pos0);
    var blocked := SpawnBlocked(landed, Draws[draw]);
    var respawned := if blocked then Zeros(Width, Height) else landed;
    var piece := CreatePiece(if blocked then Draws[retry] else Draws[draw]);
    Landing(Swept(respawned, Width), (if blocked then 0 else score0) + SweepPoints(respawned),
            piece, SpawnPos(Width, piece))
  }

  class Tetris {
    const playerNumber: int
    const gameId: int
    const isPlayable: bool

    var arena: Matrix
    /** `player.pos`, `player.matrix` and `player.score` of the player record. */
    var pos: Pos
    var matrix: Matrix
    var score: int
    var dropCounter: int
    var gameOver: bool
    var ghostPiece: Option<GhostPiece>
    /** Every message emitted so far, oldest first. */
    var sent: seq<Outgoing>

    /** The 20 x 12 arena, and a falling piece whose occupied cells all lie inside it. */
    ghost predicate Valid()
      reads this
    {
      IsGrid(arena, Width, Height) && IsSquare(matrix) && |matrix| > 0 && InBounds(arena, matrix, pos)
    }

    /**
     * `new Tetris(...)`: a zero arena from `createMatrix(12, 20)`, the player
     * record of `createPlayer` and a first `playerReset`; `draw` is the value
     * `Math.random` picks the piece with.
     */
    constructor (playerNumber: int, gameId: int, isPlayable: bool, draw: nat)
      requires draw < |Draws|
      ensures Valid()
      ensures this.playerNumber == playerNumber && this.gameId == gameId && this.isPlayable == isPlayable
      ensures arena == Zeros(Width, Height)
      ensures matrix == CreatePiece(Draws[draw]) && pos == SpawnPos(Width, matrix)
      ensures score == 0 && dropCounter == 0 && !gameOver && ghostPiece == None && sent == []
    {
      this.playerNumber := playerNumber;
      this.gameId := gameId;
      this.isPlayable := isPlayable;
      ghostPiece := None;
      var a := CreateMatrix(Width, Height);
      ZeroGridUnique(a, Width, Height);
      arena := a;
      pos := Pos(5, 0);
      matrix := [];
      score := 0;
      dropCounter := 0;
      gameOver := false;
      sent := [];
      new;
      SpawnFits(arena, Draws[draw]);
      PlayerReset(draw, draw);
    }

    /** `emitMove()`: the arena, position and piece as they are now. */
    method EmitMove()
      modifies this`sent
      ensures sent == old(sent) + [MoveSent(gameId, playerNumber, arena, pos, matrix)]
    {
      sent := sent + [MoveSent(gameId, playerNumber, arena, pos, matrix)];
    }

    /** `updateScore()`: the socket half; the DOM write is not modelled. */
    method UpdateScore()
      modifies this`sent
      ensures sent == old(sent) + [ScoreSent(gameId, playerNumber, score)]
    {
      sent := sent + [ScoreSent(gameId, playerNumber, score)];
    }

    /**
     * `checkGameOver()`: reports a collision of the piece where it is, and
     * emits 'gameOver' with the player id the object never sets.
     */
    method CheckGameOver() returns (over: bool)
      modifies this`sent
      ensures over <==> Collides(arena, matrix, pos)
      ensures sent == old(sent) + if over then [GameOverSent(gameId, None)] else []
    {
      over := Collide(arena, matrix, pos);
      if over {
        sent := sent + [GameOverSent(gameId, None)];
      }
    }

    /** `arena.forEach(row => row.fill(0))`. */
    method ClearArena()
      requires IsGrid(arena, Width, Height)
      modifies this`arena
      ensures arena == Zeros(Width, Height)
    {
      var a := arena;
      var i := 0;
      while i < |a|
        invariant 0 <= i <= |a| == Height
        invariant forall r :: 0 <= r < i ==> a[r] == ZeroRow(Width)
        invariant forall r :: i <= r < |a| ==> a[r] == arena[r]
      {
        a := a[i := ZeroRow(|a[i]|)];
        i := i + 1;
      }
      arena := a;
    }

    /** `merge()`: the piece's cells are written into the arena at `pos`. */
    method Merge()
      requires Valid()
      modifies this`arena
      ensures arena == Merged(old(arena), matrix, pos)
      ensures Valid()
    {
      var a := MergePiece(arena, matrix, pos);
      InBoundsShape(arena, a, matrix, pos);
      arena := a;
    }

    /**
     * `playerReset()`: a new piece at the top centre. If it collides there,
     * the arena is emptied, the score zeroed and sent, and the reset tried
     * again with the next draw `retry`; the second try always fits, so the
     * game-over check after it never fires.
     */
    method PlayerReset(draw: nat, retry: nat)
      requires IsGrid(arena, Width, Height)
      requires draw < |Draws| && retry < |Draws|
      modifies this`matrix, this`pos, this`arena, this`score, this`sent, this`gameOver
      decreases if IsZero(arena) then 0 else 1
      ensures Valid() && !Collides(arena, matrix, pos)
      ensures matrix == CreatePiece(if SpawnBlocked(old(arena), Draws[draw]) then Draws[retry] else Draws[draw])
      ensures pos == SpawnPos(Width, matrix)
      ensures if SpawnBlocked(old(arena), Draws[draw]) then
                arena == Zeros(Width, Height) && score == 0 && sent == old(sent) + [ScoreSent(gameId, playerNumber, 0)]
              else
                arena == old(arena) && score == old(score) && sent == old(sent)
      ensures gameOver == old(gameOver)
    {
      SpawnFits(arena, Draws[draw]);
      matrix := CreatePiece(Draws[draw]);
      pos := Pos((|arena[0]| - |matrix[0]|) / 2, 0);
      var hit := Collide(arena, matrix, pos);
      if hit {
        ClearArena();
        score := 0;
        UpdateScore();
        SpawnFits(arena, Draws[retry]);
        PlayerReset(retry, retry);
      }
      var over := CheckGameOver();
      gameOver := gameOver || over;
    }

    /** `reset()`: empty the arena, zero and send the score, then `playerReset`. */
    method Reset(draw: nat, retry: nat)
      requires Valid()
      requires draw < |Draws| && retry < |Draws|
      modifies this`matrix, this`pos, this`arena, this`score, this`sent, this`gameOver
      ensures Valid() && !Collides(arena, matrix, pos)
      ensures arena == Zeros(Width, Height) && score == 0
      ensures matrix == CreatePiece(Draws[draw]) && pos == SpawnPos(Width, matrix)
      ensures sent == old(sent) + [ScoreSent(gameId, playerNumber, 0)]
      ensures gameOver == old(gameOver)
    {
      ClearArena();
      score := 0;
      UpdateScore();
      SpawnFits(arena, Draws[draw]);
      PlayerReset(draw, retry);
    }

    /**
     * `arenaSweep()`: from the bottom row up to row 1, a full row is spliced
     * out, filled with zeros and put on top, and the same index examined
     * again; each cleared row is worth twice the previous one, from 10.
     */
    method ArenaSweep()
      requires IsGrid(arena, Width, Height)
      modifies this`arena, this`score
      ensures arena == Swept(old(arena), Width)
      ensures score == old(score) + SweepPoints(old(arena))
      ensures IsGrid(arena, Width, Height)
      ensures forall y :: 1 <= y < Height ==> !Full(arena[y])
    {
      ghost var a0 := arena;
      var a := arena;
      var total := score;
      var rowCount := 1;
      var y := |a| - 1;
      ghost var c: nat := 0;
      ghost var u := |a|;
      while y > 0
        invariant 0 <= u <= |a0| && c == FullCount(a0[u..])
        invariant a == Sweeping(a0, Width, c, u)
        invariant u > 0 ==> y == c + u - 1
        invariant u == 0 ==> y < c && FullCount(a0[1..]) > 0
        invariant rowCount == Pow2(c)
        invariant total == old(score) + 10 * (Pow2(c) - 1)
        decreases y + u
      {
        SweepExamine(a0, Width, c, u, y);
        var full := RowFull(a[y]);
        if full {
          a := [ZeroRow(|a[y]|)] + a[..y] + a[y + 1..];
          total := total + rowCount * 10;
          rowCount := rowCount * 2;
          c := c + 1;
          u := u - 1;
        } else {
          u := if u > 0 then u - 1 else 0;
          y := y - 1;
        }
      }
      SweepDone(a0, Width, c, u);
      SweptShape(a0, Width);
      forall y | 1 <= y < Height
        ensures !Full(a[y])
      {
        SweptNoFullBelowTop(a0, Width, y);
      }
      arena := a;
      score := total;
    }

    /** `playerMove(offset)`: a sideways step, taken back if the piece would collide. */
    method PlayerMove(offset: int)
      requires Valid()
      modifies this`pos, this`sent
      ensures Valid()
      ensures var moved := Pos(old(pos).x + offset, old(pos).y);
              pos == if Collides(arena, matrix, moved) then old(pos) else moved
      ensures !Collides(arena, matrix, old(pos)) ==> !Collides(arena, matrix, pos)
      ensures sent == old(sent) + [MoveSent(gameId, playerNumber, arena, pos, matrix)]
    {
      pos := Pos(pos.x + offset, pos.y);
      var hit := Collide(arena, matrix, pos);
      if hit {
        pos := Pos(pos.x - offset, pos.y);
      } else {
        FitsIsInBounds(arena, matrix, pos);
      }
      EmitMove();
    }

    /** The scores a landing sends: a zero score if the spawn was blocked, then the new score. */
    ghost function LandingSent(arena0: Matrix, matrix0: Matrix, pos0: Pos, draw: nat, newScore: int): seq<Outgoing>
      requires draw < |Draws|
    {
      (if SpawnBlocked(Merged(arena0, matrix0, pos0), Draws[draw]) then [ScoreSent(gameId, playerNumber, 0)] else []) +
      [ScoreSent(gameId, playerNumber, newScore)]
    }

    /**
     * The branch of `playerDrop()` taken when the piece cannot go down: merge
     * it where it is, spawn a new piece, sweep the arena and send the score.
     * The piece spawns before the sweep, so the sweep can shift blocks under it.
     */
    method Land(draw: nat, retry: nat)
      requires Valid()
      requires draw < |Draws| && retry < |Draws|
      modifies this`matrix, this`pos, this`arena, this`score, this`sent, this`gameOver
      ensures Valid() && gameOver == old(gameOver)
      ensures Landing(arena, score, matrix, pos) == Landed(old(arena), old(matrix), old(pos), old(score), draw, retry)
      ensures sent == old(sent) + LandingSent(old(arena), old(matrix), old(pos), draw, score)
      ensures forall y :: 1 <= y < Height ==> !Full(arena[y])
    {
      Merge();
      PlayerReset(draw, retry);
      ghost var spawned := arena;
      ArenaSweep();
      SweptShape(spawned, Width);
      InBoundsShape(spawned, arena, matrix, pos);
      UpdateScore();
    }

    /**
     * `playerDrop()`: one row down; a piece that cannot go down lands. The
     * drop counter is zeroed and the move sent either way.
     */
    method PlayerDrop(draw: nat, retry: nat)
      requires Valid()
      requires draw < |Draws| && retry < |Draws|
      modifies this`matrix, this`pos, this`arena, this`score, this`sent, this`gameOver, this`dropCounter
      ensures Valid() && dropCounter == 0 && gameOver == old(gameOver)
      ensures var below := Pos(old(pos).x, old(pos).y + 1);
              !Collides(old(arena), old(matrix), below) ==>
                pos == below && arena == old(arena) && matrix == old(matrix) && score == old(score) &&
                sent == old(sent) + [MoveSent(gameId, playerNumber, arena, pos, matrix)]
      ensures Collides(old(arena), old(matrix), Pos(old(pos).x, old(pos).y + 1)) ==>
                Landing(arena, score, matrix, pos) == Landed(old(arena), old(matrix), old(pos), old(score), draw, retry) &&
                (forall y :: 1 <= y < Height ==> !Full(arena[y])) &&
                sent == old(sent) + LandingSent(old(arena), old(matrix), old(pos), draw, score) +
                        [MoveSent(gameId, playerNumber, arena, pos, matrix)]
    {
      pos := Pos(pos.x, pos.y + 1);
      var hit := Collide(arena, matrix, pos);
      if hit {
        pos := Pos(pos.x, pos.y - 1);
        assert pos == old(pos);
        Land(draw, retry);
      } else {
        FitsIsInBounds(arena, matrix, pos);
      }
      dropCounter := 0;
      EmitMove();
    }

    /**
     * The kick loop of `playerRotate`: while the piece collides, move it by
     * `offset` and turn the offset into `-(offset + sign(offset))`; stop with
     * `fits == false` once the offset exceeds the piece width. The position
     * the last kick moved to is never tested.
     */
    method KickIntoPlace() returns (fits: bool)
      requires IsSquare(matrix) && |matrix| > 0
      modifies this`pos
      ensures fits ==> exists k: nat :: FirstFit(arena, matrix, old(pos), k) && pos == KickPos(old(pos), k)
      ensures !fits ==> KicksBlocked(arena, matrix, old(pos), Tries(|matrix|))
      ensures pos.y == old(pos).y
    {
      var offset := 1;
      ghost var k: nat := 0;
      var hit := Collide(arena, matrix, pos);
      while hit
        invariant 0 <= k < Tries(|matrix|)
        invariant offset == KickStep(k)
        invariant pos == KickPos(old(pos), k)
        invariant hit <==> Collides(arena, matrix, pos)
        invariant KicksBlocked(arena, matrix, old(pos), k)
        decreases Tries(|matrix|) - k
      {
        KickAdvance(k, |matrix|);
        assert KicksBlocked(arena, matrix, old(pos), k + 1);
        pos := Pos(pos.x + offset, pos.y);
        offset := -(offset + (if offset > 0 then 1 else -1));
        k := k + 1;
        if offset > |matrix[0]| {
          return false;
        }
        hit := Collide(arena, matrix, pos);
      }
      assert FirstFit(arena, matrix, old(pos), k);
      return true;
    }

    /**
     * `playerRotate(dir)`: rotate, then kick the piece to x + 1, x - 1, x + 2,
     * ... until it fits; if no tested position fits, rotate back and restore x.
     * Callers rotate by 1; `dir` must be non-zero for the rotation back to undo.
     */
    method PlayerRotate(dir: int)
      requires Valid() && dir != 0
      modifies this`matrix, this`pos, this`sent
      ensures Valid()
      ensures var r := Rotated(old(matrix), dir);
              !KicksBlocked(arena, r, old(pos), Tries(|r|)) ==>
                exists k: nat :: FirstFit(arena, r, old(pos), k) && matrix == r && pos == KickPos(old(pos), k) &&
                                 sent == old(sent) + [MoveSent(gameId, playerNumber, arena, pos, matrix)]
      ensures var r := Rotated(old(matrix), dir);
              KicksBlocked(arena, r, old(pos), Tries(|r|)) ==>
                matrix == old(matrix) && pos == old(pos) && sent == old(sent)
    {
      var x := pos.x;
      ghost var m0 := matrix;
      var r := Rotate(matrix, dir);
      matrix := r;
      var fits := KickIntoPlace();
      if !fits {
        RotateUndo(m0, dir);
        matrix := Rotate(r, -dir);
        pos := Pos(x, pos.y);
        return;
      }
      ghost var k: nat :| FirstFit(arena, r, old(pos), k) && pos == KickPos(old(pos), k);
      KickOutcomes(arena, r, old(pos), k, k);
      FitsIsInBounds(arena, matrix, pos);
      EmitMove();
    }

    /** `updateArena(newArena, playerPos, playerMatrix)`, without the redraw. */
    method UpdateArena(newArena: Option<Matrix>, playerPos: Option<Pos>, playerMatrix: Option<Matrix>)
      requires Valid()
      requires newArena.Some? ==> IsGrid(newArena.value, Width, Height)
      modifies this`arena, this`ghostPiece
      ensures Valid()
      ensures arena == if newArena.Some? then newArena.value else old(arena)
      ensures ghostPiece == if playerPos.Some? && playerMatrix.Some?
                            then Some(GhostPiece(playerPos.value, playerMatrix.value)) else old(ghostPiece)
    {
      if newArena.Some? {
        InBoundsShape(arena, newArena.value, matrix, pos);
        arena := newArena.value;
      }
      if playerPos.Some? && playerMatrix.Some? {
        ghostPiece := Some(GhostPiece(playerPos.value, playerMatrix.value));
      }
    }

    /** `updateOpponentPiece(playerPos, playerMatrix)`, without the redraw. */
    method UpdateOpponentPiece(playerPos: Option<Pos>, playerMatrix: Option<Matrix>)
      modifies this`ghostPiece
      ensures ghostPiece == if playerPos.Some? && playerMatrix.Some?
                            then Some(GhostPiece(playerPos.value, playerMatrix.value)) else old(ghostPiece)
    {
      if playerPos.Some? && playerMatrix.Some? {
        ghostPiece := Some(GhostPiece(playerPos.value, playerMatrix.value));
      }
    }
  }
}
