/**
 * The matrix operations of the falling-block board in www/tetris.js:
 * matrices, the seven pieces, rotation, collision, merging and the line sweep.
 * Specification functions are stated on values; the loops of the source are
 * methods proved against them.
 */
module TetrisMatrix {

  /** A matrix is an array of rows; a cell holds 0 (empty) or a colour code. */
  type Matrix = seq<seq<int>>

  datatype Pos = Pos(x: int, y: int)

  /** The arena built by the constructor: `createMatrix(12, 20)`. */
  const Width := 12
  const Height := 20

  ghost predicate IsGrid(m: Matrix, w: int, h: int) {
    |m| == h && forall r :: 0 <= r < h ==> |m[r]| == w
  }

  ghost predicate IsSquare(m: Matrix) {
    IsGrid(m, |m|, |m|)
  }

  ghost predicate IsZero(m: Matrix) {
    forall r, c :: 0 <= r < |m| && 0 <= c < |m[r]| ==> m[r][c] == 0
  }

  function ZeroRow(w: nat): seq<int> {
    seq(w, _ => 0)
  }

  function Zeros(w: nat, h: nat): Matrix {
    seq(h, _ => ZeroRow(w))
  }

  /** A grid of the right shape holding only zeros is the zero matrix. */
  lemma ZeroGridUnique(m: Matrix, w: nat, h: nat)
    requires IsGrid(m, w, h) && IsZero(m)
    ensures m == Zeros(w, h)
  {
    forall r | 0 <= r < h
      ensures m[r] == ZeroRow(w)
    {
      assert |m[r]| == w;
      forall c | 0 <= c < w
        ensures m[r][c] == ZeroRow(w)[c]
      {
        assert m[r][c] == 0;
      }
    }
  }

  /** `createMatrix(w, h)`: push `h` rows of `w` zeros. */
  method CreateMatrix(w: nat, h: nat) returns (m: Matrix)
    ensures IsGrid(m, w, h) && IsZero(m)
  {
    m := [];
    var left := h;
    while left > 0
      invariant 0 <= left <= h
      invariant IsGrid(m, w, h - left) && IsZero(m)
    {
      m := m + [ZeroRow(w)];
      left := left - 1;
    }
  }

  /** `createEmptyMatrix(width, height)`. */
  function CreateEmptyMatrix(w: nat, h: nat): (m: Matrix)
    ensures IsGrid(m, w, h) && IsZero(m)
  {
    seq(h, _ => seq(w, _ => 0))
  }

  /** `createEmptyArena()`: a 20-row, 12-column zero matrix. */
  function CreateEmptyArena(): (m: Matrix)
    ensures IsGrid(m, Width, Height) && IsZero(m)
    ensures m == Zeros(Width, Height)
  {
    var a := seq(20, _ => seq(12, _ => 0));
    ZeroGridUnique(a, Width, Height);
    a
  }

  // ---------------------------------------------------------------- pieces

  datatype PieceKind = I | L | J | O | Z | S | T

  /** The letters `'TJLOSZI'`, indexed by the random draw of `playerReset`. */
  const Draws: seq<PieceKind> := [T, J, L, O, S, Z, I]

  /** The colour code the piece's cells carry. */
  function Colour(kind: PieceKind): int {
    match kind
    case I => 1
    case L => 2
    case J => 3
    case O => 4
    case Z => 5
    case S => 6
    case T => 7
  }

  /** The number of occupied cells of `row` from column `i` on. */
  function RowNonZero(row: seq<int>, i: nat): nat
    decreases |row| - i
  {
    if i >= |row| then 0 else (if row[i] != 0 then 1 else 0) + RowNonZero(row, i + 1)
  }

  /** The number of occupied cells of `m` from row `i` on. */
  function NonZeroCount(m: Matrix, i: nat): nat
    decreases |m| - i
  {
    if i >= |m| then 0 else RowNonZero(m[i], 0) + NonZeroCount(m, i + 1)
  }

  /** `createPiece(type)`. */
  function CreatePiece(kind: PieceKind): (m: Matrix)
    ensures IsSquare(m) && 2 <= |m| <= 4
  {
    match kind
    case I => [[0, 1, 0, 0], [0, 1, 0, 0], [0, 1, 0, 0], [0, 1, 0, 0]]
    case L => [[0, 2, 0], [0, 2, 0], [0, 2, 2]]
    case J => [[0, 3, 0], [0, 3, 0], [3, 3, 0]]
    case O => [[4, 4], [4, 4]]
    case Z => [[5, 5, 0], [0, 5, 5], [0, 0, 0]]
    case S => [[0, 6, 6], [6, 6, 0], [0, 0, 0]]
    case T => [[0, 7, 0], [7, 7, 7], [0, 0, 0]]
  }

  /** Every piece has exactly four occupied cells, all of its colour code, which lies in 1..7. */
  lemma PieceCells(kind: PieceKind)
    ensures NonZeroCount(CreatePiece(kind), 0) == 4
    ensures 1 <= Colour(kind) <= 7
    ensures forall r, c :: 0 <= r < |CreatePiece(kind)| && 0 <= c < |CreatePiece(kind)[r]| && CreatePiece(kind)[r][c] != 0 ==>
              CreatePiece(kind)[r][c] == Colour(kind)
  {
    var m := CreatePiece(kind);
    assert NonZeroCount(m, 0) == RowNonZero(m[0], 0) + NonZeroCount(m, 1);
    assert NonZeroCount(m, 1) == RowNonZero(m[1], 0) + NonZeroCount(m, 2);
    if |m| > 2 {
      assert NonZeroCount(m, 2) == RowNonZero(m[2], 0) + NonZeroCount(m, 3);
    }
  }

  // -------------------------------------------------------------- rotation

  function Transposed(m: Matrix): Matrix
    requires IsSquare(m)
  {
    seq(|m|, y requires 0 <= y < |m| => seq(|m|, x requires 0 <= x < |m| => m[x][y]))
  }

  function Reversed<A>(s: seq<A>): seq<A> {
    seq(|s|, i requires 0 <= i < |s| => s[|s| - 1 - i])
  }

  /**
   * `rotate(matrix, dir)`: transpose, then reverse every row when `dir > 0`,
   * otherwise reverse the order of the rows.
   */
  function Rotated(m: Matrix, dir: int): Matrix
    requires IsSquare(m)
  {
    var t := Transposed(m);
    if dir > 0 then seq(|t|, y requires 0 <= y < |t| => Reversed(t[y])) else Reversed(t)
  }

  /** Rotation is a quarter turn: clockwise for `dir > 0`, counter-clockwise otherwise. */
  lemma RotatedAt(m: Matrix, dir: int)
    requires IsSquare(m)
    ensures IsSquare(Rotated(m, dir)) && |Rotated(m, dir)| == |m|
    ensures forall y, x :: 0 <= y < |m| && 0 <= x < |m| ==>
      Rotated(m, dir)[y][x] == if dir > 0 then m[|m| - 1 - x][y] else m[x][|m| - 1 - y]
  {
  }

  /** Rotating back the other way restores the matrix (what `playerRotate` relies on). */
  lemma RotateUndo(m: Matrix, dir: int)
    requires IsSquare(m) && dir != 0
    ensures Rotated(Rotated(m, dir), -dir) == m
  {
    var n := |m|;
    var r := Rotated(m, dir);
    RotatedAt(m, dir);
    RotatedAt(r, -dir);
    var b := Rotated(r, -dir);
    assert |b| == n;
    forall y | 0 <= y < n
      ensures b[y] == m[y]
    {
      assert |b[y]| == n == |m[y]|;
      forall x | 0 <= x < n
        ensures b[y][x] == m[y][x]
      {
        if dir > 0 {
          assert b[y][x] == r[x][n - 1 - y];
        } else {
          assert b[y][x] == r[n - 1 - x][y];
        }
      }
    }
  }

  /** The multiset of all cells of a matrix. */
  function Cells(m: Matrix): multiset<int> {
    if m == [] then multiset{} else Cells(m[..|m| - 1]) + multiset(m[|m| - 1])
  }

  lemma {:induction false} CellsUpdate(m: Matrix, i: int, row: seq<int>)
    requires 0 <= i < |m|
    ensures Cells(m[i := row]) + multiset(m[i]) == Cells(m) + multiset(row)
  {
    var n := |m|;
    if i < n - 1 {
      assert m[i := row][..n - 1] == m[..n - 1][i := row];
      assert m[i := row][n - 1] == m[n - 1];
      assert m[..n - 1][i] == m[i];
      var p := m[..n - 1];
      CellsUpdate(p, i, row);
      calc {
        Cells(m[i := row]) + multiset(m[i]);
        Cells(p[i := row]) + multiset(m[n - 1]) + multiset(p[i]);
        (Cells(p[i := row]) + multiset(p[i])) + multiset(m[n - 1]);
        (Cells(p) + multiset(row)) + multiset(m[n - 1]);
        (Cells(p) + multiset(m[n - 1])) + multiset(row);
        Cells(m) + multiset(row);
      }
    } else {
      assert m[i := row][..n - 1] == m[..n - 1];
    }
  }

  lemma UpdateMultiset(s: seq<int>, i: int, v: int)
    requires 0 <= i < |s|
    ensures multiset(s[i := v]) + multiset{s[i]} == multiset(s) + multiset{v}
  {
    assert s == s[..i] + [s[i]] + s[i + 1..];
    assert s[i := v] == s[..i] + [v] + s[i + 1..];
  }

  /** Exchanging two cells in different rows keeps the multiset of cells. */
  lemma SwapCells(m: Matrix, x: int, y: int)
    requires 0 <= x < y < |m| && y < |m[x]| && x < |m[y]|
    ensures Cells(m[x := m[x][y := m[y][x]]][y := m[y][x := m[x][y]]]) == Cells(m)
  {
    var a, b := m[x][y], m[y][x];
    var rx, ry := m[x][y := b], m[y][x := a];
    var m1 := m[x := rx];
    var m2 := m1[y := ry];
    CellsUpdate(m, x, rx);
    assert m1[y] == m[y];
    CellsUpdate(m1, y, ry);
    UpdateMultiset(m[x], y, b);
    UpdateMultiset(m[y], x, a);
    SwapBalance(Cells(m), Cells(m1), Cells(m2), multiset(m[x]), multiset(m[y]), multiset(rx), multiset(ry), a, b);
  }

  lemma SwapBalance(c: multiset<int>, c1: multiset<int>, c2: multiset<int>, mx: multiset<int>, my: multiset<int>,
                    nx: multiset<int>, ny: multiset<int>, a: int, b: int)
    requires c2 + my == c1 + ny && c1 + mx == c + nx
    requires nx + multiset{a} == mx + multiset{b} && ny + multiset{b} == my + multiset{a}
    ensures c2 == c
  {
    forall v
      ensures c2[v] == c[v]
    {
      assert (c2 + my)[v] == (c1 + ny)[v];
      assert (c1 + mx)[v] == (c + nx)[v];
      assert (nx + multiset{a})[v] == (mx + multiset{b})[v];
      assert (ny + multiset{b})[v] == (my + multiset{a})[v];
    }
  }

  lemma MultisetCancel(a: multiset<int>, b: multiset<int>, c: multiset<int>)
    requires a + c == b + c
    ensures a == b
  {
    forall v
      ensures a[v] == b[v]
    {
      assert (a + c)[v] == (b + c)[v];
    }
  }

  lemma {:induction false} ReversedMultiset<A>(s: seq<A>)
    ensures multiset(Reversed(s)) == multiset(s)
  {
    if s != [] {
      var n := |s|;
      assert Reversed(s) == [s[n - 1]] + Reversed(s[..n - 1]);
      ReversedMultiset(s[..n - 1]);
      assert s == s[..n - 1] + [s[n - 1]];
    }
  }

  lemma {:induction false} ReversedCells(m: Matrix)
    ensures Cells(Reversed(m)) == Cells(m)
  {
    if m != [] {
      var n := |m|;
      assert Reversed(m) == [m[n - 1]] + Reversed(m[..n - 1]);
      ReversedCells(m[..n - 1]);
      ConsCells(m[n - 1], Reversed(m[..n - 1]));
    }
  }

  lemma {:induction false} ConsCells(row: seq<int>, m: Matrix)
    ensures Cells([row] + m) == multiset(row) + Cells(m)
  {
    if m != [] {
      var n := |m|;
      assert ([row] + m)[..n] == [row] + m[..n - 1];
      ConsCells(row, m[..n - 1]);
    }
  }

  /** Cell `(i, j)` has been exchanged once the swap loops reached row `y`, column `x`. */
  predicate Swapped(i: int, j: int, y: int, x: int) {
    (i < y && j < y) || (i == y && j < x) || (j == y && i < x)
  }

  /** The state of the transposition loops at row `y`, column `x`. */
  ghost predicate TransposedUpTo(r: Matrix, m: Matrix, n: int, y: int, x: int) {
    IsGrid(r, n, n) && IsGrid(m, n, n) &&
    forall i, j {:trigger r[i][j]} :: 0 <= i < n && 0 <= j < n ==> r[i][j] == if Swapped(i, j, y, x) then m[j][i] else m[i][j]
  }

  lemma TransposedNextRow(r: Matrix, m: Matrix, n: int, y: int)
    requires TransposedUpTo(r, m, n, y, y)
    ensures TransposedUpTo(r, m, n, y + 1, 0)
  {
    forall i, j {:trigger r[i][j]} | 0 <= i < n && 0 <= j < n
      ensures r[i][j] == if Swapped(i, j, y + 1, 0) then m[j][i] else m[i][j]
    {
      assert r[i][j] == if Swapped(i, j, y, y) then m[j][i] else m[i][j];
      assert Swapped(i, j, y + 1, 0) == (Swapped(i, j, y, y) || (i == y && j == y));
    }
  }

  /** One swap of the transposition loops moves the state from column `x` to `x + 1`. */
  lemma SwapStep(r: Matrix, m: Matrix, n: int, y: int, x: int)
    requires 0 <= x < y < n
    requires TransposedUpTo(r, m, n, y, x)
    ensures TransposedUpTo(r[x := r[x][y := r[y][x]]][y := r[y][x := r[x][y]]], m, n, y, x + 1)
  {
    var s := r[x := r[x][y := r[y][x]]][y := r[y][x := r[x][y]]];
    assert IsGrid(s, n, n);
    forall i, j {:trigger s[i][j]} | 0 <= i < n && 0 <= j < n
      ensures s[i][j] == if Swapped(i, j, y, x + 1) then m[j][i] else m[i][j]
    {
      assert r[i][j] == if Swapped(i, j, y, x) then m[j][i] else m[i][j];
      if (i, j) == (x, y) || (i, j) == (y, x) {
        assert r[j][i] == m[j][i];
      }
    }
  }

  /** The inner swap loop of `rotate`: exchanges `matrix[x][y]` and `matrix[y][x]` for every `x < y`. */
  method SwapRowWithColumn(r0: Matrix, ghost m: Matrix, n: int, y: int) returns (r: Matrix)
    requires 0 <= y < n
    requires TransposedUpTo(r0, m, n, y, 0)
    ensures TransposedUpTo(r, m, n, y + 1, 0)
    ensures Cells(r) == Cells(r0)
  {
    r := r0;
    var x := 0;
    while x < y
      invariant 0 <= x <= y
      invariant TransposedUpTo(r, m, n, y, x)
      invariant Cells(r) == Cells(r0)
    {
      SwapCells(r, x, y);
      SwapStep(r, m, n, y, x);
      r := r[x := r[x][y := r[y][x]]][y := r[y][x := r[x][y]]];
      x := x + 1;
    }
    TransposedNextRow(r, m, n, y);
  }

  /** The two swap loops of `rotate`: an in-place transposition. */
  method Transpose(m: Matrix) returns (t: Matrix)
    requires IsSquare(m)
    ensures t == Transposed(m)
    ensures Cells(t) == Cells(m)
  {
    var n := |m|;
    t := m;
    var y := 0;
    while y < n
      invariant 0 <= y <= n
      invariant TransposedUpTo(t, m, n, y, 0)
      invariant Cells(t) == Cells(m)
    {
      t := SwapRowWithColumn(t, m, n, y);
      y := y + 1;
    }
    forall i | 0 <= i < n
      ensures t[i] == Transposed(m)[i]
    {
      assert |t[i]| == n;
      forall j | 0 <= j < n
        ensures t[i][j] == Transposed(m)[i][j]
      {
        assert Swapped(i, j, n, 0);
      }
    }
  }

  /** The `dir > 0` branch of `rotate`: `matrix.forEach(row => row.reverse())`. */
  method ReverseEachRow(t: Matrix) returns (r: Matrix)
    ensures |r| == |t|
    ensures forall k :: 0 <= k < |t| ==> r[k] == Reversed(t[k])
    ensures Cells(r) == Cells(t)
  {
    r := t;
    var i := 0;
    while i < |t|
      invariant 0 <= i <= |t|
      invariant |r| == |t|
      invariant Cells(r) == Cells(t)
      invariant forall k :: 0 <= k < i ==> r[k] == Reversed(t[k])
      invariant forall k :: i <= k < |t| ==> r[k] == t[k]
    {
      CellsUpdate(r, i, Reversed(r[i]));
      ReversedMultiset(r[i]);
      MultisetCancel(Cells(r[i := Reversed(r[i])]), Cells(r), multiset(r[i]));
      r := r[i := Reversed(r[i])];
      i := i + 1;
    }
  }

  /**
   * `rotate(matrix, dir)`: the in-place transposition by swaps, followed by the
   * row reversal. The rotated matrix keeps the dimensions and the cells.
   */
  method Rotate(m: Matrix, dir: int) returns (r: Matrix)
    requires IsSquare(m)
    ensures r == Rotated(m, dir)
    ensures IsSquare(r) && |r| == |m|
    ensures Cells(r) == Cells(m)
  {
    var t := Transpose(m);
    if dir > 0 {
      r := ReverseEachRow(t);
    } else {
      ReversedCells(t);
      r := Reversed(t);
    }
    RotatedAt(m, dir);
  }

  // ------------------------------------------------------------- collision

  /**
   * An arena cell a piece cell may not land on: a missing row, a missing
   * column (in any direction) or a non-zero value, as `(arena[r] && arena[r][c]) !== 0`.
   */
  ghost predicate Blocked(arena: Matrix, r: int, c: int) {
    !(0 <= r < |arena| && 0 <= c < |arena[r]| && arena[r][c] == 0)
  }

  /** `collide(arena, player)`: some non-zero piece cell lands on a blocked cell. */
  ghost predicate Collides(arena: Matrix, piece: Matrix, pos: Pos) {
    exists y, x :: 0 <= y < |piece| && 0 <= x < |piece[y]| && piece[y][x] != 0 && Blocked(arena, y + pos.y, x + pos.x)
  }

  /** Every non-zero piece cell lands inside the arena (it may overlap blocks). */
  ghost predicate InBounds(arena: Matrix, piece: Matrix, pos: Pos) {
    forall y, x :: 0 <= y < |piece| && 0 <= x < |piece[y]| && piece[y][x] != 0 ==>
      0 <= y + pos.y < |arena| && 0 <= x + pos.x < |arena[y + pos.y]|
  }

  /** A piece that does not collide lies inside the arena. */
  lemma FitsIsInBounds(arena: Matrix, piece: Matrix, pos: Pos)
    requires !Collides(arena, piece, pos)
    ensures InBounds(arena, piece, pos)
  {
  }

  /** `collide(arena, player)`: the nested loop with its early return. */
  method Collide(arena: Matrix, piece: Matrix, pos: Pos) returns (hit: bool)
    ensures hit <==> Collides(arena, piece, pos)
  {
    var y := 0;
    while y < |piece|
      invariant 0 <= y <= |piece|
      invariant forall y', x' :: 0 <= y' < y && 0 <= x' < |piece[y']| && piece[y'][x'] != 0 ==>
        !Blocked(arena, y' + pos.y, x' + pos.x)
    {
      var x := 0;
      while x < |piece[y]|
        invariant 0 <= x <= |piece[y]|
        invariant forall x' :: 0 <= x' < x && piece[y][x'] != 0 ==> !Blocked(arena, y + pos.y, x' + pos.x)
      {
        var r, c := y + pos.y, x + pos.x;
        if piece[y][x] != 0 && !(0 <= r < |arena| && 0 <= c < |arena[r]| && arena[r][c] == 0) {
          return true;
        }
        x := x + 1;
      }
      y := y + 1;
    }
    return false;
  }

  // ----------------------------------------------------------------- merge

  /** The piece cell at arena cell `(r, c)`, when the piece covers it with a non-zero value. */
  ghost predicate Covers(piece: Matrix, pos: Pos, r: int, c: int) {
    0 <= r - pos.y < |piece| && 0 <= c - pos.x < |piece[r - pos.y]| && piece[r - pos.y][c - pos.x] != 0
  }

  /** `merge()`: every non-zero piece cell written at `pos`, every other cell kept. */
  ghost function Merged(arena: Matrix, piece: Matrix, pos: Pos): (m: Matrix)
    ensures |m| == |arena| && forall r :: 0 <= r < |m| ==> |m[r]| == |arena[r]|
  {
    seq(|arena|, r requires 0 <= r < |arena| =>
      seq(|arena[r]|, c requires 0 <= c < |arena[r]| =>
        if Covers(piece, pos, r, c) then piece[r - pos.y][c - pos.x] else arena[r][c]))
  }

  /** After a merge the piece sits on occupied cells: at the same place it collides. */
  lemma MergedBlocksPiece(arena: Matrix, piece: Matrix, pos: Pos)
    requires InBounds(arena, piece, pos)
    requires exists y, x :: 0 <= y < |piece| && 0 <= x < |piece[y]| && piece[y][x] != 0
    ensures Collides(Merged(arena, piece, pos), piece, pos)
  {
    var y, x :| 0 <= y < |piece| && 0 <= x < |piece[y]| && piece[y][x] != 0;
    var m := Merged(arena, piece, pos);
    assert Covers(piece, pos, y + pos.y, x + pos.x);
    assert m[y + pos.y][x + pos.x] == piece[y][x];
  }

  /** A merge touches no cell outside the piece's non-zero cells. */
  lemma MergedElsewhere(arena: Matrix, piece: Matrix, pos: Pos, r: int, c: int)
    requires 0 <= r < |arena| && 0 <= c < |arena[r]|
    requires !Covers(piece, pos, r, c)
    ensures Merged(arena, piece, pos)[r][c] == arena[r][c]
  {
  }

  /** Piece cell `(py, px)` comes before cell `(y, x)` in the row-by-row order of the loops. */
  predicate Before(py: int, px: int, y: int, x: int) {
    py < y || (py == y && px < x)
  }

  /** The state of the merge loops once they reached piece row `y`, column `x`. */
  ghost predicate MergedUpTo(m: Matrix, arena: Matrix, piece: Matrix, pos: Pos, y: int, x: int) {
    |m| == |arena| && (forall r :: 0 <= r < |m| ==> |m[r]| == |arena[r]|) &&
    forall r, c {:trigger m[r][c]} :: 0 <= r < |m| && 0 <= c < |m[r]| ==>
      m[r][c] == if Covers(piece, pos, r, c) && Before(r - pos.y, c - pos.x, y, x) then piece[r - pos.y][c - pos.x] else arena[r][c]
  }

  lemma MergeStep(m: Matrix, arena: Matrix, piece: Matrix, pos: Pos, y: int, x: int)
    requires InBounds(arena, piece, pos)
    requires 0 <= y < |piece| && 0 <= x < |piece[y]|
    requires MergedUpTo(m, arena, piece, pos, y, x)
    ensures piece[y][x] != 0 ==>
      0 <= y + pos.y < |m| && 0 <= x + pos.x < |m[y + pos.y]| &&
      MergedUpTo(m[y + pos.y := m[y + pos.y][x + pos.x := piece[y][x]]], arena, piece, pos, y, x + 1)
    ensures piece[y][x] == 0 ==> MergedUpTo(m, arena, piece, pos, y, x + 1)
  {
    if piece[y][x] != 0 {
      var r0, c0 := y + pos.y, x + pos.x;
      var m' := m[r0 := m[r0][c0 := piece[y][x]]];
      forall r, c | 0 <= r < |m'| && 0 <= c < |m'[r]|
        ensures m'[r][c] == if Covers(piece, pos, r, c) && Before(r - pos.y, c - pos.x, y, x + 1) then piece[r - pos.y][c - pos.x] else arena[r][c]
      {
        if (r, c) != (r0, c0) {
          assert m'[r][c] == m[r][c];
        }
      }
    } else {
      forall r, c | 0 <= r < |m| && 0 <= c < |m[r]|
        ensures m[r][c] == if Covers(piece, pos, r, c) && Before(r - pos.y, c - pos.x, y, x + 1) then piece[r - pos.y][c - pos.x] else arena[r][c]
      {
        assert m[r][c] == if Covers(piece, pos, r, c) && Before(r - pos.y, c - pos.x, y, x) then piece[r - pos.y][c - pos.x] else arena[r][c];
      }
    }
  }

  lemma MergeNextRow(m: Matrix, arena: Matrix, piece: Matrix, pos: Pos, y: int)
    requires 0 <= y < |piece|
    requires MergedUpTo(m, arena, piece, pos, y, |piece[y]|)
    ensures MergedUpTo(m, arena, piece, pos, y + 1, 0)
  {
    forall r, c | 0 <= r < |m| && 0 <= c < |m[r]|
      ensures m[r][c] == if Covers(piece, pos, r, c) && Before(r - pos.y, c - pos.x, y + 1, 0) then piece[r - pos.y][c - pos.x] else arena[r][c]
    {
      assert m[r][c] == if Covers(piece, pos, r, c) && Before(r - pos.y, c - pos.x, y, |piece[y]|) then piece[r - pos.y][c - pos.x] else arena[r][c];
    }
  }

  lemma MergeDone(m: Matrix, arena: Matrix, piece: Matrix, pos: Pos)
    requires MergedUpTo(m, arena, piece, pos, |piece|, 0)
    ensures m == Merged(arena, piece, pos)
  {
    var g := Merged(arena, piece, pos);
    forall r | 0 <= r < |m|
      ensures m[r] == g[r]
    {
      forall c | 0 <= c < |m[r]|
        ensures m[r][c] == g[r][c]
      {
        assert m[r][c] == if Covers(piece, pos, r, c) && Before(r - pos.y, c - pos.x, |piece|, 0) then piece[r - pos.y][c - pos.x] else arena[r][c];
      }
    }
  }

  /** `merge()`: the nested loop that writes every non-zero piece cell at `pos`. */
  method MergePiece(arena: Matrix, piece: Matrix, pos: Pos) returns (m: Matrix)
    requires InBounds(arena, piece, pos)
    ensures m == Merged(arena, piece, pos)
  {
    m := arena;
    var y := 0;
    while y < |piece|
      invariant 0 <= y <= |piece|
      invariant MergedUpTo(m, arena, piece, pos, y, 0)
    {
      var x := 0;
      while x < |piece[y]|
        invariant 0 <= x <= |piece[y]|
        invariant MergedUpTo(m, arena, piece, pos, y, x)
      {
        MergeStep(m, arena, piece, pos, y, x);
        if piece[y][x] != 0 {
          m := m[y + pos.y := m[y + pos.y][x + pos.x := piece[y][x]]];
        }
        x := x + 1;
      }
      MergeNextRow(m, arena, piece, pos, y);
      y := y + 1;
    }
    MergeDone(m, arena, piece, pos);
  }

  // ----------------------------------------------------------------- sweep

  /** A row with no empty cell. */
  predicate Full(row: seq<int>) {
    forall x :: 0 <= x < |row| ==> row[x] != 0
  }

  /** The inner loop of `arenaSweep`: does the row hold a zero? */
  method RowFull(row: seq<int>) returns (full: bool)
    ensures full <==> Full(row)
  {
    var x := 0;
    while x < |row|
      invariant 0 <= x <= |row|
      invariant forall x' :: 0 <= x' < x ==> row[x'] != 0
    {
      if row[x] == 0 {
        return false;
      }
      x := x + 1;
    }
    return true;
  }

  /** The rows that are not full, in their order. */
  ghost function Survivors(a: Matrix): Matrix {
    if a == [] then [] else (if Full(a[0]) then [] else [a[0]]) + Survivors(a[1..])
  }

  /** The number of full rows. */
  ghost function FullCount(a: Matrix): nat {
    if a == [] then 0 else (if Full(a[0]) then 1 else 0) + FullCount(a[1..])
  }

  function Pow2(k: nat): (p: nat)
    ensures p >= 1
  {
    if k == 0 then 1 else 2 * Pow2(k - 1)
  }

  /**
   * What `arenaSweep` leaves: row 0 is examined only once some lower row has
   * been cleared, so with no full row below the top the arena stays as it
   * is; otherwise every full row is removed and as many zero rows are pushed
   * on top.
   */
  ghost function Swept(a: Matrix, w: nat): (s: Matrix)
    ensures |s| == |a|
  {
    SurvivorsLength(a);
    if a == [] || FullCount(a[1..]) == 0 then a else Zeros(w, FullCount(a)) + Survivors(a)
  }

  /** The points `arenaSweep` adds: 10, 20, 40, ... for successive rows. */
  ghost function SweepPoints(a: Matrix): nat {
    if a == [] || FullCount(a[1..]) == 0 then 0 else 10 * (Pow2(FullCount(a)) - 1)
  }

  lemma {:induction false} SurvivorsLength(a: Matrix)
    ensures |Survivors(a)| + FullCount(a) == |a|
  {
    if a != [] {
      SurvivorsLength(a[1..]);
    }
  }

  lemma {:induction false} SurvivorsRows(a: Matrix)
    ensures forall k :: 0 <= k < |Survivors(a)| ==> Survivors(a)[k] in a && !Full(Survivors(a)[k])
  {
    if a != [] {
      SurvivorsRows(a[1..]);
      var rest := Survivors(a[1..]);
      var head: Matrix := if Full(a[0]) then [] else [a[0]];
      assert Survivors(a) == head + rest;
      forall k | 0 <= k < |Survivors(a)|
        ensures Survivors(a)[k] in a && !Full(Survivors(a)[k])
      {
        if k < |head| {
          assert Survivors(a)[k] == a[0];
        } else {
          assert Survivors(a)[k] == rest[k - |head|];
          assert rest[k - |head|] in a[1..];
        }
      }
    }
  }

  lemma {:induction false} NoFullKeepsAll(a: Matrix)
    requires FullCount(a) == 0
    ensures Survivors(a) == a
  {
    if a != [] {
      NoFullKeepsAll(a[1..]);
    }
  }

  lemma {:induction false} NoFullRow(a: Matrix, k: int)
    requires FullCount(a) == 0 && 0 <= k < |a|
    ensures !Full(a[k])
  {
    if k > 0 {
      NoFullRow(a[1..], k - 1);
    }
  }

  lemma ZeroRowNotFull(w: nat)
    requires w > 0
    ensures !Full(ZeroRow(w))
  {
    assert ZeroRow(w)[0] == 0;
  }

  /** The sweep keeps the height and the width of a grid. */
  lemma SweptShape(a: Matrix, w: nat)
    requires IsGrid(a, w, |a|)
    ensures IsGrid(Swept(a, w), w, |a|)
  {
    if a != [] && FullCount(a[1..]) != 0 {
      SurvivorsLength(a);
      SurvivorsRows(a);
      var s := Swept(a, w);
      var z := Zeros(w, FullCount(a));
      forall r | 0 <= r < |s|
        ensures |s[r]| == w
      {
        if r >= |z| {
          assert s[r] == Survivors(a)[r - |z|];
        }
      }
    }
  }

  /** After the sweep, no row below the top is full. */
  lemma SweptNoFullBelowTop(a: Matrix, w: nat, y: int)
    requires w > 0 && IsGrid(a, w, |a|) && 1 <= y < |a|
    ensures !Full(Swept(a, w)[y])
  {
    if FullCount(a[1..]) == 0 {
      NoFullRow(a[1..], y - 1);
    } else {
      SurvivorsLength(a);
      SurvivorsRows(a);
      var z := Zeros(w, FullCount(a));
      if y < |z| {
        ZeroRowNotFull(w);
      } else {
        assert Swept(a, w)[y] == Survivors(a)[y - |z|];
      }
    }
  }

  /** Sweeping an arena that has just been swept changes nothing. */
  lemma SweptIdempotent(a: Matrix, w: nat)
    requires w > 0 && IsGrid(a, w, |a|)
    ensures Swept(Swept(a, w), w) == Swept(a, w)
    ensures SweepPoints(Swept(a, w)) == 0
  {
    var s := Swept(a, w);
    SweptShape(a, w);
    if s != [] {
      forall k | 0 <= k < |s[1..]|
        ensures !Full(s[1..][k])
      {
        SweptNoFullBelowTop(a, w, k + 1);
      }
      NoneFullCount(s[1..]);
    }
  }

  lemma {:induction false} NoneFullCount(a: Matrix)
    requires forall k :: 0 <= k < |a| ==> !Full(a[k])
    ensures FullCount(a) == 0
  {
    if a != [] {
      assert forall k :: 0 <= k < |a[1..]| ==> a[1..][k] == a[k + 1];
      NoneFullCount(a[1..]);
    }
  }

  /** A zero arena is left alone by the sweep. */
  lemma SweptZeros(w: nat, h: nat)
    requires w > 0
    ensures Swept(Zeros(w, h), w) == Zeros(w, h)
    ensures SweepPoints(Zeros(w, h)) == 0
  {
    var z := Zeros(w, h);
    if z != [] {
      ZeroRowNotFull(w);
      NoneFullCount(z[1..]);
    }
  }

  /**
   * The arena in the middle of the sweep loop: `c` zero rows pushed on top,
   * the `u` rows not yet examined, then the rows kept from those examined.
   */
  ghost function Sweeping(a0: Matrix, w: nat, c: nat, u: int): Matrix
    requires 0 <= u <= |a0|
  {
    Zeros(w, c) + a0[..u] + Survivors(a0[u..])
  }

  /** The row the sweep loop examines next is the lowest row not yet examined. */
  lemma SweepingAt(a0: Matrix, w: nat, u: int)
    requires 1 <= u <= |a0|
    ensures |Sweeping(a0, w, FullCount(a0[u..]), u)| == |a0|
    ensures Sweeping(a0, w, FullCount(a0[u..]), u)[FullCount(a0[u..]) + u - 1] == a0[u - 1]
  {
    SurvivorsLength(a0[u..]);
  }

  /** A row that is not full is kept: the loop moves on to the row above. */
  lemma SweepKeep(a0: Matrix, w: nat, u: int)
    requires 1 <= u <= |a0| && !Full(a0[u - 1])
    ensures FullCount(a0[u - 1..]) == FullCount(a0[u..])
    ensures Sweeping(a0, w, FullCount(a0[u..]), u) == Sweeping(a0, w, FullCount(a0[u - 1..]), u - 1)
  {
    assert a0[u - 1..][1..] == a0[u..];
    assert a0[..u] == a0[..u - 1] + [a0[u - 1]];
  }

  /** Taking a row out of the middle of `p + [m] + q`. */
  lemma SpliceOut(p: Matrix, m: seq<int>, q: Matrix)
    ensures var a := p + [m] + q;
            |a| == |p| + 1 + |q| && a[|p|] == m && a[..|p|] == p && a[|p| + 1..] == q
  {
    var a := p + [m] + q;
    assert a[..|p|] == p;
    assert a[|p| + 1..] == q;
  }

  /** A full row is spliced out, filled with zeros and pushed on top. */
  lemma SweepClear(a0: Matrix, w: nat, u: int)
    requires 1 <= u <= |a0| && Full(a0[u - 1]) && |a0[u - 1]| == w
    ensures FullCount(a0[u - 1..]) == FullCount(a0[u..]) + 1
    ensures var a := Sweeping(a0, w, FullCount(a0[u..]), u);
            var y := FullCount(a0[u..]) + u - 1;
            0 <= y < |a| &&
            [ZeroRow(|a[y]|)] + a[..y] + a[y + 1..] == Sweeping(a0, w, FullCount(a0[u - 1..]), u - 1)
  {
    var c := FullCount(a0[u..]);
    var rest := Survivors(a0[u..]);
    assert a0[u - 1..][1..] == a0[u..];
    assert Survivors(a0[u - 1..]) == rest;
    var p := Zeros(w, c) + a0[..u - 1];
    assert a0[..u] == a0[..u - 1] + [a0[u - 1]];
    assert Sweeping(a0, w, c, u) == p + [a0[u - 1]] + rest;
    SpliceOut(p, a0[u - 1], rest);
    assert [ZeroRow(w)] + Zeros(w, c) == Zeros(w, c + 1);
    assert [ZeroRow(w)] + p + rest == Zeros(w, c + 1) + a0[..u - 1] + rest;
  }

  /** Once every row has been examined, the rows above the survivors are zero rows. */
  lemma SweepZeroRow(a0: Matrix, w: nat, c: nat, y: int)
    requires w > 0 && 0 <= y < c
    ensures y < |Sweeping(a0, w, c, 0)| && !Full(Sweeping(a0, w, c, 0)[y])
  {
    ZeroRowNotFull(w);
  }

  /** Where the sweep loop stops: the arena is the one `Swept` describes. */
  lemma SweepDone(a0: Matrix, w: nat, c: nat, u: int)
    requires 0 <= u <= |a0| && c == FullCount(a0[u..])
    requires u > 0 ==> c + u <= 1
    requires u == 0 ==> a0 != [] && FullCount(a0[1..]) > 0
    ensures Sweeping(a0, w, c, u) == Swept(a0, w)
    ensures 10 * (Pow2(c) - 1) == SweepPoints(a0)
  {
    if u > 0 {
      NoFullKeepsAll(a0[1..]);
      assert a0[..1] + a0[1..] == a0;
    } else {
      assert a0[..0] == [] && a0[0..] == a0;
    }
  }

  /** One pass of the sweep loop: what it finds at row `y` and where that leaves the arena. */
  lemma SweepExamine(a0: Matrix, w: nat, c: nat, u: int, y: int)
    requires w > 0 && IsGrid(a0, w, |a0|)
    requires 0 <= u <= |a0| && c == FullCount(a0[u..]) && y > 0
    requires u > 0 ==> y == c + u - 1
    requires u == 0 ==> y < c
    ensures 0 <= y < |Sweeping(a0, w, c, u)|
    ensures var a := Sweeping(a0, w, c, u);
            Full(a[y]) ==> u > 0 && FullCount(a0[u - 1..]) == c + 1 &&
                           [ZeroRow(|a[y]|)] + a[..y] + a[y + 1..] == Sweeping(a0, w, c + 1, u - 1)
    ensures var a := Sweeping(a0, w, c, u);
            !Full(a[y]) && u > 0 ==> FullCount(a0[u - 1..]) == c && a == Sweeping(a0, w, c, u - 1)
  {
    if u > 0 {
      SweepingAt(a0, w, u);
      if Full(a0[u - 1]) {
        SweepClear(a0, w, u);
      } else {
        SweepKeep(a0, w, u);
      }
    } else {
      SweepZeroRow(a0, w, c, y);
    }
  }

  /** `InBounds` depends only on the shape of the arena. */
  lemma InBoundsShape(a: Matrix, b: Matrix, piece: Matrix, pos: Pos)
    requires |a| == |b| && forall r :: 0 <= r < |a| ==> |a[r]| == |b[r]|
    requires InBounds(a, piece, pos)
    ensures InBounds(b, piece, pos)
  {
  }

  // ------------------------------------------------------- spawn and kicks

  /** `playerReset`: y = 0 and x = floor(width / 2 - pieceWidth / 2). */
  function SpawnPos(w: int, piece: Matrix): Pos
    requires |piece| > 0
  {
    Pos((w - |piece[0]|) / 2, 0)
  }

  /** Every piece spawned on a 20 x 12 arena lies inside it, and fits when the arena is empty. */
  lemma SpawnFits(arena: Matrix, kind: PieceKind)
    requires IsGrid(arena, Width, Height)
    ensures InBounds(arena, CreatePiece(kind), SpawnPos(Width, CreatePiece(kind)))
    ensures IsZero(arena) ==> !Collides(arena, CreatePiece(kind), SpawnPos(Width, CreatePiece(kind)))
  {
    var p := CreatePiece(kind);
    var pos := SpawnPos(Width, p);
    assert |p[0]| == |p|;
    assert 4 <= pos.x && pos.x + |p| <= 8;
  }

  /**
   * The offset `playerRotate` holds after k kicks: it starts at 1 and each kick
   * turns it into `-(offset + sign(offset))`, giving 1, -2, 3, -4, ...
   */
  function KickStep(k: nat): int {
    if k == 0 then 1 else var o := KickStep(k - 1); -(o + (if o > 0 then 1 else -1))
  }

  /** The accumulated displacement after k kicks: 0, 1, -1, 2, -2, ... */
  function Kick(k: nat): int {
    if k == 0 then 0 else Kick(k - 1) + KickStep(k - 1)
  }

  /** The number of positions `playerRotate` tests on a piece of width n: the least even number >= n. */
  function Tries(n: nat): nat {
    if n == 0 then 0 else if n <= 2 then 2 else Tries(n - 2) + 2
  }

  lemma {:induction false} KickStepClosed(k: nat)
    ensures KickStep(k) == if k % 2 == 0 then k + 1 else -(k + 1)
  {
    if k > 0 {
      KickStepClosed(k - 1);
    }
  }

  /** Kicks alternate right and left, one column further each time on each side. */
  lemma {:induction false} KickClosed(k: nat)
    ensures Kick(k) == if k % 2 == 1 then (k + 1) / 2 else -(k / 2)
  {
    if k > 0 {
      KickClosed(k - 1);
      KickStepClosed(k - 1);
    }
  }

  lemma {:induction false} TriesClosed(n: nat)
    ensures Tries(n) == if n % 2 == 0 then n else n + 1
  {
    if n > 2 {
      TriesClosed(n - 2);
    }
  }

  /** The positions tested are pairwise distinct: the search never tests a position twice. */
  lemma KicksDistinct(j: nat, k: nat)
    requires j != k
    ensures Kick(j) != Kick(k)
  {
    KickClosed(j);
    KickClosed(k);
  }

  /**
   * One pass of the kick loop: the position moves by the current offset, the
   * offset becomes `-(offset + sign(offset))`, and the search gives up exactly
   * when the new offset exceeds the piece width, after `Tries(n)` positions.
   */
  lemma KickAdvance(k: nat, n: nat)
    requires k < Tries(n)
    ensures var o := KickStep(k);
            var o' := -(o + (if o > 0 then 1 else -1));
            o' == KickStep(k + 1) && Kick(k + 1) == Kick(k) + o && (o' > n <==> k + 1 == Tries(n))
  {
    KickStepClosed(k);
    KickStepClosed(k + 1);
    TriesClosed(n);
  }
}
