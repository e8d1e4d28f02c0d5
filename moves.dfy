/** Move generation of projectmain.py (`generate_moves`, lines 127-138). */
module Moves {
  import opened Grid
  import opened Rules

  /** One entry of the list `generate_moves` returns: a column and the copy
      of the board with the mover's piece dropped into it. */
  datatype Move = Move(col: int, board: Board)

  /** The moves found in the first k columns, left to right. */
  function MovesUpTo(b: Board, pl: int, k: nat): seq<Move>
    requires k <= Cols(b)
  {
    if k == 0 then []
    else if b[0][k - 1] == Empty then
      OpenTopHasEmpty(b, k - 1);
      MovesUpTo(b, pl, k - 1) + [Move(k - 1, Drop(b, k - 1, pl))]
    else MovesUpTo(b, pl, k - 1)
  }

  /** The moves of the first k columns are the columns whose top cell is
      empty, in ascending order, each with pl dropped there. */
  lemma {:induction false} MovesUpToSpec(b: Board, pl: int, k: nat)
    requires k <= Cols(b)
    ensures var ms := MovesUpTo(b, pl, k);
      |ms| <= k &&
      (forall j :: 0 <= j < |ms| ==>
        0 <= ms[j].col < k && b[0][ms[j].col] == Empty && HasEmpty(b, ms[j].col) &&
        ms[j].board == Drop(b, ms[j].col, pl)) &&
      (forall j, j' :: 0 <= j < j' < |ms| ==> ms[j].col < ms[j'].col) &&
      (forall c :: 0 <= c < k && b[0][c] == Empty ==> exists j :: 0 <= j < |ms| && ms[j].col == c)
  {
    if k > 0 {
      MovesUpToSpec(b, pl, k - 1);
      var ms := MovesUpTo(b, pl, k - 1);
      if b[0][k - 1] == Empty {
        var ms' := MovesUpTo(b, pl, k);
        assert ms' == ms + [Move(k - 1, Drop(b, k - 1, pl))];
        assert forall j :: 0 <= j < |ms| ==> ms'[j] == ms[j];
        assert ms'[|ms|].col == k - 1;
      }
    }
  }

  /** What `generate_moves(board, pl)` returns. */
  function LegalMoves(b: Board, pl: int): seq<Move>
  {
    MovesUpTo(b, pl, Cols(b))
  }

  /** The generated moves are exactly the columns whose top cell is empty,
      in ascending column order (so at most one per column), each paired
      with the board after pl drops a piece there. */
  lemma LegalMovesSpec(b: Board, pl: int)
    ensures var ms := LegalMoves(b, pl);
      |ms| <= Cols(b) &&
      (forall j :: 0 <= j < |ms| ==>
        0 <= ms[j].col < Cols(b) && b[0][ms[j].col] == Empty && HasEmpty(b, ms[j].col) &&
        ms[j].board == Drop(b, ms[j].col, pl)) &&
      (forall j, j' :: 0 <= j < j' < |ms| ==> ms[j].col < ms[j'].col) &&
      (forall c :: 0 <= c < Cols(b) && b[0][c] == Empty ==> exists j :: 0 <= j < |ms| && ms[j].col == c)
  {
    MovesUpToSpec(b, pl, Cols(b));
  }

  /** `generate_moves` itself: copies the board once per open column and
      writes pl into the lowest empty cell of the copy. */
  method GenerateMoves(b: Board, pl: int) returns (moves: seq<Move>)
    ensures moves == LegalMoves(b, pl)
  {
    var rows, cols := |b|, |b[0]|;
    moves := [];
    var c := 0;
    while c < cols
      invariant 0 <= c <= cols
      invariant moves == MovesUpTo(b, pl, c)
    {
      if b[0][c] == Empty {
        OpenTopHasEmpty(b, c);
        var r := rows - 1;
        while r >= 0
          invariant -1 <= r < rows
          invariant moves == MovesUpTo(b, pl, c)
          invariant forall k :: r < k < rows ==> b[k][c] != Empty
        {
          if b[r][c] == Empty {
            var nb := b[r := b[r][c := pl]];
            assert r == LowestEmpty(b, c);
            assert nb == Drop(b, c, pl);
            moves := moves + [Move(c, nb)];
            break;
          }
          r := r - 1;
        }
      }
      c := c + 1;
    }
  }

  /** `is_full` and `generate_moves` agree: the board is full exactly when
      no move is generated, for either player. */
  lemma FullIffNoMoves(b: Board, pl: int)
    ensures IsFull(b) <==> LegalMoves(b, pl) == []
  {
    var ms := LegalMoves(b, pl);
    LegalMovesSpec(b, pl);
    if ms != [] {
      // the first move's column is open, so the top row is not full
      assert 0 <= ms[0].col < Cols(b) && b[0][ms[0].col] == Empty;
    }
    if !IsFull(b) {
      var c :| 0 <= c < Cols(b) && b[0][c] == Empty;
      assert exists j :: 0 <= j < |ms| && ms[j].col == c;
    }
  }

  /** Each generated board differs from the input in exactly one cell: the
      lowest empty cell of the move's column, which now holds pl. */
  lemma MoveChangesOneCell(b: Board, pl: int, j: int)
    requires 0 <= j < |LegalMoves(b, pl)|
    ensures var m := LegalMoves(b, pl)[j];
      HasEmpty(b, m.col) &&
      var e := LowestEmpty(b, m.col);
      |m.board| == |b| && Cols(m.board) == Cols(b) &&
      b[e][m.col] == Empty && m.board[e][m.col] == pl &&
      (forall k :: e < k < |b| ==> b[k][m.col] != Empty) &&
      (forall r, c :: InBounds(b, r, c) && (r, c) != (e, m.col) ==> m.board[r][c] == b[r][c])
  {
    LegalMovesSpec(b, pl);
    DropChangesOneCell(b, LegalMoves(b, pl)[j].col, pl);
  }

  /** Moves keep gravity: from a settled board every generated board is settled. */
  lemma MovesKeepSettled(b: Board, pl: int, j: int)
    requires Settled(b) && 0 <= j < |LegalMoves(b, pl)|
    ensures Settled(LegalMoves(b, pl)[j].board)
  {
    LegalMovesSpec(b, pl);
    DropKeepsSettled(b, LegalMoves(b, pl)[j].col, pl);
  }
}
