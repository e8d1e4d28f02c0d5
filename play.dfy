/** The parts of `run_game` and `animate_drop` in projectmain.py that touch
    the game state: the in-place drop on the live board (lines 188 and 196),
    the computer's root search call (line 265) and the end-of-game test
    (lines 269-275). Drawing, sound and input handling are not modelled. */
module Play {
  import opened Grid
  import opened Rules
  import opened Moves
  import opened Evaluation
  import opened Search

  /** The run length the game is played with (line 244). */
  const WinLen: int := 4

  /** The board sizes offered by the menu (line 74), as (rows, columns). */
  const BoardOptions: seq<(int, int)> := [(6, 7), (7, 8), (8, 9)]

  /** The live board, read as a value. */
  function Snapshot(a: array2<int>): (b: Board)
    reads a
    requires a.Length0 > 0
    ensures |b| == a.Length0 && Cols(b) == a.Length1
    ensures forall r, c :: 0 <= r < a.Length0 && 0 <= c < a.Length1 ==> b[r][c] == a[r, c]
  {
    seq(a.Length0, r requires 0 <= r < a.Length0 reads a =>
      seq(a.Length1, c requires 0 <= c < a.Length1 reads a => a[r, c]))
  }

  /** The board write of `animate_drop`: find the lowest empty row of col,
      scanning from the bottom (line 188), and write pl there (line 196).
      The live board becomes exactly the board with pl dropped into col. */
  method AnimateDrop(board: array2<int>, pl: int, col: int)
    requires board.Length0 > 0 && 0 <= col < board.Length1
    requires exists r :: 0 <= r < board.Length0 && board[r, col] == Empty
    modifies board
    ensures Snapshot(board) == Drop(old(Snapshot(board)), col, pl)
  {
    ghost var b := Snapshot(board);
    var r := board.Length0 - 1;
    while board[r, col] != Empty
      invariant 0 <= r < board.Length0
      invariant forall k :: r < k < board.Length0 ==> board[k, col] != Empty
      invariant exists k :: 0 <= k <= r && board[k, col] == Empty
      decreases r
    {
      r := r - 1;
    }
    assert r == LowestEmpty(b, col);
    board[r, col] := pl;
    ghost var nb := Drop(b, col, pl);
    DropChangesOneCell(b, col, pl);
    assert Snapshot(board) == nb by {
      var s := Snapshot(board);
      forall i | 0 <= i < |s|
        ensures s[i] == nb[i]
      {
        assert |s[i]| == |nb[i]|;
      }
    }
  }

  /** The drop `animate_drop` performs on an open column gives the same board
      as the entry `generate_moves` offers for that column. */
  lemma DropIsGeneratedMove(b: Board, pl: int, col: int)
    requires 0 <= col < Cols(b) && b[0][col] == Empty
    ensures HasEmpty(b, col)
    ensures exists j :: 0 <= j < |LegalMoves(b, pl)| && LegalMoves(b, pl)[j] == Move(col, Drop(b, col, pl))
  {
    LegalMovesSpec(b, pl);
    var j :| 0 <= j < |LegalMoves(b, pl)| && LegalMoves(b, pl)[j].col == col;
    assert LegalMoves(b, pl)[j] == Move(col, Drop(b, col, pl));
  }

  /** The boards of the menu are small enough for the window (-1e9, 1e9):
      no evaluation reaches either end. */
  lemma MenuBoardsFitWindow(b: Board)
    requires (|b|, Cols(b)) in BoardOptions
    ensures ScoreBound(b, WinLen) < 1000000000
  {
    assert WindowMax(WinLen) == 1010;
  }

  /** The computer's turn (line 265): alpha_beta from the window (-1e9, 1e9)
      with the computer to move. On boards whose evaluations stay inside the
      window, pruning changes nothing: the score is the plain minimax value
      and the column is the leftmost one achieving it, or none at a cutoff. */
  method ComputerMove(b: Board, difficulty: nat) returns (score: int, col: Option<int>)
    requires ScoreBound(b, WinLen) < 1000000000
    ensures score == Minimax(b, difficulty, Computer, WinLen)
    ensures col == BestColumn(b, difficulty, Computer, WinLen)
  {
    score, col := AlphaBeta(b, difficulty, -1000000000, 1000000000, Computer, WinLen);
    MinimaxBounded(b, difficulty, Computer, WinLen);
  }

  /** The result shown when a game ends (lines 269-275). */
  datatype Outcome = Running | Win | Lose | Draw

  /** The end-of-game test: a human run first, then a computer run, then a
      full board; otherwise play goes on. */
  function Classify(b: Board, n: int): (o: Outcome)
    ensures o == Win <==> HasRun(b, Human, n)
    ensures o == Lose <==> HasRun(b, Computer, n) && !HasRun(b, Human, n)
    ensures o == Draw <==> IsFull(b) && !HasRun(b, Human, n) && !HasRun(b, Computer, n)
  {
    if IsWinner(b, Human, n) then Win
    else if IsWinner(b, Computer, n) then Lose
    else if IsFull(b) then Draw
    else Running
  }

  /** The game goes on exactly when a search with depth left does not stop at
      the root, and then the computer always has a column to play. */
  lemma RunningIffSearchContinues(b: Board, depth: nat, n: int)
    requires depth > 0
    ensures Classify(b, n) == Running <==> !Cutoff(b, depth, n)
    ensures Classify(b, n) == Running <==> BestColumn(b, depth, Computer, n).Some?
  {
  }
}
