/** Terminal tests of projectmain.py: `is_full` (lines 114-115) and
    `is_winner` (lines 117-125). */
module Rules {
  import opened Grid

  /** `is_full`: every cell of the top row is occupied. */
  predicate IsFull(b: Board)
  {
    forall c :: 0 <= c < Cols(b) ==> b[0][c] != Empty
  }

  /** On a settled board a full top row means a full board, which is why
      `is_full` looks at row 0 only. */
  lemma FullTopRowFillsBoard(b: Board)
    requires Settled(b) && IsFull(b)
    ensures forall r, c :: InBounds(b, r, c) ==> b[r][c] != Empty
  {
    forall r, c | InBounds(b, r, c)
      ensures b[r][c] != Empty
    {
      if r > 0 {
        assert b[0][c] != Empty;
      }
    }
  }

  /** The i-th cell of the run starting at (r, c) in direction d is on the
      board and owned by pl (one term of the `all(...)` at line 123). */
  predicate RunCell(b: Board, pl: int, r: int, c: int, d: Dir, i: int)
  {
    OnBoardAt(b, r, c, d, i) && CellAt(b, r, c, d, i) == pl
  }

  /** The `all(...)` of line 123: n cells from (r, c) along d, all on the board and pl's. */
  predicate RunFrom(b: Board, pl: int, r: int, c: int, d: Dir, n: int)
  {
    forall i :: 0 <= i < n ==> RunCell(b, pl, r, c, d, i)
  }

  /** The reference meaning of a win: some cell owned by pl starts a run of
      n of pl's cells in one of the four directions. */
  ghost predicate HasRun(b: Board, pl: int, n: int)
  {
    exists r, c, d :: InBounds(b, r, c) && b[r][c] == pl && RunFrom(b, pl, r, c, d, n)
  }

  /** The direction loop of line 122, from the k-th direction on. */
  function WinInDirs(b: Board, pl: int, n: int, r: int, c: int, k: nat): (w: bool)
    requires k <= |Directions|
    ensures w <==> exists d :: d in Directions[k..] && RunFrom(b, pl, r, c, d, n)
    decreases |Directions| - k
  {
    if k == |Directions| then false
    else if RunFrom(b, pl, r, c, Directions[k], n) then true
    else
      assert Directions[k..] == [Directions[k]] + Directions[k + 1..];
      WinInDirs(b, pl, n, r, c, k + 1)
  }

  /** The column loop of line 120 for row r, from column c on; cells that
      are not pl's are skipped (line 121). */
  function WinInRow(b: Board, pl: int, n: int, r: int, c: nat): (w: bool)
    requires 0 <= r < |b| && c <= Cols(b)
    ensures w <==> exists c', d :: c <= c' < Cols(b) && b[r][c'] == pl && RunFrom(b, pl, r, c', d, n)
    decreases Cols(b) - c
  {
    if c == Cols(b) then false
    else if b[r][c] == pl && WinInDirs(b, pl, n, r, c, 0) then true
    else
      assert b[r][c] == pl ==> forall d :: !RunFrom(b, pl, r, c, d, n) by {
        forall d ensures d in Directions[0..] { EveryDirectionListed(d); }
      }
      WinInRow(b, pl, n, r, c + 1)
  }

  /** The row loop of line 119, from row r on. */
  function WinInRows(b: Board, pl: int, n: int, r: nat): (w: bool)
    requires r <= |b|
    ensures w <==> exists r', c', d :: r <= r' < |b| && 0 <= c' < Cols(b) && b[r'][c'] == pl && RunFrom(b, pl, r', c', d, n)
    decreases |b| - r
  {
    if r == |b| then false
    else WinInRow(b, pl, n, r, 0) || WinInRows(b, pl, n, r + 1)
  }

  /** `is_winner`: true exactly when pl owns a run of n cells (the scan
      stops at the first one it finds). */
  function IsWinner(b: Board, pl: int, n: int): (w: bool)
    ensures w <==> HasRun(b, pl, n)
  {
    WinInRows(b, pl, n, 0)
  }

  /** A win depends only on which cells a player owns: if q owns every cell
      of b' that pl owns in b, a win of pl in b is a win of q in b'. */
  lemma {:induction false} WinFollowsOwnership(b: Board, pl: int, b': Board, q: int, n: int)
    requires |b'| == |b| && Cols(b') == Cols(b)
    requires forall r, c :: InBounds(b, r, c) && b[r][c] == pl ==> b'[r][c] == q
    ensures IsWinner(b, pl, n) ==> IsWinner(b', q, n)
  {
    if HasRun(b, pl, n) {
      var r, c, d :| InBounds(b, r, c) && b[r][c] == pl && RunFrom(b, pl, r, c, d, n);
      forall i | 0 <= i < n
        ensures RunCell(b', q, r, c, d, i)
      {
        assert RunCell(b, pl, r, c, d, i);
      }
      assert InBounds(b', r, c) && b'[r][c] == q && RunFrom(b', q, r, c, d, n);
    }
  }

  /** A piece dropped by pl never takes a win away from pl. */
  lemma DropKeepsOwnWin(b: Board, c: int, pl: int, n: int)
    requires HasEmpty(b, c)
    ensures IsWinner(b, pl, n) ==> IsWinner(Drop(b, c, pl), pl, n)
  {
    DropChangesOneCell(b, c, pl);
    WinFollowsOwnership(b, pl, Drop(b, c, pl), pl, n);
  }

  /** A piece dropped by pl neither creates nor removes a win of any other
      player q: the landing cell was empty and becomes pl's, never q's. */
  lemma DropKeepsOtherWins(b: Board, c: int, pl: int, q: int, n: int)
    requires HasEmpty(b, c) && q != pl && q != Empty
    ensures IsWinner(Drop(b, c, pl), q, n) == IsWinner(b, q, n)
  {
    var nb := Drop(b, c, pl);
    DropChangesOneCell(b, c, pl);
    WinFollowsOwnership(b, q, nb, q, n);
    WinFollowsOwnership(nb, q, b, q, n);
  }

  /** Swapping every piece's owner swaps the winners. */
  lemma NegateSwapsWinner(b: Board, pl: int, n: int)
    ensures IsWinner(Negate(b), -pl, n) == IsWinner(b, pl, n)
  {
    var nb := Negate(b);
    WinFollowsOwnership(b, pl, nb, -pl, n);
    WinFollowsOwnership(nb, -pl, b, pl, n);
  }
}
