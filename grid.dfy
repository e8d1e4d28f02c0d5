/** The Connect-Four board of projectmain.py: a rectangular list of rows,
    row 0 on top, each cell 0 (empty), 1 (the human) or -1 (the computer).
    The helpers here are shared by the win test, the move generator, the
    evaluator and the in-place drop. */
module Grid {

  datatype Option<T> = None | Some(value: T)

  /** The cell markers used throughout projectmain.py. */
  const Empty: int := 0
  const Human: int := 1
  const Computer: int := -1

  /** A board has at least one row (the source reads board[0]) and all rows
      as long as the first. */
  predicate IsGrid(b: seq<seq<int>>)
  {
    |b| > 0 && forall r :: 0 <= r < |b| ==> |b[r]| == |b[0]|
  }

  type Board = b: seq<seq<int>> | IsGrid(b) witness [[]]

  function Cols(b: Board): nat
  {
    |b[0]|
  }

  predicate InBounds(b: Board, r: int, c: int)
  {
    0 <= r < |b| && 0 <= c < Cols(b)
  }

  /** The direction list [(0,1),(1,0),(1,1),(-1,1)] of projectmain.py:122 and :146. */
  datatype Dir = Right | Down | DownRight | UpRight
  {
    /** Row step. Row 0 is the top, so UpRight decreases the row. */
    function DR(): int
    {
      match this
      case Right => 0
      case Down => 1
      case DownRight => 1
      case UpRight => -1
    }

    /** Column step. */
    function DC(): int
    {
      match this
      case Right => 1
      case Down => 0
      case DownRight => 1
      case UpRight => 1
    }
  }

  const Directions: seq<Dir> := [Right, Down, DownRight, UpRight]

  /** The i-th cell of the line from (r, c) along d lies on the board. */
  predicate OnBoardAt(b: Board, r: int, c: int, d: Dir, i: int)
  {
    InBounds(b, r + d.DR() * i, c + d.DC() * i)
  }

  /** The i-th cell of the line from (r, c) along d. */
  function CellAt(b: Board, r: int, c: int, d: Dir, i: int): int
    requires OnBoardAt(b, r, c, d, i)
  {
    b[r + d.DR() * i][c + d.DC() * i]
  }

  lemma EveryDirectionListed(d: Dir)
    ensures d in Directions
  {
  }

  /** Column c is on the board and still holds an empty cell somewhere. */
  predicate HasEmpty(b: Board, c: int)
  {
    0 <= c < Cols(b) && exists r :: 0 <= r < |b| && b[r][c] == Empty
  }

  /** Scanning upwards from row r, the first empty cell of column c. */
  function LowestEmptyAtOrAbove(b: Board, c: int, r: int): (e: nat)
    requires 0 <= c < Cols(b) && r < |b|
    requires exists k :: 0 <= k <= r && b[k][c] == Empty
    ensures e <= r && b[e][c] == Empty
    ensures forall k :: e < k <= r ==> b[k][c] != Empty
    decreases r
  {
    if b[r][c] == Empty then r
    else
      assert exists k :: 0 <= k <= r - 1 && b[k][c] == Empty;
      LowestEmptyAtOrAbove(b, c, r - 1)
  }

  /** The row a piece dropped into column c lands in: the lowest empty cell,
      as found by the bottom-up scans of projectmain.py:132-133 and :188. */
  function LowestEmpty(b: Board, c: int): (e: nat)
    requires HasEmpty(b, c)
    ensures e < |b| && b[e][c] == Empty
    ensures forall k :: e < k < |b| ==> b[k][c] != Empty
  {
    LowestEmptyAtOrAbove(b, c, |b| - 1)
  }

  /** An empty top cell is enough for a column to take a piece. */
  lemma OpenTopHasEmpty(b: Board, c: int)
    requires 0 <= c < Cols(b) && b[0][c] == Empty
    ensures HasEmpty(b, c)
  {
  }

  /** The board with pl written into the lowest empty cell of column c. */
  function Drop(b: Board, c: int, pl: int): (nb: Board)
    requires HasEmpty(b, c)
    ensures |nb| == |b| && Cols(nb) == Cols(b)
  {
    var e := LowestEmpty(b, c);
    var nb := b[e := b[e][c := pl]];
    assert forall r :: 0 <= r < |nb| ==> |nb[r]| == |nb[0]|;
    nb
  }

  /** A drop changes exactly one cell: the lowest empty cell of column c,
      which now holds pl. */
  lemma DropChangesOneCell(b: Board, c: int, pl: int)
    requires HasEmpty(b, c)
    ensures Drop(b, c, pl)[LowestEmpty(b, c)][c] == pl
    ensures forall r, k :: InBounds(b, r, k) && (r != LowestEmpty(b, c) || k != c) ==> Drop(b, c, pl)[r][k] == b[r][k]
  {
  }

  /** Gravity: no empty cell sits anywhere below an occupied one. */
  predicate Settled(b: Board)
  {
    forall r, r', c :: 0 <= r < r' < |b| && 0 <= c < Cols(b) && b[r][c] != Empty ==> b[r'][c] != Empty
  }

  /** Dropping into a column keeps a settled board settled: the new piece
      lands on an occupied cell or on the bottom row. */
  lemma DropKeepsSettled(b: Board, c: int, pl: int)
    requires Settled(b) && HasEmpty(b, c)
    ensures Settled(Drop(b, c, pl))
  {
    var nb, e := Drop(b, c, pl), LowestEmpty(b, c);
    DropChangesOneCell(b, c, pl);
    forall r, r', k | 0 <= r < r' < |nb| && 0 <= k < Cols(nb) && nb[r][k] != Empty
      ensures nb[r'][k] != Empty
    {
      if k == c && r' == e {
        // the cell above the landing row would be occupied over an empty one
        assert false;
      } else if k != c || r != e {
        assert nb[r][k] == b[r][k] && nb[r'][k] == b[r'][k];
      }
    }
  }

  /** Every cell negated: the human's pieces become the computer's and back. */
  function Negate(b: Board): (nb: Board)
    ensures |nb| == |b| && Cols(nb) == Cols(b)
    ensures forall r, c :: InBounds(b, r, c) ==> nb[r][c] == -b[r][c]
  {
    seq(|b|, r requires 0 <= r < |b| => seq(Cols(b), c requires 0 <= c < Cols(b) => -b[r][c]))
  }
}
