/** The sliding-window heuristic of projectmain.py (`evaluate`, lines 140-159).
    A positive score favours the computer (-1), a negative one the human (1). */
module Evaluation {
  import opened Grid

  /** `10**k`. */
  function Pow10(k: nat): (p: nat)
    ensures p >= 1
  {
    if k == 0 then 1 else 10 * Pow10(k - 1)
  }

  lemma {:induction false} Pow10Monotone(j: nat, k: nat)
    requires j <= k
    ensures Pow10(j) <= Pow10(k)
    decreases k
  {
    if j < k {
      Pow10Monotone(j, k - 1);
    }
  }

  /** `cells.count(x)`. */
  function Count(s: seq<int>, x: int): (n: nat)
    ensures n <= |s|
  {
    if s == [] then 0
    else Count(s[..|s| - 1], x) + (if s[|s| - 1] == x then 1 else 0)
  }

  /** The list `cells` built at lines 147-151 after the first i steps: the
      cells of the window from (r, c) along d that lie on the board. */
  function WindowCells(b: Board, r: int, c: int, d: Dir, i: int): seq<int>
    decreases i
  {
    if i <= 0 then []
    else WindowCells(b, r, c, d, i - 1) + (if OnBoardAt(b, r, c, d, i - 1) then [CellAt(b, r, c, d, i - 1)] else [])
  }

  /** What one window adds to the score (lines 152-158): nothing unless all
      n cells are on the board; 10^(k-1) + 10 for k computer pieces and no
      human one; minus that for k human pieces and no computer one. */
  function WindowScore(b: Board, r: int, c: int, d: Dir, n: int): int
  {
    WindowValue(WindowCells(b, r, c, d, n), n)
  }

  /** The scoring rule of lines 152-158 applied to a list of collected cells. */
  function WindowValue(cells: seq<int>, n: int): int
  {
    if |cells| == n then
      var h := Count(cells, Human);
      var a := Count(cells, Computer);
      if h == 0 && a > 0 then Pow10(a - 1) + 10
      else if a == 0 && h > 0 then -(Pow10(h - 1) + 10)
      else 0
    else 0
  }

  /** The windows of the first k directions from (r, c). */
  function DirScore(b: Board, r: int, c: int, k: nat, n: int): int
    requires k <= |Directions|
  {
    if k == 0 then 0 else DirScore(b, r, c, k - 1, n) + WindowScore(b, r, c, Directions[k - 1], n)
  }

  /** The windows starting at (r, c); an empty start cell is skipped (line 145). */
  function CellScore(b: Board, r: int, c: int, n: int): int
    requires InBounds(b, r, c)
  {
    if b[r][c] == Empty then 0 else DirScore(b, r, c, |Directions|, n)
  }

  /** The cells of row r left of column c. */
  function RowScore(b: Board, r: int, c: nat, n: int): int
    requires 0 <= r < |b| && c <= Cols(b)
  {
    if c == 0 then 0 else RowScore(b, r, c - 1, n) + CellScore(b, r, c - 1, n)
  }

  /** The rows above row r. */
  function RowsScore(b: Board, r: nat, n: int): int
    requires r <= |b|
  {
    if r == 0 then 0 else RowsScore(b, r - 1, n) + RowScore(b, r - 1, Cols(b), n)
  }

  /** The value `evaluate(board, win_len)` returns. */
  function Score(b: Board, n: int): int
  {
    RowsScore(b, |b|, n)
  }

  /** Lines 147-151: the window's cells from (r, c) along d that lie on
      the board, in order. */
  method CollectWindow(b: Board, r: int, c: int, d: Dir, n: int) returns (cells: seq<int>)
    ensures cells == WindowCells(b, r, c, d, n)
  {
    var rows, cols := |b|, |b[0]|;
    cells := [];
    var i := 0;
    while i < n
      invariant 0 <= i && (i <= n || i == 0)
      invariant cells == WindowCells(b, r, c, d, i)
    {
      var rr, cc := r + d.DR() * i, c + d.DC() * i;
      if 0 <= rr < rows && 0 <= cc < cols {
        cells := cells + [b[rr][cc]];
      }
      i := i + 1;
    }
  }

  /** The body of the direction loop, lines 147-158: collect the window's
      cells, then score them. */
  method ScoreWindow(b: Board, r: int, c: int, d: Dir, n: int) returns (delta: int)
    ensures delta == WindowScore(b, r, c, d, n)
  {
    var cells := CollectWindow(b, r, c, d, n);
    delta := 0;
    if |cells| == n {
      var h := Count(cells, Human);
      var a := Count(cells, Computer);
      if h == 0 && a > 0 {
        delta := Pow10(a - 1) + 10;
      } else if a == 0 && h > 0 {
        delta := -(Pow10(h - 1) + 10);
      }
    }
  }

  /** `evaluate` itself: the triple loop over rows, columns and directions. */
  method Evaluate(b: Board, n: int) returns (score: int)
    ensures score == Score(b, n)
  {
    score := 0;
    var rows, cols := |b|, |b[0]|;
    var r := 0;
    while r < rows
      invariant 0 <= r <= rows
      invariant score == RowsScore(b, r, n)
    {
      var c := 0;
      while c < cols
        invariant 0 <= c <= cols
        invariant score == RowsScore(b, r, n) + RowScore(b, r, c, n)
      {
        if b[r][c] != Empty {
          var k := 0;
          while k < |Directions|
            invariant 0 <= k <= |Directions|
            invariant score == RowsScore(b, r, n) + RowScore(b, r, c, n) + DirScore(b, r, c, k, n)
          {
            var delta := ScoreWindow(b, r, c, Directions[k], n);
            score := score + delta;
            k := k + 1;
          }
          assert DirScore(b, r, c, |Directions|, n) == CellScore(b, r, c, n);
        }
        c := c + 1;
      }
      r := r + 1;
    }
  }

  // ----- The window rule -----

  lemma {:induction false} CountPositiveIffIn(s: seq<int>, x: int)
    ensures Count(s, x) > 0 <==> x in s
    decreases |s|
  {
    if s != [] {
      var init := s[..|s| - 1];
      CountPositiveIffIn(init, x);
      assert s == init + [s[|s| - 1]];
    }
  }

  /** The collected cells of a window: at most one per step, and one for
      every step exactly when the whole line stays on the board. */
  lemma {:induction false} WindowCellsOnBoard(b: Board, r: int, c: int, d: Dir, i: nat)
    ensures |WindowCells(b, r, c, d, i)| <= i
    ensures |WindowCells(b, r, c, d, i)| == i <==> forall j :: 0 <= j < i ==> OnBoardAt(b, r, c, d, j)
    decreases i
  {
    if i > 0 {
      WindowCellsOnBoard(b, r, c, d, i - 1);
    }
  }

  /** A window that lies on the board collects its cells in the order of the steps. */
  lemma {:induction false} WindowCellsInOrder(b: Board, r: int, c: int, d: Dir, i: nat)
    requires forall j :: 0 <= j < i ==> OnBoardAt(b, r, c, d, j)
    ensures |WindowCells(b, r, c, d, i)| == i
    ensures forall j :: 0 <= j < i ==> WindowCells(b, r, c, d, i)[j] == CellAt(b, r, c, d, j)
    decreases i
  {
    if i > 0 {
      WindowCellsInOrder(b, r, c, d, i - 1);
      var prev, cur := WindowCells(b, r, c, d, i - 1), WindowCells(b, r, c, d, i);
      assert OnBoardAt(b, r, c, d, i - 1);
      assert cur == prev + [CellAt(b, r, c, d, i - 1)];
      forall j | 0 <= j < i
        ensures cur[j] == CellAt(b, r, c, d, j)
      {
        if j < i - 1 {
          assert cur[j] == prev[j];
        }
      }
    }
  }

  /** The scoring rule on a full-length window w: nothing if it holds pieces
      of both players or of neither, 10^(k-1) + 10 if it holds k computer
      pieces and no human one, and minus that if it holds k human pieces and
      no computer one. */
  lemma ScoringRule(w: seq<int>, n: int)
    requires |w| == n
    ensures Human in w && Computer in w ==> WindowValue(w, n) == 0
    ensures Human !in w && Computer !in w ==> WindowValue(w, n) == 0
    ensures Computer in w && Human !in w ==>
      Count(w, Computer) > 0 && WindowValue(w, n) == Pow10(Count(w, Computer) - 1) + 10
    ensures Human in w && Computer !in w ==>
      Count(w, Human) > 0 && WindowValue(w, n) == -(Pow10(Count(w, Human) - 1) + 10)
  {
    CountPositiveIffIn(w, Human);
    CountPositiveIffIn(w, Computer);
  }

  /** A window counts only if its start cell is occupied and all n of its
      cells lie on the board; its collected cells are then exactly the n
      cells of the line, in order, scored by ScoringRule. */
  lemma WindowRule(b: Board, r: int, c: int, d: Dir, n: nat)
    requires InBounds(b, r, c)
    ensures b[r][c] == Empty ==> CellScore(b, r, c, n) == 0
    ensures !(forall j :: 0 <= j < n ==> OnBoardAt(b, r, c, d, j)) ==> WindowScore(b, r, c, d, n) == 0
    ensures (forall j :: 0 <= j < n ==> OnBoardAt(b, r, c, d, j)) ==>
      var w := WindowCells(b, r, c, d, n);
      |w| == n && (forall j :: 0 <= j < n ==> w[j] == CellAt(b, r, c, d, j)) &&
      WindowScore(b, r, c, d, n) == WindowValue(w, n)
  {
    WindowCellsOnBoard(b, r, c, d, n);
    if forall j :: 0 <= j < n ==> OnBoardAt(b, r, c, d, j) {
      WindowCellsInOrder(b, r, c, d, n);
    }
  }

  // ----- Antisymmetry -----

  /** Every entry negated. */
  function NegateAll(s: seq<int>): (t: seq<int>)
    ensures |t| == |s| && forall j :: 0 <= j < |s| ==> t[j] == -s[j]
  {
    seq(|s|, j requires 0 <= j < |s| => -s[j])
  }

  lemma {:induction false} CountNegated(s: seq<int>, x: int)
    ensures Count(NegateAll(s), -x) == Count(s, x)
    decreases |s|
  {
    if s != [] {
      var init := s[..|s| - 1];
      CountNegated(init, x);
      assert NegateAll(s)[..|s| - 1] == NegateAll(init);
    }
  }

  lemma {:induction false} WindowCellsNegated(b: Board, r: int, c: int, d: Dir, i: int)
    ensures WindowCells(Negate(b), r, c, d, i) == NegateAll(WindowCells(b, r, c, d, i))
    decreases i
  {
    if i > 0 {
      WindowCellsNegated(b, r, c, d, i - 1);
    }
  }

  lemma WindowValueNegated(cells: seq<int>, n: int)
    ensures WindowValue(NegateAll(cells), n) == -WindowValue(cells, n)
  {
    CountNegated(cells, Human);
    CountNegated(cells, Computer);
  }

  lemma {:induction false} DirScoreNegated(b: Board, r: int, c: int, k: nat, n: int)
    requires k <= |Directions|
    ensures DirScore(Negate(b), r, c, k, n) == -DirScore(b, r, c, k, n)
    decreases k
  {
    if k > 0 {
      DirScoreNegated(b, r, c, k - 1, n);
      WindowCellsNegated(b, r, c, Directions[k - 1], n);
      WindowValueNegated(WindowCells(b, r, c, Directions[k - 1], n), n);
    }
  }

  lemma {:induction false} RowScoreNegated(b: Board, r: int, c: nat, n: int)
    requires 0 <= r < |b| && c <= Cols(b)
    ensures RowScore(Negate(b), r, c, n) == -RowScore(b, r, c, n)
    decreases c
  {
    if c > 0 {
      RowScoreNegated(b, r, c - 1, n);
      DirScoreNegated(b, r, c - 1, |Directions|, n);
    }
  }

  lemma {:induction false} RowsScoreNegated(b: Board, r: nat, n: int)
    requires r <= |b|
    ensures RowsScore(Negate(b), r, n) == -RowsScore(b, r, n)
    decreases r
  {
    if r > 0 {
      RowsScoreNegated(b, r - 1, n);
      RowScoreNegated(b, r - 1, Cols(b), n);
    }
  }

  /** Handing every piece to the other player negates the score: the
      evaluation favours neither side. */
  lemma ScoreAntisymmetric(b: Board, n: int)
    ensures Score(Negate(b), n) == -Score(b, n)
  {
    RowsScoreNegated(b, |b|, n);
  }

  // ----- The empty board -----

  predicate AllEmpty(b: Board)
  {
    forall r, c :: 0 <= r < |b| && 0 <= c < Cols(b) ==> b[r][c] == Empty
  }

  lemma {:induction false} RowScoreOfEmptyRow(b: Board, r: int, c: nat, n: int)
    requires AllEmpty(b) && 0 <= r < |b| && c <= Cols(b)
    ensures RowScore(b, r, c, n) == 0
    decreases c
  {
    if c > 0 {
      RowScoreOfEmptyRow(b, r, c - 1, n);
    }
  }

  lemma {:induction false} RowsScoreOfEmptyBoard(b: Board, r: nat, n: int)
    requires AllEmpty(b) && r <= |b|
    ensures RowsScore(b, r, n) == 0
    decreases r
  {
    if r > 0 {
      RowsScoreOfEmptyBoard(b, r - 1, n);
      RowScoreOfEmptyRow(b, r - 1, Cols(b), n);
    }
  }

  /** An empty board scores 0, whatever its size and the run length. */
  lemma EmptyBoardScoresZero(b: Board, n: int)
    requires AllEmpty(b)
    ensures Score(b, n) == 0
  {
    RowsScoreOfEmptyBoard(b, |b|, n);
  }

  // ----- Bounds -----

  function Abs(x: int): nat
  {
    if x < 0 then -x else x
  }

  /** The most one window can add or take away. */
  function WindowMax(n: int): nat
  {
    if n >= 1 then Pow10(n - 1) + 10 else 0
  }

  /** The most the whole board can score, either way. */
  function ScoreBound(b: Board, n: int): nat
  {
    |b| * Cols(b) * (|Directions| * WindowMax(n))
  }

  lemma WindowValueBounded(cells: seq<int>, n: int)
    ensures Abs(WindowValue(cells, n)) <= WindowMax(n)
  {
    if |cells| == n && n >= 1 {
      var h, a := Count(cells, Human), Count(cells, Computer);
      if a > 0 { Pow10Monotone(a - 1, n - 1); }
      if h > 0 { Pow10Monotone(h - 1, n - 1); }
    }
  }

  lemma AbsOfSum(x: int, y: int, p: int, q: int)
    requires Abs(x) <= p && Abs(y) <= q
    ensures Abs(x + y) <= p + q
  {
  }

  lemma {:induction false} DirScoreBounded(b: Board, r: int, c: int, k: nat, n: int)
    requires k <= |Directions|
    ensures Abs(DirScore(b, r, c, k, n)) <= k * WindowMax(n)
    decreases k
  {
    if k > 0 {
      var m := WindowMax(n);
      var prev, w := DirScore(b, r, c, k - 1, n), WindowScore(b, r, c, Directions[k - 1], n);
      DirScoreBounded(b, r, c, k - 1, n);
      WindowValueBounded(WindowCells(b, r, c, Directions[k - 1], n), n);
      AbsOfSum(prev, w, (k - 1) * m, m);
      assert k * m == (k - 1) * m + m;
    }
  }

  lemma {:induction false} RowScoreBounded(b: Board, r: int, c: nat, n: int)
    requires 0 <= r < |b| && c <= Cols(b)
    ensures Abs(RowScore(b, r, c, n)) <= c * (|Directions| * WindowMax(n))
    decreases c
  {
    if c > 0 {
      var m := |Directions| * WindowMax(n);
      RowScoreBounded(b, r, c - 1, n);
      DirScoreBounded(b, r, c - 1, |Directions|, n);
      AbsOfSum(RowScore(b, r, c - 1, n), CellScore(b, r, c - 1, n), (c - 1) * m, m);
      assert c * m == (c - 1) * m + m;
    }
  }

  lemma {:induction false} RowsScoreBounded(b: Board, r: nat, n: int)
    requires r <= |b|
    ensures Abs(RowsScore(b, r, n)) <= r * (Cols(b) * (|Directions| * WindowMax(n)))
    decreases r
  {
    if r > 0 {
      var m := Cols(b) * (|Directions| * WindowMax(n));
      RowsScoreBounded(b, r - 1, n);
      RowScoreBounded(b, r - 1, Cols(b), n);
      AbsOfSum(RowsScore(b, r - 1, n), RowScore(b, r - 1, Cols(b), n), (r - 1) * m, m);
      assert r * m == (r - 1) * m + m;
    }
  }

  /** No board scores more than ScoreBound either way: one window per cell
      and direction, each worth at most 10^(n-1) + 10. */
  lemma ScoreBounded(b: Board, n: int)
    ensures Abs(Score(b, n)) <= ScoreBound(b, n)
  {
    RowsScoreBounded(b, |b|, n);
    assert |b| * (Cols(b) * (|Directions| * WindowMax(n))) == ScoreBound(b, n);
  }
}
