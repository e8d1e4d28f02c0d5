/** The computer's search of projectmain.py (`alpha_beta`, lines 161-181):
    depth-bounded minimax with alpha-beta pruning, the computer (-1)
    maximising and the human (1) minimising. Plain minimax over the same
    moves is its specification. */
module Search {
  import opened Grid
  import opened Rules
  import opened Moves
  import opened Evaluation

  /** The stop test of line 162: someone has won, the board is full, or
      the depth budget is spent. */
  predicate Cutoff(b: Board, depth: nat, n: int)
  {
    IsWinner(b, Human, n) || IsWinner(b, Computer, n) || IsFull(b) || depth == 0
  }

  /** The piece the player to move drops: the branch of line 164 is taken
      for -1 only, every other value plays 1 (line 175). */
  function Mover(pl: int): int
  {
    if pl == Computer then Computer else Human
  }

  /** The player passed to the recursive calls of lines 167 and 176. */
  function Opponent(pl: int): int
  {
    if pl == Computer then Human else Computer
  }

  function Max(x: int, y: int): int
  {
    if x >= y then x else y
  }

  function Min(x: int, y: int): int
  {
    if x <= y then x else y
  }

  /** The largest element. */
  function SeqMax(s: seq<int>): (m: int)
    requires |s| > 0
    ensures m in s && forall j :: 0 <= j < |s| ==> s[j] <= m
  {
    if |s| == 1 then s[0] else Max(SeqMax(s[..|s| - 1]), s[|s| - 1])
  }

  /** The smallest element. */
  function SeqMin(s: seq<int>): (m: int)
    requires |s| > 0
    ensures m in s && forall j :: 0 <= j < |s| ==> m <= s[j]
  {
    if |s| == 1 then s[0] else Min(SeqMin(s[..|s| - 1]), s[|s| - 1])
  }

  /** The first position of x in s. */
  function FirstIndex(s: seq<int>, x: int): (i: nat)
    requires x in s
    ensures i < |s| && s[i] == x && forall j :: 0 <= j < i ==> s[j] != x
  {
    if s[0] == x then 0 else 1 + FirstIndex(s[1..], x)
  }

  /** Plain depth-limited minimax of `evaluate`, with no pruning: the value
      of the position for the player to move. */
  function Minimax(b: Board, depth: nat, pl: int, n: int): int
    decreases depth, 2, 0
  {
    if Cutoff(b, depth, n) then Score(b, n)
    else
      var vals := ChildValues(b, depth, pl, n);
      if pl == Computer then SeqMax(vals) else SeqMin(vals)
  }

  /** The minimax values of the generated moves, in column order. */
  function ChildValues(b: Board, depth: nat, pl: int, n: int): (vals: seq<int>)
    requires !Cutoff(b, depth, n)
    ensures |vals| == |LegalMoves(b, Mover(pl))| > 0
    decreases depth, 1, 0
  {
    FullIffNoMoves(b, Mover(pl));
    ValuesOf(LegalMoves(b, Mover(pl)), depth - 1, Opponent(pl), n)
  }

  /** The minimax values of the given moves' boards, in order. */
  function ValuesOf(ms: seq<Move>, depth: nat, pl: int, n: int): (vals: seq<int>)
    ensures |vals| == |ms|
    decreases depth + 1, 0, |ms|
  {
    if ms == [] then []
    else [Minimax(ms[0].board, depth, pl, n)] + ValuesOf(ms[1..], depth, pl, n)
  }

  lemma {:induction false} ValuesOfAt(ms: seq<Move>, depth: nat, pl: int, n: int, i: int)
    requires 0 <= i < |ms|
    ensures ValuesOf(ms, depth, pl, n)[i] == Minimax(ms[i].board, depth, pl, n)
    decreases i
  {
    if i > 0 {
      ValuesOfAt(ms[1..], depth, pl, n, i - 1);
    }
  }

  /** The i-th child value is the minimax value of the i-th generated board. */
  lemma ChildValueAt(b: Board, depth: nat, pl: int, n: int, i: int)
    requires !Cutoff(b, depth, n) && 0 <= i < |LegalMoves(b, Mover(pl))|
    ensures ChildValues(b, depth, pl, n)[i] == Minimax(LegalMoves(b, Mover(pl))[i].board, depth - 1, Opponent(pl), n)
  {
    ValuesOfAt(LegalMoves(b, Mover(pl)), depth - 1, Opponent(pl), n, i);
  }

  /** The column the search should pick: none at a cutoff, otherwise the
      column of the first child whose value is the minimax value. */
  function BestColumn(b: Board, depth: nat, pl: int, n: int): (col: Option<int>)
    ensures col.None? <==> Cutoff(b, depth, n)
    ensures col.Some? ==> 0 <= col.value < Cols(b) && b[0][col.value] == Empty
  {
    if Cutoff(b, depth, n) then None
    else
      var ms, vals := LegalMoves(b, Mover(pl)), ChildValues(b, depth, pl, n);
      var j := FirstIndex(vals, Minimax(b, depth, pl, n));
      LegalMovesSpec(b, Mover(pl));
      Some(ms[j].col)
  }

  /** The chosen column is the leftmost generated column whose child reaches
      the minimax value: the comparisons of lines 168 and 177 are strict, so
      a later column with an equal value never displaces it. */
  lemma BestColumnIsLeftmostBest(b: Board, depth: nat, pl: int, n: int)
    requires !Cutoff(b, depth, n)
    ensures var col, ms, vals := BestColumn(b, depth, pl, n), LegalMoves(b, Mover(pl)), ChildValues(b, depth, pl, n);
      col.Some? &&
      exists j :: 0 <= j < |ms| && ms[j].col == col.value &&
        vals[j] == Minimax(b, depth, pl, n) &&
        forall j' :: 0 <= j' < j ==> ms[j'].col < col.value && vals[j'] != Minimax(b, depth, pl, n)
  {
    var ms, vals := LegalMoves(b, Mover(pl)), ChildValues(b, depth, pl, n);
    LegalMovesSpec(b, Mover(pl));
    var j := FirstIndex(vals, Minimax(b, depth, pl, n));
    assert ms[j].col == BestColumn(b, depth, pl, n).value;
  }

  /** The fail-soft alpha-beta guarantee: a result strictly inside the window
      (alpha, beta) is the true value v; one at or below alpha is an upper
      bound on v; one at or above beta is a lower bound on v. */
  predicate FailSoft(r: int, alpha: int, beta: int, v: int)
  {
    (alpha < r < beta ==> r == v) && (r <= alpha ==> v <= r) && (beta <= r ==> r <= v)
  }

  lemma PrefixOne(s: seq<int>)
    requires |s| > 0
    ensures SeqMax(s[..1]) == s[0] && SeqMin(s[..1]) == s[0] && FirstIndex(s[..1], s[0]) == 0
  {
    assert s[..1] == [s[0]];
  }

  lemma SeqMaxSnoc(s: seq<int>, i: nat)
    requires 0 < i < |s|
    ensures SeqMax(s[..i + 1]) == Max(SeqMax(s[..i]), s[i])
  {
    assert s[..i + 1][..i] == s[..i];
  }

  lemma SeqMinSnoc(s: seq<int>, i: nat)
    requires 0 < i < |s|
    ensures SeqMin(s[..i + 1]) == Min(SeqMin(s[..i]), s[i])
  {
    assert s[..i + 1][..i] == s[..i];
  }

  lemma FirstIndexSnocOld(s: seq<int>, i: nat, x: int)
    requires i < |s| && x in s[..i]
    ensures FirstIndex(s[..i + 1], x) == FirstIndex(s[..i], x)
  {
    var f, f' := FirstIndex(s[..i], x), FirstIndex(s[..i + 1], x);
    assert s[..i + 1][f] == x;
    assert f' <= f;
    assert s[..i][f'] == x;
  }

  lemma FirstIndexSnocNew(s: seq<int>, i: nat, x: int)
    requires i < |s| && x !in s[..i] && s[i] == x
    ensures FirstIndex(s[..i + 1], x) == i
  {
    assert s[..i + 1][i] == x;
    assert forall j :: 0 <= j < i ==> s[..i + 1][j] == s[..i][j];
  }

  /** What the maximising loop (lines 166-171) knows after the first i
      moves: alpha has risen to the best value seen; a best value above the
      original alpha is the exact maximum so far, first reached at idx; one
      at or below it bounds the maximum so far from above. */
  ghost predicate MaxProgress(alpha: int, vals: seq<int>, i: nat, best: int, idx: nat, a: int)
  {
    0 < i <= |vals| && idx < i && a == Max(alpha, best) &&
    (best <= alpha ==> SeqMax(vals[..i]) <= best) &&
    (best > alpha ==> best == SeqMax(vals[..i]) && idx == FirstIndex(vals[..i], best))
  }

  /** One turn of the maximising loop keeps MaxProgress, and a cut-off
      (beta <= alpha) leaves a best value that is a lower bound on the maximum. */
  lemma MaxStep(alpha: int, beta: int, vals: seq<int>, i: nat, best: int, idx: nat, a: int, val: int)
    requires alpha < beta && i < |vals|
    requires if i == 0 then a == alpha else MaxProgress(alpha, vals, i, best, idx, a) && a < beta
    requires FailSoft(val, a, beta, vals[i])
    ensures var take := i == 0 || val > best;
      var best', idx', a' := if take then val else best, if take then i else idx, Max(a, val);
      (a' < beta ==> MaxProgress(alpha, vals, i + 1, best', idx', a')) &&
      (beta <= a' ==> beta <= best' <= SeqMax(vals))
  {
    var take := i == 0 || val > best;
    var best', idx', a' := if take then val else best, if take then i else idx, Max(a, val);
    if i == 0 {
      PrefixOne(vals);
    } else {
      SeqMaxSnoc(vals, i);
      if a' < beta && best' > alpha {
        if idx' == i {
          FirstIndexSnocNew(vals, i, best');
        } else {
          FirstIndexSnocOld(vals, i, best');
        }
      }
    }
  }

  /** What the maximising loop leaves behind, read at the node. After all
      moves, MaxProgress holds over every child; after a cut-off, the best
      value lies between beta and the largest child value. Either way the
      best value is a fail-soft answer and, inside the window, its column is
      the chosen one. */
  lemma MaxOutcome(b: Board, depth: nat, n: int, alpha: int, beta: int, best: int, idx: nat, a: int, finished: bool)
    requires !Cutoff(b, depth, n) && idx < |LegalMoves(b, Computer)|
    requires alpha < beta && finished ==>
      MaxProgress(alpha, ChildValues(b, depth, Computer, n), |LegalMoves(b, Computer)|, best, idx, a)
    requires alpha < beta && !finished ==> beta <= best <= SeqMax(ChildValues(b, depth, Computer, n))
    ensures 0 <= LegalMoves(b, Computer)[idx].col < Cols(b) && b[0][LegalMoves(b, Computer)[idx].col] == Empty
    ensures alpha < beta ==> FailSoft(best, alpha, beta, Minimax(b, depth, Computer, n))
    ensures alpha < best < beta ==> Some(LegalMoves(b, Computer)[idx].col) == BestColumn(b, depth, Computer, n)
  {
    var vals := ChildValues(b, depth, Computer, n);
    LegalMovesSpec(b, Computer);
    if alpha < beta && finished {
      assert vals[..|vals|] == vals;
    }
  }

  /** The mirror image of MaxProgress for the minimising loop (lines 175-180). */
  ghost predicate MinProgress(beta: int, vals: seq<int>, i: nat, best: int, idx: nat, bt: int)
  {
    0 < i <= |vals| && idx < i && bt == Min(beta, best) &&
    (best >= beta ==> SeqMin(vals[..i]) >= best) &&
    (best < beta ==> best == SeqMin(vals[..i]) && idx == FirstIndex(vals[..i], best))
  }

  lemma MinStep(alpha: int, beta: int, vals: seq<int>, i: nat, best: int, idx: nat, bt: int, val: int)
    requires alpha < beta && i < |vals|
    requires if i == 0 then bt == beta else MinProgress(beta, vals, i, best, idx, bt) && alpha < bt
    requires FailSoft(val, alpha, bt, vals[i])
    ensures var take := i == 0 || val < best;
      var best', idx', bt' := if take then val else best, if take then i else idx, Min(bt, val);
      (alpha < bt' ==> MinProgress(beta, vals, i + 1, best', idx', bt')) &&
      (bt' <= alpha ==> SeqMin(vals) <= best' <= alpha)
  {
    var take := i == 0 || val < best;
    var best', idx', bt' := if take then val else best, if take then i else idx, Min(bt, val);
    if i == 0 {
      PrefixOne(vals);
    } else {
      SeqMinSnoc(vals, i);
      if alpha < bt' && best' < beta {
        if idx' == i {
          FirstIndexSnocNew(vals, i, best');
        } else {
          FirstIndexSnocOld(vals, i, best');
        }
      }
    }
  }

  /** The mirror image of MaxOutcome: a cut-off leaves a best value between
      the smallest child value and alpha. */
  lemma MinOutcome(b: Board, depth: nat, n: int, alpha: int, beta: int, best: int, idx: nat, bt: int, finished: bool)
    requires !Cutoff(b, depth, n) && idx < |LegalMoves(b, Human)|
    requires alpha < beta && finished ==>
      MinProgress(beta, ChildValues(b, depth, Human, n), |LegalMoves(b, Human)|, best, idx, bt)
    requires alpha < beta && !finished ==> SeqMin(ChildValues(b, depth, Human, n)) <= best <= alpha
    ensures 0 <= LegalMoves(b, Human)[idx].col < Cols(b) && b[0][LegalMoves(b, Human)[idx].col] == Empty
    ensures alpha < beta ==> FailSoft(best, alpha, beta, Minimax(b, depth, Human, n))
    ensures alpha < best < beta ==> Some(LegalMoves(b, Human)[idx].col) == BestColumn(b, depth, Human, n)
  {
    var vals := ChildValues(b, depth, Human, n);
    LegalMovesSpec(b, Human);
    if alpha < beta && finished {
      assert vals[..|vals|] == vals;
    }
  }

  /** Any player code other than -1 takes the minimising branch and plays 1,
      so it searches exactly as the human does. */
  lemma OtherPlayerSearchesAsHuman(b: Board, depth: nat, pl: int, n: int)
    requires pl != Computer
    ensures Minimax(b, depth, pl, n) == Minimax(b, depth, Human, n)
    ensures BestColumn(b, depth, pl, n) == BestColumn(b, depth, Human, n)
  {
  }

  /** `alpha_beta`. At a cutoff it returns the evaluation and no column.
      Otherwise it returns a playable column, and its score is related to
      plain minimax by the fail-soft guarantee; whenever the score falls
      strictly inside the window it is the minimax value and the column is
      the leftmost best one. The board is a value: the search cannot change it. */
  method AlphaBeta(b: Board, depth: nat, alpha: int, beta: int, pl: int, n: int)
      returns (score: int, col: Option<int>)
    ensures Cutoff(b, depth, n) ==> score == Score(b, n) && col == None
    ensures !Cutoff(b, depth, n) ==> col.Some? && 0 <= col.value < Cols(b) && b[0][col.value] == Empty
    ensures alpha < beta ==> FailSoft(score, alpha, beta, Minimax(b, depth, pl, n))
    ensures alpha < score < beta ==> score == Minimax(b, depth, pl, n) && col == BestColumn(b, depth, pl, n)
    decreases depth, 2
  {
    if IsWinner(b, Human, n) || IsWinner(b, Computer, n) || IsFull(b) || depth == 0 {
      score := Evaluate(b, n);
      return score, None;
    }
    if pl == Computer {
      score, col := MaximisingTurn(b, depth, alpha, beta, n);
    } else {
      score, col := MinimisingTurn(b, depth, alpha, beta, n);
      OtherPlayerSearchesAsHuman(b, depth, pl, n);
    }
  }

  /** The recursive call of lines 167 and 176 on the i-th child, with the
      opponent to move and one level less: its score is a fail-soft answer
      for that child's minimax value. */
  method SearchChild(b: Board, depth: nat, pl: int, n: int, i: int, child: Board, alpha: int, beta: int)
      returns (val: int)
    requires !Cutoff(b, depth, n) && 0 <= i < |LegalMoves(b, Mover(pl))|
    requires child == LegalMoves(b, Mover(pl))[i].board
    ensures alpha < beta ==> FailSoft(val, alpha, beta, ChildValues(b, depth, pl, n)[i])
    decreases depth, 0
  {
    ChildValueAt(b, depth, pl, n, i);
    var childCol;
    val, childCol := AlphaBeta(child, depth - 1, alpha, beta, Opponent(pl), n);
  }

  /** The maximising branch of `alpha_beta` (lines 164-172): the computer
      tries its moves left to right, raising alpha, and stops once
      beta <= alpha. */
  method MaximisingTurn(b: Board, depth: nat, alpha: int, beta: int, n: int)
      returns (score: int, col: Option<int>)
    requires !Cutoff(b, depth, n)
    ensures col.Some? && 0 <= col.value < Cols(b) && b[0][col.value] == Empty
    ensures alpha < beta ==> FailSoft(score, alpha, beta, Minimax(b, depth, Computer, n))
    ensures alpha < score < beta ==> col == BestColumn(b, depth, Computer, n)
    decreases depth, 1
  {
    ghost var vals := ChildValues(b, depth, Computer, n);
    // best stands for minus infinity while bestCol is None
    var best, bestCol: Option<int> := 0, None;
    ghost var bestIdx: nat := 0;
    var alpha' := alpha;
    var moves := GenerateMoves(b, Computer);
    var i := 0;
    while i < |moves|
      invariant 0 <= i <= |moves| == |vals|
      invariant i == 0 ==> bestCol.None? && alpha' == alpha
      invariant i > 0 ==> bestIdx < i && bestCol == Some(moves[bestIdx].col)
      invariant alpha < beta && i > 0 ==> MaxProgress(alpha, vals, i, best, bestIdx, alpha') && alpha' < beta
    {
      var val := SearchChild(b, depth, Computer, n, i, moves[i].board, alpha', beta);
      if alpha < beta {
        MaxStep(alpha, beta, vals, i, best, bestIdx, alpha', val);
      }
      if bestCol.None? || val > best {
        best, bestCol := val, Some(moves[i].col);
        bestIdx := i;
      }
      alpha' := Max(alpha', val);
      if beta <= alpha' {
        break;
      }
      i := i + 1;
    }
    MaxOutcome(b, depth, n, alpha, beta, best, bestIdx, alpha', i == |moves|);
    score, col := best, bestCol;
  }

  /** The minimising branch of `alpha_beta` (lines 173-181): the human
      tries its moves left to right, lowering beta, and stops once
      beta <= alpha. */
  method MinimisingTurn(b: Board, depth: nat, alpha: int, beta: int, n: int)
      returns (score: int, col: Option<int>)
    requires !Cutoff(b, depth, n)
    ensures col.Some? && 0 <= col.value < Cols(b) && b[0][col.value] == Empty
    ensures alpha < beta ==> FailSoft(score, alpha, beta, Minimax(b, depth, Human, n))
    ensures alpha < score < beta ==> col == BestColumn(b, depth, Human, n)
    decreases depth, 1
  {
    ghost var vals := ChildValues(b, depth, Human, n);
    // best stands for plus infinity while bestCol is None
    var best, bestCol: Option<int> := 0, None;
    ghost var bestIdx: nat := 0;
    var beta' := beta;
    var moves := GenerateMoves(b, Human);
    var i := 0;
    while i < |moves|
      invariant 0 <= i <= |moves| == |vals|
      invariant i == 0 ==> bestCol.None? && beta' == beta
      invariant i > 0 ==> bestIdx < i && bestCol == Some(moves[bestIdx].col)
      invariant alpha < beta && i > 0 ==> MinProgress(beta, vals, i, best, bestIdx, beta') && alpha < beta'
    {
      var val := SearchChild(b, depth, Human, n, i, moves[i].board, alpha, beta');
      if alpha < beta {
        MinStep(alpha, beta, vals, i, best, bestIdx, beta', val);
      }
      if bestCol.None? || val < best {
        best, bestCol := val, Some(moves[i].col);
        bestIdx := i;
      }
      beta' := Min(beta', val);
      if beta' <= alpha {
        break;
      }
      i := i + 1;
    }
    MinOutcome(b, depth, n, alpha, beta, best, bestIdx, beta', i == |moves|);
    score, col := best, bestCol;
  }

  /** Minimax values are leaf evaluations, so they obey the evaluation's bound. */
  lemma {:induction false} MinimaxBounded(b: Board, depth: nat, pl: int, n: int)
    ensures Abs(Minimax(b, depth, pl, n)) <= ScoreBound(b, n)
    decreases depth
  {
    if Cutoff(b, depth, n) {
      ScoreBounded(b, n);
    } else {
      var ms, vals := LegalMoves(b, Mover(pl)), ChildValues(b, depth, pl, n);
      LegalMovesSpec(b, Mover(pl));
      forall j | 0 <= j < |vals|
        ensures Abs(vals[j]) <= ScoreBound(b, n)
      {
        ChildValueAt(b, depth, pl, n, j);
        MinimaxBounded(ms[j].board, depth - 1, Opponent(pl), n);
      }
    }
  }
}
