/** The move search: a depth-limited minimax written in the sign-flipping
    ("mult") style, with optional alpha-beta pruning, and the choice of a
    column at the root. Search and Scan follow the search step by step; Value
    and Best are an independent reference, plain fixed-perspective minimax
    without bounds, against which the search is proved. */
module Negamax {
  import opened Board
  import opened Evaluation

  /** The external win detector: does the disc just dropped into the given
      column complete four in a row? Its definition is not part of this model. */
  type WinTest = (Rack, int) -> bool

  /** What a search depends on besides the rack and the pruning switch: the
      searching player's number, the horizon, and the win detector. */
  datatype Engine = Engine(id: int, maxDepth: int, findWin: WinTest)

  predicate IsPlayer(id: int) {
    id == 1 || id == 2
  }

  /** The player who moves at a node: the searching player at a max node
      (mult == 1), the other player at a min node. */
  function Mover(id: int, mult: int): (p: int)
    ensures IsPlayer(id) ==> IsPlayer(p) && (p == id <==> mult == 1)
  {
    if mult == 1 then id else 3 - id
  }

  function Max(a: int, b: int): int {
    if a >= b then a else b
  }

  function Min(a: int, b: int): int {
    if a <= b then a else b
  }

  // ---------------------------------------------------------------------------
  // The search as the program performs it.

  /** The score of a node: the static value at the horizon, otherwise mult
      times the best mult-adjusted child score. Below the horizon a max node
      scores at least -INFINITY and a min node at most INFINITY, and a node
      whose every column is full scores exactly that. */
  function Search(e: Engine, prune: bool, rack: Rack, mult: int, depth: int, alpha: int, beta: int): (r: int)
    requires IsRack(rack)
    ensures depth < e.maxDepth && mult == 1 ==> r >= -INFINITY
    ensures depth < e.maxDepth && mult == -1 ==> r <= INFINITY
    decreases e.maxDepth - depth, |rack| + 1
  {
    if depth >= e.maxDepth then Eval(e.id, rack)
    else mult * Scan(e, prune, rack, mult, depth, 0, alpha, beta, -INFINITY)
  }

  /** The mult-adjusted score of the legal move into column c: the disc of
      the side to move is dropped; a move the win detector reports as winning
      is scored by the static value without searching deeper, any other by
      the child node one ply deeper with the same bounds. On the last ply
      before the horizon every move, winning or not, is scored statically. */
  function Score(e: Engine, prune: bool, rack: Rack, mult: int, depth: int, c: int, alpha: int, beta: int): (r: int)
    requires IsRack(rack) && depth < e.maxDepth && 0 <= c < |rack|
    ensures depth + 1 >= e.maxDepth ==> r == mult * Eval(e.id, Drop(rack, c, Mover(e.id, mult)))
    decreases e.maxDepth - depth, 0
  {
    var child := Drop(rack, c, Mover(e.id, mult));
    if e.findWin(child, c) then mult * Eval(e.id, child)
    else mult * Search(e, prune, child, -mult, depth + 1, alpha, beta)
  }

  /** The loop over the columns of a node from column c on, with the current
      bounds and the best mult-adjusted score so far; returns the final best.
      A full column is skipped. With pruning, a max node raises alpha and stops
      at a score >= beta; a min node lowers beta and stops at a score whose
      negation is <= alpha. The result never falls below the best so far, and
      when every remaining column is full it is that best. */
  function Scan(e: Engine, prune: bool, rack: Rack, mult: int, depth: int, c: int,
                alpha: int, beta: int, best: int): (r: int)
    requires IsRack(rack) && depth < e.maxDepth && 0 <= c <= |rack|
    ensures r >= best
    decreases e.maxDepth - depth, |rack| - c
  {
    if c == |rack| then best
    else if Full(rack[c]) then Scan(e, prune, rack, mult, depth, c + 1, alpha, beta, best)
    else
      var score := Score(e, prune, rack, mult, depth, c, alpha, beta);
      var best' := if score > best then score else best;
      if !prune then Scan(e, prune, rack, mult, depth, c + 1, alpha, beta, best')
      else if mult == 1 then
        if score >= beta then best'
        else Scan(e, prune, rack, mult, depth, c + 1, if score > alpha then score else alpha, beta, best')
      else
        if -score <= alpha then best'
        else Scan(e, prune, rack, mult, depth, c + 1, alpha, if -score < beta then -score else beta, best')
  }

  /** One step of the column loop at a non-full column whose move scored `score`. */
  lemma ScanStep(e: Engine, prune: bool, rack: Rack, mult: int, depth: int, c: int,
                 alpha: int, beta: int, best: int, score: int)
    requires IsRack(rack) && depth < e.maxDepth && 0 <= c < |rack| && !Full(rack[c])
    requires score == Score(e, prune, rack, mult, depth, c, alpha, beta)
    ensures Scan(e, prune, rack, mult, depth, c, alpha, beta, best) ==
        if !prune then Scan(e, prune, rack, mult, depth, c + 1, alpha, beta, Max(score, best))
        else if mult == 1 then
          if score >= beta then Max(score, best)
          else Scan(e, prune, rack, mult, depth, c + 1, Max(score, alpha), beta, Max(score, best))
        else
          if -score <= alpha then Max(score, best)
          else Scan(e, prune, rack, mult, depth, c + 1, alpha, Min(-score, beta), Max(score, best))
  {
  }

  // ---------------------------------------------------------------------------
  // The reference: minimax from the searching player's point of view.

  /** The minimax value of a node for player e.id: the static value at the
      horizon, otherwise the best child value for the side to move. */
  function Value(e: Engine, rack: Rack, mult: int, depth: int): int
    requires IsRack(rack)
    decreases e.maxDepth - depth, |rack| + 1
  {
    if depth >= e.maxDepth then Eval(e.id, rack) else Best(e, rack, mult, depth, 0)
  }

  /** The value of a child: the static value after a winning move, the
      child's minimax value otherwise. */
  function ChildValue(e: Engine, rack: Rack, mult: int, depth: int, c: int): int
    requires IsRack(rack) && depth < e.maxDepth && 0 <= c < |rack|
    decreases e.maxDepth - depth, 0
  {
    var child := Drop(rack, c, Mover(e.id, mult));
    if e.findWin(child, c) then Eval(e.id, child) else Value(e, child, -mult, depth + 1)
  }

  /** The maximum (max node) or minimum (min node) of the values of the legal
      children from column c on, starting from -INFINITY or +INFINITY. */
  function Best(e: Engine, rack: Rack, mult: int, depth: int, c: int): (v: int)
    requires IsRack(rack) && depth < e.maxDepth && 0 <= c <= |rack|
    ensures mult == 1 ==> -INFINITY <= v
    ensures mult != 1 ==> v <= INFINITY
    decreases e.maxDepth - depth, |rack| - c
  {
    if c == |rack| then (if mult == 1 then -INFINITY else INFINITY)
    else if Full(rack[c]) then Best(e, rack, mult, depth, c + 1)
    else if mult == 1 then Max(ChildValue(e, rack, mult, depth, c), Best(e, rack, mult, depth, c + 1))
    else Min(ChildValue(e, rack, mult, depth, c), Best(e, rack, mult, depth, c + 1))
  }

  // ---------------------------------------------------------------------------
  // Without pruning the search computes minimax.

  lemma {:induction false} UnprunedIsMinimax(e: Engine, rack: Rack, mult: int, depth: int, alpha: int, beta: int)
    requires IsRack(rack) && (mult == 1 || mult == -1)
    ensures Search(e, false, rack, mult, depth, alpha, beta) == Value(e, rack, mult, depth)
    decreases e.maxDepth - depth, |rack| + 1
  {
    if depth < e.maxDepth {
      UnprunedScan(e, rack, mult, depth, 0, alpha, beta, -INFINITY);
    }
  }

  lemma {:induction false} UnprunedScan(e: Engine, rack: Rack, mult: int, depth: int, c: int,
                                        alpha: int, beta: int, best: int)
    requires IsRack(rack) && depth < e.maxDepth && 0 <= c <= |rack| && (mult == 1 || mult == -1)
    requires -INFINITY <= best
    ensures Scan(e, false, rack, mult, depth, c, alpha, beta, best) == Max(best, mult * Best(e, rack, mult, depth, c))
    decreases e.maxDepth - depth, |rack| - c
  {
    if c < |rack| {
      if Full(rack[c]) {
        UnprunedScan(e, rack, mult, depth, c + 1, alpha, beta, best);
      } else {
        var child := Drop(rack, c, Mover(e.id, mult));
        if !e.findWin(child, c) {
          UnprunedIsMinimax(e, child, -mult, depth + 1, alpha, beta);
        }
        var score := mult * ChildValue(e, rack, mult, depth, c);
        UnprunedScan(e, rack, mult, depth, c + 1, alpha, beta, if score > best then score else best);
      }
    }
  }

  // ---------------------------------------------------------------------------
  // With pruning the search stays faithful inside the window (alpha, beta).

  /** Alpha-beta correctness (fail-soft): when the minimax value lies at or
      below alpha so does the pruned score, when it lies at or above beta so
      does the pruned score, and strictly between them the two are equal. */
  lemma {:induction false} PrunedWithinWindow(e: Engine, rack: Rack, mult: int, depth: int, alpha: int, beta: int)
    requires IsRack(rack) && (mult == 1 || mult == -1)
    requires -INFINITY <= alpha < beta <= INFINITY
    ensures var p, v := Search(e, true, rack, mult, depth, alpha, beta), Value(e, rack, mult, depth);
      (v <= alpha ==> p <= alpha) && (v >= beta ==> p >= beta) && (alpha < v < beta ==> p == v)
    decreases e.maxDepth - depth, |rack| + 1
  {
    if depth < e.maxDepth {
      if mult == 1 {
        PrunedScanMax(e, rack, depth, 0, alpha, beta, -INFINITY);
      } else {
        PrunedScanMin(e, rack, depth, 0, alpha, beta, -INFINITY);
      }
    }
  }

  /** The window promise of one child: its pruned score v keeps to its
      minimax value u as alpha-beta correctness states. */
  predicate Faithful(alpha: int, beta: int, u: int, v: int) {
    (u <= alpha ==> v <= alpha) && (u >= beta ==> v >= beta) && (alpha < u < beta ==> v == u)
  }

  /** The window promise of the move into column c: its pruned score, seen
      from the searching player's side, keeps to the child's minimax value. */
  lemma {:induction false} ChildFaithful(e: Engine, rack: Rack, mult: int, depth: int, c: int, alpha: int, beta: int)
    requires IsRack(rack) && depth < e.maxDepth && 0 <= c < |rack| && (mult == 1 || mult == -1)
    requires -INFINITY <= alpha < beta <= INFINITY
    ensures Faithful(alpha, beta, ChildValue(e, rack, mult, depth, c), mult * Score(e, true, rack, mult, depth, c, alpha, beta))
    decreases e.maxDepth - depth, 0
  {
    var child := Drop(rack, c, Mover(e.id, mult));
    var win := e.findWin(child, c);
    if !win {
      PrunedWithinWindow(e, child, -mult, depth + 1, alpha, beta);
    }
    var v := if win then Eval(e.id, child) else Search(e, true, child, -mult, depth + 1, alpha, beta);
    assert Score(e, true, rack, mult, depth, c, alpha, beta) == mult * v;
    assert mult * (mult * v) == v;
  }

  /** The arithmetic of one column of a max node: the child's pruned score v,
      its value u, the best value b of the later columns and the loop's result
      q, given what the loop does with v and what holds of the rest. */
  lemma MaxNodeStep(alpha: int, beta: int, best: int, u: int, v: int, b: int, q: int)
    requires best <= alpha < beta && Faithful(alpha, beta, u, v)
    requires v >= beta ==> q == Max(v, best)
    requires v < beta ==>
      var alpha', best' := Max(v, alpha), Max(v, best); var t' := Max(best', b);
      best' <= q && (t' <= alpha' ==> q <= alpha') && (t' >= beta ==> q >= beta) && (alpha' < t' < beta ==> q == t')
    ensures var t := Max(best, Max(u, b));
      best <= q && (t <= alpha ==> q <= alpha) && (t >= beta ==> q >= beta) && (alpha < t < beta ==> q == t)
  {
  }

  /** The mirror image of MaxNodeStep for a min node, where the loop sees the
      negated child score s and keeps the negated least value in best. */
  lemma MinNodeStep(alpha: int, beta: int, best: int, u: int, s: int, b: int, q: int)
    requires alpha < beta <= -best && Faithful(alpha, beta, u, -s)
    requires -s <= alpha ==> q == -Max(s, best)
    requires -s > alpha ==>
      var beta', best' := Min(-s, beta), Max(s, best); var t' := Min(-best', b);
      q <= -best' && (t' <= alpha ==> q <= alpha) && (t' >= beta' ==> q >= beta') && (alpha < t' < beta' ==> q == t')
    ensures var t := Min(-best, Min(u, b));
      q <= -best && (t <= alpha ==> q <= alpha) && (t >= beta ==> q >= beta) && (alpha < t < beta ==> q == t)
  {
  }

  /** The column loop of a max node. With T the best of the value found so far
      (best) and the values still to come, the loop's result relates to T as
      the window (alpha, beta) promises, and never falls below best. */
  lemma {:induction false} PrunedScanMax(e: Engine, rack: Rack, depth: int, c: int, alpha: int, beta: int, best: int)
    requires IsRack(rack) && depth < e.maxDepth && 0 <= c <= |rack|
    requires -INFINITY <= best <= alpha < beta <= INFINITY
    ensures var q, t := Scan(e, true, rack, 1, depth, c, alpha, beta, best), Max(best, Best(e, rack, 1, depth, c));
      best <= q && (t <= alpha ==> q <= alpha) && (t >= beta ==> q >= beta) && (alpha < t < beta ==> q == t)
    decreases e.maxDepth - depth, |rack| - c
  {
    if c < |rack| {
      if Full(rack[c]) {
        PrunedScanMax(e, rack, depth, c + 1, alpha, beta, best);
      } else {
        var v := Score(e, true, rack, 1, depth, c, alpha, beta);
        var u := ChildValue(e, rack, 1, depth, c);
        ChildFaithful(e, rack, 1, depth, c, alpha, beta);
        assert Faithful(alpha, beta, u, 1 * v);
        ScanStep(e, true, rack, 1, depth, c, alpha, beta, best, v);
        assert Best(e, rack, 1, depth, c) == Max(u, Best(e, rack, 1, depth, c + 1));
        if v < beta {
          PrunedScanMax(e, rack, depth, c + 1, Max(v, alpha), beta, Max(v, best));
        }
        MaxNodeStep(alpha, beta, best, u, v, Best(e, rack, 1, depth, c + 1),
                    Scan(e, true, rack, 1, depth, c, alpha, beta, best));
      }
    }
  }

  /** The column loop of a min node, the mirror image of PrunedScanMax: the
      loop keeps the negated least value so far in best. */
  lemma {:induction false} PrunedScanMin(e: Engine, rack: Rack, depth: int, c: int, alpha: int, beta: int, best: int)
    requires IsRack(rack) && depth < e.maxDepth && 0 <= c <= |rack|
    requires -INFINITY <= alpha < beta <= -best <= INFINITY
    ensures var q, t := -Scan(e, true, rack, -1, depth, c, alpha, beta, best), Min(-best, Best(e, rack, -1, depth, c));
      q <= -best && (t <= alpha ==> q <= alpha) && (t >= beta ==> q >= beta) && (alpha < t < beta ==> q == t)
    decreases e.maxDepth - depth, |rack| - c, 1
  {
    if c < |rack| {
      if Full(rack[c]) {
        PrunedScanMin(e, rack, depth, c + 1, alpha, beta, best);
      } else {
        PrunedScanMinMove(e, rack, depth, c, alpha, beta, best);
      }
    }
  }

  /** PrunedScanMin at a column with room: the move's score, then the rest of the loop. */
  lemma {:induction false} PrunedScanMinMove(e: Engine, rack: Rack, depth: int, c: int, alpha: int, beta: int, best: int)
    requires IsRack(rack) && depth < e.maxDepth && 0 <= c < |rack| && !Full(rack[c])
    requires -INFINITY <= alpha < beta <= -best <= INFINITY
    ensures var q, t := -Scan(e, true, rack, -1, depth, c, alpha, beta, best), Min(-best, Best(e, rack, -1, depth, c));
      q <= -best && (t <= alpha ==> q <= alpha) && (t >= beta ==> q >= beta) && (alpha < t < beta ==> q == t)
    decreases e.maxDepth - depth, |rack| - c, 0
  {
    var score := Score(e, true, rack, -1, depth, c, alpha, beta);
    var u := ChildValue(e, rack, -1, depth, c);
    ChildFaithful(e, rack, -1, depth, c, alpha, beta);
    assert Faithful(alpha, beta, u, -1 * score);
    ScanStep(e, true, rack, -1, depth, c, alpha, beta, best, score);
    assert Best(e, rack, -1, depth, c) == Min(u, Best(e, rack, -1, depth, c + 1));
    if -score > alpha {
      PrunedScanMin(e, rack, depth, c + 1, alpha, Min(-score, beta), Max(score, best));
    }
    MinNodeStep(alpha, beta, best, u, score, Best(e, rack, -1, depth, c + 1),
                -Scan(e, true, rack, -1, depth, c, alpha, beta, best));
  }

  // ---------------------------------------------------------------------------
  // Scores stay within [-INFINITY, INFINITY] when every static value does.

  /** Every static value the search scores below this node lies within
      [-INFINITY, INFINITY]: the node's own value at the horizon, otherwise
      that of each legal child. Players alternate as in the search, and a
      drop the win detector reports is not looked past. */
  ghost predicate Bounded(e: Engine, rack: Rack, mult: int, depth: int)
    requires IsRack(rack)
    decreases e.maxDepth - depth, 1
  {
    if depth >= e.maxDepth then InWindow(Eval(e.id, rack))
    else forall c | 0 <= c < |rack| && !Full(rack[c]) :: ChildBounded(e, rack, mult, depth, c)
  }

  /** The static values the search scores for the drop into column c lie
      within [-INFINITY, INFINITY]: the value right after a winning drop,
      otherwise those below the child node. */
  ghost predicate ChildBounded(e: Engine, rack: Rack, mult: int, depth: int, c: int)
    requires IsRack(rack) && depth < e.maxDepth && 0 <= c < |rack|
    decreases e.maxDepth - depth, 0
  {
    var child := Drop(rack, c, Mover(e.id, mult));
    if e.findWin(child, c) then InWindow(Eval(e.id, child)) else Bounded(e, child, -mult, depth + 1)
  }

  lemma {:induction false} SearchInRange(e: Engine, prune: bool, rack: Rack, mult: int, depth: int, alpha: int, beta: int)
    requires IsRack(rack) && (mult == 1 || mult == -1)
    requires Bounded(e, rack, mult, depth)
    ensures InWindow(Search(e, prune, rack, mult, depth, alpha, beta))
    decreases e.maxDepth - depth, |rack| + 1
  {
    if depth < e.maxDepth {
      ScanInRange(e, prune, rack, mult, depth, 0, alpha, beta, -INFINITY);
    }
  }

  lemma {:induction false} ScoreInRange(e: Engine, prune: bool, rack: Rack, mult: int, depth: int, c: int, alpha: int, beta: int)
    requires IsRack(rack) && depth < e.maxDepth && 0 <= c < |rack| && (mult == 1 || mult == -1)
    requires ChildBounded(e, rack, mult, depth, c)
    ensures InWindow(Score(e, prune, rack, mult, depth, c, alpha, beta))
    decreases e.maxDepth - depth, 0
  {
    var child := Drop(rack, c, Mover(e.id, mult));
    var win := e.findWin(child, c);
    var v := if win then Eval(e.id, child) else Search(e, prune, child, -mult, depth + 1, alpha, beta);
    if !win {
      assert e.maxDepth - (depth + 1) < e.maxDepth - depth;
      assert IsRack(child);
      assert -mult == 1 || -mult == -1;
      assert Bounded(e, child, -mult, depth + 1);
      SearchInRange(e, prune, child, -mult, depth + 1, alpha, beta);
    }
    assert InWindow(v);
    assert Score(e, prune, rack, mult, depth, c, alpha, beta) == mult * v;
    if mult == 1 {
      assert mult * v == v;
    } else {
      assert mult * v == -v;
    }
  }

  lemma {:induction false} ScanInRange(e: Engine, prune: bool, rack: Rack, mult: int, depth: int, c: int,
                                       alpha: int, beta: int, best: int)
    requires IsRack(rack) && depth < e.maxDepth && 0 <= c <= |rack| && (mult == 1 || mult == -1)
    requires Bounded(e, rack, mult, depth)
    requires InWindow(best)
    ensures InWindow(Scan(e, prune, rack, mult, depth, c, alpha, beta, best))
    decreases e.maxDepth - depth, |rack| - c
  {
    if c < |rack| {
      if Full(rack[c]) {
        ScanInRange(e, prune, rack, mult, depth, c + 1, alpha, beta, best);
      } else {
        var score := Score(e, prune, rack, mult, depth, c, alpha, beta);
        assert ChildBounded(e, rack, mult, depth, c);
        ScoreInRange(e, prune, rack, mult, depth, c, alpha, beta);
        var best' := if score > best then score else best;
        if !prune {
          ScanInRange(e, prune, rack, mult, depth, c + 1, alpha, beta, best');
        } else if mult == 1 {
          if score < beta {
            ScanInRange(e, prune, rack, mult, depth, c + 1, if score > alpha then score else alpha, beta, best');
          }
        } else if -score > alpha {
          ScanInRange(e, prune, rack, mult, depth, c + 1, alpha, if -score < beta then -score else beta, best');
        }
      }
    }
  }

  /** From the full window (-INFINITY, INFINITY), pruned and unpruned search
      both compute the minimax value, provided the static values the search
      scores stay within that window. */
  lemma PruningAgrees(e: Engine, rack: Rack, mult: int, depth: int)
    requires IsRack(rack) && (mult == 1 || mult == -1)
    requires Bounded(e, rack, mult, depth)
    ensures Search(e, true, rack, mult, depth, -INFINITY, INFINITY) == Value(e, rack, mult, depth)
    ensures Search(e, false, rack, mult, depth, -INFINITY, INFINITY) == Value(e, rack, mult, depth)
  {
    UnprunedIsMinimax(e, rack, mult, depth, -INFINITY, INFINITY);
    SearchInRange(e, false, rack, mult, depth, -INFINITY, INFINITY);
    SearchInRange(e, true, rack, mult, depth, -INFINITY, INFINITY);
    PrunedWithinWindow(e, rack, mult, depth, -INFINITY, INFINITY);
  }

  // ---------------------------------------------------------------------------
  // The root.

  /** The score of dropping the searching player's disc into column c: the
      value of the resulting min node at depth 1, with the full window. */
  function RootScore(e: Engine, prune: bool, rack: Rack, c: int): int
    requires IsRack(rack) && 0 <= c < |rack|
  {
    Search(e, prune, Drop(rack, c, e.id), -1, 1, -INFINITY, INFINITY)
  }

  /** The scores of all root moves, column by column. */
  function RootScores(e: Engine, prune: bool, rack: Rack): (s: seq<int>)
    requires IsRack(rack)
    ensures |s| == |rack|
    ensures forall c | 0 <= c < |rack| :: s[c] == RootScore(e, prune, rack, c)
  {
    seq(|rack|, c requires 0 <= c < |rack| => RootScore(e, prune, rack, c))
  }

  predicate Legal(rack: Rack, c: int)
    requires IsRack(rack)
  {
    0 <= c < |rack| && !Full(rack[c])
  }

  /** The root loop from column c on, over the scores of the moves: a legal
      column replaces the current choice when it scores strictly better, or
      when there is no choice yet. The result is the incoming choice or a
      legal column from c on. */
  function PickFrom(rack: Rack, scores: seq<int>, c: int, move: int, best: int): (r: int)
    requires IsRack(rack) && |scores| == |rack| && 0 <= c <= |rack|
    ensures r == move || (c <= r < |rack| && Legal(rack, r))
    decreases |rack| - c
  {
    if c == |rack| then move
    else if Full(rack[c]) then PickFrom(rack, scores, c + 1, move, best)
    else if scores[c] > best || move == -1 then PickFrom(rack, scores, c + 1, c, scores[c])
    else PickFrom(rack, scores, c + 1, move, best)
  }

  /** The column chosen on `rack`: a legal column, or -1. */
  function Pick(e: Engine, prune: bool, rack: Rack): (r: int)
    requires IsRack(rack)
    ensures r == -1 || Legal(rack, r)
  {
    PickFrom(rack, RootScores(e, prune, rack), 0, -1, -INFINITY)
  }

  lemma {:induction false} PickFromChoosesFirstBest(rack: Rack, scores: seq<int>, c: int, move: int, best: int)
    requires IsRack(rack) && |scores| == |rack| && 0 <= c <= |rack|
    requires move == -1 ==> forall d | 0 <= d < c :: !Legal(rack, d)
    requires move != -1 ==> 0 <= move < c && Legal(rack, move) && best == scores[move]
    requires move != -1 ==> forall d | 0 <= d < c && Legal(rack, d) :: scores[d] <= best
    requires move != -1 ==> forall d | 0 <= d < move && Legal(rack, d) :: scores[d] < best
    ensures var m := PickFrom(rack, scores, c, move, best);
      (m == -1 <==> forall d | 0 <= d < |rack| :: !Legal(rack, d)) &&
      (m != -1 ==>
         Legal(rack, m) &&
         (forall d | 0 <= d < |rack| && Legal(rack, d) :: scores[d] <= scores[m]) &&
         (forall d | 0 <= d < m && Legal(rack, d) :: scores[d] < scores[m]))
    decreases |rack| - c
  {
    if c < |rack| {
      if Full(rack[c]) {
        PickFromChoosesFirstBest(rack, scores, c + 1, move, best);
      } else if scores[c] > best || move == -1 {
        PickFromChoosesFirstBest(rack, scores, c + 1, c, scores[c]);
      } else {
        PickFromChoosesFirstBest(rack, scores, c + 1, move, best);
      }
    }
  }

  /** The root picks a legal column whenever there is one, -1 only when every
      column is full, and among the legal columns the lowest-indexed one of
      maximal score. */
  lemma PickChoosesFirstBest(e: Engine, prune: bool, rack: Rack)
    requires IsRack(rack)
    ensures var m := Pick(e, prune, rack);
      (m == -1 <==> forall d | 0 <= d < |rack| :: !Legal(rack, d)) &&
      (m != -1 ==>
         Legal(rack, m) &&
         (forall d | 0 <= d < |rack| && Legal(rack, d) :: RootScore(e, prune, rack, d) <= RootScore(e, prune, rack, m)) &&
         (forall d | 0 <= d < m && Legal(rack, d) :: RootScore(e, prune, rack, d) < RootScore(e, prune, rack, m)))
  {
    PickFromChoosesFirstBest(rack, RootScores(e, prune, rack), 0, -1, -INFINITY);
  }

  /** Every static value scored by the root's searches, one per legal column,
      lies within [-INFINITY, INFINITY]. */
  ghost predicate RootBounded(e: Engine, rack: Rack)
    requires IsRack(rack)
  {
    forall c | 0 <= c < |rack| && !Full(rack[c]) :: Bounded(e, Drop(rack, c, e.id), -1, 1)
  }

  lemma {:induction false} PickFromAgrees(rack: Rack, s1: seq<int>, s2: seq<int>, c: int, move: int, best: int)
    requires IsRack(rack) && |s1| == |s2| == |rack| && 0 <= c <= |rack|
    requires forall d | c <= d < |rack| && Legal(rack, d) :: s1[d] == s2[d]
    ensures PickFrom(rack, s1, c, move, best) == PickFrom(rack, s2, c, move, best)
    decreases |rack| - c
  {
    if c < |rack| {
      PickFromAgrees(rack, s1, s2, c + 1, c, s1[c]);
      PickFromAgrees(rack, s1, s2, c + 1, move, best);
    }
  }

  /** Turning pruning on or off does not change the chosen column. */
  lemma PruningKeepsMove(e: Engine, rack: Rack)
    requires IsRack(rack) && RootBounded(e, rack)
    ensures Pick(e, true, rack) == Pick(e, false, rack)
  {
    forall d | 0 <= d < |rack| && Legal(rack, d)
      ensures RootScore(e, true, rack, d) == RootScore(e, false, rack, d)
    {
      PruningAgrees(e, Drop(rack, d, e.id), -1, 1);
    }
    PickFromAgrees(rack, RootScores(e, true, rack), RootScores(e, false, rack), 0, -1, -INFINITY);
  }

  /** The minimax value of dropping the searching player's disc into column c. */
  function RootValue(e: Engine, rack: Rack, c: int): int
    requires IsRack(rack) && 0 <= c < |rack|
  {
    Value(e, Drop(rack, c, e.id), -1, 1)
  }

  /** The minimax values of all root moves, column by column. */
  function RootValues(e: Engine, rack: Rack): (s: seq<int>)
    requires IsRack(rack)
    ensures |s| == |rack|
    ensures forall c | 0 <= c < |rack| :: s[c] == RootValue(e, rack, c)
  {
    seq(|rack|, c requires 0 <= c < |rack| => RootValue(e, rack, c))
  }

  /** The root plays the lowest-indexed legal column of greatest minimax
      value, and -1 only when every column is full: always without pruning,
      and with pruning when the scored static values stay within bounds. */
  lemma PickIsMinimax(e: Engine, prune: bool, rack: Rack)
    requires IsRack(rack) && (prune ==> RootBounded(e, rack))
    ensures var m := Pick(e, prune, rack);
      (m == -1 <==> forall d | 0 <= d < |rack| :: !Legal(rack, d)) &&
      (m != -1 ==>
         Legal(rack, m) &&
         (forall d | 0 <= d < |rack| && Legal(rack, d) :: RootValue(e, rack, d) <= RootValue(e, rack, m)) &&
         (forall d | 0 <= d < m && Legal(rack, d) :: RootValue(e, rack, d) < RootValue(e, rack, m)))
  {
    var values := RootValues(e, rack);
    forall d | 0 <= d < |rack| && Legal(rack, d)
      ensures RootScores(e, prune, rack)[d] == values[d]
    {
      if prune {
        PruningAgrees(e, Drop(rack, d, e.id), -1, 1);
      } else {
        UnprunedIsMinimax(e, Drop(rack, d, e.id), -1, 1, -INFINITY, INFINITY);
      }
    }
    PickFromAgrees(rack, RootScores(e, prune, rack), values, 0, -1, -INFINITY);
    PickFromChoosesFirstBest(rack, values, 0, -1, -INFINITY);
  }

  // ---------------------------------------------------------------------------
  // When the bound hypothesis holds: no side can complete a quartet in time.

  /** When every quartet holds at most `mine` discs of the searching player
      and `theirs` of the other, neither side can fill a quartet within the
      plies left (the side to move plays every other ply, starting now), and
      the rack has at most INFINITY / 100 windows, every static value the
      search scores lies within [-INFINITY, INFINITY]. */
  lemma {:induction false} FewDiscsBounded(e: Engine, rack: Rack, mult: int, depth: int, mine: int, theirs: int)
    requires IsRack(rack) && IsPlayer(e.id) && (mult == 1 || mult == -1)
    requires 100 * |Windows(|rack|, Height(rack))| <= INFINITY
    requires QuartetsAtMost(e.id, rack, mine, theirs)
    requires var n := Pos(e.maxDepth - depth);
      mine + (if mult == 1 then (n + 1) / 2 else n / 2) <= 3 &&
      theirs + (if mult == 1 then n / 2 else (n + 1) / 2) <= 3
    ensures Bounded(e, rack, mult, depth)
    decreases e.maxDepth - depth, 1
  {
    if depth < e.maxDepth {
      forall c | 0 <= c < |rack| && !Full(rack[c])
        ensures ChildBounded(e, rack, mult, depth, c)
      {
        FewDiscsChild(e, rack, mult, depth, c, mine, theirs);
      }
    }
  }

  /** FewDiscsBounded for the move into column c: the mover's side gains at
      most one disc per quartet. */
  lemma {:induction false} FewDiscsChild(e: Engine, rack: Rack, mult: int, depth: int, c: int, mine: int, theirs: int)
    requires IsRack(rack) && IsPlayer(e.id) && (mult == 1 || mult == -1)
    requires depth < e.maxDepth && 0 <= c < |rack|
    requires 100 * |Windows(|rack|, Height(rack))| <= INFINITY
    requires QuartetsAtMost(e.id, rack, mine, theirs)
    requires var n := e.maxDepth - depth;
      mine + (if mult == 1 then (n + 1) / 2 else n / 2) <= 3 &&
      theirs + (if mult == 1 then n / 2 else (n + 1) / 2) <= 3
    ensures ChildBounded(e, rack, mult, depth, c)
    decreases e.maxDepth - depth, 0
  {
    var p := Mover(e.id, mult);
    var child := Drop(rack, c, p);
    var n := e.maxDepth - depth;
    var mine', theirs' := mine, theirs;
    if mult == 1 {
      assert p == e.id;
      mine' := mine + 1;
      assert mine' + (n - 1) / 2 <= 3 && theirs' + n / 2 <= 3;
    } else {
      assert p != e.id && p != 0;
      theirs' := theirs + 1;
      assert mine' + n / 2 <= 3 && theirs' + (n - 1) / 2 <= 3;
    }
    DropKeepsFew(e.id, rack, c, p, mine, theirs);
    assert QuartetsAtMost(e.id, child, mine', theirs');
    assert Windows(|child|, Height(child)) == Windows(|rack|, Height(rack));
    if e.findWin(child, c) {
      FewDiscsEval(e.id, child, mine', theirs');
    } else {
      assert Pos(e.maxDepth - (depth + 1)) == n - 1;
      FewDiscsBounded(e, child, -mult, depth + 1, mine', theirs');
    }
  }

  /** The same at the root, where the searching player drops first and the
      min node below has maxDepth - 1 plies left. */
  lemma FewDiscsRootBounded(e: Engine, rack: Rack, mine: int, theirs: int)
    requires IsRack(rack) && IsPlayer(e.id)
    requires 100 * |Windows(|rack|, Height(rack))| <= INFINITY
    requires QuartetsAtMost(e.id, rack, mine, theirs)
    requires var n := Pos(e.maxDepth - 1); mine + 1 + n / 2 <= 3 && theirs + (n + 1) / 2 <= 3
    ensures RootBounded(e, rack)
  {
    forall c | 0 <= c < |rack| && !Full(rack[c])
      ensures Bounded(e, Drop(rack, c, e.id), -1, 1)
    {
      var child := Drop(rack, c, e.id);
      DropKeepsFew(e.id, rack, c, e.id, mine, theirs);
      assert |child| == |rack| && Height(child) == Height(rack);
      FewDiscsBounded(e, child, -1, 1, mine + 1, theirs);
    }
  }

  /** On an empty rack of at most INFINITY / 100 windows, with a horizon of at
      most six plies, pruning does not change the opening move. */
  lemma EmptyRackKeepsMove(e: Engine, rack: Rack)
    requires IsRack(rack) && EmptyRack(rack) && IsPlayer(e.id) && e.maxDepth <= 6
    requires 100 * |Windows(|rack|, Height(rack))| <= INFINITY
    ensures RootBounded(e, rack)
    ensures Pick(e, true, rack) == Pick(e, false, rack)
  {
    EmptyRackQuartets(e.id, rack);
    FewDiscsRootBounded(e, rack, 0, 0);
    PruningKeepsMove(e, rack);
  }

  /** The empty 13-by-8 rack of the pruning comparison game. */
  function Rack13x8(): (rack: Rack)
    ensures IsRack(rack) && EmptyRack(rack) && |rack| == 13 && Height(rack) == 8
  {
    seq(13, _ => seq(8, _ => 0))
  }

  /** In the pruning comparison game (a 13-by-8 rack, depth 4), after player
      1's opening disc in any column, player 2 picks the same column with and
      without pruning. */
  lemma FirstReplyKeepsMove(e: Engine, m: int)
    requires e.id == 2 && e.maxDepth == 4 && 0 <= m < 13
    ensures Pick(e, true, Drop(Rack13x8(), m, 1)) == Pick(e, false, Drop(Rack13x8(), m, 1))
  {
    var empty := Rack13x8();
    var rack := Drop(empty, m, 1);
    EmptyRackQuartets(2, empty);
    DropKeepsFew(2, empty, m, 1, 0, 0);
    assert |rack| == 13 && Height(rack) == 8;
    WindowCount(13, 8);
    FewDiscsRootBounded(e, rack, 0, 1);
    PruningKeepsMove(e, rack);
  }
}
