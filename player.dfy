/** The computer player: it keeps one rack, explores moves on it by dropping
    and lifting discs in place, and proves each step against the
    specification functions of Board, Evaluation and Negamax. */
module Player {
  import opened Board
  import opened Evaluation
  import opened Negamax

  class ComputerPlayer {
    var id: int
    var maxDepth: int
    var prune: bool
    var rack: Rack
    const findWin: WinTest

    /** A player with number `id` searching `difficultyLevel` plies ahead, with
        pruning on. The rack is set by each PickMove. */
    constructor (id: int, difficultyLevel: int, findWin: WinTest)
      ensures this.id == id && maxDepth == difficultyLevel && prune && rack == []
      ensures this.findWin == findWin
    {
      this.id := id;
      maxDepth := difficultyLevel;
      prune := true;
      rack := [];
      this.findWin := findWin;
    }

    /** The state the search keeps: a well-shaped rack without floating discs,
        searched for player 1 or 2. */
    ghost predicate Valid()
      reads this
    {
      IsPlayer(id) && IsRack(rack) && SettledRack(rack)
    }

    function Settings(): Engine
      reads this
    {
      Engine(id, maxDepth, findWin)
    }

    /** Drops a disc of `player` into the lowest empty slot of column c. */
    method DoMove(c: int, player: int)
      requires 0 <= c < |rack|
      modifies this`rack
      ensures rack == Drop(old(rack), c, player)
    {
      var i := 0;
      while i < |rack[c]|
        invariant 0 <= i <= |rack[c]|
        invariant rack == old(rack)
        invariant forall j | 0 <= j < i :: rack[c][j] != 0
      {
        if rack[c][i] == 0 {
          rack := rack[c := rack[c][i := player]];
          return;
        }
        i := i + 1;
      }
    }

    /** Empties the topmost occupied slot of column c. */
    method UndoMove(c: int)
      requires 0 <= c < |rack|
      modifies this`rack
      ensures rack == Lift(old(rack), c)
    {
      var i := |rack[c]|;
      while i > 0
        invariant 0 <= i <= |rack[c]|
        invariant rack == old(rack)
        invariant forall j | i <= j < |rack[c]| :: rack[c][j] == 0
      {
        i := i - 1;
        if rack[c][i] != 0 {
          rack := rack[c := rack[c][i := 0]];
          return;
        }
      }
    }

    /** Counts this player's discs and the other discs of the quartet and
        scores it. */
    method CheckQuartet(quartet: seq<int>) returns (score: int)
      ensures score == QuartetScore(id, quartet)
    {
      var mine, enemy := 0, 0;
      for i := 0 to |quartet|
        invariant mine == Mine(id, quartet[..i])
        invariant enemy == Enemy(id, quartet[..i])
      {
        assert quartet[..i + 1][..i] == quartet[..i];
        var v := quartet[i];
        if v == id {
          mine := mine + 1;
        } else if v != 0 {
          enemy := enemy + 1;
        }
      }
      assert quartet[..|quartet|] == quartet;
      if mine == 0 && enemy == 0 {
        return 0;
      }
      if mine > 0 && enemy > 0 {
        return 0;
      }
      var mult, count := 1, mine;
      if enemy > 0 {
        mult, count := -1, enemy;
      }
      var s := 0;
      if count == 4 {
        s := INFINITY;
      } else if count == 3 {
        s := 100;
      } else if count == 2 {
        s := 10;
      } else if count == 1 {
        s := 1;
      }
      return mult * s;
    }

    /** Sums the quartet scores over every vertical, horizontal and diagonal
        window of the rack; the rack is only read. */
    method Evaluate() returns (score: int)
      requires IsRack(rack)
      ensures score == Eval(id, rack)
    {
      var vertical := VerticalScore();
      var horizontal := HorizontalScore();
      var upRight := UpRightScore();
      var downRight := DownRightScore();
      score := vertical + horizontal + upRight + downRight;
      var height := Height(rack);
      SumAppend(id, rack, Block(Vertical, height, ColumnCount(Vertical, |rack|)),
                Block(Horizontal, height, ColumnCount(Horizontal, |rack|)));
      SumAppend(id, rack, Block(Vertical, height, ColumnCount(Vertical, |rack|)) +
                Block(Horizontal, height, ColumnCount(Horizontal, |rack|)),
                Block(UpRight, height, ColumnCount(UpRight, |rack|)));
      SumAppend(id, rack, Block(Vertical, height, ColumnCount(Vertical, |rack|)) +
                Block(Horizontal, height, ColumnCount(Horizontal, |rack|)) +
                Block(UpRight, height, ColumnCount(UpRight, |rack|)),
                Block(DownRight, height, ColumnCount(DownRight, |rack|)));
    }

    /** The vertical quartets: column by column. */
    method VerticalScore() returns (score: int)
      requires IsRack(rack)
      ensures score == Sum(id, rack, Block(Vertical, Height(rack), ColumnCount(Vertical, |rack|)))
    {
      var height := Height(rack);
      score := 0;
      for c := 0 to |rack|
        invariant score == Sum(id, rack, Block(Vertical, height, c))
      {
        var s := VerticalStrip(c);
        SumBlockStep(id, rack, Vertical, height, c);
        score := score + s;
      }
    }

    /** The vertical quartets of column c: the slices of four from row 0 up. */
    method VerticalStrip(c: int) returns (score: int)
      requires IsRack(rack) && 0 <= c < |rack|
      ensures score == Sum(id, rack, Strip(Vertical, c, Height(rack)))
    {
      var height := Height(rack);
      assert |rack[c]| == height;
      score := 0;
      var column := rack[c];
      var i := 0;
      while i < |column| - 3
        invariant 0 <= i <= RowCount(Vertical, height)
        invariant score == Sum(id, rack, Strip(Vertical, c, height)[..i])
      {
        var s := CheckQuartet(column[i..i + 4]);
        VerticalQuartet(rack, c, i);
        SumStripStep(id, rack, Vertical, c, height, i);
        score := score + s;
        i := i + 1;
      }
      assert Strip(Vertical, c, height)[..i] == Strip(Vertical, c, height);
    }

    /** The horizontal quartets: by first column, from the left. */
    method HorizontalScore() returns (score: int)
      requires IsRack(rack)
      ensures score == Sum(id, rack, Block(Horizontal, Height(rack), ColumnCount(Horizontal, |rack|)))
    {
      var height := Height(rack);
      score := 0;
      var c := 0;
      while c < |rack| - 3
        invariant 0 <= c <= ColumnCount(Horizontal, |rack|)
        invariant score == Sum(id, rack, Block(Horizontal, height, c))
      {
        var s := HorizontalStrip(c);
        SumBlockStep(id, rack, Horizontal, height, c);
        score := score + s;
        c := c + 1;
      }
      assert c == ColumnCount(Horizontal, |rack|);
    }

    /** The horizontal quartets starting in column c, from row 0 up. */
    method HorizontalStrip(c: int) returns (score: int)
      requires IsRack(rack) && 0 <= c && c + 3 < |rack|
      ensures score == Sum(id, rack, Strip(Horizontal, c, Height(rack)))
    {
      var height := Height(rack);
      assert |rack[c]| == height;
      score := 0;
      var i := 0;
      while i < |rack[c]|
        invariant 0 <= i <= RowCount(Horizontal, height)
        invariant score == Sum(id, rack, Strip(Horizontal, c, height)[..i])
      {
        var quartet := [rack[c][i], rack[c + 1][i], rack[c + 2][i], rack[c + 3][i]];
        var s := CheckQuartet(quartet);
        HorizontalQuartet(rack, c, i);
        SumStripStep(id, rack, Horizontal, c, height, i);
        score := score + s;
        i := i + 1;
      }
      assert Strip(Horizontal, c, height)[..i] == Strip(Horizontal, c, height);
    }

    /** The up-right quartets: by first column, from the left. */
    method UpRightScore() returns (score: int)
      requires IsRack(rack)
      ensures score == Sum(id, rack, Block(UpRight, Height(rack), ColumnCount(UpRight, |rack|)))
    {
      var height := Height(rack);
      score := 0;
      var c := 0;
      while c < |rack| - 3
        invariant 0 <= c <= ColumnCount(UpRight, |rack|)
        invariant score == Sum(id, rack, Block(UpRight, height, c))
      {
        var s := UpRightStrip(c);
        SumBlockStep(id, rack, UpRight, height, c);
        score := score + s;
        c := c + 1;
      }
      assert c == ColumnCount(UpRight, |rack|);
    }

    /** The up-right quartets starting in column c, from row 0 up. */
    method UpRightStrip(c: int) returns (score: int)
      requires IsRack(rack) && 0 <= c && c + 3 < |rack|
      ensures score == Sum(id, rack, Strip(UpRight, c, Height(rack)))
    {
      var height := Height(rack);
      assert |rack[c]| == height;
      score := 0;
      var r := 0;
      while r < |rack[c]| - 3
        invariant 0 <= r <= RowCount(UpRight, height)
        invariant score == Sum(id, rack, Strip(UpRight, c, height)[..r])
      {
        var quartet := [rack[c][r], rack[c + 1][r + 1], rack[c + 2][r + 2], rack[c + 3][r + 3]];
        var s := CheckQuartet(quartet);
        UpRightQuartet(rack, c, r);
        SumStripStep(id, rack, UpRight, c, height, r);
        score := score + s;
        r := r + 1;
      }
      assert Strip(UpRight, c, height)[..r] == Strip(UpRight, c, height);
    }

    /** The down-right quartets: by first column, from the left. */
    method DownRightScore() returns (score: int)
      requires IsRack(rack)
      ensures score == Sum(id, rack, Block(DownRight, Height(rack), ColumnCount(DownRight, |rack|)))
    {
      var height := Height(rack);
      score := 0;
      var c := 0;
      while c < |rack| - 3
        invariant 0 <= c <= ColumnCount(DownRight, |rack|)
        invariant score == Sum(id, rack, Block(DownRight, height, c))
      {
        var s := DownRightStrip(c);
        SumBlockStep(id, rack, DownRight, height, c);
        score := score + s;
        c := c + 1;
      }
      assert c == ColumnCount(DownRight, |rack|);
    }

    /** The down-right quartets starting in column c, from the top row down to row 3. */
    method DownRightStrip(c: int) returns (score: int)
      requires IsRack(rack) && 0 <= c && c + 3 < |rack|
      ensures score == Sum(id, rack, Strip(DownRight, c, Height(rack)))
    {
      var height := Height(rack);
      assert |rack[c]| == height;
      score := 0;
      var r := |rack[c]| - 1;
      ghost var k := 0;
      while r > 2
        invariant r == height - 1 - k
        invariant 0 <= k <= RowCount(DownRight, height)
        invariant score == Sum(id, rack, Strip(DownRight, c, height)[..k])
      {
        var quartet := [rack[c][r], rack[c + 1][r - 1], rack[c + 2][r - 2], rack[c + 3][r - 3]];
        var s := CheckQuartet(quartet);
        DownRightQuartet(rack, c, r);
        SumStripStep(id, rack, DownRight, c, height, k);
        score := score + s;
        r, k := r - 1, k + 1;
      }
      assert Strip(DownRight, c, height)[..k] == Strip(DownRight, c, height);
    }

    /** The score of the node at `depth` (a max node when mult == 1, a min node
        when mult == -1). Every move tried is taken back, also on a cutoff, so
        the rack is the same on return; the depth grows towards maxDepth. */
    method CalcMove(mult: int, depth: int, alpha: int, beta: int) returns (score: int)
      requires Valid() && (mult == 1 || mult == -1)
      modifies this`rack
      ensures rack == old(rack)
      ensures score == Search(Settings(), prune, rack, mult, depth, alpha, beta)
      decreases maxDepth - depth, 1
    {
      if depth >= maxDepth {
        score := Evaluate();
        return;
      }
      ghost var start, e := rack, Settings();
      ghost var target := Scan(e, prune, start, mult, depth, 0, alpha, beta, -INFINITY);
      var alpha, beta := alpha, beta;
      var best := -INFINITY;
      var c := 0;
      while c < |rack|
        invariant 0 <= c <= |rack|
        invariant rack == start
        invariant Scan(e, prune, start, mult, depth, c, alpha, beta, best) == target
      {
        if rack[c][|rack[c]| - 1] != 0 {
          c := c + 1;
          continue;
        }
        var moveScore := MoveScore(c, mult, depth, alpha, beta);
        ScanStep(e, prune, start, mult, depth, c, alpha, beta, best, moveScore);
        ghost var best0, alpha0, beta0 := best, alpha, beta;
        if moveScore > best {
          best := moveScore;
        }
        assert best == Max(moveScore, best0);
        if prune {
          if mult == 1 {
            if moveScore > alpha {
              alpha := moveScore;
            }
            assert alpha == Max(moveScore, alpha0);
            if moveScore >= beta {
              break;
            }
          } else {
            if -moveScore < beta {
              beta := -moveScore;
            }
            assert beta == Min(-moveScore, beta0);
            if -moveScore <= alpha {
              break;
            }
          }
        }
        c := c + 1;
      }
      score := mult * best;
    }

    /** One column of a node: the side to move drops a disc into the non-full
        column c; a winning drop is scored by the static value, any other by
        the next ply; the disc is taken back. The result is mult-adjusted. */
    method MoveScore(c: int, mult: int, depth: int, alpha: int, beta: int) returns (score: int)
      requires Valid() && (mult == 1 || mult == -1) && depth < maxDepth
      requires 0 <= c < |rack| && !Full(rack[c])
      modifies this`rack
      ensures rack == old(rack)
      ensures score == Score(Settings(), prune, rack, mult, depth, c, alpha, beta)
      decreases maxDepth - depth, 0
    {
      ghost var start := rack;
      var player := if mult == 1 then id else 3 - id;
      DoMove(c, player);
      DropKeepsSettled(start, c, player);
      if findWin(rack, c) {
        var s := Evaluate();
        score := mult * s;
      } else {
        var s := CalcMove(-mult, depth + 1, alpha, beta);
        score := mult * s;
      }
      UndoMove(c);
      LiftUndoesDrop(start, c, player);
    }

    /** Chooses the column to play on `r`: a private copy of r becomes the
        rack, each legal column is tried and taken back, and the first column
        with the strictly best score is kept; -1 when every column is full. */
    method PickMove(r: Rack) returns (move: int)
      requires IsPlayer(id) && IsRack(r) && SettledRack(r)
      modifies this`rack
      ensures rack == r
      ensures move == Pick(Settings(), prune, r)
    {
      rack := r;
      var alpha, beta := -INFINITY, INFINITY;
      move := -1;
      var best := -INFINITY;
      var c := 0;
      while c < |rack|
        invariant 0 <= c <= |rack|
        invariant rack == r
        invariant PickFrom(r, RootScores(Settings(), prune, r), c, move, best) == Pick(Settings(), prune, r)
      {
        if r[c][|r[c]| - 1] != 0 {
          c := c + 1;
          continue;
        }
        DoMove(c, id);
        DropKeepsSettled(r, c, id);
        var score := CalcMove(-1, 1, alpha, beta);
        UndoMove(c);
        LiftUndoesDrop(r, c, id);
        assert score == RootScores(Settings(), prune, r)[c];
        if score > best || move == -1 {
          move := c;
          best := score;
        }
        c := c + 1;
      }
    }
  }
}
