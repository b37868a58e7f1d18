/** The static evaluation: every quartet (four consecutive slots in one of four
    directions) is scored from one player's point of view, and the rack's value
    is the sum of those scores. */
module Evaluation {
  import opened Board

  /** The score of a completed quartet; the search also starts its bounds here. */
  const INFINITY: int := 999999999

  /** The score of a quartet holding 1, 2, 3 or 4 discs of one player only. */
  const SCALE: seq<int> := [1, 10, 100, INFINITY]

  /** How many slots of q hold the disc of player `id`. */
  function Mine(id: int, q: seq<int>): nat {
    if q == [] then 0
    else Mine(id, q[..|q| - 1]) + (if q[|q| - 1] == id then 1 else 0)
  }

  /** How many slots of q hold a disc of someone other than `id`. */
  function Enemy(id: int, q: seq<int>): nat {
    if q == [] then 0
    else Enemy(id, q[..|q| - 1]) + (if q[|q| - 1] != id && q[|q| - 1] != 0 then 1 else 0)
  }

  /** The score by disc count: 1, 10, 100, INFINITY, and 0 for any other count. */
  function Magnitude(count: int): int {
    if count == 4 then INFINITY
    else if count == 3 then 100
    else if count == 2 then 10
    else if count == 1 then 1
    else 0
  }

  /** A score within [-INFINITY, INFINITY], the bounds the search starts from. */
  predicate InWindow(v: int) {
    -INFINITY <= v <= INFINITY
  }

  /** The value of one quartet for player `id`. It never exceeds a completed
      quartet's, and it stays within 100 either way while neither side holds
      four of its slots. */
  function QuartetScore(id: int, q: seq<int>): (s: int)
    ensures InWindow(s)
    ensures Mine(id, q) <= 3 && Enemy(id, q) <= 3 ==> -100 <= s <= 100
  {
    var mine, enemy := Mine(id, q), Enemy(id, q);
    if mine == 0 && enemy == 0 then 0
    else if mine > 0 && enemy > 0 then 0
    else
      var (sign, count) := if enemy > 0 then (-1, enemy) else (1, mine);
      sign * Magnitude(count)
  }

  lemma {:induction false} CountsBounded(id: int, q: seq<int>)
    ensures Mine(id, q) + Enemy(id, q) <= |q|
  {
    if q != [] {
      CountsBounded(id, q[..|q| - 1]);
    }
  }

  /** The scoring table of a quartet: it is worth nothing exactly when it is
      empty or holds discs of both sides; otherwise its size is SCALE at the
      disc count, positive for one's own discs and negative for the other's. */
  lemma QuartetScoreTable(id: int, q: seq<int>)
    requires |q| == 4
    ensures var mine, enemy, s := Mine(id, q), Enemy(id, q), QuartetScore(id, q);
      (s == 0 <==> (mine == 0 && enemy == 0) || (mine > 0 && enemy > 0)) &&
      (s > 0 <==> mine > 0 && enemy == 0) &&
      (mine > 0 && enemy == 0 ==> s == SCALE[mine - 1]) &&
      (enemy > 0 && mine == 0 ==> s == -SCALE[enemy - 1])
  {
    CountsBounded(id, q);
  }

  /** Every slot holds 0, 1 or 2. */
  predicate Discs(q: seq<int>) {
    forall i | 0 <= i < |q| :: 0 <= q[i] <= 2
  }

  lemma {:induction false} CountsSwap(q: seq<int>)
    requires Discs(q)
    ensures Mine(1, q) == Enemy(2, q) && Enemy(1, q) == Mine(2, q)
  {
    if q != [] {
      CountsSwap(q[..|q| - 1]);
    }
  }

  /** Swapping the point of view between players 1 and 2 negates a quartet's score. */
  lemma QuartetScoreSwap(q: seq<int>)
    requires Discs(q)
    ensures QuartetScore(1, q) == -QuartetScore(2, q)
  {
    CountsSwap(q);
  }

  // ---------------------------------------------------------------------------
  // Windows: which quartets the evaluation visits, in the order it visits them.

  datatype Direction = Vertical | Horizontal | UpRight | DownRight

  /** A quartet named by its direction and the column and row of its first slot. */
  datatype Window = Window(dir: Direction, col: int, row: int)

  /** The k-th slot of a window, as (column, row). */
  function Slot(w: Window, k: int): (int, int) {
    match w.dir
    case Vertical => (w.col, w.row + k)
    case Horizontal => (w.col + k, w.row)
    case UpRight => (w.col + k, w.row + k)
    case DownRight => (w.col + k, w.row - k)
  }

  /** The content of slot (c, r), or 0 off the rack. */
  function At(rack: Rack, c: int, r: int): int {
    if 0 <= c < |rack| && 0 <= r < |rack[c]| then rack[c][r] else 0
  }

  function SlotValue(rack: Rack, w: Window, k: int): int {
    At(rack, Slot(w, k).0, Slot(w, k).1)
  }

  function Quartet(rack: Rack, w: Window): (q: seq<int>)
    ensures |q| == 4
  {
    [SlotValue(rack, w, 0), SlotValue(rack, w, 1), SlotValue(rack, w, 2), SlotValue(rack, w, 3)]
  }

  function Pos(x: int): nat {
    if x > 0 then x else 0
  }

  /** How many columns a window of this direction can start in. */
  function ColumnCount(dir: Direction, width: int): nat {
    if dir == Vertical then Pos(width) else Pos(width - 3)
  }

  /** How many rows a window of this direction can start in. */
  function RowCount(dir: Direction, height: int): nat {
    if dir == Horizontal then Pos(height) else Pos(height - 3)
  }

  /** The row of the k-th window of a column: down-right windows are visited
      from the top row downwards, the others from row 0 upwards. */
  function RowAt(dir: Direction, height: int, k: int): int {
    if dir == DownRight then height - 1 - k else k
  }

  /** The windows of one direction that start in column c, in visiting order. */
  function Strip(dir: Direction, c: int, height: int): (ws: seq<Window>)
    ensures |ws| == RowCount(dir, height)
  {
    seq(RowCount(dir, height), k => Window(dir, c, RowAt(dir, height, k)))
  }

  /** The windows of one direction that start in the first n columns. */
  function Block(dir: Direction, height: int, n: nat): seq<Window> {
    if n == 0 then [] else Block(dir, height, n - 1) + Strip(dir, n - 1, height)
  }

  /** Every window the evaluation visits, in visiting order: vertical, then
      horizontal, then up-right, then down-right. */
  function Windows(width: int, height: int): seq<Window> {
    Block(Vertical, height, ColumnCount(Vertical, width)) +
    Block(Horizontal, height, ColumnCount(Horizontal, width)) +
    Block(UpRight, height, ColumnCount(UpRight, width)) +
    Block(DownRight, height, ColumnCount(DownRight, width))
  }

  /** The sum of the quartet scores of ws for player `id`. */
  function Sum(id: int, rack: Rack, ws: seq<Window>): int {
    if ws == [] then 0
    else Sum(id, rack, ws[..|ws| - 1]) + QuartetScore(id, Quartet(rack, ws[|ws| - 1]))
  }

  /** The value of a rack for player `id`. While no quartet holds four discs
      of one side, it is at most 100 per window either way. */
  function Eval(id: int, rack: Rack): (v: int)
    ensures QuartetsAtMost(id, rack, 3, 3) ==>
      -100 * |Windows(|rack|, Height(rack))| <= v <= 100 * |Windows(|rack|, Height(rack))|
  {
    SumSmall(id, rack, Windows(|rack|, Height(rack)));
    Sum(id, rack, Windows(|rack|, Height(rack)))
  }

  // ---------------------------------------------------------------------------
  // Which windows those are.

  predicate RowFits(dir: Direction, height: int, row: int) {
    match dir
    case Horizontal => 0 <= row < height
    case DownRight => 3 <= row < height
    case _ => 0 <= row && row + 3 < height
  }

  predicate ColFits(dir: Direction, width: int, col: int) {
    match dir
    case Vertical => 0 <= col < width
    case _ => 0 <= col && col + 3 < width
  }

  /** All four slots of the window lie on a width-by-height rack. */
  predicate OnRack(w: Window, width: int, height: int) {
    ColFits(w.dir, width, w.col) && RowFits(w.dir, height, w.row)
  }

  lemma OnRackSlots(w: Window, width: int, height: int, k: int)
    requires OnRack(w, width, height) && 0 <= k < 4
    ensures 0 <= Slot(w, k).0 < width && 0 <= Slot(w, k).1 < height
  {
  }

  lemma StripMembers(dir: Direction, c: int, height: int, w: Window)
    ensures w in Strip(dir, c, height) <==> w.dir == dir && w.col == c && RowFits(dir, height, w.row)
  {
    var ws := Strip(dir, c, height);
    if w.dir == dir && w.col == c && RowFits(dir, height, w.row) {
      var k := if dir == DownRight then height - 1 - w.row else w.row;
      assert ws[k] == w;
    }
  }

  lemma {:induction false} BlockMembers(dir: Direction, height: int, n: nat, w: Window)
    ensures w in Block(dir, height, n) <==> w.dir == dir && 0 <= w.col < n && RowFits(dir, height, w.row)
  {
    if n > 0 {
      BlockMembers(dir, height, n - 1, w);
      StripMembers(dir, n - 1, height, w);
    }
  }

  lemma {:induction false} BlockSize(dir: Direction, height: int, n: nat)
    ensures |Block(dir, height, n)| == n * RowCount(dir, height)
  {
    if n > 0 {
      BlockSize(dir, height, n - 1);
    }
  }

  /** The evaluation visits exactly the windows that lie on the rack. */
  lemma WindowsExact(width: int, height: int, w: Window)
    ensures w in Windows(width, height) <==> OnRack(w, width, height)
  {
    BlockMembers(Vertical, height, ColumnCount(Vertical, width), w);
    BlockMembers(Horizontal, height, ColumnCount(Horizontal, width), w);
    BlockMembers(UpRight, height, ColumnCount(UpRight, width), w);
    BlockMembers(DownRight, height, ColumnCount(DownRight, width), w);
  }

  /** On a W-by-H rack (W, H >= 3) the evaluation visits W(H-3) vertical,
      (W-3)H horizontal and (W-3)(H-3) windows in each diagonal direction. */
  lemma WindowCount(width: int, height: int)
    requires width >= 3 && height >= 3
    ensures |Windows(width, height)| ==
      width * (height - 3) + (width - 3) * height + 2 * ((width - 3) * (height - 3))
  {
    BlockSize(Vertical, height, ColumnCount(Vertical, width));
    BlockSize(Horizontal, height, ColumnCount(Horizontal, width));
    BlockSize(UpRight, height, ColumnCount(UpRight, width));
    BlockSize(DownRight, height, ColumnCount(DownRight, width));
  }

  // ---------------------------------------------------------------------------
  // Sums over windows.

  lemma {:induction false} SumAppend(id: int, rack: Rack, a: seq<Window>, b: seq<Window>)
    ensures Sum(id, rack, a + b) == Sum(id, rack, a) + Sum(id, rack, b)
  {
    if b != [] {
      assert (a + b)[..|a + b| - 1] == a + b[..|b| - 1];
      SumAppend(id, rack, a, b[..|b| - 1]);
    } else {
      assert a + b == a;
    }
  }

  lemma SumPush(id: int, rack: Rack, a: seq<Window>, w: Window)
    ensures Sum(id, rack, a + [w]) == Sum(id, rack, a) + QuartetScore(id, Quartet(rack, w))
  {
    assert (a + [w])[..|a|] == a;
  }

  /** One more window of a strip adds its quartet's score. */
  lemma SumStripStep(id: int, rack: Rack, dir: Direction, c: int, height: int, k: int)
    requires 0 <= k < RowCount(dir, height)
    ensures Sum(id, rack, Strip(dir, c, height)[..k + 1]) ==
            Sum(id, rack, Strip(dir, c, height)[..k]) +
            QuartetScore(id, Quartet(rack, Window(dir, c, RowAt(dir, height, k))))
  {
    var strip := Strip(dir, c, height);
    assert strip[..k + 1] == strip[..k] + [strip[k]];
    SumPush(id, rack, strip[..k], strip[k]);
  }

  /** One more column adds the score of its strip. */
  lemma SumBlockStep(id: int, rack: Rack, dir: Direction, height: int, c: nat)
    ensures Sum(id, rack, Block(dir, height, c + 1)) ==
            Sum(id, rack, Block(dir, height, c)) + Sum(id, rack, Strip(dir, c, height))
  {
    SumAppend(id, rack, Block(dir, height, c), Strip(dir, c, height));
  }

  // The quartets as the evaluation reads them off the rack.

  lemma VerticalQuartet(rack: Rack, c: int, i: int)
    requires 0 <= c < |rack| && 0 <= i && i + 4 <= |rack[c]|
    ensures rack[c][i..i + 4] == Quartet(rack, Window(Vertical, c, i))
  {
  }

  lemma HorizontalQuartet(rack: Rack, c: int, i: int)
    requires IsRack(rack) && 0 <= c && c + 3 < |rack| && 0 <= i < |rack[c]|
    ensures [rack[c][i], rack[c + 1][i], rack[c + 2][i], rack[c + 3][i]] == Quartet(rack, Window(Horizontal, c, i))
  {
  }

  lemma UpRightQuartet(rack: Rack, c: int, r: int)
    requires IsRack(rack) && 0 <= c && c + 3 < |rack| && 0 <= r && r + 3 < |rack[c]|
    ensures [rack[c][r], rack[c + 1][r + 1], rack[c + 2][r + 2], rack[c + 3][r + 3]] == Quartet(rack, Window(UpRight, c, r))
  {
  }

  lemma DownRightQuartet(rack: Rack, c: int, r: int)
    requires IsRack(rack) && 0 <= c && c + 3 < |rack| && 3 <= r < |rack[c]|
    ensures [rack[c][r], rack[c + 1][r - 1], rack[c + 2][r - 2], rack[c + 3][r - 3]] == Quartet(rack, Window(DownRight, c, r))
  {
  }

  /** Every slot of the rack holds 0, 1 or 2. */
  predicate DiscRack(rack: Rack) {
    forall c | 0 <= c < |rack| :: Discs(rack[c])
  }

  lemma {:induction false} SumSwap(rack: Rack, ws: seq<Window>)
    requires DiscRack(rack)
    ensures Sum(1, rack, ws) == -Sum(2, rack, ws)
  {
    if ws != [] {
      SumSwap(rack, ws[..|ws| - 1]);
      var q := Quartet(rack, ws[|ws| - 1]);
      QuartetScoreSwap(q);
    }
  }

  /** The evaluation is zero-sum: player 1's value of a rack is the negation of player 2's. */
  lemma EvalSwap(rack: Rack)
    requires DiscRack(rack)
    ensures Eval(1, rack) == -Eval(2, rack)
  {
    SumSwap(rack, Windows(|rack|, Height(rack)));
  }

  // ---------------------------------------------------------------------------
  // Disc counts per quartet, and how a drop changes them.

  /** Every quartet holds at most `mine` discs of player `id` and at most
      `enemy` discs of anyone else. */
  ghost predicate QuartetsAtMost(id: int, rack: Rack, mine: int, enemy: int) {
    forall w: Window :: Mine(id, Quartet(rack, w)) <= mine && Enemy(id, Quartet(rack, w)) <= enemy
  }

  /** While no quartet holds four discs of one side, a rack of at most
      INFINITY / 100 windows has a value within [-INFINITY, INFINITY]. */
  lemma FewDiscsEval(id: int, rack: Rack, mine: int, enemy: int)
    requires QuartetsAtMost(id, rack, mine, enemy) && mine <= 3 && enemy <= 3
    requires 100 * |Windows(|rack|, Height(rack))| <= INFINITY
    ensures InWindow(Eval(id, rack))
  {
    assert QuartetsAtMost(id, rack, 3, 3);
  }

  /** No slot holds a disc. */
  predicate EmptyRack(rack: Rack) {
    forall c, r | 0 <= c < |rack| && 0 <= r < |rack[c]| :: rack[c][r] == 0
  }

  lemma {:induction false} SumSmall(id: int, rack: Rack, ws: seq<Window>)
    ensures QuartetsAtMost(id, rack, 3, 3) ==> -100 * |ws| <= Sum(id, rack, ws) <= 100 * |ws|
  {
    if ws != [] {
      SumSmall(id, rack, ws[..|ws| - 1]);
    }
  }

  lemma {:induction false} ZeroCounts(id: int, q: seq<int>)
    requires id != 0 && forall i | 0 <= i < |q| :: q[i] == 0
    ensures Mine(id, q) == 0 && Enemy(id, q) == 0
  {
    if q != [] {
      ZeroCounts(id, q[..|q| - 1]);
    }
  }

  /** Filling one empty slot of a quartet with x adds one to the count of x's side. */
  lemma {:induction false} CountsUpdate(id: int, q: seq<int>, k: int, x: int)
    requires 0 <= k < |q| && q[k] == 0 && id != 0
    ensures Mine(id, q[k := x]) == Mine(id, q) + (if x == id then 1 else 0)
    ensures Enemy(id, q[k := x]) == Enemy(id, q) + (if x != id && x != 0 then 1 else 0)
  {
    var q' := q[k := x];
    if k == |q| - 1 {
      assert q'[..|q'| - 1] == q[..|q| - 1];
    } else {
      assert q'[..|q'| - 1] == q[..|q| - 1][k := x];
      CountsUpdate(id, q[..|q| - 1], k, x);
    }
  }

  /** A drop fills the lowest empty slot of its column, which was empty, and
      changes no other slot. */
  lemma DropAt(rack: Rack, c: int, p: int, x: int, y: int)
    requires 0 <= c < |rack|
    ensures var hit := x == c && y == Lowest(rack[c]) && y < |rack[c]|;
      At(Drop(rack, c, p), x, y) == (if hit then p else At(rack, x, y)) &&
      (hit ==> At(rack, x, y) == 0)
  {
  }

  /** Filling at most one empty slot of a quartet adds at most one to the
      count of the new disc's side. */
  lemma FillAtMostOne(id: int, q: seq<int>, q': seq<int>, hit: int -> bool, x: int)
    requires id != 0 && |q'| == |q|
    requires forall j | 0 <= j < |q| :: q'[j] == (if hit(j) then x else q[j]) && (hit(j) ==> q[j] == 0)
    requires forall i, j | 0 <= i < j < |q| && hit(i) :: !hit(j)
    ensures Mine(id, q') <= Mine(id, q) + (if x == id then 1 else 0)
    ensures Enemy(id, q') <= Enemy(id, q) + (if x != id && x != 0 then 1 else 0)
  {
    if k :| 0 <= k < |q| && hit(k) {
      assert q' == q[k := x];
      CountsUpdate(id, q, k, x);
    } else {
      assert q' == q;
    }
  }

  /** A drop fills at most one slot of any quartet, and that slot was empty: a
      quartet gains at most one disc, of the dropping player's side. */
  lemma DropQuartet(id: int, rack: Rack, c: int, p: int, w: Window)
    requires 0 <= c < |rack| && id != 0
    ensures Mine(id, Quartet(Drop(rack, c, p), w)) <= Mine(id, Quartet(rack, w)) + (if p == id then 1 else 0)
    ensures Enemy(id, Quartet(Drop(rack, c, p), w)) <= Enemy(id, Quartet(rack, w)) + (if p != id && p != 0 then 1 else 0)
  {
    var low := Lowest(rack[c]);
    var q, q' := Quartet(rack, w), Quartet(Drop(rack, c, p), w);
    var hit := j => Slot(w, j) == (c, low) && low < |rack[c]|;
    forall j | 0 <= j < 4
      ensures q'[j] == (if hit(j) then p else q[j]) && (hit(j) ==> q[j] == 0)
    {
      DropAt(rack, c, p, Slot(w, j).0, Slot(w, j).1);
    }
    FillAtMostOne(id, q, q', hit, p);
  }

  lemma DropKeepsFew(id: int, rack: Rack, c: int, p: int, mine: int, enemy: int)
    requires 0 <= c < |rack| && id != 0 && QuartetsAtMost(id, rack, mine, enemy)
    ensures QuartetsAtMost(id, Drop(rack, c, p), mine + (if p == id then 1 else 0),
                           enemy + (if p != id && p != 0 then 1 else 0))
  {
    forall w: Window
      ensures Mine(id, Quartet(Drop(rack, c, p), w)) <= mine + (if p == id then 1 else 0)
      ensures Enemy(id, Quartet(Drop(rack, c, p), w)) <= enemy + (if p != id && p != 0 then 1 else 0)
    {
      DropQuartet(id, rack, c, p, w);
    }
  }

  /** On an empty rack no quartet holds a disc. */
  lemma EmptyRackQuartets(id: int, rack: Rack)
    requires EmptyRack(rack) && id != 0
    ensures QuartetsAtMost(id, rack, 0, 0)
  {
    forall w: Window
      ensures Mine(id, Quartet(rack, w)) <= 0 && Enemy(id, Quartet(rack, w)) <= 0
    {
      ZeroCounts(id, Quartet(rack, w));
    }
  }
}
