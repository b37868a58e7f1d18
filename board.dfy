/** The rack and the two primitives the search uses to explore hypothetical
    futures on one shared rack: dropping a disc into a column and lifting the
    topmost disc back out of it. */
module Board {

  /** A rack is column-major: rack[c][r] is the slot in column c, row r, with
      column 0 on the left and row 0 at the bottom. 0 marks an empty slot and
      any other value is a disc of the player with that number. */
  type Rack = seq<seq<int>>

  /** Every column has the same, positive, height. */
  predicate IsRack(rack: Rack) {
    forall c | 0 <= c < |rack| :: 0 < |rack[c]| == |rack[0]|
  }

  function Height(rack: Rack): nat {
    if rack == [] then 0 else |rack[0]|
  }

  /** No floating discs: every slot above an empty slot is empty too. */
  predicate Settled(col: seq<int>) {
    forall i, j | 0 <= i < j < |col| && col[i] == 0 :: col[j] == 0
  }

  predicate SettledRack(rack: Rack) {
    forall c | 0 <= c < |rack| :: Settled(rack[c])
  }

  /** The legality test of the search: a column is full when its top slot holds a disc. */
  predicate Full(col: seq<int>)
    requires col != []
  {
    col[|col| - 1] != 0
  }

  /** The index of the lowest empty slot of a column, or |col| when it has none. */
  function Lowest(col: seq<int>): (k: nat)
    ensures k <= |col|
    ensures k < |col| ==> col[k] == 0
    ensures forall j | 0 <= j < k :: col[j] != 0
  {
    if col == [] then 0
    else if col[0] == 0 then 0
    else 1 + Lowest(col[1..])
  }

  /** The index of the topmost disc of a column, or -1 when it holds none. */
  function Highest(col: seq<int>): (k: int)
    ensures -1 <= k < |col|
    ensures 0 <= k ==> col[k] != 0
    ensures forall j | k < j < |col| :: col[j] == 0
  {
    if col == [] then -1
    else if col[|col| - 1] != 0 then |col| - 1
    else Highest(col[..|col| - 1])
  }

  /** On a settled column, being full is the same as having no empty slot. */
  lemma FullIffNoEmptySlot(col: seq<int>)
    requires col != [] && Settled(col)
    ensures Full(col) <==> Lowest(col) == |col|
  {
    if Lowest(col) < |col| - 1 {
      assert col[Lowest(col)] == 0;
    }
  }

  /** The rack after dropping a disc of `player` into column c: the lowest empty
      slot of that column receives the disc; a column without an empty slot is
      left as it is. */
  function Drop(rack: Rack, c: int, player: int): (r: Rack)
    requires 0 <= c < |rack|
    ensures |r| == |rack|
    ensures forall d | 0 <= d < |rack| :: |r[d]| == |rack[d]|
    ensures Lowest(rack[c]) < |rack[c]| ==> r[c][Lowest(rack[c])] == player
    ensures forall d, i | 0 <= d < |rack| && 0 <= i < |rack[d]| && (d != c || i != Lowest(rack[c])) ::
              r[d][i] == rack[d][i]
    ensures IsRack(rack) ==> IsRack(r)
  {
    var k := Lowest(rack[c]);
    if k == |rack[c]| then rack else rack[c := rack[c][k := player]]
  }

  /** The rack after taking the topmost disc out of column c: that slot becomes
      empty; a column without discs is left as it is. */
  function Lift(rack: Rack, c: int): (r: Rack)
    requires 0 <= c < |rack|
    ensures |r| == |rack|
    ensures forall d | 0 <= d < |rack| :: |r[d]| == |rack[d]|
    ensures 0 <= Highest(rack[c]) ==> r[c][Highest(rack[c])] == 0
    ensures forall d, i | 0 <= d < |rack| && 0 <= i < |rack[d]| && (d != c || i != Highest(rack[c])) ::
              r[d][i] == rack[d][i]
  {
    var k := Highest(rack[c]);
    if k < 0 then rack else rack[c := rack[c][k := 0]]
  }

  /** Dropping a real disc keeps every column free of floating discs. */
  lemma DropKeepsSettled(rack: Rack, c: int, player: int)
    requires 0 <= c < |rack| && SettledRack(rack) && player != 0
    ensures SettledRack(Drop(rack, c, player))
  {
    var r := Drop(rack, c, player);
    var k := Lowest(rack[c]);
    forall i, j | 0 <= i < j < |r[c]| && r[c][i] == 0
      ensures r[c][j] == 0
    {
      if i == k {
        assert false;
      }
      assert rack[c][i] == 0;
    }
    assert Settled(r[c]);
  }

  /** Lifting after dropping into a settled column with room restores the rack:
      the disc just dropped is the topmost one, so it is the one taken out. */
  lemma LiftUndoesDrop(rack: Rack, c: int, player: int)
    requires 0 <= c < |rack| && rack[c] != [] && Settled(rack[c]) && !Full(rack[c])
    requires player != 0
    ensures Lift(Drop(rack, c, player), c) == rack
  {
    var k := Lowest(rack[c]);
    FullIffNoEmptySlot(rack[c]);
    var col := Drop(rack, c, player)[c];
    assert col[k] == player;
    forall j | k < j < |col|
      ensures col[j] == 0
    {
      assert rack[c][k] == 0;
    }
    var h := Highest(col);
    assert h == k;
    assert col[k := 0] == rack[c];
  }
}
