/** The 3x3 tic-tac-toe board: cells, the eight winning lines, the win
    evaluator and the list of empty cells. Cells are numbered 0..8 row by row. */
module Board {

  datatype Option<T> = None | Some(value: T)

  datatype Player = X | O

  /** A cell is empty (the source's `null`) or holds a player's mark. */
  datatype Cell = Empty | Mark(player: Player)

  function Other(p: Player): (q: Player)
    ensures q != p
  {
    if p == X then O else X
  }

  /** A valid cell index. */
  type Index = i: nat | i < 9

  /** The eight winning triples, in the order the evaluator scans them:
      three rows, three columns, two diagonals. */
  const Lines: seq<(Index, Index, Index)> := [
    (0, 1, 2), (3, 4, 5), (6, 7, 8),
    (0, 3, 6), (1, 4, 7), (2, 5, 8),
    (0, 4, 8), (2, 4, 6)
  ]

  /** Line k of board b holds three marks of player p. */
  predicate Owns(b: seq<Cell>, k: nat, p: Player)
    requires |b| == 9 && k < |Lines|
  {
    var (i, j, l) := Lines[k];
    b[i] == Mark(p) && b[j] == Mark(p) && b[l] == Mark(p)
  }

  /** No player owns any of the lines before k. */
  predicate NoLineBefore(b: seq<Cell>, k: nat)
    requires |b| == 9 && k <= |Lines|
  {
    forall j, q :: 0 <= j < k ==> !Owns(b, j, q)
  }

  /** Every cell of the board is marked. */
  predicate Full(b: seq<Cell>) {
    forall i :: 0 <= i < |b| ==> b[i] != Empty
  }

  /** The scan of the evaluator from line k on. */
  function WinnerFrom(b: seq<Cell>, k: nat): Option<Player>
    requires |b| == 9 && k <= |Lines|
    decreases |Lines| - k
  {
    if k == |Lines| then None
    else
      var (i, j, l) := Lines[k];
      if b[i] != Empty && b[i] == b[j] && b[i] == b[l] then Some(b[i].player)
      else WinnerFrom(b, k + 1)
  }

  /** The win evaluator: scans the lines in list order. */
  function Winner(b: seq<Cell>): Option<Player>
    requires |b| == 9
  {
    WinnerFrom(b, 0)
  }

  lemma {:induction false} WinnerFromSpec(b: seq<Cell>, k: nat)
    requires |b| == 9 && k <= |Lines|
    decreases |Lines| - k
    ensures WinnerFrom(b, k).None? <==> forall j, q :: k <= j < |Lines| ==> !Owns(b, j, q)
    ensures WinnerFrom(b, k).Some? ==>
      exists j :: k <= j < |Lines| && Owns(b, j, WinnerFrom(b, k).value) &&
        forall j', q :: k <= j' < j ==> !Owns(b, j', q)
  {
    if k < |Lines| {
      var (i, j, l) := Lines[k];
      if b[i] != Empty && b[i] == b[j] && b[i] == b[l] {
        assert Owns(b, k, b[i].player);
      } else {
        WinnerFromSpec(b, k + 1);
      }
    }
  }

  /** The evaluator returns a mark exactly when some line holds three equal
      marks, and then it is the mark of the first such line in list order;
      otherwise it returns None. */
  lemma WinnerSpec(b: seq<Cell>)
    requires |b| == 9
    ensures Winner(b).None? <==> forall k, q :: 0 <= k < |Lines| ==> !Owns(b, k, q)
    ensures Winner(b).Some? ==>
      exists k :: 0 <= k < |Lines| && Owns(b, k, Winner(b).value) && NoLineBefore(b, k)
  {
    WinnerFromSpec(b, 0);
  }

  /** The indices of the empty cells from index k on, in ascending order. */
  function EmptyIndicesFrom(b: seq<Cell>, k: nat): (r: seq<nat>)
    requires k <= |b|
    decreases |b| - k
    ensures forall q :: 0 <= q < |r| ==> k <= r[q] < |b| && b[r[q]] == Empty
    ensures forall q, q' :: 0 <= q < q' < |r| ==> r[q] < r[q']
    ensures forall i :: k <= i < |b| && b[i] == Empty ==> i in r
  {
    if k == |b| then []
    else if b[k] == Empty then [k] + EmptyIndicesFrom(b, k + 1)
    else EmptyIndicesFrom(b, k + 1)
  }

  /** The empty cells of the board, in ascending index order. */
  function EmptyIndices(b: seq<Cell>): (r: seq<nat>)
    ensures forall q :: 0 <= q < |r| ==> r[q] < |b| && b[r[q]] == Empty
    ensures forall q, q' :: 0 <= q < q' < |r| ==> r[q] < r[q']
    ensures forall i :: 0 <= i < |b| && b[i] == Empty ==> i in r
    ensures r == [] <==> Full(b)
  {
    var r := EmptyIndicesFrom(b, 0);
    assert r != [] ==> b[r[0]] == Empty;
    r
  }

  /** The set of empty cells; it shrinks with every mark placed, which is what
      makes the game-tree search terminate. */
  function Empties(b: seq<Cell>): set<nat> {
    set i | 0 <= i < |b| && b[i] == Empty
  }

  lemma FillShrinks(b: seq<Cell>, s: nat, c: Cell)
    requires s < |b| && b[s] == Empty && c != Empty
    ensures Empties(b[s := c]) < Empties(b)
  {
    assert s in Empties(b) - Empties(b[s := c]);
  }

  /** Marking an empty cell of a board that has no winner can only make the
      mover the winner: every line the new board completes runs through the
      new mark. */
  lemma OnlyMoverCanWin(b: seq<Cell>, s: nat, p: Player)
    requires |b| == 9 && s < 9 && b[s] == Empty
    requires Winner(b).None?
    ensures Winner(b[s := Mark(p)]) == None || Winner(b[s := Mark(p)]) == Some(p)
  {
    var b' := b[s := Mark(p)];
    WinnerSpec(b);
    WinnerSpec(b');
    var w := Winner(b');
    if w.Some? && w.value != p {
      var k :| 0 <= k < |Lines| && Owns(b', k, w.value) && NoLineBefore(b', k);
      assert Owns(b, k, w.value);
      assert false;
    }
  }
}
