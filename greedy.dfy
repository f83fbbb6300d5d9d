/** The easy and medium move policies: a random empty cell, and the first
    empty cell (in index order) where the player's mark wins at once. */
module Greedy {
  import opened Board

  /** The random policy. The random draw is an oracle input: `pick` stands for
      the index the source draws uniformly from the list of empty cells. */
  function RandomMove(b: seq<Cell>, pick: nat): (r: nat)
    requires pick < |EmptyIndices(b)|
    ensures r < |b| && b[r] == Empty
  {
    EmptyIndices(b)[pick]
  }

  /** Every empty cell is the random policy's answer for some draw. */
  lemma RandomMoveReachesEveryEmptyCell(b: seq<Cell>, i: nat)
    requires i < |b| && b[i] == Empty
    ensures exists pick: nat :: pick < |EmptyIndices(b)| && RandomMove(b, pick) == i
  {
    var e := EmptyIndices(b);
    assert i in e;
    var pick :| 0 <= pick < |e| && e[pick] == i;
    assert RandomMove(b, pick) == i;
  }

  /** Placing p at i (which must be empty) gives a board with a winner. */
  predicate WinsAt(b: seq<Cell>, p: Player, i: nat)
    requires |b| == 9 && i < 9
  {
    b[i] == Empty && Winner(b[i := Mark(p)]).Some?
  }

  /** The lowest index from k on at which placing p produces a winner. */
  function FirstWinningCell(b: seq<Cell>, p: Player, k: nat): (r: Option<nat>)
    requires |b| == 9 && k <= 9
    decreases 9 - k
    ensures r.None? <==> forall i :: k <= i < 9 ==> !WinsAt(b, p, i)
    ensures r.Some? ==> k <= r.value < 9 && WinsAt(b, p, r.value) &&
                        forall i :: k <= i < r.value ==> !WinsAt(b, p, i)
  {
    if k == 9 then None
    else if b[k] == Empty && Winner(b[k := Mark(p)]).Some? then
      assert WinsAt(b, p, k);
      Some(k)
    else FirstWinningCell(b, p, k + 1)
  }

  /** The medium policy, in place: tentatively mark each empty cell in index
      order, keep the first that wins, and clear each trial mark again. */
  method GetBestMove(b: array<Cell>, p: Player) returns (r: Option<nat>)
    requires b.Length == 9
    modifies b
    ensures b[..] == old(b[..])
    ensures r == FirstWinningCell(old(b[..]), p, 0)
  {
    for i := 0 to 9
      invariant b[..] == old(b[..])
      invariant FirstWinningCell(b[..], p, 0) == FirstWinningCell(b[..], p, i)
    {
      if b[i] == Empty {
        b[i] := Mark(p);
        if Winner(b[..]).Some? {
          b[i] := Empty;
          assert b[..] == old(b[..]);
          return Some(i);
        }
        b[i] := Empty;
        assert b[..] == old(b[..]);
      }
    }
    return None;
  }

  /** The medium policy does not block: with X one mark from completing the
      top row and no immediate win for O, it returns no cell, so O's reply is
      left to the random policy. */
  lemma MediumDoesNotBlock()
    ensures var b := [Mark(X), Mark(X), Empty, Empty, Mark(O), Empty, Empty, Empty, Empty];
            FirstWinningCell(b, O, 0) == None && Winner(b[2 := Mark(X)]) == Some(X)
  {
    var b := [Mark(X), Mark(X), Empty, Empty, Mark(O), Empty, Empty, Empty, Empty];
    forall i | 0 <= i < 9 ensures !WinsAt(b, O, i) {
      if b[i] == Empty {
        var b' := b[i := Mark(O)];
        forall k, q | 0 <= k < |Lines| ensures !Owns(b', k, q) {
        }
        WinnerSpec(b');
      }
    }
    var x := b[2 := Mark(X)];
    assert Owns(x, 0, X);
    WinnerSpec(x);
  }
}
