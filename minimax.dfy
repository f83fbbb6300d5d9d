/** The hard policy: an exhaustive minimax search in which O maximises and X
    minimises. It uses flat scores with no depth discount: an O win is +10, an
    X win is -10 and a full board is 0. Ties go to the first empty cell in
    index order. */
module GameTree {
  import opened Board

  /** One scored candidate, the source's `{ index, score }` move record. */
  datatype Scored = Scored(index: nat, score: int)

  /** What the search returns: the score, and the chosen cell, which is None on
      a terminal board (where the source's record has no `index`). */
  datatype Outcome = Outcome(score: int, index: Option<nat>)

  predicate ValidScore(s: int) {
    s == -10 || s == 0 || s == 10
  }

  /** Score s beats score t for player p: O wants it higher, X lower. */
  predicate Improves(s: int, t: int, p: Player) {
    if p == O then s > t else s < t
  }

  /** The best-score selection: a left-to-right scan that replaces the best
      move only on a strict improvement. None plays the role of the source's
      infinite starting score, which every move improves on. */
  function SelectBest(moves: seq<Scored>, p: Player): (r: Option<Scored>)
    ensures r.None? <==> moves == []
  {
    if moves == [] then None
    else
      var prev := SelectBest(moves[..|moves| - 1], p);
      var m := moves[|moves| - 1];
      if prev.None? || Improves(m.score, prev.value.score, p) then Some(m) else prev
  }

  /** The selected move sits at some position k: no move is better for p,
      and every move before k is strictly worse, so ties go to the first. */
  lemma {:induction false} SelectBestAt(moves: seq<Scored>, p: Player) returns (k: nat)
    requires moves != []
    ensures k < |moves| && SelectBest(moves, p) == Some(moves[k])
    ensures forall j :: 0 <= j < |moves| ==> !Improves(moves[j].score, moves[k].score, p)
    ensures forall j :: 0 <= j < k ==> Improves(moves[k].score, moves[j].score, p)
  {
    var n := |moves|;
    if n == 1 {
      k := 0;
    } else {
      var init := moves[..n - 1];
      var k' := SelectBestAt(init, p);
      if Improves(moves[n - 1].score, init[k'].score, p) {
        k := n - 1;
      } else {
        k := k';
      }
    }
  }

  /** Every index in spots is an empty cell of b. */
  predicate AllEmpty(b: seq<Cell>, spots: seq<nat>) {
    forall q :: 0 <= q < |spots| ==> spots[q] < |b| && b[spots[q]] == Empty
  }

  /** The minimax value and choice for player p to move on board b. */
  function Minimax(b: seq<Cell>, p: Player): Outcome
    requires |b| == 9
    decreases Empties(b), 1, 0
  {
    match Winner(b)
    case Some(X) => Outcome(-10, None)
    case Some(O) => Outcome(10, None)
    case None =>
      var spots := EmptyIndices(b);
      if spots == [] then Outcome(0, None)
      else
        var best := SelectBest(ScoreMoves(b, p, spots), p);
        Outcome(best.value.score, Some(best.value.index))
  }

  /** The candidate list: for each spot in order, p's mark there, scored by
      the search for the other player. */
  function ScoreMoves(b: seq<Cell>, p: Player, spots: seq<nat>): (r: seq<Scored>)
    requires |b| == 9 && AllEmpty(b, spots)
    decreases Empties(b), 0, |spots|
    ensures |r| == |spots|
    ensures forall q :: 0 <= q < |r| ==> r[q].index == spots[q]
  {
    if spots == [] then []
    else
      var s := spots[|spots| - 1];
      FillShrinks(b, s, Mark(p));
      ScoreMoves(b, p, spots[..|spots| - 1]) + [Scored(s, Minimax(b[s := Mark(p)], Other(p)).score)]
  }

  /** Extending the candidate list by one spot appends that spot's candidate. */
  lemma ScoreMovesSnoc(b: seq<Cell>, p: Player, spots: seq<nat>, i: nat)
    requires |b| == 9 && AllEmpty(b, spots) && i < |spots|
    ensures ScoreMoves(b, p, spots[..i + 1]) ==
            ScoreMoves(b, p, spots[..i]) + [Scored(spots[i], ChildScore(b, p, spots[i]))]
  {
    assert spots[..i + 1][..i] == spots[..i];
  }

  /** The score of the position after p marks the empty cell j. */
  function ChildScore(b: seq<Cell>, p: Player, j: nat): int
    requires |b| == 9 && j < 9 && b[j] == Empty
  {
    Minimax(b[j := Mark(p)], Other(p)).score
  }

  lemma {:induction false} ScoreMovesAt(b: seq<Cell>, p: Player, spots: seq<nat>, q: nat)
    requires |b| == 9 && AllEmpty(b, spots) && q < |spots|
    ensures ScoreMoves(b, p, spots)[q] == Scored(spots[q], ChildScore(b, p, spots[q]))
    decreases |spots|
  {
    if q < |spots| - 1 {
      ScoreMovesAt(b, p, spots[..|spots| - 1], q);
    }
  }

  /** The search scores only -10, 0 or +10, and the terminal boards score as
      the source says: -10 when X has won, +10 when O has won, 0 when the board
      is full with no winner; terminal boards come with no move. */
  lemma {:induction false} MinimaxScores(b: seq<Cell>, p: Player)
    requires |b| == 9
    ensures ValidScore(Minimax(b, p).score)
    ensures Winner(b) == Some(X) ==> Minimax(b, p) == Outcome(-10, None)
    ensures Winner(b) == Some(O) ==> Minimax(b, p) == Outcome(10, None)
    ensures Winner(b) == None && Full(b) ==> Minimax(b, p) == Outcome(0, None)
    ensures Winner(b) == None && !Full(b) ==> Minimax(b, p).index.Some?
    decreases Empties(b)
  {
    var spots := EmptyIndices(b);
    if Winner(b) == None && spots != [] {
      var moves := ScoreMoves(b, p, spots);
      var k := SelectBestAt(moves, p);
      ScoreMovesAt(b, p, spots, k);
      FillShrinks(b, spots[k], Mark(p));
      MinimaxScores(b[spots[k] := Mark(p)], Other(p));
      assert Minimax(b, p).score == ChildScore(b, p, spots[k]);
    }
  }

  /** The position k in the candidate list of the move the search selects on
      a board with no winner and an empty cell. */
  lemma SelectedCandidate(b: seq<Cell>, p: Player) returns (k: nat)
    requires |b| == 9 && Winner(b) == None && !Full(b)
    ensures var spots := EmptyIndices(b); var moves := ScoreMoves(b, p, spots);
      k < |spots| && moves[k] == Scored(spots[k], ChildScore(b, p, spots[k])) &&
      Minimax(b, p) == Outcome(moves[k].score, Some(spots[k])) &&
      (forall j :: 0 <= j < |moves| ==> !Improves(moves[j].score, moves[k].score, p)) &&
      (forall j :: 0 <= j < k ==> Improves(moves[k].score, moves[j].score, p))
  {
    var spots := EmptyIndices(b);
    var moves := ScoreMoves(b, p, spots);
    k := SelectBestAt(moves, p);
    ScoreMovesAt(b, p, spots, k);
  }

  /** On a board with no winner and an empty cell, the search returns a move,
      the move is an empty cell, and the search's score is that move's child
      score. */
  lemma MinimaxPicksEmptyCell(b: seq<Cell>, p: Player)
    requires |b| == 9 && Winner(b) == None && !Full(b)
    ensures var r := Minimax(b, p);
      r.index.Some? && r.index.value < 9 && b[r.index.value] == Empty &&
      r.score == ChildScore(b, p, r.index.value)
  {
    var k := SelectedCandidate(b, p);
  }

  /** No empty cell has a child score better for p than the chosen one: the
      search maximises for O and minimises for X. */
  lemma MinimaxPicksBestScore(b: seq<Cell>, p: Player)
    requires |b| == 9 && Winner(b) == None && !Full(b)
    ensures forall j :: 0 <= j < 9 && b[j] == Empty ==> !Improves(ChildScore(b, p, j), Minimax(b, p).score, p)
  {
    var k := SelectedCandidate(b, p);
    var spots := EmptyIndices(b);
    var moves := ScoreMoves(b, p, spots);
    forall j | 0 <= j < 9 && b[j] == Empty
      ensures !Improves(ChildScore(b, p, j), Minimax(b, p).score, p)
    {
      var q := CandidateOf(b, p, spots, j);
      assert moves[q].score == ChildScore(b, p, j);
      assert !Improves(moves[q].score, moves[k].score, p);
    }
  }

  /** Ties go to the lowest index: every empty cell below the chosen one has a
      child score strictly worse for p. */
  lemma MinimaxPicksFirstBest(b: seq<Cell>, p: Player)
    requires |b| == 9 && Winner(b) == None && !Full(b)
    ensures var r := Minimax(b, p);
      r.index.Some? && r.index.value < 9 &&
      forall j :: 0 <= j < r.index.value && b[j] == Empty ==> Improves(r.score, ChildScore(b, p, j), p)
  {
    var k := SelectedCandidate(b, p);
    var spots := EmptyIndices(b);
    var moves := ScoreMoves(b, p, spots);
    forall j | 0 <= j < spots[k] && b[j] == Empty
      ensures Improves(Minimax(b, p).score, ChildScore(b, p, j), p)
    {
      var q := CandidateOf(b, p, spots, j);
      assert moves[q].score == ChildScore(b, p, j);
      assert q < k;
    }
  }

  /** Each empty cell j appears in the candidate list at a position q, in
      ascending order, scored with its child score. */
  lemma CandidateOf(b: seq<Cell>, p: Player, spots: seq<nat>, j: nat) returns (q: nat)
    requires |b| == 9 && spots == EmptyIndices(b) && j < 9 && b[j] == Empty
    ensures q < |spots| && spots[q] == j
    ensures ScoreMoves(b, p, spots)[q] == Scored(j, ChildScore(b, p, j))
    ensures forall q' :: 0 <= q' < |spots| && spots[q'] > j ==> q < q'
  {
    assert j in spots;
    q :| 0 <= q < |spots| && spots[q] == j;
    ScoreMovesAt(b, p, spots, q);
  }

  /** The best-score selection loop of the search: a candidate replaces the
      best so far only when its score is strictly better for p. */
  method PickBest(moves: seq<Scored>, p: Player) returns (best: Option<Scored>)
    ensures best == SelectBest(moves, p)
  {
    best := None;
    for i := 0 to |moves|
      invariant best == SelectBest(moves[..i], p)
    {
      if best.None? || Improves(moves[i].score, best.value.score, p) {
        best := Some(moves[i]);
      }
      assert moves[..i + 1][..i] == moves[..i];
    }
    assert moves[..|moves|] == moves;
  }

  /** The source's search, in place on the array: it scores every empty cell
      as a candidate, then selects the best one. The board is left as it was
      found. */
  method Search(b: array<Cell>, p: Player) returns (r: Outcome)
    requires b.Length == 9
    modifies b
    decreases Empties(b[..]), 2
    ensures b[..] == old(b[..])
    ensures r == Minimax(old(b[..]), p)
  {
    var avail := EmptyIndices(b[..]);
    match Winner(b[..])
    case Some(X) => return Outcome(-10, None);
    case Some(O) => return Outcome(10, None);
    case None =>
    if |avail| == 0 {
      return Outcome(0, None);
    }
    ghost var start := b[..];
    var moves := ScoreCandidates(b, p, avail);
    var best := PickBest(moves, p);
    assert Minimax(start, p) == Outcome(best.value.score, Some(best.value.index));
    return Outcome(best.value.score, Some(best.value.index));
  }

  /** The candidate loop of the search: each spot in order becomes a
      candidate scored by trying it. */
  method ScoreCandidates(b: array<Cell>, p: Player, avail: seq<nat>) returns (moves: seq<Scored>)
    requires b.Length == 9 && AllEmpty(b[..], avail)
    modifies b
    decreases Empties(b[..]), 1
    ensures b[..] == old(b[..])
    ensures moves == ScoreMoves(old(b[..]), p, avail)
  {
    ghost var start := b[..];
    moves := [];
    for i := 0 to |avail|
      invariant b[..] == start
      invariant moves == ScoreMoves(start, p, avail[..i])
    {
      var score := TryMove(b, p, avail[i]);
      moves := moves + [Scored(avail[i], score)];
      ScoreMovesSnoc(start, p, avail, i);
    }
    assert avail[..|avail|] == avail;
  }

  /** One candidate of the search: mark cell s for p, search for the other
      player, and clear the mark again. */
  method TryMove(b: array<Cell>, p: Player, s: nat) returns (score: int)
    requires b.Length == 9 && s < 9 && b[s] == Empty
    modifies b
    decreases Empties(b[..]), 0
    ensures b[..] == old(b[..])
    ensures score == ChildScore(old(b[..]), p, s)
  {
    ghost var start := b[..];
    b[s] := Mark(p);
    assert b[..] == start[s := Mark(p)];
    FillShrinks(start, s, Mark(p));
    var result := Search(b, Other(p));
    b[s] := Empty;
    assert b[..] == start;
    score := result.score;
  }
}
