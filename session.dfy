/** The game session: the board, whose turn it is, the game-over flag, the
    selected mode and difficulty, and the score. Every handler of the page is
    one state transition of a Game object. The computer's reply, which the
    page schedules on a timer, is an explicit later call of ComputerMove with
    the board that HandleClick handed over. */
module Session {
  import opened Board
  import opened Greedy
  import opened GameTree

  datatype Mode = Human | Computer

  datatype Difficulty = Easy | Medium | Hard

  datatype Score = Score(xWins: nat, oWins: nat, draws: nat)

  /** The score after a win by p. */
  function AddWin(s: Score, p: Player): Score {
    if p == X then s.(xWins := s.xWins + 1) else s.(oWins := s.oWins + 1)
  }

  /** A board of nine empty cells. */
  function Blank(): seq<Cell> {
    seq(9, _ => Empty)
  }

  /** A blank board has no winner and is not full. */
  lemma BlankIsOpen()
    ensures |Blank()| == 9 && Winner(Blank()) == None && !Full(Blank())
  {
    var b := Blank();
    assert b[0] == Empty;
    forall k, q | 0 <= k < |Lines| ensures !Owns(b, k, q) {
    }
    WinnerSpec(b);
  }

  /** The cell the computer marks for a given difficulty, on a board the
      human's move left with no winner. `pick` is the random draw among the
      empty cells. Easy plays the drawn cell; medium plays the first cell that
      wins at once, else the drawn cell; hard plays the minimax choice. With no
      difficulty selected the source's move is undefined and no cell is
      marked. */
  function ComputerChoice(b: seq<Cell>, difficulty: Option<Difficulty>, pick: nat): (r: Option<nat>)
    requires |b| == 9 && Winner(b) == None && pick < |EmptyIndices(b)|
    ensures r.Some? <==> difficulty.Some?
    ensures r.Some? ==> r.value < 9 && b[r.value] == Empty
  {
    match difficulty
    case None => None
    case Some(Easy) => Some(RandomMove(b, pick))
    case Some(Medium) =>
      var m := FirstWinningCell(b, O, 0);
      if m.Some? then m else Some(RandomMove(b, pick))
    case Some(Hard) =>
      MinimaxPicksEmptyCell(b, O);
      Minimax(b, O).index
  }

  /** On medium, when some empty cell wins at once for O, the computer plays
      a winning cell, and the win is O's. */
  lemma MediumTakesImmediateWin(b: seq<Cell>, pick: nat, i: nat)
    requires |b| == 9 && Winner(b) == None && pick < |EmptyIndices(b)|
    requires i < 9 && WinsAt(b, O, i)
    ensures var r := ComputerChoice(b, Some(Medium), pick);
      r.Some? && r.value <= i && WinsAt(b, O, r.value) && Winner(b[r.value := Mark(O)]) == Some(O)
  {
    var m := FirstWinningCell(b, O, 0);
    OnlyMoverCanWin(b, m.value, O);
  }

  /** Medium: the first cell that wins at once for O, else the drawn cell. */
  method MediumMove(b: array<Cell>, pick: nat) returns (move: Option<nat>)
    requires b.Length == 9
    requires Winner(b[..]) == None && pick < |EmptyIndices(b[..])|
    modifies b
    ensures b[..] == old(b[..])
    ensures move == ComputerChoice(old(b[..]), Some(Medium), pick)
  {
    move := GetBestMove(b, O);
    if move.None? {
      move := Some(RandomMove(b[..], pick));
    }
  }

  /** Hard: the cell the game-tree search chooses for O. */
  method HardMove(b: array<Cell>, pick: nat) returns (move: Option<nat>)
    requires b.Length == 9
    requires Winner(b[..]) == None && pick < |EmptyIndices(b[..])|
    modifies b
    ensures b[..] == old(b[..])
    ensures move == ComputerChoice(old(b[..]), Some(Hard), pick)
  {
    var result := Search(b, O);
    move := result.index;
  }

  class Game {
    var board: array<Cell>
    var currentPlayer: Player
    var gameOver: bool
    var gameMode: Option<Mode>
    var difficulty: Option<Difficulty>
    var score: Score

    /** The board has nine cells, and a game that is not over shows no
        winning line. */
    ghost predicate Valid()
      reads this, board
    {
      board.Length == 9 && (!gameOver ==> Winner(board[..]) == None)
    }

    /** The initial state: an empty board, X to move, no mode, no
        difficulty, a zero score. */
    constructor ()
      ensures Valid() && fresh(board) && board[..] == Blank()
      ensures currentPlayer == X && !gameOver
      ensures gameMode == None && difficulty == None && score == Score(0, 0, 0)
    {
      board := new Cell[9](_ => Empty);
      currentPlayer := X;
      gameOver := false;
      gameMode := None;
      difficulty := None;
      score := Score(0, 0, 0);
      new;
      BlankIsOpen();
      assert board[..] == Blank();
    }

    /** Adds a win for the given mark to the score. */
    method UpdateScore(winner: Player)
      modifies this`score
      ensures score == AddWin(old(score), winner)
    {
      score := AddWin(score, winner);
    }

    /** A click on cell index. It is ignored on an occupied cell or a finished
        game. Otherwise the current player's mark goes into a copy of the
        board, and then exactly one of three things happens: a win, which
        adds to the mover's counter and ends the game; a full board, which
        adds a draw and ends the game; or the turn passes to the other player.
        In the last case the result hands over the new board when the
        computer must answer: computer mode, and the player who moved (read
        before the toggle) was X. */
    method HandleClick(index: nat) returns (scheduled: Option<array<Cell>>)
      requires Valid() && index < 9
      modifies this
      ensures Valid()
      ensures gameMode == old(gameMode) && difficulty == old(difficulty)
      ensures old(board[index]) != Empty || old(gameOver) ==>
        board == old(board) && board[..] == old(board[..]) &&
        currentPlayer == old(currentPlayer) && gameOver == old(gameOver) &&
        score == old(score) && scheduled == None
      ensures old(board[index]) == Empty && !old(gameOver) ==>
        fresh(board) && board[..] == old(board[..])[index := Mark(old(currentPlayer))]
      ensures old(board[index]) == Empty && !old(gameOver) && Winner(board[..]).Some? ==>
        Winner(board[..]) == Some(old(currentPlayer)) &&
        gameOver && score == AddWin(old(score), old(currentPlayer)) &&
        currentPlayer == old(currentPlayer) && scheduled == None
      ensures old(board[index]) == Empty && !old(gameOver) && Winner(board[..]) == None && Full(board[..]) ==>
        gameOver && score == old(score).(draws := old(score).draws + 1) &&
        currentPlayer == old(currentPlayer) && scheduled == None
      ensures old(board[index]) == Empty && !old(gameOver) && Winner(board[..]) == None && !Full(board[..]) ==>
        !gameOver && score == old(score) && currentPlayer == Other(old(currentPlayer)) &&
        scheduled == (if gameMode == Some(Computer) && old(currentPlayer) == X then Some(board) else None)
    {
      if board[index] != Empty || gameOver {
        return None;
      }
      var cells := board[..];
      var newBoard := new Cell[9](i requires 0 <= i < 9 => cells[i]);
      newBoard[index] := Mark(currentPlayer);
      board := newBoard;
      assert board[..] == cells[index := Mark(currentPlayer)];

      scheduled := None;
      var winner := Winner(newBoard[..]);
      if winner.Some? {
        OnlyMoverCanWin(cells, index, currentPlayer);
        UpdateScore(winner.value);
        gameOver := true;
      } else if Full(newBoard[..]) {
        score := score.(draws := score.draws + 1);
        gameOver := true;
      } else {
        var mover := currentPlayer;
        currentPlayer := Other(currentPlayer);
        if gameMode == Some(Computer) && mover == X {
          scheduled := Some(newBoard);
        }
      }
    }

    /** The computer's reply on the board HandleClick handed over: choose a
        cell by difficulty, mark it O in that same array, make that array the
        board, and end the game on a win (which can only be O's). Otherwise
        the turn goes back to X; a full board is not checked here. The
        source's `move !== null` test always passes (the random policy never
        yields null), so no difficulty just means no cell is marked. */
    method ComputerMove(currentBoard: array<Cell>, pick: nat)
      requires Valid() && currentBoard.Length == 9
      requires Winner(currentBoard[..]) == None && pick < |EmptyIndices(currentBoard[..])|
      modifies this, currentBoard
      ensures Valid() && board == currentBoard
      ensures gameMode == old(gameMode) && difficulty == old(difficulty)
      ensures var c := ComputerChoice(old(currentBoard[..]), old(difficulty), pick);
        board[..] == if c.Some? then old(currentBoard[..])[c.value := Mark(O)] else old(currentBoard[..])
      ensures Winner(board[..]).Some? ==>
        Winner(board[..]) == Some(O) && gameOver &&
        score == AddWin(old(score), O) && currentPlayer == old(currentPlayer)
      ensures Winner(board[..]) == None ==>
        gameOver == old(gameOver) && score == old(score) && currentPlayer == X
    {
      ghost var before := currentBoard[..];
      var move := ChooseMove(currentBoard, pick);
      if move.Some? {
        currentBoard[move.value] := Mark(O);
        OnlyMoverCanWin(before, move.value, O);
      }
      board := currentBoard;
      var winner := Winner(currentBoard[..]);
      if winner.Some? {
        UpdateScore(winner.value);
        gameOver := true;
      } else {
        currentPlayer := X;
      }
    }

    /** The dispatch on difficulty that picks the computer's cell. The medium
        and hard policies write trial marks into the array and clear them
        again, so the board is as it was on return. */
    method ChooseMove(currentBoard: array<Cell>, pick: nat) returns (move: Option<nat>)
      requires currentBoard.Length == 9
      requires Winner(currentBoard[..]) == None && pick < |EmptyIndices(currentBoard[..])|
      modifies currentBoard
      ensures currentBoard[..] == old(currentBoard[..])
      ensures move == ComputerChoice(old(currentBoard[..]), difficulty, pick)
    {
      match difficulty
      case None =>
        move := None;
      case Some(Easy) =>
        move := Some(RandomMove(currentBoard[..], pick));
      case Some(Medium) =>
        move := MediumMove(currentBoard, pick);
      case Some(Hard) =>
        move := HardMove(currentBoard, pick);
    }

    /** "Play again": an empty board, X to move, the game running again; the
        score, mode and difficulty stay. */
    method HandleReset()
      modifies this
      ensures Valid() && fresh(board) && board[..] == Blank()
      ensures !gameOver && currentPlayer == X
      ensures score == old(score) && gameMode == old(gameMode) && difficulty == old(difficulty)
    {
      board := new Cell[9](_ => Empty);
      gameOver := false;
      currentPlayer := X;
      BlankIsOpen();
      assert board[..] == Blank();
    }

    /** Choosing a mode (None is "back to the menu"): resets the board and
        clears the difficulty; the score stays. */
    method HandleModeChange(mode: Option<Mode>)
      modifies this
      ensures Valid() && fresh(board) && board[..] == Blank()
      ensures !gameOver && currentPlayer == X
      ensures gameMode == mode && difficulty == None && score == old(score)
    {
      gameMode := mode;
      HandleReset();
      difficulty := None;
    }

    /** Choosing a difficulty: zeroes the score and resets the board; the
        mode stays. */
    method HandleDifficultyChange(level: Difficulty)
      modifies this
      ensures Valid() && fresh(board) && board[..] == Blank()
      ensures !gameOver && currentPlayer == X
      ensures difficulty == Some(level) && score == Score(0, 0, 0) && gameMode == old(gameMode)
    {
      difficulty := Some(level);
      score := Score(0, 0, 0);
      HandleReset();
    }
  }
}
