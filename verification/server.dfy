/**
  The tic-tac-toe server's sequential core: the shared game (board and whose
  turn it is), the move rule of `validateAndMove`, the lines each side is
  sent after a move, and one pass of a player's move loop. Blocking for the
  turn becomes the precondition that the mover is the current player.
*/
module Server {
  import opened Wrappers
  import opened GameBoard
  import opened Protocol
  import Decimal

  /** Player numbers: 0 for the first connection, 1 for the second. */
  type PlayerIndex = p: int | 0 <= p < 2

  const PlayerX: PlayerIndex := 0
  const PlayerO: PlayerIndex := 1

  /** The mark of each player number: X for player 0, O for player 1. */
  function MarkOf(p: PlayerIndex): Cell {
    if p == PlayerX then X else O
  }

  /** The player whose turn follows p's. */
  function Next(p: PlayerIndex): PlayerIndex {
    (p + 1) % 2
  }

  /** The two players hold distinct marks and take turns. */
  lemma MarksAndTurns(p: PlayerIndex)
    ensures MarkOf(p) != Empty && MarkOf(p) != MarkOf(Next(p))
    ensures Next(p) != p && Next(Next(p)) == p
  {
  }

  // ---------------------------------------------------------------------
  // Connection pairing
  // ---------------------------------------------------------------------

  /** A connected player: its number, its mark, and whether its task still waits for the other player. */
  datatype Player = Player(number: PlayerIndex, mark: Cell, suspended: bool)

  /** The record created for the connection accepted as player `number`; it starts suspended. */
  function Connect(number: PlayerIndex): Player {
    Player(number, MarkOf(number), true)
  }

  /**
    Accepts the two connections in order, then releases player X. The
    sockets are gone: each pass of the loop stands for one accepted connection.
  */
  method Execute() returns (players: seq<Player>)
    ensures |players| == 2
    ensures forall i :: 0 <= i < 2 ==> players[i].number == i && players[i].mark == MarkOf(i)
    ensures players[PlayerX].mark == X && players[PlayerO].mark == O
    ensures !players[PlayerX].suspended
  {
    players := [];
    var i := 0;
    while i < 2
      invariant 0 <= i <= 2 && |players| == i
      invariant forall j :: 0 <= j < i ==> players[j] == Connect(j)
    {
      players := players + [Connect(i)];
      i := i + 1;
    }
    players := players[PlayerX := players[PlayerX].(suspended := false)];
  }

  /**
    The lines a player's task sends before its move loop: its mark first,
    then the waiting notices. X's last line goes out only after X is released,
    which happens once O has connected.
  */
  function Greeting(p: Player): (lines: seq<string>)
    ensures |lines| > 0 && lines[0] == Text(p.mark)
    ensures |lines| == if p.number == PlayerX then 4 else 2
    ensures forall i :: 1 <= i < |lines| ==>
      lines[i] != ValidMove && lines[i] != InvalidMove && lines[i] != OpponentMoved && !IsResult(lines[i])
  {
    [Text(p.mark)]
    + if p.number == PlayerX
      then ["Player X connected", "Waiting for another player", "Other player connected. Your move."]
      else ["Player O connected, please wait"]
  }

  // ---------------------------------------------------------------------
  // The game and the move rule
  // ---------------------------------------------------------------------

  /** The state both player tasks share. */
  datatype Game = Game(board: Board, current: PlayerIndex)

  /** The game the server constructor sets up. */
  function NewGame(): (g: Game)
    ensures g.current == PlayerX
    ensures forall i :: 0 <= i < 9 ==> g.board[i] == Empty
  {
    Game(NewBoard(), PlayerX)
  }

  /** What `validateAndMove` does with a location. */
  datatype Outcome =
    | Accepted(after: Game)
    | Rejected
      /** The location has no square: `isOccupied` throws and the player's task ends. */
    | IndexError

  /**
    `validateAndMove` once it is the mover's turn: a free square receives the
    mover's mark and the turn passes; an occupied square is refused and
    nothing changes.
  */
  function ValidateAndMove(g: Game, location: int, player: PlayerIndex): (r: Outcome)
    requires player == g.current
    ensures r.IndexError? <==> !(0 <= location < 9)
    ensures r.Rejected? <==> 0 <= location < 9 && g.board[location] != Empty
    ensures r.Accepted? ==>
      && r.after.board[location] == MarkOf(player)
      && (forall j :: 0 <= j < 9 && j != location ==> r.after.board[j] == g.board[j])
      && r.after.current == Next(player)
  {
    match IsOccupied(g.board, location)
    case None => IndexError
    case Some(occupied) =>
      if occupied then Rejected
      else Accepted(Game(g.board[location := MarkOf(g.current)], Next(g.current)))
  }

  /** An accepted move marks exactly one more square and never overwrites a marked one. */
  lemma AcceptedMoveAddsOneMark(g: Game, location: int, player: PlayerIndex)
    requires player == g.current
    requires ValidateAndMove(g, location, player).Accepted?
    ensures var b' := ValidateAndMove(g, location, player).after.board;
      && Marked(b') == Marked(g.board) + 1
      && Count(b', MarkOf(player)) == Count(g.board, MarkOf(player)) + 1
      && Count(b', MarkOf(Next(player))) == Count(g.board, MarkOf(Next(player)))
      && forall j :: 0 <= j < 9 && g.board[j] != Empty ==> b'[j] == g.board[j]
  {
    var b' := ValidateAndMove(g, location, player).after.board;
    assert b' == g.board[location := MarkOf(player)];
    MarkedUpdate(g.board, location, MarkOf(player));
    CountUpdate(g.board, location, MarkOf(player), MarkOf(player));
    CountUpdate(g.board, location, MarkOf(player), MarkOf(Next(player)));
  }

  /** X has made as many moves as O, plus one while it is O's turn. */
  ghost predicate Balanced(g: Game) {
    Count(g.board, X) == Count(g.board, O) + g.current
  }

  /** An accepted move keeps the players' move counts in step with the turn. */
  lemma AcceptedMoveKeepsBalance(g: Game, location: int)
    requires Balanced(g)
    requires ValidateAndMove(g, location, g.current).Accepted?
    ensures Balanced(ValidateAndMove(g, location, g.current).after)
  {
    AcceptedMoveAddsOneMark(g, location, g.current);
  }

  // ---------------------------------------------------------------------
  // Lines sent after an accepted move
  // ---------------------------------------------------------------------

  /** What the mover is told after "Valid move.", judged on the board after the move. */
  function MoverResult(b: Board): (lines: seq<string>)
    ensures lines == [Victory] <==> HasWinner(b)
    ensures lines == [Tie] <==> !HasWinner(b) && IsFull(b)
    ensures lines == [] <==> !IsGameOver(b)
  {
    if HasWinner(b) then [Victory] else if IsFull(b) then [Tie] else []
  }

  /** What the other player is told after the move's location, by the same tests. */
  function OpponentResult(b: Board): (lines: seq<string>)
    ensures lines == [Defeat] <==> HasWinner(b)
    ensures lines == [Tie] <==> !HasWinner(b) && IsFull(b)
    ensures lines == [] <==> !IsGameOver(b)
  {
    if HasWinner(b) then [Defeat] else if IsFull(b) then [Tie] else []
  }

  /** The two verdicts always agree: a victory for one is a defeat for the other, a tie is a tie for both. */
  lemma ResultsAgree(b: Board)
    ensures MoverResult(b) == [Victory] <==> OpponentResult(b) == [Defeat]
    ensures MoverResult(b) == [Tie] <==> OpponentResult(b) == [Tie]
    ensures |MoverResult(b)| == |OpponentResult(b)| <= 1
  {
  }

  /**
    The verdicts in terms of the reference definitions: a victory when some
    mark owns a line, a tie when none does and all nine squares are marked.
  */
  lemma ResultsByLines(b: Board)
    ensures MoverResult(b) == [Victory] <==> Owns(b, X) || Owns(b, O)
    ensures OpponentResult(b) == [Defeat] <==> Owns(b, X) || Owns(b, O)
    ensures MoverResult(b) == [Tie] <==> !Owns(b, X) && !Owns(b, O) && Marked(b) == 9
  {
    HasWinnerIff(b);
    MarkedAll(b);
  }

  /** A line the mark m owns after another mark was put on square i was already there. */
  lemma OwnedBefore(b: Board, i: int, m: Cell, other: Cell)
    requires 0 <= i < 9 && m != other && Owns(b[i := other], m)
    ensures Owns(b, m)
  {
    var b' := b[i := other];
    if r :| 0 <= r < 3 && RowOf(b', r, m) {
      assert RowOf(b, r, m) by {
        forall c | 0 <= c < 3 ensures At(b, r, c) == m {
          assert At(b', r, c) == m;
        }
      }
    } else if c :| 0 <= c < 3 && ColumnOf(b', c, m) {
      assert ColumnOf(b, c, m) by {
        forall r | 0 <= r < 3 ensures At(b, r, c) == m {
          assert At(b', r, c) == m;
        }
      }
    } else if forall k :: 0 <= k < 3 ==> At(b', k, k) == m {
      forall k | 0 <= k < 3 ensures At(b, k, k) == m {
        assert At(b', k, k) == m;
      }
    } else {
      forall k | 0 <= k < 3 ensures AntiAt(b, k) == m {
        assert AntiAt(b', k) == m;
      }
    }
  }

  /**
    When the board had no winner, an accepted move brings VICTORY exactly
    when the mover's mark now owns a line, and the other mark owns none.
  */
  lemma VictoryIsTheMovers(g: Game, location: int)
    requires !HasWinner(g.board)
    requires ValidateAndMove(g, location, g.current).Accepted?
    ensures var b' := ValidateAndMove(g, location, g.current).after.board;
      && (MoverResult(b') == [Victory] <==> Owns(b', MarkOf(g.current)))
      && !Owns(b', MarkOf(Next(g.current)))
  {
    var m := MarkOf(g.current);
    var other := MarkOf(Next(g.current));
    var b' := g.board[location := m];
    MarksAndTurns(g.current);
    NoLineOwned(g.board, other);
    if Owns(b', other) {
      OwnedBefore(g.board, location, other, m);
    }
    HasWinnerIff(b');
  }

  /** Everything the mover is sent for an accepted move. */
  function MoverLines(after: Board): seq<string> {
    [ValidMove] + MoverResult(after)
  }

  /** Everything the other player is sent for an accepted move at `location`. */
  function OpponentLines(after: Board, location: nat): seq<string> {
    [OpponentMoved, Decimal.Format(location)] + OpponentResult(after)
  }

  // ---------------------------------------------------------------------
  // One pass of a player's move loop
  // ---------------------------------------------------------------------

  /**
    The shared game, the lines sent so far on each player's connection, and
    for each player whether its task has left its move loop. A task makes
    its loop test right after its own pass, before it blocks on the next
    read; once that test finds the game over, the task closes its connection.
  */
  datatype Session = Session(game: Game, toX: seq<string>, toO: seq<string>, leftX: bool, leftO: bool)

  /** The lines sent so far to player p. */
  function Outbox(s: Session, p: PlayerIndex): seq<string> {
    if p == PlayerX then s.toX else s.toO
  }

  /** Whether player p's task has left its move loop and closed its connection. */
  function Left(s: Session, p: PlayerIndex): bool {
    if p == PlayerX then s.leftX else s.leftO
  }

  /**
    Writes `lines` on player p's connection. Once p's task has closed it the
    lines are lost: the formatter keeps the write error to itself.
  */
  function Send(s: Session, p: PlayerIndex, lines: seq<string>): (s': Session)
    ensures s'.game == s.game
    ensures Left(s', p) == Left(s, p) && Left(s', Next(p)) == Left(s, Next(p))
    ensures Outbox(s', p) == Outbox(s, p) + (if Left(s, p) then [] else lines)
    ensures Outbox(s', Next(p)) == Outbox(s, Next(p))
  {
    if Left(s, p) then s
    else if p == PlayerX then s.(toX := s.toX + lines) else s.(toO := s.toO + lines)
  }

  /** The loop test player p's task makes after its pass: it leaves the loop once the game is over. */
  function LoopTest(s: Session, p: PlayerIndex): (s': Session)
    ensures s'.game == s.game && s'.toX == s.toX && s'.toO == s.toO
    ensures Left(s', p) <==> IsGameOver(s.game.board)
    ensures Left(s', Next(p)) == Left(s, Next(p))
  {
    if p == PlayerX then s.(leftX := IsGameOver(s.game.board)) else s.(leftO := IsGameOver(s.game.board))
  }

  /** The session once both players are connected and greeted; both tasks have entered their loops. */
  function Open(): (s: Session)
    ensures s.game == NewGame()
    ensures |s.toX| > 0 && s.toX[0] == "X"
    ensures |s.toO| > 0 && s.toO[0] == "O"
    ensures !Left(s, PlayerX) && !Left(s, PlayerO)
  {
    Session(NewGame(), Greeting(Connect(PlayerX)), Greeting(Connect(PlayerO)), false, false)
  }

  /** How a pass of the move loop ends. */
  datatype TurnResult =
    | Continue(session: Session, accepted: bool)
      /** The task had left its loop, or its input ended: it closes its connection. */
    | Ended
      /** The location had no square: the exception ends the task. */
    | Aborted

  /**
    Submits `location` for the current player and sends the resulting lines:
    the mover hears "Valid move." and possibly its victory or a tie, the other
    player hears the move and possibly its defeat or a tie, unless its task
    has already closed the connection; a refused move is answered to the
    mover alone.
  */
  function Attempt(s: Session, player: PlayerIndex, location: int): (r: TurnResult)
    requires player == s.game.current && !Left(s, player)
    ensures r.Ended? == false
    ensures r.Aborted? <==> !(0 <= location < 9)
    ensures r.Continue? ==> s.toX <= r.session.toX && s.toO <= r.session.toO
    ensures r.Continue? ==> r.session.leftX == s.leftX && r.session.leftO == s.leftO
    ensures r.Continue? ==> (r.accepted <==> ValidateAndMove(s.game, location, player).Accepted?)
    ensures r.Continue? && !r.accepted ==>
      && r.session.game == s.game
      && Outbox(r.session, player) == Outbox(s, player) + [InvalidMove]
      && Outbox(r.session, Next(player)) == Outbox(s, Next(player))
    ensures r.Continue? && r.accepted ==>
      && 0 <= location < 9
      && ValidateAndMove(s.game, location, player) == Accepted(r.session.game)
      && Outbox(r.session, player) == Outbox(s, player) + MoverLines(r.session.game.board)
      && Outbox(r.session, Next(player)) == Outbox(s, Next(player))
           + (if Left(s, Next(player)) then [] else OpponentLines(r.session.game.board, location))
  {
    match ValidateAndMove(s.game, location, player)
    case IndexError => Aborted
    case Rejected => Continue(Send(s, player, [InvalidMove]), false)
    case Accepted(g) =>
      var notified := Send(s.(game := g), Next(player), OpponentLines(g.board, location));
      Continue(Send(notified, player, MoverLines(g.board)), true)
  }

  /** The body of the move loop on `location`, followed by the loop test. */
  function Pass(s: Session, player: PlayerIndex, location: int): (r: TurnResult)
    requires player == s.game.current && !Left(s, player)
    ensures r.Ended? == false
    ensures r.Aborted? <==> !(0 <= location < 9)
    ensures r.Continue? ==>
      && var a := Attempt(s, player, location);
      && a.Continue? && r.accepted == a.accepted
      && r.session.game == a.session.game && r.session.toX == a.session.toX && r.session.toO == a.session.toO
      && (Left(r.session, player) <==> IsGameOver(r.session.game.board))
      && Left(r.session, Next(player)) == Left(s, Next(player))
  {
    var a := Attempt(s, player, location);
    if a.Continue? then Continue(LoopTest(a.session, player), a.accepted) else a
  }

  /**
    A pass of the move loop as written. The loop test was made after the
    player's previous pass, so a task that has not left plays one more
    location even if the opponent's move has ended the game since. When
    the client has closed its side, `hasNext` is false and the location
    keeps its initial value 0, which is then submitted as a move.
  */
  function TurnAsWritten(s: Session, player: PlayerIndex, received: Option<int>): (r: TurnResult)
    requires player == s.game.current
    ensures r.Ended? <==> Left(s, player)
    ensures !Left(s, player) ==> r == Pass(s, player, received.GetOr(0))
  {
    if Left(s, player) then Ended else Pass(s, player, received.GetOr(0))
  }

  /**
    A pass of the move loop with end of input ending the task instead of
    playing square 0: the move submitted is always one the client sent.
  */
  function Turn(s: Session, player: PlayerIndex, received: Option<int>): (r: TurnResult)
    requires player == s.game.current
    ensures r.Ended? <==> Left(s, player) || received.None?
    ensures r.Continue? ==> s.toX <= r.session.toX && s.toO <= r.session.toO
    ensures received.Some? && !Left(s, player) ==> r == Pass(s, player, received.value)
  {
    if Left(s, player) then Ended
    else match received
      case None => Ended
      case Some(location) => Pass(s, player, location)
  }

  /**
    At end of input the written loop plays square 0 for a player who never
    chose it, whether or not the opponent's last move ended the game.
  */
  lemma EndOfInputPlaysSquareZero(s: Session, player: PlayerIndex)
    requires player == s.game.current && !Left(s, player)
    requires s.game.board[0] == Empty
    ensures var r := TurnAsWritten(s, player, None);
      r.Continue? && r.accepted && r.session.game.board[0] == MarkOf(player)
    ensures Turn(s, player, None) == Ended
  {
  }

  /** Which move loop a run follows: the loop as written, or the corrected one. */
  datatype Version = AsWritten | Corrected

  /** One pass of the chosen loop: a pass on the location read, or the end of the task. */
  function TurnIn(v: Version, s: Session, player: PlayerIndex, received: Option<int>): (r: TurnResult)
    requires player == s.game.current
    ensures r.Ended? <==> Left(s, player) || (v == Corrected && received.None?)
    ensures r.Continue? ==> !Left(s, player) && r == Pass(s, player, received.GetOr(0))
  {
    match v
    case AsWritten => TurnAsWritten(s, player, received)
    case Corrected => Turn(s, player, received)
  }

  /**
    Once the game is over, the player who made the last move has left its
    loop: its test came right after that move.
  */
  ghost predicate LastMoverLeft(s: Session) {
    IsGameOver(s.game.board) ==> Left(s, Next(s.game.current))
  }

  /** Every pass, of either loop, keeps the player who made the last move out of the loop once the game is over. */
  lemma TurnKeepsLastMoverLeft(v: Version, s: Session, received: Option<int>)
    requires LastMoverLeft(s)
    ensures var r := TurnIn(v, s, s.game.current, received);
      r.Continue? ==> LastMoverLeft(r.session)
  {
    MarksAndTurns(s.game.current);
  }

  /** A three in a row survives any move onto a free square. */
  lemma WinnerStays(b: Board, i: int, m: Cell)
    requires HasWinner(b) && 0 <= i < 9 && b[i] == Empty
    ensures HasWinner(b[i := m])
  {
  }

  /**
    A player whose task has not left its loop can still move after the
    opponent has completed a line: the move is accepted and its maker is
    told VICTORY as well; the opponent, whose task has left, hears nothing.
  */
  lemma LateMoveWins(s: Session, location: int)
    requires LastMoverLeft(s) && !Left(s, s.game.current)
    requires HasWinner(s.game.board) && 0 <= location < 9 && s.game.board[location] == Empty
    ensures var p := s.game.current;
      var r := Turn(s, p, Some(location));
      && r.Continue? && r.accepted
      && r.session.game.board == s.game.board[location := MarkOf(p)]
      && Outbox(r.session, p) == Outbox(s, p) + [ValidMove, Victory]
      && Outbox(r.session, Next(p)) == Outbox(s, Next(p))
      && Left(r.session, p)
  {
    WinnerStays(s.game.board, location, MarkOf(s.game.current));
  }

  // ---------------------------------------------------------------------
  // Runs of the move loops
  // ---------------------------------------------------------------------

  /** The session after a run, and how many moves it accepted. */
  datatype Run = Run(session: Session, accepted: nat)

  /**
    Feeds `inputs` to the move loops of version v: each is read by the task
    of the player whose turn it is, which completes its pass and its loop
    test before the other task goes on. The run stops when that task has
    left its loop, ends or throws; the other task then stays blocked.
  */
  function Play(v: Version, s: Session, inputs: seq<Option<int>>): Run
    decreases |inputs|
  {
    if |inputs| == 0 then Run(s, 0)
    else match TurnIn(v, s, s.game.current, inputs[0])
      case Continue(s1, accepted) =>
        var rest := Play(v, s1, inputs[1..]);
        Run(rest.session, rest.accepted + if accepted then 1 else 0)
      case _ => Run(s, 0)
  }

  /**
    Over any run of either loop, the marked squares grow by exactly the
    number of accepted moves, no marked square changes, the move counts stay
    in step with the turn, and once the game is over the last mover stays
    out of its loop.
  */
  lemma {:induction false} PlayInvariants(v: Version, s: Session, inputs: seq<Option<int>>)
    requires Balanced(s.game) && LastMoverLeft(s)
    decreases |inputs|
    ensures var r := Play(v, s, inputs);
      && Marked(r.session.game.board) == Marked(s.game.board) + r.accepted
      && Balanced(r.session.game)
      && LastMoverLeft(r.session)
      && forall j :: 0 <= j < 9 && s.game.board[j] != Empty ==> r.session.game.board[j] == s.game.board[j]
  {
    if |inputs| > 0 {
      var t := TurnIn(v, s, s.game.current, inputs[0]);
      if t.Continue? {
        var s1 := t.session;
        var location := inputs[0].GetOr(0);
        if t.accepted {
          AcceptedMoveAddsOneMark(s.game, location, s.game.current);
          AcceptedMoveKeepsBalance(s.game, location);
        }
        TurnKeepsLastMoverLeft(v, s, inputs[0]);
        PlayInvariants(v, s1, inputs[1..]);
      }
    }
  }

  /**
    Once the game is over, a run of either loop accepts at most one more
    move: the one the task still in its loop may play before its own loop
    test.
  */
  lemma AtMostOneLateMove(v: Version, s: Session, inputs: seq<Option<int>>)
    requires LastMoverLeft(s) && IsGameOver(s.game.board)
    ensures Play(v, s, inputs).accepted <= 1
  {
    if |inputs| > 0 {
      var p := s.game.current;
      var t := TurnIn(v, s, p, inputs[0]);
      if t.Continue? {
        MarksAndTurns(p);
        var s1 := t.session;
        assert Left(s1, s1.game.current);
        if |inputs| > 1 {
          assert inputs[1..][0] == inputs[1];
          assert TurnIn(v, s1, s1.game.current, inputs[1]) == Ended;
        }
      }
    }
  }

  /**
    In the loop as written, once a task's input has ended while the game
    goes on and square 0 is taken, every pass submits 0 again and is told
    "Invalid move, try again": the task never leaves its loop.
  */
  lemma {:induction false} EndOfInputRefusedForever(s: Session, n: nat)
    requires !Left(s, s.game.current) && !IsGameOver(s.game.board) && s.game.board[0] != Empty
    decreases n
    ensures var p := s.game.current;
      var r := Play(AsWritten, s, seq(n, _ => None));
      && r.accepted == 0
      && r.session.game == s.game
      && !Left(r.session, p)
      && Outbox(r.session, p) == Outbox(s, p) + seq(n, _ => InvalidMove)
      && Outbox(r.session, Next(p)) == Outbox(s, Next(p))
  {
    if n > 0 {
      var p := s.game.current;
      var inputs: seq<Option<int>> := seq(n, _ => None);
      var s1 := TurnIn(AsWritten, s, p, None).session;
      assert inputs[0] == None && inputs[1..] == seq(n - 1, _ => None);
      EndOfInputRefusedForever(s1, n - 1);
      assert [InvalidMove] + seq(n - 1, _ => InvalidMove) == seq(n, _ => InvalidMove);
    }
  }

  /** The new game's board is empty, so both move counts are zero and it is X's turn. */
  lemma NewGameBalanced()
    ensures Marked(NewGame().board) == 0
    ensures Balanced(NewGame())
  {
    var b := NewGame().board;
    ZeroMarked(b);
    CountZero(b, X);
    CountZero(b, O);
  }

  /**
    From a new game, in either loop, the board holds exactly as many marks
    as moves were accepted, and it is X's turn exactly after an even number
    of them.
  */
  lemma PlayFromNewGame(v: Version, s: Session, inputs: seq<Option<int>>)
    requires s.game == NewGame()
    ensures var r := Play(v, s, inputs);
      && Marked(r.session.game.board) == r.accepted
      && r.session.game.current == r.accepted % 2
      && LastMoverLeft(r.session)
  {
    NewBoardOpen();
    NewGameBalanced();
    PlayInvariants(v, s, inputs);
    BalancedParity(Play(v, s, inputs).session.game);
  }

  /** In a balanced game it is X's turn exactly when an even number of squares is marked. */
  lemma BalancedParity(g: Game)
    requires Balanced(g)
    ensures g.current == Marked(g.board) % 2
  {
    MarkedSplits(g.board);
    assert Marked(g.board) == 2 * Count(g.board, O) + g.current;
  }

  lemma {:induction false} CountZero(b: seq<Cell>, m: Cell)
    requires m != Empty && forall i :: 0 <= i < |b| ==> b[i] == Empty
    ensures Count(b, m) == 0
  {
    if |b| > 0 {
      CountZero(b[..|b| - 1], m);
    }
  }

  // ---------------------------------------------------------------------
  // Uninterrupted alternating play
  // ---------------------------------------------------------------------

  /** The game after accepted moves at `locations`, one per turn; None if any is refused or off the board. */
  function Moves(g: Game, locations: seq<int>): Option<Game>
    decreases |locations|
  {
    if |locations| == 0 then Some(g)
    else match ValidateAndMove(g, locations[0], g.current)
      case Accepted(g1) => Moves(g1, locations[1..])
      case _ => None
  }

  /** The locations are distinct squares that are free in b. */
  ghost predicate FreshSquares(b: Board, locations: seq<int>) {
    && (forall k :: 0 <= k < |locations| ==> 0 <= locations[k] < 9 && b[locations[k]] == Empty)
    && (forall k, l :: 0 <= k < l < |locations| ==> locations[k] != locations[l])
  }

  /** Splitting off the first location: the rest must be fresh once the first is marked. */
  lemma FreshSquaresCons(b: Board, locations: seq<int>, m: Cell)
    requires |locations| > 0 && m != Empty
    requires 0 <= locations[0] < 9 && b[locations[0]] == Empty
    ensures FreshSquares(b, locations) <==>
      locations[0] !in locations[1..] && FreshSquares(b[locations[0] := m], locations[1..])
  {
    var l, rest := locations[0], locations[1..];
    var b1 := b[l := m];
    if FreshSquares(b, locations) {
      forall k | 0 <= k < |rest|
        ensures 0 <= rest[k] < 9 && b1[rest[k]] == Empty && rest[k] != l
      {
        assert rest[k] == locations[k + 1];
      }
      forall k, n | 0 <= k < n < |rest|
        ensures rest[k] != rest[n]
      {
        assert rest[k] == locations[k + 1] && rest[n] == locations[n + 1];
      }
    }
    if l !in rest && FreshSquares(b1, rest) {
      forall k | 0 < k < |locations|
        ensures 0 <= locations[k] < 9 && b[locations[k]] == Empty && locations[k] != l
      {
        assert locations[k] == rest[k - 1];
      }
      forall k, n | 0 <= k < n < |locations|
        ensures locations[k] != locations[n]
      {
        assert locations[n] == rest[n - 1];
        if k > 0 {
          assert locations[k] == rest[k - 1];
        }
      }
    }
  }

  /** Alternating moves are all accepted exactly when they go to distinct free squares. */
  lemma {:induction false} MovesAccepted(g: Game, locations: seq<int>)
    decreases |locations|
    ensures Moves(g, locations).Some? <==> FreshSquares(g.board, locations)
  {
    if |locations| > 0 {
      var l := locations[0];
      var o := ValidateAndMove(g, l, g.current);
      if o.Accepted? {
        FreshSquaresCons(g.board, locations, MarkOf(g.current));
        assert o.after.board == g.board[l := MarkOf(g.current)];
        MovesAccepted(o.after, locations[1..]);
        if l in locations[1..] {
          MarkedNotFresh(o.after.board, locations[1..], l);
        }
      }
    }
  }

  lemma MarkedNotFresh(b: Board, locations: seq<int>, l: int)
    requires 0 <= l < 9 && b[l] != Empty && l in locations
    ensures !FreshSquares(b, locations)
  {
    var k :| 0 <= k < |locations| && locations[k] == l;
  }

  /** Marking the first of distinct free squares leaves the rest distinct and free. */
  lemma FreshSquaresTail(b: Board, locations: seq<int>, m: Cell)
    requires FreshSquares(b, locations) && |locations| > 0 && m != Empty
    ensures 0 <= locations[0] < 9
    ensures locations[0] !in locations[1..]
    ensures FreshSquares(b[locations[0] := m], locations[1..])
  {
    FreshSquaresCons(b, locations, m);
  }

  /** The first of a run of fresh moves is accepted and leaves the rest fresh. */
  lemma MovesStep(g: Game, locations: seq<int>)
    requires FreshSquares(g.board, locations) && |locations| > 0
    ensures var l := locations[0];
      && ValidateAndMove(g, l, g.current).Accepted?
      && var g1 := ValidateAndMove(g, l, g.current).after;
      && g1.board == g.board[l := MarkOf(g.current)]
      && g1.current == Next(g.current)
      && Moves(g, locations) == Moves(Game(g.board[l := MarkOf(g.current)], Next(g.current)), locations[1..])
      && l !in locations[1..]
      && FreshSquares(g1.board, locations[1..])
  {
    FreshSquaresCons(g.board, locations, MarkOf(g.current));
  }

  /**
    Reference definition of alternating play on free squares: each location
    receives the mark of the player to move, and the turn passes.
  */
  function Alternate(g: Game, locations: seq<int>): Game
    requires forall k :: 0 <= k < |locations| ==> 0 <= locations[k] < 9
    decreases |locations|
  {
    if |locations| == 0 then g
    else Alternate(Game(g.board[locations[0] := MarkOf(g.current)], Next(g.current)), locations[1..])
  }

  /** On distinct free squares the server's rule agrees with the reference play. */
  lemma {:induction false} MovesFollowAlternate(g: Game, locations: seq<int>)
    requires FreshSquares(g.board, locations)
    decreases |locations|
    ensures Moves(g, locations) == Some(Alternate(g, locations))
  {
    if |locations| > 0 {
      MovesStep(g, locations);
      MovesFollowAlternate(Game(g.board[locations[0] := MarkOf(g.current)], Next(g.current)), locations[1..]);
    }
  }

  /** The player to move after k further moves, starting with p. */
  function Mover(p: PlayerIndex, k: nat): PlayerIndex
    decreases k
  {
    if k == 0 then p else Mover(Next(p), k - 1)
  }

  /** Turns alternate: after k moves it is p's turn again exactly when k is even. */
  lemma {:induction false} MoverParity(p: PlayerIndex, k: nat)
    decreases k
    ensures Mover(p, k) == (p + k) % 2
  {
    if k > 0 {
      MoverParity(Next(p), k - 1);
      if p == 0 {
        assert Next(p) == 1;
      } else {
        assert Next(p) == 0;
      }
    }
  }

  /** In reference play the turn passes once per move. */
  lemma {:induction false} AlternateTurn(g: Game, locations: seq<int>)
    requires forall k :: 0 <= k < |locations| ==> 0 <= locations[k] < 9
    decreases |locations|
    ensures Alternate(g, locations).current == (g.current + |locations|) % 2
  {
    if |locations| > 0 {
      var g1 := Game(g.board[locations[0] := MarkOf(g.current)], Next(g.current));
      AlternateTurn(g1, locations[1..]);
      assert (Next(g.current) + |locations| - 1) % 2 == (g.current + |locations|) % 2 by {
        if g.current == 0 {
          assert Next(g.current) == 1;
        } else {
          assert Next(g.current) == 0;
        }
      }
    }
  }

  /** In reference play the k-th location holds the k-th mover's mark and nothing else changes. */
  lemma {:induction false} AlternateMarks(g: Game, locations: seq<int>)
    requires FreshSquares(g.board, locations)
    decreases |locations|
    ensures var g' := Alternate(g, locations);
      && (forall k :: 0 <= k < |locations| ==> g'.board[locations[k]] == MarkOf(Mover(g.current, k)))
      && (forall j :: 0 <= j < 9 && j !in locations ==> g'.board[j] == g.board[j])
  {
    if |locations| > 0 {
      var l, rest := locations[0], locations[1..];
      var g1 := Game(g.board[l := MarkOf(g.current)], Next(g.current));
      FreshSquaresTail(g.board, locations, MarkOf(g.current));
      AlternateMarks(g1, rest);
      AlternateLift(g.board, g1.board, Alternate(g1, rest).board, g.current, locations);
    }
  }

  /**
    After accepted alternating moves the k-th location holds the mark of the
    player whose turn it was, every other square is as before, and the turn
    has passed once per move.
  */
  lemma MovesAlternate(g: Game, locations: seq<int>)
    requires FreshSquares(g.board, locations)
    ensures Moves(g, locations).Some?
    ensures var g' := Moves(g, locations).value;
      && g'.current == (g.current + |locations|) % 2
      && (forall k :: 0 <= k < |locations| ==> g'.board[locations[k]] == MarkOf((g.current + k) % 2))
      && (forall j :: 0 <= j < 9 && j !in locations ==> g'.board[j] == g.board[j])
  {
    MovesFollowAlternate(g, locations);
    AlternateTurn(g, locations);
    AlternateMarks(g, locations);
    forall k | 0 <= k < |locations|
      ensures Mover(g.current, k) == (g.current + k) % 2
    {
      MoverParity(g.current, k);
    }
  }

  /** Lifts the alternation facts for the rest of a run to the whole run. */
  lemma AlternateLift(b: Board, b1: Board, b': Board, current: PlayerIndex, locations: seq<int>)
    requires |locations| > 0 && FreshSquares(b, locations)
    requires b1 == b[locations[0] := MarkOf(current)]
    requires locations[0] !in locations[1..]
    requires forall k :: 0 <= k < |locations| - 1 ==> b'[locations[1..][k]] == MarkOf(Mover(Next(current), k))
    requires forall j :: 0 <= j < 9 && j !in locations[1..] ==> b'[j] == b1[j]
    ensures forall k :: 0 <= k < |locations| ==> b'[locations[k]] == MarkOf(Mover(current, k))
    ensures forall j :: 0 <= j < 9 && j !in locations ==> b'[j] == b[j]
  {
    var l, rest := locations[0], locations[1..];
    forall k | 0 <= k < |locations|
      ensures b'[locations[k]] == MarkOf(Mover(current, k))
    {
      if k > 0 {
        assert locations[k] == rest[k - 1];
      }
    }
    forall j | 0 <= j < 9 && j !in locations
      ensures b'[j] == b[j]
    {
      assert j !in rest && j != l;
    }
  }

  // ---------------------------------------------------------------------
  // Two complete games
  // ---------------------------------------------------------------------

  /**
    One accepted move in an open game: the new game, what each side is sent,
    and the mover leaves its loop exactly when its move ended the game.
  */
  lemma AcceptedTurn(s: Session, location: int)
    requires !Left(s, PlayerX) && !Left(s, PlayerO)
    requires 0 <= location < 9 && s.game.board[location] == Empty
    ensures var r := Turn(s, s.game.current, Some(location));
      var p := s.game.current;
      var b' := s.game.board[location := MarkOf(p)];
      && r.Continue? && r.accepted
      && r.session.game == Game(b', Next(p))
      && Outbox(r.session, p) == Outbox(s, p) + MoverLines(b')
      && Outbox(r.session, Next(p)) == Outbox(s, Next(p)) + OpponentLines(b', location)
      && (Left(r.session, p) <==> IsGameOver(b'))
      && !Left(r.session, Next(p))
  {
    MarksAndTurns(s.game.current);
  }

  /** X takes 0 and 1 while O takes 3 and 4, with X to move. */
  lemma TopRowOpening()
    ensures Moves(NewGame(), [0, 3, 1, 4]) == Some(Game([X, X, Empty, O, O, Empty, Empty, Empty, Empty], PlayerX))
  {
    var g1 := Game([X, Empty, Empty, Empty, Empty, Empty, Empty, Empty, Empty], PlayerO);
    var g2 := Game([X, Empty, Empty, O, Empty, Empty, Empty, Empty, Empty], PlayerX);
    var g3 := Game([X, X, Empty, O, Empty, Empty, Empty, Empty, Empty], PlayerO);
    var g4 := Game([X, X, Empty, O, O, Empty, Empty, Empty, Empty], PlayerX);
    assert ValidateAndMove(NewGame(), 0, PlayerX) == Accepted(g1);
    assert ValidateAndMove(g1, 3, PlayerO) == Accepted(g2);
    assert ValidateAndMove(g2, 1, PlayerX) == Accepted(g3);
    assert ValidateAndMove(g3, 4, PlayerO) == Accepted(g4);
    assert Moves(g4, []) == Some(g4);
    assert Moves(g3, [4]) == Some(g4);
    assert Moves(g2, [1, 4]) == Some(g4);
    assert Moves(g1, [3, 1, 4]) == Some(g4);
  }

  /**
    From there X completes the top row with square 2: X is told VICTORY and
    its task leaves its loop; O is told the move and then DEFEAT, but O's
    task made its loop test before X's move and is still in its loop.
  */
  lemma TopRowVictory(s: Session)
    requires s.game == Game([X, X, Empty, O, O, Empty, Empty, Empty, Empty], PlayerX)
    requires !Left(s, PlayerX) && !Left(s, PlayerO)
    ensures var r := Turn(s, PlayerX, Some(2));
      && r.Continue? && r.accepted
      && r.session.game == Game([X, X, X, O, O, Empty, Empty, Empty, Empty], PlayerO)
      && r.session.toX == s.toX + [ValidMove, Victory]
      && r.session.toO == s.toO + [OpponentMoved, "2", Defeat]
      && Left(r.session, PlayerX) && !Left(r.session, PlayerO)
  {
    var b' := [X, X, X, O, O, Empty, Empty, Empty, Empty];
    assert s.game.board[2 := X] == b';
    assert Same3(b', 0, 1, 2);
    assert Decimal.Format(2) == "2";
  }

  /**
    After X's win, a location O's client still sends (here 5) is accepted:
    O is told "Valid move." and VICTORY too, the lines for X are lost on its
    closed connection, and then both tasks have left their loops.
  */
  lemma TopRowLateMove(s: Session)
    requires s.game == Game([X, X, X, O, O, Empty, Empty, Empty, Empty], PlayerO)
    requires Left(s, PlayerX) && !Left(s, PlayerO)
    ensures var r := Turn(s, PlayerO, Some(5));
      && r.Continue? && r.accepted
      && r.session.game == Game([X, X, X, O, O, O, Empty, Empty, Empty], PlayerX)
      && r.session.toO == s.toO + [ValidMove, Victory]
      && r.session.toX == s.toX
      && Left(r.session, PlayerO)
      && Turn(r.session, PlayerX, Some(6)) == Ended
  {
    var b' := [X, X, X, O, O, O, Empty, Empty, Empty];
    assert s.game.board[5 := O] == b';
    assert Same3(b', 0, 1, 2);
  }

  /** The last four moves of the tied game: X, O, X, O in 3, 5, 7, 6. */
  lemma TieClosing()
    ensures Moves(Game([X, O, X, Empty, O, Empty, Empty, Empty, Empty], PlayerX), [3, 5, 7, 6])
      == Some(Game([X, O, X, X, O, O, O, X, Empty], PlayerX))
  {
    var g4 := Game([X, O, X, Empty, O, Empty, Empty, Empty, Empty], PlayerX);
    var g5 := Game([X, O, X, X, O, Empty, Empty, Empty, Empty], PlayerO);
    var g6 := Game([X, O, X, X, O, O, Empty, Empty, Empty], PlayerX);
    var g7 := Game([X, O, X, X, O, O, Empty, X, Empty], PlayerO);
    var g8 := Game([X, O, X, X, O, O, O, X, Empty], PlayerX);
    assert ValidateAndMove(g4, 3, PlayerX) == Accepted(g5);
    assert ValidateAndMove(g5, 5, PlayerO) == Accepted(g6);
    assert ValidateAndMove(g6, 7, PlayerX) == Accepted(g7);
    assert ValidateAndMove(g7, 6, PlayerO) == Accepted(g8);
    assert Moves(g8, []) == Some(g8);
    assert Moves(g7, [6]) == Some(g8);
    assert Moves(g6, [7, 6]) == Some(g8);
    assert Moves(g5, [5, 7, 6]) == Some(g8);
  }

  /** A game that fills the board with no line of three: X, O, X, O, X, O, X, O in 0, 1, 2, 4, 3, 5, 7, 6. */
  lemma TieOpening()
    ensures Moves(NewGame(), [0, 1, 2, 4, 3, 5, 7, 6]) == Some(Game([X, O, X, X, O, O, O, X, Empty], PlayerX))
  {
    var g1 := Game([X, Empty, Empty, Empty, Empty, Empty, Empty, Empty, Empty], PlayerO);
    var g2 := Game([X, O, Empty, Empty, Empty, Empty, Empty, Empty, Empty], PlayerX);
    var g3 := Game([X, O, X, Empty, Empty, Empty, Empty, Empty, Empty], PlayerO);
    var g4 := Game([X, O, X, Empty, O, Empty, Empty, Empty, Empty], PlayerX);
    var g8 := Game([X, O, X, X, O, O, O, X, Empty], PlayerX);
    TieClosing();
    assert ValidateAndMove(NewGame(), 0, PlayerX) == Accepted(g1);
    assert ValidateAndMove(g1, 1, PlayerO) == Accepted(g2);
    assert ValidateAndMove(g2, 2, PlayerX) == Accepted(g3);
    assert ValidateAndMove(g3, 4, PlayerO) == Accepted(g4);
    assert Moves(g3, [4, 3, 5, 7, 6]) == Some(g8);
    assert Moves(g2, [2, 4, 3, 5, 7, 6]) == Some(g8);
    assert Moves(g1, [1, 2, 4, 3, 5, 7, 6]) == Some(g8);
  }

  /**
    X fills the last square without making a line: both players are told
    TIE and X's task leaves its loop, while O's task is still in its loop.
  */
  lemma FullBoardTie(s: Session)
    requires s.game == Game([X, O, X, X, O, O, O, X, Empty], PlayerX)
    requires !Left(s, PlayerX) && !Left(s, PlayerO)
    ensures var r := Turn(s, PlayerX, Some(8));
      && r.Continue? && r.accepted
      && r.session.game == Game([X, O, X, X, O, O, O, X, X], PlayerO)
      && r.session.toX == s.toX + [ValidMove, Tie]
      && r.session.toO == s.toO + [OpponentMoved, "8", Tie]
      && Left(r.session, PlayerX) && !Left(r.session, PlayerO)
  {
    var b' := [X, O, X, X, O, O, O, X, X];
    assert !HasWinner(s.game.board) && s.game.board[8] == Empty;
    assert s.game.board[8 := X] == b';
    assert !HasWinner(b') && IsFull(b');
    assert Decimal.Format(8) == "8";
  }

  /**
    On the full board, a location O's task still reads is refused, as every
    square is taken; then O's loop test finds the game over and it leaves.
  */
  lemma FullBoardLateMove(s: Session, location: int, next: Option<int>)
    requires s.game == Game([X, O, X, X, O, O, O, X, X], PlayerO)
    requires !Left(s, PlayerO) && 0 <= location < 9
    ensures var r := Turn(s, PlayerO, Some(location));
      && r.Continue? && !r.accepted
      && r.session.game == s.game
      && r.session.toO == s.toO + [InvalidMove]
      && r.session.toX == s.toX
      && Left(r.session, PlayerO)
      && Turn(r.session, PlayerO, next) == Ended
  {
    assert IsFull(s.game.board);
  }
}
