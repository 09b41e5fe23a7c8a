/**
  The server and its two clients together. Each line a task sends is read at
  once by its client, and a click by the player to move is read at once by
  that player's task. In such runs both clients' panels always show the
  server's board, only the player to move can send a location, and once the
  game is over the task of the player who did not make the last move stays
  in its loop, waiting for a location its client never sends.
*/
module EndToEnd {
  import opened Wrappers
  import opened GameBoard
  import opened Protocol
  import Decimal
  import Server
  import opened ClientProtocol

  /** What a client draws for what the server holds in a square. */
  function Drawn(c: Cell): string {
    match c
    case Empty => " "
    case X => "X"
    case O => "O"
  }

  /** The panel shows, in every square, what the board holds at that square's location. */
  ghost predicate Mirrors(g: Grid, b: Board) {
    forall sq: Square :: MarkAt(g, sq) == Drawn(b[Location(sq)])
  }

  /** The server's session and the two clients. */
  datatype World = World(server: Server.Session, x: Client, o: Client)

  function ClientOf(w: World, p: Server.PlayerIndex): Client {
    if p == Server.PlayerX then w.x else w.o
  }

  function WithClient(w: World, p: Server.PlayerIndex, c: Client): World {
    if p == Server.PlayerX then w.(x := c) else w.(o := c)
  }

  /** A client reads `lines` in order; None if its reader crashes on one of them. */
  function Deliver(c: Client, lines: seq<string>): Option<Client>
    decreases |lines|
  {
    if |lines| == 0 then Some(c)
    else match Receive(c, lines[0])
      case Reaction(n, _) => Deliver(n, lines[1..])
      case Crashed => None
  }

  /** Both players connected and each client has read its greeting. */
  function Begin(): Option<World> {
    var s := Server.Open();
    match (Deliver(Start(), s.toX), Deliver(Start(), s.toO))
    case (Some(x), Some(o)) => Some(World(s, x, o))
    case _ => None
  }

  /**
    Player p clicks sq, with the client's click handler as written. If a line
    is sent, p's task reads it and runs one pass of its move loop, and each
    client reads what its task sent. A location sent out of turn would wait
    in the server task; such runs, which `Synced` rules out, are not
    followed (None).
  */
  function Press(w: World, p: Server.PlayerIndex, sq: Square): Option<World> {
    var k := ClickAsWritten(ClientOf(w, p), sq);
    var w1 := WithClient(w, p, k.next);
    match k.sent
    case None => Some(w1)
    case Some(line) =>
      if p != w.server.game.current then None
      else match Decimal.Parse(line)
        case None => None
        case Some(loc) =>
          match Server.Turn(w.server, p, Some(loc))
          case Continue(s', _) => Settle(w1, w.server, s')
          case _ => None
  }

  /** Each client reads what its task sent between `before` and `after`. */
  function Settle(w: World, before: Server.Session, after: Server.Session): Option<World>
    requires before.toX <= after.toX && before.toO <= after.toO
  {
    match (Deliver(w.x, after.toX[|before.toX|..]), Deliver(w.o, after.toO[|before.toO|..]))
    case (Some(x), Some(o)) => Some(World(after, x, o))
    case _ => None
  }

  /** Runs a sequence of clicks, each by the given player. */
  function PressAll(w: World, clicks: seq<(Server.PlayerIndex, Square)>): Option<World>
    decreases |clicks|
  {
    if |clicks| == 0 then Some(w)
    else match Press(w, clicks[0].0, clicks[0].1)
      case Some(w1) => PressAll(w1, clicks[1..])
      case None => None
  }

  /**
    The clients agree with the server: X's client holds "X", O's holds "O",
    both panels show the board, the player to move may send exactly while
    the game is not over, and the other player may not. The task of the
    player to move is in its loop; the other task has left exactly when the
    game is over.
  */
  ghost predicate Synced(w: World) {
    var b := w.server.game.board;
    var p := w.server.game.current;
    && w.x.mark == "X" && w.o.mark == "O"
    && w.x.phase == Playing && w.o.phase == Playing
    && Mirrors(w.x.grid, b) && Mirrors(w.o.grid, b)
    && (ClientOf(w, p).myTurn <==> !IsGameOver(b))
    && !ClientOf(w, Server.Next(p)).myTurn
    && !Server.Left(w.server, p)
    && (Server.Left(w.server, Server.Next(p)) <==> IsGameOver(b))
  }

  // ---------------------------------------------------------------------
  // Reading the server's lines
  // ---------------------------------------------------------------------

  lemma DeliverOne(c: Client, line: string, rest: seq<string>)
    ensures Receive(c, line).Crashed? ==> Deliver(c, [line] + rest) == None
    ensures Receive(c, line).Reaction? ==> Deliver(c, [line] + rest) == Deliver(Receive(c, line).next, rest)
  {
    assert ([line] + rest)[1..] == rest;
  }

  /** A client in play reads a result line, or nothing, and is left not to move. */
  lemma ReadResult(c: Client, lines: seq<string>)
    requires c.phase == Playing
    requires lines == [] || (|lines| == 1 && IsResult(lines[0]))
    ensures Deliver(c, lines).Some?
    ensures var c' := Deliver(c, lines).value;
      && c'.phase == Playing && c'.grid == c.grid && c'.mark == c.mark && c'.current == c.current
      && (c'.myTurn <==> c.myTurn && lines == [])
  {
    if lines != [] {
      DeliverOne(c, lines[0], []);
      assert lines == [lines[0]] + [];
    }
  }

  /** The mover's client after its move was accepted: its mark appears on the square it sent. */
  lemma MoverReads(c: Client, sq: Square, m: Cell, b: Board)
    requires c.phase == Playing && !c.myTurn && c.current == Some(sq)
    requires c.mark == Drawn(m) && m != Empty
    requires Mirrors(c.grid, b)
    ensures var b' := b[Location(sq) := m];
      && Deliver(c, Server.MoverLines(b')).Some?
      && var c' := Deliver(c, Server.MoverLines(b')).value;
      && c'.phase == Playing && !c'.myTurn && c'.mark == c.mark
      && Mirrors(c'.grid, b')
  {
    var b' := b[Location(sq) := m];
    var r := Receive(c, ValidMove);
    DeliverOne(c, ValidMove, Server.MoverResult(b'));
    ReadResult(r.next, Server.MoverResult(b'));
    Numbering();
    forall other: Square
      ensures MarkAt(r.next.grid, other) == Drawn(b'[Location(other)])
    {
    }
  }

  /** The other client after the move: the mover's mark appears at the sent location, and it may move unless the game is over. */
  lemma OpponentReads(c: Client, loc: int, m: Cell, b: Board)
    requires c.phase == Playing && 0 <= loc < 9
    requires Opposite(c.mark) == Drawn(m)
    requires Mirrors(c.grid, b)
    ensures var b' := b[loc := m];
      && Deliver(c, Server.OpponentLines(b', loc)).Some?
      && var c' := Deliver(c, Server.OpponentLines(b', loc)).value;
      && c'.phase == Playing && c'.mark == c.mark
      && (c'.myTurn <==> !IsGameOver(b'))
      && Mirrors(c'.grid, b')
  {
    var b' := b[loc := m];
    var result := Server.OpponentResult(b');
    OpponentMoveMarksSquare(c, loc);
    var r1 := Receive(c, OpponentMoved);
    var r2 := Receive(r1.next, Decimal.Format(loc));
    assert Server.OpponentLines(b', loc) == [OpponentMoved] + ([Decimal.Format(loc)] + result);
    DeliverOne(c, OpponentMoved, [Decimal.Format(loc)] + result);
    DeliverOne(r1.next, Decimal.Format(loc), result);
    ReadResult(r2.next, result);
    Numbering();
    forall other: Square
      ensures MarkAt(r2.next.grid, other) == Drawn(b'[Location(other)])
    {
    }
  }

  // ---------------------------------------------------------------------
  // The invariant
  // ---------------------------------------------------------------------

  lemma {:induction false} GreetingRead(c: Client, lines: seq<string>)
    requires c.phase == Playing
    requires forall i :: 0 <= i < |lines| ==> lines[i] != ValidMove && lines[i] != InvalidMove && lines[i] != OpponentMoved && !IsResult(lines[i])
    decreases |lines|
    ensures Deliver(c, lines) == Some(c)
  {
    if |lines| > 0 {
      OtherLineOnlyShown(c, lines[0]);
      GreetingRead(c, lines[1..]);
    }
  }

  /** After the greetings the clients agree with the server, and X moves first. */
  lemma BeginSynced()
    ensures Begin().Some?
    ensures Synced(Begin().value)
    ensures Begin().value.x.myTurn && !Begin().value.o.myTurn
  {
    var s := Server.Open();
    Server.NewGameBalanced();
    NewBoardOpen();
    var gx := Server.Greeting(Server.Connect(Server.PlayerX));
    var go := Server.Greeting(Server.Connect(Server.PlayerO));
    assert gx == ["X"] + gx[1..];
    assert go == ["O"] + go[1..];
    DeliverOne(Start(), "X", gx[1..]);
    DeliverOne(Start(), "O", go[1..]);
    var x := Receive(Start(), "X").next;
    var o := Receive(Start(), "O").next;
    GreetingRead(x, gx[1..]);
    GreetingRead(o, go[1..]);
  }

  /** A click by the player to move sends its location, which that player's task plays. */
  lemma PressSends(w: World, p: Server.PlayerIndex, sq: Square)
    requires Synced(w) && ClientOf(w, p).myTurn
    ensures p == w.server.game.current && !IsGameOver(w.server.game.board)
    ensures !Server.Left(w.server, p) && !Server.Left(w.server, Server.Next(p))
    ensures Server.Turn(w.server, p, Some(Location(sq))).Continue?
    ensures Press(w, p, sq) ==
      Settle(WithClient(w, p, ClickAsWritten(ClientOf(w, p), sq).next), w.server,
             Server.Turn(w.server, p, Some(Location(sq))).session)
  {
    Decimal.ParseFormat(Location(sq));
  }

  /** A refused move gives the turn back to the mover's client and changes nothing else. */
  lemma SettleRejected(w: World, p: Server.PlayerIndex, sq: Square)
    requires Synced(w) && ClientOf(w, p).myTurn
    requires p == w.server.game.current
    requires Server.Turn(w.server, p, Some(Location(sq))) == Server.Continue(Server.Turn(w.server, p, Some(Location(sq))).session, false)
    ensures var w1 := WithClient(w, p, ClickAsWritten(ClientOf(w, p), sq).next);
      var s' := Server.Turn(w.server, p, Some(Location(sq))).session;
      Settle(w1, w.server, s').Some? && Synced(Settle(w1, w.server, s').value)
  {
    var c := ClientOf(w, p);
    var k := ClickAsWritten(c, sq);
    var w1 := WithClient(w, p, k.next);
    var s' := Server.Turn(w.server, p, Some(Location(sq))).session;
    var q := Server.Next(p);
    assert Server.Outbox(s', p)[|Server.Outbox(w.server, p)|..] == [InvalidMove];
    assert Server.Outbox(s', q)[|Server.Outbox(w.server, q)|..] == [];
    DeliverOne(k.next, InvalidMove, []);
    var n := Receive(k.next, InvalidMove).next;
    assert n.phase == Playing && n.myTurn && n.mark == c.mark && n.grid == c.grid;
    assert Deliver(k.next, [InvalidMove]) == Some(n);
    if p == Server.PlayerX {
      assert Deliver(w.o, []) == Some(w.o);
      assert Settle(w1, w.server, s') == Some(World(s', n, w.o));
    } else {
      assert Deliver(w.x, []) == Some(w.x);
      assert Settle(w1, w.server, s') == Some(World(s', w.x, n));
    }
  }

  /**
    Settling succeeds when both clients read their new lines without
    crashing; stated for player p and the other player.
  */
  lemma SettleDelivers(w: World, before: Server.Session, after: Server.Session, p: Server.PlayerIndex, mine: Client, theirs: Client)
    requires before.toX <= after.toX && before.toO <= after.toO
    requires Deliver(ClientOf(w, p), Server.Outbox(after, p)[|Server.Outbox(before, p)|..]) == Some(mine)
    requires Deliver(ClientOf(w, Server.Next(p)), Server.Outbox(after, Server.Next(p))[|Server.Outbox(before, Server.Next(p))|..]) == Some(theirs)
    ensures Settle(w, before, after).Some?
    ensures var w' := Settle(w, before, after).value;
      w'.server == after && ClientOf(w', p) == mine && ClientOf(w', Server.Next(p)) == theirs
  {
  }

  /** The agreement after an accepted move, stated for the mover's and the other client. */
  lemma SyncedAfterMove(w: World, p: Server.PlayerIndex, mover: Client, other: Client)
    requires w.server.game.current == Server.Next(p)
    requires ClientOf(w, p) == mover && ClientOf(w, Server.Next(p)) == other
    requires mover.mark == (if p == Server.PlayerX then "X" else "O")
    requires other.mark == (if p == Server.PlayerX then "O" else "X")
    requires mover.phase == Playing && other.phase == Playing
    requires Mirrors(mover.grid, w.server.game.board) && Mirrors(other.grid, w.server.game.board)
    requires !mover.myTurn && (other.myTurn <==> !IsGameOver(w.server.game.board))
    requires !Server.Left(w.server, Server.Next(p))
    requires Server.Left(w.server, p) <==> IsGameOver(w.server.game.board)
    ensures Synced(w)
  {
    assert Server.Next(Server.Next(p)) == p;
  }

  /** The server's side of an accepted move: the new board, and the lines each task sent for it. */
  lemma AcceptedLines(s: Server.Session, p: Server.PlayerIndex, loc: int)
    requires p == s.game.current && !Server.Left(s, p) && !Server.Left(s, Server.Next(p))
    requires Server.Turn(s, p, Some(loc)).Continue? && Server.Turn(s, p, Some(loc)).accepted
    ensures 0 <= loc < 9 && s.game.board[loc] == Empty
    ensures var s' := Server.Turn(s, p, Some(loc)).session;
      var b' := s.game.board[loc := Server.MarkOf(p)];
      && s'.game == Server.Game(b', Server.Next(p))
      && s.toX <= s'.toX && s.toO <= s'.toO
      && Server.Outbox(s', p)[|Server.Outbox(s, p)|..] == Server.MoverLines(b')
      && Server.Outbox(s', Server.Next(p))[|Server.Outbox(s, Server.Next(p))|..] == Server.OpponentLines(b', loc)
      && (Server.Left(s', p) <==> IsGameOver(b'))
      && !Server.Left(s', Server.Next(p))
  {
    Server.AcceptedTurn(s, loc);
  }

  /** An accepted move appears on both panels; the turn passes to the other client unless the game is over. */
  lemma SettleAccepted(w: World, p: Server.PlayerIndex, sq: Square)
    requires Synced(w) && ClientOf(w, p).myTurn
    requires p == w.server.game.current
    requires Server.Turn(w.server, p, Some(Location(sq))).Continue?
    requires Server.Turn(w.server, p, Some(Location(sq))).accepted
    ensures var w1 := WithClient(w, p, ClickAsWritten(ClientOf(w, p), sq).next);
      var s' := Server.Turn(w.server, p, Some(Location(sq))).session;
      Settle(w1, w.server, s').Some? && Synced(Settle(w1, w.server, s').value)
  {
    var g := w.server.game;
    var loc := Location(sq);
    var q := Server.Next(p);
    var k := ClickAsWritten(ClientOf(w, p), sq);
    var w1 := WithClient(w, p, k.next);
    var s' := Server.Turn(w.server, p, Some(loc)).session;
    var cq := ClientOf(w, q);
    var m := Server.MarkOf(p);
    var b' := g.board[loc := m];
    AcceptedLines(w.server, p, loc);
    assert k.next.mark == Drawn(m) && Opposite(cq.mark) == Drawn(m);
    MoverReads(k.next, sq, m, g.board);
    OpponentReads(cq, loc, m, g.board);
    var mover := Deliver(k.next, Server.MoverLines(b')).value;
    var other := Deliver(cq, Server.OpponentLines(b', loc)).value;
    SettleDelivers(w1, w.server, s', p, mover, other);
    SyncedAfterMove(Settle(w1, w.server, s').value, p, mover, other);
  }

  /**
    A click keeps the clients in agreement with the server. A click by a
    player who may not move only makes the clicked square that client's
    current one; a click by the player to move runs one pass of that
    player's move loop on the clicked location.
  */
  lemma PressKeepsSynced(w: World, p: Server.PlayerIndex, sq: Square)
    requires Synced(w)
    ensures Press(w, p, sq).Some?
    ensures Synced(Press(w, p, sq).value)
    ensures !ClientOf(w, p).myTurn ==>
      Press(w, p, sq) == Some(WithClient(w, p, ClientOf(w, p).(current := Some(sq))))
    ensures ClientOf(w, p).myTurn ==>
      && p == w.server.game.current
      && Server.Turn(w.server, p, Some(Location(sq))).Continue?
      && Press(w, p, sq).value.server == Server.Turn(w.server, p, Some(Location(sq))).session
  {
    if ClientOf(w, p).myTurn {
      PressSends(w, p, sq);
      if Server.Turn(w.server, p, Some(Location(sq))).accepted {
        SettleAccepted(w, p, sq);
      } else {
        SettleRejected(w, p, sq);
      }
    }
  }

  /** Any run of clicks, by either player in any order, keeps the clients in agreement with the server. */
  lemma {:induction false} PressAllKeepsSynced(w: World, clicks: seq<(Server.PlayerIndex, Square)>)
    requires Synced(w)
    decreases |clicks|
    ensures PressAll(w, clicks).Some?
    ensures Synced(PressAll(w, clicks).value)
  {
    if |clicks| > 0 {
      PressKeepsSynced(w, clicks[0].0, clicks[0].1);
      PressAllKeepsSynced(Press(w, clicks[0].0, clicks[0].1).value, clicks[1..]);
    }
  }

  /**
    Once the game is over no click reaches the server: the task of the
    player who made the last move has left its loop, and the other task
    stays in its loop for good, waiting for a location.
  */
  lemma {:induction false} GameOverLeavesOneTaskWaiting(w: World, clicks: seq<(Server.PlayerIndex, Square)>)
    requires Synced(w) && IsGameOver(w.server.game.board)
    decreases |clicks|
    ensures PressAll(w, clicks).Some?
    ensures PressAll(w, clicks).value.server == w.server
    ensures Server.Left(w.server, Server.Next(w.server.game.current))
    ensures !Server.Left(w.server, w.server.game.current)
  {
    if |clicks| > 0 {
      PressKeepsSynced(w, clicks[0].0, clicks[0].1);
      GameOverLeavesOneTaskWaiting(Press(w, clicks[0].0, clicks[0].1).value, clicks[1..]);
    }
  }
}
