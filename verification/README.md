# Tic-tac-toe over a socket: a Dafny model of the game core

This project models the core of a two-player networked tic-tac-toe game. A
server accepts two connections: the first is player X and the second is
player O. It keeps the board and whose turn it is, and it runs one task per
player. Each task reads square numbers from its client, validates them
against the shared board, and answers with fixed text lines. A client reads
those lines, keeps a 3 x 3 panel of marks and a "my turn" flag, and sends
the number of a clicked square when it may move.

The model has these modules:

- `GameBoard` (board.dfy): the nine squares; the occupancy, three-in-a-row
  and full-board tests; and counts of marks.
- `Server` (server.dfy):
  - connection pairing and the greeting lines;
  - `validateAndMove` once it is the mover's turn;
  - the result lines each side is sent;
  - one pass of a player's move loop, and runs of passes.
- `ClientProtocol` (client.dfy):
  - the square numbering;
  - the interpreter for each line the server sends;
  - clicks;
  - the client's event loop, with the click handler as written or corrected.
- `Protocol` (protocol.dfy): the fixed protocol lines.
- `Decimal` (decimal.dfy): how a square number is written with `%d` and
  read back with `nextInt`.
- `EndToEnd` (endtoend.dfy): the server and both clients together. Each line
  is read as soon as it is sent. The invariant `Synced` says that both
  panels show the server's board, that only the player to move can send a
  location, and that once the game is over the task of the player who made
  the last move has left its loop while the other task is still in it. It
  holds after the greetings and across any sequence of clicks.
- `Wrappers` (wrappers.dfy): `Option`.

Blocking and threads are not modelled as such:

- A task waits inside `validateAndMove` until it is its player's turn. The
  model expresses this as the requirement that the mover is the current
  player.
- The two tasks run one pass of their move loops at a time. The task of the
  player to move reads its next input, runs its pass, and makes its loop
  test before the other task goes on.
- Input and output become explicit parameters and lists of lines: what a
  task has read, and what it has sent on each connection.

Two points of the code shape the model:

- A location outside 0..8 is not answered with "Invalid move, try again".
  `isOccupied` indexes the board array directly, so such a location throws
  and ends that player's task. The model has an explicit `IndexError`
  outcome for this, and the pass returns `Aborted`.
- Each task tests for the end of the game at the top of its loop. That test
  runs right after the task's own pass, before it blocks reading the next
  location. The session therefore keeps, per player, whether its task has
  left its loop. After the move that ends the game, the other task is still
  in its loop: it reads one more location and submits it. Lines sent to a
  task that has closed its connection are lost, because `Formatter` keeps
  write errors to itself.

## Model

| member | source | states |
|---|---|---|
| GameBoard.NewBoard | src/main/java/tictactoe/TicTacToeServer.java:52-54 | every one of the nine squares starts empty |
| GameBoard.TextInjective | src/main/java/tictactoe/TicTacToeServer.java:32 | the strings "", "X" and "O" stored in squares are distinct, so comparing strings compares cells |
| GameBoard.IsOccupied | src/main/java/tictactoe/TicTacToeServer.java:148-150 | a location outside 0..8 has no square (the array access throws); inside it, a square is occupied exactly when it is not empty |
| GameBoard.HasWinner | src/main/java/tictactoe/TicTacToeServer.java:157-166 | the eight explicit comparisons of `hasWinner`: three equal non-empty marks in a row, a column or a diagonal |
| GameBoard.HasWinnerIff | src/main/java/tictactoe/TicTacToeServer.java:157-166 | the eight explicit comparisons find a winner exactly when X or O fills some row, some column or one of the two diagonals |
| GameBoard.BoardFilledUp | src/main/java/tictactoe/TicTacToeServer.java:173-181 | the early-exit scan answers true exactly when the board is full, that is when no square is empty |
| GameBoard.IsGameOver | src/main/java/tictactoe/TicTacToeServer.java:184-186 | the game is over when the board has a winner or is full |
| GameBoard.MarkedAll | src/main/java/tictactoe/TicTacToeServer.java:173-181 | a board is full exactly when the number of marked squares equals its size |
| GameBoard.GameOverIff | src/main/java/tictactoe/TicTacToeServer.java:184-186 | the game is over exactly when a mark owns a line or all nine squares are marked |
| GameBoard.MarkedSplits | src/main/java/tictactoe/TicTacToeServer.java:32 | every marked square holds X or O, so the marked squares are the X squares plus the O squares |
| GameBoard.CountUpdate | src/main/java/tictactoe/TicTacToeServer.java:126 | writing a mark into one square changes the count of any mark only through that square's old and new contents |
| GameBoard.MarkedUpdate | src/main/java/tictactoe/TicTacToeServer.java:126 | writing a mark into one square changes the number of marked squares only through that square's old and new contents |
| GameBoard.NewBoardOpen | src/main/java/tictactoe/TicTacToeServer.java:52-54 | a new board has no marks and the game on it is not over, so the first move loop is entered |
| Server.MarksAndTurns | src/main/java/tictactoe/TicTacToeServer.java:126-127 | the two players hold distinct non-empty marks, the turn always changes hands, and two changes bring it back |
| Server.Execute | src/main/java/tictactoe/TicTacToeServer.java:72-98 | the first connection becomes player 0 with mark X and the second player 1 with mark O, and X is released once both are connected |
| Server.Greeting | src/main/java/tictactoe/TicTacToeServer.java:228-257 | each task first sends its mark; X then gets three notice lines (connected, waiting, your move) and O exactly one, and no notice is a line the client acts on (a move answer, "Opponent moved" or a result) |
| Server.Open | src/main/java/tictactoe/TicTacToeServer.java:228-260 | once both are greeted the game is new, the first line on X's connection is "X" and on O's "O", and both tasks are in their move loops |
| Server.NewGame | src/main/java/tictactoe/TicTacToeServer.java:52-56 | the server starts with an empty board and X to move |
| Server.ValidateAndMove | src/main/java/tictactoe/TicTacToeServer.java:110-145 | a location outside 0..8 is an index error; an occupied square is refused with nothing changed; a free square receives the mover's mark, no other square changes, and the turn passes to the other player |
| Server.AcceptedMoveAddsOneMark | src/main/java/tictactoe/TicTacToeServer.java:124-127 | an accepted move adds exactly one mark, one more for the mover and none for the other player, and never overwrites a marked square |
| Server.AcceptedMoveKeepsBalance | src/main/java/tictactoe/TicTacToeServer.java:124-127 | X has as many marks as O, plus one while O is to move, and an accepted move keeps it so |
| Server.MoverResult | src/main/java/tictactoe/TicTacToeServer.java:269-271 | after "Valid move." the mover hears VICTORY exactly when the board has a winner, TIE exactly when it is full without one, and nothing exactly while the game goes on |
| Server.OpponentResult | src/main/java/tictactoe/TicTacToeServer.java:215-221 | after the move's location the other player hears DEFEAT exactly when the board has a winner, TIE exactly when it is full without one, and nothing exactly while the game goes on |
| Server.ResultsAgree | src/main/java/tictactoe/TicTacToeServer.java:271 | the two verdicts agree: a victory for the mover is a defeat for the other player, a tie is a tie for both, and at most one result line is sent to each |
| Server.MoverLines | src/main/java/tictactoe/TicTacToeServer.java:267-272 | the mover is sent "Valid move." and then its result |
| Server.OpponentLines | src/main/java/tictactoe/TicTacToeServer.java:215-221 | the other player is sent "Opponent moved", the location written with `%d`, and then its result |
| Server.ResultsByLines | src/main/java/tictactoe/TicTacToeServer.java:157-186 | in terms of rows, columns and diagonals: VICTORY and DEFEAT are sent exactly when some mark owns a line, and TIE exactly when none does and all nine squares are marked |
| Server.OwnedBefore | src/main/java/tictactoe/TicTacToeServer.java:126 | a line that a mark owns after another mark was written into one square was already owned before |
| Server.VictoryIsTheMovers | src/main/java/tictactoe/TicTacToeServer.java:267-271 | from a board without a winner, an accepted move brings VICTORY exactly when the mover's mark now owns a line, and the other mark owns none |
| Server.Attempt | src/main/java/tictactoe/TicTacToeServer.java:266-277 | a location outside 0..8 ends the task. Otherwise the move is accepted exactly when the move rule accepts it, that is when the square is free. A refused move sends "Invalid move, try again" to the mover alone and changes nothing. An accepted move is the move rule's result: the mover is sent "Valid move." and its result, and the other player the move, its location and its result, unless that player's task has already closed its connection. Earlier lines stay as sent |
| Server.Send | src/main/java/tictactoe/TicTacToeServer.java:214-221 | lines written to a player are appended to what it was sent, unless its task has closed the connection, when they are lost; nothing else changes |
| Server.LoopTest | src/main/java/tictactoe/TicTacToeServer.java:259-281 | after its pass a task leaves its loop, and closes its connection, exactly when the game is over; the other task's state and all lines are unchanged |
| Server.Pass | src/main/java/tictactoe/TicTacToeServer.java:259-278 | one pass is the move attempt followed by the loop test: same board and lines as the attempt, and the task leaves exactly when the board after it is over |
| Server.TurnAsWritten | src/main/java/tictactoe/TicTacToeServer.java:259-265 | a pass ends the task exactly when the task's own last loop test found the game over, whatever the opponent did since; when the input is exhausted the location keeps its initial 0 and is submitted as a move |
| Server.EndOfInputPlaysSquareZero | src/main/java/tictactoe/TicTacToeServer.java:259-267 | at end of input, for a task still in its loop and with square 0 free, the loop as written places the player's mark on square 0, a move the client never sent |
| Server.Turn | src/main/java/tictactoe/TicTacToeServer.java:259-278 | a pass ends the task exactly when the task has left its loop or its input is exhausted; otherwise it is one pass of the loop on the location the client sent; lines already sent stay as sent |
| Server.TurnIn | src/main/java/tictactoe/TicTacToeServer.java:259-278 | in either loop a pass ends the task when it has left its loop (and, in the corrected loop, at end of input); otherwise it is one pass on the location read, 0 when the input has ended |
| Server.TurnKeepsLastMoverLeft | src/main/java/tictactoe/TicTacToeServer.java:259-278 | every pass keeps this true: once the game is over, the task of the player who made the last move has left its loop |
| Server.WinnerStays | src/main/java/tictactoe/TicTacToeServer.java:157-166 | a completed line survives any move onto a free square |
| Server.LateMoveWins | src/main/java/tictactoe/TicTacToeServer.java:259-272 | after the opponent completed a line, a task still in its loop that reads a free square has it accepted and is told "Valid move." and VICTORY too, while the opponent, whose task has left, is sent nothing |
| Server.Play | src/main/java/tictactoe/TicTacToeServer.java:259-278 | the two move loops run one pass at a time, always the player to move, until that task leaves its loop, its input ends in the corrected loop, or it throws |
| Server.PlayInvariants | src/main/java/tictactoe/TicTacToeServer.java:259-278 | over any run of either loop, the one as written included, the marks grow by exactly the number of accepted moves, no marked square ever changes, the move counts stay in step with the turn, and once the game is over the player who made the last move has left its loop |
| Server.NewGameBalanced | src/main/java/tictactoe/TicTacToeServer.java:52-56 | the new game has no marks and its move counts are in step with X's turn |
| Server.BalancedParity | src/main/java/tictactoe/TicTacToeServer.java:127 | when the move counts are in step with the turn, it is X's turn exactly when an even number of squares is marked |
| Server.PlayFromNewGame | src/main/java/tictactoe/TicTacToeServer.java:259-278 | from a new game, in either loop, the board holds exactly one mark per accepted move, X moves next exactly after an even number of them, and once the game is over the player who made the last move has left its loop |
| Server.AtMostOneLateMove | src/main/java/tictactoe/TicTacToeServer.java:259-278 | once the game is over, any further run of either loop, the one as written included, accepts at most one more move |
| Server.EndOfInputRefusedForever | src/main/java/tictactoe/TicTacToeServer.java:259-277 | in the loop as written, once the input has ended while the game goes on and square 0 is taken, every pass submits 0 and is told "Invalid move, try again"; nothing else changes and the task never leaves its loop |
| Server.MovesAccepted | src/main/java/tictactoe/TicTacToeServer.java:124-144 | a sequence of moves by alternating players is accepted in full exactly when it names distinct squares that are free at the start |
| Server.MovesFollowAlternate | src/main/java/tictactoe/TicTacToeServer.java:124-127 | on distinct free squares the move rule agrees with the reference play, in which each location receives the mark of the player to move and the turn passes |
| Server.MoverParity | src/main/java/tictactoe/TicTacToeServer.java:127 | after k turn changes starting with p, it is p's turn again exactly when k is even |
| Server.AlternateTurn | src/main/java/tictactoe/TicTacToeServer.java:127 | in the reference play the turn changes once per move |
| Server.AlternateMarks | src/main/java/tictactoe/TicTacToeServer.java:126 | in the reference play the k-th location holds the mark of the k-th player to move, and every other square is unchanged |
| Server.MovesAlternate | src/main/java/tictactoe/TicTacToeServer.java:124-127 | after accepted alternating moves, the k-th location holds X for even k and O for odd k (from X's turn), the other squares are unchanged, and the turn has changed once per move |
| Server.AcceptedTurn | src/main/java/tictactoe/TicTacToeServer.java:259-278 | a move to a free square, while both tasks are in their loops, is accepted: the board gains the mark, the turn passes, each side is sent exactly its lines for that move, and the mover leaves its loop exactly when that move ended the game |
| Server.TopRowOpening | src/main/java/tictactoe/TicTacToeServer.java:110-145 | X at 0, O at 3, X at 1, O at 4 from a new game gives X two in the top row and O two in the middle row, with X to move |
| Server.TopRowVictory | src/main/java/tictactoe/TicTacToeServer.java:259-272 | from there X at 2 wins: X hears "Valid move." and VICTORY and leaves its loop; O hears "Opponent moved", "2" and DEFEAT, but its task is still in its loop |
| Server.TopRowLateMove | src/main/java/tictactoe/TicTacToeServer.java:259-272 | if O's client then still sends 5, O's move is accepted, O hears "Valid move." and VICTORY, X hears nothing, and then both tasks have left their loops |
| Server.TieClosing | src/main/java/tictactoe/TicTacToeServer.java:110-145 | the last four moves of a drawn game (X 3, O 5, X 7, O 6) are all accepted and fill eight squares |
| Server.TieOpening | src/main/java/tictactoe/TicTacToeServer.java:110-145 | X and O playing 0, 1, 2, 4, 3, 5, 7, 6 from a new game fill eight squares with no line of three |
| Server.FullBoardTie | src/main/java/tictactoe/TicTacToeServer.java:259-272 | X filling the last square of that game without a line sends TIE to both sides; X's task leaves its loop and O's is still in its loop |
| Server.FullBoardLateMove | src/main/java/tictactoe/TicTacToeServer.java:259-278 | a location O's task then still reads is refused with "Invalid move, try again", as every square is taken, and O's task leaves its loop |
| Decimal.Format | src/main/java/tictactoe/TicTacToeServer.java:217 | a number is written as a non-empty run of decimal digits, one digit exactly for 0..9 |
| Decimal.Parse | src/main/java/tictactoe/TicTacToeClient.java:131 | a line is read as a number exactly when it is a non-empty run of decimal digits |
| Decimal.ParseFormat | src/main/java/tictactoe/TicTacToeServer.java:217 | reading back the line written for a location gives that location |
| Decimal.FormatInjective | src/main/java/tictactoe/TicTacToeServer.java:217 | different locations are written as different lines |
| ClientProtocol.Location | src/main/java/tictactoe/TicTacToeClient.java:57 | every square of the 3 x 3 panel has a location in 0..8 |
| ClientProtocol.Numbering | src/main/java/tictactoe/TicTacToeClient.java:133-134 | numbering a square and decoding a location with / 3 and % 3 are inverse bijections between the nine squares and 0..8 |
| ClientProtocol.LocationInjective | src/main/java/tictactoe/TicTacToeClient.java:57 | different squares have different locations |
| ClientProtocol.BlankGrid | src/main/java/tictactoe/TicTacToeClient.java:53-60 | every square of a new panel shows a blank |
| ClientProtocol.Receive | src/main/java/tictactoe/TicTacToeClient.java:101-151 | the client's reader: the first line is its mark, then each line is interpreted as a move answer, an opponent move with its location line, a result, or a notice that is only shown |
| ClientProtocol.SetMark | src/main/java/tictactoe/TicTacToeClient.java:161-165 | drawing a mark changes that square only |
| ClientProtocol.MarkLineSetsTurn | src/main/java/tictactoe/TicTacToeClient.java:101-108 | the first line is kept as the client's mark, and the client may move first exactly when that mark is "X" |
| ClientProtocol.ValidMoveMarksCurrentSquare | src/main/java/tictactoe/TicTacToeClient.java:122-125 | "Valid move." draws the client's own mark in the square it last clicked, leaves every other square and the turn alone |
| ClientProtocol.InvalidMoveGivesTurnBack | src/main/java/tictactoe/TicTacToeClient.java:126-129 | "Invalid move, try again" gives the client the turn again and draws nothing |
| ClientProtocol.OpponentMoveMarksSquare | src/main/java/tictactoe/TicTacToeClient.java:130-139 | "Opponent moved" and a square number draw the opponent's mark at (location / 3, location % 3), no other square changes, and the client gets the turn |
| ClientProtocol.BadLocationCrashes | src/main/java/tictactoe/TicTacToeClient.java:131-135 | a location line that is not a number, or names no square, ends the reader |
| ClientProtocol.ResultEndsTurn | src/main/java/tictactoe/TicTacToeClient.java:140-146 | VICTORY, DEFEAT and TIE are shown, draw nothing and take the turn away |
| ClientProtocol.OtherLineOnlyShown | src/main/java/tictactoe/TicTacToeClient.java:147-149 | any other line is shown as it came and changes nothing |
| ClientProtocol.ClickAsWritten | src/main/java/tictactoe/TicTacToeClient.java:194-198 | a click always makes the clicked square the current one; its location is sent exactly when it is the client's turn, which then ends |
| ClientProtocol.StrayClickMisplacesMark | src/main/java/tictactoe/TicTacToeClient.java:194-198 | with the code as written, a second click while the first move awaits its answer makes "Valid move." draw the mark on the second square and leave the sent square blank |
| ClientProtocol.Click | src/main/java/tictactoe/TicTacToeClient.java:168-175 | a location is sent exactly when it is the client's turn, which then ends, and only then does the clicked square become the current one; a click out of turn changes nothing |
| ClientProtocol.ClickBy | src/main/java/tictactoe/TicTacToeClient.java:194-198 | under either handler a click sends the clicked location exactly on the client's turn, and then that square is current; as written a click always makes it current, corrected a click out of turn changes nothing |
| ClientProtocol.StepOn | src/main/java/tictactoe/TicTacToeClient.java:111-115 | one event of the event loop: a line goes to the reader, which may crash; a click goes to the chosen handler, sends exactly on the client's turn, and shows nothing |
| ClientProtocol.Drive | src/main/java/tictactoe/TicTacToeClient.java:111-115 | a run of events under the chosen handler only ever adds to the lines sent and the text shown |
| ClientProtocol.StepTracksSent | src/main/java/tictactoe/TicTacToeClient.java:111-115 | with the corrected click of the first finding, one line or click keeps the current square equal to the square named by the location sent last |
| ClientProtocol.DriveTracksSent | src/main/java/tictactoe/TicTacToeClient.java:111-115 | with the corrected click, over any run of lines and clicks, the current square is the square named by the location sent last, and none before anything is sent |
| ClientProtocol.DriveAsWrittenMisplacesMark | src/main/java/tictactoe/TicTacToeClient.java:111-125 | with the click as written, the event loop run on a sent click, a stray click and "Valid move." ends with the last location sent naming the first square, the current square no longer on it, and the mark drawn on the stray square only |
| ClientProtocol.ValidMoveMarksSentSquare | src/main/java/tictactoe/TicTacToeClient.java:122-125 | so, with the corrected click, "Valid move." draws the client's mark on the square of the location it sent |
| EndToEnd.ReadResult | src/main/java/tictactoe/TicTacToeClient.java:140-146 | a client reading its result line (or none) keeps its panel, and may no longer move exactly when a result arrived |
| EndToEnd.GreetingRead | src/main/java/tictactoe/TicTacToeClient.java:147-149 | the greeting notices are shown and change nothing |
| EndToEnd.BeginSynced | src/main/java/tictactoe/TicTacToeServer.java:228-257 | after the greetings both clients hold their marks, both panels show the empty board, X may move and O may not |
| EndToEnd.MoverReads | src/main/java/tictactoe/TicTacToeClient.java:122-125 | after an accepted move the mover's panel shows the server's new board and it may not move |
| EndToEnd.OpponentReads | src/main/java/tictactoe/TicTacToeClient.java:130-139 | after an accepted move the other client's panel shows the server's new board, and it may move exactly when the game is not over |
| EndToEnd.PressSends | src/main/java/tictactoe/TicTacToeClient.java:194-198 | a client that may move is the server's current player in an open game, both tasks are in their loops, and its click makes that player's task run one pass on the clicked location |
| EndToEnd.Press | src/main/java/tictactoe/TicTacToeClient.java:194-198 | a click as written; a location it sends is played by that player's task, and each client reads what its task sent |
| EndToEnd.SettleRejected | src/main/java/tictactoe/TicTacToeServer.java:273-277 | a refused move gives the mover's client its turn back and keeps both panels and the board in agreement |
| EndToEnd.AcceptedLines | src/main/java/tictactoe/TicTacToeServer.java:266-272 | an accepted pass by the player to move, while both tasks are in their loops, was on a free square, and sends the mover and the other player exactly their lines for the move |
| EndToEnd.SettleAccepted | src/main/java/tictactoe/TicTacToeServer.java:266-272 | an accepted move appears on both panels, and the other client may move exactly when the game is not over |
| EndToEnd.PressKeepsSynced | src/main/java/tictactoe/TicTacToeServer.java:259-278 | any click keeps both panels equal to the server's board, only the player to move able to send, and the loop flags in step with the end of the game; a click out of turn only changes which square that client holds as current |
| EndToEnd.PressAllKeepsSynced | src/main/java/tictactoe/TicTacToeServer.java:259-278 | any sequence of clicks by either player, in any order, keeps the clients in agreement with the server |
| EndToEnd.GameOverLeavesOneTaskWaiting | src/main/java/tictactoe/TicTacToeServer.java:259-265 | once the game is over no click reaches the server: the task of the player who made the last move has left its loop, and the other task stays in its loop, blocked on its read |

## Left out

- Sockets, the `Scanner` and `Formatter` streams, and their `IOException` handling are not modelled. Lines are values; what a task reads is a parameter.
- Locks, condition variables and the thread pool are not modelled. Waiting for the turn is the requirement that the mover is the current player. The server's two tasks run one pass at a time, always the player to move.
- Interleavings are therefore out of reach in which a task waits inside `validateAndMove` while the other task runs, and then runs alongside it once woken. This happens when a task reads a location sent out of turn; the client's click handler sends only on its turn, so in `EndToEnd` it does not arise. It also happens when a task's input has ended: its location stays 0, it blocks for its turn, and once the mover's signal wakes it, its move can change what the mover's `hasWinner` and loop test see. Such runs are not modelled.
- Server.Play: a run stops when the task of the player to move has left its loop, its input ends (in the corrected loop) or it throws. The other task then stays blocked on its read; the model does not follow it further.
- Swing is reduced to text: the server's message area, the client's text area, painting and the `idField` title. The client's shown text is kept as lines; the server's is dropped.
- `Scanner` token rules are not modelled: a sign, surrounding whitespace, or a location on the same line as other text. A location line is read as one run of decimal digits.
- Server.Turn: the task's input is a square number or end of input. A token that is not a number makes `nextInt` throw and end the task; that case is not modelled.
- "Valid move." with no square clicked yet leaves the panel unchanged. In the code, `setMark` is given a null square and the event thread throws, so nothing is drawn either.
- When its input ends, the client loops on `hasNextLine` forever. The model simply stops reading.
- Application.java, GameFiles.java, gui/Board.java and tools/ImageProvider.java are not part of this model.

## Findings

| source | as written | input that shows it | evidently intended | confidence | as-written member | corrected member |
|---|---|---|---|---|---|---|
| src/main/java/tictactoe/TicTacToeClient.java:194-198 | every click sets the current square, even one that sends nothing because the turn is over | X clicks square (0, 0), which is sent, then clicks (1, 1) before "Valid move." arrives; X's panel draws X at (1, 1) while the server marked location 0 | the current square changes only when its location is sent | not executed | ClientProtocol.DriveAsWrittenMisplacesMark | ClientProtocol.DriveTracksSent |
| src/main/java/tictactoe/TicTacToeServer.java:261-265 | when `hasNext` is false the location keeps its initial value 0 and is submitted as a move | X's client closes its side while it is X's turn and square 0 is free; the server places X on square 0. With square 0 taken instead, the task answers "Invalid move, try again" forever (`Server.EndOfInputRefusedForever`) | end of input ends the task instead of playing a move | not executed | Server.EndOfInputPlaysSquareZero | Server.Turn |

The clicks in `EndToEnd` use `ClientProtocol.ClickAsWritten`. There each line is read as soon as it is sent, so no click falls between a move and its answer, and the first finding cannot arise.
`Server.Play` runs either loop: `Server.TurnAsWritten` as written, or the corrected `Server.Turn`. The lemmas about runs hold for both.
