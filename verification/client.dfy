/**
  The client's protocol interpreter: how each line from the server changes
  the client's turn flag, its local 3 x 3 panel and the square it last
  clicked, and how a click turns into a line for the server. Drawing and the
  message area are reduced to the text that would be shown.
*/
module ClientProtocol {
  import opened Wrappers
  import opened Protocol
  import Decimal

  // ---------------------------------------------------------------------
  // Square numbering
  // ---------------------------------------------------------------------

  datatype Position = Position(row: int, column: int)

  /** A square of the panel, by row and column. */
  type Square = p: Position | 0 <= p.row < 3 && 0 <= p.column < 3 witness Position(0, 0)

  /** The location a square is created with: row * 3 + column. */
  function Location(sq: Square): (loc: int)
    ensures 0 <= loc < 9
  {
    sq.row * 3 + sq.column
  }

  /** The square a received location names: row location / 3, column location % 3. */
  function SquareAt(loc: int): Square
    requires 0 <= loc < 9
  {
    Position(loc / 3, loc % 3)
  }

  /** Numbering squares and decoding locations are inverse bijections between the squares and 0..8. */
  lemma Numbering()
    ensures forall sq: Square {:trigger Location(sq)} :: SquareAt(Location(sq)) == sq
    ensures forall loc :: 0 <= loc < 9 ==> Location(SquareAt(loc)) == loc
  {
    forall sq: Square
      ensures SquareAt(Location(sq)) == sq
    {
      var loc := Location(sq);
      assert loc / 3 == sq.row && loc % 3 == sq.column;
    }
  }

  lemma LocationInjective(a: Square, b: Square)
    requires Location(a) == Location(b)
    ensures a == b
  {
    Numbering();
    assert SquareAt(Location(a)) == a;
  }

  // ---------------------------------------------------------------------
  // The panel
  // ---------------------------------------------------------------------

  /** The mark text drawn in each square, by row and column. */
  type Grid = g: seq<seq<string>> | |g| == 3 && forall r :: 0 <= r < 3 ==> |g[r]| == 3
    witness [[" ", " ", " "], [" ", " ", " "], [" ", " ", " "]]

  function MarkAt(g: Grid, sq: Square): string {
    g[sq.row][sq.column]
  }

  /** The panel as built: every square shows a blank. */
  function BlankGrid(): (g: Grid)
    ensures forall sq: Square :: MarkAt(g, sq) == " "
  {
    [[" ", " ", " "], [" ", " ", " "], [" ", " ", " "]]
  }

  /** Draws `mark` in one square. */
  function SetMark(g: Grid, sq: Square, mark: string): (g': Grid)
    ensures MarkAt(g', sq) == mark
    ensures forall other: Square :: other != sq ==> MarkAt(g', other) == MarkAt(g, other)
  {
    g[sq.row := g[sq.row][sq.column := mark]]
  }

  // ---------------------------------------------------------------------
  // Client state and incoming lines
  // ---------------------------------------------------------------------

  /**
    Where the reader is: waiting for the mark line, reading ordinary lines,
    or waiting for the location that follows "Opponent moved".
  */
  datatype Phase = AwaitingMark | Playing | AwaitingLocation

  datatype Client = Client(phase: Phase, mark: string, myTurn: bool, grid: Grid, current: Option<Square>)

  /** The client when the connection is made: no mark, not its turn, a blank panel, nothing clicked. */
  function Start(): Client {
    Client(AwaitingMark, "", false, BlankGrid(), None)
  }

  /** The mark drawn for the opponent: O for a client holding X, X otherwise. */
  function Opposite(mark: string): string {
    if mark == "X" then "O" else "X"
  }

  /** The result of reading one line: the new state and the text shown, or a crash of the reader. */
  datatype Reaction = Reaction(next: Client, shown: seq<string>) | Crashed

  /**
    Reads one line from the server. The first line is the client's mark; a
    line following "Opponent moved" is the location of that move, and one
    that is not a square number ends the reader with an exception.
  */
  function Receive(c: Client, line: string): Reaction {
    match c.phase
    case AwaitingMark =>
      Reaction(c.(phase := Playing, mark := line, myTurn := line == "X"), [])
    case AwaitingLocation =>
      (match Decimal.Parse(line)
       case Some(loc) =>
         if loc < 9 then
           Reaction(c.(phase := Playing, grid := SetMark(c.grid, SquareAt(loc), Opposite(c.mark)), myTurn := true),
                    ["Opponent moved. Your turn.\n"])
         else Crashed
       case None => Crashed)
    case Playing =>
      if line == ValidMove then
        var grid := match c.current case Some(sq) => SetMark(c.grid, sq, c.mark) case None => c.grid;
        Reaction(c.(grid := grid), ["Valid move, please wait.\n"])
      else if line == InvalidMove then
        Reaction(c.(myTurn := true), [line + "\n"])
      else if line == OpponentMoved then
        Reaction(c.(phase := AwaitingLocation), [])
      else if IsResult(line) then
        Reaction(c.(myTurn := false), [line + "\n"])
      else
        Reaction(c, [line + "\n"])
  }

  /** The first line is taken as the mark, and the client may move first exactly when that mark is X. */
  lemma MarkLineSetsTurn(c: Client, line: string)
    requires c.phase == AwaitingMark
    ensures var r := Receive(c, line);
      && r.Reaction?
      && r.next.mark == line
      && (r.next.myTurn <==> line == "X")
      && r.next.phase == Playing
      && r.next.grid == c.grid
  {
  }

  /** "Valid move." draws the client's own mark in the square it last clicked and leaves the turn alone. */
  lemma ValidMoveMarksCurrentSquare(c: Client)
    requires c.phase == Playing
    ensures var r := Receive(c, ValidMove);
      && r.Reaction?
      && r.next.myTurn == c.myTurn
      && r.next.current == c.current
      && (c.current.Some? ==> MarkAt(r.next.grid, c.current.value) == c.mark)
      && (forall sq: Square :: Some(sq) != c.current ==> MarkAt(r.next.grid, sq) == MarkAt(c.grid, sq))
  {
  }

  /** "Invalid move, try again" gives the turn back and draws nothing. */
  lemma InvalidMoveGivesTurnBack(c: Client)
    requires c.phase == Playing
    ensures var r := Receive(c, InvalidMove);
      r.Reaction? && r.next.myTurn && r.next.grid == c.grid && r.next.phase == Playing
  {
  }

  /**
    "Opponent moved" followed by a square number draws the opponent's mark
    in the square at (location / 3, location % 3) and gives the client the turn.
  */
  lemma OpponentMoveMarksSquare(c: Client, loc: nat)
    requires c.phase == Playing && loc < 9
    ensures var r1 := Receive(c, OpponentMoved);
      && r1.Reaction? && r1.next.grid == c.grid && r1.next.myTurn == c.myTurn && r1.shown == []
      && var r2 := Receive(r1.next, Decimal.Format(loc));
      && r2.Reaction?
      && r2.next.phase == Playing
      && r2.next.myTurn
      && MarkAt(r2.next.grid, SquareAt(loc)) == Opposite(c.mark)
      && (forall sq: Square :: Location(sq) != loc ==> MarkAt(r2.next.grid, sq) == MarkAt(c.grid, sq))
  {
    Decimal.ParseFormat(loc);
    Numbering();
  }

  /** A location line that is not a number of a square ends the reader. */
  lemma BadLocationCrashes(c: Client, line: string)
    requires c.phase == AwaitingLocation
    requires Decimal.Parse(line).None? || Decimal.Parse(line).value >= 9
    ensures Receive(c, line) == Crashed
  {
  }

  /** VICTORY, DEFEAT and TIE each end the client's turn, draw nothing and are shown. */
  lemma ResultEndsTurn(c: Client, line: string)
    requires c.phase == Playing && IsResult(line)
    ensures var r := Receive(c, line);
      r.Reaction? && !r.next.myTurn && r.next.grid == c.grid && r.shown == [line + "\n"]
  {
  }

  /** Any other line is shown as it came and changes nothing. */
  lemma OtherLineOnlyShown(c: Client, line: string)
    requires c.phase == Playing
    requires line != ValidMove && line != InvalidMove && line != OpponentMoved && !IsResult(line)
    ensures Receive(c, line) == Reaction(c, [line + "\n"])
  {
  }

  // ---------------------------------------------------------------------
  // Clicks
  // ---------------------------------------------------------------------

  /** A click's effect: the new state and the line sent to the server, if any. */
  datatype Clicked = Clicked(next: Client, sent: Option<string>)

  /**
    A click as written: the clicked square always becomes the current one,
    and its location is sent only when it is the client's turn, which then ends.
  */
  function ClickAsWritten(c: Client, sq: Square): (r: Clicked)
    ensures r.next.current == Some(sq)
    ensures r.sent.Some? <==> c.myTurn
    ensures r.sent.Some? ==> r.sent.value == Decimal.Format(Location(sq))
    ensures !r.next.myTurn
    ensures r.next.grid == c.grid && r.next.mark == c.mark && r.next.phase == c.phase
  {
    var c1 := c.(current := Some(sq));
    if c1.myTurn then Clicked(c1.(myTurn := false), Some(Decimal.Format(Location(sq))))
    else Clicked(c1, None)
  }

  /**
    A stray click made while a move waits for its answer moves the current
    square, so "Valid move." draws the mark on the stray square and leaves
    the square that was sent (and that the server marked) as it was.
  */
  lemma StrayClickMisplacesMark(c: Client, sent: Square, stray: Square)
    requires c.phase == Playing && c.myTurn
    requires sent != stray && MarkAt(c.grid, sent) != c.mark
    ensures var first := ClickAsWritten(c, sent);
      var second := ClickAsWritten(first.next, stray);
      var r := Receive(second.next, ValidMove);
      && first.sent == Some(Decimal.Format(Location(sent)))
      && second.sent == None
      && r.Reaction?
      && MarkAt(r.next.grid, stray) == c.mark
      && MarkAt(r.next.grid, sent) != c.mark
  {
  }

  /**
    A click where the current square follows the line actually sent: a
    click that sends nothing changes nothing.
  */
  function Click(c: Client, sq: Square): (r: Clicked)
    ensures r.sent.Some? <==> c.myTurn
    ensures c.myTurn ==> r.next.current == Some(sq) && r.sent == Some(Decimal.Format(Location(sq)))
    ensures !c.myTurn ==> r.next == c
    ensures !r.next.myTurn
    ensures r.next.grid == c.grid && r.next.mark == c.mark && r.next.phase == c.phase
  {
    if c.myTurn then Clicked(c.(current := Some(sq), myTurn := false), Some(Decimal.Format(Location(sq))))
    else Clicked(c, None)
  }

  // ---------------------------------------------------------------------
  // The client's event loop
  // ---------------------------------------------------------------------

  /** What the client sees: a line from the server or a click on a square. */
  datatype Event = Arrives(line: string) | Press(sq: Square)

  /** The effect of one event: the new state, the lines sent and the text shown; or the reader crashed. */
  datatype Step = Step(next: Client, sent: seq<string>, shown: seq<string>) | Halted

  /** Which click handler the event loop runs: the one as written, or the corrected one. */
  datatype ClickRule = AsWritten | Corrected

  /** A click under the chosen handler. */
  function ClickBy(rule: ClickRule, c: Client, sq: Square): (r: Clicked)
    ensures r.sent.Some? <==> c.myTurn
    ensures r.sent.Some? ==> r.sent.value == Decimal.Format(Location(sq)) && r.next.current == Some(sq)
    ensures rule == AsWritten ==> r.next.current == Some(sq)
    ensures rule == Corrected && !c.myTurn ==> r.next == c
  {
    match rule
    case AsWritten => ClickAsWritten(c, sq)
    case Corrected => Click(c, sq)
  }

  /**
    One event of the client's event loop: a line goes to the reader, a click
    to the handler of the chosen rule, whose line, if any, is sent.
  */
  function StepOn(rule: ClickRule, c: Client, e: Event): (st: Step)
    ensures e.Arrives? ==> (st.Halted? <==> Receive(c, e.line).Crashed?)
    ensures e.Arrives? && st.Step? ==> st.sent == [] && st.next == Receive(c, e.line).next
    ensures e.Press? ==> st.Step? && st.shown == [] && st.next == ClickBy(rule, c, e.sq).next
    ensures e.Press? ==> (st.sent != [] <==> c.myTurn)
    ensures e.Press? && c.myTurn ==> st.sent == [Decimal.Format(Location(e.sq))]
  {
    match e
    case Arrives(line) =>
      (match Receive(c, line)
       case Reaction(n, shown) => Step(n, [], shown)
       case Crashed => Halted)
    case Press(sq) =>
      var k := ClickBy(rule, c, sq);
      Step(k.next, if k.sent.Some? then [k.sent.value] else [], [])
  }

  /** The client after a run of events, with all lines sent and all text shown; or the reader crashed. */
  datatype Trace = Trace(client: Client, sent: seq<string>, shown: seq<string>) | Stopped

  /** Runs `events` under the click rule from a client that has already sent `sent` and shown `shown`. */
  function Drive(rule: ClickRule, c: Client, events: seq<Event>, sent: seq<string>, shown: seq<string>): (t: Trace)
    decreases |events|
    ensures t.Trace? ==> sent <= t.sent && shown <= t.shown
  {
    if |events| == 0 then Trace(c, sent, shown)
    else match StepOn(rule, c, events[0])
      case Halted => Stopped
      case Step(n, more, text) => Drive(rule, n, events[1..], sent + more, shown + text)
  }

  /** The square named by the last line sent: None before anything is sent or if that line names no square. */
  function LastSent(sent: seq<string>): Option<Square> {
    if |sent| == 0 then None
    else match Decimal.Parse(sent[|sent| - 1])
      case Some(loc) => if loc < 9 then Some(SquareAt(loc)) else None
      case None => None
  }

  /** The current square is the one named by the location sent last. */
  ghost predicate TracksSent(c: Client, sent: seq<string>) {
    c.current == LastSent(sent)
  }

  /** With the corrected click, one event keeps the current square on the location sent last. */
  lemma StepTracksSent(c: Client, before: seq<string>, e: Event)
    requires TracksSent(c, before)
    ensures var st := StepOn(Corrected, c, e);
      st.Step? ==> TracksSent(st.next, before + st.sent)
  {
    var st := StepOn(Corrected, c, e);
    if st.Step? {
      if st.sent == [] {
        assert before + st.sent == before;
      } else {
        var sq := e.sq;
        Decimal.ParseFormat(Location(sq));
        Numbering();
        assert LastSent(before + st.sent) == Some(SquareAt(Location(sq)));
      }
    }
  }

  /**
    With the corrected click, over any run of lines and clicks, the current
    square stays the one last sent, so "Valid move." always draws the
    client's mark on the square the server accepted.
  */
  lemma {:induction false} DriveTracksSent(c: Client, events: seq<Event>, sent: seq<string>, shown: seq<string>)
    requires TracksSent(c, sent)
    decreases |events|
    ensures var t := Drive(Corrected, c, events, sent, shown);
      t.Trace? ==> TracksSent(t.client, t.sent)
  {
    if |events| > 0 {
      var st := StepOn(Corrected, c, events[0]);
      StepTracksSent(c, sent, events[0]);
      if st.Step? {
        DriveTracksSent(st.next, events[1..], sent + st.sent, shown + st.shown);
      }
    }
  }

  /**
    The event loop as written loses track: a click on the square sent, a
    stray click before the answer, then "Valid move." leave the location
    sent last naming the first square while the mark is drawn on the second.
  */
  lemma DriveAsWrittenMisplacesMark(c: Client, first: Square, stray: Square, sent: seq<string>, shown: seq<string>)
    requires c.phase == Playing && c.myTurn
    requires first != stray && MarkAt(c.grid, first) != c.mark
    ensures var t := Drive(AsWritten, c, [Press(first), Press(stray), Arrives(ValidMove)], sent, shown);
      && t.Trace?
      && LastSent(t.sent) == Some(first)
      && !TracksSent(t.client, t.sent)
      && MarkAt(t.client.grid, stray) == c.mark
      && MarkAt(t.client.grid, first) != c.mark
  {
    var line := Decimal.Format(Location(first));
    StrayClickMisplacesMark(c, first, stray);
    var s1 := StepOn(AsWritten, c, Press(first));
    var s2 := StepOn(AsWritten, s1.next, Press(stray));
    var s3 := StepOn(AsWritten, s2.next, Arrives(ValidMove));
    assert s1.sent == [line] && s2.sent == [] && s3.Step? && s3.sent == [];
    var t := Drive(AsWritten, s3.next, [], sent + [line], shown + s3.shown);
    assert Drive(AsWritten, s2.next, [Arrives(ValidMove)], sent + [line], shown) == t;
    assert [Press(stray), Arrives(ValidMove)][1..] == [Arrives(ValidMove)];
    assert (sent + [line]) + [] == sent + [line] && shown + [] == shown;
    assert Drive(AsWritten, s1.next, [Press(stray), Arrives(ValidMove)], sent + [line], shown) == t;
    assert [Press(first), Press(stray), Arrives(ValidMove)][1..] == [Press(stray), Arrives(ValidMove)];
    assert Drive(AsWritten, c, [Press(first), Press(stray), Arrives(ValidMove)], sent, shown) == t;
    Decimal.ParseFormat(Location(first));
    Numbering();
    assert LastSent(sent + [line]) == Some(SquareAt(Location(first)));
  }

  /** Once a location has been sent, "Valid move." draws the client's mark on the square of that location. */
  lemma ValidMoveMarksSentSquare(c: Client, sent: seq<string>, loc: nat)
    requires c.phase == Playing && TracksSent(c, sent)
    requires |sent| > 0 && sent[|sent| - 1] == Decimal.Format(loc) && loc < 9
    ensures var r := Receive(c, ValidMove);
      r.Reaction? && MarkAt(r.next.grid, SquareAt(loc)) == c.mark
  {
    Decimal.ParseFormat(loc);
  }
}
