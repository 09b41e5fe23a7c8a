/** The fixed lines of the text protocol between the server and a client. */
module Protocol {
  const ValidMove := "Valid move."
  const InvalidMove := "Invalid move, try again"
  const OpponentMoved := "Opponent moved"
  const Victory := "VICTORY"
  const Defeat := "DEFEAT"
  const Tie := "TIE"

  /** The lines that tell a client the game has ended. */
  predicate IsResult(line: string) {
    line == Victory || line == Defeat || line == Tie
  }
}
