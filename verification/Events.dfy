/** What a reveal reports, the phases of a session, and the errors the engine raises. */
module Events {
  import opened Cards

  /** Outcome of revealing a card in the current revision. */
  datatype GameEvent = EndGame | EndTurnBystander | EndTurnEnemy | ContinueTurn

  datatype GamePhase = Setup | InProgress | Finished

  /** The exceptions the engine raises, one constructor per distinct cause. */
  datatype GameError =
    | DuplicateWords              // ValueError: the deck holds a word twice
    | DeckTooSmall                // ValueError from sampling 25 words out of fewer
    | AlreadyRevealed             // InvalidMove: the card was revealed before
    | WordNotOnBoard              // InvalidMove: reveal by a word the board lacks
    | TokenSearch                 // ValueError: lookup of the revealed-card token
    | NotOnTeam(team: Team)       // ValueError: spymaster must be a team member
    | TooFewPlayers(team: Team)   // IrcGameError: roster below the minimum
    | MissingSpymaster(team: Team)// IrcGameError: no spymaster chosen
    | NotStarted                  // InvalidMove: the game has not been started
    | AlreadyConcluded(winner: Team) // InvalidMove: the game is over
}
