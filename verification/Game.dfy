/** The game session of `codenames_module/codenames_game.py` (`IrcCodenamesGame`):
    rosters, the phase machine setup -> in progress -> finished, the start gate,
    and how a reveal is resolved into an event. Turns only change on `NextTurn`. */
module Game {
  import opened Wrappers
  import opened Cards
  import opened Events
  import opened Grids
  import opened Rosters
  import opened Board
  import opened Text

  /* ---------- spy key ---------- */

  /** The unshuffled key cards, in the order they are listed: one more card for
      the team that starts, then the other team's, the bystanders, the assassin. */
  function CardBag(starting: Team): (bag: seq<CardType>)
    ensures |bag| == CellCount
    ensures forall k :: 0 <= k < |bag| ==>
      bag[k] == (if k < TeamCardCount + 1 then starting.Card()
                 else if k < 2 * TeamCardCount + 1 then starting.Other().Card()
                 else if k < CellCount - AssassinCardCount then Bystander
                 else Assassin)
  {
    Repeat(starting.Card(), TeamCardCount + 1) + Repeat(starting.Other().Card(), TeamCardCount)
    + Repeat(Bystander, BystanderCardCount) + Repeat(Assassin, AssassinCardCount)
  }

  lemma BagCount(starting: Team, c: CardType)
    ensures multiset(CardBag(starting))[c] ==
      (if c == starting.Card() then TeamCardCount + 1 else 0)
      + (if c == starting.Other().Card() then TeamCardCount else 0)
      + (if c == Bystander then BystanderCardCount else 0)
      + (if c == Assassin then AssassinCardCount else 0)
  {
    var a, o := starting.Card(), starting.Other().Card();
    ConcatCount(Repeat(a, TeamCardCount + 1), Repeat(o, TeamCardCount),
      Repeat(Bystander, BystanderCardCount), Repeat(Assassin, AssassinCardCount), c);
    RepeatMultiset(a, TeamCardCount + 1, c);
    RepeatMultiset(o, TeamCardCount, c);
    RepeatMultiset(Bystander, BystanderCardCount, c);
    RepeatMultiset(Assassin, AssassinCardCount, c);
  }

  lemma ConcatCount<T>(p: seq<T>, q: seq<T>, r: seq<T>, t: seq<T>, x: T)
    ensures multiset(p + q + r + t)[x] == multiset(p)[x] + multiset(q)[x] + multiset(r)[x] + multiset(t)[x]
  {
  }

  lemma BagCounts(starting: Team)
    ensures |CardBag(starting)| == CellCount
    ensures multiset(CardBag(starting))[starting.Card()] == TeamCardCount + 1
    ensures multiset(CardBag(starting))[starting.Other().Card()] == TeamCardCount
    ensures multiset(CardBag(starting))[Bystander] == BystanderCardCount
    ensures multiset(CardBag(starting))[Assassin] == AssassinCardCount
  {
    BagCount(starting, starting.Card());
    BagCount(starting, starting.Other().Card());
    BagCount(starting, Bystander);
    BagCount(starting, Assassin);
  }

  /** `generate_spy_key`: a shuffle of the card bag, laid out in rows of five; it
      holds 9 cards of the starting team, 8 of the other, 7 bystanders and 1 assassin. */
  function GenerateSpyKey(starting: Team, shuffled: seq<CardType>): (key: SpyKey)
    requires multiset(shuffled) == multiset(CardBag(starting))
    ensures Shaped(key)
    ensures Flatten(key) == shuffled
    ensures KeyCount(key, starting.Card()) == TeamCardCount + 1
    ensures KeyCount(key, starting.Other().Card()) == TeamCardCount
    ensures KeyCount(key, Bystander) == BystanderCardCount
    ensures KeyCount(key, Assassin) == AssassinCardCount
  {
    BagCounts(starting);
    assert |shuffled| == |multiset(shuffled)| == CellCount;
    Chunk(shuffled)
  }

  /* ---------- session ---------- */

  datatype Session = Session(
    rosters: Roster,
    deck: seq<string>,
    board: Option<GameBoard>,
    startingTeam: Team,
    movingTeam: Team,
    winningTeam: Option<Team>,
    phase: GamePhase,
    debug: bool)

  /** The session invariant: a board exists exactly outside setup and is valid,
      and a finished game has a winner. */
  ghost predicate SessionValid(s: Session) {
    && (s.phase == Setup <==> s.board.None?)
    && (s.board.Some? ==> Valid(s.board.value))
    && (s.phase == Finished ==> s.winningTeam.Some?)
  }

  /** `IrcCodenamesGame(...)`: a game in setup with the given rosters; the word deck
      (read from disk in the source) and the random starting team are parameters. */
  function NewSession(red: set<string>, blue: set<string>, redSpymaster: Option<string>,
                      blueSpymaster: Option<string>, deck: seq<string>, starting: Team): (s: Session)
    ensures SessionValid(s) && s.phase == Setup && !s.debug
    ensures s.movingTeam == starting && s.startingTeam == starting && s.winningTeam.None?
    ensures s.rosters == Roster(PerTeam(red, blue), PerTeam(redSpymaster, blueSpymaster)) && s.deck == deck
    ensures Consistent(s.rosters) <==>
      && red !! blue
      && (redSpymaster.Some? ==> redSpymaster.value in red)
      && (blueSpymaster.Some? ==> blueSpymaster.value in blue)
  {
    Session(Roster(PerTeam(red, blue), PerTeam(redSpymaster, blueSpymaster)),
            deck, None, starting, starting, None, Setup, false)
  }

  /** A team is ready to play with at least two players and a spymaster. */
  predicate Ready(r: Roster, t: Team) {
    |r.teams.Get(t)| >= MinimumPlayersPerTeam && r.spymasters.Get(t).Some?
  }

  /** The checks of `start`, team by team (red first), player count before spymaster. */
  function StartGate(r: Roster, debug: bool): (o: Outcome<GameError>)
    ensures o.Pass? <==> debug || (Ready(r, Red) && Ready(r, Blue))
    ensures o.Fail? ==>
      && (o.error.TooFewPlayers? || o.error.MissingSpymaster?)
      && !Ready(r, o.error.team)
      && (o.error.team == Blue ==> Ready(r, Red))
      && (o.error.MissingSpymaster? ==> |r.teams.Get(o.error.team)| >= MinimumPlayersPerTeam)
      && (o.error.TooFewPlayers? ==> |r.teams.Get(o.error.team)| < MinimumPlayersPerTeam)
  {
    if debug then Pass
    else if |r.teams.red| < MinimumPlayersPerTeam then Fail(TooFewPlayers(Red))
    else if r.spymasters.red.None? then Fail(MissingSpymaster(Red))
    else if |r.teams.blue| < MinimumPlayersPerTeam then Fail(TooFewPlayers(Blue))
    else if r.spymasters.blue.None? then Fail(MissingSpymaster(Blue))
    else Pass
  }

  /** `initialize_board`: a spy key for the starting team and a board dealt from
      the deck. The key's shuffle and the deck sample are parameters. */
  function InitializeBoard(deck: seq<string>, starting: Team, shuffled: seq<CardType>, sample: seq<nat>): (r: Result<GameBoard, GameError>)
    requires multiset(shuffled) == multiset(CardBag(starting))
    requires |deck| >= CellCount ==> IsSample(sample, |deck|)
    ensures r.Failure? <==> !Distinct(deck) || |deck| < CellCount
    ensures !Distinct(deck) ==> r == Failure(DuplicateWords)
    ensures Distinct(deck) && |deck| < CellCount ==> r == Failure(DeckTooSmall)
    ensures r.Success? ==> Valid(r.value) && r.value.spyKey == GenerateSpyKey(starting, shuffled)
    ensures r.Success? ==> forall i, j :: 0 <= i < BoardSize && 0 <= j < BoardSize ==>
      r.value.grid[i][j] == Upper(deck[sample[BoardSize * i + j]])
    ensures r.Success? && TokenFree(deck) ==>
      && CardsRemaining(r.value, starting.Card()) == TeamCardCount + 1
      && CardsRemaining(r.value, starting.Other().Card()) == TeamCardCount
      && CardsRemaining(r.value, Bystander) == BystanderCardCount
      && CardsRemaining(r.value, Assassin) == AssassinCardCount
  {
    NewBoard(deck, GenerateSpyKey(starting, shuffled), sample)
  }

  /** `start`: unless in debug mode, refuse a team that is short of players or has
      no spymaster; otherwise deal a board for the starting team and begin play.
      The shuffle of the key and the sample of deck words are parameters. */
  function Start(s: Session, shuffled: seq<CardType>, sample: seq<nat>): (r: Result<Session, GameError>)
    requires multiset(shuffled) == multiset(CardBag(s.startingTeam))
    requires |s.deck| >= CellCount ==> IsSample(sample, |s.deck|)
    ensures r.Success? <==>
      (s.debug || (Ready(s.rosters, Red) && Ready(s.rosters, Blue))) && Distinct(s.deck) && |s.deck| >= CellCount
    ensures StartGate(s.rosters, s.debug).Fail? ==> r == Failure(StartGate(s.rosters, s.debug).error)
    ensures r.Success? ==>
      var s' := r.value;
      && SessionValid(s')
      && s'.phase == InProgress
      && s' == s.(board := s'.board, phase := InProgress)
      && s'.board.value.spyKey == GenerateSpyKey(s.startingTeam, shuffled)
    ensures var dealt := InitializeBoard(s.deck, s.startingTeam, shuffled, sample);
      && (StartGate(s.rosters, s.debug).Pass? && dealt.Failure? ==> r == Failure(dealt.error))
      && (r.Success? ==> dealt == Success(r.value.board.value))
    ensures r.Success? && TokenFree(s.deck) ==>
      var b := r.value.board.value;
      && Valid(b)
      && CardsRemaining(b, s.startingTeam.Card()) == TeamCardCount + 1
      && CardsRemaining(b, s.startingTeam.Other().Card()) == TeamCardCount
      && CardsRemaining(b, Bystander) == BystanderCardCount
      && CardsRemaining(b, Assassin) == AssassinCardCount
  {
    var gate := StartGate(s.rosters, s.debug);
    if gate.Fail? then Failure(gate.error) else
    var dealt := InitializeBoard(s.deck, s.startingTeam, shuffled, sample);
    if dealt.Failure? then Failure(dealt.error)
    else Success(s.(board := Some(dealt.value), phase := InProgress))
  }

  /** `reset`: back to setup without a board, with a newly drawn starting team
      that also moves first. The winner of the last game is kept. */
  function Reset(s: Session, starting: Team): (s': Session)
    ensures SessionValid(s') && s'.phase == Setup && s'.board.None?
    ensures s'.startingTeam == starting && s'.movingTeam == starting
    ensures s'.winningTeam == s.winningTeam && s'.rosters == s.rosters && s'.deck == s.deck && s'.debug == s.debug
  {
    s.(startingTeam := starting, movingTeam := starting, board := None, phase := Setup)
  }

  /** `_check_in_progress`: distinct errors before the start and after the end. */
  function CheckInProgress(s: Session): (o: Outcome<GameError>)
    requires s.phase == Finished ==> s.winningTeam.Some?
    ensures o.Pass? <==> s.phase == InProgress
    ensures s.phase == Setup ==> o == Fail(NotStarted)
    ensures s.phase == Finished ==> o == Fail(AlreadyConcluded(s.winningTeam.value))
  {
    match s.phase
    case Setup => Fail(NotStarted)
    case Finished => Fail(AlreadyConcluded(s.winningTeam.value))
    case InProgress => Pass
  }

  /** `next_turn`: the other team moves. */
  function NextTurn(s: Session): (s': Session)
    ensures s'.movingTeam != s.movingTeam
    ensures s' == s.(movingTeam := s'.movingTeam)
  {
    s.(movingTeam := s.movingTeam.Other())
  }

  /** `reveal_card_by_coordinates`: only in progress; reveals the cell, then
      resolves, in this order: the assassin hands the game to the mover's opponent;
      a bystander ends the turn; a team card whose team has no hidden card left
      wins the game for that team (whoever revealed it); an opponent's card ends
      the turn; an own card lets the mover continue. The mover never changes. */
  function RevealAt(s: Session, i: nat, j: nat): (r: Result<(Session, GameEvent), GameError>)
    requires SessionValid(s)
    requires i < BoardSize && j < BoardSize
    ensures s.phase == Setup ==> r == Failure(NotStarted)
    ensures s.phase == Finished ==> r == Failure(AlreadyConcluded(s.winningTeam.value))
    ensures s.phase == InProgress ==> (r.Failure? <==> IsRevealed(s.board.value, i, j))
    ensures s.phase == InProgress && r.Failure? ==> r.error == AlreadyRevealed
    ensures r.Success? ==>
      var (s', e) := r.value;
      var c := s.board.value.spyKey[i][j];
      && s.phase == InProgress
      && SessionValid(s')
      && s'.board.Some? && Reveal(s.board.value, i, j) == Success((s'.board.value, c))
      && s' == s.(board := s'.board, phase := s'.phase, winningTeam := s'.winningTeam)
      && (e == EndGame <==> s'.phase == Finished)
      && (e != EndGame ==> s'.phase == InProgress && s'.winningTeam == s.winningTeam)
      && (c == Assassin ==> e == EndGame && s'.winningTeam == Some(s.movingTeam.Other()))
      && (c == Bystander ==> e == EndTurnBystander)
      && (c.IsTeamCard() && AllRevealed(s'.board.value, c) ==>
            e == EndGame && s'.winningTeam == Some(c.Owner()))
      && (c.IsTeamCard() && !AllRevealed(s'.board.value, c) && c.Owner() != s.movingTeam ==>
            e == EndTurnEnemy)
      && (c.IsTeamCard() && !AllRevealed(s'.board.value, c) && c.Owner() == s.movingTeam ==>
            e == ContinueTurn)
  {
    var check := CheckInProgress(s);
    if check.Fail? then Failure(check.error) else
    var (b, c) :- Reveal(s.board.value, i, j);
    var s1 := s.(board := Some(b));
    if c == Assassin then
      Success((s1.(winningTeam := Some(s.movingTeam.Other()), phase := Finished), EndGame))
    else if c == Bystander then
      Success((s1, EndTurnBystander))
    else
      var owner := c.Owner();
      if TeamWon(b, owner) then
        Success((s1.(winningTeam := Some(owner), phase := Finished), EndGame))
      else if owner != s.movingTeam then
        Success((s1, EndTurnEnemy))
      else
        Success((s1, ContinueTurn))
  }

  /** Once a reveal ends the game, every later reveal is refused with the winner's
      name until the session is reset. */
  lemma FinishedIsFinal(s: Session, i: nat, j: nat, i': nat, j': nat)
    requires SessionValid(s) && i < BoardSize && j < BoardSize && i' < BoardSize && j' < BoardSize
    requires RevealAt(s, i, j).Success? && RevealAt(s, i, j).value.1 == EndGame
    ensures var s' := RevealAt(s, i, j).value.0;
      RevealAt(s', i', j') == Failure(AlreadyConcluded(s'.winningTeam.value))
  {
  }

  /** Events that end a turn leave the mover in place; only `NextTurn` passes
      the turn, and passing twice gives the turn back. */
  lemma TurnOnlyPassesExplicitly(s: Session, i: nat, j: nat)
    requires SessionValid(s) && i < BoardSize && j < BoardSize
    requires RevealAt(s, i, j).Success?
    ensures var s' := RevealAt(s, i, j).value.0;
      && s'.movingTeam == s.movingTeam
      && NextTurn(s').movingTeam == s.movingTeam.Other()
      && NextTurn(NextTurn(s')) == s'
  {
  }

  /** Starting with ready teams and a usable, token-free deck succeeds and deals
      25 hidden cards. */
  lemma StartDeals25(s: Session, shuffled: seq<CardType>, sample: seq<nat>)
    requires multiset(shuffled) == multiset(CardBag(s.startingTeam))
    requires |s.deck| >= CellCount ==> IsSample(sample, |s.deck|)
    requires TokenFree(s.deck) && Distinct(s.deck) && |s.deck| >= CellCount
    requires s.debug || (Ready(s.rosters, Red) && Ready(s.rosters, Blue))
    ensures Start(s, shuffled, sample).Success?
    ensures TotalRemaining(Start(s, shuffled, sample).value.board.value) == CellCount
  {
    var b := Start(s, shuffled, sample).value.board.value;
    assert CardsRemaining(b, Bystander) == BystanderCardCount;
    assert CardsRemaining(b, Assassin) == AssassinCardCount;
    if s.startingTeam == Red {
      assert CardsRemaining(b, RedCard) == TeamCardCount + 1;
      assert CardsRemaining(b, BlueCard) == TeamCardCount;
    } else {
      assert CardsRemaining(b, BlueCard) == TeamCardCount + 1;
      assert CardsRemaining(b, RedCard) == TeamCardCount;
    }
  }
}
