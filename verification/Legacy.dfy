/** The earlier revision of the engine, `codenames.py`. It shares the board
    mechanics and rosters, but differs in five ways: grid words keep their case and
    lookup matches exactly; `add_player` always moves the player; `start` has no
    debug bypass; the moving team is unset until `restart` picks one; and a reveal
    that ends a turn passes the turn itself and reports a single `EndTurn`. */
module Legacy {
  import opened Wrappers
  import opened Cards
  import opened Grids
  import E = Events
  import RS = Rosters
  import B = Board
  import G = Game

  /** Outcome of a reveal in this revision. */
  datatype LegacyEvent = EndGame | EndTurn | ContinueTurn

  datatype LegacySession = LegacySession(
    rosters: RS.Roster,
    players: set<string>,            // snapshot of both teams taken at construction
    deck: seq<string>,
    board: Option<B.GameBoard>,
    startingTeam: Team,
    movingTeam: Option<Team>,
    winningTeam: Option<Team>,
    phase: E.GamePhase)

  ghost predicate LegacyValid(s: LegacySession) {
    && (s.phase == E.Setup <==> s.board.None?)
    && (s.board.Some? ==> B.Valid(s.board.value))
    && (s.phase == E.Finished ==> s.winningTeam.Some?)
  }

  /** `IrcCodenamesGame(...)` of this revision: a game in setup whose moving team
      is unset. The word deck and the random starting team are parameters. */
  function NewSession(red: set<string>, blue: set<string>, redSpymaster: Option<string>,
                      blueSpymaster: Option<string>, deck: seq<string>, starting: Team): (s: LegacySession)
    ensures LegacyValid(s) && s.phase == E.Setup && s.movingTeam.None? && s.startingTeam == starting
    ensures s.rosters == RS.Roster(RS.PerTeam(red, blue), RS.PerTeam(redSpymaster, blueSpymaster))
    ensures s.deck == deck && s.board.None? && s.winningTeam.None?
    ensures s.players == red + blue && s.players == s.rosters.teams.red + s.rosters.teams.blue
  {
    LegacySession(RS.Roster(RS.PerTeam(red, blue), RS.PerTeam(redSpymaster, blueSpymaster)),
                  red + blue, deck, None, starting, None, None, E.Setup)
  }

  /* ---------- board ---------- */

  lemma SampleFactsAsIs(deck: seq<string>, sample: seq<nat>)
    requires B.IsSample(sample, |deck|)
    ensures B.TokenFree(deck) ==>
      forall k :: 0 <= k < CellCount ==> B.SampleWords(deck, sample, false)[k] != RevealedCardToken
    ensures Distinct(deck) ==> Distinct(B.SampleWords(deck, sample, false))
  {
    var words := B.SampleWords(deck, sample, false);
    if Distinct(deck) {
      forall a, c | 0 <= a < c < CellCount ensures words[a] != words[c] {
        if sample[a] < sample[c] {
          assert deck[sample[a]] != deck[sample[c]];
        } else {
          assert sample[a] != sample[c];
          assert deck[sample[c]] != deck[sample[a]];
        }
      }
    }
  }

  /** `GameBoard(deck, spy_key)` of this revision: the same checks, but sampled
      words go onto the grid unchanged, so a duplicate-free deck already gives a
      grid without repeated words. */
  function NewBoard(deck: seq<string>, spyKey: B.SpyKey, sample: seq<nat>): (r: Result<B.GameBoard, E.GameError>)
    requires Shaped(spyKey)
    requires |deck| >= CellCount ==> B.IsSample(sample, |deck|)
    ensures r.Failure? <==> !Distinct(deck) || |deck| < CellCount
    ensures !Distinct(deck) ==> r == Failure(E.DuplicateWords)
    ensures Distinct(deck) && |deck| < CellCount ==> r == Failure(E.DeckTooSmall)
    ensures r.Success? ==> B.Valid(r.value) && r.value.spyKey == spyKey && B.UniqueWords(r.value.grid)
    ensures r.Success? ==> forall i, j :: 0 <= i < BoardSize && 0 <= j < BoardSize ==>
      r.value.grid[i][j] == deck[sample[BoardSize * i + j]]
    ensures r.Success? && B.TokenFree(deck) ==> forall c :: r.value.remaining[c] == B.KeyCount(spyKey, c)
  {
    SetSizeDetectsDuplicates(deck);
    if B.HasDuplicates(deck) then Failure(E.DuplicateWords)
    else if |deck| < CellCount then Failure(E.DeckTooSmall)
    else
      SampleFactsAsIs(deck, sample);
      Success(B.BuildBoard(B.SampleWords(deck, sample, false), spyKey))
  }

  /** `get_word_position` of this revision: refuses the token and otherwise
      matches the query exactly, case included. */
  function GetWordPosition(b: B.GameBoard, w: string): (r: Result<Option<(nat, nat)>, E.GameError>)
    requires Shaped(b.grid)
    ensures r.Failure? <==> w == RevealedCardToken
    ensures r.Failure? ==> r.error == E.TokenSearch
    ensures r.Success? && r.value.Some? ==>
      var (i, j) := r.value.value;
      && i < BoardSize && j < BoardSize
      && b.grid[i][j] == w
      && forall i', j' :: 0 <= i' < BoardSize && 0 <= j' < BoardSize && (i' < i || (i' == i && j' < j)) ==>
           b.grid[i'][j'] != w
    ensures r.Success? && r.value.None? ==>
      forall i, j :: 0 <= i < BoardSize && 0 <= j < BoardSize ==> b.grid[i][j] != w
  {
    if w == RevealedCardToken then Failure(E.TokenSearch)
    else Success(B.FindFrom(b.grid, w, 0))
  }

  /** `reveal_card_by_word` of this revision: the exact-match lookup, then the
      shared coordinate reveal of the first matching cell. */
  function RevealByWord(b: B.GameBoard, w: string): (r: Result<(B.GameBoard, CardType), E.GameError>)
    requires B.Valid(b)
    ensures w == RevealedCardToken ==> r == Failure(E.TokenSearch)
    ensures w != RevealedCardToken && (forall i, j :: 0 <= i < BoardSize && 0 <= j < BoardSize ==> b.grid[i][j] != w)
      ==> r == Failure(E.WordNotOnBoard)
    ensures var pos := GetWordPosition(b, w);
      pos.Success? && pos.value.Some? ==> r == B.Reveal(b, pos.value.value.0, pos.value.value.1)
    ensures w != RevealedCardToken && B.UniqueWords(b.grid) ==>
      forall i, j :: 0 <= i < BoardSize && 0 <= j < BoardSize && b.grid[i][j] == w ==>
        r == B.Reveal(b, i, j) && r.Success?
  {
    var pos :- GetWordPosition(b, w);
    if pos.None? then Failure(E.WordNotOnBoard)
    else B.Reveal(b, pos.value.0, pos.value.1)
  }

  /** Revealing is the shared board operation: the same cell twice is refused,
      and each reveal takes one card off exactly one counter. */
  lemma RevealTwiceRefused(b: B.GameBoard, i: nat, j: nat)
    requires B.Valid(b) && i < BoardSize && j < BoardSize
    requires !B.IsRevealed(b, i, j)
    ensures var r := B.Reveal(b, i, j);
      && r.Success?
      && r.value.1 == b.spyKey[i][j]
      && B.Reveal(r.value.0, i, j) == Failure(E.AlreadyRevealed)
      && B.TotalRemaining(r.value.0) == B.TotalRemaining(b) - 1
  {
    B.RevealStep(b, i, j);
  }

  /* ---------- rosters ---------- */

  /** `add_player` of this revision: the player always leaves the other team
      (and its spymaster post) and joins `t`, even if already on `t`. */
  function AddPlayer(r: RS.Roster, p: string, t: Team): (r': RS.Roster)
    ensures r'.teams.Get(t) == r.teams.Get(t) + {p}
    ensures r'.teams.Get(t.Other()) == r.teams.Get(t.Other()) - {p}
    ensures r'.spymasters.Get(t) == r.spymasters.Get(t)
    ensures r'.spymasters.Get(t.Other()) ==
      (if p in r.teams.Get(t.Other()) && r.spymasters.Get(t.Other()) == Some(p) then None
       else r.spymasters.Get(t.Other()))
    ensures RS.PlayerTeam(r', p) == Some(t)
    ensures RS.Consistent(r) ==> RS.Consistent(r')
  {
    var o := t.Other();
    var r1 := if p in r.teams.Get(o) then RS.Drop(r, p, o) else r;
    RS.Roster(r1.teams.With(t, r1.teams.Get(t) + {p}), r1.spymasters)
  }

  /** On rosters where nobody plays for both teams the two revisions of
      `add_player` agree; they differ only on a player listed twice. */
  lemma AddPlayerRevisionsAgree(r: RS.Roster, p: string, t: Team)
    requires r.teams.red !! r.teams.blue
    ensures AddPlayer(r, p, t) == RS.AddPlayer(r, p, t)
  {
    if p in r.teams.Get(t) {
      assert r.teams.Get(t) + {p} == r.teams.Get(t);
      assert r.teams.Get(t.Other()) - {p} == r.teams.Get(t.Other());
    }
  }

  /** `remove_player` of this revision: also drops the player from the
      construction-time `players` snapshot. */
  function RemovePlayer(s: LegacySession, p: string): (res: (LegacySession, Option<Team>))
    ensures res.1 == RS.PlayerTeam(s.rosters, p)
    ensures p !in res.0.players && res.0.players == s.players - {p}
    ensures (res.0.rosters, res.1) == RS.RemovePlayer(s.rosters, p)
    ensures RS.Consistent(s.rosters) ==> RS.Consistent(res.0.rosters)
    ensures res.0 == s.(rosters := res.0.rosters, players := res.0.players)
  {
    var (r, t) := RS.RemovePlayer(s.rosters, p);
    (s.(rosters := r, players := s.players - {p}), t)
  }

  /** `set_spymaster` of this revision, identical to the current one. */
  function SetSpymaster(s: LegacySession, t: Team, p: string): (res: Result<LegacySession, E.GameError>)
    ensures res.Failure? <==> p !in s.rosters.teams.Get(t)
    ensures res.Failure? ==> res.error == E.NotOnTeam(t)
    ensures res.Success? ==>
      res.value.rosters.spymasters.Get(t) == Some(p) && res.value == s.(rosters := res.value.rosters)
    ensures res.Success? ==> res.value.rosters == RS.SetSpymaster(s.rosters, t, p).value
    ensures res.Success? && RS.Consistent(s.rosters) ==> RS.Consistent(res.value.rosters)
  {
    var r :- RS.SetSpymaster(s.rosters, t, p);
    Success(s.(rosters := r))
  }

  /* ---------- phases ---------- */

  /** `initialize_board` of this revision: a spy key for the starting team and a
      board dealt from the deck with its words as given. */
  function InitializeBoard(deck: seq<string>, starting: Team, shuffled: seq<CardType>, sample: seq<nat>): (r: Result<B.GameBoard, E.GameError>)
    requires multiset(shuffled) == multiset(G.CardBag(starting))
    requires |deck| >= CellCount ==> B.IsSample(sample, |deck|)
    ensures r.Failure? <==> !Distinct(deck) || |deck| < CellCount
    ensures !Distinct(deck) ==> r == Failure(E.DuplicateWords)
    ensures Distinct(deck) && |deck| < CellCount ==> r == Failure(E.DeckTooSmall)
    ensures r.Success? ==> B.Valid(r.value) && r.value.spyKey == G.GenerateSpyKey(starting, shuffled)
    ensures r.Success? ==> forall i, j :: 0 <= i < BoardSize && 0 <= j < BoardSize ==>
      r.value.grid[i][j] == deck[sample[BoardSize * i + j]]
    ensures r.Success? && B.TokenFree(deck) ==>
      && B.CardsRemaining(r.value, starting.Card()) == TeamCardCount + 1
      && B.CardsRemaining(r.value, starting.Other().Card()) == TeamCardCount
      && B.CardsRemaining(r.value, Bystander) == BystanderCardCount
      && B.CardsRemaining(r.value, Assassin) == AssassinCardCount
  {
    NewBoard(deck, G.GenerateSpyKey(starting, shuffled), sample)
  }

  /** `start` of this revision: always demands two players and a spymaster per
      team, then deals the board. It does not touch the moving team. */
  function Start(s: LegacySession, shuffled: seq<CardType>, sample: seq<nat>): (r: Result<LegacySession, E.GameError>)
    requires multiset(shuffled) == multiset(G.CardBag(s.startingTeam))
    requires |s.deck| >= CellCount ==> B.IsSample(sample, |s.deck|)
    ensures r.Success? <==>
      G.Ready(s.rosters, Red) && G.Ready(s.rosters, Blue) && Distinct(s.deck) && |s.deck| >= CellCount
    ensures G.StartGate(s.rosters, false).Fail? ==> r == Failure(G.StartGate(s.rosters, false).error)
    ensures r.Success? ==>
      var s' := r.value;
      && LegacyValid(s')
      && s'.phase == E.InProgress
      && s' == s.(board := s'.board, phase := E.InProgress)
      && s'.board.value.spyKey == G.GenerateSpyKey(s.startingTeam, shuffled)
    ensures var dealt := InitializeBoard(s.deck, s.startingTeam, shuffled, sample);
      && (G.StartGate(s.rosters, false).Pass? && dealt.Failure? ==> r == Failure(dealt.error))
      && (r.Success? ==> dealt == Success(r.value.board.value))
  {
    var gate := G.StartGate(s.rosters, false);
    if gate.Fail? then Failure(gate.error) else
    var dealt := InitializeBoard(s.deck, s.startingTeam, shuffled, sample);
    if dealt.Failure? then Failure(dealt.error)
    else Success(s.(board := Some(dealt.value), phase := E.InProgress))
  }

  /** As written, starting a freshly constructed game leaves the moving team
      unset, so the game cannot announce whose turn it is and no reveal can be
      resolved (the source dereferences the missing team). */
  lemma StartLeavesMoverUnset(red: set<string>, blue: set<string>, redSpymaster: Option<string>,
                              blueSpymaster: Option<string>, deck: seq<string>, starting: Team,
                              shuffled: seq<CardType>, sample: seq<nat>)
    requires multiset(shuffled) == multiset(G.CardBag(starting))
    requires |deck| >= CellCount ==> B.IsSample(sample, |deck|)
    ensures var r := Start(NewSession(red, blue, redSpymaster, blueSpymaster, deck, starting), shuffled, sample);
      r.Success? ==> r.value.phase == E.InProgress && r.value.movingTeam.None?
  {
  }

  /** `start` as evidently intended: when no team is moving yet, the starting
      team moves first, so every started game can resolve reveals. */
  function StartWithMover(s: LegacySession, shuffled: seq<CardType>, sample: seq<nat>): (r: Result<LegacySession, E.GameError>)
    requires multiset(shuffled) == multiset(G.CardBag(s.startingTeam))
    requires |s.deck| >= CellCount ==> B.IsSample(sample, |s.deck|)
    ensures r.Success? <==> Start(s, shuffled, sample).Success?
    ensures r.Failure? ==> r == Start(s, shuffled, sample)
    ensures r.Success? ==> r.value == Start(s, shuffled, sample).value.(movingTeam := r.value.movingTeam)
    ensures r.Success? ==>
      && LegacyValid(r.value)
      && r.value.phase == E.InProgress
      && r.value.movingTeam == Some(if s.movingTeam.Some? then s.movingTeam.value else s.startingTeam)
  {
    var s' :- Start(s, shuffled, sample);
    Success(if s'.movingTeam.None? then s'.(movingTeam := Some(s.startingTeam)) else s')
  }

  /** Starting neither reads nor changes the moving team. */
  lemma StartIgnoresMover(s: LegacySession, m: Option<Team>, shuffled: seq<CardType>, sample: seq<nat>)
    requires multiset(shuffled) == multiset(G.CardBag(s.startingTeam))
    requires |s.deck| >= CellCount ==> B.IsSample(sample, |s.deck|)
    ensures var r, r' := Start(s, shuffled, sample), Start(s.(movingTeam := m), shuffled, sample);
      && (r'.Success? <==> r.Success?)
      && (r.Failure? ==> r' == r)
      && (r.Success? ==> r'.value == r.value.(movingTeam := m))
  {
    var s1 := s.(movingTeam := m);
    var gate := G.StartGate(s.rosters, false);
    var dealt := InitializeBoard(s.deck, s.startingTeam, shuffled, sample);
    if gate.Fail? {
      assert Start(s, shuffled, sample) == Failure(gate.error) == Start(s1, shuffled, sample);
    } else if dealt.Failure? {
      assert Start(s, shuffled, sample) == Failure(dealt.error) == Start(s1, shuffled, sample);
    } else {
      assert Start(s, shuffled, sample) == Success(s.(board := Some(dealt.value), phase := E.InProgress));
      assert Start(s1, shuffled, sample) == Success(s1.(board := Some(dealt.value), phase := E.InProgress));
    }
  }

  /** `restart`: set the moving team (drawn at random in the source), then start.
      The moving team is set first, so it stays set even when starting fails; the
      result is the session after the call together with the outcome of starting. */
  function Restart(s: LegacySession, mover: Team, shuffled: seq<CardType>, sample: seq<nat>): (r: (LegacySession, Outcome<E.GameError>))
    requires multiset(shuffled) == multiset(G.CardBag(s.startingTeam))
    requires |s.deck| >= CellCount ==> B.IsSample(sample, |s.deck|)
    ensures r.0.movingTeam == Some(mover)
    ensures r.1.Pass? <==> Start(s, shuffled, sample).Success?
    ensures r.1.Pass? ==> r.0.phase == E.InProgress && LegacyValid(r.0)
    ensures r.1.Pass? ==> r.0 == Start(s, shuffled, sample).value.(movingTeam := Some(mover))
    ensures r.1.Fail? ==> r.0 == s.(movingTeam := Some(mover)) && Start(s, shuffled, sample) == Failure(r.1.error)
  {
    var s1 := s.(movingTeam := Some(mover));
    StartIgnoresMover(s, Some(mover), shuffled, sample);
    match Start(s1, shuffled, sample)
    case Success(s') => (s', Pass)
    case Failure(e) => (s1, Fail(e))
  }

  /** `_check_in_progress` of this revision. */
  function CheckInProgress(s: LegacySession): (o: Outcome<E.GameError>)
    requires s.phase == E.Finished ==> s.winningTeam.Some?
    ensures o.Pass? <==> s.phase == E.InProgress
    ensures s.phase == E.Setup ==> o == Fail(E.NotStarted)
    ensures s.phase == E.Finished ==> o == Fail(E.AlreadyConcluded(s.winningTeam.value))
  {
    match s.phase
    case Setup => Fail(E.NotStarted)
    case Finished => Fail(E.AlreadyConcluded(s.winningTeam.value))
    case InProgress => Pass
  }

  /** `next_turn`; the source fails on an unset moving team. */
  function NextTurn(s: LegacySession): (s': LegacySession)
    requires s.movingTeam.Some?
    ensures s'.movingTeam == Some(s.movingTeam.value.Other())
    ensures s' == s.(movingTeam := s'.movingTeam)
  {
    s.(movingTeam := Some(s.movingTeam.value.Other()))
  }

  /** `reveal_card_by_coordinates` of this revision: the same resolution order,
      but a bystander or a non-winning opponent card passes the turn at once and
      both report `EndTurn`. Needs a moving team, which only `restart` sets. */
  function RevealAt(s: LegacySession, i: nat, j: nat): (r: Result<(LegacySession, LegacyEvent), E.GameError>)
    requires LegacyValid(s)
    requires i < BoardSize && j < BoardSize
    requires s.phase == E.InProgress ==> s.movingTeam.Some?
    ensures s.phase == E.Setup ==> r == Failure(E.NotStarted)
    ensures s.phase == E.Finished ==> r == Failure(E.AlreadyConcluded(s.winningTeam.value))
    ensures s.phase == E.InProgress ==> (r.Failure? <==> B.IsRevealed(s.board.value, i, j))
    ensures s.phase == E.InProgress && r.Failure? ==> r.error == E.AlreadyRevealed
    ensures r.Success? ==>
      var (s', e) := r.value;
      var c := s.board.value.spyKey[i][j];
      var mover := s.movingTeam.value;
      && LegacyValid(s')
      && s'.board.Some? && B.Reveal(s.board.value, i, j) == Success((s'.board.value, c))
      && s' == s.(board := s'.board, phase := s'.phase, winningTeam := s'.winningTeam, movingTeam := s'.movingTeam)
      && (e == EndGame <==> s'.phase == E.Finished)
      && (e == EndTurn <==> s'.movingTeam == Some(mover.Other()))
      && (e != EndTurn ==> s'.movingTeam == Some(mover))
      && (c == Assassin ==> e == EndGame && s'.winningTeam == Some(mover.Other()))
      && (c == Bystander ==> e == EndTurn)
      && (c.IsTeamCard() && B.AllRevealed(s'.board.value, c) ==>
            e == EndGame && s'.winningTeam == Some(c.Owner()))
      && (c.IsTeamCard() && !B.AllRevealed(s'.board.value, c) ==>
            e == (if c.Owner() == mover then ContinueTurn else EndTurn))
  {
    var check := CheckInProgress(s);
    if check.Fail? then Failure(check.error) else
    var (b, c) :- B.Reveal(s.board.value, i, j);
    var s1 := s.(board := Some(b));
    var mover := s.movingTeam.value;
    if c == Assassin then
      Success((s1.(winningTeam := Some(mover.Other()), phase := E.Finished), EndGame))
    else if c == Bystander then
      Success((NextTurn(s1), EndTurn))
    else
      var owner := c.Owner();
      if B.TeamWon(b, owner) then
        Success((s1.(winningTeam := Some(owner), phase := E.Finished), EndGame))
      else if owner != mover then
        Success((NextTurn(s1), EndTurn))
      else
        Success((s1, ContinueTurn))
  }

  /* ---------- relation to the current revision ---------- */

  /** The current-revision session that a legacy session with a mover stands for. */
  function ToSession(s: LegacySession): G.Session
    requires s.movingTeam.Some?
  {
    G.Session(s.rosters, s.deck, s.board, s.startingTeam, s.movingTeam.value, s.winningTeam, s.phase, false)
  }

  /** The single legacy event a current-revision event collapses to. */
  function Collapse(e: E.GameEvent): LegacyEvent {
    match e
    case EndGame => EndGame
    case EndTurnBystander => EndTurn
    case EndTurnEnemy => EndTurn
    case ContinueTurn => ContinueTurn
  }

  /** The auto-advancing reveal is the current reveal followed by `next_turn`
      exactly when the current reveal reports a turn-ending event. */
  lemma AutoAdvanceIsRevealThenNextTurn(s: LegacySession, i: nat, j: nat)
    requires LegacyValid(s) && s.movingTeam.Some?
    requires i < BoardSize && j < BoardSize
    ensures G.SessionValid(ToSession(s))
    ensures var cur := G.RevealAt(ToSession(s), i, j);
      var was := RevealAt(s, i, j);
      && (cur.Failure? ==> was == Failure(cur.error))
      && (cur.Success? ==>
            && was.Success?
            && was.value.1 == Collapse(cur.value.1)
            && ToSession(was.value.0) ==
                 (if was.value.1 == EndTurn then G.NextTurn(cur.value.0) else cur.value.0))
  {
  }
}
