# Codenames engine — a Dafny model

This project models the game engine of an IRC Codenames bot. Two teams, red
and blue, play on a 5×5 board of words. Every word hides a card type in the
spy key: 9 cards for the starting team, 8 for the other team, 7 bystanders and
1 assassin. A revealed word is overwritten with the token `#####`. The board
keeps a counter of hidden cards per type. A team wins when its last card is
revealed. Revealing the assassin hands the win to the team that is not moving.

The session object holds:
- both rosters and their spymasters;
- the phase (setup, in progress, finished);
- the starting, moving and winning teams.

A reveal returns one of four events:
- the game ends;
- the turn ends on a bystander;
- the turn ends on an enemy card;
- the turn continues.

Two revisions of the engine are modelled:

* the current one (`codenames_module/codenames_game.py`), in modules `Cards`,
  `Events`, `Grids`, `Text`, `Board`, `Rosters`, `Game` and `Render`;
* the older one (`codenames.py`), in module `Legacy`. It reuses the current
  board and reveal logic wherever the two revisions agree. Its own definitions
  cover where they differ:
  - it does not upper-case words, neither when dealing nor when looking a word up;
  - adding a player always moves them, even when they are already on the team;
  - removing a player also updates a separate player set;
  - starting has no debug bypass;
  - a reveal passes the turn itself.

Everything is pure functions over immutable datatypes, with one exception:
`Board.CountAllCards` is a method whose loops carry the running tally as an
invariant. Python exceptions become `Failure` values of
`Events.GameError`. Randomness becomes parameters:
- the 25 sampled deck indices, constrained by `Board.IsSample`;
- the shuffled card list, constrained to be a permutation of `Game.CardBag`;
- the randomly chosen starting or moving team.

Loading the word deck from JSON is replaced by a `deck` parameter.

Where a natural specification of the game and the code differ, the model
follows the code:
- `reset` does not clear the winning team;
- `start` does not check the phase;
- the duplicate-word check on the deck is case-sensitive, yet the grid holds
  upper-cased words. Two deck words that differ only in case therefore produce
  equal grid words. Unique grid words are guaranteed only when the upper-cased
  deck is distinct (`Board.DistinctUpper`).

## Model

| member | source | states |
|---|---|---|
| Cards.CardType.Owner | codenames_module/codenames_game.py:31-32 | the team owning a team card type has that card type as its own |
| Cards.Team.Card | codenames_module/codenames_game.py:46-48 | a team's card type is one of the two team card types |
| Cards.CardOwner | codenames_module/codenames_game.py:31-32 | the owner of a team's card type is that team, so `card_type` and `team` are inverse |
| Cards.Team.Other | codenames_module/codenames_game.py:39-44 | the other team is never the same team |
| Grids.Chunk | codenames_module/codenames_game.py:93-94 | splitting a list into rows of five keeps every element at row `k/5`, column `k%5`, and flattening the rows gives back the list |
| Grids.RepeatMultiset | codenames_module/codenames_game.py:234-237 | a list made of `n` copies of one card holds exactly `n` of that card and none of any other |
| Grids.SetSizeDetectsDuplicates | codenames_module/codenames_game.py:101-102 | the set of a deck is never larger than the deck, and is the same size exactly when no word repeats — the deck check's length comparison is a duplicate test |
| Text.Upper | codenames_module/codenames_game.py:92 | upper-casing keeps the length and maps each character independently |
| Text.UpperIdempotent | codenames_module/codenames_game.py:188 | upper-casing an already upper-cased word changes nothing |
| Text.UpperOfTokenOnlyFromToken | codenames_module/codenames_game.py:184-188 | only the revealed token itself upper-cases to the revealed token, so rejecting the token before upper-casing rejects every query that could match a revealed cell |
| Board.RowSplit | codenames_module/codenames_game.py:133-139 | in one row, hidden plus revealed cards of a type equal the cards of that type in the row's key |
| Board.GridSplit | codenames_module/codenames_game.py:133-139 | on the board, hidden plus revealed cards of a type equal that type's count in the spy key |
| Board.RowCountZero | codenames_module/codenames_game.py:129-131 | a row has no matching card exactly when no cell of it matches |
| Board.GridCountZero | codenames_module/codenames_game.py:129-131 | no hidden card of a type remains exactly when every cell of that type is revealed (both directions) |
| Board.RowReveal | codenames_module/codenames_game.py:113-115 | revealing one hidden cell of a row moves one card of its type from hidden to revealed and leaves other types alone |
| Board.GridReveal | codenames_module/codenames_game.py:113-115 | the same for the whole board |
| Board.CardsRemaining | codenames_module/codenames_game.py:177-178 | the stored counter equals the number of hidden cells of that type, and is zero exactly when all are revealed |
| Board.TeamWon | codenames_module/codenames_game.py:129-131 | a team has won exactly when every one of its cards is revealed |
| Board.AssassinRevealed | codenames_module/codenames_game.py:180-181 | the assassin is revealed exactly when no hidden assassin cell remains |
| Board.IsRevealed | codenames_module/codenames_game.py:126-127 | a cell is revealed exactly when its word, upper-cased as a word search does it, is the token, so no search that passes the token check lands on it |
| Board.Reveal | codenames_module/codenames_game.py:110-116 | revealing fails exactly on an already revealed cell; otherwise it returns the key's card, overwrites only that cell with the token, decrements only that type's counter and keeps the board consistent |
| Board.RevealStep | codenames_module/codenames_game.py:110-116 | each successful reveal lowers the total of hidden cards by one, and revealing the same cell again is refused |
| Board.SampleWords | codenames_module/codenames_game.py:90-92 | the board words are the sampled deck words, upper-cased in sample order |
| Board.InitialCounts | codenames_module/codenames_game.py:85-87 | the initial counters cover every card type and equal the number of hidden cells of each type |
| Board.EveryCardTypeIsKey | codenames_module/codenames_game.py:86-87 | a counter map that lists the four card types covers every card type |
| Board.BuildBoard | codenames_module/codenames_game.py:80-96 | the grid holds word `5i+j` at row `i`, column `j`; the counters match the key when no word is the token; distinct words give a grid without repeats |
| Board.ChunkFacts | codenames_module/codenames_game.py:93-95 | the same grid facts, stated over the row split |
| Board.NewBoard | codenames_module/codenames_game.py:80-108 | building a board fails exactly on a deck with duplicates (that error first) or with fewer than 25 words; otherwise the board is consistent, holds the upper-cased sampled words, and its counters equal the key's counts |
| Board.SampleFacts | codenames_module/codenames_game.py:90-92 | sampled words contain no token when the deck has none, and are distinct when the upper-cased deck is |
| Board.FindInRow | codenames_module/codenames_game.py:189-191 | the search returns the first column in the row holding the word, or reports that none does |
| Board.FindFrom | codenames_module/codenames_game.py:189-192 | the search returns the first cell in row-major order holding the word, or reports that none does |
| Board.GetWordPosition | codenames_module/codenames_game.py:183-192 | searching for the token is an error; otherwise the result is the first cell equal to the upper-cased word, or nothing exactly when no cell matches |
| Board.RevealByWord | codenames_module/codenames_game.py:118-124 | revealing by word rejects the token, fails with "not on the board" when no cell matches, and otherwise is the coordinate reveal of the first matching cell in row-major order (any matching cell when the board has no repeated word) |
| Board.GridWordIsFound | codenames_module/codenames_game.py:183-192 | searching for a hidden word of a board dealt from upper-cased words, as it is shown, finds a cell holding that word, and that very cell when no word repeats |
| Board.RevealedWordIsGone | codenames_module/codenames_game.py:113-124 | after a reveal the revealed cell is never found again, and on a board without repeated words the word is gone altogether |
| Board.TallyStep | codenames_module/codenames_game.py:155-173 | scanning one more cell adds exactly that cell to the running counts |
| Board.TallyNextRow | codenames_module/codenames_game.py:155 | finishing a row is the same as starting the next one |
| Board.TallyComplete | codenames_module/codenames_game.py:150-175 | the full scan counts revealed and hidden cards per colour and every assassin cell |
| Board.TallyStart | codenames_module/codenames_game.py:153 | the scan starts from all-zero counts |
| Board.CountAllCards | codenames_module/codenames_game.py:150-175 | the counts give, per colour, revealed and hidden cells adding up to the key; the assassin count ignores whether it is revealed; on a consistent board the hidden counts equal the stored counters |
| Rosters.PerTeam.With | codenames_module/codenames_game.py:269-297 | updating one team's entry leaves the other team's entry alone |
| Rosters.PlayerTeam | codenames_module/codenames_game.py:302-306 | the team returned contains the player, red is checked first, and nothing is returned exactly when the player is on neither team |
| Rosters.AddPlayer | codenames_module/codenames_game.py:269-278 | adding is a no-op when the player is already on the team; otherwise the player joins the team and leaves the other one, which loses its spymaster only if that was the player; rosters stay consistent |
| Rosters.RemovePlayer | codenames_module/codenames_game.py:280-287 | the team reported is the player's team; the player leaves it; that team's spymaster is cleared exactly when it was the player and is kept otherwise; the other team is untouched; a player on no team changes nothing |
| Rosters.SetSpymaster | codenames_module/codenames_game.py:292-297 | appointing fails exactly when the player is not on that team; otherwise only that team's spymaster changes |
| Rosters.SpymasterOfOneTeam | codenames_module/codenames_game.py:269-297 | in consistent rosters nobody is spymaster of both teams |
| Game.BagCount | codenames_module/codenames_game.py:234-237 | the card list holds, of each card type, exactly the count its block contributes |
| Game.ConcatCount | codenames_module/codenames_game.py:234-237 | the count of a card in the joined blocks is the sum over the blocks |
| Game.CardBag | codenames_module/codenames_game.py:234-237 | the unshuffled card list, in its listed order: 9 cards of the starting team, then 8 of the other team, 7 bystanders and the assassin, 25 in all |
| Game.BagCounts | codenames_module/codenames_game.py:234-237 | the card list has 25 cards: 9 of the starting team, 8 of the other, 7 bystanders, 1 assassin |
| Game.GenerateSpyKey | codenames_module/codenames_game.py:232-241 | the key is 5×5, reads back as the shuffled list, and holds 9/8/7/1 cards of the four types |
| Game.NewSession | codenames_module/codenames_game.py:206-230 | a new game holds the given teams, spymasters and deck; it is in setup with no board and no winner, the moving team is the starting team, and debug is off; its rosters are consistent exactly when the teams are disjoint and each spymaster is on their team |
| Game.StartGate | codenames_module/codenames_game.py:245-253 | the start checks pass exactly in debug mode or when both teams have two players and a spymaster; a failure names the first failing check in red-then-blue order, reporting too few players exactly when that team has fewer than two and a missing spymaster only when it has enough |
| Game.InitializeBoard | codenames_module/codenames_game.py:264-267 | the dealt board fails exactly on a duplicate or short deck, with those errors; otherwise it is consistent, its key is the generated key, its grid holds the upper-cased sampled deck words, and a token-free deck gives counters 9/8/7/1 |
| Game.Start | codenames_module/codenames_game.py:243-256 | starting succeeds exactly when the checks pass and the deck is usable; a failed check is reported as such, and otherwise a bad deck's error; on success the board is the one `initialize_board` deals from the deck, only the board and phase change, and a token-free deck gives counters 9/8/7/1 |
| Game.StartDeals25 | codenames_module/codenames_game.py:243-256 | starting with ready teams and a usable deck that does not contain the token succeeds and deals 25 hidden cards |
| Game.Reset | codenames_module/codenames_game.py:258-262 | reset returns to setup without a board, with the new starting team moving; rosters, deck and winning team are kept |
| Game.CheckInProgress | codenames_module/codenames_game.py:342-350 | the check passes exactly in progress, and otherwise reports "not started" or "already concluded" with the winner |
| Game.NextTurn | codenames_module/codenames_game.py:339-340 | passing the turn switches the moving team and changes nothing else |
| Game.RevealAt | codenames_module/codenames_game.py:314-333 | a reveal is refused before start, after the end, or on a revealed cell; otherwise the assassin ends the game for the non-moving team, a bystander ends the turn, a team card whose team has no hidden card left ends the game for that team, and any other team card ends the turn if it is the enemy's and continues it otherwise; only the board, phase and winner change |
| Game.FinishedIsFinal | codenames_module/codenames_game.py:318-328 | after a game-ending reveal the game is finished with a winner and every further reveal is refused |
| Game.TurnOnlyPassesExplicitly | codenames_module/codenames_game.py:314-340 | a reveal never changes the moving team; only `next_turn` does |
| Render.Spaces | codenames_module/codenames_game.py:361-362 | a run of `n` spaces, empty for a non-positive `n` |
| Render.PadWord | codenames_module/codenames_game.py:357-364 | the padded word is as wide as the column or the word, whichever is wider, holds the word at floor-half of the padding with spaces around it, and the back padding is the front one or one more |
| Render.PadWide | codenames_module/codenames_game.py:357-364 | a word at least as wide as the column is left as it is |
| Render.PadFits | codenames_module/codenames_game.py:357-364 | a word that fits the column takes exactly the column width, even padded twice |
| Render.RenderRow | codenames_module/codenames_game.py:386-397 | a rendered row shows every word of its row; when all of them fit the column, it is one column width per word and word `j` sits centred in column `j`, at `j` widths plus its front padding |
| Render.RowStepShows | codenames_module/codenames_game.py:386-397 | putting a padded word in front of a row keeps every word of the row readable and adds the new one |
| Render.RowStepPlaced | codenames_module/codenames_game.py:386-397 | putting a fitting padded word in front of a row moves every word one column right and puts the new word centred in column 0 |
| Render.ShiftRight | codenames_module/codenames_game.py:397 | a word found in a piece is still found after something is put before it |
| Render.ShiftLeft | codenames_module/codenames_game.py:397 | a word found in a piece is still found after something is put after it |
| Render.RenderBoardRows | codenames_module/codenames_game.py:352-406 | rendering gives five rows, and each shows every word of the grid row; a row whose words fit the column is five column widths long, with word `j` centred in column `j` (`Slot`), where the column width is the given one, or 15 when none or 0 is given |
| Legacy.NewSession | codenames.py:143-158 | a new game of this revision holds the given teams, spymasters and deck; it is in setup with no board, no winner and no moving team, and its player set is the union of the two teams |
| Legacy.SampleFactsAsIs | codenames.py:75-79 | sampled words keep the deck's absence of tokens and its distinctness |
| Legacy.NewBoard | codenames.py:66-86 | building fails exactly on a duplicate or short deck; otherwise the grid holds the sampled words unchanged, has no repeated word, and its counters match the key |
| Legacy.GetWordPosition | codenames.py:122-130 | the token search is an error; otherwise the first cell equal to the word as given (no upper-casing), or nothing exactly when none matches |
| Legacy.RevealByWord | codenames.py:96-102 | revealing by word rejects the token, fails with "not on the board" when no cell holds the word exactly, and otherwise is the coordinate reveal of the first exactly matching cell |
| Legacy.RevealTwiceRefused | codenames.py:88-94 | a cell revealed once cannot be revealed again |
| Legacy.AddPlayer | codenames.py:193-200 | the player always joins the team and leaves the other one, whose spymaster post is cleared if the player held it |
| Legacy.AddPlayerRevisionsAgree | codenames.py:193-200 | when nobody is on both teams, adding a player behaves exactly as in the current revision |
| Legacy.RemovePlayer | codenames.py:202-211 | removing also drops the player from the player set, changes the rosters as the current revision does, and leaves every other field of the session as it was |
| Legacy.SetSpymaster | codenames.py:213-217 | appointing fails exactly when the player is not on that team; otherwise only that team's spymaster changes, exactly as in the current revision |
| Legacy.InitializeBoard | codenames.py:188-191 | the dealt board fails exactly on a duplicate or short deck; otherwise it is consistent, its key is the generated key, its grid holds the sampled deck words as given, and a token-free deck gives counters 9/8/7/1 |
| Legacy.Start | codenames.py:172-182 | starting succeeds exactly when both teams have two players and a spymaster (no debug bypass) and the deck is usable; a failed check or a bad deck is reported as such; on success the board is the one `initialize_board` deals and the moving team is left as it was |
| Legacy.StartLeavesMoverUnset | codenames.py:156-182 | a freshly constructed game that starts successfully is in progress with no moving team |
| Legacy.StartWithMover | codenames.py:172-182 | the corrected start succeeds exactly when the original does, fails with the original's error, and on success is the original's session with a team moving: the one already set, otherwise the starting team |
| Legacy.StartIgnoresMover | codenames.py:172-191 | starting neither reads nor changes the moving team |
| Legacy.Restart | codenames.py:184-186 | restarting sets the chosen moving team first, so it stays set even when starting then fails with start's error; on success the session is exactly what start gives, with that team moving, so the game is in progress |
| Legacy.CheckInProgress | codenames.py:258-265 | the check passes exactly in progress, and otherwise reports "not started" or "already concluded" with the winner |
| Legacy.NextTurn | codenames.py:255-256 | passing the turn switches the moving team and changes nothing else |
| Legacy.RevealAt | codenames.py:228-249 | the reveal resolves as in the current revision, but a bystander or enemy card passes the turn itself and reports a single "end turn" event |
| Legacy.AutoAdvanceIsRevealThenNextTurn | codenames.py:228-256 | this revision's reveal equals the current revision's reveal followed by `next_turn` whenever the current one ends the turn |

## Left out

- The IRC bot, its commands, personality texts and colour/bold decoration of rendered words. Colours only wrap words in formatting codes. The "spoil" switch of `render_board_rows` only selects decoration. Only the padding and layout are modelled.
- The legacy `render_board`: it reads `self.board.board[i]` (codenames.py:312), an attribute the board does not have, so every call raises `AttributeError`. Its templates also number fields from 1 for five arguments, so they could not be filled either.
- Loading the deck from `word_deck.json`: the deck is a parameter.
- `random.sample`, `random.shuffle` and `random.choice`: their results are parameters constrained to what they can return.
- The `print` of space-containing words in `validate_deck`: it has no effect on the board, because the filtered list is thrown away.
- Text.Upper: only ASCII `a`–`z` is upper-cased. Python's `str.upper` also maps other letters, and some of them to longer strings.
- Board.Reveal: coordinates must be 0–4. Python's negative indices and the `IndexError` for larger ones are not modelled.
- Board.NewBoard: a deck word equal to the token `#####` would count as already revealed. The counter and uniqueness facts are stated only for decks without that word, and for decks whose upper-cased words are distinct.
- The session-level `reveal_card(word)`: it is `get_word_position` followed by the session's coordinate reveal, both modelled. Its tuple unpacking of `None` for a missing word raises a `TypeError`, which the model does not reproduce. The legacy `reveal_card` calls `get_word_coordinates`, a board method that does not exist, so it always raises `AttributeError`.
- Game.CheckInProgress: requires a winner whenever the game is finished. Every reachable finished state has one (`Game.SessionValid`).
- Legacy.RevealAt: requires a moving team while the game is in progress, so the model excludes a started game with no moving team (see Findings). In that state Python first reveals the cell (codenames.py:232). A card that wins the game for its team still succeeds (:242-245), since that branch never reads the moving team. The assassin (:234), a bystander (:238) and a card of a team that has not yet won (:246-247) then raise `AttributeError` on `None`, leaving the cell revealed.
- Legacy.NextTurn: requires a moving team. With none set, `None.other()` at codenames.py:256 raises `AttributeError`, which the model does not reproduce.
- The accessors `players`, `get_spymaster`, `get_team_members` and the session's `team_won`: they only read a field or delegate to `Board.TeamWon`.
- `complete_original_spoiler_rows`: a cache the bot fills.
- The legacy `MINIMUM_PLAYERS = 4`: it is unused. Its start hard-codes 2 per team.
- The legacy `random.choice(Team)` (codenames.py:155 and :185): Python raises a `KeyError` when this is called on an enum class, so as written neither the constructor nor `restart` completes. The model takes the chosen team as a parameter, as if the call were `random.choice(list(Team))` as in codenames_module/codenames_game.py:226.
- Legacy.NewSession: takes named spymaster arguments. The source's positional order (blue spymaster before red) is not modelled.

## Findings

| source | as written | input that shows it | evidently intended | confidence | as-written member | corrected member |
|---|---|---|---|---|---|---|
| codenames.py:156-182 | the constructor sets `moving_team = None` and `start` never sets it | latent behind the `KeyError` of `random.choice(Team)` at codenames.py:155; once that line draws from `list(Team)` as the current revision does, take a new game with two players and a spymaster per team and start it: the bot's `game.moving_team.value` after `start()` fails, and so does, on `None`, any reveal of the assassin, a bystander or a team card that does not win the game; only a card that wins for its team goes through | a started game has a moving team, the starting one, as the current revision sets in its constructor | high, not executed | Legacy.StartLeavesMoverUnset | Legacy.StartWithMover |
