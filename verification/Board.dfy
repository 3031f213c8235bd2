/** The game board of `codenames_module/codenames_game.py`: a 5 x 5 word grid, the
    secret spy key laid out the same way, and a counter of unrevealed cards per
    card type. A revealed cell's word is overwritten by the revealed-card token. */
module Board {
  import opened Wrappers
  import opened Cards
  import opened Events
  import opened Grids
  import opened Text

  type Grid = seq<seq<string>>
  type SpyKey = seq<seq<CardType>>

  datatype GameBoard = GameBoard(grid: Grid, spyKey: SpyKey, remaining: map<CardType, int>)

  /** The scoreboard snapshot of `count_all_cards`; the assassin is counted in `black`
      whether it is revealed or not. */
  datatype Counts = Counts(
    revealedRed: nat, revealedBlue: nat,
    hiddenRed: nat, hiddenBlue: nat,
    revealedWhite: nat, hiddenWhite: nat,
    black: nat)

  /* ---------- counting cells ---------- */

  predicate SameShape(g: Grid, k: SpyKey) {
    |g| == |k| && forall i :: 0 <= i < |g| ==> |g[i]| == |k[i]|
  }

  /** A cell holding `word` with key `kind` is a `c` card that is revealed (or hidden). */
  predicate Matches(word: string, kind: CardType, c: CardType, revealed: bool) {
    kind == c && (word == RevealedCardToken) == revealed
  }

  function RowCount(words: seq<string>, kinds: seq<CardType>, c: CardType, revealed: bool): nat
    requires |words| == |kinds|
  {
    if |words| == 0 then 0
    else
      var n := |words| - 1;
      RowCount(words[..n], kinds[..n], c, revealed) + (if Matches(words[n], kinds[n], c, revealed) then 1 else 0)
  }

  /** Number of cells of type `c` that are revealed (or hidden). */
  function GridCount(g: Grid, k: SpyKey, c: CardType, revealed: bool): nat
    requires SameShape(g, k)
  {
    if |g| == 0 then 0
    else
      var n := |g| - 1;
      GridCount(g[..n], k[..n], c, revealed) + RowCount(g[n], k[n], c, revealed)
  }

  /** Number of cells the spy key assigns to `c`. */
  function KeyCount(k: SpyKey, c: CardType): nat {
    multiset(Flatten(k))[c]
  }

  /** Every cell of type `c` shows the revealed-card token. */
  ghost predicate AllRevealed(b: GameBoard, c: CardType)
    requires Shaped(b.grid) && Shaped(b.spyKey)
  {
    forall i, j :: 0 <= i < BoardSize && 0 <= j < BoardSize && b.spyKey[i][j] == c ==>
      b.grid[i][j] == RevealedCardToken
  }

  /** No word occupies two cells. */
  ghost predicate UniqueWords(g: Grid)
    requires Shaped(g)
  {
    forall i1, j1, i2, j2 ::
      (0 <= i1 < BoardSize && 0 <= j1 < BoardSize && 0 <= i2 < BoardSize && 0 <= j2 < BoardSize
       && (i1 != i2 || j1 != j2)) ==> g[i1][j1] != g[i2][j2]
  }

  /** The board invariant: both layouts are 5 x 5 and every counter equals the
      number of unrevealed cells of its type. */
  ghost predicate Valid(b: GameBoard) {
    && Shaped(b.grid)
    && Shaped(b.spyKey)
    && forall c: CardType :: c in b.remaining && b.remaining[c] == GridCount(b.grid, b.spyKey, c, false)
  }

  lemma {:induction false} RowSplit(w: seq<string>, kinds: seq<CardType>, c: CardType)
    requires |w| == |kinds|
    ensures RowCount(w, kinds, c, false) + RowCount(w, kinds, c, true) == multiset(kinds)[c]
  {
    if |w| > 0 {
      var n := |w| - 1;
      RowSplit(w[..n], kinds[..n], c);
      assert kinds == kinds[..n] + [kinds[n]];
    }
  }

  /** Hidden and revealed cells of a type together are the key's cells of that type. */
  lemma {:induction false} GridSplit(g: Grid, k: SpyKey, c: CardType)
    requires SameShape(g, k)
    ensures GridCount(g, k, c, false) + GridCount(g, k, c, true) == KeyCount(k, c)
  {
    if |g| > 0 {
      var n := |g| - 1;
      GridSplit(g[..n], k[..n], c);
      RowSplit(g[n], k[n], c);
    }
  }

  lemma {:induction false} RowCountZero(w: seq<string>, kinds: seq<CardType>, c: CardType, revealed: bool)
    requires |w| == |kinds|
    ensures RowCount(w, kinds, c, revealed) == 0 <==>
      forall j :: 0 <= j < |w| ==> !Matches(w[j], kinds[j], c, revealed)
  {
    if |w| > 0 {
      var n := |w| - 1;
      RowCountZero(w[..n], kinds[..n], c, revealed);
      if RowCount(w, kinds, c, revealed) == 0 {
        forall j | 0 <= j < |w| ensures !Matches(w[j], kinds[j], c, revealed) {
          if j < n {
            assert w[..n][j] == w[j] && kinds[..n][j] == kinds[j];
          }
        }
      } else {
        if !Matches(w[n], kinds[n], c, revealed) {
          var j :| 0 <= j < n && Matches(w[..n][j], kinds[..n][j], c, revealed);
          assert Matches(w[j], kinds[j], c, revealed);
        }
      }
    }
  }

  /** A count is zero exactly when no cell matches it. */
  lemma {:induction false} GridCountZero(g: Grid, k: SpyKey, c: CardType, revealed: bool)
    requires SameShape(g, k)
    ensures GridCount(g, k, c, revealed) == 0 <==>
      forall i, j :: 0 <= i < |g| && 0 <= j < |g[i]| ==> !Matches(g[i][j], k[i][j], c, revealed)
  {
    if |g| > 0 {
      var n := |g| - 1;
      GridCountZero(g[..n], k[..n], c, revealed);
      RowCountZero(g[n], k[n], c, revealed);
      if GridCount(g, k, c, revealed) == 0 {
        forall i, j | 0 <= i < |g| && 0 <= j < |g[i]| ensures !Matches(g[i][j], k[i][j], c, revealed) {
          if i < n {
            assert g[..n][i] == g[i] && k[..n][i] == k[i];
          }
        }
      } else if RowCount(g[n], k[n], c, revealed) == 0 {
        var i, j :| 0 <= i < n && 0 <= j < |g[..n][i]| && Matches(g[..n][i][j], k[..n][i][j], c, revealed);
        assert Matches(g[i][j], k[i][j], c, revealed);
      } else {
        var j :| 0 <= j < |g[n]| && Matches(g[n][j], k[n][j], c, revealed);
      }
    }
  }

  lemma {:induction false} RowReveal(w: seq<string>, kinds: seq<CardType>, j: nat, c: CardType)
    requires |w| == |kinds| && j < |w| && w[j] != RevealedCardToken
    ensures RowCount(w[j := RevealedCardToken], kinds, c, false) ==
      RowCount(w, kinds, c, false) - (if kinds[j] == c then 1 else 0)
    ensures RowCount(w[j := RevealedCardToken], kinds, c, true) ==
      RowCount(w, kinds, c, true) + (if kinds[j] == c then 1 else 0)
  {
    var n := |w| - 1;
    var w' := w[j := RevealedCardToken];
    if j == n {
      assert w'[..n] == w[..n];
    } else {
      assert w'[..n] == w[..n][j := RevealedCardToken];
      RowReveal(w[..n], kinds[..n], j, c);
    }
  }

  /** Overwriting one hidden cell with the token moves exactly that cell from the
      hidden count of its type to the revealed count. */
  lemma {:induction false} GridReveal(g: Grid, k: SpyKey, i: nat, j: nat, c: CardType)
    requires SameShape(g, k) && i < |g| && j < |g[i]| && g[i][j] != RevealedCardToken
    ensures SameShape(g[i := g[i][j := RevealedCardToken]], k)
    ensures GridCount(g[i := g[i][j := RevealedCardToken]], k, c, false) ==
      GridCount(g, k, c, false) - (if k[i][j] == c then 1 else 0)
    ensures GridCount(g[i := g[i][j := RevealedCardToken]], k, c, true) ==
      GridCount(g, k, c, true) + (if k[i][j] == c then 1 else 0)
  {
    var n := |g| - 1;
    var g' := g[i := g[i][j := RevealedCardToken]];
    if i == n {
      assert g'[..n] == g[..n];
      RowReveal(g[i], k[i], j, c);
    } else {
      assert g'[..n] == g[..n][i := g[i][j := RevealedCardToken]];
      GridReveal(g[..n], k[..n], i, j, c);
    }
  }

  /* ---------- queries ---------- */

  /** `is_revealed`: the cell shows the token. That is exactly when its word,
      upper-cased as a word search does, is the token, so no search that passes
      the token check can land on it. */
  function IsRevealed(b: GameBoard, i: nat, j: nat): (r: bool)
    requires Shaped(b.grid) && i < BoardSize && j < BoardSize
    ensures r <==> Upper(b.grid[i][j]) == RevealedCardToken
  {
    UpperOfTokenOnlyFromToken(b.grid[i][j]);
    assert Upper(RevealedCardToken) == RevealedCardToken;
    b.grid[i][j] == RevealedCardToken
  }

  /** `cards_remaining`: the counter of type `c`, which is its number of unrevealed cells. */
  function CardsRemaining(b: GameBoard, c: CardType): (n: nat)
    requires Valid(b)
    ensures n == GridCount(b.grid, b.spyKey, c, false)
    ensures n == 0 <==> AllRevealed(b, c)
  {
    GridCountZero(b.grid, b.spyKey, c, false);
    b.remaining[c]
  }

  /** `team_won`: the team's counter is zero, that is, all its cards are revealed. */
  function TeamWon(b: GameBoard, t: Team): (won: bool)
    requires Valid(b)
    ensures won <==> AllRevealed(b, t.Card())
  {
    GridCountZero(b.grid, b.spyKey, t.Card(), false);
    b.remaining[t.Card()] == 0
  }

  /** `assassin_revealed`: the assassin counter is zero, that is, every assassin cell is revealed. */
  function AssassinRevealed(b: GameBoard): (r: bool)
    requires Valid(b)
    ensures r <==> AllRevealed(b, Assassin)
  {
    GridCountZero(b.grid, b.spyKey, Assassin, false);
    b.remaining[Assassin] == 0
  }

  /* ---------- reveal ---------- */

  /** `reveal_card_by_coordinates`: fails on a revealed cell and changes nothing;
      otherwise overwrites the cell with the token, returns its key type and
      takes one off that type's counter only. */
  function Reveal(b: GameBoard, i: nat, j: nat): (r: Result<(GameBoard, CardType), GameError>)
    requires Valid(b)
    requires i < BoardSize && j < BoardSize
    ensures r.Failure? <==> IsRevealed(b, i, j)
    ensures r.Failure? ==> r.error == AlreadyRevealed
    ensures r.Success? ==>
      var (b', c) := r.value;
      && Valid(b')
      && c == b.spyKey[i][j]
      && b'.spyKey == b.spyKey
      && IsRevealed(b', i, j)
      && (forall i', j' :: 0 <= i' < BoardSize && 0 <= j' < BoardSize && (i' != i || j' != j) ==>
            b'.grid[i'][j'] == b.grid[i'][j'])
      && b'.remaining[c] == b.remaining[c] - 1
      && (forall d :: d != c ==> d in b'.remaining && b'.remaining[d] == b.remaining[d])
  {
    if b.grid[i][j] == RevealedCardToken then Failure(AlreadyRevealed)
    else
      var c := b.spyKey[i][j];
      var g := b.grid[i := b.grid[i][j := RevealedCardToken]];
      var b' := GameBoard(g, b.spyKey, b.remaining[c := b.remaining[c] - 1]);
      assert Valid(b') by {
        forall d: CardType ensures d in b'.remaining && b'.remaining[d] == GridCount(g, b.spyKey, d, false) {
          GridReveal(b.grid, b.spyKey, i, j, d);
        }
      }
      Success((b', c))
  }

  /** Sum of the four counters. */
  function TotalRemaining(b: GameBoard): int
    requires Valid(b)
  {
    b.remaining[RedCard] + b.remaining[BlueCard] + b.remaining[Bystander] + b.remaining[Assassin]
  }

  /** Every successful reveal lowers the total of unrevealed cards by exactly one,
      and the same cell cannot be revealed again. */
  lemma RevealStep(b: GameBoard, i: nat, j: nat)
    requires Valid(b) && i < BoardSize && j < BoardSize
    requires Reveal(b, i, j).Success?
    ensures TotalRemaining(Reveal(b, i, j).value.0) == TotalRemaining(b) - 1
    ensures Reveal(Reveal(b, i, j).value.0, i, j) == Failure(AlreadyRevealed)
  {
    var c := b.spyKey[i][j];
    assert c == RedCard || c == BlueCard || c == Bystander || c == Assassin;
  }

  /* ---------- construction ---------- */

  /** `sample` is what `random.sample` may pick: 25 distinct positions of a deck of `n` words. */
  predicate IsSample(sample: seq<nat>, n: nat) {
    |sample| == CellCount && Distinct(sample) && forall k :: 0 <= k < |sample| ==> sample[k] < n
  }

  /** Python's `len(deck) != len(set(deck))`. */
  function HasDuplicates(deck: seq<string>): bool {
    |deck| != |Elements(deck)|
  }

  /** No deck word is the revealed-card token. */
  ghost predicate TokenFree(deck: seq<string>) {
    forall k :: 0 <= k < |deck| ==> deck[k] != RevealedCardToken
  }

  /** The deck stays duplicate-free after upper-casing. */
  ghost predicate DistinctUpper(deck: seq<string>) {
    forall a, b :: 0 <= a < b < |deck| ==> Upper(deck[a]) != Upper(deck[b])
  }

  /** The sampled words in sampling order, upper-cased or kept as they are. */
  function SampleWords(deck: seq<string>, sample: seq<nat>, upper: bool): (words: seq<string>)
    requires IsSample(sample, |deck|)
    ensures |words| == CellCount
    ensures forall k :: 0 <= k < CellCount ==>
      words[k] == if upper then Upper(deck[sample[k]]) else deck[sample[k]]
  {
    seq(CellCount, k requires 0 <= k < CellCount => if upper then Upper(deck[sample[k]]) else deck[sample[k]])
  }

  /** The counters as `__init__` initialises them: each type's unrevealed cells. */
  function InitialCounts(g: Grid, k: SpyKey): (m: map<CardType, int>)
    requires SameShape(g, k)
    ensures forall c: CardType :: c in m && m[c] == GridCount(g, k, c, false)
  {
    var m := map[
      RedCard := GridCount(g, k, RedCard, false),
      BlueCard := GridCount(g, k, BlueCard, false),
      Bystander := GridCount(g, k, Bystander, false),
      Assassin := GridCount(g, k, Assassin, false)];
    EveryCardTypeIsKey(m);
    m
  }

  lemma EveryCardTypeIsKey<V>(m: map<CardType, V>)
    requires RedCard in m && BlueCard in m && Bystander in m && Assassin in m
    ensures forall c: CardType :: c in m
  {
    forall c: CardType ensures c in m {
      match c
      case RedCard =>
      case BlueCard =>
      case Bystander =>
      case Assassin =>
    }
  }

  /** Lay 25 words out row by row next to the spy key and count the cards. */
  function BuildBoard(words: seq<string>, spyKey: SpyKey): (b: GameBoard)
    requires |words| == CellCount && Shaped(spyKey)
    ensures Valid(b) && b.spyKey == spyKey
    ensures forall i, j :: 0 <= i < BoardSize && 0 <= j < BoardSize ==> b.grid[i][j] == words[BoardSize * i + j]
    ensures (forall k :: 0 <= k < CellCount ==> words[k] != RevealedCardToken) ==>
      forall c :: b.remaining[c] == KeyCount(spyKey, c)
    ensures Distinct(words) ==> UniqueWords(b.grid)
  {
    var g := Chunk(words);
    ChunkFacts(words, spyKey);
    GameBoard(g, spyKey, InitialCounts(g, spyKey))
  }

  lemma ChunkFacts(words: seq<string>, spyKey: SpyKey)
    requires |words| == CellCount && Shaped(spyKey)
    ensures (forall k :: 0 <= k < CellCount ==> words[k] != RevealedCardToken) ==>
      forall c :: GridCount(Chunk(words), spyKey, c, false) == KeyCount(spyKey, c)
    ensures Distinct(words) ==> UniqueWords(Chunk(words))
  {
    var g := Chunk(words);
    if forall k :: 0 <= k < CellCount ==> words[k] != RevealedCardToken {
      forall c: CardType ensures GridCount(g, spyKey, c, false) == KeyCount(spyKey, c) {
        GridCountZero(g, spyKey, c, true);
        GridSplit(g, spyKey, c);
      }
    }
    if Distinct(words) {
      ChunkUnique(words);
    }
  }

  /** Two different cells of the board have different row-major positions. */
  lemma CellIndexInjective(i1: nat, j1: nat, i2: nat, j2: nat)
    requires j1 < BoardSize && j2 < BoardSize
    requires i1 != i2 || j1 != j2
    ensures BoardSize * i1 + j1 != BoardSize * i2 + j2
  {
  }

  lemma ChunkUnique(words: seq<string>)
    requires |words| == CellCount && Distinct(words)
    ensures UniqueWords(Chunk(words))
  {
    var g := Chunk(words);
    forall i1, j1, i2, j2 |
      0 <= i1 < BoardSize && 0 <= j1 < BoardSize && 0 <= i2 < BoardSize && 0 <= j2 < BoardSize
      && (i1 != i2 || j1 != j2)
      ensures g[i1][j1] != g[i2][j2]
    {
      var a, c := BoardSize * i1 + j1, BoardSize * i2 + j2;
      CellIndexInjective(i1, j1, i2, j2);
      assert g[i1][j1] == words[a] && g[i2][j2] == words[c];
      if a < c { assert words[a] != words[c]; } else { assert words[c] != words[a]; }
    }
  }

  /** `GameBoard(deck, spy_key)`: rejects a deck with a repeated word, samples 25
      words (which needs at least 25), upper-cases them into the grid, and sets
      every counter to the number of its unrevealed cells. */
  function NewBoard(deck: seq<string>, spyKey: SpyKey, sample: seq<nat>): (r: Result<GameBoard, GameError>)
    requires Shaped(spyKey)
    requires |deck| >= CellCount ==> IsSample(sample, |deck|)
    ensures r.Failure? <==> !Distinct(deck) || |deck| < CellCount
    ensures !Distinct(deck) ==> r == Failure(DuplicateWords)
    ensures Distinct(deck) && |deck| < CellCount ==> r == Failure(DeckTooSmall)
    ensures r.Success? ==> Valid(r.value) && r.value.spyKey == spyKey
    ensures r.Success? ==> forall i, j :: 0 <= i < BoardSize && 0 <= j < BoardSize ==>
      r.value.grid[i][j] == Upper(deck[sample[BoardSize * i + j]])
    ensures r.Success? && TokenFree(deck) ==> forall c :: r.value.remaining[c] == KeyCount(spyKey, c)
    ensures r.Success? && DistinctUpper(deck) ==> UniqueWords(r.value.grid)
  {
    SetSizeDetectsDuplicates(deck);
    if HasDuplicates(deck) then Failure(DuplicateWords)
    else if |deck| < CellCount then Failure(DeckTooSmall)
    else
      var words := SampleWords(deck, sample, true);
      SampleFacts(deck, sample);
      Success(BuildBoard(words, spyKey))
  }

  lemma SampleFacts(deck: seq<string>, sample: seq<nat>)
    requires IsSample(sample, |deck|)
    ensures TokenFree(deck) ==> forall k :: 0 <= k < CellCount ==> SampleWords(deck, sample, true)[k] != RevealedCardToken
    ensures DistinctUpper(deck) ==> Distinct(SampleWords(deck, sample, true))
  {
    var words := SampleWords(deck, sample, true);
    if TokenFree(deck) {
      forall k | 0 <= k < CellCount ensures words[k] != RevealedCardToken {
        UpperOfTokenOnlyFromToken(deck[sample[k]]);
      }
    }
    if DistinctUpper(deck) {
      forall a, c | 0 <= a < c < CellCount ensures words[a] != words[c] {
        if sample[a] < sample[c] {
          assert Upper(deck[sample[a]]) != Upper(deck[sample[c]]);
        } else {
          assert sample[a] != sample[c];
          assert Upper(deck[sample[c]]) != Upper(deck[sample[a]]);
        }
      }
    }
  }

  /* ---------- lookup ---------- */

  function FindInRow(row: seq<string>, w: string, j: nat): (r: Option<nat>)
    requires j <= |row|
    ensures r.Some? ==> j <= r.value < |row| && row[r.value] == w
    ensures r.Some? ==> forall j' :: j <= j' < r.value ==> row[j'] != w
    ensures r.None? ==> forall j' :: j <= j' < |row| ==> row[j'] != w
    decreases |row| - j
  {
    if j == |row| then None
    else if row[j] == w then Some(j)
    else FindInRow(row, w, j + 1)
  }

  /** Row-major search from row `i` on for a cell equal to `w`. */
  function FindFrom(g: Grid, w: string, i: nat): (r: Option<(nat, nat)>)
    requires i <= |g|
    ensures r.Some? ==> i <= r.value.0 < |g| && r.value.1 < |g[r.value.0]| && g[r.value.0][r.value.1] == w
    ensures r.Some? ==> forall i', j' ::
      (i <= i' < |g| && 0 <= j' < |g[i']| && (i' < r.value.0 || (i' == r.value.0 && j' < r.value.1)))
      ==> g[i'][j'] != w
    ensures r.None? ==> forall i', j' :: i <= i' < |g| && 0 <= j' < |g[i']| ==> g[i'][j'] != w
    decreases |g| - i
  {
    if i == |g| then None
    else
      match FindInRow(g[i], w, 0)
      case Some(j) => Some((i, j))
      case None => FindFrom(g, w, i + 1)
  }

  /** `get_word_position`: refuses the token, otherwise upper-cases the query and
      returns the first cell in row-major order that holds it, or nothing. */
  function GetWordPosition(b: GameBoard, w: string): (r: Result<Option<(nat, nat)>, GameError>)
    requires Shaped(b.grid)
    ensures r.Failure? <==> w == RevealedCardToken
    ensures r.Failure? ==> r.error == TokenSearch
    ensures r.Success? && r.value.Some? ==>
      var (i, j) := r.value.value;
      && i < BoardSize && j < BoardSize
      && b.grid[i][j] == Upper(w)
      && forall i', j' :: 0 <= i' < BoardSize && 0 <= j' < BoardSize && (i' < i || (i' == i && j' < j)) ==>
           b.grid[i'][j'] != Upper(w)
    ensures r.Success? && r.value.None? ==>
      forall i, j :: 0 <= i < BoardSize && 0 <= j < BoardSize ==> b.grid[i][j] != Upper(w)
  {
    if w == RevealedCardToken then Failure(TokenSearch)
    else Success(FindFrom(b.grid, Upper(w), 0))
  }

  /** `reveal_card_by_word`: look the word up, fail if it is not on the board,
      otherwise reveal its cell. */
  function RevealByWord(b: GameBoard, w: string): (r: Result<(GameBoard, CardType), GameError>)
    requires Valid(b)
    ensures w == RevealedCardToken ==> r == Failure(TokenSearch)
    ensures w != RevealedCardToken && (forall i, j :: 0 <= i < BoardSize && 0 <= j < BoardSize ==> b.grid[i][j] != Upper(w))
      ==> r == Failure(WordNotOnBoard)
    ensures var pos := GetWordPosition(b, w);
      pos.Success? && pos.value.Some? ==> r == Reveal(b, pos.value.value.0, pos.value.value.1)
    ensures w != RevealedCardToken && UniqueWords(b.grid) ==>
      forall i, j :: 0 <= i < BoardSize && 0 <= j < BoardSize && b.grid[i][j] == Upper(w) ==>
        r == Reveal(b, i, j) && r.Success?
  {
    var pos :- GetWordPosition(b, w);
    UpperOfTokenOnlyFromToken(w);
    if pos.None? then Failure(WordNotOnBoard)
    else Reveal(b, pos.value.0, pos.value.1)
  }

  /** A hidden word of a board dealt from upper-cased words is found again when
      searched for as shown: the search returns a cell holding it, and that very
      cell when the board has no repeated word. */
  lemma GridWordIsFound(b: GameBoard, i: nat, j: nat, dealt: string)
    requires Shaped(b.grid) && i < BoardSize && j < BoardSize
    requires b.grid[i][j] == Upper(dealt) && b.grid[i][j] != RevealedCardToken
    ensures var pos := GetWordPosition(b, b.grid[i][j]);
      && pos.Success? && pos.value.Some?
      && b.grid[pos.value.value.0][pos.value.value.1] == b.grid[i][j]
      && (UniqueWords(b.grid) ==> pos.value.value == (i, j))
  {
    UpperIdempotent(dealt);
  }

  /** After a cell is revealed no query can find it, and when words are unique
      its former word is no longer on the board at all. */
  lemma RevealedWordIsGone(b: GameBoard, i: nat, j: nat, q: string)
    requires Valid(b) && i < BoardSize && j < BoardSize
    requires Reveal(b, i, j).Success?
    ensures GetWordPosition(Reveal(b, i, j).value.0, q) != Success(Some((i, j)))
    ensures UniqueWords(b.grid) && Upper(q) == b.grid[i][j] ==>
      GetWordPosition(Reveal(b, i, j).value.0, q) == Success(None)
  {
    UpperOfTokenOnlyFromToken(q);
    var b' := Reveal(b, i, j).value.0;
    if UniqueWords(b.grid) && Upper(q) == b.grid[i][j] {
      assert forall i', j' :: 0 <= i' < BoardSize && 0 <= j' < BoardSize ==> b'.grid[i'][j'] != Upper(q);
    }
  }

  /* ---------- scoreboard ---------- */

  /** The tally `count_all_cards` holds once it has scanned the first `i` rows and
      the first `j` cells of row `i`. */
  ghost function Tally(g: Grid, k: SpyKey, i: nat, j: nat): Counts
    requires Shaped(g) && Shaped(k) && i <= BoardSize && j <= BoardSize && (i == BoardSize ==> j == 0)
  {
    SlicesKeepShape(g, k, i);
    var (gs, ks) := (g[..i], k[..i]);
    var (w, kinds) := if i < BoardSize then (g[i][..j], k[i][..j]) else ([], []);
    Counts(
      GridCount(gs, ks, RedCard, true) + RowCount(w, kinds, RedCard, true),
      GridCount(gs, ks, BlueCard, true) + RowCount(w, kinds, BlueCard, true),
      GridCount(gs, ks, RedCard, false) + RowCount(w, kinds, RedCard, false),
      GridCount(gs, ks, BlueCard, false) + RowCount(w, kinds, BlueCard, false),
      GridCount(gs, ks, Bystander, true) + RowCount(w, kinds, Bystander, true),
      GridCount(gs, ks, Bystander, false) + RowCount(w, kinds, Bystander, false),
      GridCount(gs, ks, Assassin, true) + RowCount(w, kinds, Assassin, true)
      + GridCount(gs, ks, Assassin, false) + RowCount(w, kinds, Assassin, false))
  }

  lemma SlicesKeepShape(g: Grid, k: SpyKey, i: nat)
    requires Shaped(g) && Shaped(k) && i <= BoardSize
    ensures SameShape(g[..i], k[..i])
  {
  }

  /** The tally after one more cell of type `kind`, as the branches of `count_all_cards` update it. */
  function AddCell(counts: Counts, kind: CardType, revealed: bool): Counts {
    match kind
    case RedCard =>
      if revealed then counts.(revealedRed := counts.revealedRed + 1)
      else counts.(hiddenRed := counts.hiddenRed + 1)
    case BlueCard =>
      if revealed then counts.(revealedBlue := counts.revealedBlue + 1)
      else counts.(hiddenBlue := counts.hiddenBlue + 1)
    case Bystander =>
      if revealed then counts.(revealedWhite := counts.revealedWhite + 1)
      else counts.(hiddenWhite := counts.hiddenWhite + 1)
    case Assassin =>
      counts.(black := counts.black + 1)
  }

  lemma TallyStep(g: Grid, k: SpyKey, i: nat, j: nat)
    requires Shaped(g) && Shaped(k) && i < BoardSize && j < BoardSize
    ensures Tally(g, k, i, j + 1) == AddCell(Tally(g, k, i, j), k[i][j], g[i][j] == RevealedCardToken)
  {
    assert g[i][..j + 1][..j] == g[i][..j];
    assert k[i][..j + 1][..j] == k[i][..j];
  }

  lemma TallyNextRow(g: Grid, k: SpyKey, i: nat)
    requires Shaped(g) && Shaped(k) && i < BoardSize
    ensures Tally(g, k, i, BoardSize) == Tally(g, k, i + 1, 0)
  {
    SlicesKeepShape(g, k, i + 1);
    assert g[i][..BoardSize] == g[i] && k[i][..BoardSize] == k[i];
    assert g[..i + 1][..i] == g[..i] && k[..i + 1][..i] == k[..i];
    if i + 1 < BoardSize {
      assert g[i + 1][..0] == [] && k[i + 1][..0] == [];
    }
  }

  lemma TallyComplete(b: GameBoard)
    requires Shaped(b.grid) && Shaped(b.spyKey)
    ensures var t := Tally(b.grid, b.spyKey, BoardSize, 0);
      && t.revealedRed == GridCount(b.grid, b.spyKey, RedCard, true)
      && t.revealedBlue == GridCount(b.grid, b.spyKey, BlueCard, true)
      && t.revealedWhite == GridCount(b.grid, b.spyKey, Bystander, true)
      && t.hiddenRed == GridCount(b.grid, b.spyKey, RedCard, false)
      && t.hiddenBlue == GridCount(b.grid, b.spyKey, BlueCard, false)
      && t.hiddenWhite == GridCount(b.grid, b.spyKey, Bystander, false)
      && t.black == KeyCount(b.spyKey, Assassin)
  {
    assert b.grid[..BoardSize] == b.grid && b.spyKey[..BoardSize] == b.spyKey;
    GridSplit(b.grid, b.spyKey, Assassin);
  }

  lemma TallyStart(g: Grid, k: SpyKey)
    requires Shaped(g) && Shaped(k)
    ensures Tally(g, k, 0, 0) == Counts(0, 0, 0, 0, 0, 0, 0)
  {
    assert g[0][..0] == [] && k[0][..0] == [];
  }

  /** `count_all_cards`: one pass over the grid tallying revealed and hidden cards
      per colour, with the assassin counted whether revealed or not. */
  method CountAllCards(b: GameBoard) returns (counts: Counts)
    requires Shaped(b.grid) && Shaped(b.spyKey)
    ensures counts.revealedRed == GridCount(b.grid, b.spyKey, RedCard, true)
    ensures counts.revealedBlue == GridCount(b.grid, b.spyKey, BlueCard, true)
    ensures counts.revealedWhite == GridCount(b.grid, b.spyKey, Bystander, true)
    ensures counts.hiddenRed == GridCount(b.grid, b.spyKey, RedCard, false)
    ensures counts.hiddenBlue == GridCount(b.grid, b.spyKey, BlueCard, false)
    ensures counts.hiddenWhite == GridCount(b.grid, b.spyKey, Bystander, false)
    ensures counts.hiddenRed + counts.revealedRed == KeyCount(b.spyKey, RedCard)
    ensures counts.hiddenBlue + counts.revealedBlue == KeyCount(b.spyKey, BlueCard)
    ensures counts.hiddenWhite + counts.revealedWhite == KeyCount(b.spyKey, Bystander)
    ensures counts.black == KeyCount(b.spyKey, Assassin)
    ensures Valid(b) ==>
      (counts.hiddenRed == b.remaining[RedCard] && counts.hiddenBlue == b.remaining[BlueCard]
       && counts.hiddenWhite == b.remaining[Bystander])
  {
    counts := Counts(0, 0, 0, 0, 0, 0, 0);
    TallyStart(b.grid, b.spyKey);
    var i := 0;
    while i < BoardSize
      invariant 0 <= i <= BoardSize
      invariant counts == Tally(b.grid, b.spyKey, i, 0)
    {
      var j := 0;
      while j < BoardSize
        invariant 0 <= j <= BoardSize
        invariant counts == Tally(b.grid, b.spyKey, i, j)
      {
        var key := b.spyKey[i][j];
        var revealed := b.grid[i][j] == RevealedCardToken;
        counts := AddCell(counts, key, revealed);
        TallyStep(b.grid, b.spyKey, i, j);
        j := j + 1;
      }
      TallyNextRow(b.grid, b.spyKey, i);
      i := i + 1;
    }
    TallyComplete(b);
    GridSplit(b.grid, b.spyKey, RedCard);
    GridSplit(b.grid, b.spyKey, BlueCard);
    GridSplit(b.grid, b.spyKey, Bystander);
  }


}
