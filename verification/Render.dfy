/** The plain text projection of a board that `render_board_rows` builds before
    any colouring: each row is its five words, each centred in a fixed column. */
module Render {
  import opened Wrappers
  import opened Cards
  import opened Grids
  import opened Board

  /** `IrcCodenamesGame.board_column_width`, used when no width (or zero) is given. */
  const BoardColumnWidth: nat := 15

  /** Python's `' ' * n`: empty when `n` is not positive. */
  function Spaces(n: int): (s: string)
    ensures |s| == if n > 0 then n else 0
    ensures forall k :: 0 <= k < |s| ==> s[k] == ' '
  {
    if n <= 0 then "" else Spaces(n - 1) + " "
  }

  /** `w` sits at position `k` of `s`. */
  predicate OccursAt(s: string, w: string, k: int) {
    0 <= k && k + |w| <= |s| && s[k..k + |w|] == w
  }

  ghost predicate Contains(s: string, w: string) {
    exists k :: OccursAt(s, w, k)
  }

  /** `pad_word`: centre `w` in `width` columns with floor(d/2) spaces before and
      ceil(d/2) after, d = width - |w|; a word at least as wide is left alone. */
  function PadWord(w: string, width: int): (r: string)
    ensures |r| == if |w| >= width then |w| else width
    ensures var front := (|r| - |w|) / 2;
      && OccursAt(r, w, front)
      && (forall k :: 0 <= k < front ==> r[k] == ' ')
      && (forall k :: front + |w| <= k < |r| ==> r[k] == ' ')
      && front <= |r| - |w| - front <= front + 1
  {
    var total := width - |w|;
    var front := total / 2;          // math.floor(total / 2); `/` here is floor division for a positive divisor
    var back := -((-total) / 2);     // math.ceil(total / 2)
    var r := Spaces(front) + w + Spaces(back);
    assert r[|Spaces(front)|..|Spaces(front)| + |w|] == w;
    r
  }

  /** A word already as wide as the column is not padded again. */
  lemma PadWide(w: string, width: int)
    requires |w| >= width
    ensures PadWord(w, width) == w
  {
    var r := PadWord(w, width);
    assert r[0..|w|] == r;
  }

  /** A word that fits the column takes exactly the column, even padded twice. */
  lemma PadFits(w: string, width: int)
    requires |w| <= width
    ensures |PadWord(PadWord(w, width), width)| == width
  {
  }

  /** One more word adds one more column. */
  lemma MulStep(n: nat, width: int)
    ensures (n + 1) * width == n * width + width
  {
  }

  lemma ShiftRight(a: string, b: string, w: string, k: int)
    requires OccursAt(b, w, k)
    ensures OccursAt(a + b, w, |a| + k)
  {
    assert (a + b)[|a| + k..|a| + k + |w|] == b[k..k + |w|];
  }

  lemma ShiftLeft(a: string, b: string, w: string, k: int)
    requires OccursAt(a, w, k)
    ensures OccursAt(a + b, w, k)
  {
    assert (a + b)[k..k + |w|] == a[k..k + |w|];
  }

  /** An occurrence in column `j - 1` of a row moves to column `j` once a
      one-column word is put in front. */
  lemma PlaceAfter(p: string, tail: string, u: string, width: int, j: nat, k: int)
    requires |p| == width && j >= 1
    requires OccursAt(tail, u, (j - 1) * width + k)
    ensures OccursAt(p + tail, u, j * width + k)
  {
    MulStep(j - 1, width);
    ShiftRight(p, tail, u, (j - 1) * width + k);
  }

  /** All words of a row fit the column. */
  predicate Fit(words: seq<string>, width: int) {
    forall j :: 0 <= j < |words| ==> |words[j]| <= width
  }

  /** Where word `j` of a row of fitting words starts: its column, plus the front
      padding that centres it. */
  function Slot(words: seq<string>, width: int, j: nat): int
    requires j < |words|
  {
    j * width + (width - |words[j]|) / 2
  }

  /** The facts `RenderRow` promises for the row `words`, rendered as `r`. */
  ghost predicate RowFacts(words: seq<string>, width: int, r: string) {
    && (forall j :: 0 <= j < |words| ==> Contains(r, words[j]))
    && (Fit(words, width) ==>
          && |r| == |words| * width
          && forall j :: 0 <= j < |words| ==> OccursAt(r, words[j], Slot(words, width, j)))
  }

  /** The padded form of `w` as `render_row` lays it out, with `w` at its front
      padding. */
  lemma PaddedTwice(w: string, width: int)
    ensures var p := PadWord(PadWord(w, width), width);
      && p == PadWord(w, width)
      && OccursAt(p, w, (|p| - |w|) / 2)
      && (|w| <= width ==> |p| == width)
  {
    PadWide(PadWord(w, width), width);
  }

  /** Putting a padded word in front of a row that shows its words gives a row
      that shows them all. */
  lemma RowStepShows(w: string, rest: seq<string>, width: int, tail: string)
    requires forall j :: 0 <= j < |rest| ==> Contains(tail, rest[j])
    ensures var words, p := [w] + rest, PadWord(PadWord(w, width), width);
      forall j :: 0 <= j < |words| ==> Contains(p + tail, words[j])
  {
    var words, p := [w] + rest, PadWord(PadWord(w, width), width);
    PaddedTwice(w, width);
    forall j | 0 <= j < |words| ensures Contains(p + tail, words[j]) {
      if j == 0 {
        ShiftLeft(p, tail, w, (|p| - |w|) / 2);
      } else {
        assert words[j] == rest[j - 1];
        var k :| OccursAt(tail, rest[j - 1], k);
        ShiftRight(p, tail, rest[j - 1], k);
      }
    }
  }

  /** Putting a fitting padded word in front of a row of fitting words, each in
      its column, moves each of them one column right and puts `w` in column 0. */
  lemma RowStepPlaced(w: string, rest: seq<string>, width: int, tail: string)
    requires |w| <= width && Fit(rest, width)
    requires |tail| == |rest| * width
    requires forall j :: 0 <= j < |rest| ==> OccursAt(tail, rest[j], Slot(rest, width, j))
    ensures var words, p := [w] + rest, PadWord(PadWord(w, width), width);
      && |p + tail| == |words| * width
      && forall j :: 0 <= j < |words| ==> OccursAt(p + tail, words[j], Slot(words, width, j))
  {
    var words, p := [w] + rest, PadWord(PadWord(w, width), width);
    PaddedTwice(w, width);
    MulStep(|rest|, width);
    forall j | 0 <= j < |words| ensures OccursAt(p + tail, words[j], Slot(words, width, j)) {
      if j == 0 {
        assert Slot(words, width, 0) == (|p| - |w|) / 2;
        ShiftLeft(p, tail, w, (|p| - |w|) / 2);
      } else {
        var k := (width - |rest[j - 1]|) / 2;
        assert words[j] == rest[j - 1];
        assert Slot(rest, width, j - 1) == (j - 1) * width + k;
        assert Slot(words, width, j) == j * width + k;
        PlaceAfter(p, tail, rest[j - 1], width, j, k);
      }
    }
  }

  /** Putting one padded word in front of a rendered row keeps the row facts. */
  lemma RowStep(w: string, rest: seq<string>, width: int, tail: string)
    requires RowFacts(rest, width, tail)
    ensures RowFacts([w] + rest, width, PadWord(PadWord(w, width), width) + tail)
  {
    var words := [w] + rest;
    RowStepShows(w, rest, width, tail);
    if Fit(words, width) {
      assert words[0] == w;
      assert Fit(rest, width) by {
        forall j | 0 <= j < |rest| ensures |rest[j]| <= width {
          assert rest[j] == words[j + 1];
        }
      }
      RowStepPlaced(w, rest, width, tail);
    }
  }

  /** `render_row` without colours: every word padded, then padded again when the
      row template is filled, in column order. Every word can be read off the
      row; when all words fit the column, the row is one column per word and
      word `j` sits centred in column `j`. */
  function RenderRow(words: seq<string>, width: int): (r: string)
    ensures RowFacts(words, width, r)
  {
    if |words| == 0 then ""
    else
      var tail := RenderRow(words[1..], width);
      RowStep(words[0], words[1..], width, tail);
      assert [words[0]] + words[1..] == words;
      PadWord(PadWord(words[0], width), width) + tail
  }

  /** `render_board_rows` without colours: `BoardSize` rows, row `i` showing every
      word (or the revealed-card token) of grid row `i`, each centred in its own
      column when the words fit. A width of `None` or 0 means the default width. */
  function RenderBoardRows(b: GameBoard, columnWidth: Option<int>): (rows: seq<string>)
    requires Shaped(b.grid)
    ensures |rows| == BoardSize
    ensures forall i, j :: 0 <= i < BoardSize && 0 <= j < BoardSize ==> Contains(rows[i], b.grid[i][j])
    ensures var width := if columnWidth.None? || columnWidth.value == 0 then BoardColumnWidth else columnWidth.value;
      forall i :: 0 <= i < BoardSize && Fit(b.grid[i], width) ==>
        && |rows[i]| == BoardSize * width
        && forall j :: 0 <= j < BoardSize ==> OccursAt(rows[i], b.grid[i][j], Slot(b.grid[i], width, j))
  {
    var width := if columnWidth.None? || columnWidth.value == 0 then BoardColumnWidth else columnWidth.value;
    var rows := seq(BoardSize, i requires 0 <= i < BoardSize => RenderRow(b.grid[i], width));
    forall i | 0 <= i < BoardSize ensures RowFacts(b.grid[i], width, rows[i]) {
      assert rows[i] == RenderRow(b.grid[i], width);
    }
    rows
  }
}
