/**
 The game engine of the Wordle `Board`: an immutable board state and one
 transition per command the player can give (a letter key, Backspace,
 Enter, the bonus button, Try Again, New Game, Next Level).

 Randomness is a parameter: a command that draws a new target word carries
 the index the random draw produced, and the bonus button carries the
 random position it reveals.
 */
module Board {
  import opened Evaluator
  import opened Words

  /** Points for a win, indexed by the 0-based row the win happened on. */
  const RowScores: seq<int> := [6, 5, 4, 3, 2, 1]

  /** Bonus uses granted at the start of every round. */
  const BonusUsagesPerRound := 2

  /** The letter of an empty tile. */
  const NoLetter: char := '\0'

  /** One row of tiles: the letters (the row's word) and the tile states. */
  datatype Row = Row(letters: string, states: seq<TileState>)

  /** The two word lists: candidate targets and acceptable guesses. */
  datatype Dictionary = Dictionary(solutions: seq<string>, validWords: seq<string>)

  /**
   The engine's state. `enabled` is whether the per-frame input handling
   runs at all; `nextLevelPending` stands for the Next Level button being
   shown, which blocks keyboard input; `invalidWordShown` for the "not a
   word" notice.
   */
  datatype BoardState = BoardState(
    rows: seq<Row>,
    rowIndex: int,
    columnIndex: int,
    word: string,
    score: int,
    lastScore: int,
    needNewWord: bool,
    bonusUsages: int,
    isBonusButtonActive: bool,
    gameIsOver: bool,
    enabled: bool,
    nextLevelPending: bool,
    invalidWordShown: bool)

  /** A row as wide as the target, whose Correct tiles hold the target's letters. */
  predicate RowFits(row: Row, word: string) {
    && |row.letters| == |word|
    && |row.states| == |word|
    && CorrectTilesHoldTarget(word, row.letters, row.states)
  }

  /** A tile state a row holds before it is submitted: typed, empty, or revealed by the bonus. */
  predicate IsInput(s: TileState) {
    s == Empty || s == Occupied || s == Correct
  }

  /** A row not submitted yet: no tile carries a verdict other than a revealed Correct. */
  predicate Unsubmitted(row: Row) {
    forall j :: 0 <= j < |row.states| ==> IsInput(row.states[j])
  }

  /**
   The number of Correct tiles in a row of states. It is the row length
   exactly when the row is won, and 0 exactly when no tile is Correct.
   */
  function CorrectCount(states: seq<TileState>): (n: nat)
    ensures n <= |states|
    ensures n == |states| <==> HasWon(states)
    ensures n == 0 <==> forall j :: 0 <= j < |states| ==> states[j] != Correct
  {
    if |states| == 0 then 0
    else
      var init := states[..|states| - 1];
      assert forall j :: 0 <= j < |init| ==> init[j] == states[j];
      CorrectCount(init) + (if states[|states| - 1] == Correct then 1 else 0)
  }

  /** Overwriting one tile changes the count by what leaves and what arrives. */
  lemma {:induction false} CorrectCountUpdate(states: seq<TileState>, j: nat, x: TileState)
    requires j < |states|
    ensures CorrectCount(states[j := x])
         == CorrectCount(states) - (if states[j] == Correct then 1 else 0) + (if x == Correct then 1 else 0)
    decreases |states|
  {
    var n := |states|;
    var updated := states[j := x];
    if j == n - 1 {
      assert updated[..n - 1] == states[..n - 1];
    } else {
      assert updated[..n - 1] == states[..n - 1][j := x];
      CorrectCountUpdate(states[..n - 1], j, x);
    }
  }

  /**
   What every reachable board satisfies: one row per entry of the score
   table, all as wide as the target; the game is over exactly when the row
   index has run past the last row, and input handling is then switched
   off; the column index stays within the row;
   the bonus count stays between 0 and its per-round grant and the button is
   active exactly when uses remain; the last score mirrors the score;
   no row from the current one on has been submitted; and the only Correct
   tiles not yet submitted are the ones the bonus revealed on the current
   row, at most two per use spent.
   */
  predicate Valid(b: BoardState) {
    && |b.rows| == |RowScores|
    && |b.word| > 0
    && (forall r :: 0 <= r < |b.rows| ==> RowFits(b.rows[r], b.word))
    && 0 <= b.rowIndex <= |b.rows|
    && (forall r :: b.rowIndex <= r < |b.rows| ==> Unsubmitted(b.rows[r]))
    && (b.gameIsOver <==> b.rowIndex == |b.rows|)
    && (b.gameIsOver ==> !b.enabled)
    && 0 <= b.columnIndex <= |b.word|
    && 0 <= b.bonusUsages <= BonusUsagesPerRound
    && (b.isBonusButtonActive <==> b.bonusUsages > 0)
    && 0 <= b.score
    && b.lastScore == b.score
    && (b.rowIndex < |b.rows| ==>
          CorrectCount(b.rows[b.rowIndex].states) <= 2 * (BonusUsagesPerRound - b.bonusUsages))
    && (forall r :: b.rowIndex < r < |b.rows| ==> CorrectCount(b.rows[r].states) == 0)
  }

  /**
   Two bonus uses reveal at most four tiles, so on a target of five letters
   or more the current row is never all Correct before it is submitted.
   */
  lemma BonusCannotCompleteRow(b: BoardState)
    requires Valid(b) && b.rowIndex < |b.rows| && |b.word| > 2 * BonusUsagesPerRound
    ensures !HasWon(b.rows[b.rowIndex].states)
  {
  }

  /** Keyboard input is handled: input handling is on, the game is running
      and no Next Level is pending. */
  predicate Accepting(b: BoardState) {
    b.enabled && !b.gameIsOver && !b.nextLevelPending
  }

  /** Draw index k picks a solution that, normalized, has the given width. */
  predicate DrawFits(d: Dictionary, k: int, width: int) {
    0 <= k < |d.solutions| && |NormalizeSolution(d.solutions[k])| == width
  }

  /** The points a win on row r earns. */
  function RowScore(r: int): (points: int)
    requires 0 <= r < |RowScores|
    ensures points == |RowScores| - r
    ensures 1 <= points <= |RowScores|
  {
    RowScores[r]
  }

  function EmptyRow(width: nat): (row: Row)
    ensures |row.letters| == width && |row.states| == width
    ensures forall j :: 0 <= j < width ==> row.letters[j] == NoLetter && row.states[j] == Empty
  {
    Row(seq(width, _ => NoLetter), seq(width, _ => Empty))
  }

  /** Tile j of a row set to letter c in state s. */
  function SetTile(row: Row, j: nat, c: char, s: TileState): Row
    requires j < |row.letters| && j < |row.states|
  {
    Row(row.letters[j := c], row.states[j := s])
  }

  /**
   Replacing the current row by one that fits the target and is not yet
   submitted, while moving the column index and spending bonus uses, keeps
   the board valid as long as the new row's Correct tiles stay within the
   bonus budget spent.
   */
  lemma CurrentRowReplaced(b: BoardState, row: Row, column: int, used: int)
    requires Valid(b) && b.rowIndex < |b.rows|
    requires RowFits(row, b.word) && Unsubmitted(row)
    requires 0 <= column <= |b.word| && 0 <= used <= BonusUsagesPerRound
    requires CorrectCount(row.states) <= 2 * (BonusUsagesPerRound - used)
    ensures Valid(b.(rows := b.rows[b.rowIndex := row], columnIndex := column,
                     bonusUsages := used, isBonusButtonActive := used > 0))
  {
    var rows := b.rows[b.rowIndex := row];
    forall i | 0 <= i < |rows|
      ensures RowFits(rows[i], b.word)
      ensures b.rowIndex <= i ==> Unsubmitted(rows[i])
      ensures b.rowIndex < i ==> CorrectCount(rows[i].states) == 0
    {
      if i != b.rowIndex {
        assert rows[i] == b.rows[i];
      }
    }
  }

  /**
   Writing the scored current row and stepping to the next row keeps the
   board valid: the row stepped onto holds no Correct tile yet.
   */
  lemma ScoredRowAdvanced(b: BoardState, row: Row)
    requires Valid(b) && b.rowIndex < |b.rows| && RowFits(row, b.word)
    ensures Valid(Advance(b.(rows := b.rows[b.rowIndex := row])))
  {
    var rows := b.rows[b.rowIndex := row];
    forall i | 0 <= i < |rows|
      ensures RowFits(rows[i], b.word)
      ensures b.rowIndex < i ==> Unsubmitted(rows[i]) && CorrectCount(rows[i].states) == 0
    {
      if i != b.rowIndex {
        assert rows[i] == b.rows[i];
      }
    }
  }

  /** The board with tile j of the current row set to letter c in state s. */
  function WithTile(b: BoardState, j: int, c: char, s: TileState): (r: BoardState)
    requires Valid(b) && 0 <= b.rowIndex < |b.rows| && 0 <= j < |b.word|
    requires s == Empty || s == Occupied
    ensures Valid(r.(columnIndex := 0))
    ensures r == b.(rows := r.rows)
    ensures r.rows == b.rows[b.rowIndex := SetTile(b.rows[b.rowIndex], j, c, s)]
    ensures |r.rows| == |b.rows|
    ensures forall i :: 0 <= i < |b.rows| && i != b.rowIndex ==> r.rows[i] == b.rows[i]
    ensures r.rows[b.rowIndex] == SetTile(b.rows[b.rowIndex], j, c, s)
  {
    var row := SetTile(b.rows[b.rowIndex], j, c, s);
    assert RowFits(row, b.word);
    CorrectCountUpdate(b.rows[b.rowIndex].states, j, s);
    CurrentRowReplaced(b, row, 0, b.bonusUsages);
    b.(rows := b.rows[b.rowIndex := row])
  }

  /**
   `ClearBoard`: every tile of every row empty, each row keeping its width,
   and both indices back at 0. Nothing else changes.
   */
  function ClearBoard(b: BoardState): (r: BoardState)
    ensures |r.rows| == |b.rows|
    ensures forall i :: 0 <= i < |b.rows| ==> r.rows[i] == EmptyRow(|b.rows[i].states|)
    ensures r.rowIndex == 0 && r.columnIndex == 0
    ensures r == b.(rows := r.rows, rowIndex := 0, columnIndex := 0)
  {
    var rows := seq(|b.rows|, i requires 0 <= i < |b.rows| => EmptyRow(|b.rows[i].states|));
    b.(rows := rows, rowIndex := 0, columnIndex := 0)
  }

  /** Clearing a valid board's tiles keeps the rows fitting the same target. */
  lemma ClearedRowsFit(b: BoardState, word: string)
    requires |b.word| == |word|
    requires forall r :: 0 <= r < |b.rows| ==> |b.rows[r].states| == |b.word|
    ensures forall r :: 0 <= r < |b.rows| ==> RowFits(ClearBoard(b).rows[r], word)
    ensures forall r :: 0 <= r < |b.rows| ==> CorrectCount(ClearBoard(b).rows[r].states) == 0
  {
    var c := ClearBoard(b);
    forall r | 0 <= r < |b.rows|
      ensures RowFits(c.rows[r], word) && CorrectCount(c.rows[r].states) == 0
    {
      assert c.rows[r] == EmptyRow(|word|);
    }
  }

  /** Cleared rows depend only on the widths of the rows cleared. */
  lemma ClearedRowsAgree(a: BoardState, b: BoardState)
    requires |a.rows| == |b.rows|
    requires forall i :: 0 <= i < |a.rows| ==> |a.rows[i].states| == |b.rows[i].states|
    ensures ClearBoard(a).rows == ClearBoard(b).rows
  {
  }

  /**
   A board whose rows are all empty and as wide as its target is valid as
   soon as its counters are in range.
   */
  lemma EmptyRowsValid(b: BoardState)
    requires |b.rows| == |RowScores| && |b.word| > 0
    requires forall i :: 0 <= i < |b.rows| ==> b.rows[i] == EmptyRow(|b.word|)
    requires 0 <= b.rowIndex < |b.rows| && !b.gameIsOver
    requires 0 <= b.columnIndex <= |b.word|
    requires 0 <= b.bonusUsages <= BonusUsagesPerRound && (b.isBonusButtonActive <==> b.bonusUsages > 0)
    requires 0 <= b.score && b.lastScore == b.score
    ensures Valid(b)
  {
    assert CorrectCount(EmptyRow(|b.word|).states) == 0;
  }

  /** `SetRandomWord` with the draw k: the target becomes solution k, normalized. */
  function SetRandomWord(d: Dictionary, b: BoardState, k: int): (r: BoardState)
    requires 0 <= k < |d.solutions|
    ensures r.word == NormalizeSolution(d.solutions[k])
    ensures r == b.(word := r.word)
  {
    b.(word := NormalizeSolution(d.solutions[k]))
  }

  /**
   The board after `Start`, with draw k for the first target: six empty rows
   as wide as the target, nothing scored, the full bonus grant.
   */
  function Start(d: Dictionary, k: int): (b: BoardState)
    requires 0 <= k < |d.solutions| && |NormalizeSolution(d.solutions[k])| > 0
    ensures Valid(b)
    ensures Accepting(b)
    ensures b.word == NormalizeSolution(d.solutions[k])
    ensures forall r :: 0 <= r < |b.rows| ==> b.rows[r] == EmptyRow(|b.word|)
    ensures b.rowIndex == 0 && b.columnIndex == 0 && b.score == 0
    ensures b.bonusUsages == BonusUsagesPerRound
    ensures !b.needNewWord && !b.invalidWordShown
  {
    var word := NormalizeSolution(d.solutions[k]);
    var rows := seq(|RowScores|, _ => EmptyRow(|word|));
    assert CorrectCount(EmptyRow(|word|).states) == 0;
    BoardState(rows, 0, 0, word, 0, 0, false, BonusUsagesPerRound, true, false, true, false, false)
  }

  /**
   A letter key. Only `a` to `z` are keys the board reads; a letter is taken
   only while keyboard input is accepted and the row has a free column, and
   then it fills the tile at the column index in Occupied state and moves
   the column index one on. Nothing else changes.
   */
  function TypeLetter(b: BoardState, c: char): (r: BoardState)
    requires Valid(b)
    ensures Valid(r)
    ensures r != b ==> Accepting(b) && IsLowerLetter(c) && b.columnIndex < |b.word|
    ensures Accepting(b) && IsLowerLetter(c) && b.columnIndex < |b.word| ==>
      && r.columnIndex == b.columnIndex + 1
      && r.rows[b.rowIndex] == SetTile(b.rows[b.rowIndex], b.columnIndex, c, Occupied)
      && (forall i :: 0 <= i < |b.rows| && i != b.rowIndex ==> r.rows[i] == b.rows[i])
      && r == b.(rows := r.rows, columnIndex := r.columnIndex)
  {
    if !Accepting(b) || b.columnIndex >= |b.word| || !IsLowerLetter(c) then b
    else WithTile(b, b.columnIndex, c, Occupied).(columnIndex := b.columnIndex + 1)
  }

  /**
   The Backspace key. While keyboard input is accepted, the column index
   steps back (never below 0), the tile there becomes empty, and the "not a
   word" notice is hidden; otherwise nothing changes.
   */
  function Backspace(b: BoardState): (r: BoardState)
    requires Valid(b)
    ensures Valid(r)
    ensures !Accepting(b) ==> r == b
    ensures Accepting(b) ==>
      && r.columnIndex == (if b.columnIndex > 0 then b.columnIndex - 1 else 0)
      && r.rows[b.rowIndex] == SetTile(b.rows[b.rowIndex], r.columnIndex, NoLetter, Empty)
      && (forall i :: 0 <= i < |b.rows| && i != b.rowIndex ==> r.rows[i] == b.rows[i])
      && !r.invalidWordShown
      && r == b.(rows := r.rows, columnIndex := r.columnIndex, invalidWordShown := false)
  {
    if !Accepting(b) then b
    else
      var column := if b.columnIndex - 1 > 0 then b.columnIndex - 1 else 0;
      WithTile(b, column, NoLetter, Empty).(columnIndex := column, invalidWordShown := false)
  }

  /**
   Backspace undoes a typed letter: typing into an empty tile and deleting
   it again restores the board, provided no "not a word" notice was up.
   */
  lemma BackspaceUndoesTypeLetter(b: BoardState, c: char)
    requires Valid(b) && Accepting(b) && IsLowerLetter(c) && b.columnIndex < |b.word|
    requires b.rows[b.rowIndex].letters[b.columnIndex] == NoLetter
    requires b.rows[b.rowIndex].states[b.columnIndex] == Empty
    requires !b.invalidWordShown
    ensures Backspace(TypeLetter(b, c)) == b
  {
    var row, column := b.rows[b.rowIndex], b.columnIndex;
    var typed := SetTile(row, column, c, Occupied);
    var w := WithTile(b, column, c, Occupied);
    var t := w.(columnIndex := column + 1);
    assert TypeLetter(b, c) == t;
    assert SetTile(typed, column, NoLetter, Empty) == row;
    var u := WithTile(t, column, NoLetter, Empty);
    assert u.rows == b.rows[b.rowIndex := typed][b.rowIndex := row] == b.rows;
    assert Backspace(t) == u.(columnIndex := column, invalidWordShown := false);
  }

  /**
   `NextWord` with draw k: when a new word is due, draws it and grants the
   bonus uses afresh; in every case clears the board, restarts at row 0,
   ends any game over and shows the Next Level button.
   */
  function NextWord(d: Dictionary, b: BoardState, k: int): (r: BoardState)
    requires 0 <= k < |d.solutions|
    ensures r.word == (if b.needNewWord then NormalizeSolution(d.solutions[k]) else b.word)
    ensures b.needNewWord ==> r.bonusUsages == BonusUsagesPerRound && r.isBonusButtonActive
    ensures !b.needNewWord ==> r.bonusUsages == b.bonusUsages && r.isBonusButtonActive == b.isBonusButtonActive
    ensures r.rows == ClearBoard(b).rows && r.rowIndex == 0 && r.columnIndex == 0
    ensures !r.gameIsOver && r.nextLevelPending
    ensures r.score == b.score && r.lastScore == b.lastScore && r.needNewWord == b.needNewWord
    ensures r.invalidWordShown == b.invalidWordShown && r.enabled == b.enabled
    ensures r == b.(rows := r.rows, rowIndex := 0, columnIndex := 0, word := r.word, bonusUsages := r.bonusUsages,
                    isBonusButtonActive := r.isBonusButtonActive, gameIsOver := false, nextLevelPending := true)
  {
    var drawn :=
      if b.needNewWord then
        SetRandomWord(d, b, k).(bonusUsages := BonusUsagesPerRound, isBonusButtonActive := true)
      else b;
    ClearBoard(drawn.(gameIsOver := false)).(rowIndex := 0, nextLevelPending := true)
  }

  /**
   The end of every scored submission: the row index moves one on, the
   column index goes back to 0, the game is over and input handling off
   once no row is left, and the last score is brought up to the score.
   */
  function Advance(b: BoardState): (r: BoardState)
    ensures r.rowIndex == b.rowIndex + 1 && r.columnIndex == 0
    ensures r.gameIsOver <==> b.gameIsOver || r.rowIndex >= |b.rows|
    ensures r.enabled <==> b.enabled && r.rowIndex < |b.rows|
    ensures r.lastScore == r.score
    ensures r == b.(rowIndex := r.rowIndex, columnIndex := 0, gameIsOver := r.gameIsOver,
                    enabled := r.enabled, lastScore := b.score)
  {
    var advanced := b.(rowIndex := b.rowIndex + 1, columnIndex := 0);
    var checked :=
      if advanced.rowIndex >= |advanced.rows| then advanced.(gameIsOver := true, enabled := false)
      else advanced;
    checked.(lastScore := checked.score)
  }

  /** An unsubmitted row as the scorer leaves it against the target word. */
  function ScoredRow(word: string, row: Row): (scored: Row)
    requires RowFits(row, word) && Unsubmitted(row)
    ensures scored.letters == row.letters
    ensures |scored.states| == |word|
    ensures scored.states == Evaluate(word, row.letters)
  {
    ScoreRowMatchesEvaluate(word, row.letters, row.states);
    Row(row.letters, ScoreRow(word, row.letters, row.states).states)
  }

  /**
   The first effects of a winning submission: the scored row is written,
   the current row's points are added and a new word becomes due. Every row
   keeps its width.
   */
  function Credited(b: BoardState): (r: BoardState)
    requires 0 <= b.rowIndex < |b.rows| && b.rowIndex < |RowScores|
    requires RowFits(b.rows[b.rowIndex], b.word) && Unsubmitted(b.rows[b.rowIndex])
    ensures |r.rows| == |b.rows|
    ensures forall i :: 0 <= i < |b.rows| ==> |r.rows[i].states| == |b.rows[i].states|
    ensures r.rows[b.rowIndex].letters == b.rows[b.rowIndex].letters
    ensures r.rows[b.rowIndex].states == Evaluate(b.word, b.rows[b.rowIndex].letters)
    ensures forall i :: 0 <= i < |b.rows| && i != b.rowIndex ==> r.rows[i] == b.rows[i]
    ensures r.score == b.score + RowScore(b.rowIndex) && r.needNewWord
    ensures r == b.(rows := r.rows, score := r.score, needNewWord := true)
  {
    var row := ScoredRow(b.word, b.rows[b.rowIndex]);
    b.(rows := b.rows[b.rowIndex := row], score := b.score + RowScores[b.rowIndex], needNewWord := true)
  }

  /**
   What a submitted guess equal to the target does before the step to the
   next row: the scored row is written, the current row's points are added
   to the score, a new word is due and drawn (draw k), and the board is
   cleared with the bonus uses granted afresh and Next Level pending.
   */
  function Rewarded(d: Dictionary, b: BoardState, k: int): (r: BoardState)
    requires 0 <= b.rowIndex < |b.rows| && b.rowIndex < |RowScores| && DrawFits(d, k, |b.word|)
    requires RowFits(b.rows[b.rowIndex], b.word) && Unsubmitted(b.rows[b.rowIndex])
    requires b.rows[b.rowIndex].letters == b.word
    ensures r.rows == ClearBoard(b).rows && r.rowIndex == 0 && r.columnIndex == 0
    ensures r.word == NormalizeSolution(d.solutions[k])
    ensures r.score == b.score + RowScore(b.rowIndex) && r.lastScore == b.lastScore
    ensures r.needNewWord && r.nextLevelPending && !r.gameIsOver && r.enabled == b.enabled
    ensures r.bonusUsages == BonusUsagesPerRound && r.isBonusButtonActive
    ensures r.invalidWordShown == b.invalidWordShown
    ensures r == b.(rows := r.rows, rowIndex := 0, columnIndex := 0, word := r.word, score := r.score,
                    needNewWord := true, bonusUsages := BonusUsagesPerRound, isBonusButtonActive := true,
                    gameIsOver := false, nextLevelPending := true)
  {
    var won := Credited(b);
    var next := NextWord(d, won, k);
    var reset := ClearBoard(next).(rowIndex := 0);
    ClearedRowsAgree(won, b);
    ClearedRowsAgree(next, b);
    reset
  }

  /**
   A submitted guess equal to the target: `Rewarded`, then the step to the
   next row, which leaves the row index at 1 on the fresh board.
   */
  function WinRound(d: Dictionary, b: BoardState, k: int): (r: BoardState)
    requires Valid(b) && !b.gameIsOver && DrawFits(d, k, |b.word|)
    requires b.rows[b.rowIndex].letters == b.word
    ensures Valid(r) && |r.word| == |b.word|
    ensures r.score == b.score + RowScore(b.rowIndex)
    ensures r.word == NormalizeSolution(d.solutions[k])
    ensures r.rowIndex == 1 && r.columnIndex == 0
    ensures r.nextLevelPending && !r.gameIsOver && r.needNewWord && r.enabled == b.enabled
    ensures r.bonusUsages == BonusUsagesPerRound
    ensures r.rows == ClearBoard(b).rows
    ensures r.invalidWordShown == b.invalidWordShown
    ensures r == b.(rows := r.rows, rowIndex := 1, columnIndex := 0, word := r.word, score := r.score,
                    lastScore := r.score, needNewWord := true, bonusUsages := BonusUsagesPerRound,
                    isBonusButtonActive := true, gameIsOver := false, nextLevelPending := true)
  {
    var w := Rewarded(d, b, k);
    var r := Advance(w);
    assert forall i :: 0 <= i < |r.rows| ==> r.rows[i] == EmptyRow(|r.word|);
    EmptyRowsValid(r);
    r
  }

  /**
   A submitted guess different from the target: the row keeps the verdicts
   the scorer gives its letters, which cannot all be Correct, and play moves
   to the next row, ending the game when none is left.
   */
  function MissRound(b: BoardState): (r: BoardState)
    requires Valid(b) && !b.gameIsOver
    requires b.rows[b.rowIndex].letters != b.word
    ensures Valid(r)
    ensures !HasWon(r.rows[b.rowIndex].states)
    ensures r.score == b.score && r.word == b.word
    ensures r.rowIndex == b.rowIndex + 1 && r.columnIndex == 0
    ensures r.gameIsOver <==> r.rowIndex == |RowScores|
    ensures r.rows == b.rows[b.rowIndex := Row(b.rows[b.rowIndex].letters, Evaluate(b.word, b.rows[b.rowIndex].letters))]
    ensures r == b.(rows := r.rows, rowIndex := r.rowIndex, columnIndex := 0, gameIsOver := r.gameIsOver,
                    enabled := b.enabled && !r.gameIsOver)
  {
    var row := ScoredRow(b.word, b.rows[b.rowIndex]);
    EvaluateWinsExactlyOnTarget(b.word, row.letters);
    ScoredRowAdvanced(b, row);
    Advance(b.(rows := b.rows[b.rowIndex := row]))
  }

  /**
   `SubmitRow` with draw k (used only if the guess wins).

   - When the game is over, nothing changes.
   - When the row's word is not in the dictionary, only the "not a word"
     notice is raised.
   - Otherwise the row is scored, and the guess wins exactly when the
     scorer finds every letter in place, which is when it equals the target
     (`WinRound`); any other guess is a miss (`MissRound`).
   */
  function SubmitRow(d: Dictionary, b: BoardState, k: int): (r: BoardState)
    requires Valid(b) && DrawFits(d, k, |b.word|)
    ensures Valid(r) && |r.word| == |b.word|
    ensures r.score >= b.score
    ensures b.gameIsOver ==> r == b
    ensures !b.gameIsOver && !IsValidWord(d.validWords, b.rows[b.rowIndex].letters) ==>
      r == b.(invalidWordShown := true)
    ensures !b.gameIsOver && IsValidWord(d.validWords, b.rows[b.rowIndex].letters) ==>
      if b.rows[b.rowIndex].letters == b.word then r == WinRound(d, b, k) else r == MissRound(b)
  {
    if b.gameIsOver then b
    else
      var row := b.rows[b.rowIndex];
      if !IsValidWord(d.validWords, row.letters) then b.(invalidWordShown := true)
      else
        var e := ScoreRow(b.word, row.letters, row.states);
        if e.correctCount == |b.word| then WinRound(d, b, k) else MissRound(b)
  }

  /**
   The Enter key: submits the row, but only while keyboard input is accepted
   and the row is full; otherwise nothing changes.
   */
  function Enter(d: Dictionary, b: BoardState, k: int): (r: BoardState)
    requires Valid(b) && DrawFits(d, k, |b.word|)
    ensures Valid(r) && |r.word| == |b.word| && r.score >= b.score
    ensures r != b ==> Accepting(b) && b.columnIndex == |b.word|
    ensures Accepting(b) && b.columnIndex == |b.word| ==> r == SubmitRow(d, b, k)
  {
    if !Accepting(b) || b.columnIndex < |b.word| then b
    else SubmitRow(d, b, k)
  }

  /** The first position whose tile is not Correct, or the row length if there is none. */
  function FirstNotCorrect(states: seq<TileState>): (i: nat)
    ensures i <= |states|
    ensures forall j :: 0 <= j < i ==> states[j] == Correct
    ensures i < |states| ==> states[i] != Correct
  {
    if |states| == 0 || states[0] != Correct then 0
    else 1 + FirstNotCorrect(states[1..])
  }

  /** Tile j of a row shows the target's letter, in Correct state. */
  function RevealTile(row: Row, word: string, j: int): (r: Row)
    requires RowFits(row, word) && 0 <= j < |word|
    ensures RowFits(r, word)
    ensures Unsubmitted(row) ==> Unsubmitted(r)
    ensures r.letters[j] == word[j] && r.states[j] == Correct
    ensures forall i :: 0 <= i < |word| && i != j ==> r.letters[i] == row.letters[i] && r.states[i] == row.states[i]
    ensures CorrectCount(r.states) <= CorrectCount(row.states) + 1
  {
    CorrectCountUpdate(row.states, j, Correct);
    SetTile(row, j, word[j], Correct)
  }

  /**
   The row after one bonus use with the random position p: the target's
   letter is revealed in Correct state at the first tile that is not Correct
   yet, if there is one, and at position p; every other tile is unchanged.
   */
  function BonusRow(row: Row, word: string, p: int): (r: Row)
    requires RowFits(row, word) && 0 <= p < |word|
    ensures RowFits(r, word)
    ensures Unsubmitted(row) ==> Unsubmitted(r)
    ensures CorrectCount(r.states) <= CorrectCount(row.states) + 2
    ensures r.letters[p] == word[p] && r.states[p] == Correct
    ensures var first := FirstNotCorrect(row.states);
      && (first < |word| ==> r.letters[first] == word[first] && r.states[first] == Correct)
      && (forall j :: 0 <= j < |word| && j != p && j != first ==>
            r.letters[j] == row.letters[j] && r.states[j] == row.states[j])
  {
    var first := FirstNotCorrect(row.states);
    var revealed := if first < |word| then RevealTile(row, word, first) else row;
    RevealTile(revealed, word, p)
  }

  /**
   `UseBonus` with the random position p. While uses remain, the current
   row becomes its `BonusRow`, the column index moves past p, one use is
   spent and the button stays active only if uses remain. With no use left
   nothing changes. After the game is lost the row index is past the last
   row; the row lookup fails there before anything is written, so nothing
   changes either.
   */
  function UseBonus(b: BoardState, p: int): (r: BoardState)
    requires Valid(b) && 0 <= p < |b.word|
    ensures Valid(r)
    ensures b.bonusUsages == 0 || b.gameIsOver ==> r == b
    ensures b.bonusUsages > 0 && !b.gameIsOver ==>
      && r.rows == b.rows[b.rowIndex := BonusRow(b.rows[b.rowIndex], b.word, p)]
      && r.bonusUsages == b.bonusUsages - 1
      && r.columnIndex == p + 1
      && r == b.(rows := r.rows, columnIndex := p + 1, bonusUsages := r.bonusUsages,
                 isBonusButtonActive := r.isBonusButtonActive)
  {
    if b.bonusUsages > 0 && b.rowIndex < |b.rows| then
      var used := b.bonusUsages - 1;
      CurrentRowReplaced(b, BonusRow(b.rows[b.rowIndex], b.word, p), p + 1, used);
      b.(rows := b.rows[b.rowIndex := BonusRow(b.rows[b.rowIndex], b.word, p)],
         columnIndex := p + 1, bonusUsages := used, isBonusButtonActive := used > 0)
    else b
  }

  /**
   `TryAgain`: a cleared board for the SAME target, no game over, input
   handling on, and the bonus uses granted afresh. The score is untouched.
   */
  function TryAgain(b: BoardState): (r: BoardState)
    requires Valid(b)
    ensures Valid(r)
    ensures r.word == b.word && r.score == b.score
    ensures r.rowIndex == 0 && r.columnIndex == 0 && !r.gameIsOver && r.enabled
    ensures r.nextLevelPending == b.nextLevelPending
    ensures r.bonusUsages == BonusUsagesPerRound
    ensures r.rows == ClearBoard(b).rows
    ensures r.invalidWordShown == b.invalidWordShown
    ensures r == b.(rows := r.rows, rowIndex := 0, columnIndex := 0, needNewWord := false, gameIsOver := false,
                    bonusUsages := BonusUsagesPerRound, isBonusButtonActive := true, enabled := true)
  {
    ClearedRowsFit(b, b.word);
    ClearBoard(b).(needNewWord := false, gameIsOver := false, enabled := true,
                   bonusUsages := BonusUsagesPerRound, isBonusButtonActive := true)
  }

  /**
   `NewGame` with draw k: a cleared board for a newly drawn target, no game
   over, input handling on, and the bonus uses granted afresh. The score is
   untouched.
   */
  function NewGame(d: Dictionary, b: BoardState, k: int): (r: BoardState)
    requires Valid(b) && DrawFits(d, k, |b.word|)
    ensures Valid(r)
    ensures r.word == NormalizeSolution(d.solutions[k]) && r.score == b.score
    ensures r.rowIndex == 0 && r.columnIndex == 0 && !r.gameIsOver && r.enabled
    ensures r.nextLevelPending == b.nextLevelPending
    ensures r.bonusUsages == BonusUsagesPerRound
    ensures r.rows == ClearBoard(b).rows
    ensures r.invalidWordShown == b.invalidWordShown
    ensures r == b.(rows := r.rows, rowIndex := 0, columnIndex := 0, word := r.word, needNewWord := false,
                    gameIsOver := false, bonusUsages := BonusUsagesPerRound, isBonusButtonActive := true,
                    enabled := true)
  {
    ClearedRowsFit(b, NormalizeSolution(d.solutions[k]));
    SetRandomWord(d, ClearBoard(b), k).(needNewWord := false, bonusUsages := BonusUsagesPerRound,
                                        isBonusButtonActive := true, gameIsOver := false, enabled := true)
  }

  /**
   `NextLevel` with draw k: a cleared board for a newly drawn target at row
   0, the bonus uses granted afresh, Next Level no longer pending and no
   game over. Input handling is left as it was, so keyboard input is
   accepted again exactly when it was switched on. The score is untouched.
   */
  function NextLevel(d: Dictionary, b: BoardState, k: int): (r: BoardState)
    requires Valid(b) && DrawFits(d, k, |b.word|)
    ensures Valid(r)
    ensures !r.nextLevelPending && !r.gameIsOver && r.enabled == b.enabled
    ensures Accepting(r) <==> b.enabled
    ensures r.word == NormalizeSolution(d.solutions[k]) && r.score == b.score
    ensures r.rowIndex == 0 && r.columnIndex == 0
    ensures r.bonusUsages == BonusUsagesPerRound
    ensures r.rows == ClearBoard(b).rows
    ensures r.invalidWordShown == b.invalidWordShown
    ensures r == b.(rows := r.rows, rowIndex := 0, columnIndex := 0, word := r.word, needNewWord := true,
                    bonusUsages := BonusUsagesPerRound, isBonusButtonActive := true, gameIsOver := false,
                    nextLevelPending := false)
  {
    var drawn := SetRandomWord(d, b.(needNewWord := true), k);
    var r := ClearBoard(drawn.(bonusUsages := BonusUsagesPerRound, isBonusButtonActive := true))
      .(rowIndex := 0, nextLevelPending := false, gameIsOver := false);
    assert forall i :: 0 <= i < |r.rows| ==> r.rows[i] == EmptyRow(|r.word|);
    EmptyRowsValid(r);
    r
  }

  /** One input to the board: a key, a button, with the random draw it needs. */
  datatype Command =
    | TypeKey(key: char)
    | BackspaceKey
    | EnterKey(draw: int)
    | Bonus(position: int)
    | TryAgainButton
    | NewGameButton(draw: int)
    | NextLevelButton(draw: int)

  /** A keyboard command, as opposed to a button. */
  predicate IsKeyboard(cmd: Command) {
    cmd.TypeKey? || cmd.BackspaceKey? || cmd.EnterKey?
  }

  /**
   The random values a command carries are ones the random source can
   produce: a drawn solution as wide as the board, a bonus position inside
   the row.
   */
  predicate Admissible(d: Dictionary, width: int, cmd: Command) {
    match cmd
    case EnterKey(k) => DrawFits(d, k, width)
    case Bonus(p) => 0 <= p < width
    case NewGameButton(k) => DrawFits(d, k, width)
    case NextLevelButton(k) => DrawFits(d, k, width)
    case _ => true
  }

  /**
   The board's response to one command. Every command keeps the board
   valid and as wide as before. The score never falls, and it rises only by
   a win, by exactly the points of the row the win happened on. Keys change
   nothing while input handling is off, the game is over or Next Level is
   pending; the bonus button changes nothing once the game is over.
   */
  function Step(d: Dictionary, b: BoardState, cmd: Command): (r: BoardState)
    requires Valid(b) && Admissible(d, |b.word|, cmd)
    ensures Valid(r) && |r.word| == |b.word|
    ensures b.score <= r.score <= b.score + |RowScores|
    ensures r.score != b.score ==>
      && cmd.EnterKey? && b.rowIndex < |b.rows|
      && r.score == b.score + RowScore(b.rowIndex)
      && r.nextLevelPending
    ensures !Accepting(b) && IsKeyboard(cmd) ==> r == b
    ensures b.gameIsOver && cmd.Bonus? ==> r == b
  {
    if IsKeyboard(cmd) then KeyStep(d, b, cmd) else ButtonStep(d, b, cmd)
  }

  /** `Step` for the keys: the keyboard handler of the board. */
  function KeyStep(d: Dictionary, b: BoardState, cmd: Command): (r: BoardState)
    requires Valid(b) && Admissible(d, |b.word|, cmd) && IsKeyboard(cmd)
    ensures Valid(r) && |r.word| == |b.word|
    ensures b.score <= r.score <= b.score + |RowScores|
    ensures r.score != b.score ==>
      && cmd.EnterKey? && b.rowIndex < |b.rows|
      && r.score == b.score + RowScore(b.rowIndex)
      && r.nextLevelPending
    ensures !Accepting(b) ==> r == b
  {
    match cmd
    case TypeKey(c) => TypeLetter(b, c)
    case BackspaceKey => Backspace(b)
    case EnterKey(k) => Enter(d, b, k)
  }

  /** `Step` for the buttons: none of them changes the score. */
  function ButtonStep(d: Dictionary, b: BoardState, cmd: Command): (r: BoardState)
    requires Valid(b) && Admissible(d, |b.word|, cmd) && !IsKeyboard(cmd)
    ensures Valid(r) && |r.word| == |b.word|
    ensures r.score == b.score
    ensures b.gameIsOver && cmd.Bonus? ==> r == b
  {
    match cmd
    case Bonus(p) => UseBonus(b, p)
    case TryAgainButton => TryAgain(b)
    case NewGameButton(k) => NewGame(d, b, k)
    case NextLevelButton(k) => NextLevel(d, b, k)
  }

  /**
   The board after a sequence of commands. It stays valid and as wide as
   the start, and the score grows by at most a first-row win per command.
   */
  function Run(d: Dictionary, b: BoardState, cmds: seq<Command>): (r: BoardState)
    requires Valid(b)
    requires forall i :: 0 <= i < |cmds| ==> Admissible(d, |b.word|, cmds[i])
    ensures Valid(r) && |r.word| == |b.word|
    ensures b.score <= r.score <= b.score + |cmds| * |RowScores|
    decreases |cmds|
  {
    if |cmds| == 0 then b
    else
      var next := Step(d, b, cmds[0]);
      var rest := cmds[1..];
      assert forall i :: 0 <= i < |rest| ==> Admissible(d, |next.word|, rest[i]) by {
        forall i | 0 <= i < |rest|
          ensures Admissible(d, |next.word|, rest[i])
        {
          assert rest[i] == cmds[i + 1];
        }
      }
      var r := Run(d, next, rest);
      assert |cmds| * |RowScores| == |rest| * |RowScores| + |RowScores|;
      r
  }
}
