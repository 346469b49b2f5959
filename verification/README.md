# Wordle board in Dafny

A model of the game engine of a Unity Wordle clone: the `Board` component
in `Scripts/Board.cs`. The board holds six rows of tiles, a hidden target
word drawn from a list of solutions, a score, and two bonus uses per
round, each revealing up to two tiles of the target. The player types
letters into the current row, deletes them with Backspace, and submits the
row with Enter.

When the row is submitted, it is checked against a dictionary of valid
words and then scored tile by tile:
- **Correct**: the right letter in the right place.
- **WrongSpot**: a letter still left in the pool of unclaimed target letters.
- **Incorrect**: anything else.

A win adds the points of the row it happened on (6 for the first row, down
to 1 for the last). It then draws a new target, clears the board and shows
a Next Level button. Filling all six rows without a win ends the game.
Try Again, New Game and Next Level restart play.

The project has three modules:

- `Evaluator` (`evaluator.dfy`) models the two scoring passes of
  `SubmitRow`, exactly as written.
  - `ScoreRow` is the scorer itself. `Evaluate` is the same scorer applied
    to a freshly typed row.
  - Proofs show that:
    - exact matches become Correct and only they do;
    - a letter absent from the target becomes Incorrect;
    - the win test equals "guess equals target";
    - every WrongSpot letter is paid for from the pool;
    - a tile ends Incorrect only when no unclaimed copy of its letter is
      left in the pool;
    - copies of a letter are handed out left to right, so the verdicts are
      fully determined: `ScoredLeftToRight` describes them without the
      scorer, and `Evaluate` is the only row that meets it;
    - the verdicts depend only on the row's letters.
- `Words` (`words.dfy`) models the word handling used by the board:
  - `CleanWord`, which keeps every letter of its input, lower-cased and in
    order, and the dictionary lookup `IsValidWord`;
  - the lower-casing and trimming of a drawn solution.
- `Board` (`board.dfy`) is the board as an immutable state with one pure
  transition per input: letter key, Backspace, Enter, bonus button,
  Try Again, New Game and Next Level.
  - The invariant `Valid` says:
    - the rows stay as wide as the target;
    - every Correct tile shows the target's letter;
    - the game is over exactly when the row index has passed the last row;
    - the bonus button is active exactly when uses remain;
    - the last score mirrors the score;
    - the current row holds at most two Correct tiles per bonus use spent
      (revealed by the bonus), and the rows after it hold none.
  - Every transition preserves `Valid`. `Step` and `Run` show that the
    score never falls and grows only by a win's row points.

Randomness is a parameter. A command that draws a new target carries the
index of the drawn solution. The bonus button carries the random position
it reveals. The word lists are a `Dictionary` value.

## Model

| member | source | states |
|---|---|---|
| Evaluator.ExactMatches | Scripts/Board.cs:226-237 | the number of exact matches is at most the word length, and reaches it exactly when the guess equals the target |
| Evaluator.FirstPass | Scripts/Board.cs:228-243 | the first loop keeps the row's width, and its count of matches never falls and never passes the word length. The pool always holds one character per position not yet matched, so a match never finds it empty |
| Evaluator.FirstPassSummary | Scripts/Board.cs:228-243 | the first loop marks each tile Correct on a match, Incorrect when the letter is nowhere in the target, and otherwise leaves it alone. It counts the matches, and drops that many characters from the front of the pool |
| Evaluator.IndexOf | Scripts/Board.cs:255 | the position returned holds the letter, and no earlier position does |
| Evaluator.RemoveAt | Scripts/Board.cs:255-258 | removing one character shortens the string by one and takes exactly that character out of its multiset |
| Evaluator.SecondPass | Scripts/Board.cs:245-267 | the second loop keeps the row's width and the pool of unclaimed letters only shrinks |
| Evaluator.SecondPassMarks | Scripts/Board.cs:245-267 | the second loop turns every tile that is neither Correct nor Incorrect into WrongSpot or Incorrect. It keeps every decided tile and every tile before its start |
| Evaluator.SecondPassIncorrectUnclaimable | Scripts/Board.cs:249-265 | a tile the second loop marks Incorrect has a letter that the pool it leaves behind no longer holds: the letter was missing when the tile was reached, and the pool only shrinks |
| Evaluator.SecondPassLeftmostFirst | Scripts/Board.cs:245-266 | the second loop hands out pool letters left to right: a pending tile ends WrongSpot exactly when its starting pool holds more copies of its letter than the WrongSpot tiles to its left already took |
| Evaluator.SecondPassConservesPool | Scripts/Board.cs:249-259 | the pool the second loop leaves, together with the letters of the tiles it marks WrongSpot, is exactly the pool it started with |
| Evaluator.SecondPassIgnoresPendingKind | Scripts/Board.cs:249 | the second loop treats every tile that is neither Correct nor Incorrect alike, whatever its state |
| Evaluator.ScoreRow | Scripts/Board.cs:225-267 | every tile ends Correct, WrongSpot or Incorrect. An exact match is Correct, and a letter absent from the target is Incorrect. Correct tiles keep holding target letters. The correct count is the number of exact matches, and equals the word length exactly when guess equals target. The WrongSpot letters plus the final pool are the target letters left after the matches, so the WrongSpot letters are a sub-multiset of the target. A tile that came in undecided and ends Incorrect has a letter the final pool does not hold |
| Evaluator.Evaluate | Scripts/Board.cs:225-267 | on a freshly typed row: a tile is Correct exactly when its letter is in place, and absent letters are Incorrect. The WrongSpot letters are a sub-multiset of the target letters left after the matches. A tile is Incorrect only when its letter is not in the leftover pool (`LeftoverPool`: those target letters less the WrongSpot letters) |
| Evaluator.ScoreRowLeftmostFirst | Scripts/Board.cs:225-266 | a tile that is not an exact match and comes in undecided ends WrongSpot exactly when the target letters left after the matches hold more copies of its letter than the WrongSpot tiles to its left |
| Evaluator.EvaluateScoresLeftToRight | Scripts/Board.cs:225-266 | the verdicts of a freshly typed row meet `ScoredLeftToRight`: exact matches are Correct, and every other tile is WrongSpot or Incorrect by the left-to-right rule |
| Evaluator.ScoredLeftToRightUnique | Scripts/Board.cs:245-266 | only one row of verdicts meets `ScoredLeftToRight`, because each verdict depends only on the ones to its left |
| Evaluator.ScoredLeftToRightIsEvaluate | Scripts/Board.cs:225-266 | a row of verdicts meets `ScoredLeftToRight` exactly when it is the scorer's row for that guess |
| Evaluator.ScoreRowMatchesEvaluate | Scripts/Board.cs:228-267 | scoring a row that carries bonus-revealed Correct tiles gives the same verdicts as scoring its letters freshly typed |
| Evaluator.EvaluateWinsExactlyOnTarget | Scripts/Board.cs:226-237 | a freshly typed row is scored all Correct exactly when the guess is the target |
| Evaluator.EvaluateTargetIsAllCorrect | Scripts/Board.cs:232-237 | guessing the target gives an all-Correct row with every position counted |
| Evaluator.RepeatedLetterOverCredited | Scripts/Board.cs:232-237 | against "crane", "eeeee" scores WrongSpot, Incorrect, Incorrect, Incorrect, Correct. That credits the target's single `e` twice, because a match drops the pool's first character |
| Evaluator.RepeatedLetterWithinTargetCount | Scripts/Board.cs:245-267 | against "alloy", "lolly" scores WrongSpot, WrongSpot, Correct, Incorrect, Correct |
| Words.KeepLetters | Scripts/Board.cs:361 | the filter keeps only letters, is no longer than its input, and keeps an all-letter string whole |
| Words.ToLowerCounts | Scripts/Board.cs:361 | lower-casing keeps every character: a lower-case letter occurs in the result as often as it and its upper-case form occur in the input together |
| Words.KeepLettersCounts | Scripts/Board.cs:361 | every letter of the input survives the filter, as often as it occurs |
| Words.KeepLettersAppend | Scripts/Board.cs:361 | the filter works piece by piece, so it keeps the letters in their order |
| Words.CleanWord | Scripts/Board.cs:359-362 | a cleaned word holds only lower-case letters, is no longer than the input, and a word already clean is left unchanged |
| Words.CleanWordCounts | Scripts/Board.cs:359-362 | every letter of the input survives cleaning lower-cased, as often as it occurs in either case |
| Words.CleanWordAppend | Scripts/Board.cs:359-362 | cleaning works piece by piece, so it keeps the letters in their order |
| Words.CleanWordIdempotent | Scripts/Board.cs:359-362 | cleaning twice is cleaning once |
| Words.CleanWordFixesOnlyCleanWords | Scripts/Board.cs:359-362 | cleaning leaves a word unchanged exactly when it holds only lower-case letters |
| Words.IgnoreCaseOnCleanWords | Scripts/Board.cs:351 | on cleaned words, the case-insensitive comparison is plain equality |
| Words.ScanValidWords | Scripts/Board.cs:348-356 | the lookup loop finds a match exactly when some entry from the current one on cleans to the cleaned word |
| Words.IsValidWord | Scripts/Board.cs:345-357 | a word is valid exactly when some dictionary entry cleans to the same word as it does |
| Words.ValidityDependsOnCleanWord | Scripts/Board.cs:345-357 | two words that clean alike are equally valid |
| Words.LeadingWhiteSpace | Scripts/Board.cs:118 | the leading run of white space is all white space and stops before a non-white-space character |
| Words.TrailingWhiteSpaceStart | Scripts/Board.cs:118 | the trailing run of white space is all white space and starts after a non-white-space character |
| Words.Trim | Scripts/Board.cs:118 | the trimmed word is a contiguous part of the input, everything cut off is white space, and it neither starts nor ends with white space |
| Words.NormalizeSolution | Scripts/Board.cs:117-118 | a drawn solution is kept lower-cased and trimmed: no longer than the list entry, with no upper-case letter |
| Words.NormalizeSolutionShape | Scripts/Board.cs:117-118 | a normalized solution is a contiguous part of the lower-cased entry; only white space is cut off either end, and it neither starts nor ends with white space |
| Board.CorrectCount | Scripts/Board.cs:364-372 | the number of Correct tiles is at most the row length, equals it exactly when the row is won, and is 0 exactly when no tile is Correct |
| Board.CorrectCountUpdate | Scripts/Board.cs:134-145 | overwriting one tile changes the number of Correct tiles by what leaves and what arrives |
| Board.BonusCannotCompleteRow | Scripts/Board.cs:123-173 | on a target of five letters or more, the current row of a valid board is never all Correct before it is submitted, because two bonus uses reveal at most four tiles |
| Board.RowScore | Scripts/Board.cs:32 | a win on row r earns 6 minus r points, between 1 and 6 |
| Board.SetRandomWord | Scripts/Board.cs:115-121 | the target becomes the drawn solution lower-cased and trimmed, and nothing else on the board changes |
| Board.Start | Scripts/Board.cs:26-71 | the first board, from the field defaults (score 0, game not over) and `Start` (the drawn word, no new word due, two bonus uses), is valid and accepts input. The six empty rows as wide as the word, input on and no invalid-word notice come from the scene (see "Left out") |
| Board.ClearBoard | Scripts/Board.cs:330-343 | every tile of every row is emptied and keeps its row width, both indices go to 0, and nothing else changes |
| Board.TypeLetter | Scripts/Board.cs:194-206 | a letter key `a`-`z` fills the tile at the column index in Occupied state and moves the column on. This happens only while input is accepted and the row has room; otherwise the board is unchanged |
| Board.Backspace | Scripts/Board.cs:179-186 | while input is accepted, the column index steps back but not below 0, that tile is emptied and the invalid-word notice is hidden; otherwise the board is unchanged |
| Board.BackspaceUndoesTypeLetter | Scripts/Board.cs:179-206 | typing a letter into an empty tile and pressing Backspace restores the board |
| Board.Enter | Scripts/Board.cs:187-193 | Enter changes the board only while input is accepted and the row is full, and then it submits the row |
| Board.SubmitRow | Scripts/Board.cs:213-301 | after a game over nothing changes. An invalid word only raises the notice. A valid guess wins exactly when it equals the target. The board stays valid and the score never falls |
| Board.Advance | Scripts/Board.cs:291-300 | after a scored row the row index moves one on and the column goes back to 0. The game is over exactly when it already was or no row is left, and input stays on exactly when it was on and a row is left. The last score is brought up to the score (`UpdateLastScore`, lines 464-466), and nothing else changes |
| Board.ScoredRow | Scripts/Board.cs:225-267 | the submitted row keeps its letters and shows the verdicts of `Evaluate` for them |
| Board.Credited | Scripts/Board.cs:269-275 | a win writes the row's verdicts (those of `Evaluate` for its letters) over the current row and leaves every other row alone. It adds that row's points to the score and makes a new word due, and nothing else changes |
| Board.Rewarded | Scripts/Board.cs:269-279 | a win adds the row's points and draws a new word. The board is cleared with two bonus uses and Next Level pending, and the game is not over. Input handling, the last score and the invalid-word notice are kept |
| Board.WinRound | Scripts/Board.cs:269-300 | after a win the board is valid: the row's points are added, the new word is as wide as before, Next Level is pending, and the row index ends at 1 because the step to the next row follows the reset. Input handling and the invalid-word notice are kept |
| Board.MissRound | Scripts/Board.cs:280-300 | a wrong guess keeps its verdicts on its row, and those verdicts are never all Correct. Play moves to the next row at column 0; the game is over and input off exactly when no row is left. Score and word are kept |
| Board.NextWord | Scripts/Board.cs:381-403 | when a new word is due it is drawn with two fresh bonus uses; in every case the board is cleared, the game is not over, and Next Level is pending. Nothing else changes: score, input handling and the invalid-word notice are kept |
| Board.FirstNotCorrect | Scripts/Board.cs:128-138 | the position found is the first tile not in Correct state, or the row length when all are Correct |
| Board.BonusRow | Scripts/Board.cs:127-144 | a bonus reveals the target's letter as Correct at the first tile not yet Correct and at the random position, and leaves every other tile unchanged |
| Board.UseBonus | Scripts/Board.cs:123-156 | while uses remain, the current row gets its bonus reveal, the column moves past the random position, one use is spent, and the board stays valid. With no use left, or after a lost game, the board is unchanged |
| Board.TryAgain | Scripts/Board.cs:82-92 | the board is cleared for the same target, with no game over, input on and two bonus uses. Nothing else changes: the score, Next Level and the invalid-word notice are kept |
| Board.NewGame | Scripts/Board.cs:94-108 | the board is cleared for a newly drawn target, with no game over, input on and two bonus uses. Nothing else changes: the score, Next Level and the invalid-word notice are kept |
| Board.NextLevel | Scripts/Board.cs:304-327 | the board is cleared for a newly drawn target at row 0, with two bonus uses, Next Level no longer pending and no game over. Input handling is left as it was, so input is accepted again exactly when it was on. Nothing else changes: the score and the invalid-word notice are kept |
| Board.KeyStep | Scripts/Board.cs:175-210 | every key keeps the board valid and as wide as before, does nothing while input is not accepted, and raises the score only on Enter, by the points of the winning row |
| Board.ButtonStep | Scripts/Board.cs:82-156 | every button keeps the board valid and as wide as before and leaves the score alone; the bonus does nothing after a game over |
| Board.Step | Scripts/Board.cs:175-210 | every command keeps the board valid and as wide as before. The score rises only on Enter, by the points of the winning row, and leaves Next Level pending. Keys do nothing while input is not accepted, and the bonus does nothing after a game over |
| Board.Run | Scripts/Board.cs:175-210 | over any sequence of commands the board stays valid, and the score grows by at most 6 per command |

## Left out

- The Unity lifecycle and user interface are not modelled. This covers `Awake`, `OnEnable`, `OnDisable`, the panels, the button visibility, the score texts and `UpdateBonusButtonInteractivity`. These only display state the model already holds.
- `LoadData` reads two text assets from disk. The model takes the two word lists as a `Dictionary` value instead.
- `UnityEngine.Random.Range` becomes a parameter: the draw index, and the bonus position.
- Draws are restricted to solutions whose normalised form is as wide as the board (`DrawFits`). The tile count is fixed by the scene; a shorter target would make the scorer index past the word's end.
- Input polling with `Input.GetKeyDown` is replaced by one command per frame. A frame with several keys down is not modelled; the source takes Backspace first and then the first supported letter key.
- The per-frame check of the current row at `Scripts/Board.cs:164-173` is left out. Only bonus reveals can fill a row with Correct tiles before it is submitted, and two uses reveal at most four tiles, so on a target of five letters or more the check never fires (`Board.BonusCannotCompleteRow`). On a target of four letters or fewer the bonus can fill the row with Correct tiles while the column index is still short of the end (target "crab": a bonus at position 3 and then one at position 2 leaves the column at 3). There the model keeps the row in play: keys act on it as usual, and Enter scores it as a win only once the column has reached the end.
- The second `HasWon` call at `Scripts/Board.cs:282` (with its side effects) is not modelled as a transition. `MissRound` proves that its branch cannot be taken.
- Board.Start: the model assumes the starting state that the field defaults and the Unity scene give, and that `Start` at lines 61-71 does not set: six rows of empty tiles, Next Level hidden, the invalid-word notice hidden, and the component's `enabled` flag on.
- Board.SubmitRow, Board.Credited, Board.Step, Board.Run: the score is an unbounded integer. In the source it is a 32-bit `int` (line 27), so `score += rowScore` at line 272 wraps past 2^31 - 1. That would take about 358 million first-row wins.
- `Quit` calls `Application.Quit` and has no board state to model.
- `Row` and `Tile` are not part of this model. A row is modelled as its letters and its tile states, and a row's word is taken as its tile letters in order.
- Characters are ASCII only. `char.IsLetter`, `char.IsWhiteSpace`, `ToLower` and the case-insensitive comparison are modelled on ASCII letters and ASCII white space; the .NET culture and Unicode tables are not modelled.
- `Debug.Log` on a bonus press with no uses left is not modelled; the board is unchanged.

## Behaviour worth knowing

- The usual Wordle rule says a letter is never credited more times than the target holds it. The code does not follow that rule. An exact match at line 236 drops the first character of the pool instead of the matched letter, so the matched letter can stay in the pool. The model follows the code. `Evaluator.RepeatedLetterOverCredited` shows the effect: against "crane", the guess "eeeee" gets a WrongSpot `e` and a Correct `e`. The bound that does hold is weaker: the WrongSpot letters are a sub-multiset of the whole target (`Evaluator.ScoreRow`, `Evaluator.Evaluate`).
- A win leaves the row index at 1, not 0. The reset in the win branch is followed by the unconditional step to the next row at line 291. The model keeps this (`Board.WinRound`).
- `TryAgain` keeps the target word, so a lost round can be replayed on the same word (`Board.TryAgain`).
- `NextLevel` clears the game-over flag but does not switch input handling back on. The model keeps the `enabled` flag separately, so input resumes after Next Level only if it was on (`Board.NextLevel`).
