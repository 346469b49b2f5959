/**
 The guess scorer of the Wordle board: the two passes of `Board.SubmitRow`
 that turn a submitted row of letters into per-tile verdicts.

 The scorer is modelled as the code writes it, not as textbook Wordle: an
 exact match in the first pass drops the FIRST character of the pool of
 remaining target letters, whatever letter that is, and the second pass then
 hands out wrong-spot marks from that pool.
 */
module Evaluator {

  /** The tile states the board uses. */
  datatype TileState = Empty | Occupied | Correct | WrongSpot | Incorrect

  /** The three states a scored tile ends in. */
  predicate IsVerdict(s: TileState) {
    s == Correct || s == WrongSpot || s == Incorrect
  }

  /** A tile the second pass still has to decide. */
  predicate Pending(s: TileState) {
    s != Correct && s != Incorrect
  }

  /** A row has been won when every one of its tiles is Correct. */
  predicate HasWon(states: seq<TileState>) {
    forall i :: 0 <= i < |states| ==> states[i] == Correct
  }

  /** Every tile in Correct state holds the target's letter at its position. */
  predicate CorrectTilesHoldTarget(target: string, guess: string, states: seq<TileState>) {
    && |guess| == |target|
    && |states| == |target|
    && forall i :: 0 <= i < |states| && states[i] == Correct ==> guess[i] == target[i]
  }

  /** The number of positions j >= i where the guess has the target's letter. */
  function MatchesFrom(target: string, guess: string, i: nat): (m: nat)
    requires |guess| == |target| && i <= |guess|
    ensures m <= |guess| - i
    ensures m == |guess| - i <==> forall j :: i <= j < |guess| ==> guess[j] == target[j]
    decreases |guess| - i
  {
    if i == |guess| then 0
    else (if guess[i] == target[i] then 1 else 0) + MatchesFrom(target, guess, i + 1)
  }

  /** The number of exact matches between a guess and the target. */
  function ExactMatches(target: string, guess: string): (m: nat)
    requires |guess| == |target|
    ensures m <= |target|
    ensures m == |target| <==> guess == target
  {
    var m := MatchesFrom(target, guess, 0);
    assert m == |target| ==> guess == target by {
      if m == |target| {
        assert forall j :: 0 <= j < |guess| ==> guess[j] == target[j];
      }
    }
    m
  }

  /** What the first pass does to the tile at one position. */
  function FirstPassMark(target: string, g: char, t: char, s: TileState): TileState {
    if g == t then Correct
    else if g !in target then Incorrect
    else s
  }

  /** State of a scan: tile states, the pool of unclaimed target letters, and
      how many tiles the pass has marked Correct. */
  datatype Scan = Scan(states: seq<TileState>, remaining: string, count: nat)

  /**
   The first loop of the scorer, from position i on. An exact match marks
   the tile Correct and drops the first character of `remaining`; a letter
   absent from the whole target marks the tile Incorrect; any other tile
   keeps its state. The pool never runs dry before a drop, because it holds
   one character for every position not yet matched.
   */
  function FirstPass(target: string, guess: string, states: seq<TileState>,
                     i: nat, remaining: string, count: nat): (r: Scan)
    requires |guess| == |target| && |states| == |target| && i <= |target|
    requires count <= i && |remaining| + count == |target|
    ensures |r.states| == |states|
    ensures count <= r.count <= |target| && |r.remaining| + r.count == |target|
    decreases |target| - i
  {
    if i == |target| then Scan(states, remaining, count)
    else if guess[i] == target[i] then
      FirstPass(target, guess, states[i := Correct], i + 1, remaining[1..], count + 1)
    else if guess[i] !in target then
      FirstPass(target, guess, states[i := Incorrect], i + 1, remaining, count)
    else
      FirstPass(target, guess, states, i + 1, remaining, count)
  }

  /**
   What the first loop computes, position by position: each tile from i on
   gets its first-pass mark, the count grows by the number of exact matches,
   and the pool loses exactly one leading character per exact match.
   */
  lemma FirstPassSummary(target: string, guess: string, states: seq<TileState>,
                          i: nat, remaining: string, count: nat)
    requires |guess| == |target| && |states| == |target| && i <= |target|
    requires count <= i && |remaining| + count == |target|
    ensures var r := FirstPass(target, guess, states, i, remaining, count);
      && |r.states| == |states|
      && (forall j :: 0 <= j < i ==> r.states[j] == states[j])
      && (forall j :: i <= j < |states| ==>
            r.states[j] == FirstPassMark(target, guess[j], target[j], states[j]))
      && r.count == count + MatchesFrom(target, guess, i)
      && r.remaining == remaining[MatchesFrom(target, guess, i)..]
  {
    FirstPassMarks(target, guess, states, i, remaining, count);
    FirstPassCounts(target, guess, states, i, remaining, count);
  }

  /** The tile half of `FirstPassSummary`. */
  lemma {:induction false} FirstPassMarks(target: string, guess: string, states: seq<TileState>,
                                          i: nat, remaining: string, count: nat)
    requires |guess| == |target| && |states| == |target| && i <= |target|
    requires count <= i && |remaining| + count == |target|
    ensures var r := FirstPass(target, guess, states, i, remaining, count);
      && (forall j :: 0 <= j < i ==> r.states[j] == states[j])
      && (forall j :: i <= j < |states| ==>
            r.states[j] == FirstPassMark(target, guess[j], target[j], states[j]))
    decreases |target| - i
  {
    if i == |target| {
    } else if guess[i] == target[i] {
      var s' := states[i := Correct];
      assert FirstPass(target, guess, states, i, remaining, count)
          == FirstPass(target, guess, s', i + 1, remaining[1..], count + 1);
      FirstPassMarks(target, guess, s', i + 1, remaining[1..], count + 1);
    } else if guess[i] !in target {
      var s' := states[i := Incorrect];
      assert FirstPass(target, guess, states, i, remaining, count)
          == FirstPass(target, guess, s', i + 1, remaining, count);
      FirstPassMarks(target, guess, s', i + 1, remaining, count);
    } else {
      FirstPassMarks(target, guess, states, i + 1, remaining, count);
    }
  }

  /** The count and pool half of `FirstPassSummary`. */
  lemma {:induction false} FirstPassCounts(target: string, guess: string, states: seq<TileState>,
                                           i: nat, remaining: string, count: nat)
    requires |guess| == |target| && |states| == |target| && i <= |target|
    requires count <= i && |remaining| + count == |target|
    ensures var r := FirstPass(target, guess, states, i, remaining, count);
      && r.count == count + MatchesFrom(target, guess, i)
      && r.remaining == remaining[MatchesFrom(target, guess, i)..]
    decreases |target| - i
  {
    if i == |target| {
    } else if guess[i] == target[i] {
      FirstPassCounts(target, guess, states[i := Correct], i + 1, remaining[1..], count + 1);
      assert remaining[1..][MatchesFrom(target, guess, i + 1)..] == remaining[MatchesFrom(target, guess, i)..];
    } else if guess[i] !in target {
      FirstPassCounts(target, guess, states[i := Incorrect], i + 1, remaining, count);
    } else {
      FirstPassCounts(target, guess, states, i + 1, remaining, count);
    }
  }

  /** The first position of `c` in `s` (String.IndexOf). */
  function IndexOf(s: string, c: char): (k: nat)
    requires c in s
    ensures k < |s| && s[k] == c
    ensures forall j :: 0 <= j < k ==> s[j] != c
  {
    if s[0] == c then 0 else 1 + IndexOf(s[1..], c)
  }

  /** `s` without its character at position k (String.Remove(k, 1)). */
  function RemoveAt(s: string, k: nat): (r: string)
    requires k < |s|
    ensures |r| == |s| - 1
    ensures multiset(r) + multiset{s[k]} == multiset(s)
  {
    assert s == s[..k] + [s[k]] + s[k + 1..];
    s[..k] + s[k + 1..]
  }

  /** The letters of the tiles at positions j >= i that are in WrongSpot state. */
  function WrongSpotLetters(guess: string, states: seq<TileState>, i: nat): multiset<char>
    requires |guess| == |states| && i <= |states|
    decreases |states| - i
  {
    if i == |states| then multiset{}
    else (if states[i] == WrongSpot then multiset{guess[i]} else multiset{})
         + WrongSpotLetters(guess, states, i + 1)
  }

  /** The letters of the tiles at positions i <= k < j that are in WrongSpot state. */
  function WrongSpotBetween(guess: string, states: seq<TileState>, i: nat, j: nat): multiset<char>
    requires |guess| == |states| && i <= j <= |states|
    decreases j - i
  {
    if i == j then multiset{}
    else (if states[i] == WrongSpot then multiset{guess[i]} else multiset{})
         + WrongSpotBetween(guess, states, i + 1, j)
  }

  /** The two counts agree: the suffix count is the range count up to the end of the row. */
  lemma {:induction false} WrongSpotLettersIsBetween(guess: string, states: seq<TileState>, i: nat)
    requires |guess| == |states| && i <= |states|
    ensures WrongSpotLetters(guess, states, i) == WrongSpotBetween(guess, states, i, |states|)
    decreases |states| - i
  {
    if i < |states| {
      WrongSpotLettersIsBetween(guess, states, i + 1);
    }
  }

  /**
   The second loop of the scorer, from position i on. A tile that is neither
   Correct nor Incorrect becomes WrongSpot when its letter is still in the
   pool, and that letter's first occurrence leaves the pool; otherwise it
   becomes Incorrect. Every letter leaving the pool is the letter of a tile
   the pass marked WrongSpot.
   */
  function SecondPass(guess: string, states: seq<TileState>, i: nat, remaining: string): (r: Scan)
    requires |guess| == |states| && i <= |states|
    ensures |r.states| == |states|
    ensures |r.remaining| <= |remaining|
    decreases |states| - i
  {
    if i == |states| then Scan(states, remaining, 0)
    else if Pending(states[i]) then
      if guess[i] in remaining then
        SecondPass(guess, states[i := WrongSpot], i + 1, RemoveAt(remaining, IndexOf(remaining, guess[i])))
      else
        SecondPass(guess, states[i := Incorrect], i + 1, remaining)
    else
      SecondPass(guess, states, i + 1, remaining)
  }

  /**
   What the second loop does to each tile: tiles before i and decided tiles
   keep their state, and every pending tile from i on ends WrongSpot or
   Incorrect.
   */
  lemma {:induction false} SecondPassMarks(guess: string, states: seq<TileState>, i: nat, remaining: string)
    requires |guess| == |states| && i <= |states|
    ensures var r := SecondPass(guess, states, i, remaining);
      && |r.states| == |states|
      && (forall j :: 0 <= j < i ==> r.states[j] == states[j])
      && (forall j :: i <= j < |states| && !Pending(states[j]) ==> r.states[j] == states[j])
      && (forall j :: i <= j < |states| && Pending(states[j]) ==>
            r.states[j] == WrongSpot || r.states[j] == Incorrect)
    decreases |states| - i
  {
    if i == |states| {
    } else if Pending(states[i]) {
      if guess[i] in remaining {
        SecondPassMarks(guess, states[i := WrongSpot], i + 1, RemoveAt(remaining, IndexOf(remaining, guess[i])));
      } else {
        SecondPassMarks(guess, states[i := Incorrect], i + 1, remaining);
      }
    } else {
      SecondPassMarks(guess, states, i + 1, remaining);
    }
  }

  /**
   When the second loop marks a pending tile Incorrect, its letter is not in
   the pool the loop leaves behind: the letter was missing from the pool when
   the tile was reached, and the pool only shrinks.
   */
  lemma {:induction false} SecondPassIncorrectUnclaimable(guess: string, states: seq<TileState>, i: nat,
                                                          remaining: string)
    requires |guess| == |states| && i <= |states|
    ensures var r := SecondPass(guess, states, i, remaining);
      forall j :: i <= j < |states| && Pending(states[j]) && r.states[j] == Incorrect ==>
        guess[j] !in r.remaining
    decreases |states| - i
  {
    if i == |states| {
    } else if Pending(states[i]) {
      if guess[i] in remaining {
        var s' := states[i := WrongSpot];
        SecondPassIncorrectUnclaimable(guess, s', i + 1, RemoveAt(remaining, IndexOf(remaining, guess[i])));
        SecondPassKeeps(guess, s', i + 1, RemoveAt(remaining, IndexOf(remaining, guess[i])), i);
      } else {
        var s' := states[i := Incorrect];
        SecondPassIncorrectUnclaimable(guess, s', i + 1, remaining);
        SecondPassConservesPool(guess, s', i + 1, remaining);
        var r := SecondPass(guess, s', i + 1, remaining);
        assert multiset(r.remaining)[guess[i]] <= multiset(remaining)[guess[i]] == 0;
      }
    } else {
      SecondPassIncorrectUnclaimable(guess, states, i + 1, remaining);
    }
  }

  /** The second loop leaves the tiles before its start position alone. */
  lemma {:induction false} SecondPassKeeps(guess: string, states: seq<TileState>, i: nat, remaining: string, j: nat)
    requires |guess| == |states| && j < i <= |states|
    ensures |SecondPass(guess, states, i, remaining).states| == |states|
    ensures SecondPass(guess, states, i, remaining).states[j] == states[j]
    decreases |states| - i
  {
    if i < |states| {
      if Pending(states[i]) {
        if guess[i] in remaining {
          SecondPassKeeps(guess, states[i := WrongSpot], i + 1, RemoveAt(remaining, IndexOf(remaining, guess[i])), j);
        } else {
          SecondPassKeeps(guess, states[i := Incorrect], i + 1, remaining, j);
        }
      } else {
        SecondPassKeeps(guess, states, i + 1, remaining, j);
      }
    }
  }

  /**
   The pool the second loop leaves behind: exactly the letters of the tiles
   it marked WrongSpot have left it.
   */
  lemma {:induction false} SecondPassConservesPool(guess: string, states: seq<TileState>, i: nat, remaining: string)
    requires |guess| == |states| && i <= |states|
    ensures var r := SecondPass(guess, states, i, remaining);
      multiset(r.remaining) + WrongSpotLetters(guess, r.states, i) == multiset(remaining)
    decreases |states| - i
  {
    if i < |states| {
      if !Pending(states[i]) {
        SecondPassConservesPool(guess, states, i + 1, remaining);
        SecondPassKeeps(guess, states, i + 1, remaining, i);
      } else if guess[i] in remaining {
        ClaimConservesPool(guess, states, i, remaining);
      } else {
        SecondPassConservesPool(guess, states[i := Incorrect], i + 1, remaining);
        SecondPassKeeps(guess, states[i := Incorrect], i + 1, remaining, i);
      }
    }
  }

  /** The step of `SecondPassConservesPool` where tile i claims its letter. */
  lemma {:induction false} ClaimConservesPool(guess: string, states: seq<TileState>, i: nat, remaining: string)
    requires |guess| == |states| && i < |states| && Pending(states[i]) && guess[i] in remaining
    ensures var r := SecondPass(guess, states, i, remaining);
      multiset(r.remaining) + WrongSpotLetters(guess, r.states, i) == multiset(remaining)
    decreases |states| - i, 0
  {
    var r := SecondPass(guess, states, i, remaining);
    var s' := states[i := WrongSpot];
    var k := IndexOf(remaining, guess[i]);
    var pool := RemoveAt(remaining, k);
    assert r == SecondPass(guess, s', i + 1, pool);
    SecondPassKeeps(guess, s', i + 1, pool, i);
    SecondPassConservesPool(guess, s', i + 1, pool);
    var later := WrongSpotLetters(guess, r.states, i + 1);
    assert WrongSpotLetters(guess, r.states, i) == multiset{guess[i]} + later;
    calc {
      multiset(r.remaining) + (multiset{guess[i]} + later);
      (multiset(r.remaining) + later) + multiset{guess[i]};
      multiset(pool) + multiset{remaining[k]};
      multiset(remaining);
    }
  }

  /**
   The second loop hands out a pool letter left to right: a pending tile j
   from i on ends WrongSpot exactly when the pool it started from holds more
   copies of its letter than the WrongSpot tiles before j (from i on)
   already claimed.
   */
  lemma {:induction false} SecondPassLeftmostFirst(guess: string, states: seq<TileState>, i: nat,
                                                   remaining: string, j: nat)
    requires |guess| == |states| && i <= j < |states| && Pending(states[j])
    ensures var r := SecondPass(guess, states, i, remaining);
      r.states[j] == WrongSpot <==>
        multiset(remaining)[guess[j]] > WrongSpotBetween(guess, r.states, i, j)[guess[j]]
    decreases j - i
  {
    var r := SecondPass(guess, states, i, remaining);
    if Pending(states[i]) && guess[i] in remaining {
      var s' := states[i := WrongSpot];
      var pool := RemoveAt(remaining, IndexOf(remaining, guess[i]));
      assert r == SecondPass(guess, s', i + 1, pool);
      SecondPassKeeps(guess, s', i + 1, pool, i);
      if i < j {
        SecondPassLeftmostFirst(guess, s', i + 1, pool, j);
        assert multiset(remaining) == multiset(pool) + multiset{guess[i]};
      }
    } else if Pending(states[i]) {
      var s' := states[i := Incorrect];
      assert r == SecondPass(guess, s', i + 1, remaining);
      SecondPassKeeps(guess, s', i + 1, remaining, i);
      if i < j {
        SecondPassLeftmostFirst(guess, s', i + 1, remaining, j);
      }
    } else {
      SecondPassKeeps(guess, states, i + 1, remaining, i);
      SecondPassLeftmostFirst(guess, states, i + 1, remaining, j);
    }
  }

  /** The outcome of scoring a row: final tile states, the unclaimed pool and
      the number of exact matches the first pass counted. */
  datatype Evaluation = Evaluation(states: seq<TileState>, remaining: string, correctCount: nat)

  /**
   Scores a row whose tiles hold `guess` in states `states` against `target`:
   the first pass followed by the second, as in `Board.SubmitRow`.
   */
  function ScoreRow(target: string, guess: string, states: seq<TileState>): (e: Evaluation)
    requires |guess| == |target| && |states| == |target|
    ensures |e.states| == |target|
    ensures forall i :: 0 <= i < |target| ==> IsVerdict(e.states[i])
    ensures forall i :: 0 <= i < |target| && guess[i] == target[i] ==> e.states[i] == Correct
    ensures forall i :: 0 <= i < |target| && guess[i] !in target ==> e.states[i] == Incorrect
    ensures CorrectTilesHoldTarget(target, guess, states) ==> CorrectTilesHoldTarget(target, guess, e.states)
    ensures e.correctCount == ExactMatches(target, guess)
    ensures e.correctCount == |target| <==> guess == target
    ensures multiset(e.remaining) + WrongSpotLetters(guess, e.states, 0) == multiset(target[e.correctCount..])
    ensures |e.remaining| + |WrongSpotLetters(guess, e.states, 0)| + e.correctCount == |target|
    ensures WrongSpotLetters(guess, e.states, 0) <= multiset(target)
    ensures forall i :: 0 <= i < |target| && e.states[i] == Incorrect && states[i] != Incorrect ==>
      guess[i] !in e.remaining
  {
    var p1 := FirstPass(target, guess, states, 0, target, 0);
    var p2 := SecondPass(guess, p1.states, 0, p1.remaining);
    PassesMarkTiles(target, guess, states);
    PassesConservePool(target, guess, states);
    PassesLeaveIncorrectUnclaimable(target, guess, states);
    Evaluation(p2.states, p2.remaining, p1.count)
  }

  /** The per-tile facts `ScoreRow` states, proved about its two passes. */
  lemma PassesMarkTiles(target: string, guess: string, states: seq<TileState>)
    requires |guess| == |target| && |states| == |target|
    ensures var p1 := FirstPass(target, guess, states, 0, target, 0);
      var p2 := SecondPass(guess, p1.states, 0, p1.remaining);
      && (forall i :: 0 <= i < |target| ==> IsVerdict(p2.states[i]))
      && (forall i :: 0 <= i < |target| && guess[i] == target[i] ==> p2.states[i] == Correct)
      && (forall i :: 0 <= i < |target| && guess[i] !in target ==> p2.states[i] == Incorrect)
      && (CorrectTilesHoldTarget(target, guess, states) ==> CorrectTilesHoldTarget(target, guess, p2.states))
  {
    var p1 := FirstPass(target, guess, states, 0, target, 0);
    FirstPassSummary(target, guess, states, 0, target, 0);
    var p2 := SecondPass(guess, p1.states, 0, p1.remaining);
    SecondPassMarks(guess, p1.states, 0, p1.remaining);
    forall i | 0 <= i < |target|
      ensures IsVerdict(p2.states[i])
    {
      assert p1.states[i] == FirstPassMark(target, guess[i], target[i], states[i]);
    }
    if CorrectTilesHoldTarget(target, guess, states) {
      forall i | 0 <= i < |target| && p2.states[i] == Correct
        ensures guess[i] == target[i]
      {
        assert p1.states[i] == FirstPassMark(target, guess[i], target[i], states[i]);
      }
    }
  }

  /** The count and pool facts `ScoreRow` states, proved about its two passes. */
  lemma PassesConservePool(target: string, guess: string, states: seq<TileState>)
    requires |guess| == |target| && |states| == |target|
    ensures var p1 := FirstPass(target, guess, states, 0, target, 0);
      var p2 := SecondPass(guess, p1.states, 0, p1.remaining);
      && p1.count == ExactMatches(target, guess)
      && multiset(p2.remaining) + WrongSpotLetters(guess, p2.states, 0) == multiset(target[p1.count..])
      && |p2.remaining| + |WrongSpotLetters(guess, p2.states, 0)| + p1.count == |target|
      && WrongSpotLetters(guess, p2.states, 0) <= multiset(target)
  {
    var p1 := FirstPass(target, guess, states, 0, target, 0);
    FirstPassSummary(target, guess, states, 0, target, 0);
    var p2 := SecondPass(guess, p1.states, 0, p1.remaining);
    SecondPassConservesPool(guess, p1.states, 0, p1.remaining);
    SuffixMultiset(target, p1.count);
    assert |multiset(p2.remaining)| == |p2.remaining|;
    assert |multiset(target[p1.count..])| == |target| - p1.count;
  }

  /**
   The last fact `ScoreRow` states: a tile the passes mark Incorrect, other
   than one that came in Incorrect, has a letter the pool no longer holds.
   */
  lemma PassesLeaveIncorrectUnclaimable(target: string, guess: string, states: seq<TileState>)
    requires |guess| == |target| && |states| == |target|
    ensures var p1 := FirstPass(target, guess, states, 0, target, 0);
      var p2 := SecondPass(guess, p1.states, 0, p1.remaining);
      forall i :: 0 <= i < |target| && p2.states[i] == Incorrect && states[i] != Incorrect ==>
        guess[i] !in p2.remaining
  {
    var p1 := FirstPass(target, guess, states, 0, target, 0);
    FirstPassSummary(target, guess, states, 0, target, 0);
    var p2 := SecondPass(guess, p1.states, 0, p1.remaining);
    SecondPassMarks(guess, p1.states, 0, p1.remaining);
    SecondPassIncorrectUnclaimable(guess, p1.states, 0, p1.remaining);
    SecondPassConservesPool(guess, p1.states, 0, p1.remaining);
    forall i | 0 <= i < |target| && p2.states[i] == Incorrect && states[i] != Incorrect
      ensures guess[i] !in p2.remaining
    {
      assert p1.states[i] == FirstPassMark(target, guess[i], target[i], states[i]);
      if guess[i] !in target {
        assert multiset(p2.remaining) <= multiset(p1.remaining) <= multiset(target) by {
          SuffixMultiset(target, p1.count);
        }
        assert multiset(p2.remaining)[guess[i]] == 0;
      }
    }
  }

  /** The letters of a suffix of `s` are among the letters of `s`. */
  lemma SuffixMultiset(s: string, k: nat)
    requires k <= |s|
    ensures multiset(s[k..]) <= multiset(s)
  {
    assert s == s[..k] + s[k..];
  }

  /**
   Two state rows the second pass cannot tell apart from position i on:
   equal before i, and from i on pending at the same positions and equal
   wherever a tile is already decided.
   */
  predicate AgreeFrom(s1: seq<TileState>, s2: seq<TileState>, i: nat) {
    && |s1| == |s2|
    && (forall j :: 0 <= j < i && j < |s1| ==> s1[j] == s2[j])
    && (forall j :: i <= j < |s1| ==>
          && (Pending(s1[j]) <==> Pending(s2[j]))
          && (!Pending(s1[j]) ==> s1[j] == s2[j]))
  }

  /** The second pass reads a pending tile's state only as "pending". */
  lemma {:induction false} SecondPassIgnoresPendingKind(guess: string, s1: seq<TileState>, s2: seq<TileState>,
                                                        i: nat, remaining: string)
    requires |guess| == |s1| && i <= |s1| && AgreeFrom(s1, s2, i)
    ensures SecondPass(guess, s1, i, remaining) == SecondPass(guess, s2, i, remaining)
    decreases |s1| - i
  {
    if i == |s1| {
      assert s1 == s2;
    } else if Pending(s1[i]) {
      if guess[i] in remaining {
        assert AgreeFrom(s1[i := WrongSpot], s2[i := WrongSpot], i + 1);
        SecondPassIgnoresPendingKind(guess, s1[i := WrongSpot], s2[i := WrongSpot], i + 1,
                                     RemoveAt(remaining, IndexOf(remaining, guess[i])));
      } else {
        assert AgreeFrom(s1[i := Incorrect], s2[i := Incorrect], i + 1);
        SecondPassIgnoresPendingKind(guess, s1[i := Incorrect], s2[i := Incorrect], i + 1, remaining);
      }
    } else {
      assert AgreeFrom(s1, s2, i + 1);
      SecondPassIgnoresPendingKind(guess, s1, s2, i + 1, remaining);
    }
  }

  /** A row freshly typed: every tile Occupied. */
  function Typed(n: nat): (states: seq<TileState>)
    ensures |states| == n
    ensures forall i :: 0 <= i < n ==> states[i] == Occupied
  {
    seq(n, _ => Occupied)
  }

  /**
   The pool of target letters the scorer leaves unclaimed, recovered from
   its verdicts: the target after the characters the exact matches dropped
   from its front, less the letters of the WrongSpot tiles.
   */
  function LeftoverPool(target: string, guess: string, v: seq<TileState>): multiset<char>
    requires |guess| == |target| && |v| == |target|
  {
    multiset(target[ExactMatches(target, guess)..]) - WrongSpotLetters(guess, v, 0)
  }

  /** The verdicts for `guess` typed in full against `target`. */
  function Evaluate(target: string, guess: string): (v: seq<TileState>)
    requires |guess| == |target|
    ensures |v| == |target|
    ensures forall i :: 0 <= i < |target| ==> IsVerdict(v[i])
    ensures forall i :: 0 <= i < |target| ==> (v[i] == Correct <==> guess[i] == target[i])
    ensures forall i :: 0 <= i < |target| && guess[i] !in target ==> v[i] == Incorrect
    ensures WrongSpotLetters(guess, v, 0) <= multiset(target[ExactMatches(target, guess)..])
    ensures WrongSpotLetters(guess, v, 0) <= multiset(target)
    ensures forall i :: 0 <= i < |target| && v[i] == Incorrect ==>
      guess[i] !in LeftoverPool(target, guess, v)
  {
    var states := Typed(|target|);
    assert CorrectTilesHoldTarget(target, guess, states);
    var e := ScoreRow(target, guess, states);
    assert multiset(e.remaining) == LeftoverPool(target, guess, e.states);
    e.states
  }

  /**
   Which tile of a shared letter the scorer credits: a tile that is not an
   exact match and comes in undecided ends WrongSpot exactly when the target
   letters left after the exact matches hold more copies of its letter than
   the WrongSpot tiles to its left. The leftmost such tiles claim the letter
   first.
   */
  lemma ScoreRowLeftmostFirst(target: string, guess: string, states: seq<TileState>, i: nat)
    requires |guess| == |target| && |states| == |target| && i < |target|
    requires guess[i] != target[i] && Pending(states[i])
    ensures var e := ScoreRow(target, guess, states);
      e.states[i] == WrongSpot <==>
        multiset(target[e.correctCount..])[guess[i]] > WrongSpotBetween(guess, e.states, 0, i)[guess[i]]
  {
    var p1 := FirstPass(target, guess, states, 0, target, 0);
    FirstPassSummary(target, guess, states, 0, target, 0);
    assert p1.states[i] == FirstPassMark(target, guess[i], target[i], states[i]);
    if guess[i] in target {
      SecondPassLeftmostFirst(guess, p1.states, 0, p1.remaining, i);
    } else {
      SecondPassMarks(guess, p1.states, 0, p1.remaining);
      SuffixMultiset(target, p1.count);
      assert multiset(target[p1.count..])[guess[i]] == 0;
    }
  }

  /**
   The verdict the scorer gives tile i of a freshly typed row, described
   without the scorer and in terms of the verdicts to its left: an exact
   match is Correct; any other tile is WrongSpot or Incorrect, and WrongSpot
   exactly when the target letters left after the exact matches hold more
   copies of its letter than the WrongSpot tiles to its left.
   */
  predicate VerdictAt(target: string, guess: string, v: seq<TileState>, i: nat)
    requires |guess| == |target| && |v| == |target| && i < |target|
  {
    if guess[i] == target[i] then v[i] == Correct
    else
      && (v[i] == WrongSpot || v[i] == Incorrect)
      && (v[i] == WrongSpot <==>
            multiset(target[ExactMatches(target, guess)..])[guess[i]]
              > WrongSpotBetween(guess, v, 0, i)[guess[i]])
  }

  /** A row of verdicts every tile of which meets `VerdictAt`. */
  predicate ScoredLeftToRight(target: string, guess: string, v: seq<TileState>)
    requires |guess| == |target|
  {
    |v| == |target| && forall i :: 0 <= i < |target| ==> VerdictAt(target, guess, v, i)
  }

  /** `Evaluate` gives the verdicts `ScoredLeftToRight` describes. */
  lemma EvaluateScoresLeftToRight(target: string, guess: string)
    requires |guess| == |target|
    ensures ScoredLeftToRight(target, guess, Evaluate(target, guess))
  {
    var typed := Typed(|target|);
    var e := ScoreRow(target, guess, typed);
    assert Evaluate(target, guess) == e.states;
    forall i | 0 <= i < |target|
      ensures VerdictAt(target, guess, e.states, i)
    {
      if guess[i] != target[i] {
        ScoreRowLeftmostFirst(target, guess, typed, i);
      }
    }
  }

  /** The WrongSpot letters between i and j depend only on the tiles between i and j. */
  lemma {:induction false} WrongSpotBetweenAgree(guess: string, v: seq<TileState>, w: seq<TileState>,
                                                 i: nat, j: nat)
    requires |guess| == |v| == |w| && i <= j <= |v|
    requires forall k :: i <= k < j ==> v[k] == w[k]
    ensures WrongSpotBetween(guess, v, i, j) == WrongSpotBetween(guess, w, i, j)
    decreases j - i
  {
    if i < j {
      WrongSpotBetweenAgree(guess, v, w, i + 1, j);
    }
  }

  /**
   Two verdict rows that both meet `ScoredLeftToRight` and agree before
   position k agree at k: the verdict at k depends only on the ones before.
   */
  lemma ScoredLeftToRightStep(target: string, guess: string, v: seq<TileState>, w: seq<TileState>, k: nat)
    requires |guess| == |target| && ScoredLeftToRight(target, guess, v) && ScoredLeftToRight(target, guess, w)
    requires k < |target| && forall m :: 0 <= m < k ==> v[m] == w[m]
    ensures v[k] == w[k]
  {
    assert VerdictAt(target, guess, v, k) && VerdictAt(target, guess, w, k);
    WrongSpotBetweenAgree(guess, v, w, 0, k);
  }

  /** Only one row of verdicts meets `ScoredLeftToRight`. */
  lemma ScoredLeftToRightUnique(target: string, guess: string, v: seq<TileState>, w: seq<TileState>)
    requires |guess| == |target| && ScoredLeftToRight(target, guess, v) && ScoredLeftToRight(target, guess, w)
    ensures v == w
  {
    var k := 0;
    while k < |v|
      invariant 0 <= k <= |v|
      invariant forall m :: 0 <= m < k ==> v[m] == w[m]
    {
      ScoredLeftToRightStep(target, guess, v, w, k);
      k := k + 1;
    }
  }

  /**
   `ScoredLeftToRight` pins down every verdict: a row of verdicts meets it
   exactly when it is `Evaluate`'s.
   */
  lemma ScoredLeftToRightIsEvaluate(target: string, guess: string, v: seq<TileState>)
    requires |guess| == |target|
    ensures ScoredLeftToRight(target, guess, v) <==> v == Evaluate(target, guess)
  {
    EvaluateScoresLeftToRight(target, guess);
    if ScoredLeftToRight(target, guess, v) {
      ScoredLeftToRightUnique(target, guess, v, Evaluate(target, guess));
    }
  }

  /**
   A row scored from the states it holds before submission gets the same
   verdicts as the same letters freshly typed, provided no tile is already
   Incorrect and every Correct tile holds the target's letter: the verdicts
   depend on the letters only.
   */
  lemma ScoreRowMatchesEvaluate(target: string, guess: string, states: seq<TileState>)
    requires |guess| == |target| && |states| == |target|
    requires CorrectTilesHoldTarget(target, guess, states)
    requires forall i :: 0 <= i < |states| ==> states[i] != Incorrect
    ensures ScoreRow(target, guess, states).states == Evaluate(target, guess)
  {
    var typed := Typed(|target|);
    FirstPassSummary(target, guess, states, 0, target, 0);
    FirstPassSummary(target, guess, typed, 0, target, 0);
    var p := FirstPass(target, guess, states, 0, target, 0);
    var q := FirstPass(target, guess, typed, 0, target, 0);
    assert AgreeFrom(p.states, q.states, 0) by {
      forall j | 0 <= j < |p.states|
        ensures && (Pending(p.states[j]) <==> Pending(q.states[j]))
                && (!Pending(p.states[j]) ==> p.states[j] == q.states[j])
      {
        assert p.states[j] == FirstPassMark(target, guess[j], target[j], states[j]);
        assert q.states[j] == FirstPassMark(target, guess[j], target[j], typed[j]);
      }
    }
    SecondPassIgnoresPendingKind(guess, p.states, q.states, 0, p.remaining);
  }

  /** A guess equal to the target is all Correct, with every position counted. */
  lemma EvaluateTargetIsAllCorrect(w: string)
    ensures HasWon(Evaluate(w, w))
    ensures ScoreRow(w, w, Typed(|w|)).correctCount == |w|
  {
  }

  /** A row is won exactly when the guess is the target. */
  lemma EvaluateWinsExactlyOnTarget(target: string, guess: string)
    requires |guess| == |target|
    ensures HasWon(Evaluate(target, guess)) <==> guess == target
  {
    if guess != target {
      var j :| 0 <= j < |guess| && guess[j] != target[j];
      assert Evaluate(target, guess)[j] != Correct;
    }
  }

  /**
   Because an exact match drops the pool's first character instead of the
   matched one, a letter can be credited more often than the target holds
   it: against "crane", the guess "eeeee" gets a wrong-spot `e` and a
   correct `e`, two credits for the target's single `e`.
   */
  lemma RepeatedLetterOverCredited()
    ensures Evaluate("crane", "eeeee") == [WrongSpot, Incorrect, Incorrect, Incorrect, Correct]
    ensures multiset("crane")['e'] == 1
  {
    var p1 := [Occupied, Occupied, Occupied, Occupied, Correct];
    CraneFirstPass();
    CraneSecondPass();
    assert ScoreRow("crane", "eeeee", Typed(5)).states == SecondPass("eeeee", p1, 0, "rane").states;
  }

  lemma CraneFirstPass()
    ensures FirstPass("crane", "eeeee", Typed(5), 0, "crane", 0)
         == Scan([Occupied, Occupied, Occupied, Occupied, Correct], "rane", 1)
  {
    var t, g := "crane", "eeeee";
    assert 'e' == t[4];
    assert MatchesFrom(t, g, 4) == 1;
    assert MatchesFrom(t, g, 0) == 1;
    var p1 := FirstPass(t, g, Typed(5), 0, t, 0);
    assert p1.states == [Occupied, Occupied, Occupied, Occupied, Correct];
  }

  lemma CraneSecondPass()
    ensures SecondPass("eeeee", [Occupied, Occupied, Occupied, Occupied, Correct], 0, "rane").states
         == [WrongSpot, Incorrect, Incorrect, Incorrect, Correct]
  {
    CraneClaimsE();
    assert SecondPass("eeeee", [WrongSpot, Occupied, Occupied, Occupied, Correct], 1, "ran").states
        == [WrongSpot, Incorrect, Incorrect, Incorrect, Correct] by {
      assert [WrongSpot, Occupied, Occupied, Occupied, Correct][1 := Incorrect]
          == [WrongSpot, Incorrect, Occupied, Occupied, Correct];
      assert [WrongSpot, Incorrect, Occupied, Occupied, Correct][2 := Incorrect]
          == [WrongSpot, Incorrect, Incorrect, Occupied, Correct];
      assert [WrongSpot, Incorrect, Incorrect, Occupied, Correct][3 := Incorrect]
          == [WrongSpot, Incorrect, Incorrect, Incorrect, Correct];
    }
  }

  /** The first tile of "eeeee" claims the only `e` left in the pool "rane". */
  lemma CraneClaimsE()
    ensures SecondPass("eeeee", [Occupied, Occupied, Occupied, Occupied, Correct], 0, "rane")
         == SecondPass("eeeee", [WrongSpot, Occupied, Occupied, Occupied, Correct], 1, "ran")
  {
    RaneLosesE();
    assert [Occupied, Occupied, Occupied, Occupied, Correct][0 := WrongSpot]
        == [WrongSpot, Occupied, Occupied, Occupied, Correct];
  }

  /** The pool "rane" gives up its `e`, its last character. */
  lemma RaneLosesE()
    ensures 'e' in "rane" && IndexOf("rane", 'e') == 3 && RemoveAt("rane", 3) == "ran"
  {
    var pool := "rane";
    assert pool[3] == 'e';
    assert pool[1..] == "ane" && "ane"[1..] == "ne" && "ne"[1..] == "e";
    assert IndexOf("e", 'e') == 0;
    assert IndexOf("ne", 'e') == 1;
    assert IndexOf("ane", 'e') == 2;
    assert pool[..3] + pool[4..] == "ran";
  }

  /**
   Repeated letters in the guess that the target also repeats: against
   "alloy", the guess "lolly" credits exactly two of its three `l`s.
   */
  lemma RepeatedLetterWithinTargetCount()
    ensures Evaluate("alloy", "lolly") == [WrongSpot, WrongSpot, Correct, Incorrect, Correct]
  {
    var p1 := [Occupied, Occupied, Correct, Occupied, Correct];
    AlloyFirstPass();
    AlloySecondPass();
    assert ScoreRow("alloy", "lolly", Typed(5)).states == SecondPass("lolly", p1, 0, "loy").states;
  }

  lemma AlloyFirstPass()
    ensures FirstPass("alloy", "lolly", Typed(5), 0, "alloy", 0)
         == Scan([Occupied, Occupied, Correct, Occupied, Correct], "loy", 2)
  {
    var t, g := "alloy", "lolly";
    assert 'l' == t[1] && 'o' == t[3];
    assert MatchesFrom(t, g, 4) == 1;
    assert MatchesFrom(t, g, 2) == 2;
    assert MatchesFrom(t, g, 0) == 2;
    var p1 := FirstPass(t, g, Typed(5), 0, t, 0);
    assert p1.states == [Occupied, Occupied, Correct, Occupied, Correct];
  }

  lemma AlloySecondPass()
    ensures SecondPass("lolly", [Occupied, Occupied, Correct, Occupied, Correct], 0, "loy").states
         == [WrongSpot, WrongSpot, Correct, Incorrect, Correct]
  {
    AlloyClaimsL();
    AlloyClaimsO();
    AlloyRejectsLastL();
  }

  /** The second `l` of "lolly" finds the pool down to "y". */
  lemma AlloyRejectsLastL()
    ensures SecondPass("lolly", [WrongSpot, WrongSpot, Correct, Occupied, Correct], 2, "y").states
         == [WrongSpot, WrongSpot, Correct, Incorrect, Correct]
  {
    assert [WrongSpot, WrongSpot, Correct, Occupied, Correct][3 := Incorrect]
        == [WrongSpot, WrongSpot, Correct, Incorrect, Correct];
  }

  /** The first `l` of "lolly" claims the `l` left in the pool "loy". */
  lemma AlloyClaimsL()
    ensures SecondPass("lolly", [Occupied, Occupied, Correct, Occupied, Correct], 0, "loy")
         == SecondPass("lolly", [WrongSpot, Occupied, Correct, Occupied, Correct], 1, "oy")
  {
    assert IndexOf("loy", 'l') == 0;
    assert RemoveAt("loy", 0) == "oy";
    assert [Occupied, Occupied, Correct, Occupied, Correct][0 := WrongSpot]
        == [WrongSpot, Occupied, Correct, Occupied, Correct];
  }

  /** The `o` of "lolly" claims the `o` left in the pool "oy". */
  lemma AlloyClaimsO()
    ensures SecondPass("lolly", [WrongSpot, Occupied, Correct, Occupied, Correct], 1, "oy")
         == SecondPass("lolly", [WrongSpot, WrongSpot, Correct, Occupied, Correct], 2, "y")
  {
    assert IndexOf("oy", 'o') == 0;
    assert RemoveAt("oy", 0) == "y";
    assert [WrongSpot, Occupied, Correct, Occupied, Correct][1 := WrongSpot]
        == [WrongSpot, WrongSpot, Correct, Occupied, Correct];
  }
}
