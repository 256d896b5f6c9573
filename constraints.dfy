/**
 * Accumulated knowledge (solver.py, class WordleConstraints): fixed positions,
 * letters known present, letters excluded per position and letters known absent,
 * folded in one guess at a time, and the test of a candidate word against them.
 */
module Constraints {
  import opened Wrappers
  import opened Seqs
  import opened Words
  import opened Pattern

  /** The four components of the knowledge state, as a value. */
  datatype Knowledge = Knowledge(
    correct: map<int, char>,      // position -> letter
    present: set<char>,           // letters that must occur
    excludes: map<int, set<char>>,// position -> letters that may not stand there
    absent: set<char>)            // letters that may not occur

  const Empty := Knowledge(map[], {}, map[], {})

  /** Every recorded position is a position of a word. */
  predicate Bounded(k: Knowledge) {
    && (forall i :: i in k.correct ==> 0 <= i < Length)
    && (forall i :: i in k.excludes ==> 0 <= i < Length)
  }

  /** The excluded letters at position i (the empty set for a key never used). */
  function ExcludedAt(k: Knowledge, i: int): set<char> {
    if i in k.excludes then k.excludes[i] else {}
  }

  /** What one position of one guess teaches; a gray letter is absent only if not yet known present. */
  function Learn(k: Knowledge, i: int, letter: char, mark: int): Knowledge {
    if mark == GREEN then
      k.(correct := k.correct[i := letter], present := k.present + {letter})
    else if mark == YELLOW then
      k.(present := k.present + {letter}, excludes := k.excludes[i := ExcludedAt(k, i) + {letter}])
    else if letter !in k.present then
      k.(absent := k.absent + {letter})
    else
      k
  }

  /** Knowledge after learning positions 0 .. n-1 of a guess, in order. */
  function Fold(k: Knowledge, guess: string, pattern: seq<int>, n: nat): (r: Knowledge)
    requires n <= |guess| && n <= |pattern| && n <= Length && Bounded(k)
    ensures Bounded(r)
  {
    if n == 0 then k else Learn(Fold(k, guess, pattern, n - 1), n - 1, guess[n - 1], pattern[n - 1])
  }

  /** `add_guess` as a value: the fold runs over the positions `zip(guess, pattern)` yields. */
  function AfterGuess(k: Knowledge, guess: string, pattern: seq<int>): (r: Knowledge)
    requires Bounded(k) && |pattern| == Length
    ensures Bounded(r)
  {
    Fold(k, guess, pattern, Min(|guess|, |pattern|))
  }

  /**
   * `matches`: the four checks a candidate word must pass. A word that passes
   * them is a witness that the knowledge is consistent: no letter is both
   * required and absent, and no fixed letter is absent or excluded where it stands.
   */
  predicate Admits(k: Knowledge, word: string)
    requires Bounded(k) && IsWord(word)
    ensures Admits(k, word) ==> k.present !! k.absent
    ensures Admits(k, word) ==> forall i :: i in k.correct ==> k.correct[i] !in k.absent
    ensures Admits(k, word) ==> forall i :: i in k.correct && i in k.excludes ==> k.correct[i] !in k.excludes[i]
  {
    && (forall i :: i in k.correct ==> word[i] == k.correct[i])
    && (forall c :: c in k.present ==> c in word)
    && (forall i :: i in k.excludes ==> word[i] !in k.excludes[i])
    && (forall c :: c in k.absent ==> c !in word)
  }

  /** The letters at non-gray positions below n. */
  function Confirmed(guess: string, pattern: seq<int>, n: nat): set<char>
    requires n <= |guess| && n <= |pattern|
  {
    set i | 0 <= i < n && (pattern[i] == GREEN || pattern[i] == YELLOW) :: guess[i]
  }

  /**
   * Gray position i with letter guess[i] makes that letter absent: it is not
   * already known present, and no earlier position of this guess confirmed it.
   */
  predicate MakesAbsent(k: Knowledge, guess: string, pattern: seq<int>, i: nat)
    requires i < |guess| && i < |pattern|
  {
    pattern[i] != GREEN && pattern[i] != YELLOW && guess[i] !in k.present + Confirmed(guess, pattern, i)
  }

  /** Closed form of the fold, position by position, in terms of the knowledge before it. */
  ghost predicate FoldedFrom(k: Knowledge, guess: string, pattern: seq<int>, n: nat, r: Knowledge)
    requires n <= |guess| && n <= |pattern|
  {
    && CorrectFrom(k, guess, pattern, n, r)
    && r.present == k.present + Confirmed(guess, pattern, n)
    && ExcludesFrom(k, guess, pattern, n, r)
    && AbsentFrom(k, guess, pattern, n, r)
  }

  /** Green positions are fixed to the guess letter; other fixed positions keep their letter. */
  ghost predicate CorrectFrom(k: Knowledge, guess: string, pattern: seq<int>, n: nat, r: Knowledge)
    requires n <= |guess| && n <= |pattern|
  {
    && (forall i :: i in r.correct <==> i in k.correct || (0 <= i < n && pattern[i] == GREEN))
    && (forall i :: 0 <= i < n && pattern[i] == GREEN ==> r.correct[i] == guess[i])
    && (forall i :: i in k.correct && !(0 <= i < n && pattern[i] == GREEN) ==> r.correct[i] == k.correct[i])
  }

  /** A yellow position adds its letter to that position's exclusions. */
  ghost predicate ExcludesFrom(k: Knowledge, guess: string, pattern: seq<int>, n: nat, r: Knowledge)
    requires n <= |guess| && n <= |pattern|
  {
    && (forall i :: i in r.excludes <==> i in k.excludes || (0 <= i < n && pattern[i] == YELLOW))
    && (forall i :: ExcludedAt(r, i) ==
          ExcludedAt(k, i) + (if 0 <= i < n && pattern[i] == YELLOW then {guess[i]} else {}))
  }

  /** A letter is absent afterwards iff it was, or some position made it absent. */
  ghost predicate AbsentFrom(k: Knowledge, guess: string, pattern: seq<int>, n: nat, r: Knowledge)
    requires n <= |guess| && n <= |pattern|
  {
    forall c :: c in r.absent <==>
      c in k.absent || exists i :: 0 <= i < n && guess[i] == c && MakesAbsent(k, guess, pattern, i)
  }

  lemma {:induction false} FoldCorrect(k: Knowledge, guess: string, pattern: seq<int>, n: nat)
    requires n <= |guess| && n <= |pattern| && n <= Length && Bounded(k)
    ensures CorrectFrom(k, guess, pattern, n, Fold(k, guess, pattern, n))
  {
    if n > 0 {
      FoldCorrect(k, guess, pattern, n - 1);
    }
  }

  lemma {:induction false} FoldPresent(k: Knowledge, guess: string, pattern: seq<int>, n: nat)
    requires n <= |guess| && n <= |pattern| && n <= Length && Bounded(k)
    ensures Fold(k, guess, pattern, n).present == k.present + Confirmed(guess, pattern, n)
  {
    if n > 0 {
      FoldPresent(k, guess, pattern, n - 1);
      var i := n - 1;
      assert Confirmed(guess, pattern, n) ==
        Confirmed(guess, pattern, i) + (if pattern[i] == GREEN || pattern[i] == YELLOW then {guess[i]} else {});
    }
  }

  lemma {:induction false} FoldExcludes(k: Knowledge, guess: string, pattern: seq<int>, n: nat)
    requires n <= |guess| && n <= |pattern| && n <= Length && Bounded(k)
    ensures ExcludesFrom(k, guess, pattern, n, Fold(k, guess, pattern, n))
  {
    if n > 0 {
      FoldExcludes(k, guess, pattern, n - 1);
      var i := n - 1;
      var prev := Fold(k, guess, pattern, i);
      var r := Fold(k, guess, pattern, n);
      forall j
        ensures ExcludedAt(r, j) == ExcludedAt(prev, j) + (if j == i && pattern[i] == YELLOW then {guess[i]} else {})
      {
      }
    }
  }

  lemma {:induction false} FoldAbsent(k: Knowledge, guess: string, pattern: seq<int>, n: nat)
    requires n <= |guess| && n <= |pattern| && n <= Length && Bounded(k)
    ensures AbsentFrom(k, guess, pattern, n, Fold(k, guess, pattern, n))
  {
    if n > 0 {
      FoldAbsent(k, guess, pattern, n - 1);
      var i := n - 1;
      FoldPresent(k, guess, pattern, i);
      var prev := Fold(k, guess, pattern, i);
      var r := Fold(k, guess, pattern, n);
      forall c
        ensures c in r.absent <==>
          c in k.absent || exists j :: 0 <= j < n && guess[j] == c && MakesAbsent(k, guess, pattern, j)
      {
        if c in r.absent && c !in prev.absent {
          assert guess[i] == c && MakesAbsent(k, guess, pattern, i);
        }
        if exists j :: 0 <= j < n && guess[j] == c && MakesAbsent(k, guess, pattern, j) {
          var j :| 0 <= j < n && guess[j] == c && MakesAbsent(k, guess, pattern, j);
          if j == i {
            assert c in r.absent;
          }
        }
      }
    }
  }

  /**
   * The effects of folding a guess: green fixes the position and confirms the
   * letter, yellow confirms it and excludes it at that position, gray makes it
   * absent only when it is not known present at that moment.
   */
  lemma FoldEffects(k: Knowledge, guess: string, pattern: seq<int>, n: nat)
    requires n <= |guess| && n <= |pattern| && n <= Length && Bounded(k)
    ensures FoldedFrom(k, guess, pattern, n, Fold(k, guess, pattern, n))
  {
    FoldCorrect(k, guess, pattern, n);
    FoldPresent(k, guess, pattern, n);
    FoldExcludes(k, guess, pattern, n);
    FoldAbsent(k, guess, pattern, n);
  }

  /** Nothing the fold knew is forgotten: every set, and the fixed positions' keys, only grow. */
  lemma OnlyGrows(k: Knowledge, guess: string, pattern: seq<int>)
    requires Bounded(k) && |pattern| == Length
    ensures var r := AfterGuess(k, guess, pattern);
      && k.correct.Keys <= r.correct.Keys && k.present <= r.present && k.absent <= r.absent
      && k.excludes.Keys <= r.excludes.Keys && forall i :: ExcludedAt(k, i) <= ExcludedAt(r, i)
  {
    var n := Min(|guess|, |pattern|);
    FoldEffects(k, guess, pattern, n);
    var r := Fold(k, guess, pattern, n);
    assert k.correct.Keys <= r.correct.Keys by {
      forall i | i in k.correct
        ensures i in r.correct
      {
      }
    }
    assert k.excludes.Keys <= r.excludes.Keys by {
      forall i | i in k.excludes
        ensures i in r.excludes
      {
      }
    }
  }

  // ---- Feedback from the true answer -------------------------------------------

  /** Some position of the guess makes a letter of the answer absent. */
  predicate BlacklistsAnswerLetter(k: Knowledge, guess: string, answer: string)
    requires IsWord(guess) && IsWord(answer)
  {
    exists i :: 0 <= i < Length && guess[i] in answer && MakesAbsent(k, guess, Score(guess, answer), i)
  }

  /**
   * Folding the true feedback keeps the answer admitted exactly when no position
   * puts one of the answer's letters into the absent set.
   */
  lemma AnswerSurvivesIff(k: Knowledge, guess: string, answer: string)
    requires Bounded(k) && IsWord(guess) && IsWord(answer) && Admits(k, answer)
    ensures Admits(AfterGuess(k, guess, Score(guess, answer)), answer) <==> !BlacklistsAnswerLetter(k, guess, answer)
  {
    var p := Score(guess, answer);
    ScoreShape(guess, answer);
    FoldEffects(k, guess, p, Length);
    var r := AfterGuess(k, guess, p);
    assert r == Fold(k, guess, p, Length);
    forall i | i in r.correct
      ensures answer[i] == r.correct[i]
    {
      if !(0 <= i < Length && p[i] == GREEN) {
        assert i in k.correct;
      }
    }
    forall c | c in r.present
      ensures c in answer
    {
      if c !in k.present {
        var i :| 0 <= i < Length && (p[i] == GREEN || p[i] == YELLOW) && guess[i] == c;
        if p[i] == GREEN {
          assert answer[i] == c;
        }
      }
    }
    forall i | i in r.excludes
      ensures answer[i] !in r.excludes[i]
    {
      assert r.excludes[i] == ExcludedAt(r, i);
    }
    if BlacklistsAnswerLetter(k, guess, answer) {
      var i :| 0 <= i < Length && guess[i] in answer && MakesAbsent(k, guess, p, i);
      assert guess[i] in r.absent;
    }
  }

  /**
   * The answer is filtered out by its own feedback only when the guess repeats a
   * letter, gray at an earlier position and green or yellow at a later one.
   */
  lemma RejectionNeedsLaterRepeat(k: Knowledge, guess: string, answer: string)
    requires Bounded(k) && IsWord(guess) && IsWord(answer) && Admits(k, answer)
    requires !Admits(AfterGuess(k, guess, Score(guess, answer)), answer)
    ensures exists i, j :: 0 <= i < j < Length && guess[i] == guess[j]
              && Score(guess, answer)[i] == GRAY && Score(guess, answer)[j] != GRAY
  {
    var p := Score(guess, answer);
    AnswerSurvivesIff(k, guess, answer);
    ScoreShape(guess, answer);
    var i :| 0 <= i < Length && guess[i] in answer && MakesAbsent(k, guess, p, i);
    var c := guess[i];
    CountPositive(guess, c, Length);
    CountPositive(answer, c, Length);
    DuplicateLetters(guess, answer, c);
    MarkedSplit(guess, p, c, Length);
    var j :| 0 <= j < Length && guess[j] == c && p[j] != GRAY;
    assert i < j;
  }

  /** Guessing LEVEL against HOTEL: the gray L at position 0 is folded before the green L. */
  lemma LevelLosesHotel()
    ensures Score("LEVEL", "HOTEL") == [GRAY, GRAY, GRAY, GREEN, GREEN]
    ensures !Admits(AfterGuess(Empty, "LEVEL", Score("LEVEL", "HOTEL")), "HOTEL")
  {
    var g, a := "LEVEL", "HOTEL";
    var st0 := AfterGreens(g, a);
    assert st0.marks == [GRAY, GRAY, GRAY, GREEN, GREEN];
    assert st0.letters == [Some('H'), Some('O'), Some('T'), None, None];
    assert AfterYellows(g, a, 1) == st0 by {
      assert Some('L') !in st0.letters;
    }
    assert AfterYellows(g, a, 2) == st0 by {
      assert Some('E') !in st0.letters;
    }
    assert AfterYellows(g, a, 3) == st0 by {
      assert Some('V') !in st0.letters;
    }
    assert AfterYellows(g, a, 5) == st0;
    var p := [GRAY, GRAY, GRAY, GREEN, GREEN];
    FoldAbsent(Empty, g, p, Length);
    assert MakesAbsent(Empty, g, p, 0);
    assert 'L' in AfterGuess(Empty, g, p).absent;
  }

  /** The state object the solver updates in place. */
  class WordleConstraints {
    var correctPositions: map<int, char>
    var presentLetters: set<char>
    var positionExcludes: map<int, set<char>>
    var absentLetters: set<char>

    function Value(): Knowledge
      reads this
    {
      Knowledge(correctPositions, presentLetters, positionExcludes, absentLetters)
    }

    predicate Valid()
      reads this
    {
      Bounded(Value())
    }

    constructor ()
      ensures Valid() && Value() == Empty
    {
      correctPositions := map[];
      presentLetters := {};
      positionExcludes := map[];
      absentLetters := {};
    }

    /** `add_guess`: learn each position of `zip(guess, pattern)` in order. */
    method AddGuess(guess: string, pattern: seq<int>)
      requires Valid() && |pattern| == Length
      modifies this
      ensures Valid() && Value() == AfterGuess(old(Value()), guess, pattern)
    {
      var n := Min(|guess|, |pattern|);
      for i := 0 to n
        invariant Value() == Fold(old(Value()), guess, pattern, i)
      {
        var letter, result := guess[i], pattern[i];
        if result == GREEN {
          correctPositions := correctPositions[i := letter];
          presentLetters := presentLetters + {letter};
        } else if result == YELLOW {
          presentLetters := presentLetters + {letter};
          var excluded := if i in positionExcludes then positionExcludes[i] else {};
          positionExcludes := positionExcludes[i := excluded + {letter}];
        } else {
          if letter !in presentLetters {
            absentLetters := absentLetters + {letter};
          }
        }
      }
    }

    /** `matches`: a read-only test of a word against the current knowledge. */
    predicate Matches(word: string)
      requires Valid() && IsWord(word)
      reads this
      ensures Matches(word) ==> forall i :: i in correctPositions ==> word[i] == correctPositions[i]
      ensures Matches(word) ==> forall c :: c in absentLetters ==> c !in word
      ensures Matches(word) ==> presentLetters !! absentLetters
    {
      Admits(Value(), word)
    }
  }
}
