/**
 * Feedback patterns (solver.py, class WordlePattern): the two-pass scoring of a
 * guess against an answer, with Wordle's duplicate-letter rule, and the text form
 * of a pattern.
 */
module Pattern {
  import opened Wrappers
  import opened Seqs
  import opened Words

  const GRAY := 0
  const YELLOW := 1
  const GREEN := 2

  const ALL_GREEN: seq<int> := [GREEN, GREEN, GREEN, GREEN, GREEN]

  predicate IsMark(m: int) {
    GRAY <= m <= GREEN
  }

  /** Exactly five marks, each gray, yellow or green. */
  predicate ValidPattern(p: seq<int>) {
    |p| == Length && forall i :: 0 <= i < |p| ==> IsMark(p[i])
  }

  /**
   * The scoring's working state: the marks so far and the answer letters not yet
   * consumed (a consumed letter is None, as the source writes None into its copy).
   */
  datatype Scratch = Scratch(marks: seq<int>, letters: seq<Option<char>>)

  /** State after the first pass: exact matches are green and their letters consumed. */
  function AfterGreens(guess: string, answer: string): Scratch
    requires IsWord(guess) && IsWord(answer)
  {
    Scratch(seq(Length, i requires 0 <= i < Length => if guess[i] == answer[i] then GREEN else GRAY),
            seq(Length, i requires 0 <= i < Length => if guess[i] == answer[i] then None else Some(answer[i])))
  }

  /** One step of the second pass at position i. */
  function YellowStep(guess: string, st: Scratch, i: nat): Scratch
    requires IsWord(guess) && |st.marks| == Length && |st.letters| == Length && i < Length
  {
    if st.marks[i] == GRAY && Some(guess[i]) in st.letters then
      Scratch(st.marks[i := YELLOW], st.letters[FirstIndex(st.letters, Some(guess[i])) := None])
    else
      st
  }

  /** State after the second pass has visited positions 0 .. k-1. */
  function AfterYellows(guess: string, answer: string, k: nat): (st: Scratch)
    requires IsWord(guess) && IsWord(answer) && k <= Length
    ensures |st.marks| == Length && |st.letters| == Length
  {
    if k == 0 then AfterGreens(guess, answer)
    else YellowStep(guess, AfterYellows(guess, answer, k - 1), k - 1)
  }

  /** The feedback pattern of guess against answer. */
  function Score(guess: string, answer: string): (p: seq<int>)
    requires IsWord(guess) && IsWord(answer)
    ensures ValidPattern(p)
    ensures forall i :: 0 <= i < Length ==> (p[i] == GREEN <==> guess[i] == answer[i])
  {
    ScratchFacts(guess, answer, Length);
    AfterYellows(guess, answer, Length).marks
  }

  /** `get_pattern`: the two in-place passes over the pattern and the answer's letters. */
  method GetPattern(guess: string, answer: string) returns (pattern: seq<int>)
    requires IsWord(guess) && IsWord(answer)
    ensures pattern == Score(guess, answer)
    ensures ValidPattern(pattern)
    ensures forall i :: 0 <= i < Length ==> (pattern[i] == GREEN <==> guess[i] == answer[i])
  {
    pattern := seq(Length, _ => GRAY);
    var answerLetters := seq(|answer|, i requires 0 <= i < |answer| => Some(answer[i]));
    for i := 0 to Length
      invariant |pattern| == Length && |answerLetters| == Length
      invariant forall j :: 0 <= j < Length ==>
                  pattern[j] == (if j < i && guess[j] == answer[j] then GREEN else GRAY)
      invariant forall j :: 0 <= j < Length ==>
                  answerLetters[j] == (if j < i && guess[j] == answer[j] then None else Some(answer[j]))
    {
      if guess[i] == answer[i] {
        pattern := pattern[i := GREEN];
        answerLetters := answerLetters[i := None];
      }
    }
    assert Scratch(pattern, answerLetters) == AfterYellows(guess, answer, 0);
    for i := 0 to Length
      invariant Scratch(pattern, answerLetters) == AfterYellows(guess, answer, i)
    {
      if pattern[i] == GRAY && Some(guess[i]) in answerLetters {
        pattern := pattern[i := YELLOW];
        answerLetters := answerLetters[FirstIndex(answerLetters, Some(guess[i])) := None];
      }
    }
    ScoreShape(guess, answer);
  }

  /** What stays true of the working state throughout the second pass. */
  predicate ScratchInvariant(guess: string, answer: string, st: Scratch)
    requires IsWord(guess) && IsWord(answer) && |st.marks| == Length && |st.letters| == Length
  {
    && (forall j :: 0 <= j < Length ==> IsMark(st.marks[j]))
    && (forall j :: 0 <= j < Length ==> (st.marks[j] == GREEN <==> guess[j] == answer[j]))
    && (forall j :: 0 <= j < Length ==> st.letters[j] == None || st.letters[j] == Some(answer[j]))
    && (forall j :: 0 <= j < Length && st.marks[j] == YELLOW ==> guess[j] != answer[j] && guess[j] in answer)
  }

  lemma {:induction false} ScratchFacts(guess: string, answer: string, k: nat)
    requires IsWord(guess) && IsWord(answer) && k <= Length
    ensures ScratchInvariant(guess, answer, AfterYellows(guess, answer, k))
  {
    if k > 0 {
      ScratchFacts(guess, answer, k - 1);
      var st := AfterYellows(guess, answer, k - 1);
      var i := k - 1;
      if st.marks[i] == GRAY && Some(guess[i]) in st.letters {
        var idx := FirstIndex(st.letters, Some(guess[i]));
        assert answer[idx] == guess[i];
      }
    }
  }

  /**
   * Pattern shape: five marks in {0,1,2}; a position is green exactly when guess
   * and answer agree there; a yellow position disagrees and its letter occurs in
   * the answer.
   */
  lemma ScoreShape(guess: string, answer: string)
    requires IsWord(guess) && IsWord(answer)
    ensures ValidPattern(Score(guess, answer))
    ensures forall i :: 0 <= i < Length ==> (Score(guess, answer)[i] == GREEN <==> guess[i] == answer[i])
    ensures forall i :: 0 <= i < Length && Score(guess, answer)[i] == YELLOW ==>
              guess[i] != answer[i] && guess[i] in answer
  {
    ScratchFacts(guess, answer, Length);
  }

  /** A word scored against itself is all green. */
  lemma SelfMatch(w: string)
    requires IsWord(w)
    ensures Score(w, w) == ALL_GREEN
  {
    ScoreShape(w, w);
  }

  // ---- Duplicate letters -------------------------------------------------------

  /** Positions below n whose guess letter is c and whose mark is not gray. */
  function Marked(guess: string, marks: seq<int>, c: char, n: nat): nat
    requires n <= |guess| && n <= |marks|
  {
    if n == 0 then 0
    else Marked(guess, marks, c, n - 1) + (if guess[n - 1] == c && marks[n - 1] != GRAY then 1 else 0)
  }

  /** Positions below n whose guess letter is c and whose mark is gray. */
  function Unmarked(guess: string, marks: seq<int>, c: char, n: nat): nat
    requires n <= |guess| && n <= |marks|
  {
    if n == 0 then 0
    else Unmarked(guess, marks, c, n - 1) + (if guess[n - 1] == c && marks[n - 1] == GRAY then 1 else 0)
  }

  lemma {:induction false} MarkedSplit(guess: string, marks: seq<int>, c: char, n: nat)
    requires n <= |guess| && n <= |marks|
    ensures Marked(guess, marks, c, n) + Unmarked(guess, marks, c, n) == CountUpTo(guess, c, n)
    ensures Unmarked(guess, marks, c, n) > 0 <==>
              exists j :: 0 <= j < n && guess[j] == c && marks[j] == GRAY
    ensures Marked(guess, marks, c, n) > 0 <==>
              exists j :: 0 <= j < n && guess[j] == c && marks[j] != GRAY
  {
    if n > 0 {
      MarkedSplit(guess, marks, c, n - 1);
    }
  }

  /** Turning a gray position yellow moves it from the unmarked to the marked count. */
  lemma {:induction false} MarkedUpdate(guess: string, marks: seq<int>, c: char, j: nat, n: nat)
    requires n <= |guess| && n <= |marks| && j < |marks| && marks[j] == GRAY
    ensures Marked(guess, marks[j := YELLOW], c, n) == Marked(guess, marks, c, n) + (if j < n && guess[j] == c then 1 else 0)
    ensures Unmarked(guess, marks[j := YELLOW], c, n) + (if j < n && guess[j] == c then 1 else 0) == Unmarked(guess, marks, c, n)
  {
    if n > 0 {
      MarkedUpdate(guess, marks, c, j, n - 1);
    }
  }

  /** After the first pass, marked plus unconsumed occurrences of c make up the answer's. */
  lemma {:induction false} GreenBalance(guess: string, answer: string, c: char, n: nat)
    requires IsWord(guess) && IsWord(answer) && n <= Length
    ensures Marked(guess, AfterGreens(guess, answer).marks, c, n)
            + CountUpTo(AfterGreens(guess, answer).letters, Some(c), n) == CountUpTo(answer, c, n)
  {
    if n > 0 {
      GreenBalance(guess, answer, c, n - 1);
    }
  }

  predicate Balanced(guess: string, answer: string, c: char, k: nat, st: Scratch)
    requires IsWord(guess) && IsWord(answer) && k <= Length && |st.marks| == Length && |st.letters| == Length
  {
    && Marked(guess, st.marks, c, Length) + CountUpTo(st.letters, Some(c), Length) == CountUpTo(answer, c, Length)
    && (Unmarked(guess, st.marks, c, k) > 0 ==> CountUpTo(st.letters, Some(c), Length) == 0)
  }

  /**
   * Through the second pass: marked plus unconsumed occurrences of c equal the
   * answer's count, and once a c stayed gray no c is left to consume.
   */
  lemma {:induction false} LetterBalance(guess: string, answer: string, c: char, k: nat)
    requires IsWord(guess) && IsWord(answer) && k <= Length
    ensures Balanced(guess, answer, c, k, AfterYellows(guess, answer, k))
  {
    if k == 0 {
      GreenBalance(guess, answer, c, Length);
    } else {
      LetterBalance(guess, answer, c, k - 1);
      var st := AfterYellows(guess, answer, k - 1);
      var i := k - 1;
      if st.marks[i] == GRAY && Some(guess[i]) in st.letters {
        var idx := FirstIndex(st.letters, Some(guess[i]));
        MarkedUpdate(guess, st.marks, c, i, Length);
        MarkedUpdate(guess, st.marks, c, i, i);
        CountUpdate(st.letters, idx, None, Some(c), Length);
      } else {
        if guess[i] == c && st.marks[i] == GRAY {
          CountPositive(st.letters, Some(c), Length);
        }
      }
    }
  }

  /**
   * Duplicate letters: for every letter c, the non-gray positions holding c number
   * min(#c in guess, #c in answer); in particular never more than the answer has.
   */
  lemma DuplicateLetters(guess: string, answer: string, c: char)
    requires IsWord(guess) && IsWord(answer)
    ensures Marked(guess, Score(guess, answer), c, Length) == Min(Count(guess, c), Count(answer, c))
    ensures Marked(guess, Score(guess, answer), c, Length) <= Count(answer, c)
  {
    var st := AfterYellows(guess, answer, Length);
    LetterBalance(guess, answer, c, Length);
    MarkedSplit(guess, st.marks, c, Length);
  }

  // ---- Text form ---------------------------------------------------------------

  function MarkText(m: int): (c: char)
    requires IsMark(m)
    ensures c == 'G' <==> m == GREEN
    ensures c == 'Y' <==> m == YELLOW
    ensures c == '_' <==> m == GRAY
  {
    if m == GRAY then '_' else if m == YELLOW then 'Y' else 'G'
  }

  /** `pattern_to_text`: one of `_`, `Y`, `G` per mark. */
  function PatternToText(p: seq<int>): (t: string)
    requires forall i :: 0 <= i < |p| ==> IsMark(p[i])
    ensures |t| == |p|
    ensures forall i :: 0 <= i < |p| ==> (t[i] == 'G' <==> p[i] == GREEN)
    ensures forall i :: 0 <= i < |p| ==> (t[i] == 'Y' <==> p[i] == YELLOW)
    ensures forall i :: 0 <= i < |p| ==> (t[i] == '_' <==> p[i] == GRAY)
  {
    seq(|p|, i requires 0 <= i < |p| => MarkText(p[i]))
  }

  /** The text form loses nothing: different patterns print differently. */
  lemma TextInjective(p: seq<int>, q: seq<int>)
    requires forall i :: 0 <= i < |p| ==> IsMark(p[i])
    requires forall i :: 0 <= i < |q| ==> IsMark(q[i])
    requires PatternToText(p) == PatternToText(q)
    ensures p == q
  {
    forall i | 0 <= i < |p|
      ensures p[i] == q[i]
    {
      assert MarkText(p[i]) == PatternToText(q)[i];
    }
  }
}
