/**
 * The solver session (solver.py, class WordleSolver): the word lists, the
 * accumulated constraints, the remaining candidates and the guess history, with
 * make_guess, reset, get_best_guess and solve.
 */
module Session {
  import opened Wrappers
  import opened Seqs
  import opened Words
  import opened Pattern
  import opened Constraints
  import opened Selection

  /** One entry of the guess history: the upper-cased guess and its pattern. */
  type Record = (string, seq<int>)

  predicate WellFormed(history: seq<Record>) {
    forall j :: 0 <= j < |history| ==> |history[j].1| == Length
  }

  /** The knowledge the session holds after the given history. */
  function KnowledgeOf(history: seq<Record>): (k: Knowledge)
    requires WellFormed(history)
    ensures Bounded(k)
  {
    if |history| == 0 then Empty
    else AfterGuess(KnowledgeOf(history[..|history| - 1]), history[|history| - 1].0, history[|history| - 1].1)
  }

  /** The list comprehension of make_guess: the words that pass `matches`, in order. */
  function Filter(k: Knowledge, words: seq<string>): (r: seq<string>)
    requires Bounded(k) && AllWords(words)
    ensures IsSubsequence(r, words)
    ensures AllWords(r)
    ensures forall w :: w in r ==> Admits(k, w)
    ensures forall w :: w in words && Admits(k, w) ==> w in r
  {
    if |words| == 0 then []
    else if Admits(k, words[0]) then [words[0]] + Filter(k, words[1..])
    else Filter(k, words[1..])
  }

  /** The remaining candidates after replaying a history from the full answer list. */
  function Survivors(answers: seq<string>, history: seq<Record>): (r: seq<string>)
    requires AllWords(answers) && WellFormed(history)
    ensures AllWords(r)
  {
    if |history| == 0 then answers
    else Filter(KnowledgeOf(history), Survivors(answers, history[..|history| - 1]))
  }

  /** Replaying one more record is one more constraint fold and one more filter pass. */
  lemma ReplayStep(answers: seq<string>, history: seq<Record>, guess: string, pattern: seq<int>)
    requires AllWords(answers) && WellFormed(history) && |pattern| == Length
    ensures var next := history + [(guess, pattern)];
              && WellFormed(next)
              && KnowledgeOf(next) == AfterGuess(KnowledgeOf(history), guess, pattern)
              && Survivors(answers, next) == Filter(KnowledgeOf(next), Survivors(answers, history))
  {
    var next := history + [(guess, pattern)];
    assert next[..|next| - 1] == history;
  }

  /** The candidate set never grows: later guesses keep a subsequence of the earlier candidates. */
  lemma {:induction false} SurvivorsShrink(answers: seq<string>, history: seq<Record>, more: seq<Record>)
    requires AllWords(answers) && WellFormed(history + more)
    ensures WellFormed(history)
    ensures IsSubsequence(Survivors(answers, history + more), Survivors(answers, history))
  {
    assert forall j :: 0 <= j < |history| ==> history[j] == (history + more)[j];
    if |more| == 0 {
      assert history + more == history;
      SubsequenceReflexive(Survivors(answers, history));
    } else {
      var shorter := more[..|more| - 1];
      assert (history + more)[..|history + more| - 1] == history + shorter;
      SurvivorsShrink(answers, history, shorter);
      SubsequenceTransitive(Survivors(answers, history + more), Survivors(answers, history + shorter),
                            Survivors(answers, history));
    }
  }

  /** Every remaining candidate passes the accumulated constraints. */
  lemma SurvivorsAdmitted(answers: seq<string>, history: seq<Record>)
    requires AllWords(answers) && WellFormed(history)
    ensures forall w :: w in Survivors(answers, history) ==> Admits(KnowledgeOf(history), w)
  {
  }

  /** Every pattern in the history is the true feedback of its guess against answer. */
  predicate Honest(history: seq<Record>, answer: string)
    requires IsWord(answer)
  {
    forall j :: 0 <= j < |history| ==> IsWord(history[j].0) && history[j].1 == Score(history[j].0, answer)
  }

  /** A prefix of an honest history is an honest history. */
  lemma HonestPrefix(history: seq<Record>, answer: string, n: nat)
    requires IsWord(answer) && WellFormed(history) && Honest(history, answer) && n <= |history|
    ensures WellFormed(history[..n]) && Honest(history[..n], answer)
  {
    assert forall j :: 0 <= j < n ==> history[..n][j] == history[j];
  }

  /** One replay step: the answer survives the last record iff it survived the prefix and is not blacklisted by it. */
  lemma RetainStep(answers: seq<string>, history: seq<Record>, answer: string)
    requires AllWords(answers) && IsWord(answer)
    requires WellFormed(history) && Honest(history, answer) && |history| > 0
    ensures WellFormed(history[..|history| - 1]) && Honest(history[..|history| - 1], answer)
    ensures answer in Survivors(answers, history) <==>
              answer in Survivors(answers, history[..|history| - 1]) &&
              !BlacklistsAnswerLetter(KnowledgeOf(history[..|history| - 1]), history[|history| - 1].0, answer)
  {
    var n := |history| - 1;
    var prefix := history[..n];
    HonestPrefix(history, answer, n);
    var guess := history[n].0;
    assert history[n].1 == Score(guess, answer);
    var k := KnowledgeOf(prefix);
    var before := Survivors(answers, prefix);
    assert Survivors(answers, history) == Filter(AfterGuess(k, guess, Score(guess, answer)), before);
    SubsequenceMembers(Survivors(answers, history), before);
    if answer in before {
      SurvivorsAdmitted(answers, prefix);
      AnswerSurvivesIff(k, guess, answer);
    }
  }

  /** No record of the history, judged against the knowledge before it, makes a letter of the answer absent. */
  predicate NeverBlacklisted(history: seq<Record>, answer: string)
    requires IsWord(answer) && WellFormed(history) && Honest(history, answer)
  {
    |history| == 0 ||
    (NeverBlacklisted(history[..|history| - 1], answer) &&
     !BlacklistsAnswerLetter(KnowledgeOf(history[..|history| - 1]), history[|history| - 1].0, answer))
  }

  /**
   * Under true feedback, the answer stays a candidate exactly as long as no guess
   * made one of its letters absent, judged against the knowledge before that guess.
   */
  lemma {:induction false} AnswerRetainedIff(answers: seq<string>, history: seq<Record>, answer: string)
    requires AllWords(answers) && IsWord(answer) && answer in answers
    requires WellFormed(history) && Honest(history, answer)
    ensures answer in Survivors(answers, history) <==> NeverBlacklisted(history, answer)
  {
    if |history| > 0 {
      var prefix := history[..|history| - 1];
      RetainStep(answers, history, answer);
      AnswerRetainedIff(answers, prefix, answer);
    }
  }

  /** `[w.upper() for w in words if len(w) == 5]`. */
  function Normalize(words: seq<string>): (r: seq<string>)
    ensures AllWords(r) && AllUpper(r)
    ensures forall i :: 0 <= i < |words| && IsWord(words[i]) ==> Upper(words[i]) in r
    ensures forall w :: w in r ==> exists i :: 0 <= i < |words| && IsWord(words[i]) && Upper(words[i]) == w
  {
    if |words| == 0 then []
    else
      UpperIsUpper(words[0]);
      var rest := Normalize(words[1..]);
      assert forall i :: 1 <= i < |words| ==> words[i] == words[1..][i - 1];
      if IsWord(words[0]) then [Upper(words[0])] + rest else rest
  }

  /** No pattern in the list is all green. */
  predicate Unsolved(guesses: seq<Record>) {
    forall j :: 0 <= j < |guesses| ==> guesses[j].1 != ALL_GREEN
  }

  lemma HonestAppend(history: seq<Record>, guess: string, pattern: seq<int>, answer: string)
    requires IsWord(answer) && Honest(history, answer) && IsWord(guess) && pattern == Score(guess, answer)
    ensures Honest(history + [(guess, pattern)], answer)
  {
  }

  lemma UnsolvedAppend(history: seq<Record>, guess: string, pattern: seq<int>)
    requires Unsolved(history) && pattern != ALL_GREEN
    ensures Unsolved(history + [(guess, pattern)])
  {
  }

  /** One round of solve(): the record of a suggested guess and its true pattern extends every invariant of the run. */
  lemma RoundStep(answers: seq<string>, allWords: seq<string>, before: seq<Record>,
                  score: (string, seq<string>) -> real, guess: string, pattern: seq<int>, answer: string)
    requires AllWords(answers) && IsWord(answer) && IsWord(guess) && pattern == Score(guess, answer)
    requires WellFormed(before) && Honest(before, answer) && Unsolved(before)
    requires AllSuggested(answers, allWords, before, score)
    requires Suggestion(allWords, Survivors(answers, before), MaxWordsToCheck, score, guess)
    ensures var next := before + [(guess, pattern)];
              && WellFormed(next) && Honest(next, answer) && AllSuggested(answers, allWords, next, score)
              && next[..|next| - 1] == before
              && (pattern != ALL_GREEN ==> Unsolved(next))
  {
    HonestAppend(before, guess, pattern, answer);
    SuggestedAppend(answers, allWords, before, score, guess, pattern);
    if pattern != ALL_GREEN {
      UnsolvedAppend(before, guess, pattern);
    }
    var next := before + [(guess, pattern)];
    assert next[..|next| - 1] == before;
  }

  /** solve() fails where the source raises: no candidate left, or no guess found. */
  datatype SolveError = EmptyCandidates | NoGuess

  /** The default `max_words_to_check` of get_best_guess, which solve() uses. */
  const MaxWordsToCheck: nat := 500

  /** A scoring function with the candidate list fixed. */
  function Against(score: (string, seq<string>) -> real, cands: seq<string>): string -> real {
    w => score(w, cands)
  }

  /**
   * What get_best_guess may suggest from base pool `base` for candidates `cands`:
   * the first candidate when there are at most two; the first word of maximal
   * score when the base pool is within the limit; otherwise a word of maximal
   * score over some strategic subset of the base pool.
   */
  ghost predicate Suggestion(base: seq<string>, cands: seq<string>, limit: nat,
                             score: (string, seq<string>) -> real, guess: string) {
    if |cands| <= 2 then |cands| > 0 && guess == cands[0]
    else if |base| <= limit then IsFirstBest(base, Against(score, cands), Best(guess, score(guess, cands)))
    else exists top :: && IsStrategicSubset(base, cands, limit, StrategicSet(base, cands, top), top)
                       && guess in StrategicSet(base, cands, top)
                       && score(guess, cands) > -1.0
                       && forall w :: w in StrategicSet(base, cands, top) ==> score(w, cands) <= score(guess, cands)
  }

  /** get_best_guess finds nothing: more than two candidates and no pool word scores above -1. */
  ghost predicate NothingToSuggest(base: seq<string>, cands: seq<string>, limit: nat,
                                   score: (string, seq<string>) -> real) {
    && |cands| > 2
    && if |base| <= limit then IsFirstBest(base, Against(score, cands), NoneFound)
       else exists top :: && IsStrategicSubset(base, cands, limit, StrategicSet(base, cands, top), top)
                          && forall w :: w in StrategicSet(base, cands, top) ==> score(w, cands) <= -1.0
  }

  /** Every guess of a solve() run is what get_best_guess suggests after the guesses before it. */
  ghost predicate AllSuggested(answers: seq<string>, allWords: seq<string>, guesses: seq<Record>,
                               score: (string, seq<string>) -> real)
    requires AllWords(answers) && WellFormed(guesses)
  {
    forall j :: 0 <= j < |guesses| ==>
      Suggestion(allWords, Survivors(answers, guesses[..j]), MaxWordsToCheck, score, guesses[j].0)
  }

  lemma SuggestedAppend(answers: seq<string>, allWords: seq<string>, guesses: seq<Record>,
                        score: (string, seq<string>) -> real, guess: string, pattern: seq<int>)
    requires AllWords(answers) && WellFormed(guesses) && |pattern| == Length
    requires AllSuggested(answers, allWords, guesses, score)
    requires Suggestion(allWords, Survivors(answers, guesses), MaxWordsToCheck, score, guess)
    ensures WellFormed(guesses + [(guess, pattern)])
    ensures AllSuggested(answers, allWords, guesses + [(guess, pattern)], score)
  {
    var next := guesses + [(guess, pattern)];
    forall j | 0 <= j < |next|
      ensures |next[j].1| == Length
    {
      if j < |guesses| { assert next[j] == guesses[j]; }
    }
    forall j | 0 <= j < |next|
      ensures Suggestion(allWords, Survivors(answers, next[..j]), MaxWordsToCheck, score, next[j].0)
    {
      if j < |guesses| {
        assert next[..j] == guesses[..j];
        assert next[j] == guesses[j];
      } else {
        assert next[..j] == guesses;
      }
    }
  }

  class WordleSolver {
    var allWords: seq<string>
    var answers: seq<string>
    var constraints: WordleConstraints
    var remaining: seq<string>
    var history: seq<Record>

    /** The state is the replay of the history over the answer list. */
    ghost predicate Valid()
      reads this, constraints
    {
      && AllWords(allWords) && AllUpper(allWords)
      && AllWords(answers) && AllUpper(answers)
      && constraints.Valid() && WellFormed(history)
      && constraints.Value() == KnowledgeOf(history)
      && remaining == Survivors(answers, history)
      && AllUpper(remaining)
    }

    /** `__init__`: normalized word lists; the answer list defaults to the word list when missing or empty. */
    constructor (wordList: seq<string>, answerList: Option<seq<string>>)
      ensures Valid()
      ensures allWords == Normalize(wordList)
      ensures answers == Normalize(if answerList.None? || answerList.value == [] then wordList else answerList.value)
      ensures constraints.Value() == Empty && remaining == answers && history == []
    {
      allWords := Normalize(wordList);
      answers := Normalize(if answerList.None? || answerList.value == [] then wordList else answerList.value);
      constraints := new WordleConstraints();
      remaining := answers;
      history := [];
    }

    /** `reset`: fresh constraints, every answer a candidate again, empty history. */
    method Reset()
      requires Valid()
      modifies this
      ensures Valid() && fresh(constraints)
      ensures allWords == old(allWords) && answers == old(answers)
      ensures constraints.Value() == Empty && remaining == answers && history == []
    {
      constraints := new WordleConstraints();
      remaining := answers;
      history := [];
    }

    /** `make_guess`: record the guess, fold its feedback, keep the candidates that still match. */
    method MakeGuess(guess: string, pattern: seq<int>) returns (r: seq<string>)
      requires Valid() && |pattern| == Length
      modifies this, constraints
      ensures Valid()
      ensures allWords == old(allWords) && answers == old(answers) && constraints == old(constraints)
      ensures history == old(history) + [(Upper(guess), pattern)]
      ensures constraints.Value() == AfterGuess(old(constraints.Value()), Upper(guess), pattern)
      ensures IsSubsequence(remaining, old(remaining))
      ensures forall w :: w in remaining ==> constraints.Matches(w)
      ensures forall w :: w in old(remaining) && constraints.Matches(w) ==> w in remaining
      ensures r == remaining
    {
      var upper := Upper(guess);
      ReplayStep(answers, history, upper, pattern);
      history := history + [(upper, pattern)];
      constraints.AddGuess(upper, pattern);
      var k := constraints.Value();
      var kept := Filter(k, remaining);
      SubsequenceMembers(kept, remaining);
      remaining := kept;
      r := kept;
    }

    /** The candidates get_best_guess works on: the given list, or the remaining answers. */
    function CandidateList(candidates: Option<seq<string>>): seq<string>
      reads this
    {
      if candidates.Some? then candidates.value else remaining
    }

    /** The guess pool before any size cut: the candidates in hard mode, else every valid word. */
    function BasePool(candidates: Option<seq<string>>, useHardMode: bool): seq<string>
      reads this
    {
      if useHardMode then CandidateList(candidates) else allWords
    }

    /**
     * `get_best_guess` with the scoring abstracted: score(w, candidates) stands for
     * the entropy of w over the candidates plus the bonus for candidate guesses.
     * Two or fewer candidates: the first one with score 0. Otherwise the first pool
     * word of strictly maximal score, the pool being the base pool or, when that is
     * larger than maxWordsToCheck, the strategic subset in some order.
     */
    method GetBestGuess(candidates: Option<seq<string>>, useHardMode: bool, maxWordsToCheck: nat,
                        score: (string, seq<string>) -> real)
      returns (r: BestGuess, ghost cands: seq<string>, ghost pool: seq<string>, ghost top: seq<string>)
      ensures cands == CandidateList(candidates)
      ensures |CandidateList(candidates)| == 0 ==> r == IndexError
      ensures 1 <= |CandidateList(candidates)| <= 2 ==> r == Best(CandidateList(candidates)[0], 0.0)
      ensures |CandidateList(candidates)| > 2 ==>
                IsFirstBest(pool, Against(score, cands), r)
      ensures |CandidateList(candidates)| > 2 && |BasePool(candidates, useHardMode)| <= maxWordsToCheck ==>
                pool == BasePool(candidates, useHardMode)
      ensures |CandidateList(candidates)| > 2 && |BasePool(candidates, useHardMode)| > maxWordsToCheck ==>
                IsStrategicSubset(BasePool(candidates, useHardMode), cands, maxWordsToCheck, Elements(pool), top)
      ensures |CandidateList(candidates)| > 2 && |BasePool(candidates, useHardMode)| > maxWordsToCheck ==>
                |pool| <= |cands| + |STARTERS| + maxWordsToCheck
      ensures r.Best? ==> r.word in CandidateList(candidates) || r.word in BasePool(candidates, useHardMode)
      ensures r.Best? ==> Suggestion(BasePool(candidates, useHardMode), cands, maxWordsToCheck, score, r.word)
      ensures r.NoneFound? ==> NothingToSuggest(BasePool(candidates, useHardMode), cands, maxWordsToCheck, score)
    {
      var list := if candidates.Some? then candidates.value else remaining;
      cands, pool, top := list, [], [];
      if |list| <= 2 {
        if |list| == 0 {
          return IndexError, cands, pool, top;
        }
        return Best(list[0], 0.0), cands, pool, top;
      }
      var guessPool := if useHardMode then list else allWords;
      ghost var base := guessPool;
      if |guessPool| > maxWordsToCheck {
        var subset;
        subset, top := StrategicSubset(guessPool, list, maxWordsToCheck);
        guessPool := SetToSeq(subset);
        assert Elements(guessPool) == subset;
        assert |guessPool| == |subset|;
      }
      pool := guessPool;
      r := SelectBest(guessPool, Against(score, list));
      FirstBestOverElements(pool, Against(score, list), r);
      if |base| > maxWordsToCheck {
        assert IsStrategicSubset(base, list, maxWordsToCheck, StrategicSet(base, list, top), top);
      }
    }

    /** `get_best_guess()` with its default arguments, the call solve() makes. */
    method SuggestDefault(score: (string, seq<string>) -> real) returns (r: BestGuess)
      requires Valid()
      ensures r.IndexError? <==> remaining == []
      ensures r.NoneFound? ==> NothingToSuggest(allWords, remaining, MaxWordsToCheck, score)
      ensures r.Best? ==> Suggestion(allWords, remaining, MaxWordsToCheck, score, r.word)
      ensures r.Best? ==> r.word in remaining || r.word in allWords
      ensures r.Best? ==> IsWord(r.word) && Upper(r.word) == r.word
    {
      ghost var cands, pool, top;
      r, cands, pool, top := GetBestGuess(None, false, MaxWordsToCheck, score);
      if r.Best? {
        assert IsUpper(r.word);
      }
    }

    /**
     * `solve`: from a reset session, at most maxGuesses rounds of suggest, score
     * against the answer, and apply; it stops right after the first all-green pattern.
     */
    method Solve(answer: string, maxGuesses: int, score: (string, seq<string>) -> real)
      returns (r: Result<seq<Record>, SolveError>)
      requires Valid() && IsWord(answer)
      modifies this, constraints
      ensures Valid()
      ensures allWords == old(allWords) && answers == old(answers)
      ensures r.Ok? ==> |r.value| <= (if maxGuesses < 0 then 0 else maxGuesses)
      ensures r.Ok? ==> IsWord(Upper(answer)) && Honest(r.value, Upper(answer))
      ensures r.Ok? && |r.value| > 0 ==> Unsolved(r.value[..|r.value| - 1])
      ensures r.Ok? && |r.value| < maxGuesses ==> |r.value| > 0 && r.value[|r.value| - 1].1 == ALL_GREEN
      ensures r.Ok? ==> history == if |r.value| > 0 && r.value[|r.value| - 1].1 == ALL_GREEN
                                   then r.value[..|r.value| - 1] else r.value
      ensures r.Ok? ==> WellFormed(r.value) && AllSuggested(answers, allWords, r.value, score)
      ensures r == Err(EmptyCandidates) ==> remaining == []
      ensures r == Err(NoGuess) ==> NothingToSuggest(allWords, remaining, MaxWordsToCheck, score)
      ensures r.Err? ==> && |history| < maxGuesses && IsWord(Upper(answer))
                         && Honest(history, Upper(answer)) && Unsolved(history)
                         && AllSuggested(answers, allWords, history, score)
    {
      var target := Upper(answer);
      UpperIsUpper(answer);
      Reset();
      var guesses: seq<Record> := [];
      var attempt := 1;
      while attempt <= maxGuesses
        invariant Valid() && fresh(constraints)
        invariant allWords == old(allWords) && answers == old(answers)
        invariant 1 <= attempt && |guesses| == attempt - 1
        invariant attempt <= (if maxGuesses < 0 then 0 else maxGuesses) + 1
        invariant Honest(guesses, target) && Unsolved(guesses)
        invariant history == guesses
        invariant AllSuggested(answers, allWords, guesses, score)
      {
        var best := SuggestDefault(score);
        if best.IndexError? {
          return Err(EmptyCandidates);
        }
        if best.NoneFound? {
          return Err(NoGuess);
        }
        var guess := best.word;
        var pattern := GetPattern(guess, target);
        RoundStep(answers, allWords, guesses, score, guess, pattern, target);
        guesses := guesses + [(guess, pattern)];
        if pattern == ALL_GREEN {
          return Ok(guesses);
        }
        var _ := MakeGuess(guess, pattern);
        attempt := attempt + 1;
      }
      r := Ok(guesses);
    }
  }
}
