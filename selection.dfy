/**
 * Guess selection (solver.py, `get_best_guess` and `_get_strategic_subset`):
 * the argmax over a guess pool under a given score, and the bounded pool of
 * candidates, strong openers and letter-frequency favourites.
 */
module Selection {
  import opened Wrappers
  import opened Seqs
  import opened Words

  /**
   * What `get_best_guess` hands back: a guess and its score, the source's
   * `(None, -1)` when no pool word scored above -1, or the IndexError raised by
   * `candidates[0]` on an empty candidate list.
   */
  datatype BestGuess = Best(word: string, score: real) | NoneFound | IndexError

  /** r is the first pool element whose score is maximal (and above -1), or there is none. */
  ghost predicate IsFirstBest(pool: seq<string>, score: string -> real, r: BestGuess) {
    match r
    case Best(w, s) =>
      && s == score(w) && s > -1.0
      && (forall j :: 0 <= j < |pool| ==> score(pool[j]) <= s)
      && exists i :: 0 <= i < |pool| && pool[i] == w && forall j :: 0 <= j < i ==> score(pool[j]) < s
    case NoneFound => forall j :: 0 <= j < |pool| ==> score(pool[j]) <= -1.0
    case IndexError => false
  }

  /** The scoring loop: a strictly larger score replaces the best so far. */
  method SelectBest(pool: seq<string>, score: string -> real) returns (r: BestGuess)
    ensures IsFirstBest(pool, score, r)
  {
    var bestGuess: Option<string> := None;
    var bestScore: real := -1.0;
    ghost var bestIndex := 0;
    for i := 0 to |pool|
      invariant bestGuess.None? ==> bestScore == -1.0
      invariant forall j :: 0 <= j < i ==> score(pool[j]) <= bestScore
      invariant bestGuess.Some? ==>
        && 0 <= bestIndex < i && pool[bestIndex] == bestGuess.value
        && bestScore == score(pool[bestIndex]) && bestScore > -1.0
        && forall j :: 0 <= j < bestIndex ==> score(pool[j]) < bestScore
    {
      var s := score(pool[i]);
      if s > bestScore {
        bestScore := s;
        bestGuess := Some(pool[i]);
        bestIndex := i;
      }
    }
    r := if bestGuess.Some? then Best(bestGuess.value, bestScore) else NoneFound;
  }

  // ---- The strategic subset ------------------------------------------------------

  /** The fixed opening words added whenever they are in the pool. */
  const STARTERS: seq<string> := ["SOARE", "SLATE", "CRANE", "SLANT", "TRACE", "CRATE", "ARISE", "STARE"]

  /** How many of the first n words contain c. */
  function ContainingCount(words: seq<string>, c: char, n: nat): nat
    requires n <= |words|
  {
    if n == 0 then 0 else ContainingCount(words, c, n - 1) + (if c in words[n - 1] then 1 else 0)
  }

  /** A `Counter` lookup: 0 for a letter never counted. */
  function Freq(freq: map<char, nat>, c: char): nat {
    if c in freq then freq[c] else 0
  }

  /** The letter counter: each candidate adds one for each distinct letter it contains. */
  method LetterFrequencies(candidates: seq<string>) returns (freq: map<char, nat>)
    ensures forall c :: Freq(freq, c) == ContainingCount(candidates, c, |candidates|)
  {
    freq := map[];
    for i := 0 to |candidates|
      invariant forall c :: Freq(freq, c) == ContainingCount(candidates, c, i)
    {
      var todo := set c | c in candidates[i];
      ghost var before := freq;
      while todo != {}
        invariant todo <= set c | c in candidates[i]
        invariant forall c :: Freq(freq, c) == Freq(before, c) + (if c in candidates[i] && c !in todo then 1 else 0)
        decreases todo
      {
        var c :| c in todo;
        freq := freq[c := Freq(freq, c) + 1];
        todo := todo - {c};
      }
    }
  }

  /** Sum of weight over the distinct letters of w (each counted at its first occurrence). */
  function DistinctSum(w: string, weight: char -> nat): nat {
    if |w| == 0 then 0
    else DistinctSum(w[..|w| - 1], weight) + (if w[|w| - 1] in w[..|w| - 1] then 0 else weight(w[|w| - 1]))
  }

  lemma {:induction false} DistinctSumCongruent(w: string, f: char -> nat, g: char -> nat)
    requires forall c :: c in w ==> f(c) == g(c)
    ensures DistinctSum(w, f) == DistinctSum(w, g)
  {
    if |w| > 0 {
      assert forall c :: c in w[..|w| - 1] ==> c in w;
      DistinctSumCongruent(w[..|w| - 1], f, g);
    }
  }

  /** The cheap pre-filter score: letter frequencies over the candidates, summed over a word's distinct letters. */
  ghost function Heuristic(candidates: seq<string>, w: string): nat {
    DistinctSum(w, c => ContainingCount(candidates, c, |candidates|))
  }

  /** The pool words at the first n positions marked as taken, with multiplicity. */
  ghost function Picked(pool: seq<string>, taken: seq<bool>, n: nat): multiset<string>
    requires n <= |pool| == |taken|
  {
    if n == 0 then multiset{}
    else Picked(pool, taken, n - 1) + (if taken[n - 1] then multiset{pool[n - 1]} else multiset{})
  }

  lemma {:induction false} PickedNone(pool: seq<string>, taken: seq<bool>, n: nat)
    requires n <= |pool| == |taken| && forall i :: 0 <= i < |taken| ==> !taken[i]
    ensures Picked(pool, taken, n) == multiset{}
  {
    if n > 0 {
      PickedNone(pool, taken, n - 1);
    }
  }

  lemma {:induction false} PickedBound(pool: seq<string>, taken: seq<bool>, n: nat)
    requires n <= |pool| == |taken|
    ensures Picked(pool, taken, n) <= multiset(pool[..n])
    ensures |Picked(pool, taken, n)| <= n
  {
    if n > 0 {
      PickedBound(pool, taken, n - 1);
      assert pool[..n] == pool[..n - 1] + [pool[n - 1]];
    }
  }

  /** Marking an untaken position adds exactly its word. */
  lemma {:induction false} PickedTake(pool: seq<string>, taken: seq<bool>, b: nat, n: nat)
    requires n <= |pool| == |taken| && b < |pool| && !taken[b]
    ensures Picked(pool, taken[b := true], n) == Picked(pool, taken, n) + (if b < n then multiset{pool[b]} else multiset{})
  {
    if n > 0 {
      PickedTake(pool, taken, b, n - 1);
    }
  }

  /** With every position taken, the pick is the whole prefix. */
  lemma {:induction false} PickedAll(pool: seq<string>, taken: seq<bool>, n: nat)
    requires n <= |pool| == |taken| && forall i :: 0 <= i < n ==> taken[i]
    ensures Picked(pool, taken, n) == multiset(pool[..n])
  {
    if n > 0 {
      PickedAll(pool, taken, n - 1);
      assert pool[..n] == pool[..n - 1] + [pool[n - 1]];
    }
  }

  /** A copy of w that was not picked sits at some untaken position. */
  lemma {:induction false} PickedLeftOut(pool: seq<string>, taken: seq<bool>, n: nat, w: string)
    requires n <= |pool| == |taken| && Picked(pool, taken, n)[w] < multiset(pool[..n])[w]
    ensures exists i :: 0 <= i < n && !taken[i] && pool[i] == w
  {
    assert n > 0;
    assert pool[..n] == pool[..n - 1] + [pool[n - 1]];
    if taken[n - 1] || pool[n - 1] != w {
      PickedLeftOut(pool, taken, n - 1, w);
    }
  }

  /** One pick of the sort: the first untaken position of highest key, or -1 when all are taken. */
  method Highest(pool: seq<string>, key: string -> nat, taken: seq<bool>) returns (best: int)
    requires |taken| == |pool|
    ensures -1 <= best < |pool|
    ensures best == -1 <==> forall j :: 0 <= j < |pool| ==> taken[j]
    ensures best >= 0 ==> !taken[best] && forall j :: 0 <= j < |pool| && !taken[j] ==> key(pool[j]) <= key(pool[best])
    ensures best >= 0 ==> forall j :: 0 <= j < best && !taken[j] ==> key(pool[j]) < key(pool[best])
  {
    best := -1;
    for i := 0 to |pool|
      invariant -1 <= best < |pool| && best < i + 1
      invariant best == -1 <==> forall j :: 0 <= j < i ==> taken[j]
      invariant best >= 0 ==> !taken[best] && forall j :: 0 <= j < i && !taken[j] ==> key(pool[j]) <= key(pool[best])
      invariant best >= 0 ==> forall j :: 0 <= j < best && !taken[j] ==> key(pool[j]) < key(pool[best])
    {
      if !taken[i] && (best == -1 || key(pool[i]) > key(pool[best])) {
        best := i;
      }
    }
  }

  /** What the picking loop leaves, stated over what it took. */
  lemma SampleFacts(pool: seq<string>, key: string -> nat, k: nat, taken: seq<bool>, top: seq<string>)
    requires |taken| == |pool| && |top| <= k
    requires multiset(top) == Picked(pool, taken, |pool|)
    requires forall i, t :: 0 <= i < |pool| && !taken[i] && t in top ==> key(pool[i]) <= key(t)
    requires |top| == k || forall i :: 0 <= i < |pool| ==> taken[i]
    ensures |top| == Min(k, |pool|)
    ensures multiset(top) <= multiset(pool)
    ensures forall w, t :: multiset(top)[w] < multiset(pool)[w] && t in top ==> key(w) <= key(t)
  {
    assert pool[..|pool|] == pool;
    PickedBound(pool, taken, |pool|);
    assert |multiset(top)| == |top|;
    if |top| < k {
      PickedAll(pool, taken, |pool|);
    }
    forall w, t | multiset(top)[w] < multiset(pool)[w] && t in top
      ensures key(w) <= key(t)
    {
      PickedLeftOut(pool, taken, |pool|, w);
    }
  }

  /**
   * `sorted(pool, key, reverse=True)[:k]`: picks, k times, the first untaken pool
   * position of highest key. The sample is min(k, |pool|) words drawn from the
   * pool with multiplicity, and no copy left out outscores a word taken.
   */
  method TopByScore(pool: seq<string>, key: string -> nat, k: nat) returns (top: seq<string>)
    ensures |top| == Min(k, |pool|)
    ensures multiset(top) <= multiset(pool)
    ensures forall w :: w in top ==> w in pool
    ensures |top| < k ==> forall w :: w in pool ==> w in top
    ensures forall w, t :: multiset(top)[w] < multiset(pool)[w] && t in top ==> key(w) <= key(t)
    ensures forall i, t :: 0 <= i < |pool| && pool[i] !in top && t in top ==> key(pool[i]) <= key(t)
  {
    var taken := seq(|pool|, _ => false);
    top := [];
    PickedNone(pool, taken, |pool|);
    while |top| < k
      invariant |taken| == |pool| && |top| <= k
      invariant multiset(top) == Picked(pool, taken, |pool|)
      invariant forall w :: w in top ==> w in pool
      invariant forall i :: 0 <= i < |pool| && taken[i] ==> pool[i] in top
      invariant forall i, t :: 0 <= i < |pool| && !taken[i] && t in top ==> key(pool[i]) <= key(t)
      decreases k - |top|
    {
      var best := Highest(pool, key, taken);
      if best == -1 {
        break;
      }
      PickedTake(pool, taken, best, |pool|);
      top := top + [pool[best]];
      taken := taken[best := true];
    }
    SampleFacts(pool, key, k, taken, top);
  }

  /** `set(s)` for a list s. */
  function Elements(s: seq<string>): set<string> {
    set w | w in s
  }

  /** The first best word of a pool is also a best word of the pool's set of words. */
  lemma FirstBestOverElements(pool: seq<string>, score: string -> real, r: BestGuess)
    requires IsFirstBest(pool, score, r)
    ensures r.Best? ==> r.word in Elements(pool) && forall w :: w in Elements(pool) ==> score(w) <= r.score
    ensures r.NoneFound? ==> forall w :: w in Elements(pool) ==> score(w) <= -1.0
  {
    forall w | w in Elements(pool)
      ensures score(w) <= (if r.Best? then r.score else -1.0)
    {
      var j :| 0 <= j < |pool| && pool[j] == w;
    }
  }

  lemma UnionCard(a: set<string>, b: set<string>)
    ensures |a + b| <= |a| + |b|
  {
    assert a + b == a + (b - a);
    SubsetCard(b - a, b);
  }

  /** The candidates, the openers found in the pool, and the sample `top`. */
  function StrategicSet(pool: seq<string>, candidates: seq<string>, top: seq<string>): set<string> {
    Elements(candidates) + (set w | w in STARTERS && w in pool) + Elements(top)
  }

  /**
   * What `_get_strategic_subset` builds: the candidates, the openers found in the
   * pool, and a top-k sample of the pool by the letter-frequency heuristic, and
   * nothing else; hence at most |candidates| + 8 + k words. The sample is
   * min(k, |pool|) pool words drawn with multiplicity.
   */
  ghost predicate IsStrategicSubset(pool: seq<string>, candidates: seq<string>, k: nat,
                                    subset: set<string>, top: seq<string>) {
    && subset == StrategicSet(pool, candidates, top)
    && |subset| <= |candidates| + |STARTERS| + k
    && |top| <= k && (forall w :: w in top ==> w in pool)
    && |top| == Min(k, |pool|) && multiset(top) <= multiset(pool)
    && (|top| < k ==> forall w :: w in pool ==> w in top)
    && (forall w, t :: multiset(top)[w] < multiset(pool)[w] && t in top ==>
          Heuristic(candidates, w) <= Heuristic(candidates, t))
    && (forall i, t :: 0 <= i < |pool| && pool[i] !in top && t in top ==>
          Heuristic(candidates, pool[i]) <= Heuristic(candidates, t))
  }

  /** `_get_strategic_subset`; `top` is the sample `sorted(pool, key, reverse=True)[:k]`. */
  method StrategicSubset(pool: seq<string>, candidates: seq<string>, sampleSize: nat)
    returns (subset: set<string>, ghost top: seq<string>)
    ensures IsStrategicSubset(pool, candidates, sampleSize, subset, top)
    ensures forall w :: w in candidates ==> w in subset
    ensures forall w :: w in STARTERS && w in pool ==> w in subset
    ensures forall w :: w in subset ==> w in candidates || w in pool
    ensures |subset| <= |candidates| + |STARTERS| + sampleSize
  {
    var fromCandidates := Elements(candidates);
    var starters := set w | w in STARTERS && w in pool;
    subset := fromCandidates + starters;
    var freq := LetterFrequencies(candidates);
    var key := w => DistinctSum(w, c => Freq(freq, c));
    var scored := TopByScore(pool, key, sampleSize);
    subset := subset + Elements(scored);
    top := scored;
    forall w
      ensures key(w) == Heuristic(candidates, w)
    {
      DistinctSumCongruent(w, c => Freq(freq, c), c => ContainingCount(candidates, c, |candidates|));
    }
    DistinctBound(candidates);
    DistinctBound(top);
    DistinctBound(STARTERS);
    SubsetCard(starters, Elements(STARTERS));
    UnionCard(fromCandidates, starters);
    UnionCard(fromCandidates + starters, Elements(top));
  }

  /** `list(subset)`: the elements in an unspecified order. */
  method SetToSeq(s: set<string>) returns (r: seq<string>)
    ensures forall w :: w in r <==> w in s
    ensures |r| == |s|
    ensures forall i, j :: 0 <= i < j < |r| ==> r[i] != r[j]
  {
    r := [];
    var rest := s;
    while rest != {}
      invariant forall w :: w in s <==> w in r || w in rest
      invariant rest <= s && |r| + |rest| == |s|
      invariant forall w :: w in r ==> w !in rest
      invariant forall i, j :: 0 <= i < j < |r| ==> r[i] != r[j]
      decreases rest
    {
      var w :| w in rest;
      r := r + [w];
      rest := rest - {w};
    }
  }
}
