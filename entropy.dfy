/**
 * The integer part of `calculate_entropy` (solver.py): candidates are tallied
 * into buckets by the pattern the guess would produce against them. The entropy
 * of the bucket sizes is floating point and is not part of this model.
 */
module Entropy {
  import opened Seqs
  import opened Words
  import opened Pattern

  /** The pattern against each candidate, in candidate order. */
  function Patterns(guess: string, candidates: seq<string>): seq<seq<int>>
    requires IsWord(guess) && AllWords(candidates)
  {
    seq(|candidates|, i requires 0 <= i < |candidates| => Score(guess, candidates[i]))
  }

  /** The distinct patterns the guess produces over the candidates. */
  function PatternSet(guess: string, candidates: seq<string>): set<seq<int>>
    requires IsWord(guess) && AllWords(candidates)
  {
    set i | 0 <= i < |candidates| :: Score(guess, candidates[i])
  }

  /**
   * The bucket tally: one bucket per produced pattern, holding how many
   * candidates produce it; the buckets add up to the number of candidates, and
   * there are none for an empty candidate list (entropy 0).
   */
  method PatternCounts(guess: string, candidates: seq<string>) returns (counts: map<seq<int>, nat>)
    requires IsWord(guess) && AllWords(candidates)
    ensures counts.Keys == PatternSet(guess, candidates)
    ensures forall p :: p in counts ==> counts[p] == Count(Patterns(guess, candidates), p)
    ensures Total(counts) == |candidates|
    ensures |candidates| == 0 ==> counts == map[]
  {
    counts := map[];
    ghost var ps := Patterns(guess, candidates);
    for i := 0 to |candidates|
      invariant TallyOf(counts, ps, i)
    {
      var pattern := GetPattern(guess, candidates[i]);
      assert pattern == ps[i];
      TallyExtend(counts, ps, i);
      ghost var before := counts;
      counts := counts[pattern := (if pattern in counts then counts[pattern] else 0) + 1];
      assert counts == before[ps[i] := (if ps[i] in before then before[ps[i]] else 0) + 1];
    }
    PatternSetIsKeys(guess, candidates);
  }

  /** The distinct patterns are the distinct entries of the pattern list. */
  lemma PatternSetIsKeys(guess: string, candidates: seq<string>)
    requires IsWord(guess) && AllWords(candidates)
    ensures (set j | 0 <= j < |candidates| :: Patterns(guess, candidates)[j]) == PatternSet(guess, candidates)
  {
    var ps := Patterns(guess, candidates);
    forall p
      ensures p in (set j | 0 <= j < |candidates| :: ps[j]) <==> p in PatternSet(guess, candidates)
    {
      if p in (set j | 0 <= j < |candidates| :: ps[j]) {
        var j :| 0 <= j < |candidates| && ps[j] == p;
        assert Score(guess, candidates[j]) == p;
      }
      if p in PatternSet(guess, candidates) {
        var j :| 0 <= j < |candidates| && Score(guess, candidates[j]) == p;
        assert ps[j] == p;
      }
    }
  }

  /**
   * A single bucket (zero entropy) exactly when the guess produces the same
   * pattern against every candidate.
   */
  lemma OneBucketIffSamePattern(guess: string, candidates: seq<string>)
    requires IsWord(guess) && AllWords(candidates) && |candidates| > 0
    ensures |PatternSet(guess, candidates)| == 1 <==>
              forall i :: 0 <= i < |candidates| ==> Score(guess, candidates[i]) == Score(guess, candidates[0])
  {
    var ps := PatternSet(guess, candidates);
    var p0 := Score(guess, candidates[0]);
    if forall i :: 0 <= i < |candidates| ==> Score(guess, candidates[i]) == p0 {
      assert ps == {p0};
    } else {
      var i :| 0 <= i < |candidates| && Score(guess, candidates[i]) != p0;
      SubsetCard({p0, Score(guess, candidates[i])}, ps);
    }
  }
}
