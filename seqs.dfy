/** Generic facts about sequences and maps used by the solver model. */
module Seqs {

  /** Number of positions j < n with s[j] == x. */
  function CountUpTo<T(==)>(s: seq<T>, x: T, n: nat): nat
    requires n <= |s|
  {
    if n == 0 then 0 else CountUpTo(s, x, n - 1) + (if s[n - 1] == x then 1 else 0)
  }

  /** Multiplicity of x in s. */
  function Count<T(==)>(s: seq<T>, x: T): nat {
    CountUpTo(s, x, |s|)
  }

  /** Overwriting one position changes the count by what left and what arrived. */
  lemma {:induction false} CountUpdate<T>(s: seq<T>, j: nat, v: T, x: T, n: nat)
    requires j < |s| && n <= |s|
    ensures CountUpTo(s[j := v], x, n) + (if j < n && s[j] == x then 1 else 0)
         == CountUpTo(s, x, n) + (if j < n && v == x then 1 else 0)
  {
    if n > 0 {
      CountUpdate(s, j, v, x, n - 1);
    }
  }

  /** The count is positive exactly when some position below n holds x. */
  lemma {:induction false} CountPositive<T>(s: seq<T>, x: T, n: nat)
    requires n <= |s|
    ensures CountUpTo(s, x, n) > 0 <==> exists j :: 0 <= j < n && s[j] == x
  {
    if n > 0 {
      CountPositive(s, x, n - 1);
    }
  }

  /** Python's `list.index`: the first position holding x. */
  function FirstIndex<T(==)>(s: seq<T>, x: T): (r: nat)
    requires x in s
    ensures r < |s| && s[r] == x
    ensures forall j :: 0 <= j < r ==> s[j] != x
  {
    if s[0] == x then 0 else 1 + FirstIndex(s[1..], x)
  }

  /** a can be obtained from b by deleting elements (order kept). */
  predicate IsSubsequence<T(==)>(a: seq<T>, b: seq<T>)
    decreases |b|
  {
    if |a| == 0 then true
    else if |b| == 0 then false
    else (a[0] == b[0] && IsSubsequence(a[1..], b[1..])) || IsSubsequence(a, b[1..])
  }

  lemma {:induction false} SubsequenceReflexive<T>(a: seq<T>)
    ensures IsSubsequence(a, a)
  {
    if |a| > 0 {
      SubsequenceReflexive(a[1..]);
    }
  }

  lemma {:induction false} SubsequenceMembers<T>(a: seq<T>, b: seq<T>)
    requires IsSubsequence(a, b)
    ensures forall x :: x in a ==> x in b
    decreases |b|
  {
    if |a| > 0 {
      if a[0] == b[0] && IsSubsequence(a[1..], b[1..]) {
        SubsequenceMembers(a[1..], b[1..]);
        assert forall x :: x in a ==> x == a[0] || x in a[1..];
      } else {
        SubsequenceMembers(a, b[1..]);
      }
    }
  }

  lemma {:induction false} SubsequenceTransitive<T>(a: seq<T>, b: seq<T>, c: seq<T>)
    requires IsSubsequence(a, b) && IsSubsequence(b, c)
    ensures IsSubsequence(a, c)
    decreases |a| + |b| + |c|
  {
    if |a| > 0 {
      assert |b| > 0 && |c| > 0;
      if IsSubsequence(b, c[1..]) {
        SubsequenceTransitive(a, b, c[1..]);
      } else {
        assert b[0] == c[0] && IsSubsequence(b[1..], c[1..]);
        if a[0] == b[0] && IsSubsequence(a[1..], b[1..]) {
          SubsequenceTransitive(a[1..], b[1..], c[1..]);
        } else {
          SubsequenceTransitive(a, b[1..], c[1..]);
        }
      }
    }
  }

  /** Sum of the values of a map. */
  ghost function Total<K>(m: map<K, nat>): nat
    decreases m.Keys
  {
    if m.Keys == {} then 0 else var k :| k in m; m[k] + Total(m - {k})
  }

  lemma {:induction false} TotalRemove<K>(m: map<K, nat>, k: K)
    requires k in m
    ensures Total(m) == m[k] + Total(m - {k})
    decreases m.Keys
  {
    var j :| j in m && Total(m) == m[j] + Total(m - {j});
    if j != k {
      TotalRemove(m - {j}, k);
      TotalRemove(m - {k}, j);
      assert m - {j} - {k} == m - {k} - {j};
    }
  }

  /** Adding one to a key's value (0 when absent) adds one to the total. */
  lemma TotalBump<K>(m: map<K, nat>, k: K)
    ensures Total(m[k := (if k in m then m[k] else 0) + 1]) == Total(m) + 1
  {
    var m' := m[k := (if k in m then m[k] else 0) + 1];
    TotalRemove(m', k);
    if k in m {
      TotalRemove(m, k);
      assert m' - {k} == m - {k};
    } else {
      assert m' - {k} == m;
    }
  }

  /** m tallies the first n elements of s: one key per distinct element, holding its count. */
  ghost predicate TallyOf<T(!new)>(m: map<T, nat>, s: seq<T>, n: nat)
    requires n <= |s|
  {
    && m.Keys == (set j | 0 <= j < n :: s[j])
    && (forall x :: x in m ==> m[x] == CountUpTo(s, x, n))
    && (forall x :: x !in m ==> CountUpTo(s, x, n) == 0)
    && Total(m) == n
  }

  /** Bumping the next element's key extends the tally by one element. */
  lemma TallyExtend<T(!new)>(m: map<T, nat>, s: seq<T>, n: nat)
    requires n < |s| && TallyOf(m, s, n)
    ensures TallyOf(m[s[n] := (if s[n] in m then m[s[n]] else 0) + 1], s, n + 1)
  {
    TotalBump(m, s[n]);
    assert (set j | 0 <= j < n + 1 :: s[j]) == (set j | 0 <= j < n :: s[j]) + {s[n]};
  }

  /** At most as many distinct elements as positions. */
  lemma {:induction false} DistinctBound<T>(s: seq<T>)
    ensures |set x | x in s| <= |s|
  {
    if |s| > 0 {
      DistinctBound(s[1..]);
      assert (set x | x in s) == {s[0]} + (set x | x in s[1..]);
    }
  }

  lemma SubsetCard<T>(a: set<T>, b: set<T>)
    requires a <= b
    ensures |a| <= |b|
  {
    assert b == a + (b - a);
  }
}
