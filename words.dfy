/** Words of the game: five characters, upper-cased the way the solver normalizes them. */
module Words {
  /** Every word list is filtered to this length, and patterns have this many marks. */
  const Length: nat := 5

  function Min(a: int, b: int): int {
    if a <= b then a else b
  }

  predicate IsWord(w: string) {
    |w| == Length
  }

  predicate AllWords(ws: seq<string>) {
    forall w :: w in ws ==> IsWord(w)
  }

  /** Python's `str.upper` on one character, restricted to ASCII letters. */
  function UpperChar(c: char): char {
    if 'a' <= c <= 'z' then (c as int - 'a' as int + 'A' as int) as char else c
  }

  function Upper(s: string): string {
    seq(|s|, i requires 0 <= i < |s| => UpperChar(s[i]))
  }

  predicate IsUpper(s: string) {
    Upper(s) == s
  }

  predicate AllUpper(ws: seq<string>) {
    forall w :: w in ws ==> IsUpper(w)
  }

  lemma UpperIsUpper(s: string)
    ensures |Upper(s)| == |s| && IsUpper(Upper(s))
  {
    assert Upper(Upper(s)) == Upper(s);
  }
}
