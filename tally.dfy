/** Character frequencies, the abstract value of the `Counter` structs of the
    room-code and column-histogram solvers. */
module Tally {

  /** The map after one more occurrence of c. */
  function Bump(m: map<char, nat>, c: char): map<char, nat>
  {
    m[c := if c in m then m[c] + 1 else 1]
  }

  /** One more occurrence of c creates its entry at 0 and increments it, and
      keeps every other entry. */
  lemma BumpEntries(m: map<char, nat>, c: char)
    ensures Bump(m, c).Keys == m.Keys + {c}
    ensures c !in m ==> Bump(m, c)[c] == 1
    ensures c in m ==> Bump(m, c)[c] == m[c] + 1
    ensures forall d :: d in m && d != c ==> Bump(m, c)[d] == m[d]
  {
  }

  /** The frequencies of the chars of s, counted left to right. */
  function Frequencies(s: string): map<char, nat>
  {
    if s == [] then map[] else Bump(Frequencies(s[..|s| - 1]), s[|s| - 1])
  }

  lemma FrequenciesAppend(s: string, c: char)
    ensures Frequencies(s + [c]) == Bump(Frequencies(s), c)
  {
    assert (s + [c])[..|s|] == s;
  }

  /** Frequencies(s) has an entry for exactly the chars of s. */
  lemma {:induction false} FrequenciesKeys(s: string)
    ensures forall c :: c in Frequencies(s) <==> c in s
  {
    if s != [] {
      var t, x := s[..|s| - 1], s[|s| - 1];
      assert s == t + [x];
      FrequenciesKeys(t);
      BumpEntries(Frequencies(t), x);
    }
  }

  /** Each entry of Frequencies(s) is the number of occurrences of its char. */
  lemma {:induction false} FrequenciesCount(s: string)
    ensures forall c :: c in Frequencies(s) ==> Frequencies(s)[c] == multiset(s)[c]
  {
    if s != [] {
      var t, x := s[..|s| - 1], s[|s| - 1];
      assert s == t + [x];
      FrequenciesCount(t);
      BumpEntries(Frequencies(t), x);
      FrequenciesKeys(t);
      assert multiset(s) == multiset(t) + multiset{x};
    }
  }
}
