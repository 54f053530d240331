/**
 * Case-insensitive substring matching, the test that the entry store applies
 * when it lists entries by project and when it searches every column.
 *
 * The tool delegates this to its dataframe library's `str.contains(term,
 * case=False)`; here it is modelled as a literal (not regular-expression)
 * substring test after folding the ASCII capitals 'A'..'Z' to lower case.
 */
module TextMatch {

  /** Folds one ASCII capital letter to lower case; every other character is kept. */
  function LowerChar(c: char): char
  {
    if 'A' <= c <= 'Z' then (c as int + 32) as char else c
  }

  /** The string with every ASCII capital folded, character by character. */
  function Lower(s: string): (r: string)
    ensures |r| == |s|
    ensures forall i :: 0 <= i < |s| ==> r[i] == LowerChar(s[i])
  {
    if s == [] then [] else [LowerChar(s[0])] + Lower(s[1..])
  }

  /** Folding twice is folding once: a folded term is its own folded form. */
  lemma LowerIdempotent(s: string)
    ensures Lower(Lower(s)) == Lower(s)
  {
  }

  predicate IsPrefix(t: string, s: string)
  {
    |t| <= |s| && s[..|t|] == t
  }

  /** `t` occurs in `s` starting at position `i`. */
  predicate OccursAt(s: string, t: string, i: int)
  {
    0 <= i && i + |t| <= |s| && s[i..i + |t|] == t
  }

  /** `t` is a (contiguous) substring of `s`. */
  predicate Contains(s: string, t: string)
    decreases |s|
  {
    IsPrefix(t, s) || (s != [] && Contains(s[1..], t))
  }

  /** Contains agrees with the positional definition of a substring, both ways. */
  lemma {:induction false} ContainsIffOccurs(s: string, t: string)
    ensures Contains(s, t) <==> exists i :: OccursAt(s, t, i)
    decreases |s|
  {
    if IsPrefix(t, s) {
      assert OccursAt(s, t, 0);
    } else if s == [] {
      assert |t| > 0;
    } else {
      ContainsIffOccurs(s[1..], t);
      if exists i :: OccursAt(s[1..], t, i) {
        var i :| OccursAt(s[1..], t, i);
        assert s[1..][i..i + |t|] == s[i + 1..i + 1 + |t|];
        assert OccursAt(s, t, i + 1);
      }
      if exists i :: OccursAt(s, t, i) {
        var i :| OccursAt(s, t, i);
        assert i != 0;
        assert s[i..i + |t|] == s[1..][i - 1..i - 1 + |t|];
        assert OccursAt(s[1..], t, i - 1);
      }
    }
  }

  /** The empty term occurs in every string. */
  lemma EmptyTermOccursEverywhere(s: string)
    ensures Contains(s, "")
  {
  }

  /** `term` occurs in `s` when the case of ASCII letters is disregarded. */
  predicate ContainsIgnoreCase(s: string, term: string)
  {
    Contains(Lower(s), Lower(term))
  }

  /**
   * The test is insensitive to case on both sides: folding the searched text
   * or the term first changes nothing.
   */
  lemma CaseDoesNotMatter(s: string, term: string)
    ensures ContainsIgnoreCase(s, term) == ContainsIgnoreCase(s, Lower(term))
    ensures ContainsIgnoreCase(s, term) == ContainsIgnoreCase(Lower(s), term)
  {
    LowerIdempotent(term);
    LowerIdempotent(s);
  }
}
