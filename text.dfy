/**
 * String helpers the match handler relies on: ASCII lowercasing (standing in
 * for the host language's `str.lower`) and the substring test behind `in`.
 */
module Text {

  /** An ASCII capital letter. */
  predicate IsUpper(c: char) {
    'A' <= c <= 'Z'
  }

  /** Lowercases one ASCII capital; every other character is left alone. */
  function LowerChar(c: char): (r: char)
    ensures !IsUpper(r)
    ensures !IsUpper(c) ==> r == c
    ensures IsUpper(c) ==> r as int == c as int - 'A' as int + 'a' as int
  {
    if IsUpper(c) then (c as int - 'A' as int + 'a' as int) as char else c
  }

  /** Lowercases a string character by character. */
  function Lower(s: string): (r: string)
    ensures |r| == |s|
    ensures forall i | 0 <= i < |r| :: !IsUpper(r[i])
    ensures forall i | 0 <= i < |s| && !IsUpper(s[i]) :: r[i] == s[i]
    ensures forall i | 0 <= i < |s| && IsUpper(s[i]) ::
      r[i] as int == s[i] as int - 'A' as int + 'a' as int
  {
    seq(|s|, i requires 0 <= i < |s| => LowerChar(s[i]))
  }

  /** Two characters are equal, or one is the ASCII capital of the other. */
  predicate SameLetterIgnoringCase(a: char, b: char) {
    a == b ||
    (IsUpper(a) && b as int == a as int - 'A' as int + 'a' as int) ||
    (IsUpper(b) && a as int == b as int - 'A' as int + 'a' as int)
  }

  /**
   * Lowercasing identifies exactly the strings that differ only in ASCII case:
   * two strings of equal length have the same lowercase form if and only if
   * each pair of characters is equal or differs only in case.
   */
  lemma LowerEqualIff(s: string, t: string)
    requires |s| == |t|
    ensures Lower(s) == Lower(t) <==>
      forall i | 0 <= i < |s| :: SameLetterIgnoringCase(s[i], t[i])
  {
    if Lower(s) == Lower(t) {
      forall i | 0 <= i < |s| ensures SameLetterIgnoringCase(s[i], t[i]) {
        assert Lower(s)[i] == Lower(t)[i];
      }
    }
    if forall i | 0 <= i < |s| :: SameLetterIgnoringCase(s[i], t[i]) {
      forall i | 0 <= i < |s| ensures Lower(s)[i] == Lower(t)[i] {
        assert SameLetterIgnoringCase(s[i], t[i]);
      }
    }
  }

  /** Lowercasing twice is lowercasing once. */
  lemma LowerIdempotent(s: string)
    ensures Lower(Lower(s)) == Lower(s)
  {
    var once := Lower(s);
    forall i | 0 <= i < |once|
      ensures Lower(once)[i] == once[i]
    {
      assert !IsUpper(once[i]);
    }
  }

  /** Only the empty string lowercases to the empty string. */
  lemma LowerEmpty(s: string)
    ensures Lower(s) == [] <==> s == []
  {
    assert |Lower(s)| == |s|;
  }

  /** `sub` sits in `s` starting at position `i`. */
  ghost predicate OccursAt(s: string, sub: string, i: int) {
    0 <= i && i + |sub| <= |s| && s[i..i + |sub|] == sub
  }

  /**
   * The substring test `sub in s`: true exactly when `sub` occurs somewhere
   * in `s`; the empty string occurs in every string.
   */
  function Contains(s: string, sub: string): (r: bool)
    ensures r <==> exists i :: OccursAt(s, sub, i)
    decreases |s|
  {
    if sub <= s then
      assert OccursAt(s, sub, 0);
      true
    else if s == [] then
      false
    else
      OccursShift(s, sub);
      Contains(s[1..], sub)
  }

  /** When `sub` is not a prefix of `s`, its occurrences are those in the tail of `s`. */
  lemma OccursShift(s: string, sub: string)
    requires s != [] && !(sub <= s)
    ensures (exists i :: OccursAt(s, sub, i)) <==> (exists i :: OccursAt(s[1..], sub, i))
  {
    if i :| OccursAt(s, sub, i) {
      assert i != 0;
      assert s[1..][i - 1..i - 1 + |sub|] == s[i..i + |sub|];
      assert OccursAt(s[1..], sub, i - 1);
    }
    if j :| OccursAt(s[1..], sub, j) {
      assert s[j + 1..j + 1 + |sub|] == s[1..][j..j + |sub|];
      assert OccursAt(s, sub, j + 1);
    }
  }

  /** A one-character string occurs only where that character stands. */
  lemma ContainsCharIff(s: string, c: char)
    ensures Contains(s, [c]) <==> c in s
  {
    forall i | 0 <= i < |s|
      ensures OccursAt(s, [c], i) <==> s[i] == c
    {
      assert s[i..i + 1][0] == s[i];
    }
  }

  /** A string that contains a non-empty string is at least as long, so non-empty. */
  lemma ContainsLength(s: string, sub: string)
    requires Contains(s, sub)
    ensures |sub| <= |s|
    ensures sub != [] ==> s != []
  {
    var i :| OccursAt(s, sub, i);
  }
}
