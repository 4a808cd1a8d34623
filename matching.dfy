/**
 * What the "first match" field should show for a query: the first word of the
 * word list whose lowercase form contains the lowercased query, or nothing.
 * This module is the pure specification; the window's text-changed handler is
 * proved against it.
 */
module Matching {
  import opened Text

  /** The handler's test: the lowercased query occurs in the lowercased word. */
  predicate Matches(word: string, query: string)
    ensures Matches(word, query) <==> exists i :: OccursAt(Lower(word), Lower(query), i)
    ensures query == [] ==> Matches(word, query)
  {
    assert query == [] ==> OccursAt(Lower(word), Lower(query), 0);
    Contains(Lower(word), Lower(query))
  }

  /** A word that matches a non-empty query is itself non-empty. */
  lemma MatchedWordNonEmpty(word: string, query: string)
    requires query != [] && Matches(word, query)
    ensures word != [] && |query| <= |word|
  {
    LowerEmpty(query);
    ContainsLength(Lower(word), Lower(query));
  }

  /** Matching ignores the case of the query and of the word. */
  lemma MatchesIgnoresCase(word: string, query: string)
    ensures Matches(word, Lower(query)) == Matches(word, query)
    ensures Matches(Lower(word), query) == Matches(word, query)
  {
    LowerIdempotent(query);
    LowerIdempotent(word);
  }

  /**
   * Capitals in the query or the word do not stop a match, but a different
   * letter does: "pPL" is found in "Apple", "B" is not found in "apple".
   */
  lemma CaseInsensitiveExample()
    ensures Matches("Apple", "pPL")
    ensures !Matches("apple", "B")
  {
    assert Lower("pPL") == "ppl";
    assert Lower("Apple") == "apple";
    assert OccursAt("apple", "ppl", 1);
    assert Lower("B") == "b";
    assert Lower("apple") == "apple";
    ContainsCharIff("apple", 'b');
  }

  /**
   * Every word that matches the query, in word-list order (duplicates kept).
   * This is the reference definition the first match is taken from.
   */
  function MatchingWords(words: seq<string>, query: string): (r: seq<string>)
    ensures |r| <= |words|
    ensures forall w :: w in r <==> w in words && Matches(w, query)
  {
    if words == [] then []
    else
      assert words == [words[0]] + words[1..];
      (if Matches(words[0], query) then [words[0]] else []) + MatchingWords(words[1..], query)
  }

  /** Filtering a concatenation filters each part and keeps their order. */
  lemma {:induction false} MatchingWordsAppend(a: seq<string>, b: seq<string>, query: string)
    ensures MatchingWords(a + b, query) == MatchingWords(a, query) + MatchingWords(b, query)
  {
    if a != [] {
      assert (a + b)[1..] == a[1..] + b;
      MatchingWordsAppend(a[1..], b, query);
    } else {
      assert a + b == b;
    }
  }

  /** A prefix of non-matching words contributes nothing to the filtered list. */
  lemma {:induction false} MatchingWordsSkipPrefix(words: seq<string>, query: string, i: nat)
    requires i <= |words|
    requires forall j | 0 <= j < i :: !Matches(words[j], query)
    ensures MatchingWords(words, query) == MatchingWords(words[i..], query)
  {
    if i > 0 {
      assert !Matches(words[0], query);
      assert words[1..][i - 1..] == words[i..];
      MatchingWordsSkipPrefix(words[1..], query, i - 1);
    }
  }

  /** The filtered list depends on the query only through its lowercase form. */
  lemma {:induction false} MatchingWordsSameLowered(words: seq<string>, q1: string, q2: string)
    requires Lower(q1) == Lower(q2)
    ensures MatchingWords(words, q1) == MatchingWords(words, q2)
  {
    if words != [] {
      MatchingWordsSameLowered(words[1..], q1, q2);
    }
  }

  /**
   * Index `i` holds the first hit: the word there matches and no earlier
   * word does.
   */
  ghost predicate FirstHit(words: seq<string>, query: string, i: int) {
    0 <= i < |words| && Matches(words[i], query) &&
    forall j | 0 <= j < i :: !Matches(words[j], query)
  }

  /** The head of the filtered list is the word at the first hit. */
  lemma {:induction false} HeadIsFirstHit(words: seq<string>, query: string)
    requires MatchingWords(words, query) != []
    ensures exists i :: FirstHit(words, query, i) && words[i] == MatchingWords(words, query)[0]
  {
    if Matches(words[0], query) {
      assert FirstHit(words, query, 0);
    } else {
      HeadIsFirstHit(words[1..], query);
      var i :| FirstHit(words[1..], query, i) && words[1..][i] == MatchingWords(words[1..], query)[0];
      assert FirstHit(words, query, i + 1);
    }
  }

  /**
   * The text the first-match field shows for `text`, the empty string
   * meaning a cleared field: nothing for an empty query, otherwise the head
   * of the filtered list, or nothing when no word matches.
   */
  function MatchDisplay(words: seq<string>, text: string): (r: string)
    ensures text == [] ==> r == []
    ensures r == [] <==> text == [] || forall w | w in words :: !Matches(w, text)
    ensures r != [] ==> r in words && Matches(r, text)
    ensures r != [] ==> exists i :: FirstHit(words, text, i) && words[i] == r
  {
    if text == [] then []
    else
      var hits := MatchingWords(words, text);
      if hits == [] then []
      else
        MatchedWordNonEmpty(hits[0], text);
        HeadIsFirstHit(words, text);
        hits[0]
  }

  /** Whenever index `i` is the first hit of a non-empty query, the field shows the word there. */
  lemma FirstHitIsDisplayed(words: seq<string>, text: string, i: int)
    requires text != [] && FirstHit(words, text, i)
    ensures MatchDisplay(words, text) == words[i]
  {
    MatchingWordsSkipPrefix(words, text, i);
    assert words[i..] == [words[i]] + words[i + 1..];
  }

  /**
   * The field depends on the typed text only through its lowercase form;
   * in particular retyping the same text shows the same word.
   */
  lemma MatchDisplaySameLowered(words: seq<string>, t1: string, t2: string)
    requires Lower(t1) == Lower(t2)
    ensures MatchDisplay(words, t1) == MatchDisplay(words, t2)
  {
    LowerEmpty(t1);
    LowerEmpty(t2);
    MatchingWordsSameLowered(words, t1, t2);
  }

  /** Typing the lowercase form of a query shows the same word as the query itself. */
  lemma MatchDisplayOfLowered(words: seq<string>, text: string)
    ensures MatchDisplay(words, Lower(text)) == MatchDisplay(words, text)
  {
    LowerIdempotent(text);
    MatchDisplaySameLowered(words, Lower(text), text);
  }
}
