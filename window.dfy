/**
 * The window's match logic: an immutable word list and one mutable text
 * field, the first-match display, written by two event handlers.
 */
module Window {
  import opened Text
  import opened Matching

  class LiquidGlassWindow {
    /** The word list, fixed when the window is built. */
    const words: seq<string>
    /** The read-only first-match field; the empty string is a cleared field. */
    var display: string

    /** A new window shows an empty first-match field. */
    constructor (words: seq<string>)
      ensures this.words == words
      ensures display == []
    {
      this.words := words;
      display := [];
    }

    /**
     * Text-changed handler: an empty query clears the field; otherwise the
     * field shows the first word, in list order, whose lowercase form contains
     * the lowercased query, and is cleared when there is none.
     */
    method OnTextChanged(text: string)
      modifies this`display
      ensures display == MatchDisplay(words, text)
      ensures text == [] ==> display == []
      ensures display != [] ==> exists i :: FirstHit(words, text, i) && words[i] == display
      ensures (forall w | w in words :: !Matches(w, text)) ==> display == []
    {
      if text == [] {
        display := [];
        return;
      }
      var textLower := Lower(text);
      for i := 0 to |words|
        invariant forall j | 0 <= j < i :: !Contains(Lower(words[j]), textLower)
      {
        if Contains(Lower(words[i]), textLower) {
          assert FirstHit(words, text, i);
          FirstHitIsDisplayed(words, text, i);
          display := words[i];
          return;
        }
      }
      display := [];
    }

    /** Highlight handler: the field shows exactly the highlighted text, whatever it is. */
    method OnSuggestionHighlighted(text: string)
      modifies this`display
      ensures display == text
    {
      display := text;
    }
  }

  /** The two events that write the first-match field. */
  datatype Event =
    | TextChanged(text: string)
    | SuggestionHighlighted(text: string)

  /** What the field shows right after one event; what it showed before plays no part. */
  function EventDisplay(words: seq<string>, e: Event): (r: string)
    ensures e.SuggestionHighlighted? ==> r == e.text
    ensures e.TextChanged? && e.text == [] ==> r == []
    ensures e.TextChanged? && r != [] ==> r in words && Matches(r, e.text)
  {
    match e
    case TextChanged(text) => MatchDisplay(words, text)
    case SuggestionHighlighted(text) => text
  }

  /** The field after a run of events, starting from `display`. */
  function Replay(words: seq<string>, display: string, events: seq<Event>): (r: string)
    ensures r == display || exists k :: 0 <= k < |events| && r == EventDisplay(words, events[k])
    decreases |events|
  {
    if events == [] then display
    else Replay(words, EventDisplay(words, events[0]), events[1..])
  }

  /**
   * Delivers a run of events to a window, each to its handler, in order; the
   * field ends where `Replay` says, so the lemmas about `Replay` hold of the class.
   */
  method Deliver(w: LiquidGlassWindow, events: seq<Event>)
    modifies w`display
    ensures w.display == Replay(w.words, old(w.display), events)
  {
    var i := 0;
    while i < |events|
      invariant 0 <= i <= |events|
      invariant Replay(w.words, old(w.display), events) == Replay(w.words, w.display, events[i..])
    {
      assert events[i..][1..] == events[i + 1..];
      match events[i] {
        case TextChanged(text) => w.OnTextChanged(text);
        case SuggestionHighlighted(text) => w.OnSuggestionHighlighted(text);
      }
      i := i + 1;
    }
  }

  /** Last write wins: after any non-empty run, the field is set by the last event alone. */
  lemma {:induction false} LastWriteWins(words: seq<string>, display: string, events: seq<Event>)
    requires events != []
    ensures Replay(words, display, events) == EventDisplay(words, events[|events| - 1])
    decreases |events|
  {
    if |events| > 1 {
      LastWriteWins(words, EventDisplay(words, events[0]), events[1..]);
    }
  }

  /** A highlight overrides whatever earlier events left in the field. */
  lemma HighlightOverrides(words: seq<string>, display: string, events: seq<Event>, h: string)
    ensures Replay(words, display, events + [SuggestionHighlighted(h)]) == h
  {
    LastWriteWins(words, display, events + [SuggestionHighlighted(h)]);
  }

  /** Repeating a text change with the same text leaves the field as one change does. */
  lemma TextChangeIdempotent(words: seq<string>, display: string, events: seq<Event>, t: string)
    ensures Replay(words, display, events + [TextChanged(t), TextChanged(t)]) ==
            Replay(words, display, events + [TextChanged(t)])
  {
    LastWriteWins(words, display, events + [TextChanged(t), TextChanged(t)]);
    LastWriteWins(words, display, events + [TextChanged(t)]);
  }

  /** With the list "Zebra", "apple" and the query "a", the field shows "Zebra". */
  lemma ZebraFirst()
    ensures MatchingWords(["Zebra", "apple"], "a") == ["Zebra", "apple"]
    ensures MatchDisplay(["Zebra", "apple"], "a") == "Zebra"
  {
    assert OccursAt(Lower("Zebra"), Lower("a"), 4);
    assert OccursAt(Lower("apple"), Lower("a"), 0);
    assert FirstHit(["Zebra", "apple"], "a", 0);
    FirstHitIsDisplayed(["Zebra", "apple"], "a", 0);
  }

  /** A session on one window: a typed query, then a highlight, then clearing the query. */
  method Session() {
    var w := new LiquidGlassWindow(["Zebra", "apple"]);
    ZebraFirst();
    w.OnTextChanged("a");
    assert w.display == "Zebra";
    w.OnSuggestionHighlighted("banana");
    assert w.display == "banana";
    w.OnTextChanged("");
    assert w.display == "";
    assert w.words == ["Zebra", "apple"];
    HighlightOverrides(w.words, w.display, [TextChanged("a")], "banana");
    Deliver(w, [TextChanged("a")] + [SuggestionHighlighted("banana")]);
    assert w.display == "banana";
  }
}
