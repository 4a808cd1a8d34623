# First Words: the first-match display

"First Words" is a one-window desktop program. It has a search field with
autocomplete and a read-only "First Match" field. This project models the
logic behind that second field, and the loading of the word list it searches:

- **Text** (`text.dfy`): ASCII lowercasing (`Lower`) and the substring test
  (`Contains`). `Contains` is proved equal to "the string occurs at some
  position".
- **Matching** (`matching.dfy`): the pure specification. A word matches a query
  when its lowercase form contains the lowercased query. `MatchingWords` lists
  the matching words in word-list order. `MatchDisplay` is what the field shows:
  nothing for an empty query, otherwise the head of that list, and nothing when
  the list is empty. The empty string stands for a cleared field.
- **Window** (`window.dfy`): the class `LiquidGlassWindow`. It holds the word
  list, fixed at construction, and the mutable `display` field. It has the two
  handlers that write `display`: `OnTextChanged` (a scan with early exit) and
  `OnSuggestionHighlighted` (one unconditional write). `Event`, `EventDisplay`
  and `Replay` model the handlers fired in any order, which is last-write-wins;
  `Deliver` feeds such a run to a window's handlers and is proved to end where
  `Replay` says.
- **WordSource** (`word_source.dfy`): `LoadWords`. The file the loader finds is
  a parameter: absent, unparseable, or parsed to a JSON value. No file gives the
  ten demo words. A JSON object gives its `"words"` entry, or an empty array
  when that key is missing. An unparseable file, or a value that is not an
  object, raises, which is modelled as an error result.

The model follows the code in three places where a reader might expect otherwise:

- A file that cannot be parsed makes the loader raise. It does not fall back
  to the demo words.
- A JSON object without a `"words"` key gives the empty list, not the demo
  words.
- The highlight handler writes whatever text it receives, the empty string
  included. It has no check for a non-empty string.

## Model

| member | source | states |
|---|---|---|
| Text.Lower | main.py:116-118 | lowercasing keeps the length, turns each ASCII capital into its own small letter ('A' into 'a', …, 'Z' into 'z') and leaves every other character unchanged |
| Text.LowerEqualIff | main.py:116-118 | two strings of equal length lowercase to the same string exactly when each pair of characters is equal or differs only in ASCII case |
| Text.LowerIdempotent | main.py:116-118 | lowercasing an already lowercased string changes nothing |
| Text.Contains | main.py:118 | the `in` test holds exactly when the query occurs at some position of the word; the empty query occurs everywhere |
| Text.ContainsCharIff | main.py:118 | a one-character query is found exactly when that character is in the word |
| Matching.Matches | main.py:116-118 | a word matches exactly when its lowercase form has the lowercased query at some position; every word matches the empty query |
| Matching.CaseInsensitiveExample | main.py:116-118 | "pPL" matches "Apple" and "B" does not match "apple": case is ignored, letters are not |
| Matching.MatchesIgnoresCase | main.py:116-118 | whether a word matches does not change when the query or the word is lowercased first |
| Matching.MatchedWordNonEmpty | main.py:118-119 | a word that matches a non-empty query is non-empty and at least as long as the query |
| Matching.MatchingWords | main.py:117-120 | the matching words are never more than the words, and a string is among them exactly when it is a word that matches |
| Matching.MatchingWordsAppend | main.py:117-120 | filtering keeps word-list order: the matches of `a + b` are the matches of `a` followed by those of `b` |
| Matching.MatchingWordsSkipPrefix | main.py:117-120 | words before the first hit contribute nothing, so the scan may start at the first matching index |
| Matching.MatchingWordsSameLowered | main.py:116-118 | two queries with the same lowercase form select the same words |
| Matching.HeadIsFirstHit | main.py:117-120 | the head of the matching words sits at an index that matches with no matching index before it |
| Matching.MatchDisplay | main.py:109-121 | an empty query clears the field; the field is empty exactly when the query is empty or no word matches; a shown word is in the list, matches, and sits at the first hit |
| Matching.FirstHitIsDisplayed | main.py:117-120 | for a non-empty query, the word at the first matching index is the one shown |
| Matching.MatchDisplaySameLowered | main.py:116-121 | the shown word depends on the query only through its lowercase form, so retyping the same text shows the same word |
| Matching.MatchDisplayOfLowered | main.py:116-121 | typing the lowercased query shows the same word as typing the query |
| Window.LiquidGlassWindow.constructor | main.py:95-99 | a new window keeps the word list it is given (assigned at main.py:28) and starts with the freshly created, empty match field |
| Window.LiquidGlassWindow.OnTextChanged | main.py:109-121 | the loop leaves the field equal to `MatchDisplay` of the word list and the text: cleared for empty text, otherwise the first matching word in list order, cleared if none matches; the word list is untouched |
| Window.LiquidGlassWindow.OnSuggestionHighlighted | main.py:123-125 | the field becomes exactly the highlighted text, the empty string included; the word list is untouched |
| Window.EventDisplay | main.py:109-125 | after a highlight the field is the highlighted text; after an empty text change it is empty; after a text change that shows a word, that word is in the list and matches |
| Window.Replay | main.py:109-125 | after a run of events the field is either what it showed before or what one of the events wrote |
| Window.Deliver | main.py:89-90 | handing each event of a run to its handler, in order, leaves the window's field equal to `Replay` of the run from the old field, so the lemmas about `Replay` hold of the class |
| Window.LastWriteWins | main.py:109-125 | after any non-empty run of text-change and highlight events, the field is what the last event alone sets, whatever it showed before |
| Window.HighlightOverrides | main.py:123-125 | a highlight overrides whatever earlier events left in the field |
| Window.TextChangeIdempotent | main.py:109-121 | two text changes with the same text leave the field as one does |
| Window.ZebraFirst | main.py:116-120 | with the words "Zebra", "apple" and the query "a", both words match in that order and "Zebra" is shown |
| WordSource.FallbackWords | main.py:41-42 | the demo list has ten distinct, non-empty, already lowercase words |
| WordSource.LoadWords | main.py:33-42 | the loader raises exactly for an unparseable file or a parsed value that is not an object; no file gives the demo list; an object gives its "words" entry, or an empty array without that key |
| WordSource.StringListOfToJson | main.py:38-39 | a list of strings read back from its JSON array is the same list |
| WordSource.AbsentFileGivesFallback | main.py:36-42 | without a file the word list is exactly apple, banana, cherry, dragon, eagle, falcon, grape, honey, ivory, jungle, in that order |
| WordSource.MissingKeyGivesEmptyList | main.py:39 | a parsed object without "words" gives the empty list, which is not the demo list |
| WordSource.PresentFileGivesItsWords | main.py:36-39 | a parsed object whose "words" entry is a list of strings gives that list unchanged |

## Left out

- Text.Lower: only ASCII capitals are lowercased. The host language's full Unicode case mapping is not modelled. Neither are mappings that change a string's length.
- The suggestion drop-down (main.py:83-86) is filtered by the GUI toolkit's completer, not by this program's code. It is not modelled. `MatchingWords` is the reference list the first match is defined from, not a claim about the completer's popup.
- Reading the file and parsing JSON (main.py:35-38) are I/O. The caller supplies their outcome as a `WordFile`. JSON numbers are kept as their literal text, and an object is a map, so duplicate keys are not represented.
- A `"words"` entry that is not an array of strings is returned by `LoadWords` as it is. The window model takes a list of strings, so what the window does with any other value is not modelled.
- When the toolkit emits the text-changed and highlighted signals, and in what order, is not modelled; that is left to the caller of the handlers. The routing of each signal to its handler (main.py:89-90) is modelled by `Window.Deliver`, and `Replay` models the resulting run.
- Window chrome, layout, glow effect and stylesheet (main.py:44-94, 100-107, 127-237), drag-to-move (main.py:239-249), closing on Escape (main.py:251-255) and the font fallback and start-up in `main` (main.py:258-278) are presentation only. Within `setup_ui`, the creation of the empty match field (main.py:95-99) is modelled by the constructor. Handing the word list to the completer (main.py:83) belongs to the drop-down, which is left out above.
- Window.LiquidGlassWindow.OnSuggestionHighlighted: `display` is a plain string. The real field is a line-edit widget whose `setText` (main.py:119, 125) cuts the text off at the widget's maximum length, 32767 characters by default. So "the field is exactly the highlighted text" holds only for texts up to that length.
- Window.LiquidGlassWindow.OnTextChanged: the same truncation applies when the shown word is longer than 32767 characters. The model shows the whole word.
- Window.Deliver: inherits both truncation gaps, because it calls the two handlers.
