/**
 * Where the window's word list comes from: the JSON file beside the program
 * when it exists, the built-in demo list otherwise. Reading and parsing the
 * file are abstracted into the `WordFile` the caller passes in.
 */
module WordSource {
  import opened Text

  /** A parsed JSON value; numbers are kept as their literal text. */
  datatype Json =
    | JNull
    | JBool(b: bool)
    | JNumber(literal: string)
    | JString(s: string)
    | JArray(items: seq<Json>)
    | JObject(fields: map<string, Json>)

  /** The word file as the loader finds it. */
  datatype WordFile =
    | Absent                // no file at the expected path
    | Unparseable           // the file exists but opening or parsing it raises
    | Present(data: Json)   // the file exists and parses to `data`

  /** Why loading raises instead of returning a list. */
  datatype LoadError =
    | ParseFailed           // the parser's exception propagates
    | NotAnObject           // the parsed value has no `get`: it is not an object

  datatype Result<T> = Ok(value: T) | Err(error: LoadError)

  datatype Option<T> = None | Some(value: T)

  /** The demo words used when there is no file, in their display order. */
  function FallbackWords(): (r: seq<string>)
    ensures |r| == 10
    ensures forall i | 0 <= i < |r| :: r[i] != [] && Lower(r[i]) == r[i]
    ensures forall i, j | 0 <= i < j < |r| :: r[i] != r[j]
  {
    var r := ["apple", "banana", "cherry", "dragon", "eagle",
              "falcon", "grape", "honey", "ivory", "jungle"];
    forall i | 0 <= i < |r| ensures Lower(r[i]) == r[i] {
      LowerOfLowercase(r[i]);
    }
    r
  }

  /** A string without ASCII capitals is its own lowercase form. */
  lemma LowerOfLowercase(s: string)
    requires forall k | 0 <= k < |s| :: !IsUpper(s[k])
    ensures Lower(s) == s
  {
  }

  /** A list of strings as the JSON array that holds them. */
  function ToJson(words: seq<string>): (r: Json)
    ensures r.JArray? && |r.items| == |words|
    ensures forall i | 0 <= i < |words| :: r.items[i] == JString(words[i])
  {
    JArray(seq(|words|, i requires 0 <= i < |words| => JString(words[i])))
  }

  /** The list of strings a JSON array of strings holds; nothing for any other value. */
  function StringList(v: Json): (r: Option<seq<string>>)
    ensures r.Some? <==> v.JArray? && forall i | 0 <= i < |v.items| :: v.items[i].JString?
    ensures r.Some? ==> |r.value| == |v.items|
    ensures r.Some? ==> forall i | 0 <= i < |v.items| :: v.items[i] == JString(r.value[i])
  {
    if v.JArray? && forall i | 0 <= i < |v.items| :: v.items[i].JString? then
      Some(seq(|v.items|, i requires 0 <= i < |v.items| => v.items[i].s))
    else
      None
  }

  /** Reading back a list of strings written as a JSON array gives the same list. */
  lemma StringListOfToJson(words: seq<string>)
    ensures StringList(ToJson(words)) == Some(words)
  {
    var back := StringList(ToJson(words));
    assert back.Some?;
    assert back.value == words;
  }

  /**
   * The loader: no file gives the demo list; a file that parses to an object
   * gives its "words" entry, or an empty list when the key is missing; a file
   * that fails to parse, or parses to something other than an object, raises.
   */
  function LoadWords(file: WordFile): (r: Result<Json>)
    ensures r.Err? <==> file.Unparseable? || (file.Present? && !file.data.JObject?)
    ensures r == Err(ParseFailed) <==> file.Unparseable?
    ensures file.Absent? ==> r == Ok(ToJson(FallbackWords()))
    ensures file.Present? && r.Ok? ==>
      r.value == (if "words" in file.data.fields then file.data.fields["words"] else JArray([]))
  {
    match file
    case Absent => Ok(ToJson(FallbackWords()))
    case Unparseable => Err(ParseFailed)
    case Present(data) =>
      if data.JObject? then
        Ok(if "words" in data.fields then data.fields["words"] else JArray([]))
      else
        Err(NotAnObject)
  }

  /** Without a file the window gets exactly the ten demo words, in order. */
  lemma AbsentFileGivesFallback()
    ensures LoadWords(Absent).Ok?
    ensures StringList(LoadWords(Absent).value) ==
      Some(["apple", "banana", "cherry", "dragon", "eagle",
            "falcon", "grape", "honey", "ivory", "jungle"])
  {
    StringListOfToJson(FallbackWords());
  }

  /**
   * A file that parses to an object without a "words" key yields the empty
   * list, not the demo words.
   */
  lemma MissingKeyGivesEmptyList(fields: map<string, Json>)
    requires "words" !in fields
    ensures StringList(LoadWords(Present(JObject(fields))).value) == Some([])
    ensures StringList(LoadWords(Present(JObject(fields))).value) != Some(FallbackWords())
  {
  }

  /** A file whose "words" entry is a list of strings yields that list unchanged. */
  lemma PresentFileGivesItsWords(fields: map<string, Json>, words: seq<string>)
    requires "words" in fields && fields["words"] == ToJson(words)
    ensures StringList(LoadWords(Present(JObject(fields))).value) == Some(words)
  {
    StringListOfToJson(words);
  }
}
