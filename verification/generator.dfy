/** Reading KEY=VALUE lists, as the generator does for Environment= and
    Label=: every value is split into words and each word is one assignment;
    a later assignment to the same key replaces an earlier one. */
module Generator {
  import opened Wrappers
  import opened Strings
  import opened Tokenizer
  import opened Escape

  /** The key of an assignment: the text before its first '='. */
  function AssignmentKey(word: string): Option<string> {
    var eq := IndexOf(word, '=');
    if eq == -1 then None else Some(word[..eq])
  }

  /** parse_key_val: a word with an '=' binds the text before the first '='
      to the text after it; a word without one is reported and ignored. */
  function ParseKeyVal(env: map<string, string>, word: string): (r: map<string, string>)
    ensures AssignmentKey(word).None? ==> r == env
    ensures AssignmentKey(word).Some? ==> r.Keys == env.Keys + {AssignmentKey(word).value}
  {
    var eq := IndexOf(word, '=');
    if eq == -1 then env else env[word[..eq] := word[eq + 1..]]
  }

  /** A key free of '=' followed by '=' and any value binds exactly that. */
  lemma ParseKeyValSpec(env: map<string, string>, key: string, value: string)
    requires '=' !in key
    ensures ParseKeyVal(env, key + "=" + value) == env[key := value]
    ensures AssignmentKey(key + "=" + value) == Some(key)
  {
    var w := key + "=" + value;
    IndexOfAfterFree(key, '=', value);
    assert w == key + ['='] + value;
    assert w[..|key|] == key && w[|key| + 1..] == value;
  }

  /** The assignments of a word list, applied first to last. */
  function ParseAssignments(env: map<string, string>, words: seq<string>): map<string, string>
    decreases |words|
  {
    if |words| == 0 then env
    else ParseKeyVal(ParseAssignments(env, words[..|words| - 1]), words[|words| - 1])
  }

  /** The value the last assignment to key in words gives it, if any. */
  function LastAssigned(words: seq<string>, key: string): Option<string>
    decreases |words|
  {
    if |words| == 0 then None
    else
      var w := words[|words| - 1];
      if AssignmentKey(w) == Some(key) then Some(w[|key| + 1..])
      else LastAssigned(words[..|words| - 1], key)
  }

  /** The last assignment wins; a key nobody assigns keeps its old binding. */
  lemma {:induction false} ParseAssignmentsLastWins(env: map<string, string>, words: seq<string>, key: string)
    ensures var r := ParseAssignments(env, words);
      match LastAssigned(words, key)
      case Some(v) => key in r && r[key] == v
      case None => (key in r <==> key in env) && (key in env ==> r[key] == env[key])
    decreases |words|
  {
    if |words| > 0 {
      ParseAssignmentsLastWins(env, words[..|words| - 1], key);
    }
  }

  /** parse_keys: every entry is split into words the way the generator
      splits (relaxed, unquoting, C unescapes, whitespace separators) and
      each word is applied as an assignment. */
  function ParseKeys(entries: seq<string>): map<string, string>
    decreases |entries|
  {
    if |entries| == 0 then map[]
    else
      var words := SplitString(entries[|entries| - 1], Some(WHITESPACE), GENERATOR_FLAGS);
      ParseAssignments(ParseKeys(entries[..|entries| - 1]), words)
  }

  /** The generator's flags read back what quad_escape_words writes. */
  lemma GeneratorReadsEscapes()
    ensures ReadsEscapes(GENERATOR_FLAGS)
    ensures FlagsOf(SPLIT_RELAX + SPLIT_UNQUOTE + SPLIT_CUNESCAPE) == GENERATOR_FLAGS
  {
    GeneratorFlags();
  }

  /** An assignment list written by quad_escape_words reads back as the
      same assignments, so the last one for each key wins, when no word
      holds a '"' (which the escaper writes bare). */
  lemma ParseKeysEscaped(words: seq<string>, key: string)
    requires forall k :: 0 <= k < |words| ==> Readable(words[k]) && '"' !in words[k]
    ensures var r := ParseKeys([EscapeWordsAsWritten(words)]);
      match LastAssigned(words, key)
      case Some(v) => key in r && r[key] == v
      case None => key !in r
  {
    var s := EscapeWordsAsWritten(words);
    GeneratorReadsEscapes();
    EscapeSplitRoundTripAsWritten(words, GENERATOR_FLAGS);
    assert SplitString(s, Some(WHITESPACE), GENERATOR_FLAGS) == words;
    assert [s][..0] == [];
    ParseAssignmentsLastWins(map[], words, key);
  }

  /** A word without '=' is ignored, and a later value replaces an earlier one. */
  lemma ParseAssignmentsExample()
    ensures ParseAssignments(map[], ["A=1", "junk", "A=2=3"]) == map["A" := "2=3"]
  {
    ExampleWords();
    JunkExample();
    ParseKeyValSpec(map["A" := "1"], "A", "2=3");
    assert "A" + "=" + "2=3" == "A=2=3";
  }

  /** The prefixes of the example word list. */
  lemma ExampleWords()
    ensures ["A=1", "junk", "A=2=3"][..2] == ["A=1", "junk"]
    ensures ["A=1", "junk"][..1] == ["A=1"]
    ensures ["A=1"][..0] == []
  {
  }

  /** The first two words of the example: one assignment, then a word
      without '='. */
  lemma JunkExample()
    ensures ParseAssignments(map[], ["A=1", "junk"]) == map["A" := "1"]
  {
    ExampleWords();
    ParseKeyValSpec(map[], "A", "1");
    assert "A" + "=" + "1" == "A=1";
    assert IndexOf("junk", '=') == -1;
  }
}
