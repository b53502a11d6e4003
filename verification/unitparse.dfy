/** Reading and writing the unit file text: classifying lines as comments,
    group headers and key=value entries, joining backslash continuations
    of entries, collecting the comments that precede each header or entry,
    and printing a file back with one blank line between groups. */
module UnitParse {
  import opened Wrappers
  import opened Strings
  import opened UnitFiles

  // ---------------------------------------------------------------------
  // Line classes and names
  // ---------------------------------------------------------------------

  /** line_is_comment: an empty line or one starting with '#' or ';'. */
  predicate LineIsComment(l: string) {
    |l| == 0 || l[0] == '#' || l[0] == ';'
  }

  predicate IsBlank(c: char) {
    c == ' ' || c == '\t'
  }

  /** line_is_group: '[' then a ']' with only blanks after it. */
  predicate LineIsGroup(l: string) {
    |l| > 0 && l[0] == '[' &&
    var k := IndexOf(l[1..], ']');
    k >= 0 && forall i :: k + 2 <= i < |l| ==> IsBlank(l[i])
  }

  /** The header's name: between the '[' and the closing ']' (the source
      searches back for the last ']', which is the same one since only
      blanks follow it). */
  function GroupNameOf(l: string): string
    requires LineIsGroup(l)
  {
    l[1..1 + IndexOf(l[1..], ']')]
  }

  /** line_is_key_value_pair: an '=' that is not the first character. */
  predicate LineIsKeyValue(l: string) {
    |l| > 0 && '=' in l && l[0] != '='
  }

  /** is_valid_group_name: non-empty, no brackets, no control characters. */
  predicate IsValidGroupName(name: string) {
    |name| > 0 &&
    forall i :: 0 <= i < |name| ==> name[i] != ']' && name[i] != '[' && !IsAsciiCntrl(name[i])
  }

  predicate IsKeyStop(c: char) {
    c == '=' || c == '[' || c == ']'
  }

  /** The first '=', '[' or ']' at or after i, or the end. */
  function KeyStop(key: string, i: nat): (q: nat)
    requires i <= |key|
    ensures i <= q <= |key|
    ensures forall k :: i <= k < q ==> !IsKeyStop(key[k])
    ensures q < |key| ==> IsKeyStop(key[q])
    decreases |key| - i
  {
    if i == |key| || IsKeyStop(key[i]) then i else KeyStop(key, i + 1)
  }

  /** A character allowed in a key's locale suffix. */
  predicate IsLocaleChar(c: char) {
    IsAsciiAlnum(c) || c == '-' || c == '_' || c == '.' || c == '@'
  }

  function LocaleStop(key: string, i: nat): (r: nat)
    requires i <= |key|
    ensures i <= r <= |key|
    ensures forall k :: i <= k < r ==> IsLocaleChar(key[k])
    ensures r < |key| ==> !IsLocaleChar(key[r])
    decreases |key| - i
  {
    if i == |key| || !IsLocaleChar(key[i]) then i else LocaleStop(key, i + 1)
  }

  /** is_valid_key_name: a non-empty name free of '=', '[' and ']', not
      starting or ending with a space, optionally followed by a locale
      suffix "[xx_YY]" that ends the key. */
  predicate IsValidKeyName(key: string) {
    var q := KeyStop(key, 0);
    q > 0 && key[0] != ' ' && key[q - 1] != ' ' &&
    (q == |key| ||
     (key[q] == '[' &&
      var r := LocaleStop(key, q + 1);
      r < |key| && key[r] == ']' && r + 1 == |key|))
  }

  /** A valid key holds no '=' and does not start with '['. */
  lemma ValidKeyShape(key: string)
    requires IsValidKeyName(key)
    ensures |key| > 0 && '=' !in key && key[0] != '['
  {
    var q := KeyStop(key, 0);
    if q < |key| {
      var r := LocaleStop(key, q + 1);
      assert forall k :: q < k < r ==> key[k] != '=';
    }
  }

  // ---------------------------------------------------------------------
  // The parser
  // ---------------------------------------------------------------------

  datatype ParseError =
    | InvalidGroupName(name: string)
    | GroupNotFound
    | InvalidKeyName(key: string)
    | NotKeyValue(lineNr: int, text: string)

  /** The parser's fields: the file so far, the name of the current group,
      the comments not yet attached, and the line number. */
  datatype State = State(unit: UnitFile, current: Option<string>, pending: seq<string>, lineNr: int)

  function AsComments(cs: seq<string>): (ls: seq<Line>)
    ensures |ls| == |cs|
    ensures forall i :: 0 <= i < |cs| ==> ls[i] == Comment(cs[i])
  {
    seq(|cs|, i requires 0 <= i < |cs| => Comment(cs[i]))
  }

  /** Appends comments to the header comments of the group called name. */
  function AddComments(u: UnitFile, name: string, cs: seq<string>): UnitFile {
    match FindGroup(u.groups, name)
    case None => u
    case Some(i) => UnitFile(u.groups[i := u.groups[i].(comments := u.groups[i].comments + cs)])
  }

  /** Appends lines to the group called name. */
  function AddLines(u: UnitFile, name: string, ls: seq<Line>): UnitFile {
    match FindGroup(u.groups, name)
    case None => u
    case Some(i) => UnitFile(u.groups[i := u.groups[i].(lines := u.groups[i].lines + ls)])
  }

  /** The pending comments a header takes: one leading empty line is
      dropped, since printing puts one blank line between groups. */
  function HeaderComments(pending: seq<string>): seq<string> {
    if |pending| > 0 && pending[0] == "" then pending[1..] else pending
  }

  /** parse_group. */
  function ParseGroup(st: State, l: string): Result<State, ParseError>
    requires LineIsGroup(l)
  {
    var name := GroupNameOf(l);
    if !IsValidGroupName(name) then Failure(InvalidGroupName(name))
    else
      var u := EnsureGroup(st.unit, name);
      Success(State(AddComments(u, name, HeaderComments(st.pending)), Some(name), [], st.lineNr))
  }

  /** parse_key_value_pair: the key is the text before the first '=' without
      trailing whitespace, the value the text after it without leading
      whitespace; pending comments go before the entry. */
  function ParseKeyValue(st: State, l: string): Result<State, ParseError>
    requires LineIsKeyValue(l)
  {
    if st.current.None? then Failure(GroupNotFound)
    else
      var eq := IndexOf(l, '=');
      var key := Chomp(l[..eq]);
      if !IsValidKeyName(key) then Failure(InvalidKeyName(key))
      else
        var rest := l[eq + 1..];
        var value := rest[SpaceRun(rest)..];
        var lines := AsComments(st.pending) + [Entry(key, value)];
        Success(State(AddLines(st.unit, st.current.value, lines), st.current, [], st.lineNr))
  }

  /** parse_line: comment, group header or entry, tried in that order. */
  function ParseLine(st: State, l: string): Result<State, ParseError> {
    if LineIsComment(l) then Success(st.(pending := st.pending + [l]))
    else if LineIsGroup(l) then ParseGroup(st, l)
    else if LineIsKeyValue(l) then ParseKeyValue(st, l)
    else Failure(NotKeyValue(st.lineNr, l))
  }

  /** The end of the physical line starting at from: the next newline or
      the end of the text. */
  function LineEnd(data: string, from: nat): (e: nat)
    requires from <= |data|
    ensures from <= e <= |data|
    ensures e < |data| ==> data[e] == '\n'
    decreases |data| - from
  {
    if from == |data| || data[from] == '\n' then from else LineEnd(data, from + 1)
  }

  /** No newline comes before the end of a line. */
  lemma {:induction false} LineEndFirst(data: string, from: nat, stop: nat)
    requires from <= stop < |data| && data[stop] == '\n'
    ensures LineEnd(data, from) <= stop
    decreases stop - from
  {
    if data[from] != '\n' {
      LineEndFirst(data, from + 1, stop);
    }
  }

  /** The number of newlines in s. */
  function CountNewlines(s: string): nat
    decreases |s|
  {
    if |s| == 0 then 0
    else CountNewlines(s[..|s| - 1]) + (if s[|s| - 1] == '\n' then 1 else 0)
  }

  lemma {:induction false} CountNewlinesAppend(a: string, b: string)
    ensures CountNewlines(a + b) == CountNewlines(a) + CountNewlines(b)
    decreases |b|
  {
    if |b| > 0 {
      assert (a + b)[..|a + b| - 1] == a + b[..|b| - 1];
      CountNewlinesAppend(a, b[..|b| - 1]);
    } else {
      assert a + b == a;
    }
  }

  lemma {:induction false} CountNewlinesNone(s: string)
    requires forall i :: 0 <= i < |s| ==> s[i] != '\n'
    ensures CountNewlines(s) == 0
    decreases |s|
  {
    if |s| > 0 {
      CountNewlinesNone(s[..|s| - 1]);
    }
  }

  /** The continuation loop: while the text read so far is followed by a
      newline and ends in a backslash, the next physical line is joined to
      it. Gives the end of the logical line. */
  function ExtendLine(data: string, start: nat, e: nat): (r: nat)
    requires start < e <= |data|
    requires e < |data| ==> data[e] == '\n'
    ensures e <= r <= |data|
    ensures r < |data| ==> data[r] == '\n'
    decreases |data| - e
  {
    if e < |data| && data[e - 1] == '\\' then ExtendLine(data, start, LineEnd(data, e + 1))
    else e
  }

  /** Where the logical line starting at pos ends: only an entry line is
      continued. */
  function NextLogical(data: string, pos: nat): (r: nat)
    requires pos < |data|
    ensures pos <= r <= |data|
    ensures r < |data| ==> data[r] == '\n'
  {
    var e := LineEnd(data, pos);
    if LineIsKeyValue(data[pos..e]) then ExtendLine(data, pos, e) else e
  }

  /** The logical lines of data from pos on, continuations joined, each
      without the newline that ends it. */
  function LogicalLines(data: string, pos: nat): seq<string>
    requires pos <= |data|
    decreases |data| - pos
  {
    if pos == |data| then []
    else
      var end := NextLogical(data, pos);
      [data[pos..end]] + LogicalLines(data, if end < |data| then end + 1 else |data|)
  }

  /** How many physical lines the logical lines ls take up. */
  function Physical(ls: seq<string>): nat
    decreases |ls|
  {
    if |ls| == 0 then 0 else 1 + CountNewlines(ls[0]) + Physical(ls[1..])
  }

  /** What parse_line does with one logical line. The main loop takes it
      as a parameter so that facts about the loop hold for any handler with
      the property they need. */
  type LineHandler = (State, string) -> Result<State, ParseError>

  /** The main loop of quad_unit_file_parse over the logical lines. The
      line number grows by one per logical line as written (physical is
      false) and by the physical lines consumed as intended (physical is
      true). */
  function ParseLines(ls: seq<string>, st: State, physical: bool, handle: LineHandler): Result<State, ParseError>
    decreases |ls|
  {
    if |ls| == 0 then Success(st)
    else
      match handle(st, ls[0])
      case Failure(err) => Failure(err)
      case Success(s) =>
        var n := if physical then 1 + CountNewlines(ls[0]) else 1;
        ParseLines(ls[1..], s.(lineNr := s.lineNr + n), physical, handle)
  }

  /** One step of the loop, for a line the handler accepts. */
  lemma ParseLinesStep(ls: seq<string>, st: State, physical: bool, h: LineHandler, s: State) returns (s': State)
    requires |ls| > 0 && h(st, ls[0]) == Success(s)
    ensures s' == s.(lineNr := s.lineNr + if physical then 1 + CountNewlines(ls[0]) else 1)
    ensures ParseLines(ls, st, physical, h) == ParseLines(ls[1..], s', physical, h)
  {
    s' := s.(lineNr := s.lineNr + if physical then 1 + CountNewlines(ls[0]) else 1);
  }

  /** The end of quad_unit_file_parse: comments after the last entry go to
      the current group's lines; without a group they are dropped. */
  function Finish(st: State): UnitFile {
    match st.current
    case None => st.unit
    case Some(name) => AddLines(st.unit, name, AsComments(st.pending))
  }

  const Start: State := State(Empty, None, [], 1)

  function ParseWith(data: string, physical: bool): Result<UnitFile, ParseError> {
    match ParseLines(LogicalLines(data, 0), Start, physical, ParseLine)
    case Failure(err) => Failure(err)
    case Success(st) => Success(Finish(st))
  }

  /** quad_unit_file_parse as written: error line numbers count logical lines. */
  function ParseAsWritten(data: string): Result<UnitFile, ParseError> {
    ParseWith(data, false)
  }

  /** quad_unit_file_parse with line numbers counting physical lines. */
  function Parse(data: string): Result<UnitFile, ParseError> {
    ParseWith(data, true)
  }

  // ---------------------------------------------------------------------
  // The printer
  // ---------------------------------------------------------------------

  /** quad_unit_line_print. */
  function PrintLine(l: Line): string {
    match l
    case Comment(t) => t + "\n"
    case Entry(k, v) => k + "=" + v + "\n"
  }

  function PrintLines(ls: seq<Line>): string
    decreases |ls|
  {
    if |ls| == 0 then "" else PrintLine(ls[0]) + PrintLines(ls[1..])
  }

  function PrintComments(cs: seq<string>): string
    decreases |cs|
  {
    if |cs| == 0 then "" else cs[0] + "\n" + PrintComments(cs[1..])
  }

  /** quad_unit_group_print: comments, header, lines. */
  function PrintGroup(g: Group): string {
    PrintComments(g.comments) + "[" + g.name + "]\n" + PrintLines(g.lines)
  }

  /** Every group after the first, each preceded by a blank line. */
  function PrintRest(gs: seq<Group>): string
    decreases |gs|
  {
    if |gs| == 0 then "" else "\n" + PrintGroup(gs[0]) + PrintRest(gs[1..])
  }

  /** quad_unit_file_print. */
  function Print(u: UnitFile): string {
    if |u.groups| == 0 then "" else PrintGroup(u.groups[0]) + PrintRest(u.groups[1..])
  }

  // ---------------------------------------------------------------------
  // Line numbers in errors
  // ---------------------------------------------------------------------

  /** Two outcomes that differ at most in the line number of an error. */
  predicate SameButLine(a: Result<State, ParseError>, b: Result<State, ParseError>) {
    match a
    case Success(sa) => b.Success? && sa.(lineNr := 0) == b.value.(lineNr := 0)
    case Failure(ea) =>
      b.Failure? &&
      (ea == b.error || (ea.NotKeyValue? && b.error.NotKeyValue? && ea.text == b.error.text))
  }

  /** Text starts a line at p, and that line is physical line number n. */
  predicate LineAt(data: string, p: nat, n: int, text: string) {
    p + |text| <= |data| && (p == 0 || data[p - 1] == '\n') &&
    data[p..p + |text|] == text && n == 1 + CountNewlines(data[..p])
  }

  /** The error names the physical line on which the offending text starts. */
  predicate NamesItsLine(data: string, err: ParseError) {
    err.NotKeyValue? ==> exists p: nat :: p <= |data| && LineAt(data, p, err.lineNr, err.text)
  }

  /** The handler changes the line number only by failing with it. */
  predicate KeepsNumber(handle: LineHandler, st: State, l: string) {
    (handle(st, l).Success? ==> handle(st, l).value.lineNr == st.lineNr) &&
    (handle(st, l).Failure? && handle(st, l).error.NotKeyValue? ==> handle(st, l).error == NotKeyValue(st.lineNr, l))
  }

  /** What the handler does does not depend on the line number. */
  predicate IgnoresNumber(handle: LineHandler, st: State, l: string, n: int) {
    SameButLine(handle(st, l), handle(st.(lineNr := n), l)) &&
    (handle(st, l).Success? ==> handle(st.(lineNr := n), l).value == handle(st, l).value.(lineNr := n))
  }

  lemma ParseLineNumber(st: State, l: string)
    ensures KeepsNumber(ParseLine, st, l)
  {
  }

  lemma ParseLineIgnoresNumber(st: State, l: string, n: int)
    ensures IgnoresNumber(ParseLine, st, l, n)
  {
  }

  /** An error reported by the loop names the k-th logical line, and its
      number is the starting number plus the logical lines before it (as
      written) or the physical lines before it (as intended). */
  lemma {:induction false} ParseLinesNumbers(ls: seq<string>, st: State, physical: bool, handle: LineHandler)
    returns (k: nat)
    requires forall s, l :: KeepsNumber(handle, s, l)
    ensures var r := ParseLines(ls, st, physical, handle);
      r.Failure? && r.error.NotKeyValue? ==>
        k < |ls| && r.error == NotKeyValue(st.lineNr + (if physical then Physical(ls[..k]) else k), ls[k])
    decreases |ls|
  {
    k := 0;
    if |ls| > 0 {
      assert KeepsNumber(handle, st, ls[0]);
      var r := handle(st, ls[0]);
      if r.Success? {
        var n := if physical then 1 + CountNewlines(ls[0]) else 1;
        var k' := ParseLinesNumbers(ls[1..], r.value.(lineNr := r.value.lineNr + n), physical, handle);
        k := k' + 1;
        if k' < |ls| - 1 {
          assert ls[..k][1..] == ls[1..][..k'];
        }
      }
    }
  }

  /** The k-th logical line starts at p, right after a newline, and the
      physical lines before it are the newlines between pos and p. */
  lemma {:induction false} LogicalLinesAt(data: string, pos: nat, k: nat) returns (p: nat)
    requires pos <= |data| && k < |LogicalLines(data, pos)|
    ensures var ls := LogicalLines(data, pos);
      pos <= p && p + |ls[k]| <= |data| && (p == pos || data[p - 1] == '\n') &&
      data[p..p + |ls[k]|] == ls[k] && CountNewlines(data[pos..p]) == Physical(ls[..k])
    decreases |data| - pos
  {
    var ls := LogicalLines(data, pos);
    var end := NextLogical(data, pos);
    if k == 0 {
      p := pos;
      assert data[pos..pos] == [];
    } else {
      var next := if end < |data| then end + 1 else |data|;
      var rest := LogicalLines(data, next);
      assert ls == [data[pos..end]] + rest;
      assert end < |data|;
      p := LogicalLinesAt(data, next, k - 1);
      PhysicalCons(ls, data[pos..end], rest, k);
      CountNewlinesLine(data, pos, end, p);
    }
  }

  /** The lines before the k-th: the first line, then those before the
      (k-1)-th of the rest. */
  lemma PhysicalCons(ls: seq<string>, first: string, rest: seq<string>, k: nat)
    requires ls == [first] + rest && 0 < k < |ls|
    ensures ls[k] == rest[k - 1]
    ensures Physical(ls[..k]) == 1 + CountNewlines(first) + Physical(rest[..k - 1])
  {
    assert ls[..k] == [first] + rest[..k - 1];
    assert ls[..k][1..] == rest[..k - 1];
  }

  /** The newlines from pos to p: those inside the line ending at end, the
      one ending it and those after it. */
  lemma CountNewlinesLine(data: string, pos: nat, end: nat, p: nat)
    requires pos <= end < p <= |data| && data[end] == '\n'
    ensures CountNewlines(data[pos..p]) == CountNewlines(data[pos..end]) + 1 + CountNewlines(data[end + 1..p])
  {
    assert data[pos..p] == data[pos..end] + [data[end]] + data[end + 1..p];
    CountNewlinesAppend(data[pos..end] + [data[end]], data[end + 1..p]);
    CountNewlinesAppend(data[pos..end], [data[end]]);
    assert CountNewlines([data[end]]) == 1 by {
      assert [data[end]][..0] == [];
    }
  }

  /** Parse reports the physical line of the offending text. */
  lemma ParseErrorLine(data: string)
    ensures Parse(data).Failure? ==> NamesItsLine(data, Parse(data).error)
  {
    forall s, l ensures KeepsNumber(ParseLine, s, l) {
      ParseLineNumber(s, l);
    }
    var ls := LogicalLines(data, 0);
    var k := ParseLinesNumbers(ls, Start, true, ParseLine);
    var r := ParseLines(ls, Start, true, ParseLine);
    if r.Failure? && r.error.NotKeyValue? {
      var p := LogicalLinesAt(data, 0, k);
      assert data[0..p] == data[..p];
      assert LineAt(data, p, r.error.lineNr, r.error.text);
    }
  }

  /** As written, the reported number counts logical lines: the error on
      the k-th logical line says line k + 1. */
  lemma ParseAsWrittenErrorLine(data: string) returns (k: nat)
    ensures var r := ParseAsWritten(data);
      r.Failure? && r.error.NotKeyValue? ==>
        k < |LogicalLines(data, 0)| && r.error == NotKeyValue(k + 1, LogicalLines(data, 0)[k])
  {
    forall s, l ensures KeepsNumber(ParseLine, s, l) {
      ParseLineNumber(s, l);
    }
    k := ParseLinesNumbers(LogicalLines(data, 0), Start, false, ParseLine);
  }

  /** The line count affects nothing but error messages. */
  lemma {:induction false} ParseLinesModes(ls: seq<string>, s1: State, s2: State, handle: LineHandler)
    requires s1.(lineNr := 0) == s2.(lineNr := 0)
    requires forall s, l, n :: IgnoresNumber(handle, s, l, n)
    ensures SameButLine(ParseLines(ls, s1, false, handle), ParseLines(ls, s2, true, handle))
    decreases |ls|
  {
    if |ls| > 0 {
      assert s2 == s1.(lineNr := s2.lineNr);
      assert IgnoresNumber(handle, s1, ls[0], s2.lineNr);
      var r1 := handle(s1, ls[0]);
      if r1.Success? {
        var r2 := handle(s2, ls[0]);
        ParseLinesModes(ls[1..], r1.value.(lineNr := r1.value.lineNr + 1),
                        r2.value.(lineNr := r2.value.lineNr + 1 + CountNewlines(ls[0])), handle);
      }
    }
  }

  /** Both versions build the same file and fail on the same input. */
  lemma ParseAgreesWithAsWritten(data: string)
    ensures Parse(data).Success? <==> ParseAsWritten(data).Success?
    ensures Parse(data).Success? ==> Parse(data) == ParseAsWritten(data)
    ensures Parse(data).Failure? && !Parse(data).error.NotKeyValue? ==> Parse(data) == ParseAsWritten(data)
  {
    forall s, l, n ensures IgnoresNumber(ParseLine, s, l, n) {
      ParseLineIgnoresNumber(s, l, n);
    }
    var ls := LogicalLines(data, 0);
    ParseLinesModes(ls, Start, Start, ParseLine);
    var a := ParseLines(ls, Start, false, ParseLine);
    var b := ParseLines(ls, Start, true, ParseLine);
    if a.Success? {
      assert Finish(a.value) == Finish(a.value.(lineNr := 0));
      assert Finish(b.value) == Finish(b.value.(lineNr := 0));
    }
  }

  /** A continued entry swallows the blank line after it. */
  lemma LogicalLinesExample()
    ensures LogicalLines("[a]\nk=\\\n\nb", 0) == ["[a]", "k=\\\n", "b"]
  {
    var d := "[a]\nk=\\\n\nb";
    assert d[0] == '[' && d[1] == 'a' && d[2] == ']' && d[3] == '\n' && d[4] == 'k' && d[5] == '=';
    assert d[6] == '\\' && d[7] == '\n' && d[8] == '\n' && d[9] == 'b' && |d| == 10;
    assert d[0..3] == "[a]" && d[4..7] == "k=\\" && d[4..8] == "k=\\\n" && d[9..10] == "b";
    assert LineEnd(d, 0) == 3;
    assert !LineIsKeyValue("[a]");
    assert LineEnd(d, 4) == 7;
    assert LineEnd(d, 8) == 8;
    assert ExtendLine(d, 4, 7) == 8;
    assert LineEnd(d, 9) == 10;
    assert LogicalLines(d, 10) == [];
  }

  /** After a continued entry the two counts part: the bad line is the
      fourth physical line but the third logical one. */
  lemma LineNumberAfterContinuation()
    ensures ParseAsWritten("[a]\nk=\\\n\nb") == Failure(NotKeyValue(3, "b"))
    ensures Parse("[a]\nk=\\\n\nb") == Failure(NotKeyValue(4, "b"))
  {
    LogicalLinesExample();
    LinesExample(false);
    LinesExample(true);
  }

  lemma LinesExample(physical: bool)
    ensures ParseLines(["[a]", "k=\\\n", "b"], Start, physical, ParseLine) ==
      Failure(NotKeyValue(if physical then 4 else 3, "b"))
  {
    var ls := ["[a]", "k=\\\n", "b"];
    HeaderNewlines();
    HeaderExample();
    var s1 := ParseLinesStep(ls, Start, physical, ParseLine, State(UnitFile([Group("a", [], [])]), Some("a"), [], 1));
    assert ls[1..] == ["k=\\\n", "b"];
    assert s1 == State(UnitFile([Group("a", [], [])]), Some("a"), [], 2);
    EntryLinesExample(physical);
  }

  lemma EntryLinesExample(physical: bool)
    ensures ParseLines(["k=\\\n", "b"], State(UnitFile([Group("a", [], [])]), Some("a"), [], 2), physical, ParseLine) ==
      Failure(NotKeyValue(if physical then 4 else 3, "b"))
  {
    var ls := ["k=\\\n", "b"];
    EntryExample(2);
    var s1 := ParseLinesStep(ls, State(UnitFile([Group("a", [], [])]), Some("a"), [], 2), physical, ParseLine,
                             State(UnitFile([Group("a", [], [Entry("k", "\\\n")])]), Some("a"), [], 2));
    ContinuedNewlines();
    assert ls[1..] == ["b"];
    assert s1 == State(UnitFile([Group("a", [], [Entry("k", "\\\n")])]), Some("a"), [], if physical then 4 else 3);
    BadLineExample(if physical then 4 else 3);
  }

  lemma HeaderNewlines()
    ensures CountNewlines("[a]") == 0
  {
    CountNewlinesNone("[a]");
  }

  lemma ContinuedNewlines()
    ensures CountNewlines("k=\\\n") == 1
  {
    CountNewlinesNone("k=\\");
    CountNewlinesAppend("k=\\", "\n");
    assert "k=\\" + "\n" == "k=\\\n";
    assert "\n"[..0] == [];
  }

  lemma BadLineExample(n: int)
    ensures ParseLines(["b"], State(UnitFile([Group("a", [], [Entry("k", "\\\n")])]), Some("a"), [], n), true, ParseLine) ==
      Failure(NotKeyValue(n, "b"))
    ensures ParseLines(["b"], State(UnitFile([Group("a", [], [Entry("k", "\\\n")])]), Some("a"), [], n), false, ParseLine) ==
      Failure(NotKeyValue(n, "b"))
  {
    assert !LineIsKeyValue("b");
  }

  lemma HeaderExample()
    ensures ParseLine(State(Empty, None, [], 1), "[a]") == Success(State(UnitFile([Group("a", [], [])]), Some("a"), [], 1))
  {
    var l := "[a]";
    assert l[1..] == "a]";
    assert IndexOf("a]", ']') == 1;
    assert LineIsGroup(l);
    assert GroupNameOf(l) == "a";
    assert IsValidGroupName("a");
    var g := Group("a", [], []);
    assert EnsureGroup(Empty, "a") == UnitFile([g]);
    assert FindGroup([g], "a") == Some(0);
    assert g.comments + HeaderComments([]) == [];
    assert g.(comments := []) == g;
    assert [g][0 := g] == [g];
  }

  lemma EntryExample(n: int)
    ensures ParseLine(State(UnitFile([Group("a", [], [])]), Some("a"), [], n), "k=\\\n") ==
      Success(State(UnitFile([Group("a", [], [Entry("k", "\\\n")])]), Some("a"), [], n))
  {
    var l := "k=\\\n";
    assert l[0] == 'k' && l[1] == '=';
    assert IndexOf(l, '=') == 1;
    assert LineIsKeyValue(l) && !LineIsComment(l) && !LineIsGroup(l);
    assert l[..1] == "k";
    assert Chomp("k") == "k";
    assert KeyStop("k", 0) == 1;
    assert IsValidKeyName("k");
    assert l[2..] == "\\\n";
    assert SpaceRun("\\\n") == 0;
    assert "\\\n"[0..] == "\\\n";
    var g := Group("a", [], []);
    assert FindGroup([g], "a") == Some(0);
    var e := [Entry("k", "\\\n")];
    assert AsComments([]) + e == e;
    assert g.lines + e == e;
    assert [g][0 := g.(lines := e)] == [Group("a", [], e)];
  }
}
