/** Reading back what the printer writes: a well-formed unit file printed
    and parsed again is the same unit file. */
module UnitRoundTrip {
  import opened Wrappers
  import opened Strings
  import opened UnitFiles
  import opened UnitParse

  // ---------------------------------------------------------------------
  // Logical lines of printed text
  // ---------------------------------------------------------------------

  /** Lines joined, each followed by a newline. */
  function JoinLines(ls: seq<string>): string
    decreases |ls|
  {
    if |ls| == 0 then "" else ls[0] + "\n" + JoinLines(ls[1..])
  }

  lemma {:induction false} JoinLinesAppend(a: seq<string>, b: seq<string>)
    ensures JoinLines(a + b) == JoinLines(a) + JoinLines(b)
    decreases |a|
  {
    if |a| == 0 {
      assert a + b == b;
    } else {
      assert (a + b)[1..] == a[1..] + b;
      JoinLinesAppend(a[1..], b);
    }
  }

  /** A newline at i, if there is one, continues a backslash just before it. */
  predicate ContinuedAt(s: string, i: nat)
    requires i < |s|
  {
    s[i] == '\n' ==> 0 < i && s[i - 1] == '\\'
  }

  /** A line that reads back as one logical line when a newline follows:
      every newline inside continues a backslash, only an entry line may
      hold one, and an entry line does not itself end in a backslash. */
  predicate OneLogical(l: string) {
    var e := LineEnd(l, 0);
    (forall i :: 0 <= i < |l| ==> ContinuedAt(l, i)) &&
    (e < |l| ==> LineIsKeyValue(l[..e])) &&
    (LineIsKeyValue(l[..e]) ==> l[|l| - 1] != '\\')
  }

  /** Searching for the end of a line inside a copy of l finds the same
      place as searching in l, or the newline after l. */
  lemma {:induction false} LineEndShift(data: string, pos: nat, l: string, from: nat)
    requires pos + |l| < |data| && data[pos..pos + |l|] == l && data[pos + |l|] == '\n'
    requires from <= |l|
    ensures LineEnd(data, pos + from) == pos + LineEnd(l, from)
    decreases |l| - from
  {
    if from < |l| {
      assert data[pos + from] == l[from];
      if l[from] != '\n' {
        LineEndShift(data, pos, l, from + 1);
      }
    }
  }

  /** The continuation loop stops at the first newline not preceded by a
      backslash. */
  lemma {:induction false} ExtendLineAt(data: string, start: nat, e: nat, stop: nat)
    requires start < e <= stop < |data| && data[stop] == '\n' && data[e] == '\n'
    requires data[stop - 1] != '\\'
    requires forall i :: e <= i < stop ==> ContinuedAt(data, i)
    ensures ExtendLine(data, start, e) == stop
    decreases stop - e
  {
    if e < stop {
      assert ContinuedAt(data, e);
      var e2 := LineEnd(data, e + 1);
      LineEndFirst(data, e + 1, stop);
      ExtendLineAt(data, start, e2, stop);
    }
  }

  /** A copy of a one-logical-line l followed by a newline is read as
      exactly l. */
  lemma NextLogicalOne(data: string, pos: nat, l: string)
    requires pos + |l| < |data| && data[pos..pos + |l|] == l && data[pos + |l|] == '\n'
    requires OneLogical(l)
    ensures NextLogical(data, pos) == pos + |l|
  {
    var e0 := LineEnd(l, 0);
    LineEndShift(data, pos, l, 0);
    var e := LineEnd(data, pos);
    assert e == pos + e0;
    assert data[pos..e] == l[..e0];
    if LineIsKeyValue(l[..e0]) {
      var stop := pos + |l|;
      assert forall i :: e <= i < stop ==> ContinuedAt(data, i) by {
        forall i | e <= i < stop
          ensures ContinuedAt(data, i)
        {
          assert ContinuedAt(l, i - pos);
          assert data[i] == l[i - pos];
          if data[i] == '\n' {
            assert data[i - 1] == l[i - pos - 1];
          }
        }
      }
      assert data[stop - 1] == l[|l| - 1];
      ExtendLineAt(data, pos, e, stop);
    }
  }

  lemma LogicalLinesStep(data: string, pos: nat, end: nat)
    requires pos <= end < |data| && NextLogical(data, pos) == end
    ensures LogicalLines(data, pos) == [data[pos..end]] + LogicalLines(data, end + 1)
  {
  }

  /** Joined lines start with the first line and a newline. */
  lemma JoinSplit(data: string, pos: nat, ls: seq<string>)
    requires pos <= |data| && data[pos..] == JoinLines(ls) && |ls| > 0
    ensures pos + |ls[0]| < |data|
    ensures data[pos..pos + |ls[0]|] == ls[0] && data[pos + |ls[0]|] == '\n'
    ensures data[pos + |ls[0]| + 1..] == JoinLines(ls[1..])
  {
    var l := ls[0];
    assert data[pos..] == l + "\n" + JoinLines(ls[1..]);
    assert data[pos..][..|l|] == l;
    assert data[pos..][|l|] == '\n';
    assert data[pos + |l| + 1..] == data[pos..][|l| + 1..];
  }

  /** Every line one logical line, stated from the front. */
  predicate AllOneLogical(ls: seq<string>)
    decreases |ls|
  {
    |ls| == 0 || (OneLogical(ls[0]) && AllOneLogical(ls[1..]))
  }

  lemma {:induction false} AllOneLogicalOf(ls: seq<string>)
    requires forall i :: 0 <= i < |ls| ==> OneLogical(ls[i])
    ensures AllOneLogical(ls)
    decreases |ls|
  {
    if |ls| > 0 {
      assert OneLogical(ls[0]);
      AllOneLogicalOf(ls[1..]);
    }
  }

  /** From pos on, data is read as the logical lines ls, one after another. */
  predicate ReadsAsLines(data: string, pos: nat, ls: seq<string>)
    requires pos <= |data|
    decreases |ls|
  {
    if |ls| == 0 then pos == |data|
    else
      var end := pos + |ls[0]|;
      end < |data| && NextLogical(data, pos) == end && data[pos..end] == ls[0] &&
      ReadsAsLines(data, end + 1, ls[1..])
  }

  /** From pos on, data holds the lines ls, each followed by a newline. */
  predicate JoinedAt(data: string, pos: nat, ls: seq<string>)
    requires pos <= |data|
    decreases |ls|
  {
    if |ls| == 0 then pos == |data|
    else
      var end := pos + |ls[0]|;
      end < |data| && data[pos..end] == ls[0] && data[end] == '\n' &&
      JoinedAt(data, end + 1, ls[1..])
  }

  lemma {:induction false} JoinedAtOf(data: string, pos: nat, ls: seq<string>)
    requires pos <= |data| && data[pos..] == JoinLines(ls)
    ensures JoinedAt(data, pos, ls)
    decreases |ls|
  {
    if |ls| == 0 {
      assert |JoinLines(ls)| == 0;
    } else {
      JoinSplit(data, pos, ls);
      JoinedAtOf(data, pos + |ls[0]| + 1, ls[1..]);
    }
  }

  /** Joined one-logical lines are read one after another. */
  lemma {:induction false} JoinReads(data: string, pos: nat, ls: seq<string>)
    requires pos <= |data| && JoinedAt(data, pos, ls)
    requires AllOneLogical(ls)
    ensures ReadsAsLines(data, pos, ls)
    decreases |ls|
  {
    if |ls| > 0 {
      NextLogicalOne(data, pos, ls[0]);
      JoinReads(data, pos + |ls[0]| + 1, ls[1..]);
      ReadsCons(data, pos, ls);
    }
  }

  lemma ReadsCons(data: string, pos: nat, ls: seq<string>)
    requires |ls| > 0 && pos + |ls[0]| < |data| && NextLogical(data, pos) == pos + |ls[0]|
    requires data[pos..pos + |ls[0]|] == ls[0] && ReadsAsLines(data, pos + |ls[0]| + 1, ls[1..])
    ensures ReadsAsLines(data, pos, ls)
  {
  }

  /** What is read one line after another are the logical lines. */
  lemma {:induction false} ReadsLogicalLines(data: string, pos: nat, ls: seq<string>)
    requires pos <= |data| && ReadsAsLines(data, pos, ls)
    ensures LogicalLines(data, pos) == ls
    decreases |ls|
  {
    if |ls| > 0 {
      var end := pos + |ls[0]|;
      LogicalLinesStep(data, pos, end);
      ReadsLogicalLines(data, end + 1, ls[1..]);
      assert [ls[0]] + ls[1..] == ls;
    }
  }

  /** The logical lines of joined one-logical lines are those lines. */
  lemma LogicalLinesJoin(data: string, pos: nat, ls: seq<string>)
    requires pos <= |data| && data[pos..] == JoinLines(ls)
    requires AllOneLogical(ls)
    ensures LogicalLines(data, pos) == ls
  {
    JoinedAtOf(data, pos, ls);
    JoinReads(data, pos, ls);
    ReadsLogicalLines(data, pos, ls);
  }

  // ---------------------------------------------------------------------
  // The printed lines
  // ---------------------------------------------------------------------

  /** The text of a line as quad_unit_line_print writes it, without the newline. */
  function LineText(l: Line): string {
    match l
    case Comment(t) => t
    case Entry(k, v) => k + "=" + v
  }

  function LineTexts(ls: seq<Line>): (ts: seq<string>)
    ensures |ts| == |ls|
    ensures forall i :: 0 <= i < |ls| ==> ts[i] == LineText(ls[i])
  {
    seq(|ls|, i requires 0 <= i < |ls| => LineText(ls[i]))
  }

  function Header(name: string): string {
    "[" + name + "]"
  }

  /** The lines printed for a group: its comments, its header, its lines. */
  function GroupText(g: Group): seq<string> {
    g.comments + [Header(g.name)] + LineTexts(g.lines)
  }

  /** The lines printed for the groups after the first: a blank line before each. */
  function RestText(gs: seq<Group>): seq<string>
    decreases |gs|
  {
    if |gs| == 0 then [] else [""] + GroupText(gs[0]) + RestText(gs[1..])
  }

  function PrintedLines(u: UnitFile): seq<string> {
    if |u.groups| == 0 then [] else GroupText(u.groups[0]) + RestText(u.groups[1..])
  }

  lemma {:induction false} PrintCommentsJoin(cs: seq<string>)
    ensures PrintComments(cs) == JoinLines(cs)
    decreases |cs|
  {
    if |cs| > 0 {
      PrintCommentsJoin(cs[1..]);
    }
  }

  lemma {:induction false} PrintLinesJoin(ls: seq<Line>)
    ensures PrintLines(ls) == JoinLines(LineTexts(ls))
    decreases |ls|
  {
    if |ls| > 0 {
      assert LineTexts(ls)[1..] == LineTexts(ls[1..]);
      PrintLinesJoin(ls[1..]);
      assert PrintLine(ls[0]) == LineText(ls[0]) + "\n";
    }
  }

  lemma PrintGroupJoin(g: Group)
    ensures PrintGroup(g) == JoinLines(GroupText(g))
  {
    var h := Header(g.name);
    var a, c := PrintComments(g.comments), PrintLines(g.lines);
    assert PrintGroup(g) == a + (h + "\n") + c;
    assert JoinLines([h]) == h + "\n" by {
      assert [h][1..] == [];
    }
    PrintCommentsJoin(g.comments);
    PrintLinesJoin(g.lines);
    JoinLinesAppend(g.comments + [h], LineTexts(g.lines));
    JoinLinesAppend(g.comments, [h]);
  }

  lemma {:induction false} PrintRestJoin(gs: seq<Group>)
    ensures PrintRest(gs) == JoinLines(RestText(gs))
    decreases |gs|
  {
    if |gs| > 0 {
      PrintRestJoin(gs[1..]);
      PrintGroupJoin(gs[0]);
      JoinLinesAppend([""] + GroupText(gs[0]), RestText(gs[1..]));
      JoinLinesAppend([""], GroupText(gs[0]));
      assert JoinLines([""]) == "\n" by {
        assert [""][1..] == [];
      }
    }
  }

  /** The printed text is the printed lines, each ended by a newline. */
  lemma PrintJoin(u: UnitFile)
    ensures Print(u) == JoinLines(PrintedLines(u))
  {
    if |u.groups| > 0 {
      PrintGroupJoin(u.groups[0]);
      PrintRestJoin(u.groups[1..]);
      JoinLinesAppend(GroupText(u.groups[0]), RestText(u.groups[1..]));
    }
  }

  // ---------------------------------------------------------------------
  // What prints and reads back
  // ---------------------------------------------------------------------

  /** A comment line that reads back as itself. */
  predicate PrintableComment(c: string) {
    LineIsComment(c) && OneLogical(c)
  }

  /** An entry that reads back as itself: a valid key that does not look
      like a comment and has no trailing blank, a value with no leading
      blank and no final backslash, and newlines in the value only as
      continuations. */
  predicate PrintableEntry(k: string, v: string) {
    |k| > 0 && IsValidKeyName(k) && k[0] != '#' && k[0] != ';' && !IsAsciiSpace(k[|k| - 1]) && '\n' !in k &&
    (|v| > 0 ==> !IsAsciiSpace(v[0]) && v[|v| - 1] != '\\') &&
    (forall i :: 0 <= i < |v| ==> ContinuedAt(v, i))
  }

  predicate PrintableLine(l: Line) {
    match l
    case Comment(t) => PrintableComment(t)
    case Entry(k, v) => PrintableEntry(k, v)
  }

  predicate PrintableGroup(g: Group) {
    IsValidGroupName(g.name) &&
    (forall i :: 0 <= i < |g.comments| ==> PrintableComment(g.comments[i])) &&
    (forall i :: 0 <= i < |g.lines| ==> PrintableLine(g.lines[i]))
  }

  /** Where the lines up to and including the last entry end (0 without
      entries); the comments after it are held back by the parser. */
  function LastEntryEnd(ls: seq<Line>): (r: nat)
    ensures r <= |ls|
    ensures r > 0 ==> ls[r - 1].Entry?
    ensures forall i :: r <= i < |ls| ==> ls[i].Comment?
    decreases |ls|
  {
    if |ls| == 0 then 0
    else if ls[|ls| - 1].Entry? then |ls|
    else LastEntryEnd(ls[..|ls| - 1])
  }

  /** A file the printer writes so that the parser reads it back: valid,
      every part printable, the first group's comments not starting with a
      blank line (the parser would take it for the separator), and every
      group but the last ending with an entry (trailing comments would move
      to the next group's header). */
  predicate Printable(u: UnitFile) {
    Valid(u) &&
    (forall i :: 0 <= i < |u.groups| ==> PrintableGroup(u.groups[i])) &&
    (|u.groups| > 0 ==> |u.groups[0].comments| == 0 || u.groups[0].comments[0] != "") &&
    (forall i :: 0 <= i < |u.groups| - 1 ==> LastEntryEnd(u.groups[i].lines) == |u.groups[i].lines|)
  }

  lemma NoNewlineEnd(l: string)
    requires '\n' !in l
    ensures LineEnd(l, 0) == |l|
  {
  }

  lemma HeaderOneLogical(name: string)
    requires IsValidGroupName(name)
    ensures OneLogical(Header(name))
  {
    var l := Header(name);
    assert forall i :: 0 <= i < |l| ==> l[i] != '\n' by {
      forall i | 0 <= i < |l|
        ensures l[i] != '\n'
      {
        if 0 < i < |l| - 1 {
          assert l[i] == name[i - 1];
          assert !IsAsciiCntrl(name[i - 1]);
        }
      }
    }
    NoNewlineEnd(l);
    assert l[..|l|] == l;
  }

  lemma EntryOneLogical(k: string, v: string)
    requires PrintableEntry(k, v)
    ensures OneLogical(k + "=" + v)
  {
    var l := k + "=" + v;
    assert l[|k|] == '=';
    assert forall i :: 0 <= i < |l| ==> ContinuedAt(l, i) by {
      forall i | 0 <= i < |l|
        ensures ContinuedAt(l, i)
      {
        if l[i] == '\n' {
          assert i > |k| && l[i] == v[i - |k| - 1];
          assert ContinuedAt(v, i - |k| - 1);
          assert l[i - 1] == v[i - |k| - 2];
        }
      }
    }
    var e := LineEnd(l, 0);
    assert e > |k|;
    assert l[..e][|k|] == '=' && l[..e][0] == k[0];
    assert LineIsKeyValue(l[..e]);
    assert l[|l| - 1] != '\\' by {
      if |v| > 0 {
        assert l[|l| - 1] == v[|v| - 1];
      }
    }
  }

  lemma PrintedLineOneLogical(l: Line)
    requires PrintableLine(l)
    ensures OneLogical(LineText(l))
  {
    if l.Entry? {
      EntryOneLogical(l.key, l.value);
    }
  }

  lemma GroupTextOneLogical(g: Group)
    requires PrintableGroup(g)
    ensures forall i :: 0 <= i < |GroupText(g)| ==> OneLogical(GroupText(g)[i])
  {
    HeaderOneLogical(g.name);
    forall i | 0 <= i < |g.lines|
      ensures OneLogical(LineTexts(g.lines)[i])
    {
      PrintedLineOneLogical(g.lines[i]);
    }
  }

  lemma {:induction false} RestTextOneLogical(gs: seq<Group>)
    requires forall i :: 0 <= i < |gs| ==> PrintableGroup(gs[i])
    ensures forall i :: 0 <= i < |RestText(gs)| ==> OneLogical(RestText(gs)[i])
    decreases |gs|
  {
    if |gs| > 0 {
      GroupTextOneLogical(gs[0]);
      RestTextOneLogical(gs[1..]);
      assert OneLogical("") by {
        assert LineEnd("", 0) == 0;
      }
    }
  }

  /** Every printed line of a printable file is one logical line. */
  lemma PrintedOneLogical(u: UnitFile)
    requires Printable(u)
    ensures forall i :: 0 <= i < |PrintedLines(u)| ==> OneLogical(PrintedLines(u)[i])
  {
    if |u.groups| > 0 {
      GroupTextOneLogical(u.groups[0]);
      RestTextOneLogical(u.groups[1..]);
    }
  }

  // ---------------------------------------------------------------------
  // Reading printed lines
  // ---------------------------------------------------------------------

  /** What parse_line does with the three kinds of printed line. */
  ghost predicate HandlesPrinted(h: LineHandler) {
    (forall st, l :: LineIsComment(l) ==> h(st, l) == Success(st.(pending := st.pending + [l]))) &&
    (forall st, name :: IsValidGroupName(name) ==>
      h(st, Header(name)) ==
        Success(State(AddComments(EnsureGroup(st.unit, name), name, HeaderComments(st.pending)), Some(name), [], st.lineNr))) &&
    (forall st: State, e: Line :: e.Entry? && PrintableEntry(e.key, e.value) && st.current.Some? ==>
      h(st, LineText(e)) ==
        Success(State(AddLines(st.unit, st.current.value, AsComments(st.pending) + [e]), st.current, [], st.lineNr)))
  }

  lemma ParseHeaderLine(st: State, name: string)
    requires IsValidGroupName(name)
    ensures ParseLine(st, Header(name)) ==
      Success(State(AddComments(EnsureGroup(st.unit, name), name, HeaderComments(st.pending)), Some(name), [], st.lineNr))
  {
    var l := Header(name);
    assert l[1..] == name + [']'] + [];
    assert ']' !in name;
    IndexOfAfterFree(name, ']', []);
    assert LineIsGroup(l);
    assert GroupNameOf(l) == name;
  }

  lemma ParseEntryLine(st: State, e: Line)
    requires e.Entry? && PrintableEntry(e.key, e.value) && st.current.Some?
    ensures ParseLine(st, LineText(e)) ==
      Success(State(AddLines(st.unit, st.current.value, AsComments(st.pending) + [e]), st.current, [], st.lineNr))
  {
    var k, v := e.key, e.value;
    var l := k + "=" + v;
    ValidKeyShape(k);
    assert l == k + ['='] + v;
    IndexOfAfterFree(k, '=', v);
    assert l[0] == k[0] && l[|k|] == '=';
    assert LineIsKeyValue(l) && !LineIsComment(l) && !LineIsGroup(l);
    assert l[..|k|] == k && l[|k| + 1..] == v;
    assert Chomp(k) == k;
    assert SpaceRun(v) == 0;
    assert v[0..] == v;
  }

  lemma HandlesParseLine()
    ensures HandlesPrinted(ParseLine)
  {
    forall st, name | IsValidGroupName(name)
      ensures ParseLine(st, Header(name)) ==
        Success(State(AddComments(EnsureGroup(st.unit, name), name, HeaderComments(st.pending)), Some(name), [], st.lineNr))
    {
      ParseHeaderLine(st, name);
    }
    forall st: State, e: Line | e.Entry? && PrintableEntry(e.key, e.value) && st.current.Some?
      ensures ParseLine(st, LineText(e)) ==
        Success(State(AddLines(st.unit, st.current.value, AsComments(st.pending) + [e]), st.current, [], st.lineNr))
    {
      ParseEntryLine(st, e);
    }
  }

  /** The loop over a + b is the loop over a, then over b. */
  lemma {:induction false} ParseLinesAppend(a: seq<string>, b: seq<string>, st: State, physical: bool, h: LineHandler)
    ensures ParseLines(a + b, st, physical, h) ==
      match ParseLines(a, st, physical, h)
      case Failure(err) => Failure(err)
      case Success(s) => ParseLines(b, s, physical, h)
    decreases |a|
  {
    if |a| == 0 {
      assert a + b == b;
    } else {
      assert (a + b)[0] == a[0] && (a + b)[1..] == a[1..] + b;
      var r := h(st, a[0]);
      if r.Success? {
        var n := if physical then 1 + CountNewlines(a[0]) else 1;
        ParseLinesAppend(a[1..], b, r.value.(lineNr := r.value.lineNr + n), physical, h);
      }
    }
  }

  /** How the handler reads a comment line, whatever the state: it joins pending. */
  ghost predicate ReadsComment(h: LineHandler, c: string) {
    forall st: State :: h(st, c) == Success(st.(pending := st.pending + [c]))
  }

  ghost predicate ReadsComments(h: LineHandler, cs: seq<string>)
    decreases |cs|
  {
    |cs| == 0 || (ReadsComment(h, cs[0]) && ReadsComments(h, cs[1..]))
  }

  lemma {:induction false} CommentsRead(h: LineHandler, cs: seq<string>)
    requires HandlesPrinted(h)
    requires forall i :: 0 <= i < |cs| ==> LineIsComment(cs[i])
    ensures ReadsComments(h, cs)
    decreases |cs|
  {
    if |cs| > 0 {
      assert LineIsComment(cs[0]);
      CommentsRead(h, cs[1..]);
    }
  }

  lemma PendingCons(p: seq<string>, cs: seq<string>)
    requires |cs| > 0
    ensures p + [cs[0]] + cs[1..] == p + cs
  {
    assert [cs[0]] + cs[1..] == cs;
  }

  /** Comment lines only gather in pending. */
  lemma {:induction false} CommentsParse(cs: seq<string>, st: State, physical: bool, h: LineHandler)
    requires ReadsComments(h, cs)
    ensures var r := ParseLines(cs, st, physical, h);
      r.Success? && r.value.unit == st.unit && r.value.current == st.current && r.value.pending == st.pending + cs
    decreases |cs|
  {
    if |cs| == 0 {
      assert st.pending + cs == st.pending;
    } else {
      var s := st.(pending := st.pending + [cs[0]]);
      var s' := ParseLinesStep(cs, st, physical, h, s);
      CommentsParse(cs[1..], s', physical, h);
      PendingCons(st.pending, cs);
    }
  }

  /** LastEntryEnd is the only index with its contract. */
  lemma {:induction false} LastEntryEndIs(ls: seq<Line>, r: nat)
    requires r <= |ls| && (r > 0 ==> ls[r - 1].Entry?)
    requires forall i :: r <= i < |ls| ==> ls[i].Comment?
    ensures LastEntryEnd(ls) == r
    decreases |ls|
  {
    if |ls| > 0 && r < |ls| {
      LastEntryEndIs(ls[..|ls| - 1], r);
    }
  }

  lemma LastEntryEndAfter(p: seq<Line>, e: Line, rest: seq<Line>)
    requires e.Entry?
    ensures LastEntryEnd(p + [e] + rest) == |p| + 1 + LastEntryEnd(rest)
  {
    var ls := p + [e] + rest;
    var j := LastEntryEnd(rest);
    assert j > 0 ==> ls[|p| + j] == rest[j - 1];
    assert forall i :: |p| + 1 + j <= i < |ls| ==> ls[i] == rest[i - |p| - 1];
    LastEntryEndIs(ls, |p| + 1 + j);
  }

  lemma LastEntryEndComments(cs: seq<string>)
    ensures LastEntryEnd(AsComments(cs)) == 0
  {
    LastEntryEndIs(AsComments(cs), 0);
  }

  /** Appending to the last group, whose name no earlier group has. */
  lemma AddLinesLast(gs: seq<Group>, g: Group, ls: seq<Line>)
    requires FindGroup(gs, g.name).None?
    ensures AddLines(UnitFile(gs + [g]), g.name, ls) == UnitFile(gs + [g.(lines := g.lines + ls)])
  {
    FindGroupIs(gs + [g], g.name, |gs|);
    assert (gs + [g])[|gs| := g.(lines := g.lines + ls)] == gs + [g.(lines := g.lines + ls)];
  }

  lemma AddLinesNone(u: UnitFile, name: string)
    ensures AddLines(u, name, []) == u
  {
    match FindGroup(u.groups, name)
    case None =>
    case Some(i) =>
      assert u.groups[i].(lines := u.groups[i].lines + []) == u.groups[i];
      assert u.groups[i := u.groups[i]] == u.groups;
  }

  lemma AsCommentsSnoc(cs: seq<string>, c: string)
    ensures AsComments(cs + [c]) == AsComments(cs) + [Comment(c)]
  {
  }

  /** How the handler reads one printed line, whatever the state: a
      comment joins pending; an entry, with the pending comments before it,
      joins the current group. */
  ghost predicate ReadsLine(h: LineHandler, l: Line) {
    match l
    case Comment(t) => forall st: State :: h(st, t) == Success(st.(pending := st.pending + [t]))
    case Entry(_, _) => forall st: State :: st.current.Some? ==>
      h(st, LineText(l)) == Success(State(AddLines(st.unit, st.current.value, AsComments(st.pending) + [l]), st.current, [], st.lineNr))
  }

  ghost predicate ReadsLines(h: LineHandler, ls: seq<Line>)
    decreases |ls|
  {
    |ls| == 0 || (ReadsLine(h, ls[0]) && ReadsLines(h, ls[1..]))
  }

  lemma {:induction false} ReadsPrintable(h: LineHandler, ls: seq<Line>)
    requires HandlesPrinted(h)
    requires forall i :: 0 <= i < |ls| ==> PrintableLine(ls[i])
    ensures ReadsLines(h, ls)
    decreases |ls|
  {
    if |ls| > 0 {
      assert PrintableLine(ls[0]);
      ReadsPrintable(h, ls[1..]);
    }
  }

  /** A comment line moves from the lines into pending. */
  lemma CommentShift(cs: seq<string>, ls: seq<Line>)
    requires |ls| > 0 && ls[0].Comment?
    ensures AsComments(cs + [ls[0].text]) + ls[1..] == AsComments(cs) + ls
  {
    AsCommentsSnoc(cs, ls[0].text);
    assert [ls[0]] + ls[1..] == ls;
  }

  /** Where the group's lines split when an entry follows pending comments. */
  lemma EntrySplit(p: seq<Line>, e: Line, rest: seq<Line>)
    requires e.Entry?
    ensures var all := p + [e] + rest;
      var j := LastEntryEnd(all);
      var j' := LastEntryEnd(rest);
      all[..j] == p + [e] + rest[..j'] && all[j..] == rest[j'..]
  {
    LastEntryEndAfter(p, e, rest);
    var all := p + [e] + rest;
    var j' := LastEntryEnd(rest);
    assert all[..|p| + 1 + j'] == p + [e] + rest[..j'];
    assert all[|p| + 1 + j'..] == rest[j'..];
  }

  /** The group grown by an entry and then by the rest is the group grown once. */
  lemma EntryGrows(g: Group, p: seq<Line>, e: Line, rest: seq<Line>)
    requires e.Entry?
    ensures var all := p + [e] + rest;
      var g' := g.(lines := g.lines + (p + [e]));
      g'.(lines := g'.lines + rest[..LastEntryEnd(rest)]) == g.(lines := g.lines + all[..LastEntryEnd(all)]) &&
      all[LastEntryEnd(all)..] == rest[LastEntryEnd(rest)..]
  {
    EntrySplit(p, e, rest);
    var j' := LastEntryEnd(rest);
    assert g.lines + (p + [e]) + rest[..j'] == g.lines + (p + [e] + rest[..j']);
  }

  /** Reading a printed comment line: it joins pending. */
  lemma CommentStep(ls: seq<Line>, st: State, physical: bool, h: LineHandler) returns (s': State)
    requires |ls| > 0 && ls[0].Comment? && ReadsLine(h, ls[0])
    ensures s'.unit == st.unit && s'.current == st.current && s'.pending == st.pending + [ls[0].text]
    ensures ParseLines(LineTexts(ls), st, physical, h) == ParseLines(LineTexts(ls[1..]), s', physical, h)
  {
    var ts := LineTexts(ls);
    assert ts[1..] == LineTexts(ls[1..]);
    var t := ls[0].text;
    var s := st.(pending := st.pending + [t]);
    s' := ParseLinesStep(ts, st, physical, h, s);
  }

  /** The handler's answer to an entry line while the last group is current. */
  lemma EntryHandled(h: LineHandler, st: State, gs: seq<Group>, g: Group, e: Line) returns (s: State)
    requires st.unit == UnitFile(gs + [g]) && st.current == Some(g.name) && FindGroup(gs, g.name).None?
    requires e.Entry? && ReadsLine(h, e)
    ensures s == State(UnitFile(gs + [g.(lines := g.lines + (AsComments(st.pending) + [e]))]), st.current, [], st.lineNr)
    ensures h(st, LineText(e)) == Success(s)
  {
    AddLinesLast(gs, g, AsComments(st.pending) + [e]);
    s := State(AddLines(st.unit, st.current.value, AsComments(st.pending) + [e]), st.current, [], st.lineNr);
  }

  /** Reading a printed entry line: it and the pending comments join the
      current group, which is the last one. */
  lemma EntryStep(ls: seq<Line>, st: State, gs: seq<Group>, g: Group, physical: bool, h: LineHandler) returns (s': State)
    requires st.unit == UnitFile(gs + [g]) && st.current == Some(g.name) && FindGroup(gs, g.name).None?
    requires |ls| > 0 && ls[0].Entry? && ReadsLine(h, ls[0])
    ensures s'.unit == UnitFile(gs + [g.(lines := g.lines + (AsComments(st.pending) + [ls[0]]))])
    ensures s'.current == st.current && s'.pending == []
    ensures ParseLines(LineTexts(ls), st, physical, h) == ParseLines(LineTexts(ls[1..]), s', physical, h)
  {
    var ts := LineTexts(ls);
    assert ts[1..] == LineTexts(ls[1..]);
    var s := EntryHandled(h, st, gs, g, ls[0]);
    s' := ParseLinesStep(ts, st, physical, h, s);
  }

  /** What reading a group's lines yields, given the lines still to come
      after the pending comments: everything up to the last entry joins the
      group, the comments after it wait in pending. */
  ghost predicate ReadAsGroup(r: Result<State, ParseError>, st: State, gs: seq<Group>, g: Group, ls: seq<Line>) {
    var all := AsComments(st.pending) + ls;
    var j := LastEntryEnd(all);
    r.Success? && r.value.unit == UnitFile(gs + [g.(lines := g.lines + all[..j])]) &&
    r.value.current == st.current && AsComments(r.value.pending) == all[j..]
  }

  /** An entry and the pending comments before it join the group; what
      follows is read as before. */
  lemma EntryRead(r: Result<State, ParseError>, st: State, s': State, gs: seq<Group>, g: Group, ls: seq<Line>)
    requires |ls| > 0 && ls[0].Entry?
    requires s'.pending == [] && s'.current == st.current
    requires ReadAsGroup(r, s', gs, g.(lines := g.lines + (AsComments(st.pending) + [ls[0]])), ls[1..])
    ensures ReadAsGroup(r, st, gs, g, ls)
  {
    EntryReadSeqs(st.pending, s'.pending, ls);
    EntryGrows(g, AsComments(st.pending), ls[0], ls[1..]);
  }

  lemma EntryReadSeqs(p: seq<string>, q: seq<string>, ls: seq<Line>)
    requires |ls| > 0 && q == []
    ensures AsComments(q) + ls[1..] == ls[1..]
    ensures AsComments(p) + ls == AsComments(p) + [ls[0]] + ls[1..]
  {
    assert AsComments(q) == [];
    assert ls == [ls[0]] + ls[1..];
  }

  /** The lines of a group, read while that group is the last one and the
      current one. */
  lemma {:induction false} LinesParse(ls: seq<Line>, st: State, gs: seq<Group>, g: Group, physical: bool, h: LineHandler)
    requires st.unit == UnitFile(gs + [g]) && st.current == Some(g.name) && FindGroup(gs, g.name).None?
    requires ReadsLines(h, ls)
    ensures ReadAsGroup(ParseLines(LineTexts(ls), st, physical, h), st, gs, g, ls)
    decreases |ls|, 1
  {
    if |ls| == 0 {
      var all := AsComments(st.pending) + ls;
      assert all == AsComments(st.pending);
      LastEntryEndComments(st.pending);
      assert all[..0] == [] && all[0..] == all;
      assert g.(lines := g.lines + []) == g;
    } else if ls[0].Comment? {
      CommentParse(ls, st, gs, g, physical, h);
    } else {
      EntryParse(ls, st, gs, g, physical, h);
    }
  }

  lemma {:induction false} CommentParse(ls: seq<Line>, st: State, gs: seq<Group>, g: Group, physical: bool, h: LineHandler)
    requires st.unit == UnitFile(gs + [g]) && st.current == Some(g.name) && FindGroup(gs, g.name).None?
    requires |ls| > 0 && ls[0].Comment? && ReadsLines(h, ls)
    ensures ReadAsGroup(ParseLines(LineTexts(ls), st, physical, h), st, gs, g, ls)
    decreases |ls|, 0
  {
    var s' := CommentStep(ls, st, physical, h);
    CommentShift(st.pending, ls);
    LinesParse(ls[1..], s', gs, g, physical, h);
  }

  lemma {:induction false} EntryParse(ls: seq<Line>, st: State, gs: seq<Group>, g: Group, physical: bool, h: LineHandler)
    requires st.unit == UnitFile(gs + [g]) && st.current == Some(g.name) && FindGroup(gs, g.name).None?
    requires |ls| > 0 && ls[0].Entry? && ReadsLines(h, ls)
    ensures ReadAsGroup(ParseLines(LineTexts(ls), st, physical, h), st, gs, g, ls)
    decreases |ls|, 0
  {
    var s' := EntryStep(ls, st, gs, g, physical, h);
    var g' := g.(lines := g.lines + (AsComments(st.pending) + [ls[0]]));
    LinesParse(ls[1..], s', gs, g', physical, h);
    EntryRead(ParseLines(LineTexts(ls[1..]), s', physical, h), st, s', gs, g, ls);
  }

  /** Reading a printed header for a new group: the group is appended with
      the pending comments as its header comments, and becomes current. */
  lemma HeaderRead(st: State, gs: seq<Group>, g: Group, h: LineHandler)
    requires HandlesPrinted(h) && IsValidGroupName(g.name)
    requires st.unit == UnitFile(gs) && FindGroup(gs, g.name).None? && HeaderComments(st.pending) == g.comments
    ensures h(st, Header(g.name)) == Success(State(UnitFile(gs + [Group(g.name, g.comments, [])]), Some(g.name), [], st.lineNr))
  {
    NewGroupComments(gs, g.name, g.comments);
  }

  /** A header for a new name appends a group holding the comments. */
  lemma NewGroupComments(gs: seq<Group>, name: string, cs: seq<string>)
    requires FindGroup(gs, name).None?
    ensures AddComments(EnsureGroup(UnitFile(gs), name), name, cs) == UnitFile(gs + [Group(name, cs, [])])
  {
    var g0 := Group(name, [], []);
    assert EnsureGroup(UnitFile(gs), name) == UnitFile(gs + [g0]);
    FindGroupIs(gs + [g0], name, |gs|);
    var g1 := Group(name, cs, []);
    assert [] + cs == cs;
    assert g0.(comments := g0.comments + cs) == g1;
    assert (gs + [g0])[|gs| := g1] == gs + [g1];
  }

  lemma HeaderStep(ts: seq<string>, st: State, gs: seq<Group>, g: Group, physical: bool, h: LineHandler) returns (s': State)
    requires |ts| > 0 && h(st, ts[0]) == Success(State(UnitFile(gs + [Group(g.name, g.comments, [])]), Some(g.name), [], st.lineNr))
    ensures s'.unit == UnitFile(gs + [Group(g.name, g.comments, [])]) && s'.current == Some(g.name) && s'.pending == []
    ensures ParseLines(ts, st, physical, h) == ParseLines(ts[1..], s', physical, h)
  {
    var s := State(UnitFile(gs + [Group(g.name, g.comments, [])]), Some(g.name), [], st.lineNr);
    s' := ParseLinesStep(ts, st, physical, h, s);
  }

  /** What reading a printed group yields: the group with its lines up to
      the last entry, current, and the comments after that entry pending. */
  ghost predicate ReadGroup(r: Result<State, ParseError>, gs: seq<Group>, g: Group) {
    var j := LastEntryEnd(g.lines);
    r.Success? && r.value.unit == UnitFile(gs + [g.(lines := g.lines[..j])]) &&
    r.value.current == Some(g.name) && AsComments(r.value.pending) == g.lines[j..]
  }

  /** A printed group, read after groups with other names. */
  lemma GroupParse(g: Group, st: State, gs: seq<Group>, physical: bool, h: LineHandler)
    requires HandlesPrinted(h) && PrintableGroup(g)
    requires st.unit == UnitFile(gs) && FindGroup(gs, g.name).None?
    requires HeaderComments(st.pending + g.comments) == g.comments
    ensures ReadGroup(ParseLines(GroupText(g), st, physical, h), gs, g)
  {
    var tail := [Header(g.name)] + LineTexts(g.lines);
    assert GroupText(g) == g.comments + tail;
    ParseLinesAppend(g.comments, tail, st, physical, h);
    CommentsRead(h, g.comments);
    CommentsParse(g.comments, st, physical, h);
    var s1 := ParseLines(g.comments, st, physical, h).value;
    HeaderRead(s1, gs, g, h);
    var s2 := HeaderStep(tail, s1, gs, g, physical, h);
    assert tail[1..] == LineTexts(g.lines);
    ReadsPrintable(h, g.lines);
    var g0 := Group(g.name, g.comments, []);
    LinesParse(g.lines, s2, gs, g0, physical, h);
    GroupRead(ParseLines(LineTexts(g.lines), s2, physical, h), s2, gs, g);
  }

  lemma GroupRead(r: Result<State, ParseError>, s2: State, gs: seq<Group>, g: Group)
    requires s2.pending == [] && s2.current == Some(g.name)
    requires ReadAsGroup(r, s2, gs, Group(g.name, g.comments, []), g.lines)
    ensures ReadGroup(r, gs, g)
  {
    GroupReadSeqs(g, LastEntryEnd(g.lines));
  }

  lemma GroupReadSeqs(g: Group, j: nat)
    requires j <= |g.lines|
    ensures AsComments([]) + g.lines == g.lines
    ensures Group(g.name, g.comments, []).(lines := [] + g.lines[..j]) == g.(lines := g.lines[..j])
  {
    assert AsComments([]) == [];
    assert [] + g.lines[..j] == g.lines[..j];
  }

  /** After a printed group: the end of the input completes the group, and
      a group that ends in an entry leaves nothing pending. */
  lemma GroupDone(r: State, gs: seq<Group>, g: Group)
    requires ReadGroup(Success(r), gs, g) && FindGroup(gs, g.name).None?
    ensures Finish(r) == UnitFile(gs + [g])
    ensures LastEntryEnd(g.lines) == |g.lines| ==> r.pending == [] && r.unit == UnitFile(gs + [g])
  {
    var j := LastEntryEnd(g.lines);
    var g' := g.(lines := g.lines[..j]);
    AddLinesLast(gs, g', AsComments(r.pending));
    assert g'.(lines := g'.lines + g.lines[j..]) == g;
    if j == |g.lines| {
      assert |AsComments(r.pending)| == 0;
      assert g' == g;
    }
  }

  /** Ending on a state with nothing pending adds nothing. */
  lemma FinishNothingPending(st: State)
    requires st.pending == []
    ensures Finish(st) == st.unit
  {
    if st.current.Some? {
      assert AsComments([]) == [];
      AddLinesNone(st.unit, st.current.value);
    }
  }

  /** A printed group followed by more lines: the group is read, then the
      rest from where it left off. */
  lemma GroupThen(g: Group, tail: seq<string>, st: State, done: seq<Group>, physical: bool, h: LineHandler) returns (r1: State)
    requires HandlesPrinted(h) && PrintableGroup(g)
    requires st.unit == UnitFile(done) && FindGroup(done, g.name).None?
    requires HeaderComments(st.pending + g.comments) == g.comments
    ensures ParseLines(GroupText(g) + tail, st, physical, h) == ParseLines(tail, r1, physical, h)
    ensures Finish(r1) == UnitFile(done + [g])
    ensures LastEntryEnd(g.lines) == |g.lines| ==> r1.pending == [] && r1.unit == UnitFile(done + [g])
  {
    ParseLinesAppend(GroupText(g), tail, st, physical, h);
    GroupParse(g, st, done, physical, h);
    r1 := ParseLines(GroupText(g), st, physical, h).value;
    GroupDone(r1, done, g);
  }

  /** The blank line printed before a group joins pending. */
  lemma BlankStep(ts: seq<string>, st: State, physical: bool, h: LineHandler) returns (s': State)
    requires HandlesPrinted(h)
    requires |ts| > 0 && ts[0] == ""
    ensures s'.unit == st.unit && s'.pending == st.pending + [""]
    ensures ParseLines(ts, st, physical, h) == ParseLines(ts[1..], s', physical, h)
  {
    var s := st.(pending := st.pending + [""]);
    assert LineIsComment("");
    assert h(st, "") == Success(s);
    s' := ParseLinesStep(ts, st, physical, h, s);
  }

  /** In a valid list the next group's name is not among those before it. */
  lemma ValidNext(done: seq<Group>, rest: seq<Group>)
    requires Valid(UnitFile(done + rest)) && |rest| > 0
    ensures FindGroup(done, rest[0].name).None?
    ensures done + [rest[0]] + rest[1..] == done + rest
  {
    assert (done + rest)[|done|] == rest[0];
    assert forall i :: 0 <= i < |done| ==> (done + rest)[i] == done[i];
    assert done + [rest[0]] + rest[1..] == done + rest;
  }

  /** The groups after the first, each after a blank line, read after
      groups with other names. */
  lemma {:induction false} RestParse(rest: seq<Group>, st: State, done: seq<Group>, physical: bool, h: LineHandler)
    requires HandlesPrinted(h)
    requires st.unit == UnitFile(done) && st.pending == []
    requires Valid(UnitFile(done + rest))
    requires forall i :: 0 <= i < |rest| ==> PrintableGroup(rest[i])
    requires forall i :: 0 <= i < |rest| - 1 ==> LastEntryEnd(rest[i].lines) == |rest[i].lines|
    ensures var r := ParseLines(RestText(rest), st, physical, h);
      r.Success? && Finish(r.value) == UnitFile(done + rest)
    decreases |rest|, 1
  {
    if |rest| == 0 {
      FinishNothingPending(st);
      assert done + rest == done;
    } else {
      NextParse(rest, st, done, physical, h);
    }
  }

  lemma {:induction false} NextParse(rest: seq<Group>, st: State, done: seq<Group>, physical: bool, h: LineHandler)
    requires HandlesPrinted(h) && |rest| > 0
    requires st.unit == UnitFile(done) && st.pending == []
    requires Valid(UnitFile(done + rest))
    requires forall i :: 0 <= i < |rest| ==> PrintableGroup(rest[i])
    requires forall i :: 0 <= i < |rest| - 1 ==> LastEntryEnd(rest[i].lines) == |rest[i].lines|
    ensures var r := ParseLines(RestText(rest), st, physical, h);
      r.Success? && Finish(r.value) == UnitFile(done + rest)
    decreases |rest|, 0
  {
    var g := rest[0];
    var more := RestText(rest[1..]);
    assert RestText(rest) == [""] + (GroupText(g) + more);
    var s1 := BlankStep(RestText(rest), st, physical, h);
    assert s1.pending + g.comments == [""] + g.comments;
    ValidNext(done, rest);
    var r1 := GroupThen(g, more, s1, done, physical, h);
    if |rest| == 1 {
      assert more == [];
    } else {
      RestParse(rest[1..], r1, done + [g], physical, h);
    }
  }

  /** What a printable file promises about its first group and the rest. */
  lemma PrintableSplit(u: UnitFile)
    requires Printable(u) && |u.groups| > 0
    ensures var g := u.groups[0];
      PrintableGroup(g) && FindGroup([], g.name).None? &&
      HeaderComments([] + g.comments) == g.comments &&
      Valid(UnitFile([g] + u.groups[1..])) &&
      (forall i :: 0 <= i < |u.groups[1..]| ==> PrintableGroup(u.groups[1..][i])) &&
      (forall i :: 0 <= i < |u.groups[1..]| - 1 ==> LastEntryEnd(u.groups[1..][i].lines) == |u.groups[1..][i].lines|) &&
      (|u.groups| > 1 ==> LastEntryEnd(g.lines) == |g.lines|) &&
      [] + [g] + u.groups[1..] == u.groups &&
      (|u.groups| == 1 ==> RestText(u.groups[1..]) == [])
  {
    var g := u.groups[0];
    assert PrintableGroup(u.groups[0]);
    assert [] + g.comments == g.comments;
    assert [g] + u.groups[1..] == u.groups;
  }

  /** A printable file's printed lines read back as the file. */
  lemma DocParse(u: UnitFile, physical: bool, h: LineHandler)
    requires HandlesPrinted(h) && Printable(u)
    ensures var r := ParseLines(PrintedLines(u), Start, physical, h);
      r.Success? && Finish(r.value) == u
  {
    if |u.groups| > 0 {
      var g := u.groups[0];
      PrintableSplit(u);
      var r1 := GroupThen(g, RestText(u.groups[1..]), Start, [], physical, h);
      if |u.groups| > 1 {
        RestParse(u.groups[1..], r1, [g], physical, h);
      }
    }
  }

  /** Printing a printable file and parsing the text gives the file back,
      with either line numbering. */
  lemma ParsePrint(u: UnitFile)
    requires Printable(u)
    ensures Parse(Print(u)) == Success(u)
    ensures ParseAsWritten(Print(u)) == Success(u)
  {
    var data := Print(u);
    PrintJoin(u);
    PrintedOneLogical(u);
    assert data[0..] == data;
    AllOneLogicalOf(PrintedLines(u));
    LogicalLinesJoin(data, 0, PrintedLines(u));
    HandlesParseLine();
    DocParse(u, true, ParseLine);
    DocParse(u, false, ParseLine);
  }

  // ---------------------------------------------------------------------
  // Where reading back fails
  // ---------------------------------------------------------------------

  /** A blank first comment of the first group is printed as a blank line,
      which the parser takes for the separator before a header and drops:
      the file does not read back, so parsing and printing again is not
      idempotent either ("\n\n[a]\n" reads as a group with one blank
      comment, which prints back as "\n[a]\n", which reads as a group
      without comments, which prints back as "[a]\n"). */
  lemma BlankFirstCommentLost()
    ensures Parse("\n\n[a]\n") == Success(UnitFile([Group("a", [""], [])]))
    ensures Print(UnitFile([Group("a", [""], [])])) == "\n[a]\n"
    ensures Parse("\n[a]\n") == Success(UnitFile([Group("a", [], [])]))
    ensures Print(UnitFile([Group("a", [], [])])) == "[a]\n"
    ensures !Printable(UnitFile([Group("a", [""], [])]))
  {
    DoubleBlankParse();
    BlankPrint();
    BlankParse();
    BarePrint();
  }

  lemma BarePrint()
    ensures Print(UnitFile([Group("a", [], [])])) == "[a]\n"
  {
  }

  lemma DoubleBlankParse()
    ensures Parse("\n\n[a]\n") == Success(UnitFile([Group("a", [""], [])]))
  {
    DoubleBlankLogicalLines();
    DoubleBlankParseLines();
    assert AsComments([]) == [];
    AddLinesNone(UnitFile([Group("a", [""], [])]), "a");
  }

  lemma DoubleBlankLogicalLines()
    ensures LogicalLines("\n\n[a]\n", 0) == ["", "", "[a]"]
  {
    var d := "\n\n[a]\n";
    assert d[0] == '\n' && d[1] == '\n' && d[2] == '[' && d[3] == 'a' && d[4] == ']' && d[5] == '\n' && |d| == 6;
    assert LineEnd(d, 0) == 0;
    assert d[0..0] == "";
    assert !LineIsKeyValue("");
    assert LineEnd(d, 1) == 1;
    assert d[1..1] == "";
    assert LineEnd(d, 2) == 5;
    assert d[2..5] == "[a]";
    assert !LineIsKeyValue("[a]");
    assert LogicalLines(d, 6) == [];
  }

  lemma DoubleBlankParseLines()
    ensures ParseLines(["", "", "[a]"], Start, true, ParseLine) ==
      Success(State(UnitFile([Group("a", [""], [])]), Some("a"), [], 4))
  {
    DoubleBlankFirstLine();
    DoubleBlankSecondLine();
    DoubleBlankThirdLine();
  }

  /** Each blank line is held back as a pending comment. */
  lemma DoubleBlankFirstLine()
    ensures ParseLines(["", "", "[a]"], Start, true, ParseLine) ==
      ParseLines(["", "[a]"], State(Empty, None, [""], 2), true, ParseLine)
  {
    var ls := ["", "", "[a]"];
    assert ls[1..] == ["", "[a]"];
    assert Start.pending + [""] == [""];
    var s0 := State(Empty, None, [""], 1);
    assert ParseLine(Start, "") == Success(s0);
    assert CountNewlines("") == 0;
    var s1 := ParseLinesStep(ls, Start, true, ParseLine, s0);
  }

  lemma DoubleBlankSecondLine()
    ensures ParseLines(["", "[a]"], State(Empty, None, [""], 2), true, ParseLine) ==
      ParseLines(["[a]"], State(Empty, None, ["", ""], 3), true, ParseLine)
  {
    var ls := ["", "[a]"];
    var st := State(Empty, None, [""], 2);
    assert ls[1..] == ["[a]"];
    assert st.pending + [""] == ["", ""];
    var s0 := State(Empty, None, ["", ""], 2);
    assert ParseLine(st, "") == Success(s0);
    assert CountNewlines("") == 0;
    var s1 := ParseLinesStep(ls, st, true, ParseLine, s0);
  }

  /** The header takes the pending lines but the first blank one. */
  lemma DoubleBlankThirdLine()
    ensures ParseLines(["[a]"], State(Empty, None, ["", ""], 3), true, ParseLine) ==
      Success(State(UnitFile([Group("a", [""], [])]), Some("a"), [], 4))
  {
    HeaderNewlines();
    DoubleBlankHeader();
    var s2 := ParseLinesStep(["[a]"], State(Empty, None, ["", ""], 3), true, ParseLine, State(UnitFile([Group("a", [""], [])]), Some("a"), [], 3));
    assert ["[a]"][1..] == [];
  }

  lemma DoubleBlankHeader()
    ensures ParseLine(State(Empty, None, ["", ""], 3), "[a]") == Success(State(UnitFile([Group("a", [""], [])]), Some("a"), [], 3))
  {
    var l := "[a]";
    assert l[1..] == "a]";
    assert IndexOf("a]", ']') == 1;
    assert LineIsGroup(l) && GroupNameOf(l) == "a" && IsValidGroupName("a");
    var g := Group("a", [], []);
    assert EnsureGroup(Empty, "a") == UnitFile([g]);
    assert FindGroup([g], "a") == Some(0);
    assert HeaderComments(["", ""]) == [""];
    assert g.comments + [""] == [""];
    assert [g][0 := g.(comments := [""])] == [Group("a", [""], [])];
  }

  lemma BlankPrint()
    ensures Print(UnitFile([Group("a", [""], [])])) == "\n[a]\n"
  {
    assert PrintComments([""]) == "\n" by {
      assert [""][1..] == [];
    }
  }

  lemma BlankParse()
    ensures Parse("\n[a]\n") == Success(UnitFile([Group("a", [], [])]))
  {
    BlankLogicalLines();
    BlankParseLines();
    var g := Group("a", [], []);
    assert AsComments([]) == [];
    AddLinesNone(UnitFile([g]), "a");
  }

  lemma BlankLogicalLines()
    ensures LogicalLines("\n[a]\n", 0) == ["", "[a]"]
  {
    var d := "\n[a]\n";
    assert d[0] == '\n' && d[1] == '[' && d[2] == 'a' && d[3] == ']' && d[4] == '\n' && |d| == 5;
    assert LineEnd(d, 0) == 0;
    assert d[0..0] == "";
    assert !LineIsKeyValue("");
    assert LineEnd(d, 1) == 4;
    assert d[1..4] == "[a]";
    assert !LineIsKeyValue("[a]");
    assert LogicalLines(d, 5) == [];
  }

  lemma BlankParseLines()
    ensures ParseLines(["", "[a]"], Start, true, ParseLine) ==
      Success(State(UnitFile([Group("a", [], [])]), Some("a"), [], 3))
  {
    BlankFirstLine();
    BlankSecondLine();
  }

  /** The blank first line is held back as a pending comment. */
  lemma BlankFirstLine()
    ensures ParseLines(["", "[a]"], Start, true, ParseLine) ==
      ParseLines(["[a]"], State(Empty, None, [""], 2), true, ParseLine)
  {
    var ls := ["", "[a]"];
    assert ls[1..] == ["[a]"];
    assert Start.pending + [""] == [""];
    var s0 := State(Empty, None, [""], 1);
    assert ParseLine(Start, "") == Success(s0);
    assert CountNewlines("") == 0;
    var s1 := ParseLinesStep(ls, Start, true, ParseLine, s0);
  }

  /** The header line opens the group; the blank line before it is dropped. */
  lemma BlankSecondLine()
    ensures ParseLines(["[a]"], State(Empty, None, [""], 2), true, ParseLine) ==
      Success(State(UnitFile([Group("a", [], [])]), Some("a"), [], 3))
  {
    HeaderNewlines();
    BlankHeader();
    var s2 := ParseLinesStep(["[a]"], State(Empty, None, [""], 2), true, ParseLine, State(UnitFile([Group("a", [], [])]), Some("a"), [], 2));
    assert ["[a]"][1..] == [];
  }

  lemma BlankHeader()
    ensures ParseLine(State(Empty, None, [""], 2), "[a]") == Success(State(UnitFile([Group("a", [], [])]), Some("a"), [], 2))
  {
    var l := "[a]";
    assert l[1..] == "a]";
    assert IndexOf("a]", ']') == 1;
    assert LineIsGroup(l) && GroupNameOf(l) == "a" && IsValidGroupName("a");
    var g := Group("a", [], []);
    assert EnsureGroup(Empty, "a") == UnitFile([g]);
    assert FindGroup([g], "a") == Some(0);
    assert HeaderComments([""]) == [];
    assert g.comments + [] == [];
    assert g.(comments := []) == g;
    assert [g][0 := g] == [g];
  }
}
