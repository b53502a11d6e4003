/** The in-memory unit file: an ordered list of groups, each with the
    comments printed before its header and its lines (key=value entries
    and comments), looked up and edited the way the generator does. Group
    names are unique: every way of adding a group first looks it up. */
module UnitFiles {
  import opened Wrappers
  import opened Strings
  import opened Helpers

  datatype Line = Comment(text: string) | Entry(key: string, value: string)

  datatype Group = Group(name: string, comments: seq<string>, lines: seq<Line>)

  datatype UnitFile = UnitFile(groups: seq<Group>)

  const Empty: UnitFile := UnitFile([])

  /** No two groups share a name (the group hash table is keyed by name). */
  predicate Valid(u: UnitFile) {
    forall i, j :: 0 <= i < j < |u.groups| ==> u.groups[i].name != u.groups[j].name
  }

  // ---------------------------------------------------------------------
  // Finding groups and lines
  // ---------------------------------------------------------------------

  /** The index of the group called name. */
  function FindGroup(gs: seq<Group>, name: string): (r: Option<nat>)
    ensures r.Some? ==> r.value < |gs| && gs[r.value].name == name
    ensures r.Some? ==> forall i :: 0 <= i < r.value ==> gs[i].name != name
    ensures r.None? ==> forall i :: 0 <= i < |gs| ==> gs[i].name != name
    decreases |gs|
  {
    if |gs| == 0 then None
    else if gs[0].name == name then Some(0)
    else match FindGroup(gs[1..], name)
      case None => None
      case Some(k) => Some(k + 1)
  }

  /** quad_unit_file_lookup_group. */
  function LookupGroup(u: UnitFile, name: string): Option<Group> {
    match FindGroup(u.groups, name)
    case None => None
    case Some(i) => Some(u.groups[i])
  }

  /** The group called name, or a new empty one. */
  function GroupOrNew(u: UnitFile, name: string): Group {
    LookupGroup(u, name).GetOr(Group(name, [], []))
  }

  predicate IsEntry(l: Line, key: string) {
    l.Entry? && l.key == key
  }

  /** quad_unit_group_find_last: the index of the last entry for key. */
  function FindLast(lines: seq<Line>, key: string): (r: Option<nat>)
    ensures r.Some? ==> r.value < |lines| && IsEntry(lines[r.value], key)
    ensures r.Some? ==> forall j :: r.value < j < |lines| ==> !IsEntry(lines[j], key)
    ensures r.None? ==> forall j :: 0 <= j < |lines| ==> !IsEntry(lines[j], key)
    decreases |lines|
  {
    if |lines| == 0 then None
    else if IsEntry(lines[|lines| - 1], key) then Some(|lines| - 1)
    else FindLast(lines[..|lines| - 1], key)
  }

  /** The value of the last entry for key among lines. */
  function LastValue(lines: seq<Line>, key: string): Option<string> {
    match FindLast(lines, key)
    case None => None
    case Some(j) => Some(lines[j].value)
  }

  /** Any index that satisfies the contract of FindGroup is the one it finds. */
  lemma FindGroupIs(gs: seq<Group>, name: string, i: nat)
    requires i < |gs| && gs[i].name == name
    requires forall k :: 0 <= k < i ==> gs[k].name != name
    ensures FindGroup(gs, name) == Some(i)
  {
  }

  /** In a valid file the group found is the only one of that name. */
  lemma FindGroupValid(u: UnitFile, i: nat)
    requires Valid(u) && i < |u.groups|
    ensures FindGroup(u.groups, u.groups[i].name) == Some(i)
  {
    FindGroupIs(u.groups, u.groups[i].name, i);
  }

  /** Any index that satisfies the contract of FindLast is the one it finds. */
  lemma FindLastIs(lines: seq<Line>, key: string, j: nat)
    requires j < |lines| && IsEntry(lines[j], key)
    requires forall k :: j < k < |lines| ==> !IsEntry(lines[k], key)
    ensures FindLast(lines, key) == Some(j)
  {
  }

  // ---------------------------------------------------------------------
  // Lookups
  // ---------------------------------------------------------------------

  /** quad_unit_file_lookup_last_raw: the value of the last entry for key
      in the group, without any processing. */
  function LookupLastRaw(u: UnitFile, group: string, key: string): Option<string> {
    match LookupGroup(u, group)
    case None => None
    case Some(g) => LastValue(g.lines, key)
  }

  /** What lookup_last_raw returns, stated without the search. */
  lemma LookupLastRawSpec(u: UnitFile, group: string, key: string)
    ensures var r := LookupLastRaw(u, group, key);
      r.Some? <==> LookupGroup(u, group).Some? &&
                   exists j :: 0 <= j < |LookupGroup(u, group).value.lines| &&
                               IsEntry(LookupGroup(u, group).value.lines[j], key)
    ensures var r := LookupLastRaw(u, group, key);
      r.Some? ==> exists j :: 0 <= j < |LookupGroup(u, group).value.lines| &&
                              LookupGroup(u, group).value.lines[j] == Entry(key, r.value) &&
                              forall k :: j < k < |LookupGroup(u, group).value.lines| ==>
                                !IsEntry(LookupGroup(u, group).value.lines[k], key)
  {
  }

  /** quad_unit_file_lookup_last: backslash-newline continuations become spaces. */
  function LookupLast(u: UnitFile, group: string, key: string): Option<string> {
    match LookupLastRaw(u, group, key)
    case None => None
    case Some(v) => Some(JoinContinuations(v))
  }

  /** quad_unit_file_lookup: lookup_last with trailing whitespace removed. */
  function Lookup(u: UnitFile, group: string, key: string): Option<string> {
    match LookupLast(u, group, key)
    case None => None
    case Some(v) => Some(Chomp(v))
  }

  /** A value without continuations and without trailing whitespace is
      looked up as it was stored. */
  lemma LookupPlain(u: UnitFile, group: string, key: string)
    requires LookupLastRaw(u, group, key).Some?
    requires NoContinuation(LookupLastRaw(u, group, key).value)
    requires var v := LookupLastRaw(u, group, key).value; |v| > 0 ==> !IsAsciiSpace(v[|v| - 1])
    ensures Lookup(u, group, key) == LookupLastRaw(u, group, key)
  {
    var v := LookupLastRaw(u, group, key).value;
    JoinPlain(v);
    ChompNone(v);
  }

  lemma ChompNone(s: string)
    requires |s| > 0 ==> !IsAsciiSpace(s[|s| - 1])
    ensures Chomp(s) == s
  {
  }

  /** The words quad_unit_file_lookup_boolean reads as true. */
  predicate IsTrueWord(w: string) {
    EqualsIgnoreCase(w, "1") || EqualsIgnoreCase(w, "yes") ||
    EqualsIgnoreCase(w, "true") || EqualsIgnoreCase(w, "on")
  }

  /** quad_unit_file_lookup_boolean: a missing or empty value gives the
      default, otherwise one of the four true words in any letter case. */
  function LookupBoolean(u: UnitFile, group: string, key: string, default: bool): bool {
    match Lookup(u, group, key)
    case None => default
    case Some(v) => if v == "" then default else IsTrueWord(v)
  }

  function LowerAll(s: string): (r: string)
    ensures |r| == |s|
    ensures forall i :: 0 <= i < |s| ==> r[i] == ToLowerAscii(s[i])
  {
    seq(|s|, i requires 0 <= i < |s| => ToLowerAscii(s[i]))
  }

  /** Comparing without case against a lower-case word is comparing the
      lower-cased text. */
  lemma EqualsIgnoreCaseLower(a: string, b: string)
    requires forall i :: 0 <= i < |b| ==> ToLowerAscii(b[i]) == b[i]
    ensures EqualsIgnoreCase(a, b) <==> LowerAll(a) == b
  {
    if LowerAll(a) == b {
      assert forall i :: 0 <= i < |a| ==> ToLowerAscii(a[i]) == LowerAll(a)[i];
    }
  }

  /** The boolean read of a present, non-empty value is membership of its
      lower-cased form in {1, yes, true, on}. */
  lemma LookupBooleanSpec(u: UnitFile, group: string, key: string, default: bool)
    ensures Lookup(u, group, key).None? ==> LookupBoolean(u, group, key, default) == default
    ensures Lookup(u, group, key) == Some("") ==> LookupBoolean(u, group, key, default) == default
    ensures Lookup(u, group, key).Some? && Lookup(u, group, key) != Some("") ==>
      (LookupBoolean(u, group, key, default) <==>
       LowerAll(Lookup(u, group, key).value) in {"1", "yes", "true", "on"})
  {
    if Lookup(u, group, key).Some? {
      var v := Lookup(u, group, key).value;
      EqualsIgnoreCaseLower(v, "1");
      EqualsIgnoreCaseLower(v, "yes");
      EqualsIgnoreCaseLower(v, "true");
      EqualsIgnoreCaseLower(v, "on");
    }
  }

  /** quad_unit_file_lookup_int as written: the end pointer is compared with
      the key instead of the value, so the test never fails and a value
      without digits reads as 0. */
  function LookupIntAsWritten(u: UnitFile, group: string, key: string, default: int): int {
    match Lookup(u, group, key)
    case None => default
    case Some(v) => if v == "" then default else StrToLong(v).value
  }

  /** quad_unit_file_lookup_int as intended: a value without digits gives
      the default. */
  function LookupInt(u: UnitFile, group: string, key: string, default: int): (r: int)
    ensures Lookup(u, group, key).Some? && ScanInteger(Lookup(u, group, key).value).end > 0 ==>
              r == StrToLong(Lookup(u, group, key).value).value
    ensures (Lookup(u, group, key).None? || ScanInteger(Lookup(u, group, key).value).end == 0) ==>
              r == default
  {
    match Lookup(u, group, key)
    case None => default
    case Some(v) =>
      if v == "" then default
      else
        var n := StrToLong(v);
        if n.end == 0 then default else n.value
  }

  /** The two versions differ exactly on a present value without digits,
      when the default is not 0. */
  lemma LookupIntDiffer(u: UnitFile, group: string, key: string, default: int)
    ensures LookupIntAsWritten(u, group, key, default) != LookupInt(u, group, key, default)
            <==> Lookup(u, group, key).Some? && Lookup(u, group, key) != Some("") &&
                 ScanInteger(Lookup(u, group, key).value).end == 0 && default != 0
  {
  }

  /** A printed integer stored with set reads back as that integer, through
      either version. */
  lemma LookupIntSet(u: UnitFile, group: string, key: string, n: int, default: int)
    requires LONG_MIN <= n <= LONG_MAX
    ensures LookupInt(Set(u, group, key, IntToString(n)), group, key, default) == n
    ensures LookupIntAsWritten(Set(u, group, key, IntToString(n)), group, key, default) == n
  {
    IntPlain(n);
    SetLookupPlain(u, group, key, IntToString(n));
    IntToStringScan(n);
  }

  /** A printed integer is non-empty, holds no continuation and does not end
      in whitespace. */
  lemma IntPlain(n: int)
    ensures var s := IntToString(n); |s| > 0 && NoContinuation(s) && !IsAsciiSpace(s[|s| - 1])
  {
    IntToStringChars(n);
  }

  /** A value stored with set that needs no joining or trimming is looked
      up as it was stored. */
  lemma SetLookupPlain(u: UnitFile, group: string, key: string, v: string)
    requires NoContinuation(v) && (|v| > 0 ==> !IsAsciiSpace(v[|v| - 1]))
    ensures Lookup(Set(u, group, key, v), group, key) == Some(v)
  {
    SetLookup(u, group, key, v, group, key);
    LookupPlain(Set(u, group, key, v), group, key);
  }

  /** A value without digits: as written it reads as 0 whatever the default;
      as intended it reads as the default. */
  lemma LookupIntNoDigits(u: UnitFile, group: string, key: string)
    ensures LookupIntAsWritten(Set(u, group, key, "abc"), group, key, 7) == 0
    ensures LookupInt(Set(u, group, key, "abc"), group, key, 7) == 7
  {
    assert NoContinuation("abc");
    SetLookupPlain(u, group, key, "abc");
    assert CSpaceRun("abc") == 0 && DigitRun("abc") == 0;
    assert "abc"[0..] == "abc";
  }

  // ---------------------------------------------------------------------
  // All values of a key
  // ---------------------------------------------------------------------

  /** The values of the entries for key, in order. */
  function KeyValues(lines: seq<Line>, key: string): (vs: seq<string>)
    ensures |vs| <= |lines|
    decreases |lines|
  {
    if |lines| == 0 then []
    else
      var init := KeyValues(lines[..|lines| - 1], key);
      if IsEntry(lines[|lines| - 1], key) then init + [lines[|lines| - 1].value] else init
  }

  /** The values after the last empty one: an empty assignment clears the
      list built so far. */
  function AfterLastEmpty(vs: seq<string>): (r: seq<string>)
    ensures forall i :: 0 <= i < |r| ==> r[i] != ""
    decreases |vs|
  {
    if |vs| == 0 then []
    else if vs[|vs| - 1] == "" then []
    else AfterLastEmpty(vs[..|vs| - 1]) + [vs[|vs| - 1]]
  }

  /** Every value of key, cleared at each empty assignment. */
  function AllValues(u: UnitFile, group: string, key: string): seq<string> {
    match LookupGroup(u, group)
    case None => []
    case Some(g) => AfterLastEmpty(KeyValues(g.lines, key))
  }

  /** quad_unit_file_lookup_all_raw: the loop over the group's lines. */
  method LookupAllRaw(u: UnitFile, group: string, key: string) returns (res: seq<string>)
    ensures res == AllValues(u, group, key)
  {
    res := [];
    var g := LookupGroup(u, group);
    if g.None? {
      return;
    }
    var lines := g.value.lines;
    var i := 0;
    while i < |lines|
      invariant 0 <= i <= |lines|
      invariant res == AfterLastEmpty(KeyValues(lines[..i], key))
    {
      assert lines[..i + 1][..i] == lines[..i];
      if IsEntry(lines[i], key) {
        if lines[i].value == "" {
          res := [];
        } else {
          res := res + [lines[i].value];
        }
      }
      i := i + 1;
    }
    assert lines[..i] == lines;
  }

  /** Without an empty assignment all values are kept, in order. */
  lemma {:induction false} AfterLastEmptyKeeps(vs: seq<string>)
    requires forall i :: 0 <= i < |vs| ==> vs[i] != ""
    ensures AfterLastEmpty(vs) == vs
    decreases |vs|
  {
    if |vs| > 0 {
      AfterLastEmptyKeeps(vs[..|vs| - 1]);
    }
  }

  /** The last of all values is the value lookup_last_raw finds, unless that
      one is empty, in which case there are none. */
  lemma {:induction false} KeyValuesLast(lines: seq<Line>, key: string)
    ensures |KeyValues(lines, key)| > 0 <==> LastValue(lines, key).Some?
    ensures |KeyValues(lines, key)| > 0 ==>
      KeyValues(lines, key)[|KeyValues(lines, key)| - 1] == LastValue(lines, key).value
    decreases |lines|
  {
    if |lines| > 0 {
      KeyValuesLast(lines[..|lines| - 1], key);
      if !IsEntry(lines[|lines| - 1], key) {
        var r := FindLast(lines[..|lines| - 1], key);
        if r.Some? {
          FindLastIs(lines, key, r.value);
        }
      }
    }
  }

  lemma AllValuesLast(u: UnitFile, group: string, key: string)
    ensures LookupLastRaw(u, group, key).None? ==> AllValues(u, group, key) == []
    ensures LookupLastRaw(u, group, key) == Some("") ==> AllValues(u, group, key) == []
    ensures LookupLastRaw(u, group, key).Some? && LookupLastRaw(u, group, key) != Some("") ==>
      |AllValues(u, group, key)| > 0 &&
      AllValues(u, group, key)[|AllValues(u, group, key)| - 1] == LookupLastRaw(u, group, key).value
  {
    if LookupGroup(u, group).Some? {
      KeyValuesLast(LookupGroup(u, group).value.lines, key);
    }
  }

  /** quad_unit_file_lookup_all: every value with continuations joined. */
  function LookupAll(u: UnitFile, group: string, key: string): (r: seq<string>)
  {
    var vs := AllValues(u, group, key);
    seq(|vs|, i requires 0 <= i < |vs| => JoinContinuations(vs[i]))
  }

  /** The last of the joined values is what lookup_last returns. */
  lemma LookupAllLast(u: UnitFile, group: string, key: string)
    ensures LookupLastRaw(u, group, key).Some? && LookupLastRaw(u, group, key) != Some("") ==>
      |LookupAll(u, group, key)| > 0 &&
      LookupAll(u, group, key)[|LookupAll(u, group, key)| - 1] == LookupLast(u, group, key).value
    ensures LookupLastRaw(u, group, key).None? ==> LookupAll(u, group, key) == []
  {
    AllValuesLast(u, group, key);
  }

  // ---------------------------------------------------------------------
  // Listing
  // ---------------------------------------------------------------------

  /** quad_unit_file_has_group. */
  predicate HasGroup(u: UnitFile, name: string) {
    LookupGroup(u, name).Some?
  }

  /** quad_unit_file_list_groups: the group names in file order. */
  function ListGroups(u: UnitFile): (names: seq<string>)
    ensures |names| == |u.groups|
    ensures forall i :: 0 <= i < |names| ==> names[i] == u.groups[i].name
  {
    seq(|u.groups|, i requires 0 <= i < |u.groups| => u.groups[i].name)
  }

  lemma HasGroupListed(u: UnitFile, name: string)
    ensures HasGroup(u, name) <==> name in ListGroups(u)
  {
    if name in ListGroups(u) {
      var i :| 0 <= i < |ListGroups(u)| && ListGroups(u)[i] == name;
      assert u.groups[i].name == name;
    }
  }

  /** quad_unit_file_list_keys: the distinct keys of a group's entries. */
  function ListKeys(u: UnitFile, group: string): set<string> {
    match LookupGroup(u, group)
    case None => {}
    case Some(g) => set j | 0 <= j < |g.lines| && g.lines[j].Entry? :: g.lines[j].key
  }

  /** A key is listed exactly when lookup_last_raw finds a value for it. */
  lemma ListKeysLookup(u: UnitFile, group: string, key: string)
    ensures key in ListKeys(u, group) <==> LookupLastRaw(u, group, key).Some?
  {
    if LookupGroup(u, group).Some? {
      var g := LookupGroup(u, group).value;
      if key in ListKeys(u, group) {
        var j :| 0 <= j < |g.lines| && g.lines[j].Entry? && g.lines[j].key == key;
        assert IsEntry(g.lines[j], key);
      }
      if LookupLastRaw(u, group, key).Some? {
        var j := FindLast(g.lines, key).value;
        assert g.lines[j].key in ListKeys(u, group);
      }
    }
  }

  // ---------------------------------------------------------------------
  // Editing groups
  // ---------------------------------------------------------------------

  /** The group list with group i replaced by one of the same name: every
      lookup finds the same index as before. */
  lemma ReplaceGroupFind(gs: seq<Group>, i: nat, g: Group, name: string)
    requires i < |gs| && g.name == gs[i].name
    ensures FindGroup(gs[i := g], name) == FindGroup(gs, name)
  {
    var r := FindGroup(gs, name);
    if r.Some? {
      FindGroupIs(gs[i := g], name, r.value);
    }
  }

  /** After replacing the group found for g.name, that name finds the new
      group and every other name what it found before. */
  lemma ReplaceGroupLookup(u: UnitFile, i: nat, g: Group, name: string)
    requires FindGroup(u.groups, g.name) == Some(i)
    ensures LookupGroup(UnitFile(u.groups[i := g]), name)
            == if name == g.name then Some(g) else LookupGroup(u, name)
  {
    ReplaceGroupFind(u.groups, i, g, name);
  }

  lemma ReplaceGroupValid(u: UnitFile, i: nat, g: Group)
    requires Valid(u) && i < |u.groups| && g.name == u.groups[i].name
    ensures Valid(UnitFile(u.groups[i := g]))
  {
  }

  /** quad_unit_file_ensure_group: the group if it exists, otherwise a new
      empty group appended at the end. */
  function EnsureGroup(u: UnitFile, name: string): (r: UnitFile)
    ensures FindGroup(r.groups, name).Some?
    ensures |r.groups| >= |u.groups| && r.groups[..|u.groups|] == u.groups
  {
    match FindGroup(u.groups, name)
    case Some(_) => u
    case None =>
      var r := UnitFile(u.groups + [Group(name, [], [])]);
      FindGroupIs(r.groups, name, |u.groups|);
      r
  }

  /** Ensuring a group adds it if needed and changes nothing else. */
  lemma EnsureGroupLookup(u: UnitFile, name: string, other: string)
    ensures LookupGroup(EnsureGroup(u, name), other)
            == if other == name then Some(GroupOrNew(u, name)) else LookupGroup(u, other)
    ensures Valid(u) ==> Valid(EnsureGroup(u, name))
  {
    if FindGroup(u.groups, name).None? {
      var r := EnsureGroup(u, name);
      var f := FindGroup(u.groups, other);
      if f.Some? {
        FindGroupIs(r.groups, other, f.value);
      }
    }
  }

  /** Replaces the lines of the group called name, creating it if needed. */
  function WithLines(u: UnitFile, name: string, lines: seq<Line>): UnitFile {
    var e := EnsureGroup(u, name);
    var i := FindGroup(e.groups, name).value;
    UnitFile(e.groups[i := e.groups[i].(lines := lines)])
  }

  /** The group gets the new lines; every other group stays as it was. */
  lemma WithLinesLookup(u: UnitFile, name: string, lines: seq<Line>, other: string)
    ensures LookupGroup(WithLines(u, name, lines), other)
            == if other == name then Some(GroupOrNew(u, name).(lines := lines)) else LookupGroup(u, other)
    ensures Valid(u) ==> Valid(WithLines(u, name, lines))
  {
    var e := EnsureGroup(u, name);
    var i := FindGroup(e.groups, name).value;
    EnsureGroupLookup(u, name, other);
    EnsureGroupLookup(u, name, name);
    ReplaceGroupLookup(e, i, e.groups[i].(lines := lines), other);
  }

  // ---------------------------------------------------------------------
  // Setting, adding and removing entries
  // ---------------------------------------------------------------------

  /** quad_unit_file_set on the lines: the last entry for key gets the new
      value, or one is appended when there is none. */
  function SetLine(lines: seq<Line>, key: string, value: string): seq<Line> {
    match FindLast(lines, key)
    case Some(j) => lines[j := Entry(key, value)]
    case None => lines + [Entry(key, value)]
  }

  lemma SetLineLast(lines: seq<Line>, key: string, value: string, other: string)
    ensures LastValue(SetLine(lines, key, value), key) == Some(value)
    ensures other != key ==> LastValue(SetLine(lines, key, value), other) == LastValue(lines, other)
    ensures other != key ==> KeyValues(SetLine(lines, key, value), other) == KeyValues(lines, other)
  {
    var r := SetLine(lines, key, value);
    match FindLast(lines, key)
    case Some(j) =>
      FindLastIs(r, key, j);
      var f := FindLast(lines, other);
      if other != key && f.Some? {
        FindLastIs(r, other, f.value);
      }
      if other != key {
        KeyValuesReplace(lines, j, Entry(key, value), other);
      }
    case None =>
      FindLastIs(r, key, |lines|);
      var f := FindLast(lines, other);
      if other != key && f.Some? {
        FindLastIs(r, other, f.value);
      }
      assert r[..|lines|] == lines;
  }

  /** Replacing a line that is not an entry for key keeps key's values. */
  lemma {:induction false} KeyValuesReplace(lines: seq<Line>, j: nat, l: Line, key: string)
    requires j < |lines| && !IsEntry(lines[j], key) && !IsEntry(l, key)
    ensures KeyValues(lines[j := l], key) == KeyValues(lines, key)
    decreases |lines|
  {
    var r := lines[j := l];
    if j < |lines| - 1 {
      assert r[..|r| - 1] == lines[..|lines| - 1][j := l];
      KeyValuesReplace(lines[..|lines| - 1], j, l, key);
    } else {
      assert r[..|r| - 1] == lines[..|lines| - 1];
    }
  }

  /** quad_unit_file_set. */
  function Set(u: UnitFile, group: string, key: string, value: string): UnitFile {
    WithLines(u, group, SetLine(GroupOrNew(u, group).lines, key, value))
  }

  /** After set the key reads back the value; every other key of the group
      and every other group read as before. */
  lemma SetLookup(u: UnitFile, group: string, key: string, value: string, g: string, k: string)
    ensures LookupLastRaw(Set(u, group, key, value), group, key) == Some(value)
    ensures (g, k) != (group, key) ==>
      LookupLastRaw(Set(u, group, key, value), g, k) == LookupLastRaw(u, g, k)
    ensures (g, k) != (group, key) ==>
      AllValues(Set(u, group, key, value), g, k) == AllValues(u, g, k)
    ensures HasGroup(Set(u, group, key, value), group)
    ensures Valid(u) ==> Valid(Set(u, group, key, value))
  {
    var lines := GroupOrNew(u, group).lines;
    WithLinesLookup(u, group, SetLine(lines, key, value), g);
    WithLinesLookup(u, group, SetLine(lines, key, value), group);
    SetLineLast(lines, key, value, k);
    if g == group && k != key && LookupGroup(u, group).None? {
      assert lines == [];
    }
  }

  /** quad_unit_file_setv: each key/value pair set in turn. */
  function Setv(u: UnitFile, group: string, pairs: seq<(string, string)>): UnitFile
    decreases |pairs|
  {
    if |pairs| == 0 then u
    else
      var last := pairs[|pairs| - 1];
      Set(Setv(u, group, pairs[..|pairs| - 1]), group, last.0, last.1)
  }

  /** The value the last pair for key gives, if any. */
  function LastPair(pairs: seq<(string, string)>, key: string): Option<string>
    decreases |pairs|
  {
    if |pairs| == 0 then None
    else if pairs[|pairs| - 1].0 == key then Some(pairs[|pairs| - 1].1)
    else LastPair(pairs[..|pairs| - 1], key)
  }

  /** After setv each key reads the last value given for it; keys not given
      and other groups read as before. */
  lemma {:induction false} SetvLookup(u: UnitFile, group: string, pairs: seq<(string, string)>, g: string, k: string)
    ensures LookupLastRaw(Setv(u, group, pairs), g, k)
            == if g == group && LastPair(pairs, k).Some? then LastPair(pairs, k) else LookupLastRaw(u, g, k)
    decreases |pairs|
  {
    if |pairs| > 0 {
      var last := pairs[|pairs| - 1];
      SetvLookup(u, group, pairs[..|pairs| - 1], g, k);
      SetLookup(Setv(u, group, pairs[..|pairs| - 1]), group, last.0, last.1, g, k);
    }
  }

  /** quad_unit_file_add: a new entry at the end of the group. */
  function Add(u: UnitFile, group: string, key: string, value: string): UnitFile {
    WithLines(u, group, GroupOrNew(u, group).lines + [Entry(key, value)])
  }

  /** The added value is the last one; every other key of the group and
      every other group read as before. */
  lemma AddLookup(u: UnitFile, group: string, key: string, value: string, g: string, k: string)
    ensures LookupLastRaw(Add(u, group, key, value), group, key) == Some(value)
    ensures (g, k) != (group, key) ==>
      LookupLastRaw(Add(u, group, key, value), g, k) == LookupLastRaw(u, g, k)
    ensures (g, k) != (group, key) ==>
      AllValues(Add(u, group, key, value), g, k) == AllValues(u, g, k)
    ensures Valid(u) ==> Valid(Add(u, group, key, value))
  {
    AddLookupSame(u, group, key, value);
    AddLookupOther(u, group, key, value, g, k);
    AddValuesOther(u, group, key, value, g, k);
    WithLinesLookup(u, group, GroupOrNew(u, group).lines + [Entry(key, value)], group);
  }

  /** The added entry is the group's last one for its key. */
  lemma AddLookupSame(u: UnitFile, group: string, key: string, value: string)
    ensures LookupLastRaw(Add(u, group, key, value), group, key) == Some(value)
  {
    var lines := GroupOrNew(u, group).lines;
    var r := lines + [Entry(key, value)];
    WithLinesLookup(u, group, r, group);
    FindLastIs(r, key, |lines|);
  }

  /** Adding leaves the last value of every other key as it was. */
  lemma AddLookupOther(u: UnitFile, group: string, key: string, value: string, g: string, k: string)
    ensures (g, k) != (group, key) ==>
      LookupLastRaw(Add(u, group, key, value), g, k) == LookupLastRaw(u, g, k)
  {
    var lines := GroupOrNew(u, group).lines;
    var r := lines + [Entry(key, value)];
    WithLinesLookup(u, group, r, g);
    if g == group && k != key {
      assert r[..|r| - 1] == lines;
      var f := FindLast(lines, k);
      if f.Some? {
        FindLastIs(r, k, f.value);
      }
      if LookupGroup(u, group).None? {
        assert lines == [];
      }
    }
  }

  /** Adding leaves every value list of every other key as it was. */
  lemma AddValuesOther(u: UnitFile, group: string, key: string, value: string, g: string, k: string)
    ensures (g, k) != (group, key) ==>
      AllValues(Add(u, group, key, value), g, k) == AllValues(u, g, k)
  {
    var lines := GroupOrNew(u, group).lines;
    var r := lines + [Entry(key, value)];
    WithLinesLookup(u, group, r, g);
    if g == group && k != key {
      assert r[..|r| - 1] == lines;
      if LookupGroup(u, group).None? {
        assert lines == [];
      }
    }
  }

  /** An empty added value clears the list of all values; any other value
      is appended to it. */
  lemma AddAll(u: UnitFile, group: string, key: string, value: string)
    ensures AllValues(Add(u, group, key, value), group, key)
            == if value == "" then [] else AllValues(u, group, key) + [value]
  {
    var lines := GroupOrNew(u, group).lines;
    WithLinesLookup(u, group, lines + [Entry(key, value)], group);
    AddAllLines(lines, key, value);
    if LookupGroup(u, group).None? {
      assert lines == [];
    }
  }

  lemma AddAllLines(lines: seq<Line>, key: string, value: string)
    ensures AfterLastEmpty(KeyValues(lines + [Entry(key, value)], key))
            == if value == "" then [] else AfterLastEmpty(KeyValues(lines, key)) + [value]
  {
    var r := lines + [Entry(key, value)];
    assert r[..|r| - 1] == lines;
    var vs := KeyValues(lines, key);
    assert KeyValues(r, key) == vs + [value];
    assert (vs + [value])[..|vs|] == vs;
  }

  /** quad_unit_file_unset on the lines: every entry for key removed,
      comments and other keys kept in order. */
  function UnsetLines(lines: seq<Line>, key: string): (r: seq<Line>)
    ensures |r| <= |lines|
    decreases |lines|
  {
    if |lines| == 0 then []
    else
      var init := UnsetLines(lines[..|lines| - 1], key);
      if IsEntry(lines[|lines| - 1], key) then init else init + [lines[|lines| - 1]]
  }

  lemma UnsetLinesSpec(lines: seq<Line>, key: string, other: string)
    ensures FindLast(UnsetLines(lines, key), key).None?
    ensures other != key ==> LastValue(UnsetLines(lines, key), other) == LastValue(lines, other)
    ensures other != key ==> KeyValues(UnsetLines(lines, key), other) == KeyValues(lines, other)
  {
    UnsetLinesGone(lines, key);
    if other != key {
      UnsetLinesLast(lines, key, other);
      UnsetLinesValues(lines, key, other);
    }
  }

  /** The last entry for key in lines followed by one more line. */
  lemma LastValueSnoc(init: seq<Line>, l: Line, key: string)
    ensures LastValue(init + [l], key) == if IsEntry(l, key) then Some(l.value) else LastValue(init, key)
  {
    var r := init + [l];
    assert r[..|r| - 1] == init;
  }

  /** The values for key in lines followed by one more line. */
  lemma KeyValuesSnoc(init: seq<Line>, l: Line, key: string)
    ensures KeyValues(init + [l], key) == if IsEntry(l, key) then KeyValues(init, key) + [l.value] else KeyValues(init, key)
  {
    var r := init + [l];
    assert r[..|r| - 1] == init;
  }

  lemma {:induction false} UnsetLinesGone(lines: seq<Line>, key: string)
    ensures FindLast(UnsetLines(lines, key), key).None?
    decreases |lines|
  {
    if |lines| > 0 {
      var l := lines[|lines| - 1];
      UnsetLinesGone(lines[..|lines| - 1], key);
      if !IsEntry(l, key) {
        LastValueSnoc(UnsetLines(lines[..|lines| - 1], key), l, key);
      }
    }
  }

  lemma {:induction false} UnsetLinesLast(lines: seq<Line>, key: string, other: string)
    requires other != key
    ensures LastValue(UnsetLines(lines, key), other) == LastValue(lines, other)
    decreases |lines|
  {
    if |lines| > 0 {
      var front := lines[..|lines| - 1];
      var l := lines[|lines| - 1];
      UnsetLinesLast(front, key, other);
      if !IsEntry(l, key) {
        LastValueSnoc(UnsetLines(front, key), l, other);
      }
    }
  }

  lemma {:induction false} UnsetLinesValues(lines: seq<Line>, key: string, other: string)
    requires other != key
    ensures KeyValues(UnsetLines(lines, key), other) == KeyValues(lines, other)
    decreases |lines|
  {
    if |lines| > 0 {
      var front := lines[..|lines| - 1];
      var l := lines[|lines| - 1];
      UnsetLinesValues(front, key, other);
      if !IsEntry(l, key) {
        KeyValuesSnoc(UnsetLines(front, key), l, other);
      }
    }
  }

  /** quad_unit_file_unset: a missing group is left alone. */
  function Unset(u: UnitFile, group: string, key: string): UnitFile {
    match LookupGroup(u, group)
    case None => u
    case Some(g) => WithLines(u, group, UnsetLines(g.lines, key))
  }

  /** After unset the key has no value and is not listed; everything else
      reads as before. */
  lemma UnsetLookup(u: UnitFile, group: string, key: string, g: string, k: string)
    ensures LookupLastRaw(Unset(u, group, key), group, key).None?
    ensures key !in ListKeys(Unset(u, group, key), group)
    ensures (g, k) != (group, key) ==>
      LookupLastRaw(Unset(u, group, key), g, k) == LookupLastRaw(u, g, k)
    ensures (g, k) != (group, key) ==>
      AllValues(Unset(u, group, key), g, k) == AllValues(u, g, k)
    ensures HasGroup(Unset(u, group, key), g) <==> HasGroup(u, g)
    ensures Valid(u) ==> Valid(Unset(u, group, key))
  {
    ListKeysLookup(Unset(u, group, key), group, key);
    if LookupGroup(u, group).Some? {
      var lines := LookupGroup(u, group).value.lines;
      WithLinesLookup(u, group, UnsetLines(lines, key), g);
      WithLinesLookup(u, group, UnsetLines(lines, key), group);
      UnsetLinesSpec(lines, key, k);
    }
  }

  // ---------------------------------------------------------------------
  // Removing, renaming, merging and copying groups
  // ---------------------------------------------------------------------

  /** quad_unit_file_remove_group. */
  function RemoveGroup(u: UnitFile, name: string): UnitFile {
    match FindGroup(u.groups, name)
    case None => u
    case Some(i) => UnitFile(u.groups[..i] + u.groups[i + 1..])
  }

  /** Removing group i leaves every group of another name where a lookup
      finds it: the later groups move down by one. */
  lemma RemoveOtherLookup(u: UnitFile, i: nat, other: string)
    requires i < |u.groups| && other != u.groups[i].name
    ensures LookupGroup(UnitFile(u.groups[..i] + u.groups[i + 1..]), other) == LookupGroup(u, other)
  {
    var f := FindGroup(u.groups, other);
    if f.None? {
      RemoveAbsent(u, i, other);
    } else if f.value < i {
      RemoveBefore(u, i, other, f.value);
    } else {
      RemoveAfter(u, i, other, f.value);
    }
  }

  lemma RemoveAbsent(u: UnitFile, i: nat, other: string)
    requires i < |u.groups| && FindGroup(u.groups, other).None?
    ensures LookupGroup(UnitFile(u.groups[..i] + u.groups[i + 1..]), other) == LookupGroup(u, other)
  {
    var gs := u.groups;
    var r := gs[..i] + gs[i + 1..];
    forall k | 0 <= k < |r|
      ensures r[k].name != other
    {
      assert r[k] == gs[if k < i then k else k + 1];
    }
  }

  lemma RemoveBefore(u: UnitFile, i: nat, other: string, k: nat)
    requires i < |u.groups| && FindGroup(u.groups, other) == Some(k) && k < i
    ensures LookupGroup(UnitFile(u.groups[..i] + u.groups[i + 1..]), other) == LookupGroup(u, other)
  {
    var gs := u.groups;
    var r := gs[..i] + gs[i + 1..];
    forall j | 0 <= j <= k
      ensures r[j] == gs[j]
    {
    }
    FindGroupIs(r, other, k);
  }

  lemma RemoveAfter(u: UnitFile, i: nat, other: string, k: nat)
    requires i < |u.groups| && other != u.groups[i].name && FindGroup(u.groups, other) == Some(k) && k >= i
    ensures LookupGroup(UnitFile(u.groups[..i] + u.groups[i + 1..]), other) == LookupGroup(u, other)
  {
    var gs := u.groups;
    var r := gs[..i] + gs[i + 1..];
    forall j | 0 <= j < k - 1
      ensures r[j].name != other
    {
      assert r[j] == gs[if j < i then j else j + 1];
    }
    assert r[k - 1] == gs[k];
    FindGroupIs(r, other, k - 1);
  }

  /** In a valid file no other group carries the removed group's name. */
  lemma RemoveOwnLookup(u: UnitFile, i: nat)
    requires Valid(u) && i < |u.groups|
    ensures LookupGroup(UnitFile(u.groups[..i] + u.groups[i + 1..]), u.groups[i].name).None?
  {
    var gs := u.groups;
    var r := gs[..i] + gs[i + 1..];
    forall k | 0 <= k < |r|
      ensures r[k].name != gs[i].name
    {
      assert r[k] == gs[if k < i then k else k + 1];
    }
  }

  /** In a valid file the group is gone and every other group remains. */
  lemma RemoveGroupLookup(u: UnitFile, name: string, other: string)
    requires Valid(u)
    ensures LookupGroup(RemoveGroup(u, name), other) == if other == name then None else LookupGroup(u, other)
    ensures Valid(RemoveGroup(u, name))
  {
    match FindGroup(u.groups, name)
    case None =>
    case Some(i) =>
      if other != name {
        RemoveOtherLookup(u, i, other);
      } else {
        RemoveOwnLookup(u, i);
      }
      RemoveGroupValid(u, i);
  }

  lemma RemoveGroupValid(u: UnitFile, i: nat)
    requires Valid(u) && i < |u.groups|
    ensures Valid(UnitFile(u.groups[..i] + u.groups[i + 1..]))
  {
    var gs := u.groups[..i] + u.groups[i + 1..];
    assert forall k :: 0 <= k < |gs| ==> gs[k] == u.groups[if k < i then k else k + 1];
  }

  lemma RemoveGroupListed(u: UnitFile, name: string, other: string)
    requires Valid(u)
    ensures other in ListGroups(RemoveGroup(u, name)) <==> other in ListGroups(u) && other != name
  {
    RemoveGroupLookup(u, name, other);
    HasGroupListed(u, other);
    HasGroupListed(RemoveGroup(u, name), other);
  }

  /** quad_unit_group_merge: the source's comments and lines appended. */
  function MergeInto(g: Group, source: Group): Group {
    g.(comments := g.comments + source.comments, lines := g.lines + source.lines)
  }

  /** quad_unit_file_rename_group: a missing group, or a rename to the same
      name, changes nothing; a new name renames in place; an existing name
      receives the group's comments and lines and the group is removed. */
  function RenameGroup(u: UnitFile, name: string, newName: string): UnitFile {
    match FindGroup(u.groups, name)
    case None => u
    case Some(i) =>
      if name == newName then u
      else match FindGroup(u.groups, newName)
        case None => UnitFile(u.groups[i := u.groups[i].(name := newName)])
        case Some(j) =>
          RemoveGroup(UnitFile(u.groups[j := MergeInto(u.groups[j], u.groups[i])]), name)
  }

  /** After a rename the old name is gone, the new name holds the target's
      lines followed by the renamed group's, and other groups are as before. */
  lemma RenameGroupLookup(u: UnitFile, name: string, newName: string, other: string)
    requires Valid(u) && HasGroup(u, name) && name != newName
    ensures var r := RenameGroup(u, name, newName);
      LookupGroup(r, other) ==
        if other == name then None
        else if other == newName then
          Some(MergeInto(GroupOrNew(u, newName), LookupGroup(u, name).value).(name := newName))
        else LookupGroup(u, other)
    ensures Valid(RenameGroup(u, name, newName))
  {
    var i := FindGroup(u.groups, name).value;
    match FindGroup(u.groups, newName)
    case None =>
      var gs := u.groups[i := u.groups[i].(name := newName)];
      FindGroupIs(gs, newName, i);
      var f := FindGroup(u.groups, other);
      if other != name && other != newName && f.Some? {
        FindGroupIs(gs, other, f.value);
      }
      var g := u.groups[i];
      assert MergeInto(Group(newName, [], []), g).(name := newName) == g.(name := newName);
    case Some(j) =>
      var m := UnitFile(u.groups[j := MergeInto(u.groups[j], u.groups[i])]);
      ReplaceGroupLookup(u, j, MergeInto(u.groups[j], u.groups[i]), other);
      RemoveGroupLookup(m, name, other);
  }

  /** The lines read under the new name after a rename. */
  lemma RenameGroupLast(u: UnitFile, name: string, newName: string, key: string)
    requires Valid(u) && HasGroup(u, name) && name != newName
    ensures LookupLastRaw(RenameGroup(u, name, newName), newName, key)
            == if LookupLastRaw(u, name, key).Some? then LookupLastRaw(u, name, key)
               else LookupLastRaw(u, newName, key)
    ensures !HasGroup(RenameGroup(u, name, newName), name)
  {
    RenameGroupLookup(u, name, newName, newName);
    RenameGroupLookup(u, name, newName, name);
    LastValueAppend(GroupOrNew(u, newName).lines, LookupGroup(u, name).value.lines, key);
  }

  /** The last value in a concatenation comes from the second part if it
      has one. */
  lemma LastValueAppend(a: seq<Line>, b: seq<Line>, key: string)
    ensures LastValue(a + b, key) == if LastValue(b, key).Some? then LastValue(b, key) else LastValue(a, key)
  {
    var fb := FindLast(b, key);
    var fa := FindLast(a, key);
    if fb.Some? {
      FindLastIs(a + b, key, |a| + fb.value);
    } else if fa.Some? {
      FindLastIs(a + b, key, fa.value);
    }
  }

  /** Merges one source group into the file. */
  function MergeGroup(u: UnitFile, source: Group): UnitFile {
    var e := EnsureGroup(u, source.name);
    var i := FindGroup(e.groups, source.name).value;
    UnitFile(e.groups[i := MergeInto(e.groups[i], source)])
  }

  /** quad_unit_file_merge: every source group in turn. */
  function MergeGroups(u: UnitFile, sources: seq<Group>): UnitFile
    decreases |sources|
  {
    if |sources| == 0 then u
    else MergeGroup(MergeGroups(u, sources[..|sources| - 1]), sources[|sources| - 1])
  }

  function Merge(u: UnitFile, source: UnitFile): UnitFile {
    MergeGroups(u, source.groups)
  }

  lemma MergeGroupLookup(u: UnitFile, source: Group, other: string)
    ensures LookupGroup(MergeGroup(u, source), other)
            == if other == source.name then Some(MergeInto(GroupOrNew(u, source.name), source))
               else LookupGroup(u, other)
    ensures Valid(u) ==> Valid(MergeGroup(u, source))
  {
    var e := EnsureGroup(u, source.name);
    var i := FindGroup(e.groups, source.name).value;
    EnsureGroupLookup(u, source.name, other);
    EnsureGroupLookup(u, source.name, source.name);
    ReplaceGroupLookup(e, i, MergeInto(e.groups[i], source), other);
  }

  /** Merging a valid file appends each of its groups' comments and lines to
      the group of the same name, creating the groups that are missing. */
  lemma {:induction false} MergeLookup(u: UnitFile, sources: seq<Group>, other: string)
    requires Valid(UnitFile(sources))
    ensures LookupGroup(MergeGroups(u, sources), other)
            == match FindGroup(sources, other)
               case None => LookupGroup(u, other)
               case Some(i) => Some(MergeInto(GroupOrNew(u, other), sources[i]))
    decreases |sources|
  {
    if |sources| > 0 {
      var init := sources[..|sources| - 1];
      var last := sources[|sources| - 1];
      FindGroupSnoc(sources, other);
      MergeLookup(u, init, other);
      MergeLookup(u, init, last.name);
      MergeGroupLookup(MergeGroups(u, init), last, other);
    }
  }

  /** In a valid group list the last group is found under its own name
      only, and every other name is found among the groups before it. */
  lemma FindGroupSnoc(gs: seq<Group>, name: string)
    requires |gs| > 0 && Valid(UnitFile(gs))
    ensures Valid(UnitFile(gs[..|gs| - 1]))
    ensures name == gs[|gs| - 1].name ==>
      FindGroup(gs, name) == Some(|gs| - 1) && FindGroup(gs[..|gs| - 1], name).None?
    ensures name != gs[|gs| - 1].name ==>
      FindGroup(gs, name) == FindGroup(gs[..|gs| - 1], name)
    ensures FindGroup(gs[..|gs| - 1], name).Some? ==>
      gs[FindGroup(gs[..|gs| - 1], name).value] == gs[..|gs| - 1][FindGroup(gs[..|gs| - 1], name).value]
  {
    var n := |gs| - 1;
    if name == gs[n].name {
      FindGroupLast(gs, name);
    } else {
      FindGroupBefore(gs, name);
    }
  }

  lemma FindGroupLast(gs: seq<Group>, name: string)
    requires |gs| > 0 && Valid(UnitFile(gs)) && name == gs[|gs| - 1].name
    ensures FindGroup(gs, name) == Some(|gs| - 1) && FindGroup(gs[..|gs| - 1], name).None?
  {
    var n := |gs| - 1;
    forall i | 0 <= i < n
      ensures gs[..n][i].name != name
    {
      assert gs[..n][i] == gs[i];
    }
    FindGroupIs(gs, name, n);
  }

  lemma FindGroupBefore(gs: seq<Group>, name: string)
    requires |gs| > 0 && name != gs[|gs| - 1].name
    ensures FindGroup(gs, name) == FindGroup(gs[..|gs| - 1], name)
  {
    var n := |gs| - 1;
    var f := FindGroup(gs[..n], name);
    if f.Some? {
      assert gs[..n][f.value] == gs[f.value];
      forall i | 0 <= i < f.value
        ensures gs[i].name != name
      {
        assert gs[..n][i] == gs[i];
      }
      FindGroupIs(gs, name, f.value);
    } else {
      forall i | 0 <= i < |gs|
        ensures gs[i].name != name
      {
        if i < n {
          assert gs[..n][i] == gs[i];
        }
      }
    }
  }

  /** Merging keeps group names unique. */
  lemma {:induction false} MergeValid(u: UnitFile, sources: seq<Group>)
    requires Valid(u)
    ensures Valid(MergeGroups(u, sources))
    decreases |sources|
  {
    if |sources| > 0 {
      MergeValid(u, sources[..|sources| - 1]);
      MergeGroupLookup(MergeGroups(u, sources[..|sources| - 1]), sources[|sources| - 1], "");
    }
  }

  /** After a merge a key reads the source's value if the source has one. */
  lemma MergeLast(u: UnitFile, source: UnitFile, group: string, key: string)
    requires Valid(source)
    ensures LookupLastRaw(Merge(u, source), group, key)
            == if LookupLastRaw(source, group, key).Some? then LookupLastRaw(source, group, key)
               else LookupLastRaw(u, group, key)
  {
    MergeLookup(u, source.groups, group);
    if LookupGroup(source, group).Some? {
      LastValueAppend(GroupOrNew(u, group).lines, LookupGroup(source, group).value.lines, key);
    }
  }

  /** quad_unit_file_copy: a merge into a new file. */
  function Copy(u: UnitFile): UnitFile {
    Merge(Empty, u)
  }

  /** Copying a valid file gives the same file. */
  lemma {:induction false} CopyPrefix(gs: seq<Group>)
    requires Valid(UnitFile(gs))
    ensures MergeGroups(Empty, gs) == UnitFile(gs)
    decreases |gs|
  {
    if |gs| > 0 {
      var init := gs[..|gs| - 1];
      FindGroupSnoc(gs, gs[|gs| - 1].name);
      CopyPrefix(init);
      MergeNewGroup(init, gs[|gs| - 1]);
      FrontLast(gs);
    }
  }

  /** Merging a group whose name is new appends it as it is. */
  lemma MergeNewGroup(init: seq<Group>, last: Group)
    requires FindGroup(init, last.name).None?
    ensures MergeGroup(UnitFile(init), last) == UnitFile(init + [last])
  {
    FindGroupIs(init + [Group(last.name, [], [])], last.name, |init|);
    assert [] + last.comments == last.comments && [] + last.lines == last.lines;
  }

  lemma CopyIdentity(u: UnitFile)
    requires Valid(u)
    ensures Copy(u) == u
  {
    CopyPrefix(u.groups);
  }
}
