/** Building podman command lines: an ordered list of arguments that starts
    with the podman binary, grows only at the end, emits hash-table entries
    as "--flag key=value" pairs in key order, and is finally written as one
    escaped ExecStart line. Both the C builder (QuadPodman) and the Go one
    (PodmanCmdline) are modelled; they hold the same list. */
module Podman {
  import opened Wrappers
  import opened Strings
  import opened Tokenizer
  import opened Escape
  import opened IdMap
  import opened Generator

  const PODMAN_BINARY: string := "/usr/bin/podman"

  /** The arguments collected so far. */
  datatype Cmdline = Cmdline(args: seq<string>)

  // ---------------------------------------------------------------------
  // Adding arguments
  // ---------------------------------------------------------------------

  /** quad_podman_add / PodmanCmdline.add with one argument. */
  function Add(c: Cmdline, arg: string): (r: Cmdline)
    ensures |r.args| == |c.args| + 1
    ensures r.args[..|c.args|] == c.args && r.args[|c.args|] == arg
  {
    Cmdline(c.args + [arg])
  }

  /** quad_podman_add_array / PodmanCmdline.add with several arguments:
      one add per argument, in order. */
  function AddArray(c: Cmdline, strv: seq<string>): (r: Cmdline)
    ensures r.args == c.args + strv
    decreases |strv|
  {
    if |strv| == 0 then c
    else
      var r := Add(AddArray(c, strv[..|strv| - 1]), strv[|strv| - 1]);
      assert strv == strv[..|strv| - 1] + [strv[|strv| - 1]];
      r
  }

  /** quad_podman_addv: adds arguments until the terminating NULL, which the
      list of arguments stands for. */
  method AddV(c: Cmdline, args: seq<string>) returns (r: Cmdline)
    ensures r.args == c.args + args
  {
    r := c;
    var i := 0;
    while i < |args|
      invariant 0 <= i <= |args|
      invariant r.args == c.args + args[..i]
    {
      r := Add(r, args[i]);
      assert args[..i + 1] == args[..i] + [args[i]];
      i := i + 1;
    }
    assert args[..|args|] == args;
  }

  /** quad_podman_new: the binary, then the command and the sub-command when
      they are given. */
  function New(command: Option<string>, subCommand: Option<string>): (c: Cmdline)
    ensures |c.args| == 1 + (if command.Some? then 1 else 0) + (if subCommand.Some? then 1 else 0)
    ensures c.args[0] == PODMAN_BINARY
    ensures command.Some? ==> c.args[1] == command.value
    ensures subCommand.Some? ==> c.args[|c.args| - 1] == subCommand.value
  {
    var c0 := Add(Cmdline([]), PODMAN_BINARY);
    var c1 := if command.Some? then Add(c0, command.value) else c0;
    if subCommand.Some? then Add(c1, subCommand.value) else c1
  }

  /** NewPodmanCmdline: the binary, then the given arguments. */
  function NewCmdline(args: seq<string>): (c: Cmdline)
    ensures |c.args| == 1 + |args| && c.args[0] == PODMAN_BINARY && c.args[1..] == args
  {
    AddArray(Add(Cmdline([]), PODMAN_BINARY), args)
  }

  /** The two constructors agree: the C command and sub-command are the Go
      arguments. */
  lemma NewAgrees(command: string, subCommand: string)
    ensures New(Some(command), Some(subCommand)) == NewCmdline([command, subCommand])
    ensures New(Some(command), None) == NewCmdline([command])
    ensures New(None, None) == NewCmdline([])
  {
    var c := New(Some(command), Some(subCommand));
    var d := NewCmdline([command, subCommand]);
    assert c.args == [PODMAN_BINARY, command, subCommand];
    assert d.args == [PODMAN_BINARY] + [command, subCommand];
  }

  // ---------------------------------------------------------------------
  // Key=value pairs
  // ---------------------------------------------------------------------

  /** The flag before each word: [arg, ws[0], arg, ws[1], ...]. */
  function Pairs(arg: string, ws: seq<string>): seq<string>
    decreases |ws|
  {
    if |ws| == 0 then [] else [arg, ws[0]] + Pairs(arg, ws[1..])
  }

  lemma {:induction false} PairsSpec(arg: string, ws: seq<string>)
    ensures |Pairs(arg, ws)| == 2 * |ws|
    ensures forall i :: 0 <= i < |ws| ==> Pairs(arg, ws)[2 * i] == arg && Pairs(arg, ws)[2 * i + 1] == ws[i]
    decreases |ws|
  {
    if |ws| > 0 {
      PairsSpec(arg, ws[1..]);
      var p := Pairs(arg, ws);
      forall i | 0 <= i < |ws|
        ensures p[2 * i] == arg && p[2 * i + 1] == ws[i]
      {
        if i > 0 {
          assert p[2 * i] == Pairs(arg, ws[1..])[2 * (i - 1)];
          assert p[2 * i + 1] == Pairs(arg, ws[1..])[2 * (i - 1) + 1];
        }
      }
    }
  }

  /** The "key=value" words for the keys of ks that have a value, in the
      order of ks: the C loop skips a key whose value is NULL. */
  function Assignments(ks: seq<string>, keys: map<string, Option<string>>): seq<string>
    decreases |ks|
  {
    if |ks| == 0 then []
    else
      var k := ks[|ks| - 1];
      Assignments(ks[..|ks| - 1], keys) + (if k in keys && keys[k].Some? then [k + "=" + keys[k].value] else [])
  }

  /** quad_podman_add_keys: the table's keys sorted with strcmp, and for each
      key with a value the flag and "key=value". */
  function AddKeys(c: Cmdline, arg: string, keys: map<string, Option<string>>): Cmdline {
    AddArray(c, Pairs(arg, Assignments(SortedElements(keys.Keys), keys)))
  }

  /** The words of Assignments come from ks in order: each is a key of ks
      that has a value, its '=' and that value, and the keys ascend. */
  lemma {:induction false} AssignmentsFrom(ks: seq<string>, keys: map<string, Option<string>>) returns (idx: seq<nat>)
    ensures var ws := Assignments(ks, keys);
      |idx| == |ws| &&
      (forall i :: 0 <= i < |idx| ==>
        (idx[i] < |ks| && ks[idx[i]] in keys && keys[ks[idx[i]]].Some? &&
         ws[i] == ks[idx[i]] + "=" + keys[ks[idx[i]]].value)) &&
      (forall i, j :: 0 <= i < j < |idx| ==> idx[i] < idx[j])
    decreases |ks|
  {
    if |ks| == 0 {
      idx := [];
    } else {
      var n := |ks| - 1;
      var k := ks[n];
      var front := ks[..n];
      var idx0 := AssignmentsFrom(front, keys);
      assert forall i :: 0 <= i < |idx0| ==> front[idx0[i]] == ks[idx0[i]];
      if k in keys && keys[k].Some? {
        idx := idx0 + [n];
      } else {
        idx := idx0;
      }
    }
  }

  /** The key an assignment word binds is the text before its '='. */
  lemma AssignmentOf(k: string, v: string)
    requires '=' !in k
    ensures AssignmentKey(k + "=" + v) == Some(k)
    ensures (k + "=" + v)[|k| + 1..] == v
  {
    ParseKeyValSpec(map[], k, v);
    assert k + "=" + v == k + ['='] + v;
  }

  /** Over keys free of '=' and listed once each, the last word binding a
      key is its own word, if it has a value. */
  lemma {:induction false} AssignmentsLast(ks: seq<string>, keys: map<string, Option<string>>, key: string)
    requires forall i, j :: 0 <= i < j < |ks| ==> ks[i] != ks[j]
    requires forall i :: 0 <= i < |ks| ==> '=' !in ks[i]
    ensures LastAssigned(Assignments(ks, keys), key) ==
      if key in ks && key in keys && keys[key].Some? then Some(keys[key].value) else None
    decreases |ks|
  {
    if |ks| > 0 {
      var n := |ks| - 1;
      var k := ks[n];
      var front := ks[..n];
      AssignmentsLast(front, keys, key);
      var ws0 := Assignments(front, keys);
      assert key in ks <==> key in front || key == k;
      if k in keys && keys[k].Some? {
        var w := k + "=" + keys[k].value;
        var ws := ws0 + [w];
        assert ws[..|ws| - 1] == ws0;
        AssignmentOf(k, keys[k].value);
      } else {
        assert ws0 + [] == ws0;
        if key == k {
          assert key !in front;
        }
      }
    }
  }

  /** Reading back what quad_podman_add_keys writes with parse_key_val
      gives the table's keys that have a value, bound to those values:
      the --env pairs carry the Environment= assignments unchanged. */
  lemma AddKeysReadBack(keys: map<string, Option<string>>, key: string)
    requires forall k :: k in keys ==> '=' !in k
    ensures var r := ParseAssignments(map[], Assignments(SortedElements(keys.Keys), keys));
      (key in r <==> key in keys && keys[key].Some?) &&
      (key in r ==> r[key] == keys[key].value)
  {
    var ks := SortedElements(keys.Keys);
    var ws := Assignments(ks, keys);
    AssignmentsLast(ks, keys, key);
    ParseAssignmentsLastWins(map[], ws, key);
  }

  /** What quad_podman_add_keys appends: the flag before every word. */
  lemma AddKeysSpec(c: Cmdline, arg: string, keys: map<string, Option<string>>)
    ensures var ws := Assignments(SortedElements(keys.Keys), keys);
      var r := AddKeys(c, arg, keys);
      |r.args| == |c.args| + 2 * |ws| && r.args[..|c.args|] == c.args &&
      (forall i :: 0 <= i < |ws| ==> r.args[|c.args| + 2 * i] == arg && r.args[|c.args| + 2 * i + 1] == ws[i])
  {
    var ws := Assignments(SortedElements(keys.Keys), keys);
    PairsSpec(arg, ws);
  }

  /** The words quad_podman_add_keys writes bind distinct keys in strictly
      ascending strcmp order, so the output does not depend on the table's
      iteration order. */
  lemma AddKeysSorted(keys: map<string, Option<string>>)
    requires forall k :: k in keys ==> '=' !in k
    ensures var ws := Assignments(SortedElements(keys.Keys), keys);
      (forall i :: 0 <= i < |ws| ==> AssignmentKey(ws[i]).Some?) &&
      (forall i, j :: 0 <= i < j < |ws| ==>
        LexLessEq(AssignmentKey(ws[i]).value, AssignmentKey(ws[j]).value) &&
        AssignmentKey(ws[i]) != AssignmentKey(ws[j]))
  {
    var ks := SortedElements(keys.Keys);
    var ws := Assignments(ks, keys);
    var idx := AssignmentsFrom(ks, keys);
    forall i | 0 <= i < |ws|
      ensures AssignmentKey(ws[i]) == Some(ks[idx[i]])
    {
      AssignmentOf(ks[idx[i]], keys[ks[idx[i]]].value);
    }
  }

  /** PodmanCmdline.addKeys: every key, sorted, with its value. */
  function GoAssignments(ks: seq<string>, keys: map<string, string>): seq<string>
    decreases |ks|
  {
    if |ks| == 0 then []
    else
      var k := ks[|ks| - 1];
      GoAssignments(ks[..|ks| - 1], keys) + [k + "=" + (if k in keys then keys[k] else "")]
  }

  function GoAddKeys(c: Cmdline, arg: string, keys: map<string, string>): Cmdline {
    AddArray(c, Pairs(arg, GoAssignments(SortedElements(keys.Keys), keys)))
  }

  /** A Go map is a C table in which every key has a value. */
  function AsTable(keys: map<string, string>): (t: map<string, Option<string>>)
    ensures t.Keys == keys.Keys
    ensures forall k :: k in t ==> t[k] == Some(keys[k])
  {
    map k | k in keys :: Some(keys[k])
  }

  lemma {:induction false} GoAssignmentsAgree(ks: seq<string>, keys: map<string, string>)
    requires forall i :: 0 <= i < |ks| ==> ks[i] in keys
    ensures GoAssignments(ks, keys) == Assignments(ks, AsTable(keys))
    decreases |ks|
  {
    if |ks| > 0 {
      GoAssignmentsAgree(ks[..|ks| - 1], keys);
    }
  }

  /** The Go builder emits what the C builder emits for the same table. */
  lemma GoAddKeysAgrees(c: Cmdline, arg: string, keys: map<string, string>)
    ensures GoAddKeys(c, arg, keys) == AddKeys(c, arg, AsTable(keys))
  {
    var ks := SortedElements(keys.Keys);
    assert AsTable(keys).Keys == keys.Keys;
    GoAssignmentsAgree(ks, keys);
  }

  // ---------------------------------------------------------------------
  // Id mappings
  // ---------------------------------------------------------------------

  /** "%d:%d:%d" (Go) / "%ld:%ld:%ld" (C) of a mapping. */
  function TripleText(m: IdMapping): string {
    IntToString(m.container) + ":" + IntToString(m.host) + ":" + IntToString(m.count)
  }

  /** The triple text splits at its two colons into numbers that read back
      as the mapping. */
  lemma TripleReadBack(m: IdMapping)
    ensures var parts := SplitOn(TripleText(m), ':');
      |parts| == 3 &&
      ScanInteger(parts[0]) == Scanned(m.container, |parts[0]|) &&
      ScanInteger(parts[1]) == Scanned(m.host, |parts[1]|) &&
      ScanInteger(parts[2]) == Scanned(m.count, |parts[2]|)
  {
    NoColon(m.container);
    NoColon(m.host);
    NoColon(m.count);
    SplitThree(IntToString(m.container), IntToString(m.host), IntToString(m.count));
    IntToStringScan(m.container);
    IntToStringScan(m.host);
    IntToStringScan(m.count);
  }

  lemma SplitThree(a: string, b: string, c: string)
    requires ':' !in a && ':' !in b && ':' !in c
    ensures SplitOn(a + ":" + b + ":" + c, ':') == [a, b, c]
  {
    assert a + ":" + b + ":" + c == a + [':'] + (b + [':'] + c);
    SplitOnCons(a, ':', b + [':'] + c);
    SplitOnCons(b, ':', c);
    assert IndexOf(c, ':') == -1;
  }

  lemma NoColon(i: int)
    ensures ':' !in IntToString(i)
  {
    IntToStringChars(i);
  }

  /** PodmanCmdline.addIdMap: the prefix and the triple, unless the mapping
      is empty. */
  function AddIdMap(c: Cmdline, prefix: string, m: IdMapping): (r: Cmdline)
    ensures m.count == 0 ==> r == c
    ensures m.count != 0 ==> r.args == c.args + [prefix, TripleText(m)]
  {
    if m.count != 0 then AddArray(c, [prefix, TripleText(m)]) else c
  }

  /** One addIdMap per mapping, in order, as addIdMaps and add_id_maps do. */
  function AddIdMapList(c: Cmdline, prefix: string, ms: seq<IdMapping>): Cmdline
    decreases |ms|
  {
    if |ms| == 0 then c else AddIdMapList(AddIdMap(c, prefix, ms[0]), prefix, ms[1..])
  }

  /** The mappings that map something. */
  function NonEmpty(ms: seq<IdMapping>): (r: seq<IdMapping>)
    ensures forall i :: 0 <= i < |r| ==> r[i].count != 0 && r[i] in ms
    decreases |ms|
  {
    if |ms| == 0 then [] else (if ms[0].count != 0 then [ms[0]] else []) + NonEmpty(ms[1..])
  }

  /** The triple text of every mapping, in order. */
  function Texts(ms: seq<IdMapping>): seq<string>
    decreases |ms|
  {
    if |ms| == 0 then [] else [TripleText(ms[0])] + Texts(ms[1..])
  }

  /** The arguments written for a list of mappings: the prefix before the
      text of every mapping that maps something, empty ones left out. */
  lemma {:induction false} AddIdMapListSpec(c: Cmdline, prefix: string, ms: seq<IdMapping>)
    ensures AddIdMapList(c, prefix, ms).args == c.args + Pairs(prefix, Texts(NonEmpty(ms)))
    decreases |ms|
  {
    if |ms| > 0 {
      var c1 := AddIdMap(c, prefix, ms[0]);
      AddIdMapListSpec(c1, prefix, ms[1..]);
      var rest := NonEmpty(ms[1..]);
      var tail := Pairs(prefix, Texts(rest));
      assert AddIdMapList(c, prefix, ms).args == c1.args + tail;
      if ms[0].count != 0 {
        assert NonEmpty(ms) == [ms[0]] + rest;
        PairsTextsCons(prefix, ms[0], rest);
        assert c1.args + tail == c.args + ([prefix, TripleText(ms[0])] + tail);
      } else {
        assert NonEmpty(ms) == rest;
      }
    }
  }

  lemma PairsTextsCons(prefix: string, m: IdMapping, rest: seq<IdMapping>)
    ensures Pairs(prefix, Texts([m] + rest)) == [prefix, TripleText(m)] + Pairs(prefix, Texts(rest))
  {
    assert ([m] + rest)[1..] == rest;
  }

  /** Every mapping of a positive list is written. */
  lemma {:induction false} NonEmptyPositive(ms: seq<IdMapping>)
    requires Positive(ms)
    ensures NonEmpty(ms) == ms
    decreases |ms|
  {
    if |ms| > 0 {
      NonEmptyPositive(ms[1..]);
      assert [ms[0]] + ms[1..] == ms;
    }
  }

  /** add_id_maps writes every triple it computes, the prefix before each. */
  lemma CIdMapArgs(c: Cmdline, prefix: string, cid: int, hid: int, extraStart: int, numExtra: int)
    requires cid >= 0 && numExtra >= 0
    ensures AddIdMapList(c, prefix, CAddIdMaps(cid, hid, extraStart, numExtra)).args ==
      c.args + Pairs(prefix, Texts(CAddIdMaps(cid, hid, extraStart, numExtra)))
  {
    var ms := CAddIdMaps(cid, hid, extraStart, numExtra);
    CAddIdMapsSpec(cid, hid, extraStart, numExtra);
    NonEmptyPositive(ms);
    AddIdMapListSpec(c, prefix, ms);
  }

  // ---------------------------------------------------------------------
  // The exec line
  // ---------------------------------------------------------------------

  /** quad_podman_to_exec: the arguments escaped and joined by spaces, by
      quad_escape_words as the source writes it. */
  function ToExec(c: Cmdline): string {
    EscapeWordsAsWritten(c.args)
  }

  /** The ExecStart line splits back into the arguments, when each is
      readable (non-empty, without NUL or ';') and holds no '"', which the
      escaper writes bare. */
  lemma ToExecReadBack(c: Cmdline, fl: Flags)
    requires ReadsEscapes(fl)
    requires forall k :: 0 <= k < |c.args| ==> Readable(c.args[k]) && '"' !in c.args[k]
    ensures SplitStringAppend([], ToExec(c), None, fl) == Split(true, c.args)
  {
    EscapeSplitRoundTripAsWritten(c.args, fl);
  }

  /** In particular the first word read back is the podman binary. */
  lemma ToExecBinaryFirst(args: seq<string>, fl: Flags)
    requires ReadsEscapes(fl)
    requires forall k :: 0 <= k < |args| ==> Readable(args[k]) && '"' !in args[k]
    ensures var r := SplitStringAppend([], ToExec(NewCmdline(args)), None, fl);
      r.ok && |r.words| == 1 + |args| && r.words[0] == PODMAN_BINARY && r.words[1..] == args
  {
    var c := NewCmdline(args);
    assert Readable(PODMAN_BINARY) && '"' !in PODMAN_BINARY by {
      assert PODMAN_BINARY[0] == '/';
      assert forall k :: 0 <= k < |PODMAN_BINARY| ==> PODMAN_BINARY[k] != '"';
    }
    forall k | 0 <= k < |c.args|
      ensures Readable(c.args[k]) && '"' !in c.args[k]
    {
      if k > 0 {
        assert c.args[k] == args[k - 1];
      }
    }
    ToExecReadBack(c, fl);
  }

  /** An argument holding '"' does not survive the Exec line: a"b reads
      back as ab. */
  lemma ToExecQuoteLost()
    ensures SplitStringAppend([], ToExec(Cmdline(["a\"b"])), None, GENERATOR_FLAGS) == Split(true, ["ab"])
  {
    QuoteAsWritten();
  }
}
