/** The generator's small string helpers: joining backslash-newline
    continuations, normalising relative paths, replacing a file name's
    extension (the C and the Go version) and splitting a port specification
    on colons outside brackets. */
module Helpers {
  import opened Wrappers
  import opened Strings

  // ---------------------------------------------------------------------
  // quad_apply_line_continuation
  // ---------------------------------------------------------------------

  /** No backslash in s is directly followed by a newline. */
  predicate NoContinuation(s: string) {
    forall i :: 0 <= i < |s| - 1 ==> !(s[i] == '\\' && s[i + 1] == '\n')
  }

  /** Every backslash-newline replaced by one space, reading left to right. */
  function JoinContinuations(s: string): (r: string)
    ensures |r| <= |s|
    decreases |s|
  {
    if |s| == 0 then ""
    else if |s| >= 2 && s[0] == '\\' && s[1] == '\n' then " " + JoinContinuations(s[2..])
    else [s[0]] + JoinContinuations(s[1..])
  }

  /** strstr(s, "\\\n"): the leftmost backslash-newline, or -1. */
  function FindContinuation(s: string): (k: int)
    ensures k == -1 || 0 <= k < |s| - 1
    ensures k >= 0 ==> s[k] == '\\' && s[k + 1] == '\n' && NoContinuation(s[..k + 1])
    ensures k == -1 ==> NoContinuation(s)
    decreases |s|
  {
    if |s| < 2 then -1
    else if s[0] == '\\' && s[1] == '\n' then 0
    else
      var k := FindContinuation(s[1..]);
      assert forall i :: 1 <= i < |s| - 1 ==> s[i] == s[1..][i - 1];
      if k == -1 then -1
      else
        k + 1
  }

  /** A string without continuations is left as it is. */
  lemma {:induction false} JoinPlain(s: string)
    requires NoContinuation(s)
    ensures JoinContinuations(s) == s
    decreases |s|
  {
    if |s| > 0 {
      assert NoContinuation(s[1..]) by {
        assert forall i :: 0 <= i < |s| - 2 ==> s[1..][i] == s[i + 1];
      }
      JoinPlain(s[1..]);
      HeadTail(s);
    }
  }

  /** Up to the leftmost continuation the text is copied, then one space. */
  lemma {:induction false} JoinAtFirst(s: string, k: nat)
    requires k + 1 < |s| && s[k] == '\\' && s[k + 1] == '\n' && NoContinuation(s[..k + 1])
    ensures JoinContinuations(s) == s[..k] + " " + JoinContinuations(s[k + 2..])
    decreases k
  {
    if k > 0 {
      var t := s[1..];
      AtFirstSlices(s, k);
      JoinAtFirst(t, k - 1);
      JoinCons(s);
      ConsJoined(s[0], t[..k - 1], JoinContinuations(t[k - 1 + 2..]), s[..k], JoinContinuations(s[k + 2..]));
    }
  }

  /** The slices the step of JoinAtFirst relates. */
  lemma AtFirstSlices(s: string, k: nat)
    requires 0 < k && k + 1 < |s| && s[k] == '\\' && s[k + 1] == '\n' && NoContinuation(s[..k + 1])
    ensures !(s[0] == '\\' && s[1] == '\n')
    ensures var t := s[1..]; k - 1 + 1 < |t| && t[k - 1] == '\\' && t[k - 1 + 1] == '\n'
    ensures NoContinuation(s[1..][..k - 1 + 1])
    ensures s[1..][k - 1 + 2..] == s[k + 2..]
    ensures [s[0]] + s[1..][..k - 1] == s[..k]
  {
    assert s[..k + 1][0] == s[0] && s[..k + 1][1] == s[1];
    var t := s[1..];
    assert forall i :: 0 <= i < k ==> t[..k][i] == s[..k + 1][i + 1];
  }

  /** A string not starting with a continuation keeps its first character. */
  lemma JoinCons(s: string)
    requires |s| > 0 && !(|s| >= 2 && s[0] == '\\' && s[1] == '\n')
    ensures JoinContinuations(s) == [s[0]] + JoinContinuations(s[1..])
  {
  }

  lemma ConsJoined(c: char, a: string, b: string, p: string, q: string)
    requires [c] + a == p && b == q
    ensures [c] + (a + " " + b) == p + " " + q
  {
  }

  /** quad_apply_line_continuation: the loop that copies up to each strstr
      match and writes a space in its place. */
  method ApplyLineContinuation(raw: string) returns (r: string)
    ensures r == JoinContinuations(raw)
  {
    r := "";
    var rest := raw;
    while |rest| > 0
      invariant r + JoinContinuations(rest) == JoinContinuations(raw)
      decreases |rest|
    {
      var k := FindContinuation(rest);
      if k == -1 {
        CopyRest(r, rest);
        r := r + rest;
        rest := "";
      } else {
        CopyToContinuation(r, rest, k);
        r := r + rest[..k] + " ";
        rest := rest[k + 2..];
      }
    }
  }

  /** The loop's last step: the rest has no continuation and is copied. */
  lemma CopyRest(r: string, rest: string)
    requires NoContinuation(rest)
    ensures (r + rest) + JoinContinuations("") == r + JoinContinuations(rest)
  {
    JoinPlain(rest);
    assert (r + rest) + "" == r + rest;
  }

  /** A loop step: the text up to the leftmost continuation is copied and a
      space written in its place. */
  lemma CopyToContinuation(r: string, rest: string, k: nat)
    requires k + 1 < |rest| && rest[k] == '\\' && rest[k + 1] == '\n' && NoContinuation(rest[..k + 1])
    ensures (r + rest[..k] + " ") + JoinContinuations(rest[k + 2..]) == r + JoinContinuations(rest)
  {
    JoinAtFirst(rest, k);
    var a, b := rest[..k], JoinContinuations(rest[k + 2..]);
    assert (r + a + " ") + b == r + (a + " " + b);
  }

  /** The first character of the result: a space for a leading continuation,
      otherwise the first character of the input. */
  lemma JoinFirst(s: string)
    requires |s| > 0
    ensures |JoinContinuations(s)| > 0
    ensures JoinContinuations(s)[0] == if |s| >= 2 && s[0] == '\\' && s[1] == '\n' then ' ' else s[0]
  {
  }

  /** No continuation survives: joining twice is joining once. */
  lemma {:induction false} JoinLeavesNone(s: string)
    ensures NoContinuation(JoinContinuations(s))
    decreases |s|
  {
    if |s| > 0 {
      var r := JoinContinuations(s);
      if |s| >= 2 && s[0] == '\\' && s[1] == '\n' {
        JoinLeavesNone(s[2..]);
        assert forall i :: 1 <= i < |r| ==> r[i] == JoinContinuations(s[2..])[i - 1];
      } else {
        JoinLeavesNone(s[1..]);
        var t := JoinContinuations(s[1..]);
        assert forall i :: 1 <= i < |r| ==> r[i] == t[i - 1];
        if |t| > 0 {
          JoinFirst(s[1..]);
        }
      }
    }
  }

  lemma JoinIdempotent(s: string)
    ensures JoinContinuations(JoinContinuations(s)) == JoinContinuations(s)
  {
    JoinLeavesNone(s);
    JoinPlain(JoinContinuations(s));
  }

  // ---------------------------------------------------------------------
  // canonicalize_relative_path
  // ---------------------------------------------------------------------

  /** An element that survives normalisation. */
  predicate CleanElement(e: string) {
    e != "" && e != "." && e != ".." && '/' !in e
  }

  predicate Clean(es: seq<string>) {
    forall i :: 0 <= i < |es| ==> CleanElement(es[i])
  }

  /** One element applied to those kept so far: empty and "." are ignored,
      ".." drops the last kept element if there is one. */
  function PathStep(kept: seq<string>, e: string): seq<string> {
    if e == "" || e == "." then kept
    else if e == ".." then (if |kept| > 0 then kept[..|kept| - 1] else kept)
    else kept + [e]
  }

  function PathWalk(kept: seq<string>, parts: seq<string>): seq<string>
    decreases |parts|
  {
    if |parts| == 0 then kept else PathWalk(PathStep(kept, parts[0]), parts[1..])
  }

  /** canonicalize_relative_path: the elements between slashes, normalised
      and joined with single slashes. */
  function CanonicalizeRelativePath(path: string): string {
    JoinWith(PathWalk([], SplitOn(path, '/')), '/')
  }

  /** Pieces without a slash keep only clean elements. */
  lemma {:induction false} PathWalkClean(kept: seq<string>, parts: seq<string>)
    requires Clean(kept)
    requires forall i :: 0 <= i < |parts| ==> '/' !in parts[i]
    ensures Clean(PathWalk(kept, parts))
    decreases |parts|
  {
    if |parts| > 0 {
      PathWalkClean(PathStep(kept, parts[0]), parts[1..]);
    }
  }

  /** Clean elements are all kept, in order. */
  lemma {:induction false} PathWalkKeeps(kept: seq<string>, parts: seq<string>)
    requires Clean(parts)
    ensures PathWalk(kept, parts) == kept + parts
    decreases |parts|
  {
    if |parts| > 0 {
      assert CleanElement(parts[0]);
      PathWalkKeeps(kept + [parts[0]], parts[1..]);
      assert kept + [parts[0]] + parts[1..] == kept + parts;
    }
  }

  /** ".." drops the element before it: a clean element followed by ".."
      leaves the walk as if neither were there. */
  lemma PathWalkParent(kept: seq<string>, e: string, rest: seq<string>)
    requires CleanElement(e)
    ensures PathWalk(kept, [e, ".."] + rest) == PathWalk(kept, rest)
  {
    var parts := [e, ".."] + rest;
    assert parts[0] == e && parts[1..] == [".."] + rest;
    assert PathStep(kept, e) == kept + [e];
    assert PathStep(kept + [e], "..") == kept;
    assert ([".."] + rest)[1..] == rest;
  }

  /** With nothing kept, ".." is ignored. */
  lemma PathWalkTopParent(rest: seq<string>)
    ensures PathWalk([], [".."] + rest) == PathWalk([], rest)
  {
    assert ([".."] + rest)[1..] == rest;
  }

  /** The elements of a canonical path are clean. */
  lemma CanonicalElements(path: string)
    ensures Clean(PathWalk([], SplitOn(path, '/')))
  {
    PathWalkClean([], SplitOn(path, '/'));
  }

  /** Normalising a normalised path changes nothing. */
  lemma CanonicalizeIdempotent(path: string)
    ensures CanonicalizeRelativePath(CanonicalizeRelativePath(path)) == CanonicalizeRelativePath(path)
  {
    var es := PathWalk([], SplitOn(path, '/'));
    CanonicalElements(path);
    if |es| == 0 {
      assert SplitOn("", '/') == [""];
    } else {
      SplitJoin(es, '/');
      PathWalkKeeps([], es);
      assert [] + es == es;
    }
  }

  /** ".." never climbs above the start, and empty elements and "." vanish. */
  lemma CanonicalizeExamples()
    ensures CanonicalizeRelativePath("../a//.") == "a"
  {
    SplitExample();
    WalkExample();
    assert JoinWith(["a"], '/') == "a";
  }

  lemma SplitExample()
    ensures SplitOn("../a//.", '/') == ["..", "a", "", "."]
  {
    ExampleText();
    ExampleParts();
    SplitSlashDotExample();
    SplitOnAt("a//.", "a", '/', "/.");
    SplitOnAt("../a//.", "..", '/', "a//.");
  }

  lemma SplitSlashDotExample()
    ensures SplitOn("/.", '/') == ["", "."]
  {
    assert SplitOn(".", '/') == ["."];
    SplitOnAt("/.", "", '/', ".");
  }

  /** The example path cut at each of its first two slashes. */
  lemma ExampleText()
    ensures "../a//." == ".." + ['/'] + "a//."
    ensures "a//." == "a" + ['/'] + "/."
  {
  }

  lemma ExampleParts()
    ensures [".."] + (["a"] + ["", "."]) == ["..", "a", "", "."]
  {
  }

  /** The text up to the first separator is the first piece. */
  lemma SplitOnAt(s: string, a: string, sep: char, b: string)
    requires s == a + [sep] + b && sep !in a
    ensures SplitOn(s, sep) == [a] + SplitOn(b, sep)
  {
    SplitOnCons(a, sep, b);
  }

  lemma WalkExample()
    ensures PathWalk([], ["..", "a", "", "."]) == ["a"]
  {
    var ps := ["..", "a", "", "."];
    assert ps[1..] == ["a", "", "."] && ps[1..][1..] == ["", "."] && ps[1..][1..][1..] == ["."];
  }

  // ---------------------------------------------------------------------
  // quad_replace_extension (C) and replaceExtension (Go)
  // ---------------------------------------------------------------------

  /** quad_replace_extension: everything from the last dot is dropped, then
      prefix, base name, suffix and extension are concatenated; a NULL
      extension, prefix or suffix counts as empty. */
  function ReplaceExtensionC(name: string, extension: Option<string>, prefix: Option<string>,
                             suffix: Option<string>): string
  {
    var dot := LastIndexOf(name, '.');
    var base := if dot >= 0 then name[..dot] else name;
    prefix.GetOr("") + base + suffix.GetOr("") + extension.GetOr("")
  }

  /** replaceExtension: as above, but a dot at index 0 is kept. */
  function ReplaceExtensionGo(name: string, extension: string, prefix: string, suffix: string): string {
    var dot := LastIndexOf(name, '.');
    var base := if dot > 0 then name[..dot] else name;
    prefix + base + suffix + extension
  }

  /** A name with an extension loses exactly that extension in C. */
  lemma ReplaceExtensionCSpec(base: string, ext: string, newExt: string, prefix: string, suffix: string)
    requires '.' !in ext
    ensures ReplaceExtensionC(base + "." + ext, Some(newExt), Some(prefix), Some(suffix))
            == prefix + base + suffix + newExt
    ensures '.' !in base ==>
      ReplaceExtensionC(base, Some(newExt), Some(prefix), Some(suffix)) == prefix + base + suffix + newExt
  {
    var name := base + "." + ext;
    assert name[|base|] == '.';
    assert forall i :: |base| < i < |name| ==> name[i] == ext[i - |base| - 1];
    assert name[..|base|] == base;
  }

  /** The Go version agrees with the C version exactly when the last dot is
      not the first character. */
  lemma ReplaceExtensionAgree(name: string, extension: string, prefix: string, suffix: string)
    ensures ReplaceExtensionC(name, Some(extension), Some(prefix), Some(suffix))
              == ReplaceExtensionGo(name, extension, prefix, suffix)
            <==> LastIndexOf(name, '.') != 0
  {
    var c := ReplaceExtensionC(name, Some(extension), Some(prefix), Some(suffix));
    var g := ReplaceExtensionGo(name, extension, prefix, suffix);
    if LastIndexOf(name, '.') == 0 {
      assert |c| == |g| - |name|;
    }
  }

  /** A hidden file without a further dot: C strips it all, Go keeps it. */
  lemma ReplaceExtensionHidden()
    ensures ReplaceExtensionC(".container", Some(".service"), None, None) == ".service"
    ensures ReplaceExtensionGo(".container", ".service", "", "") == ".container.service"
  {
    assert LastIndexOf(".container", '.') == 0;
  }

  // ---------------------------------------------------------------------
  // splitPorts
  // ---------------------------------------------------------------------

  /** Past the ']' that closes a bracket opened before offset i, or the end
      of the text when none does. */
  function BracketEnd(ports: string, i: nat): (j: nat)
    requires i <= |ports|
    ensures i <= j <= |ports|
    decreases |ports| - i
  {
    if i == |ports| then i
    else if ports[i] == ']' then i + 1
    else BracketEnd(ports, i + 1)
  }

  /** The loop of splitPorts at offset end, the current part starting at start. */
  function SplitPortsFrom(ports: string, start: nat, end: nat): (parts: seq<string>)
    requires start <= end <= |ports|
    ensures |parts| > 0
    decreases |ports| - end
  {
    if end == |ports| then [ports[start..end]]
    else if ports[end] == '[' then SplitPortsFrom(ports, start, BracketEnd(ports, end + 1))
    else if ports[end] == ':' then [ports[start..end]] + SplitPortsFrom(ports, end + 1, end + 1)
    else SplitPortsFrom(ports, start, end + 1)
  }

  /** splitPorts: the parts between colons that lie outside brackets. */
  function SplitPorts(ports: string): (parts: seq<string>)
    ensures |parts| > 0
  {
    SplitPortsFrom(ports, 0, 0)
  }

  /** Joining the parts with colons gives back the text. */
  lemma {:induction false} SplitPortsFromJoin(ports: string, start: nat, end: nat)
    requires start <= end <= |ports|
    ensures JoinWith(SplitPortsFrom(ports, start, end), ':') == ports[start..]
    decreases |ports| - end
  {
    if end == |ports| {
    } else if ports[end] == '[' {
      SplitPortsFromJoin(ports, start, BracketEnd(ports, end + 1));
    } else if ports[end] == ':' {
      SplitPortsFromJoin(ports, end + 1, end + 1);
      var rest := SplitPortsFrom(ports, end + 1, end + 1);
      var parts := [ports[start..end]] + rest;
      assert parts[1..] == rest;
      assert ports[start..] == ports[start..end] + [':'] + ports[end + 1..];
    } else {
      SplitPortsFromJoin(ports, start, end + 1);
    }
  }

  lemma SplitPortsJoin(ports: string)
    ensures JoinWith(SplitPorts(ports), ':') == ports
  {
    SplitPortsFromJoin(ports, 0, 0);
  }

  /** Without brackets no part holds a colon. */
  lemma {:induction false} SplitPortsFromPlain(ports: string, start: nat, end: nat)
    requires start <= end <= |ports| && '[' !in ports
    requires ':' !in ports[start..end]
    ensures forall i :: 0 <= i < |SplitPortsFrom(ports, start, end)| ==> ':' !in SplitPortsFrom(ports, start, end)[i]
    decreases |ports| - end
  {
    if end == |ports| {
    } else if ports[end] == ':' {
      SplitPortsFromPlain(ports, end + 1, end + 1);
    } else {
      assert ports[start..end + 1] == ports[start..end] + [ports[end]];
      SplitPortsFromPlain(ports, start, end + 1);
    }
  }

  /** Without brackets splitPorts is the plain split on colons. */
  lemma SplitPortsPlain(ports: string)
    requires '[' !in ports
    ensures SplitPorts(ports) == SplitOn(ports, ':')
  {
    SplitPortsFromPlain(ports, 0, 0);
    SplitPortsJoin(ports);
    SplitJoin(SplitPorts(ports), ':');
  }

  /** Colons inside brackets do not split. */
  lemma SplitPortsBracket()
    ensures SplitPorts("[::]:80") == ["[::]", "80"]
  {
    var p := "[::]:80";
    assert BracketEnd(p, 3) == 4;
    assert BracketEnd(p, 1) == 4;
    assert p[5..7] == "80" && p[0..4] == "[::]";
    assert SplitPortsFrom(p, 5, 7) == ["80"];
    assert SplitPortsFrom(p, 5, 5) == SplitPortsFrom(p, 5, 6) == ["80"];
    assert SplitPortsFrom(p, 0, 4) == ["[::]", "80"];
  }
}
