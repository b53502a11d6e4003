/** Character classes and small string algorithms of the C library and GLib
    that the rest of the model relies on (g_ascii_isspace, strtol, strcmp, "%d"). */
module Strings {

  /** g_ascii_isspace: space, tab, newline, form feed, carriage return. GLib
      classes the vertical tab as a control character only. */
  predicate IsAsciiSpace(c: char) {
    c == ' ' || c == '\t' || c == '\n' || c == '\U{0C}' || c == '\r'
  }

  /** isspace in the C locale, which strtol skips: the GLib set and the
      vertical tab. */
  predicate IsCSpace(c: char) {
    IsAsciiSpace(c) || c == '\U{0B}'
  }

  /** g_ascii_iscntrl: the C0 control characters and DEL. */
  predicate IsAsciiCntrl(c: char) {
    c < ' ' || c == '\U{7F}'
  }

  predicate IsDigit(c: char) {
    '0' <= c <= '9'
  }

  predicate IsAsciiAlnum(c: char) {
    IsDigit(c) || 'a' <= c <= 'z' || 'A' <= c <= 'Z'
  }

  /** g_ascii_digit_value: the value of a decimal digit, -1 for anything else. */
  function DigitValue(c: char): (v: int)
    ensures IsDigit(c) ==> 0 <= v <= 9
    ensures !IsDigit(c) ==> v == -1
  {
    if IsDigit(c) then (c as int) - ('0' as int) else -1
  }

  /** g_ascii_xdigit_value: the value of a hexadecimal digit of either case, -1 otherwise. */
  function HexDigitValue(c: char): (v: int)
    ensures -1 <= v <= 15
  {
    if IsDigit(c) then (c as int) - ('0' as int)
    else if 'a' <= c <= 'f' then (c as int) - ('a' as int) + 10
    else if 'A' <= c <= 'F' then (c as int) - ('A' as int) + 10
    else -1
  }

  /** The lower-case hexadecimal digit for 0..15, as printed by "%x". */
  function HexDigit(d: nat): (c: char)
    requires d < 16
    ensures HexDigitValue(c) == d
    ensures !IsAsciiSpace(c) && c != '"' && c != '\\'
  {
    if d < 10 then ('0' as int + d) as char else ('a' as int + d - 10) as char
  }

  function ToLowerAscii(c: char): char {
    if 'A' <= c <= 'Z' then (c as int - 'A' as int + 'a' as int) as char else c
  }

  /** g_ascii_strcasecmp(a, b) == 0. */
  predicate EqualsIgnoreCase(a: string, b: string) {
    |a| == |b| && forall i :: 0 <= i < |a| ==> ToLowerAscii(a[i]) == ToLowerAscii(b[i])
  }

  /** Removes trailing g_ascii_isspace characters (g_strchomp). */
  function Chomp(s: string): (r: string)
    ensures |r| <= |s| && r == s[..|r|]
    ensures |r| > 0 ==> !IsAsciiSpace(r[|r| - 1])
    ensures forall i :: |r| <= i < |s| ==> IsAsciiSpace(s[i])
  {
    if |s| > 0 && IsAsciiSpace(s[|s| - 1]) then Chomp(s[..|s| - 1]) else s
  }

  // ---------------------------------------------------------------------
  // Decimal numbers: strtol/strtoll and "%d"
  // ---------------------------------------------------------------------

  /** Number of leading decimal digits of s. */
  function DigitRun(s: string): (n: nat)
    ensures n <= |s|
    ensures forall i :: 0 <= i < n ==> IsDigit(s[i])
    ensures n < |s| ==> !IsDigit(s[n])
  {
    if |s| > 0 && IsDigit(s[0]) then 1 + DigitRun(s[1..]) else 0
  }

  /** The value of a string of decimal digits. */
  function DigitsValue(s: string): nat
    requires forall i :: 0 <= i < |s| ==> IsDigit(s[i])
  {
    if |s| == 0 then 0 else DigitsValue(s[..|s| - 1]) * 10 + DigitValue(s[|s| - 1])
  }

  /** Number of leading g_ascii_isspace characters (g_strchug). */
  function SpaceRun(s: string): (n: nat)
    ensures n <= |s|
    ensures forall i :: 0 <= i < n ==> IsAsciiSpace(s[i])
    ensures n < |s| ==> !IsAsciiSpace(s[n])
  {
    if |s| > 0 && IsAsciiSpace(s[0]) then 1 + SpaceRun(s[1..]) else 0
  }

  /** Number of leading isspace characters, the ones strtol skips. */
  function CSpaceRun(s: string): (n: nat)
    ensures n <= |s|
    ensures forall i :: 0 <= i < n ==> IsCSpace(s[i])
    ensures n < |s| ==> !IsCSpace(s[n])
  {
    if |s| > 0 && IsCSpace(s[0]) then 1 + CSpaceRun(s[1..]) else 0
  }

  /** What strtol/strtoll read in base 10: the mathematical value of the
      longest prefix of the form [spaces][+|-]digits, and where it ends
      (0, the start of the string, when there are no digits). The caller
      applies the saturation of its integer width. */
  datatype Scanned = Scanned(value: int, end: nat)

  function ScanInteger(s: string): (r: Scanned)
    ensures r.end <= |s|
    ensures r.end == 0 ==> r.value == 0
    ensures r.end > 0 ==> exists i :: 0 <= i < r.end && IsDigit(s[i])
  {
    var sp := CSpaceRun(s);
    var rest := s[sp..];
    var neg := |rest| > 0 && rest[0] == '-';
    var signed := |rest| > 0 && (rest[0] == '-' || rest[0] == '+');
    var body := if signed then rest[1..] else rest;
    var n := DigitRun(body);
    if n == 0 then Scanned(0, 0)
    else
      var v: int := DigitsValue(body[..n]);
      var e := sp + (if signed then 1 else 0) + n;
      assert IsDigit(s[e - 1]);
      Scanned(if neg then -v else v, e)
  }

  /** Clamps v into [lo, hi]: strtol's saturation on overflow, and the clamps of the range parser. */
  function Clamp(v: int, lo: int, hi: int): (r: int)
    requires lo <= hi
    ensures lo <= r <= hi
    ensures lo <= v <= hi ==> r == v
    ensures v < lo ==> r == lo
    ensures v > hi ==> r == hi
  {
    if v < lo then lo else if v > hi then hi else v
  }

  const LONG_MIN: int := -0x8000_0000_0000_0000
  const LONG_MAX: int := 0x7FFF_FFFF_FFFF_FFFF

  /** strtol(s, &endp, 10) on a 64-bit long: the scanned value when it fits,
      LONG_MAX or LONG_MIN on overflow, and the end offset. */
  function StrToLong(s: string): (r: Scanned)
    ensures LONG_MIN <= r.value <= LONG_MAX
    ensures LONG_MIN <= ScanInteger(s).value <= LONG_MAX ==> r.value == ScanInteger(s).value
    ensures ScanInteger(s).value > LONG_MAX ==> r.value == LONG_MAX
    ensures ScanInteger(s).value < LONG_MIN ==> r.value == LONG_MIN
    ensures r.end == ScanInteger(s).end
  {
    var sc := ScanInteger(s);
    Scanned(Clamp(sc.value, LONG_MIN, LONG_MAX), sc.end)
  }

  function DigitChar(d: nat): (c: char)
    requires d < 10
    ensures IsDigit(c) && DigitValue(c) == d
  {
    ('0' as int + d) as char
  }

  /** "%u" / "%d" of a non-negative number. */
  function NatToString(n: nat): (s: string)
    ensures |s| > 0
    ensures forall i :: 0 <= i < |s| ==> IsDigit(s[i])
  {
    if n < 10 then [DigitChar(n)] else NatToString(n / 10) + [DigitChar(n % 10)]
  }

  /** "%ld" of any number. */
  function IntToString(i: int): (s: string)
    ensures |s| > 0
  {
    if i < 0 then "-" + NatToString(-i) else NatToString(i)
  }

  /** Reading back a printed number gives the number. */
  lemma {:induction false} NatToStringRoundTrip(n: nat)
    ensures DigitsValue(NatToString(n)) == n
    decreases n
  {
    if n >= 10 {
      var s := NatToString(n);
      NatToStringRoundTrip(n / 10);
      assert s[..|s| - 1] == NatToString(n / 10);
    }
  }

  /** A printed integer is a minus sign at most, then digits. */
  lemma IntToStringChars(i: int)
    ensures forall k :: 0 <= k < |IntToString(i)| ==>
      IsDigit(IntToString(i)[k]) || (k == 0 && IntToString(i)[k] == '-')
    ensures IsDigit(IntToString(i)[|IntToString(i)| - 1])
  {
    var d := NatToString(if i < 0 then -i else i);
    if i < 0 {
      assert forall k :: 1 <= k < |IntToString(i)| ==> IntToString(i)[k] == d[k - 1];
    }
  }

  /** strtol reads a printed integer back in full. */
  lemma IntToStringScan(i: int)
    ensures ScanInteger(IntToString(i)) == Scanned(i, |IntToString(i)|)
  {
    var s := IntToString(i);
    var d := NatToString(if i < 0 then -i else i);
    NatToStringRoundTrip(if i < 0 then -i else i);
    assert DigitRun(d) == |d|;
    if i < 0 {
      assert CSpaceRun(s) == 0;
      assert s[0..] == s;
      assert s[1..] == d;
      assert d[..|d|] == d;
    } else {
      assert CSpaceRun(s) == 0;
      assert s[0..] == s;
      assert d[..|d|] == d;
    }
  }

  // ---------------------------------------------------------------------
  // Byte-order comparison (strcmp on UTF-8 is code-point order)
  // ---------------------------------------------------------------------

  /** a sorts before or equal to b under strcmp / Go's string comparison. */
  predicate LexLessEq(a: string, b: string) {
    |a| == 0 || (|b| > 0 && (a[0] < b[0] || (a[0] == b[0] && LexLessEq(a[1..], b[1..]))))
  }

  lemma {:induction false} LexTotal(a: string, b: string)
    ensures LexLessEq(a, b) || LexLessEq(b, a)
  {
    if |a| > 0 && |b| > 0 && a[0] == b[0] {
      LexTotal(a[1..], b[1..]);
    }
  }

  lemma {:induction false} LexReflexive(a: string)
    ensures LexLessEq(a, a)
  {
    if |a| > 0 {
      LexReflexive(a[1..]);
    }
  }

  lemma {:induction false} LexAntisymmetric(a: string, b: string)
    requires LexLessEq(a, b) && LexLessEq(b, a)
    ensures a == b
  {
    if |a| > 0 && |b| > 0 {
      LexAntisymmetric(a[1..], b[1..]);
      assert a == [a[0]] + a[1..];
      assert b == [b[0]] + b[1..];
    }
  }

  lemma {:induction false} LexTransitive(a: string, b: string, c: string)
    requires LexLessEq(a, b) && LexLessEq(b, c)
    ensures LexLessEq(a, c)
  {
    if |a| > 0 && |b| > 0 && |c| > 0 && a[0] == b[0] && b[0] == c[0] {
      LexTransitive(a[1..], b[1..], c[1..]);
    }
  }

  predicate IsLeast(k: string, s: set<string>) {
    k in s && forall j :: j in s ==> LexLessEq(k, j)
  }

  lemma {:induction false} SetHasLeast(s: set<string>)
    requires s != {}
    ensures exists k :: IsLeast(k, s)
    decreases |s|
  {
    var x :| x in s;
    if s == {x} {
      LexReflexive(x);
      assert IsLeast(x, s);
    } else {
      SetHasLeast(s - {x});
      var k :| IsLeast(k, s - {x});
      LexTotal(k, x);
      if LexLessEq(k, x) {
        assert IsLeast(k, s);
      } else {
        forall j | j in s
          ensures LexLessEq(x, j)
        {
          if j != x {
            assert j in s - {x};
            LexTransitive(x, k, j);
          } else {
            LexReflexive(x);
          }
        }
        assert IsLeast(x, s);
      }
    }
  }

  lemma LeastUnique(s: set<string>)
    ensures forall k1, k2 :: IsLeast(k1, s) && IsLeast(k2, s) ==> k1 == k2
  {
    forall k1, k2 | IsLeast(k1, s) && IsLeast(k2, s)
      ensures k1 == k2
    {
      LexAntisymmetric(k1, k2);
    }
  }

  function Least(s: set<string>): (k: string)
    requires s != {}
    ensures IsLeast(k, s)
  {
    SetHasLeast(s);
    LeastUnique(s);
    var k :| IsLeast(k, s);
    k
  }

  predicate StrictlySorted(xs: seq<string>) {
    forall i, j :: 0 <= i < j < |xs| ==> LexLessEq(xs[i], xs[j]) && xs[i] != xs[j]
  }

  /** Putting a set's least element in front of the rest, sorted, sorts the
      whole set. */
  lemma LeastCons(s: set<string>, k: string, rest: seq<string>)
    requires IsLeast(k, s)
    requires |rest| == |s - {k}|
    requires forall x :: x in rest <==> x in s - {k}
    requires StrictlySorted(rest)
    ensures var r := [k] + rest;
      |r| == |s| && (forall x :: x in r <==> x in s) && StrictlySorted(r)
  {
    var r := [k] + rest;
    forall i, j | 0 <= i < j < |r|
      ensures LexLessEq(r[i], r[j]) && r[i] != r[j]
    {
      assert r[j] == rest[j - 1];
      if i > 0 {
        assert r[i] == rest[i - 1];
      } else {
        assert r[j] in s - {k};
      }
    }
  }

  /** The elements of a set in ascending strcmp order: what collecting a hash
      table's keys and qsort-ing them with strcmp (or sort.Strings) yields. */
  function SortedElements(s: set<string>): (r: seq<string>)
    ensures |r| == |s|
    ensures forall x :: x in r <==> x in s
    ensures StrictlySorted(r)
    decreases |s|
  {
    if s == {} then []
    else
      var k := Least(s);
      var rest := SortedElements(s - {k});
      LeastCons(s, k, rest);
      [k] + rest
  }

  // ---------------------------------------------------------------------
  // Splitting and joining on one character
  // ---------------------------------------------------------------------

  /** Index of the first occurrence of c in s, if any (strchr). */
  function IndexOf(s: string, c: char): (r: int)
    ensures -1 <= r < |s|
    ensures r >= 0 ==> s[r] == c && forall i :: 0 <= i < r ==> s[i] != c
    ensures r == -1 ==> c !in s
  {
    if |s| == 0 then -1
    else if s[0] == c then 0
    else
      var k := IndexOf(s[1..], c);
      if k == -1 then -1 else k + 1
  }

  /** Index of the last occurrence of c in s, if any (strrchr). */
  function LastIndexOf(s: string, c: char): (r: int)
    ensures -1 <= r < |s|
    ensures r >= 0 ==> s[r] == c && forall i :: r < i < |s| ==> s[i] != c
    ensures r == -1 ==> c !in s
  {
    if |s| == 0 then -1
    else if s[|s| - 1] == c then |s| - 1
    else LastIndexOf(s[..|s| - 1], c)
  }

  /** Every piece between occurrences of sep, as g_strsplit(s, sep, -1) returns
      for a non-empty s: one more piece than there are separators. */
  function SplitOn(s: string, sep: char): (parts: seq<string>)
    ensures |parts| > 0
    ensures forall i :: 0 <= i < |parts| ==> sep !in parts[i]
    decreases |s|
  {
    var k := IndexOf(s, sep);
    if k == -1 then [s] else [s[..k]] + SplitOn(s[k + 1..], sep)
  }

  function JoinWith(parts: seq<string>, sep: char): string
  {
    if |parts| == 0 then ""
    else if |parts| == 1 then parts[0]
    else parts[0] + [sep] + JoinWith(parts[1..], sep)
  }

  /** Splitting and joining back are inverse. */
  lemma {:induction false} JoinSplit(s: string, sep: char)
    ensures JoinWith(SplitOn(s, sep), sep) == s
    decreases |s|
  {
    var k := IndexOf(s, sep);
    if k != -1 {
      JoinSplit(s[k + 1..], sep);
      assert s == s[..k] + [sep] + s[k + 1..];
    }
  }

  lemma {:induction false} SplitJoin(parts: seq<string>, sep: char)
    requires |parts| > 0
    requires forall i :: 0 <= i < |parts| ==> sep !in parts[i]
    ensures SplitOn(JoinWith(parts, sep), sep) == parts
    decreases |parts|
  {
    if |parts| > 1 {
      var s := JoinWith(parts, sep);
      SplitJoin(parts[1..], sep);
      IndexOfAfterFree(parts[0], sep, JoinWith(parts[1..], sep));
      assert s[|parts[0]| + 1..] == JoinWith(parts[1..], sep);
      assert s[..|parts[0]|] == parts[0];
    } else {
      assert IndexOf(parts[0], sep) == -1;
    }
  }

  /** A first piece without the separator splits off. */
  lemma SplitOnCons(a: string, sep: char, b: string)
    requires sep !in a
    ensures SplitOn(a + [sep] + b, sep) == [a] + SplitOn(b, sep)
  {
    var s := a + [sep] + b;
    IndexOfAfterFree(a, sep, b);
    assert s[..|a|] == a && s[|a| + 1..] == b;
  }

  lemma IndexOfAfterFree(a: string, c: char, b: string)
    requires c !in a
    ensures IndexOf(a + [c] + b, c) == |a|
  {
    var s := a + [c] + b;
    assert s[|a|] == c;
    assert forall i :: 0 <= i < |a| ==> s[i] == a[i];
  }

  /** Where the first part of a join sits inside a longer string, and what
      follows it. */
  lemma JoinAt(s: string, i: nat, parts: seq<string>, sep: char)
    requires |parts| > 0 && i <= |s| && s[i..] == JoinWith(parts, sep)
    ensures i + |parts[0]| <= |s| && s[i..i + |parts[0]|] == parts[0]
    ensures |parts| == 1 ==> i + |parts[0]| == |s|
    ensures |parts| > 1 ==>
      (i + |parts[0]| < |s| && s[i + |parts[0]|] == sep
       && s[i + |parts[0]| + 1..] == JoinWith(parts[1..], sep))
  {
    var n := |parts[0]|;
    if |parts| == 1 {
      assert s[i..] == parts[0];
    } else {
      var t := JoinWith(parts[1..], sep);
      assert s[i..] == parts[0] + [sep] + t;
      assert s[i + n + 1..] == t;
    }
    assert forall k :: i <= k < i + n ==> s[k] == parts[0][k - i];
  }

  /** Appending one part to a join, as a loop that writes the separator
      before every part but the first does. */
  lemma {:induction false} JoinWithSnoc(parts: seq<string>, p: string, sep: char)
    ensures JoinWith(parts + [p], sep) == if |parts| == 0 then p else JoinWith(parts, sep) + [sep] + p
    decreases |parts|
  {
    if |parts| == 1 {
      assert parts + [p] == [parts[0], p];
      assert [parts[0], p][1..] == [p];
    } else if |parts| > 1 {
      JoinWithSnoc(parts[1..], p, sep);
      assert (parts + [p])[1..] == parts[1..] + [p];
    }
  }

  /** The two halves of a concatenation found inside a longer string. */
  lemma SliceConcat(s: string, i: nat, a: string, b: string)
    requires i + |a| + |b| <= |s| && s[i..i + |a| + |b|] == a + b
    ensures s[i..i + |a|] == a && s[i + |a|..i + |a| + |b|] == b
  {
    var t := s[i..i + |a| + |b|];
    assert s[i..i + |a|] == t[..|a|];
    assert s[i + |a|..i + |a| + |b|] == t[|a|..];
  }

  /** Moving the first character of w onto the end of out. */
  lemma AppendFirst(out: string, w: string)
    requires |w| > 0
    ensures out + [w[0]] + w[1..] == out + w
  {
    assert [w[0]] + w[1..] == w;
  }

  /** A non-empty sequence is its head followed by its tail. */
  lemma HeadTail<T>(xs: seq<T>)
    requires |xs| > 0
    ensures [xs[0]] + xs[1..] == xs
  {
  }

  /** A non-empty sequence is its front followed by its last element. */
  lemma FrontLast<T>(xs: seq<T>)
    requires |xs| > 0
    ensures xs[..|xs| - 1] + [xs[|xs| - 1]] == xs
  {
  }

  lemma EmptyPrefix(w: string)
    ensures "" + w == w
  {
  }
}
