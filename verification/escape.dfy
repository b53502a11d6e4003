/** Escaping a word list into one command line (quad_escape_words): a word
    that holds a character needing protection is written inside double
    quotes with C escapes; every other word is written as it is; words are
    joined by single spaces. */
module Escape {
  import opened Wrappers
  import opened Strings
  import opened Tokenizer

  // ---------------------------------------------------------------------
  // char_need_escape / word_need_escape
  // ---------------------------------------------------------------------

  /** ASCII controls, whitespace, both quotes, the backslash and ';'; nothing
      above U+0080 (U+0080 itself is neither a control nor a space to the
      ASCII classifiers). */
  predicate NeedsEscape(c: char) {
    c as int <= 128
    && (IsAsciiCntrl(c) || IsAsciiSpace(c) || c == '"' || c == '\'' || c == '\\' || c == ';')
  }

  /** Some character of w needs protection. */
  predicate WordNeedsEscape(w: string) {
    exists k :: 0 <= k < |w| && NeedsEscape(w[k])
  }

  /** word_need_escape: one pass over the word, stopping at the first
      character that needs protection. */
  method WordNeedEscape(w: string) returns (b: bool)
    ensures b <==> exists k :: 0 <= k < |w| && NeedsEscape(w[k])
  {
    var i := 0;
    while i < |w|
      invariant 0 <= i <= |w|
      invariant forall k :: 0 <= k < i ==> !NeedsEscape(w[k])
    {
      if NeedsEscape(w[i]) {
        return true;
      }
      i := i + 1;
    }
    return false;
  }

  // ---------------------------------------------------------------------
  // append_escape_word
  // ---------------------------------------------------------------------

  /** The text one character becomes inside the quotes. fixQuote selects how
      '"' is written: as an escaped quote (the evident intent) or, as the
      source writes it, as a bare quote, which ends the quoted text. */
  function EscapeChar(c: char, fixQuote: bool): (r: string)
    ensures 0 < |r| <= 4
    ensures !NeedsEscape(c) ==> r == [c]
    ensures r == [c] || r[0] == '\\'
  {
    if !NeedsEscape(c) then [c]
    else match c
      case '\n' => "\\n"
      case '\r' => "\\r"
      case '\t' => "\t"
      case '\U{0C}' => "\\f"
      case '\\' => "\\\\"
      case ';' => "\\;"
      case ' ' => " "
      case '"' => if fixQuote then "\\\"" else "\""
      case '\'' => "'"
      case _ => ['\\'] + HexEscape(c as int)
  }

  /** The characters of w, each escaped, in order. */
  function EscapeBody(w: string, fixQuote: bool): (r: string)
    ensures |r| >= |w|
  {
    if |w| == 0 then "" else EscapeChar(w[0], fixQuote) + EscapeBody(w[1..], fixQuote)
  }

  /** append_escape_word: the escaped characters between double quotes. */
  function QuoteWord(w: string, fixQuote: bool): (r: string)
    ensures |r| >= |w| + 2 && r[0] == '"' && r[|r| - 1] == '"'
  {
    "\"" + EscapeBody(w, fixQuote) + "\""
  }

  /** One word as it appears on the command line. */
  function EscapeWord(w: string, fixQuote: bool): string {
    if WordNeedsEscape(w) then QuoteWord(w, fixQuote) else w
  }

  /** Every word escaped. */
  function EscapeEach(ws: seq<string>, fixQuote: bool): (es: seq<string>)
    ensures |es| == |ws|
  {
    seq(|ws|, k requires 0 <= k < |ws| => EscapeWord(ws[k], fixQuote))
  }

  /** quad_escape_words as the source writes it. */
  function EscapeWordsAsWritten(ws: seq<string>): string {
    JoinWith(EscapeEach(ws, false), ' ')
  }

  /** quad_escape_words with '"' escaped inside the quotes. */
  function EscapeWords(ws: seq<string>): string {
    JoinWith(EscapeEach(ws, true), ' ')
  }

  /** quad_escape_words: the loop that writes a space before every word but
      the first and each word quoted or not as it needs, '"' bare as the
      source writes it. A list of readable words without '"' splits back
      into the same words. */
  method QuadEscapeWords(ws: seq<string>) returns (r: string)
    ensures r == JoinWith(EscapeEach(ws, false), ' ')
    ensures (forall k :: 0 <= k < |ws| ==> Readable(ws[k]) && '"' !in ws[k]) ==>
      SplitStringAppend([], r, None, GENERATOR_FLAGS) == Split(true, ws)
  {
    r := "";
    var i := 0;
    while i < |ws|
      invariant 0 <= i <= |ws|
      invariant r == JoinWith(EscapeEach(ws, false)[..i], ' ')
    {
      var es := EscapeEach(ws, false);
      JoinWithSnoc(es[..i], es[i], ' ');
      assert es[..i + 1] == es[..i] + [es[i]];
      if i != 0 {
        r := r + " ";
      }
      var need := WordNeedEscape(ws[i]);
      if need {
        r := r + QuoteWord(ws[i], false);
      } else {
        r := r + ws[i];
      }
      i := i + 1;
    }
    assert EscapeEach(ws, false)[..|ws|] == EscapeEach(ws, false);
    if forall k :: 0 <= k < |ws| ==> Readable(ws[k]) && '"' !in ws[k] {
      EscapeSplitRoundTripAsWritten(ws, GENERATOR_FLAGS);
    }
  }

  // ---------------------------------------------------------------------
  // Properties
  // ---------------------------------------------------------------------

  /** The text of a word with nothing to protect is the word itself. */
  lemma {:induction false} EscapeBodyPlain(w: string, fixQuote: bool)
    requires forall k :: 0 <= k < |w| ==> !NeedsEscape(w[k])
    ensures EscapeBody(w, fixQuote) == w
    decreases |w|
  {
    if |w| > 0 {
      EscapeBodyPlain(w[1..], fixQuote);
    }
  }

  /** A list with nothing to protect is written as the plain join. */
  lemma EscapeWordsPlain(ws: seq<string>)
    requires forall k :: 0 <= k < |ws| ==> !WordNeedsEscape(ws[k])
    ensures EscapeWords(ws) == JoinWith(ws, ' ')
    ensures EscapeWordsAsWritten(ws) == JoinWith(ws, ' ')
  {
    assert EscapeEach(ws, true) == ws;
    assert EscapeEach(ws, false) == ws;
  }

  /** The two ways of writing '"' differ only on words that hold one. */
  lemma {:induction false} EscapeBodyAgree(w: string)
    requires '"' !in w
    ensures EscapeBody(w, false) == EscapeBody(w, true)
    decreases |w|
  {
    if |w| > 0 {
      assert w[0] != '"';
      EscapeBodyAgree(w[1..]);
    }
  }

  lemma EscapeWordsAgree(ws: seq<string>)
    requires forall k :: 0 <= k < |ws| ==> '"' !in ws[k]
    ensures EscapeWordsAsWritten(ws) == EscapeWords(ws)
  {
    forall k | 0 <= k < |ws|
      ensures EscapeEach(ws, false)[k] == EscapeEach(ws, true)[k]
    {
      EscapeBodyAgree(ws[k]);
      assert QuoteWord(ws[k], false) == QuoteWord(ws[k], true);
    }
    assert EscapeEach(ws, false) == EscapeEach(ws, true);
  }

  /** A word the splitter reads back from its escaped form: non-empty (an
      empty word is written as nothing), without NUL (which ends a C string)
      and without ';' (whose escape "\;" the splitter does not know). */
  predicate Readable(w: string) {
    |w| > 0 && '\0' !in w && ';' !in w
  }

  /** Flags under which an escaped list reads back. */
  predicate ReadsEscapes(fl: Flags) {
    Terminates(fl) && fl.unquote && fl.cunescape && !fl.retainEscape
  }

  /** Inside double quotes, the escape of one character decodes to it. */
  lemma ScanEscapedChar(s: string, i: nat, c: char, fl: Flags, out: string)
    requires ReadsEscapes(fl) && c != '\0' && c != ';'
    requires i + |EscapeChar(c, true)| <= |s| && s[i..i + |EscapeChar(c, true)|] == EscapeChar(c, true)
    ensures Scan(s, i, WHITESPACE, fl, '"', false, out)
            == Scan(s, i + |EscapeChar(c, true)|, WHITESPACE, fl, '"', false, out + [c])
  {
    if EscapeChar(c, true) == [c] {
      ScanEscapedPlain(s, i, c, fl, out);
    } else {
      ScanEscapedBackslash(s, i, c, fl, out);
    }
  }

  lemma ScanEscapedPlain(s: string, i: nat, c: char, fl: Flags, out: string)
    requires c != '\0' && EscapeChar(c, true) == [c]
    requires i < |s| && s[i] == c
    ensures Scan(s, i, WHITESPACE, fl, '"', false, out) == Scan(s, i + 1, WHITESPACE, fl, '"', false, out + [c])
  {
    EscapeCharPlain(c);
    ScanQuotedChar(s, i, WHITESPACE, fl, '"', out);
  }

  lemma ScanEscapedBackslash(s: string, i: nat, c: char, fl: Flags, out: string)
    requires ReadsEscapes(fl) && c != '\0' && c != ';' && EscapeChar(c, true) != [c]
    requires i + |EscapeChar(c, true)| <= |s| && s[i..i + |EscapeChar(c, true)|] == EscapeChar(c, true)
    ensures Scan(s, i, WHITESPACE, fl, '"', false, out)
            == Scan(s, i + |EscapeChar(c, true)|, WHITESPACE, fl, '"', false, out + [c])
  {
    var e := EscapeChar(c, true);
    var p := s[i + 1..];
    assert s[i] == '\\' && p == e[1..] + s[i + |e|..] by {
      assert s[i] == s[i..i + |e|][0];
      assert s[i..] == s[i..i + |e|] + s[i + |e|..];
    }
    ScanQuotedBackslash(s, i, WHITESPACE, fl, '"', out);
    var u := EscapeDecodes(c, p, s[i + |e|..]);
    ScanDecoded(s, i + 1, WHITESPACE, fl, '"', out, u);
  }

  /** A character written as itself inside the quotes is neither the quote
      nor the backslash. */
  lemma EscapeCharPlain(c: char)
    requires EscapeChar(c, true) == [c]
    ensures c != '"' && c != '\\'
  {
  }

  /** The escape of a character that is written with a backslash decodes,
      from the character after the backslash, to that character. */
  lemma EscapeDecodes(c: char, p: string, rest: string) returns (u: Unescaped)
    requires c != '\0' && c != ';' && EscapeChar(c, true) != [c]
    requires p == EscapeChar(c, true)[1..] + rest
    ensures u.consumed == |EscapeChar(c, true)| - 1 && u.code == c as int && ValidCodePoint(u.code)
    ensures |p| > 0 && p[0] != '\0'
    ensures CUnescapeOneAsWritten(p, None, false) == Some(u)
  {
    var e := EscapeChar(c, true);
    if |e| == 2 {
      assert p[0] == e[1];
      UnescapeSimple(p, false, false);
      u := Unescaped(c as int, 1, false);
    } else {
      var v := c as int;
      assert e == ['\\'] + HexEscape(v);
      assert p == HexEscape(v) + rest;
      HexEscapeRoundTrip(v, rest, false);
      u := Unescaped(v, 3, true);
    }
  }

  /** The first character of an escaped body, and where the rest starts. */
  lemma ScanBodyStep(s: string, i: nat, w: string, fl: Flags, out: string) returns (j: nat)
    requires ReadsEscapes(fl) && |w| > 0 && '\0' !in w && ';' !in w
    requires i + |EscapeBody(w, true)| <= |s| && s[i..i + |EscapeBody(w, true)|] == EscapeBody(w, true)
    ensures j + |EscapeBody(w[1..], true)| == i + |EscapeBody(w, true)|
    ensures s[j..j + |EscapeBody(w[1..], true)|] == EscapeBody(w[1..], true)
    ensures Scan(s, i, WHITESPACE, fl, '"', false, out) == Scan(s, j, WHITESPACE, fl, '"', false, out + [w[0]])
    ensures out + [w[0]] + w[1..] == out + w
  {
    j := BodySplit(s, i, w);
    ScanEscapedChar(s, i, w[0], fl, out);
    AppendFirst(out, w);
  }

  /** An escaped body is its first character's escape followed by the rest's. */
  lemma BodySplit(s: string, i: nat, w: string) returns (j: nat)
    requires |w| > 0
    requires i + |EscapeBody(w, true)| <= |s| && s[i..i + |EscapeBody(w, true)|] == EscapeBody(w, true)
    ensures j == i + |EscapeChar(w[0], true)|
    ensures j + |EscapeBody(w[1..], true)| == i + |EscapeBody(w, true)|
    ensures s[i..j] == EscapeChar(w[0], true)
    ensures s[j..j + |EscapeBody(w[1..], true)|] == EscapeBody(w[1..], true)
  {
    var e := EscapeChar(w[0], true);
    var b := EscapeBody(w[1..], true);
    j := i + |e|;
    assert EscapeBody(w, true) == e + b;
    SliceConcat(s, i, e, b);
  }

  /** Inside double quotes, an escaped body decodes to its word. */
  lemma {:induction false} ScanEscapedBody(s: string, i: nat, w: string, fl: Flags, out: string)
    requires ReadsEscapes(fl) && '\0' !in w && ';' !in w
    requires i + |EscapeBody(w, true)| <= |s| && s[i..i + |EscapeBody(w, true)|] == EscapeBody(w, true)
    ensures Scan(s, i, WHITESPACE, fl, '"', false, out)
            == Scan(s, i + |EscapeBody(w, true)|, WHITESPACE, fl, '"', false, out + w)
    decreases |w|
  {
    if |w| == 0 {
      assert out + w == out;
    } else {
      var j := ScanBodyStep(s, i, w, fl, out);
      ScanEscapedBody(s, j, w[1..], fl, out + [w[0]]);
    }
  }

  /** A quoted word is read whole: the quotes are dropped and the body decoded. */
  lemma LeadingQuotedWord(s: string, i: nat, w: string, fl: Flags, q: string)
    requires ReadsEscapes(fl) && '\0' !in w && ';' !in w && q == QuoteWord(w, true)
    requires i + |q| <= |s| && s[i..i + |q|] == q
    ensures Leading(s, i, WHITESPACE, fl) == Scan(s, i + |q|, WHITESPACE, fl, '\0', false, w)
  {
    QuotedBodyScan(s, i, w, fl);
    LeadingQuoted(s, i, q, EscapeBody(w, true), w, WHITESPACE, fl);
  }

  /** The escaped body of a quoted word placed at offset i, read from an
      empty word just inside the opening quote, yields the word itself. */
  lemma QuotedBodyScan(s: string, i: nat, w: string, fl: Flags)
    requires ReadsEscapes(fl) && '\0' !in w && ';' !in w
    requires i + |QuoteWord(w, true)| <= |s| && s[i..i + |QuoteWord(w, true)|] == QuoteWord(w, true)
    ensures QuoteWord(w, true) == "\"" + EscapeBody(w, true) + "\""
    ensures Scan(s, i + 1, WHITESPACE, fl, '"', false, "") == Scan(s, i + 1 + |EscapeBody(w, true)|, WHITESPACE, fl, '"', false, w)
  {
    QuotedSlice(s, i, QuoteWord(w, true), EscapeBody(w, true));
    BodyScanFromEmpty(s, i + 1, w, fl);
  }

  /** The same, stated for the body alone at offset j. */
  lemma BodyScanFromEmpty(s: string, j: nat, w: string, fl: Flags)
    requires ReadsEscapes(fl) && '\0' !in w && ';' !in w
    requires j + |EscapeBody(w, true)| <= |s| && s[j..j + |EscapeBody(w, true)|] == EscapeBody(w, true)
    ensures Scan(s, j, WHITESPACE, fl, '"', false, "") == Scan(s, j + |EscapeBody(w, true)|, WHITESPACE, fl, '"', false, w)
  {
    ScanEscapedBody(s, j, w, fl, "");
    EmptyPrefix(w);
  }

  /** Either form of a readable word is read whole. */
  lemma LeadingEscapedWord(s: string, i: nat, w: string, fl: Flags)
    requires ReadsEscapes(fl) && Readable(w)
    requires i + |EscapeWord(w, true)| <= |s| && s[i..i + |EscapeWord(w, true)|] == EscapeWord(w, true)
    ensures Leading(s, i, WHITESPACE, fl)
            == Scan(s, i + |EscapeWord(w, true)|, WHITESPACE, fl, '\0', false, w)
  {
    if WordNeedsEscape(w) {
      LeadingEscapedQuoted(s, i, w, fl);
    } else {
      LeadingEscapedPlain(s, i, w, fl);
    }
  }

  lemma LeadingEscapedQuoted(s: string, i: nat, w: string, fl: Flags)
    requires ReadsEscapes(fl) && Readable(w) && WordNeedsEscape(w)
    requires i + |EscapeWord(w, true)| <= |s| && s[i..i + |EscapeWord(w, true)|] == EscapeWord(w, true)
    ensures Leading(s, i, WHITESPACE, fl)
            == Scan(s, i + |EscapeWord(w, true)|, WHITESPACE, fl, '\0', false, w)
  {
    assert EscapeWord(w, true) == QuoteWord(w, true);
    LeadingQuotedWord(s, i, w, fl, EscapeWord(w, true));
  }

  lemma LeadingEscapedPlain(s: string, i: nat, w: string, fl: Flags)
    requires ReadsEscapes(fl) && Readable(w) && !WordNeedsEscape(w)
    requires i + |EscapeWord(w, true)| <= |s| && s[i..i + |EscapeWord(w, true)|] == EscapeWord(w, true)
    ensures Leading(s, i, WHITESPACE, fl)
            == Scan(s, i + |EscapeWord(w, true)|, WHITESPACE, fl, '\0', false, w)
  {
    assert EscapeWord(w, true) == w;
    LeadingUnquotedWord(s, i, w, fl);
  }

  /** A word with nothing to protect is a plain word. */
  lemma UnquotedPlain(w: string)
    requires Readable(w) && !WordNeedsEscape(w)
    ensures PlainWord(w, WHITESPACE)
  {
    forall k | 0 <= k < |w|
      ensures PlainChar(w[k], WHITESPACE)
    {
      assert !NeedsEscape(w[k]);
    }
  }

  lemma LeadingUnquotedWord(s: string, i: nat, w: string, fl: Flags)
    requires Readable(w) && !WordNeedsEscape(w)
    requires i + |w| <= |s| && s[i..i + |w|] == w
    ensures Leading(s, i, WHITESPACE, fl) == Scan(s, i + |w|, WHITESPACE, fl, '\0', false, w)
  {
    UnquotedPlain(w);
    LeadingPlainText(s, i, w, WHITESPACE, fl);
  }

  /** The escaped list without its first word. */
  lemma EscapeEachTail(ws: seq<string>)
    requires |ws| > 0
    ensures EscapeEach(ws, true)[1..] == EscapeEach(ws[1..], true)
    ensures EscapeEach(ws, true)[0] == EscapeWord(ws[0], true)
  {
  }

  /** An escaped readable word starts with neither NUL nor whitespace. */
  lemma EscapedStart(w: string)
    requires Readable(w)
    ensures |EscapeWord(w, true)| > 0
    ensures EscapeWord(w, true)[0] != '\0' && EscapeWord(w, true)[0] !in WHITESPACE
  {
    if !WordNeedsEscape(w) {
      UnquotedPlain(w);
      assert PlainChar(w[0], WHITESPACE);
    }
  }

  /** Where the first escaped word of a list ends and the rest begins. */
  lemma HeadLayout(s: string, i: nat, ws: seq<string>) returns (n: nat)
    requires |ws| > 0 && forall k :: 0 <= k < |ws| ==> Readable(ws[k])
    requires i <= |s| && s[i..] == JoinWith(EscapeEach(ws, true), ' ')
    ensures n == |EscapeWord(ws[0], true)|
    ensures i + n <= |s| && s[i..i + n] == EscapeWord(ws[0], true)
    ensures |ws| == 1 ==> i + n == |s|
    ensures |ws| > 1 ==>
      (i + n + 1 < |s| && s[i + n] == ' ' && s[i + n + 1] != '\0' && s[i + n + 1] !in WHITESPACE
       && s[i + n + 1..] == JoinWith(EscapeEach(ws[1..], true), ' '))
  {
    var es := EscapeEach(ws, true);
    n := |es[0]|;
    EscapeEachTail(ws);
    JoinAt(s, i, es, ' ');
    if |ws| > 1 {
      EscapeEachTail(ws[1..]);
      EscapedStart(ws[1]);
      JoinAt(s, i + n + 1, es[1..], ' ');
    }
  }

  /** The first word is read from its escaped form, up to where it ends. */
  lemma ExtractEscaped(s: string, i: nat, w: string, fl: Flags, end: nat)
    requires ReadsEscapes(fl) && Readable(w)
    requires end == i + |EscapeWord(w, true)| && end <= |s| && s[i..end] == EscapeWord(w, true)
    ensures Extract(s, Some(i), WHITESPACE, fl) == Scan(s, end, WHITESPACE, fl, '\0', false, w)
  {
    LeadingEscapedWord(s, i, w, fl);
  }

  /** One step of the split of escaped words: where the rest starts, and
      that the first word followed by the rest's words is the whole split. */
  lemma SplitEscapedStep(s: string, i: nat, ws: seq<string>, fl: Flags) returns (j: nat)
    requires ReadsEscapes(fl)
    requires |ws| > 1 && forall k :: 0 <= k < |ws| ==> Readable(ws[k])
    requires i <= |s| && s[i..] == JoinWith(EscapeEach(ws, true), ' ')
    ensures j <= |s| && s[j..] == JoinWith(EscapeEach(ws[1..], true), ' ')
    ensures SplitFrom(s, Some(j), WHITESPACE, fl) == Split(true, ws[1..]) ==>
      SplitFrom(s, Some(i), WHITESPACE, fl) == Split(true, ws)
  {
    var n := HeadLayout(s, i, ws);
    ExtractEscaped(s, i, ws[0], fl, i + n);
    j := i + n + 1;
    if SplitFrom(s, Some(j), WHITESPACE, fl) == Split(true, ws[1..]) {
      SplitWordThen(s, i, i + n, WHITESPACE, fl, ws[0], ws[1..]);
      HeadTail(ws);
    }
  }

  /** Splitting escaped readable words from offset i gives back the words. */
  lemma {:induction false} SplitEscapedFrom(s: string, i: nat, ws: seq<string>, fl: Flags)
    requires ReadsEscapes(fl)
    requires |ws| > 0 && forall k :: 0 <= k < |ws| ==> Readable(ws[k])
    requires i <= |s| && s[i..] == JoinWith(EscapeEach(ws, true), ' ')
    ensures SplitFrom(s, Some(i), WHITESPACE, fl) == Split(true, ws)
    decreases |ws|
  {
    if |ws| == 1 {
      var n := HeadLayout(s, i, ws);
      ExtractEscaped(s, i, ws[0], fl, |s|);
      SplitLastWord(s, i, WHITESPACE, fl, ws[0]);
    } else {
      var j := SplitEscapedStep(s, i, ws, fl);
      assert forall k :: 0 <= k < |ws[1..]| ==> Readable(ws[1..][k]);
      SplitEscapedFrom(s, j, ws[1..], fl);
    }
  }

  /** Escaping then splitting with the default separators gives back every
      readable word list. */
  lemma EscapeSplitRoundTrip(ws: seq<string>, fl: Flags)
    requires ReadsEscapes(fl)
    requires forall k :: 0 <= k < |ws| ==> Readable(ws[k])
    ensures SplitStringAppend([], EscapeWords(ws), None, fl) == Split(true, ws)
  {
    var s := EscapeWords(ws);
    if |ws| == 0 {
      assert At(s, 0) == '\0';
    } else {
      assert s[0..] == s;
      SplitEscapedFrom(s, 0, ws, fl);
    }
  }

  /** The escaper as written reads back every readable list whose words
      hold no '"': on those it writes what the corrected one writes. */
  lemma EscapeSplitRoundTripAsWritten(ws: seq<string>, fl: Flags)
    requires ReadsEscapes(fl)
    requires forall k :: 0 <= k < |ws| ==> Readable(ws[k]) && '"' !in ws[k]
    ensures SplitStringAppend([], EscapeWordsAsWritten(ws), None, fl) == Split(true, ws)
  {
    EscapeWordsAgree(ws);
    EscapeSplitRoundTrip(ws, fl);
  }

  /** As written, a '"' inside a word closes the quotes early: a"b comes
      back as ab. */
  lemma QuoteAsWritten()
    ensures EscapeWordsAsWritten(["a\"b"]) == "\"a\"b\""
    ensures SplitStringAppend([], "\"a\"b\"", None, GENERATOR_FLAGS) == Split(true, ["ab"])
  {
    var w := "a\"b";
    assert NeedsEscape(w[1]);
    assert EscapeBody(w, false) == "a\"b" by {
      assert EscapeBody(w[2..], false) == "b";
    }
    var s := "\"a\"b\"";
    assert EscapeWord(w, false) == s;
    assert EscapeEach([w], false)[0] == s;
    assert EscapeEach([w], false) == [s];
    assert At(s, 0) == '"' && At(s, 1) == 'a' && At(s, 2) == '"' && At(s, 3) == 'b' && At(s, 4) == '"' && At(s, 5) == '\0';
    assert "" + ['a'] == "a" && "a" + ['b'] == "ab";
    assert Scan(s, 5, WHITESPACE, GENERATOR_FLAGS, '"', false, "ab") == Success(Extracted(Some("ab"), None));
    assert Scan(s, 3, WHITESPACE, GENERATOR_FLAGS, '\0', false, "a") == Success(Extracted(Some("ab"), None));
    assert Leading(s, 0, WHITESPACE, GENERATOR_FLAGS) == Success(Extracted(Some("ab"), None));
  }

  /** With the quote escaped, a"b is written with \" and comes back whole. */
  lemma QuoteEscaped()
    ensures EscapeWords(["a\"b"]) == "\"a\\\"b\""
    ensures SplitStringAppend([], EscapeWords(["a\"b"]), None, GENERATOR_FLAGS) == Split(true, ["a\"b"])
  {
    var w := "a\"b";
    assert NeedsEscape(w[1]);
    assert EscapeBody(w, true) == "a\\\"b" by {
      assert EscapeBody(w[2..], true) == "b";
    }
    assert EscapeEach([w], true)[0] == "\"a\\\"b\"";
    assert EscapeEach([w], true) == ["\"a\\\"b\""];
    EscapeSplitRoundTrip([w], GENERATOR_FLAGS);
  }

  /** ';' is escaped as "\;", which the splitter's C unescaping rejects. */
  lemma SemicolonUnreadable()
    ensures EscapeWords([";"]) == "\"\\;\""
    ensures SplitStringAppend([], "\"\\;\"", None, GENERATOR_FLAGS) == Split(false, [])
  {
    var w := ";";
    assert NeedsEscape(w[0]);
    assert EscapeBody(w, true) == "\\;";
    assert EscapeEach([w], true)[0] == "\"\\;\"";
    assert EscapeEach([w], true) == ["\"\\;\""];
    var s := "\"\\;\"";
    assert At(s, 0) == '"' && At(s, 1) == '\\' && At(s, 2) == ';';
    assert CUnescapeOneAsWritten(s[2..], None, false) == None;
    assert Scan(s, 2, WHITESPACE, GENERATOR_FLAGS, '"', true, "") == Failure(Invalid);
    assert Leading(s, 0, WHITESPACE, GENERATOR_FLAGS) == Failure(Invalid);
  }

  /** An empty word is written as nothing and so disappears. */
  lemma EmptyWordLost()
    ensures EscapeWords(["", "a"]) == " a"
    ensures SplitStringAppend([], " a", None, GENERATOR_FLAGS) == Split(true, ["a"])
  {
    assert !WordNeedsEscape("a") && !WordNeedsEscape("");
    assert EscapeEach(["", "a"], true) == ["", "a"];
    var t := " a";
    assert At(t, 0) == ' ' && At(t, 1) == 'a' && At(t, 2) == '\0';
    assert "" + ['a'] == "a";
    assert Leading(t, 1, WHITESPACE, GENERATOR_FLAGS) == Success(Extracted(Some("a"), None));
  }
}
