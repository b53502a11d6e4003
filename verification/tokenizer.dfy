/** The word splitter: C-style escape decoding (cunescape_one) and the
    quote/backslash state machine that takes one word at a time off a string
    (extract_first_word), repeated by quad_split_string(_append).

    C reads a string up to its terminating NUL. The model reads a Dafny
    string through At, which yields NUL past the end, so an embedded NUL
    ends the input exactly as it would in C. */
module Tokenizer {
  import opened Wrappers
  import opened Strings

  // ---------------------------------------------------------------------
  // Flags and separators
  // ---------------------------------------------------------------------

  /** The QuadSplitFlags bits, one field each. */
  datatype Flags = Flags(
    relax: bool,              // unbalanced quotes and a trailing backslash are accepted
    cunescape: bool,          // decode known C escapes
    unescapeRelax: bool,      // keep unknown escapes and a trailing backslash verbatim
    unescapeSeparators: bool, // a backslash before a separator or a backslash yields that char
    keepQuote: bool,          // quotes protect separators and are kept
    unquote: bool,            // quotes protect separators and are removed
    dontCoalesce: bool,       // every separator ends a word
    retainEscape: bool,       // the backslash is an ordinary character
    retainSeparators: bool)   // the position is left on the separator

  const SPLIT_RELAX: nat := 1
  const SPLIT_CUNESCAPE: nat := 2
  const SPLIT_UNESCAPE_RELAX: nat := 4
  const SPLIT_UNESCAPE_SEPARATORS: nat := 8
  const SPLIT_KEEP_QUOTE: nat := 16
  const SPLIT_UNQUOTE: nat := 32
  const SPLIT_DONT_COALESCE_SEPARATORS: nat := 64
  const SPLIT_RETAIN_ESCAPE: nat := 128
  const SPLIT_RETAIN_SEPARATORS: nat := 256

  predicate HasBit(bits: nat, mask: nat)
    requires mask > 0
  {
    (bits / mask) % 2 == 1
  }

  /** The flag record for an OR of the QuadSplitFlags constants. */
  function FlagsOf(bits: nat): (fl: Flags)
    ensures fl.relax <==> HasBit(bits, SPLIT_RELAX)
    ensures fl.unquote <==> HasBit(bits, SPLIT_UNQUOTE)
    ensures fl.cunescape <==> HasBit(bits, SPLIT_CUNESCAPE)
    ensures fl.unescapeRelax <==> HasBit(bits, SPLIT_UNESCAPE_RELAX)
    ensures fl.unescapeSeparators <==> HasBit(bits, SPLIT_UNESCAPE_SEPARATORS)
    ensures fl.keepQuote <==> HasBit(bits, SPLIT_KEEP_QUOTE)
    ensures fl.dontCoalesce <==> HasBit(bits, SPLIT_DONT_COALESCE_SEPARATORS)
    ensures fl.retainEscape <==> HasBit(bits, SPLIT_RETAIN_ESCAPE)
    ensures fl.retainSeparators <==> HasBit(bits, SPLIT_RETAIN_SEPARATORS)
  {
    Flags(HasBit(bits, SPLIT_RELAX), HasBit(bits, SPLIT_CUNESCAPE), HasBit(bits, SPLIT_UNESCAPE_RELAX),
          HasBit(bits, SPLIT_UNESCAPE_SEPARATORS), HasBit(bits, SPLIT_KEEP_QUOTE), HasBit(bits, SPLIT_UNQUOTE),
          HasBit(bits, SPLIT_DONT_COALESCE_SEPARATORS), HasBit(bits, SPLIT_RETAIN_ESCAPE),
          HasBit(bits, SPLIT_RETAIN_SEPARATORS))
  }

  /** The flags the generator splits Environment= and similar values with. */
  lemma GeneratorFlags()
    ensures FlagsOf(SPLIT_RELAX + SPLIT_UNQUOTE + SPLIT_CUNESCAPE)
            == Flags(true, true, false, false, false, true, false, false, false)
    ensures FlagsOf(SPLIT_RELAX + SPLIT_UNQUOTE)
            == Flags(true, false, false, false, false, true, false, false, false)
  {
  }

  /** The default separators. */
  const WHITESPACE: string := " \t\n\r"

  /** A NULL separator argument means the default separators. */
  function Separators(seps: Option<string>): string {
    seps.GetOr(WHITESPACE)
  }

  /** The character C reads at offset i: the terminating NUL past the end. */
  function At(s: string, i: int): char {
    if 0 <= i < |s| then s[i] else '\0'
  }

  // ---------------------------------------------------------------------
  // cunescape_one
  // ---------------------------------------------------------------------

  /** A decoded escape: the code point, how many characters after the
      backslash it used, and whether it denotes a single byte. */
  datatype Unescaped = Unescaped(code: int, consumed: nat, eightBit: bool)

  /** The one-letter escapes and what they stand for. */
  function SimpleEscape(c: char): Option<char> {
    match c
    case 'a' => Some('\U{07}')
    case 'b' => Some('\U{08}')
    case 'f' => Some('\U{0C}')
    case 'n' => Some('\n')
    case 'r' => Some('\r')
    case 't' => Some('\t')
    case 'v' => Some('\U{0B}')
    case '\\' => Some('\\')
    case '"' => Some('"')
    case '\'' => Some('\'')
    case 's' => Some(' ')
    case _ => None
  }

  /** The n characters of p from offset from are all hexadecimal digits. */
  predicate HexRun(p: string, from: nat, n: nat) {
    forall k :: from <= k < from + n ==> HexDigitValue(At(p, k)) >= 0
  }

  /** The value of those n hexadecimal digits, most significant first. The
      source ORs shifted digits; the shifts never overlap, so this is the sum. */
  function HexValue(p: string, from: nat, n: nat): (v: nat)
    requires HexRun(p, from, n)
  {
    if n == 0 then 0 else HexValue(p, from, n - 1) * 16 + HexDigitValue(At(p, from + n - 1))
  }

  /** g_unichar_validate: a Unicode scalar value. */
  predicate ValidCodePoint(c: int) {
    0 <= c < 0x11_0000 && !(0xD800 <= c < 0xE000)
  }

  /** (a << 6) | (b << 3) | c, as the octal branch computes it, for a first
      digit below 8 and decimal second and third digits. Written bit field by
      bit field: an 8 or 9 as second digit sets bit 6, which a's lowest bit
      also sets, and as third digit sets bit 3, which b's lowest bit also sets. */
  function OctalCombine(a: nat, b: nat, c: nat): nat
    requires a <= 7 && b <= 9 && c <= 9
  {
    (a / 2) * 128
    + (if a % 2 == 1 || b >= 8 then 64 else 0)
    + ((b % 8) / 2) * 16
    + (if b % 2 == 1 || c >= 8 then 8 else 0)
    + c % 8
  }

  /** cunescape_one on the text p that follows a backslash. length is the
      number of characters the caller allows (None for SIZE_MAX). strictOctal
      selects whether the second and third octal digits must be octal (the
      escape's definition) or only decimal (the code as written). None is the
      negative error return. */
  function Unescape(p: string, length: Option<nat>, acceptNul: bool, strictOctal: bool): (r: Option<Unescaped>)
    ensures r.Some? ==> r.value.consumed in {1, 3, 5, 9}
    ensures r.Some? && length.Some? ==> r.value.consumed <= length.value
    ensures r.Some? ==> r.value.consumed <= |p| && '\0' !in p[..r.value.consumed]
    ensures r.Some? ==> 0 <= r.value.code && (r.value.code == 0 ==> acceptNul)
    ensures r.Some? && r.value.eightBit ==> r.value.code <= 255
    ensures r.Some? && r.value.consumed == 5 ==> r.value.code <= 0xFFFF
    ensures r.Some? && r.value.consumed == 9 ==> ValidCodePoint(r.value.code)
  {
    var c0 := At(p, 0);
    if length.Some? && length.value < 1 then None
    else if SimpleEscape(c0).Some? then
      Some(Unescaped(SimpleEscape(c0).value as int, 1, false))
    else if c0 == 'x' then
      if length.Some? && length.value < 3 then None
      else if !HexRun(p, 1, 2) then None
      else
        var v := HexValue(p, 1, 2);
        assert v <= 255 by { HexValueBound(p, 1, 2); }
        AtRun(p, 3);
        if v == 0 && !acceptNul then None else Some(Unescaped(v, 3, true))
    else if c0 == 'u' then
      if length.Some? && length.value < 5 then None
      else if !HexRun(p, 1, 4) then None
      else
        var v := HexValue(p, 1, 4);
        assert v <= 0xFFFF by { HexValueBound(p, 1, 4); }
        AtRun(p, 5);
        if v == 0 && !acceptNul then None else Some(Unescaped(v, 5, false))
    else if c0 == 'U' then
      if length.Some? && length.value < 9 then None
      else if !HexRun(p, 1, 8) then None
      else
        var v := HexValue(p, 1, 8);
        AtRun(p, 9);
        if v == 0 && !acceptNul then None
        else if !ValidCodePoint(v) then None
        else Some(Unescaped(v, 9, false))
    else if '0' <= c0 <= '7' then
      if length.Some? && length.value < 3 then None
      else
        var a := DigitValue(c0);
        var b := DigitValue(At(p, 1));
        var c := DigitValue(At(p, 2));
        if b < 0 || c < 0 then None
        else if strictOctal && (b > 7 || c > 7) then None
        else if a == 0 && b == 0 && c == 0 && !acceptNul then None
        else
          var m := OctalCombine(a, b, c);
          OctalCombineZero(a, b, c);
          AtRun(p, 3);
          if m > 255 then None else Some(Unescaped(m, 3, true))
    else None
  }

  /** cunescape_one exactly as the source writes it. */
  function CUnescapeOneAsWritten(p: string, length: Option<nat>, acceptNul: bool): Option<Unescaped> {
    Unescape(p, length, acceptNul, false)
  }

  /** cunescape_one with the octal digits checked as octal. */
  function CUnescapeOne(p: string, length: Option<nat>, acceptNul: bool): Option<Unescaped> {
    Unescape(p, length, acceptNul, true)
  }

  lemma {:induction false} HexValueBound(p: string, from: nat, n: nat)
    requires HexRun(p, from, n)
    ensures HexValue(p, from, n) < Pow16(n)
    decreases n
  {
    if n > 0 {
      HexValueBound(p, from, n - 1);
    }
  }

  function Pow16(n: nat): nat {
    if n == 0 then 1 else 16 * Pow16(n - 1)
  }

  /** Characters read before the terminator lie inside the string and are not NUL. */
  lemma AtRun(p: string, n: nat)
    ensures (forall k :: 0 <= k < n ==> At(p, k) != '\0') ==> n <= |p| && '\0' !in p[..n]
  {
    if n > |p| {
      assert At(p, |p|) == '\0';
    } else {
      assert forall k :: 0 <= k < n ==> p[..n][k] == At(p, k);
    }
  }

  lemma OctalCombineZero(a: nat, b: nat, c: nat)
    requires a <= 7 && b <= 9 && c <= 9
    ensures OctalCombine(a, b, c) == 0 <==> a == 0 && b == 0 && c == 0
  {
  }

  /** With octal digits the OR of the shifted digits is the octal value. */
  lemma OctalCombineValue(a: nat, b: nat, c: nat)
    requires a <= 7 && b <= 7 && c <= 7
    ensures OctalCombine(a, b, c) == 64 * a + 8 * b + c
  {
  }

  /** One-character escapes are exactly the letters of SimpleEscape. */
  lemma UnescapeSimple(p: string, acceptNul: bool, strictOctal: bool)
    requires |p| > 0
    ensures var r := Unescape(p, None, acceptNul, strictOctal);
      (r.Some? && r.value.consumed == 1) <==> SimpleEscape(p[0]).Some?
    ensures SimpleEscape(p[0]).Some? ==>
      Unescape(p, None, acceptNul, strictOctal) == Some(Unescaped(SimpleEscape(p[0]).value as int, 1, false))
  {
  }

  /** "\xHH": the two hexadecimal digits of a non-zero byte. */
  function HexEscape(v: nat): string
    requires v < 256
  {
    ['x', HexDigit(v / 16), HexDigit(v % 16)]
  }

  /** Decoding a "\xHH" escape gives back its byte, whatever follows. */
  lemma HexEscapeRoundTrip(v: nat, rest: string, strictOctal: bool)
    requires 0 < v < 256
    ensures Unescape(HexEscape(v) + rest, None, false, strictOctal) == Some(Unescaped(v, 3, true))
  {
    var p := HexEscape(v) + rest;
    assert At(p, 0) == 'x' && At(p, 1) == HexDigit(v / 16) && At(p, 2) == HexDigit(v % 16);
    assert HexRun(p, 1, 2);
    assert HexValue(p, 1, 1) == v / 16;
  }

  /** "\ooo": the three octal digits of a byte. */
  function OctalEscape(v: nat): string
    requires v < 256
  {
    [DigitChar(v / 64), DigitChar(v / 8 % 8), DigitChar(v % 8)]
  }

  /** Both readings decode a well-formed octal escape to its byte. */
  lemma OctalEscapeRoundTrip(v: nat, rest: string, strictOctal: bool)
    requires 0 < v < 256
    ensures Unescape(OctalEscape(v) + rest, None, false, strictOctal) == Some(Unescaped(v, 3, true))
  {
    var p := OctalEscape(v) + rest;
    assert At(p, 0) == DigitChar(v / 64) && At(p, 1) == DigitChar(v / 8 % 8) && At(p, 2) == DigitChar(v % 8);
    OctalDigits(v);
    UnescapeOctalDigits(p, v / 64, v / 8 % 8, v % 8, v, strictOctal);
  }

  /** A byte is the value of its three octal digits. */
  lemma OctalDigits(v: nat)
    requires v < 256
    ensures v / 64 <= 3 && v / 8 % 8 <= 7 && v % 8 <= 7
    ensures 64 * (v / 64) + 8 * (v / 8 % 8) + v % 8 == v
  {
  }

  /** Three octal digits whose value v is a non-zero byte decode to v. */
  lemma UnescapeOctalDigits(p: string, a: nat, b: nat, c: nat, v: nat, strictOctal: bool)
    requires a <= 7 && b <= 7 && c <= 7 && v == 64 * a + 8 * b + c && 0 < v < 256
    requires At(p, 0) == DigitChar(a) && At(p, 1) == DigitChar(b) && At(p, 2) == DigitChar(c)
    ensures Unescape(p, None, false, strictOctal) == Some(Unescaped(v, 3, true))
  {
    OctalCombineValue(a, b, c);
    assert SimpleEscape(At(p, 0)).None?;
  }

  /** The octal branch as written accepts 8 and 9 as second and third
      digits and ORs them in: "\018" decodes to U+0008 instead of failing. */
  lemma OctalDigitAsWritten()
    ensures CUnescapeOneAsWritten("018", None, false) == Some(Unescaped(8, 3, true))
    ensures CUnescapeOne("018", None, false) == None
  {
    assert At("018", 1) == '1' && At("018", 2) == '8';
    assert OctalCombine(0, 1, 8) == 8;
  }

  /** The corrected octal branch accepts exactly three octal digits and
      yields their value. */
  lemma OctalStrict(p: string)
    requires '0' <= At(p, 0) <= '7'
    ensures var r := CUnescapeOne(p, None, true);
      r.Some? <==> '0' <= At(p, 1) <= '7' && '0' <= At(p, 2) <= '7'
                   && 64 * DigitValue(At(p, 0)) + 8 * DigitValue(At(p, 1)) + DigitValue(At(p, 2)) <= 255
    ensures var r := CUnescapeOne(p, None, true);
      r.Some? ==> r.value == Unescaped(64 * DigitValue(At(p, 0)) + 8 * DigitValue(At(p, 1)) + DigitValue(At(p, 2)), 3, true)
  {
    var a := DigitValue(At(p, 0));
    var b := DigitValue(At(p, 1));
    var c := DigitValue(At(p, 2));
    if 0 <= b <= 7 && 0 <= c <= 7 {
      OctalCombineValue(a, b, c);
    }
  }

  // ---------------------------------------------------------------------
  // extract_first_word
  // ---------------------------------------------------------------------

  /** Why a split stops early: the negative return of the source, or a
      "\u" escape naming a surrogate, which a Dafny string cannot hold. */
  datatype SplitError = Invalid | Unrepresentable

  /** One call's outcome: the word (None when the source returns 0) and the
      position to continue from (None when the source sets `*p` to NULL). */
  datatype Extracted = Extracted(word: Option<string>, next: Option<nat>)

  /** The "finish" exit: an empty word is no word, and ends the input. */
  function Finish(out: string, next: Option<nat>): (e: Extracted)
    ensures e.word.Some? <==> |out| > 0
  {
    if |out| == 0 then Extracted(None, None) else Extracted(Some(out), next)
  }

  /** The first offset from i that is not a separator, or None when the
      input ends first. */
  function SkipSeparators(s: string, i: nat, seps: string): (j: Option<nat>)
    ensures j.Some? ==> i <= j.value < |s| && At(s, j.value) != '\0' && At(s, j.value) !in seps
    decreases |s| - i
  {
    if At(s, i) == '\0' then None
    else if At(s, i) in seps then SkipSeparators(s, i + 1, seps)
    else Some(i)
  }

  /** The main loop of extract_first_word, one character per step. quote is
      the open quote character or NUL, backslash whether the previous
      character was an escaping backslash, out the word so far. */
  function Scan(s: string, i: nat, seps: string, fl: Flags, quote: char, backslash: bool, out: string)
    : (r: Result<Extracted, SplitError>)
    ensures r.Success? && r.value.word.None? ==> r.value.next.None?
    ensures r.Success? && r.value.next.Some? ==> i <= r.value.next.value <= |s|
    ensures r.Success? && r.value.next.Some? && r.value.next.value == i ==>
      !backslash && quote == '\0' && At(s, i) in seps
    ensures r.Success? && r.value.word.Some? && !fl.dontCoalesce ==> |r.value.word.value| > 0
    decreases |s| - i, 1
  {
    var c := At(s, i);
    if backslash then ScanEscape(s, i, seps, fl, quote, out)
    else if quote != '\0' then
      if c == '\0' then
        if fl.relax then Success(Finish(out, None)) else Failure(Invalid)
      else if c == quote then
        Scan(s, i + 1, seps, fl, '\0', false, if fl.unquote then out else out + [c])
      else if c == '\\' && !fl.retainEscape then
        Scan(s, i + 1, seps, fl, quote, true, out)
      else
        Scan(s, i + 1, seps, fl, quote, false, out + [c])
    else
      if c == '\0' then Success(Finish(out, None))
      else if (c == '\'' || c == '"') && (fl.keepQuote || fl.unquote) then
        Scan(s, i + 1, seps, fl, c, false, if fl.unquote then out else out + [c])
      else if c == '\\' && !fl.retainEscape then
        Scan(s, i + 1, seps, fl, '\0', true, out)
      else if c in seps then
        if fl.dontCoalesce then
          Success(Extracted(Some(out), Some(if fl.retainSeparators then i else i + 1)))
        else if fl.retainSeparators then Success(Finish(out, Some(i)))
        else
          var j := SkipSeparators(s, i, seps);
          Success(Finish(out, j))
      else
        Scan(s, i + 1, seps, fl, '\0', false, out + [c])
  }

  /** The main loop on the character after an escaping backslash. */
  function ScanEscape(s: string, i: nat, seps: string, fl: Flags, quote: char, out: string)
    : (r: Result<Extracted, SplitError>)
    ensures r.Success? && r.value.word.None? ==> r.value.next.None?
    ensures r.Success? && r.value.next.Some? ==> i < r.value.next.value <= |s|
    ensures r.Success? && r.value.word.Some? && !fl.dontCoalesce ==> |r.value.word.value| > 0
    decreases |s| - i, 0
  {
    var c := At(s, i);
    if c == '\0' then
      if fl.unescapeRelax && (quote == '\0' || fl.relax) then Success(Finish(out + ['\\'], None))
      else if fl.relax then Success(Finish(out, None))
      else Failure(Invalid)
    else if fl.cunescape || fl.unescapeSeparators then
      var u := if fl.cunescape then CUnescapeOneAsWritten(s[i..], None, false) else None;
      if u.Some? then
        if !ValidCodePoint(u.value.code) then Failure(Unrepresentable)
        else Scan(s, i + u.value.consumed, seps, fl, quote, false, out + [u.value.code as char])
      else if fl.unescapeSeparators && (c in seps || c == '\\') then
        Scan(s, i + 1, seps, fl, quote, false, out + [c])
      else if fl.unescapeRelax then
        Scan(s, i + 1, seps, fl, quote, false, out + ['\\', c])
      else Failure(Invalid)
    else
      Scan(s, i + 1, seps, fl, quote, false, out + [c])
  }

  /** extract_first_word from position pos (None for a NULL pointer): skip
      leading separators, then run the main loop. */
  function Extract(s: string, pos: Option<nat>, seps: string, fl: Flags): (r: Result<Extracted, SplitError>)
    ensures r.Success? && r.value.word.None? ==> r.value.next.None?
    ensures r.Success? && r.value.next.Some? ==> r.value.next.value <= |s|
    ensures r.Success? && r.value.next.Some? ==>
      pos.Some? && (r.value.next.value > pos.value || (fl.dontCoalesce && fl.retainSeparators))
    ensures r.Success? && r.value.word.Some? && !fl.dontCoalesce ==> |r.value.word.value| > 0
  {
    if pos.None? then Success(Extracted(None, None))
    else Leading(s, pos.value, seps, fl)
  }

  /** The first loop of extract_first_word. */
  function Leading(s: string, i: nat, seps: string, fl: Flags): (r: Result<Extracted, SplitError>)
    ensures r.Success? && r.value.word.None? ==> r.value.next.None?
    ensures r.Success? && r.value.next.Some? ==> r.value.next.value <= |s|
    ensures r.Success? && r.value.next.Some? ==>
      r.value.next.value > i || (fl.dontCoalesce && fl.retainSeparators)
    ensures r.Success? && r.value.word.Some? && !fl.dontCoalesce ==> |r.value.word.value| > 0
    decreases |s| - i
  {
    var c := At(s, i);
    if c == '\0' then Success(Extracted(None, None))
    else if c in seps then
      if fl.dontCoalesce then Success(Extracted(Some(""), Some(if fl.retainSeparators then i else i + 1)))
      else Leading(s, i + 1, seps, fl)
    else Scan(s, i, seps, fl, '\0', false, "")
  }

  // ---------------------------------------------------------------------
  // quad_split_string_append / quad_split_string
  // ---------------------------------------------------------------------

  /** The words collected and whether the whole input was consumed without
      an error; on an error the words before it are kept. */
  datatype Split = Split(ok: bool, words: seq<string>)

  /** The source loops for ever when a separator is both kept and ends a
      word on its own: the position never moves. */
  predicate Terminates(fl: Flags) {
    !(fl.dontCoalesce && fl.retainSeparators)
  }

  function SplitFrom(s: string, pos: Option<nat>, seps: string, fl: Flags): (r: Split)
    requires Terminates(fl)
    requires pos.Some? ==> pos.value <= |s|
    ensures !fl.dontCoalesce ==> forall k :: 0 <= k < |r.words| ==> |r.words[k]| > 0
    decreases if pos.Some? then |s| - pos.value + 1 else 0
  {
    match Extract(s, pos, seps, fl)
    case Failure(_) => Split(false, [])
    case Success(e) =>
      if e.word.None? then Split(true, [])
      else
        var rest := SplitFrom(s, e.next, seps, fl);
        Split(rest.ok, [e.word.value] + rest.words)
  }

  /** quad_split_string_append: the words of s appended to the array. */
  function SplitStringAppend(acc: seq<string>, s: string, seps: Option<string>, fl: Flags): (r: Split)
    requires Terminates(fl)
    ensures |r.words| >= |acc| && r.words[..|acc|] == acc
  {
    var sp := SplitFrom(s, Some(0), Separators(seps), fl);
    Split(sp.ok, acc + sp.words)
  }

  /** quad_split_string: the words of s, whether or not an error stopped it. */
  function SplitString(s: string, seps: Option<string>, fl: Flags): seq<string>
    requires Terminates(fl)
  {
    SplitStringAppend([], s, seps, fl).words
  }

  // ---------------------------------------------------------------------
  // Properties of the split
  // ---------------------------------------------------------------------

  /** A character with no meaning to the splitter under any flags. */
  predicate PlainChar(c: char, seps: string) {
    c != '\0' && c !in seps && c != '\'' && c != '"' && c != '\\'
  }

  /** A non-empty word of plain characters. */
  predicate PlainWord(w: string, seps: string) {
    |w| > 0 && forall k :: 0 <= k < |w| ==> PlainChar(w[k], seps)
  }

  /** A run of plain characters is copied to the word one by one. */
  lemma {:induction false} ScanPlainRun(s: string, i: nat, n: nat, seps: string, fl: Flags, out: string)
    requires i + n <= |s|
    requires forall k :: i <= k < i + n ==> PlainChar(s[k], seps)
    ensures Scan(s, i, seps, fl, '\0', false, out) == Scan(s, i + n, seps, fl, '\0', false, out + s[i..i + n])
    decreases n
  {
    if n > 0 {
      assert At(s, i) == s[i];
      assert Scan(s, i, seps, fl, '\0', false, out) == Scan(s, i + 1, seps, fl, '\0', false, out + [s[i]]);
      ScanPlainRun(s, i + 1, n - 1, seps, fl, out + [s[i]]);
      assert out + [s[i]] + s[i + 1..i + n] == out + s[i..i + n];
    } else {
      assert out + s[i..i + n] == out;
    }
  }

  /** Leading separators up to the end are skipped and yield no word. */
  lemma {:induction false} LeadingAllSeparators(s: string, i: nat, seps: string, fl: Flags)
    requires !fl.dontCoalesce
    requires forall k :: i <= k < |s| ==> s[k] in seps
    ensures Leading(s, i, seps, fl) == Success(Extracted(None, None))
    decreases |s| - i
  {
    if i < |s| && s[i] != '\0' {
      LeadingAllSeparators(s, i + 1, seps, fl);
    }
  }

  /** An input of separators only, the empty input included, has no words
      (unless every separator ends a word). */
  lemma SplitOnlySeparators(s: string, seps: Option<string>, fl: Flags)
    requires Terminates(fl) && !fl.dontCoalesce
    requires forall k :: 0 <= k < |s| ==> s[k] in Separators(seps)
    ensures SplitStringAppend([], s, seps, fl) == Split(true, [])
  {
    LeadingAllSeparators(s, 0, Separators(seps), fl);
  }

  /** One word taken off the input, and the split continues after it. */
  lemma SplitFromStep(s: string, pos: nat, seps: string, fl: Flags, w: string, next: nat)
    requires Terminates(fl) && pos <= |s| && next <= |s|
    requires Extract(s, Some(pos), seps, fl) == Success(Extracted(Some(w), Some(next)))
    ensures SplitFrom(s, Some(pos), seps, fl)
            == Split(SplitFrom(s, Some(next), seps, fl).ok, [w] + SplitFrom(s, Some(next), seps, fl).words)
  {
  }

  // Single steps of the main loop, one branch each.

  /** Inside quotes, an ordinary character is copied. */
  lemma ScanQuotedChar(s: string, i: nat, seps: string, fl: Flags, quote: char, out: string)
    requires quote != '\0' && At(s, i) != '\0' && At(s, i) != quote && At(s, i) != '\\'
    ensures Scan(s, i, seps, fl, quote, false, out) == Scan(s, i + 1, seps, fl, quote, false, out + [At(s, i)])
  {
  }

  /** Inside quotes, a backslash starts an escape. */
  lemma ScanQuotedBackslash(s: string, i: nat, seps: string, fl: Flags, quote: char, out: string)
    requires quote != '\0' && quote != '\\' && At(s, i) == '\\' && !fl.retainEscape
    ensures Scan(s, i, seps, fl, quote, false, out) == Scan(s, i + 1, seps, fl, quote, true, out)
  {
  }

  /** After a backslash, a C escape is decoded into its character. */
  lemma ScanDecoded(s: string, i: nat, seps: string, fl: Flags, quote: char, out: string, u: Unescaped)
    requires At(s, i) != '\0' && fl.cunescape
    requires i <= |s| && CUnescapeOneAsWritten(s[i..], None, false) == Some(u) && ValidCodePoint(u.code)
    ensures Scan(s, i, seps, fl, quote, true, out) == Scan(s, i + u.consumed, seps, fl, quote, false, out + [u.code as char])
  {
  }

  /** The closing quote is dropped when unquoting. */
  lemma ScanQuoteClose(s: string, i: nat, seps: string, fl: Flags, quote: char, out: string)
    requires quote != '\0' && At(s, i) == quote && fl.unquote
    ensures Scan(s, i, seps, fl, quote, false, out) == Scan(s, i + 1, seps, fl, '\0', false, out)
  {
  }

  /** A word that starts with an opening quote starts quoted and empty. */
  lemma LeadingQuoteOpen(s: string, i: nat, seps: string, fl: Flags)
    requires At(s, i) == '"' && '"' !in seps && fl.unquote
    ensures Leading(s, i, seps, fl) == Scan(s, i + 1, seps, fl, '"', false, "")
  {
  }

  /** Text q placed at offset i that is a body b between double quotes. */
  lemma QuotedSlice(s: string, i: nat, q: string, b: string)
    requires q == "\"" + b + "\"" && i + |q| <= |s| && s[i..i + |q|] == q
    ensures |q| == |b| + 2 && i + 1 + |b| < |s|
    ensures s[i] == '"' && s[i + 1 + |b|] == '"'
    ensures s[i + 1..i + 1 + |b|] == b
  {
    assert q == "\"" + (b + "\"");
    SliceConcat(s, i, "\"", b + "\"");
    SliceConcat(s, i + 1, b, "\"");
    assert s[i] == s[i..i + 1][0] && s[i + 1 + |b|] == s[i + 1 + |b|..i + 1 + |b| + 1][0];
  }

  /** A word in double quotes whose body b decodes to w is read as w, the
      quotes dropped. */
  lemma LeadingQuoted(s: string, i: nat, q: string, b: string, w: string, seps: string, fl: Flags)
    requires q == "\"" + b + "\"" && i + |q| <= |s| && s[i..i + |q|] == q
    requires '"' !in seps && fl.unquote
    requires Scan(s, i + 1, seps, fl, '"', false, "") == Scan(s, i + 1 + |b|, seps, fl, '"', false, w)
    ensures Leading(s, i, seps, fl) == Scan(s, i + |q|, seps, fl, '\0', false, w)
    ensures s[i] == '"'
  {
    QuotedSlice(s, i, q, b);
    assert At(s, i) == '"' && At(s, i + 1 + |b|) == '"';
    LeadingQuoteOpen(s, i, seps, fl);
    ScanQuoteClose(s, i + 1 + |b|, seps, fl, '"', w);
  }

  /** A plain word at offset i is read whole; what follows decides the rest. */
  lemma LeadingPlainWord(s: string, i: nat, n: nat, seps: string, fl: Flags)
    requires 0 < n && i + n <= |s|
    requires forall k :: i <= k < i + n ==> PlainChar(s[k], seps)
    ensures Leading(s, i, seps, fl) == Scan(s, i + n, seps, fl, '\0', false, s[i..i + n])
  {
    assert At(s, i) == s[i];
    ScanPlainRun(s, i, n, seps, fl, "");
    assert "" + s[i..i + n] == s[i..i + n];
  }

  /** The characters of a plain word placed in s are plain there too. */
  lemma PlainSlice(s: string, i: nat, w: string, seps: string)
    requires PlainWord(w, seps)
    requires i + |w| <= |s| && s[i..i + |w|] == w
    ensures forall k :: i <= k < i + |w| ==> PlainChar(s[k], seps)
    ensures s[i] == w[0]
  {
    forall k | i <= k < i + |w|
      ensures PlainChar(s[k], seps)
    {
      assert s[k] == s[i..i + |w|][k - i];
    }
    assert s[i] == s[i..i + |w|][0];
  }

  /** A plain word placed at offset i is read whole. */
  lemma LeadingPlainText(s: string, i: nat, w: string, seps: string, fl: Flags)
    requires PlainWord(w, seps)
    requires i + |w| <= |s| && s[i..i + |w|] == w
    ensures Leading(s, i, seps, fl) == Scan(s, i + |w|, seps, fl, '\0', false, w)
    ensures s[i] == w[0]
  {
    PlainSlice(s, i, w, seps);
    LeadingPlainWord(s, i, |w|, seps, fl);
  }

  /** After a plain word, a single separator followed by another word leads
      the next call to that word, whatever the flags. */
  lemma SplitAfterWord(s: string, i: nat, w: string, seps: string, fl: Flags) returns (next: nat)
    requires Terminates(fl) && |w| > 0
    requires i + 1 < |s| && s[i] == ' ' && ' ' in seps && s[i + 1] != '\0' && s[i + 1] !in seps
    ensures i <= next <= i + 1
    ensures Scan(s, i, seps, fl, '\0', false, w) == Success(Extracted(Some(w), Some(next)))
    ensures SplitFrom(s, Some(next), seps, fl) == SplitFrom(s, Some(i + 1), seps, fl)
  {
    assert At(s, i) == s[i] && At(s, i + 1) == s[i + 1];
    if !fl.dontCoalesce && fl.retainSeparators {
      next := i;
      assert Leading(s, i, seps, fl) == Leading(s, i + 1, seps, fl);
    } else {
      next := i + 1;
      if !fl.dontCoalesce {
        assert SkipSeparators(s, i + 1, seps) == Some(i + 1);
      }
    }
  }

  /** A word read up to the end of the input is the last word. */
  lemma SplitLastWord(s: string, i: nat, seps: string, fl: Flags, w: string)
    requires Terminates(fl) && i <= |s| && |w| > 0
    requires Extract(s, Some(i), seps, fl) == Scan(s, |s|, seps, fl, '\0', false, w)
    ensures SplitFrom(s, Some(i), seps, fl) == Split(true, [w])
  {
    assert At(s, |s|) == '\0';
    assert Scan(s, |s|, seps, fl, '\0', false, w) == Success(Extracted(Some(w), None));
  }

  /** A word read up to a single space before another word is followed by
      what the split from that word gives. */
  lemma SplitWordThen(s: string, i: nat, m: nat, seps: string, fl: Flags, w: string, rest: seq<string>)
    requires Terminates(fl) && |w| > 0 && i <= |s|
    requires m + 1 < |s| && s[m] == ' ' && ' ' in seps && s[m + 1] != '\0' && s[m + 1] !in seps
    requires Extract(s, Some(i), seps, fl) == Scan(s, m, seps, fl, '\0', false, w)
    requires SplitFrom(s, Some(m + 1), seps, fl) == Split(true, rest)
    ensures SplitFrom(s, Some(i), seps, fl) == Split(true, [w] + rest)
  {
    var next := SplitAfterWord(s, m, w, seps, fl);
    SplitFromStep(s, i, seps, fl, w, next);
  }

  /** The shape of a space-joined list of plain words at offset i. */
  lemma JoinedHead(s: string, i: nat, ws: seq<string>, seps: string)
    requires |ws| > 0 && forall k :: 0 <= k < |ws| ==> PlainWord(ws[k], seps)
    requires i <= |s| && s[i..] == JoinWith(ws, ' ')
    ensures i + |ws[0]| <= |s| && s[i..i + |ws[0]|] == ws[0]
    ensures forall k :: i <= k < i + |ws[0]| ==> PlainChar(s[k], seps)
    ensures |ws| == 1 ==> i + |ws[0]| == |s|
    ensures |ws| > 1 ==>
      (i + |ws[0]| + 1 < |s| && s[i + |ws[0]|] == ' '
       && s[i + |ws[0]| + 1..] == JoinWith(ws[1..], ' ') && PlainChar(s[i + |ws[0]| + 1], seps))
  {
    var n := |ws[0]|;
    JoinAt(s, i, ws, ' ');
    if |ws| > 1 {
      assert PlainWord(ws[1], seps);
      JoinAt(s, i + n + 1, ws[1..], ' ');
      assert s[i + n + 1] == s[i + n + 1..i + n + 1 + |ws[1]|][0];
    }
    assert forall k :: i <= k < i + n ==> s[k] == ws[0][k - i];
  }

  /** Splitting the space-joined plain words from offset i gives back the words. */
  lemma {:induction false} SplitJoinedFrom(s: string, i: nat, ws: seq<string>, seps: string, fl: Flags)
    requires Terminates(fl) && ' ' in seps
    requires |ws| > 0 && forall k :: 0 <= k < |ws| ==> PlainWord(ws[k], seps)
    requires i <= |s| && s[i..] == JoinWith(ws, ' ')
    ensures SplitFrom(s, Some(i), seps, fl) == Split(true, ws)
    decreases |ws|
  {
    var w := ws[0];
    var n := |w|;
    JoinedHead(s, i, ws, seps);
    LeadingPlainWord(s, i, n, seps, fl);
    assert Extract(s, Some(i), seps, fl) == Scan(s, i + n, seps, fl, '\0', false, w);
    if |ws| == 1 {
      SplitLastWord(s, i, seps, fl, w);
    } else {
      var j := i + n + 1;
      SplitJoinedFrom(s, j, ws[1..], seps, fl);
      SplitWordThen(s, i, i + n, seps, fl, w, ws[1..]);
      HeadTail(ws);
    }
  }

  /** Plain words joined with single spaces split back into the same words,
      under every flag combination that terminates. */
  lemma SplitJoinedPlainWords(ws: seq<string>, seps: Option<string>, fl: Flags)
    requires Terminates(fl) && ' ' in Separators(seps)
    requires forall k :: 0 <= k < |ws| ==> PlainWord(ws[k], Separators(seps))
    ensures SplitStringAppend([], JoinWith(ws, ' '), seps, fl) == Split(true, ws)
  {
    var s := JoinWith(ws, ' ');
    if |ws| == 0 {
      assert At(s, 0) == '\0';
    } else {
      assert s[0..] == s;
      SplitJoinedFrom(s, 0, ws, Separators(seps), fl);
    }
  }

  // ---------------------------------------------------------------------
  // Edge cases of the split
  // ---------------------------------------------------------------------

  /** The flags the generator splits values with: relax, unquote, cunescape. */
  const GENERATOR_FLAGS: Flags := Flags(true, true, false, false, false, true, false, false, false)

  /** An empty quoted word is an empty word, which ends the split: the
      words after it are lost. */
  lemma SplitEmptyQuotedEnds()
    ensures SplitStringAppend([], "\"\" foo", None, GENERATOR_FLAGS) == Split(true, [])
  {
    var s := "\"\" foo";
    assert At(s, 0) == '"' && At(s, 1) == '"' && At(s, 2) == ' ' && At(s, 3) == 'f';
    assert SkipSeparators(s, 3, WHITESPACE) == Some(3);
    assert Scan(s, 2, WHITESPACE, GENERATOR_FLAGS, '\0', false, "") == Success(Extracted(None, None));
    assert Scan(s, 1, WHITESPACE, GENERATOR_FLAGS, '"', false, "") == Success(Extracted(None, None));
    assert Leading(s, 0, WHITESPACE, GENERATOR_FLAGS) == Success(Extracted(None, None));
  }

  /** Without coalescing every separator ends a word, empty words included. */
  lemma SplitNoCoalesce()
    ensures SplitStringAppend([], "a,,b", Some(","), Flags(false, false, false, false, false, false, true, false, false))
            == Split(true, ["a", "", "b"])
  {
    var s := "a,,b";
    var fl := Flags(false, false, false, false, false, false, true, false, false);
    assert At(s, 0) == 'a' && At(s, 1) == ',' && At(s, 2) == ',' && At(s, 3) == 'b' && At(s, 4) == '\0';
    assert Scan(s, 4, ",", fl, '\0', false, "b") == Success(Extracted(Some("b"), None));
    assert "" + ['b'] == "b" && "" + ['a'] == "a";
    assert Leading(s, 3, ",", fl) == Success(Extracted(Some("b"), None));
    assert SplitFrom(s, Some(3), ",", fl) == Split(true, ["b"]);
    assert SplitFrom(s, Some(2), ",", fl) == Split(true, ["", "b"]);
    assert Scan(s, 1, ",", fl, '\0', false, "a") == Success(Extracted(Some("a"), Some(2)));
    assert Leading(s, 0, ",", fl) == Success(Extracted(Some("a"), Some(2)));
  }

  /** An unterminated quote is an error that keeps the words before it;
      with relax the quoted rest is the last word. */
  lemma SplitUnterminatedQuote()
    ensures SplitStringAppend([], "a \"b", None, Flags(false, false, false, false, false, true, false, false, false))
            == Split(false, ["a"])
    ensures SplitStringAppend([], "a \"b", None, GENERATOR_FLAGS) == Split(true, ["a", "b"])
  {
    var s := "a \"b";
    var strict := Flags(false, false, false, false, false, true, false, false, false);
    assert At(s, 0) == 'a' && At(s, 1) == ' ' && At(s, 2) == '"' && At(s, 3) == 'b' && At(s, 4) == '\0';
    assert "" + ['a'] == "a" && "" + ['b'] == "b";
    assert SkipSeparators(s, 2, WHITESPACE) == Some(2);
    assert SkipSeparators(s, 1, WHITESPACE) == Some(2);
    assert Leading(s, 0, WHITESPACE, strict) == Success(Extracted(Some("a"), Some(2)));
    assert Leading(s, 0, WHITESPACE, GENERATOR_FLAGS) == Success(Extracted(Some("a"), Some(2)));
    assert Scan(s, 4, WHITESPACE, strict, '"', false, "b") == Failure(Invalid);
    assert Leading(s, 2, WHITESPACE, strict) == Failure(Invalid);
    assert Scan(s, 4, WHITESPACE, GENERATOR_FLAGS, '"', false, "b") == Success(Extracted(Some("b"), None));
    assert Leading(s, 2, WHITESPACE, GENERATOR_FLAGS) == Success(Extracted(Some("b"), None));
    assert SplitFrom(s, Some(2), WHITESPACE, GENERATOR_FLAGS) == Split(true, ["b"]);
  }

  /** A trailing backslash is dropped under relax and an error otherwise. */
  lemma SplitTrailingBackslash()
    ensures SplitStringAppend([], "a\\", None, GENERATOR_FLAGS) == Split(true, ["a"])
    ensures SplitStringAppend([], "a\\", None, Flags(false, true, false, false, false, true, false, false, false))
            == Split(false, [])
  {
    var s := "a\\";
    var strict := Flags(false, true, false, false, false, true, false, false, false);
    assert At(s, 0) == 'a' && At(s, 1) == '\\' && At(s, 2) == '\0';
    assert "" + ['a'] == "a";
    assert Scan(s, 2, WHITESPACE, GENERATOR_FLAGS, '\0', true, "a") == Success(Extracted(Some("a"), None));
    assert Leading(s, 0, WHITESPACE, GENERATOR_FLAGS) == Success(Extracted(Some("a"), None));
    assert Scan(s, 2, WHITESPACE, strict, '\0', true, "a") == Failure(Invalid);
    assert Leading(s, 0, WHITESPACE, strict) == Failure(Invalid);
  }

  /** The splitter decodes with cunescape_one as written, so "\018" under
      the generator's flags is the one-character word U+0008. */
  lemma SplitOctalAsWritten()
    ensures SplitStringAppend([], "\\018", None, GENERATOR_FLAGS) == Split(true, ["\U{08}"])
  {
    var s := "\\018";
    assert At(s, 0) == '\\' && At(s, 4) == '\0';
    assert s[1..] == "018";
    OctalDigitAsWritten();
    assert "" + ['\U{08}'] == "\U{08}";
    assert Scan(s, 4, WHITESPACE, GENERATOR_FLAGS, '\0', false, "\U{08}") == Success(Extracted(Some("\U{08}"), None));
    assert Scan(s, 1, WHITESPACE, GENERATOR_FLAGS, '\0', true, "") == Success(Extracted(Some("\U{08}"), None));
    assert Leading(s, 0, WHITESPACE, GENERATOR_FLAGS) == Success(Extracted(Some("\U{08}"), None));
  }
}
