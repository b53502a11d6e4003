# quadlet core, modelled in Dafny

quadlet is a systemd generator. It reads `.container` and `.volume` unit
files and writes `.service` units that run podman. This project models the
parts of quadlet that do not touch the system: the utility layer, the
unit-file document and its parser and printer, the uid/gid range allocator,
and the podman command-line builders. It then proves properties about them.
It covers both the C implementation (`src/`) and the parts of the Go port
(`pkg/quadlet/`) that build command lines.

The modules follow the program's structure:

- `Wrappers` (wrappers.dfy) holds `Option` and `Result`.
- `Strings` (strings.dfy) holds the ASCII character classes and `g_strchomp`.
  It also holds `strtol` with saturation to the range of `long`, decimal
  printing, byte-wise string order (`strcmp`, Go's `sort.Strings`), and
  splitting and joining on a separator.
- `Ranges` (ranges.dfy) models `QuadRanges`: sorted, non-overlapping
  `[start, start+length)` spans of 32-bit ids, with the C arithmetic written
  out, wrap-around included.
- `IdMap` (idmap.dfy) covers two allocators. One is the Go `addIdMaps`,
  which builds the `--uidmap`/`--gidmap` triples. The other is the C
  `add_id_map`/`add_id_maps`.
- `Tokenizer` (tokenizer.dfy) models the split flags, `cunescape_one`,
  `extract_first_word` and `quad_split_string(_append)`.
- `Escape` (escape.dfy) models `char_need_escape`, `word_need_escape`,
  `append_escape_word` and `quad_escape_words`. It also holds the proof that
  escaped words split back into the same words.
- `Helpers` (helpers.dfy) models `quad_apply_line_continuation`,
  `canonicalize_relative_path` and `quad_replace_extension`, with the Go
  `replaceExtension` and `splitPorts`.
- `UnitFiles` (unitfile.dfy) models the unit-file document. A file is a
  sequence of groups. Each group has a name, the comments before its header,
  and its lines, which are comments or `key=value` entries. The module holds
  every lookup and every mutator.
- `UnitParse` (unitparse.dfy) models the line classifiers, the group-name and
  key-name checks, the parser (with its joining of continuation lines and its
  line numbering) and the printer.
- `UnitRoundTrip` (roundtrip.dfy) proves that a printed unit file parses back
  to the same document.
- `Generator` (generator.dfy) models `parse_key_val` and `parse_keys`.
- `Podman` (podman.dfy) models the C `QuadPodman` builder and the Go
  `PodmanCmdline`.

In C the unit file keeps a hash table from group name to group next to the
group array. So a group name occurs at most once. The model keeps only the
array and states that fact as `UnitFiles.Valid`. Every mutator is proved to
preserve it, and lemmas about group lookup take it as a precondition.

Two properties the program relies on do not hold for every input:

- the printer's comment (src/unitfile.c:591-593) has the parser strip the
  newline the printer writes between groups, so that printing and parsing
  again give back the same file;
- `quad_escape_words` writes the Exec line that the words are later split
  back from.

The model follows the code. It proves each property under the condition that
makes it true (`UnitRoundTrip.ParsePrint`, `Escape.EscapeSplitRoundTripAsWritten`
and, for the corrected escaper, `Escape.EscapeSplitRoundTrip`). It exhibits
inputs where each fails (`UnitRoundTrip.BlankFirstCommentLost`,
`Escape.QuoteAsWritten`, `Escape.SemicolonUnreadable`, `Escape.EmptyWordLost`).

## Model

| member | source | states |
|---|---|---|
| Strings.Chomp | src/unitfile.c:641 | the result is a prefix of the input with no trailing g_ascii_isspace character (space, tab, newline, form feed, carriage return, not the vertical tab), and everything removed is such a character |
| Strings.ScanInteger | src/unitfile.c:674 | strtol's scan: the end offset stays inside the string, nothing consumed gives 0, and a non-empty scan contains a digit |
| Strings.StrToLong | src/unitfile.c:674 | strtol returns the scanned value when it fits in a long, LONG_MAX above the range and LONG_MIN below it, and consumes exactly what the scan consumes |
| Strings.IntToStringScan | src/podman.c:40-50 | a number printed with %ld is scanned back by strtol as the same number, consuming the whole text |
| Strings.NatToStringRoundTrip | src/podman.c:40-50 | the decimal digits printed for a natural number denote that number |
| Strings.SortedElements | src/podman.c:88-89 | the keys sorted with strcmp order: each key exactly once, strictly increasing |
| Strings.LexTotal | src/podman.c:78-81 | the byte-wise order used by strcmp relates any two strings |
| Strings.LexAntisymmetric | src/podman.c:78-81 | two strings that are each at most the other are equal |
| Strings.LexTransitive | src/podman.c:78-81 | the byte-wise order is transitive |
| Strings.JoinSplit | src/utils.c:1103-1142 | a helper for the element walk and its `g_strjoinv`: splitting on a separator and joining with it gives the input back |
| Strings.SplitJoin | src/utils.c:1103-1142 | a helper for the element walk and its `g_strjoinv`: joining pieces that do not contain the separator and splitting again gives the pieces back |
| Ranges.NewEmpty | src/utils.c:845-848 | the empty set is valid and covers no id |
| Ranges.New | src/utils.c:851-857 | a new set is valid and covers exactly [start, start+length) below UINT32_MAX |
| Ranges.Copy | src/utils.c:913-920 | the copy has the same spans in the same order |
| Ranges.Add | src/utils.c:930-1029 | adding keeps the set sorted and non-overlapping; a zero length or a start at UINT32_MAX changes nothing; an id is covered afterwards iff it was covered before or lies in the added span clamped to 32 bits |
| Ranges.AddToValid | src/utils.c:946-1028 | the insertion loop keeps the spans valid and starts at the smaller of the first start and the added start |
| Ranges.AddToCovers | src/utils.c:946-1028 | after the insertion loop an id is covered iff it was before or it lies in the added span |
| Ranges.MergeChainSpec | src/utils.c:999-1017 | absorbing the overlapping spans after the current one keeps validity and covers exactly the union |
| Ranges.AddSingleCases | tests/test-utils.c:76-202 | one span added to [10,20) before, after, touching, overlapping and containing it gives the spans the upstream tests expect |
| Ranges.AddMultiCases | tests/test-utils.c:205-232 | adding between and over three spans gives the spans the upstream tests expect |
| Ranges.AddOverlapCases | tests/test-utils.c:234-262 | adding a span that overlaps a middle or last span extends that span |
| Ranges.AddKeepsTouching | src/utils.c:999-1017 | a span that only touches its neighbours is not coalesced with the one after it |
| Ranges.Remove | src/utils.c:1032-1086 | removing zero ids changes nothing |
| Ranges.RemoveSpec | src/utils.c:1032-1086 | when start+length does not wrap, removal keeps the set valid and covers exactly the ids covered before and outside the removed span |
| Ranges.RemoveWrapBreaksValid | src/utils.c:1042 | with a wrapped end, removing [5, 5+UINT32_MAX) from [0,10) yields overlapping spans; the clamped removal gives [0,5) |
| Ranges.RemoveClampedSpec | src/utils.c:1032-1086 | removal with the end clamped to UINT32_MAX keeps the set valid and covers exactly the ids covered before and outside the span, for every start and length |
| Ranges.RemoveAgreement | src/utils.c:1032-1086 | when start+length does not wrap, clamped removal and the source's removal give the same spans |
| Ranges.Merge | src/utils.c:1090-1095 | merging one set into another keeps it valid |
| Ranges.MergeSpec | src/utils.c:1090-1095 | after merging, an id is covered iff either set covered it |
| Ranges.Length | src/utils.c:904-910 | the length is the total of the span lengths, and fits between the first start and the last end |
| Ranges.Parse | src/utils.c:860-901 | parsing any text yields a valid set |
| Ranges.AddTokensSpec | src/utils.c:864-898 | after adding the parsed tokens an id is covered iff it was before or some well-formed token covers it |
| Ranges.ParseSpec | src/utils.c:860-901 | for a non-empty text an id is covered iff one of its comma-separated tokens covers it |
| Ranges.ParseEmpty | src/utils.c:862-864 | the empty text parses to the empty set |
| Ranges.ParseMissingStart | src/utils.c:870-897 | "-5" reads a missing start as 0 and covers [0,6) |
| Ranges.ParseReversed | src/utils.c:896-897 | a token whose end is before its start adds nothing |
| Ranges.ParseClosedSpan | src/utils.c:870-897 | for printed numbers N <= M below UINT32_MAX, "N-M" covers exactly the ids N through M |
| Ranges.ParseOpenSpan | src/utils.c:870-897 | for a printed number N below UINT32_MAX, "N" covers exactly the ids from N up to UINT32_MAX, excluded |
| Ranges.ParseOpenDash | src/utils.c:870-897 | "N-", with nothing after the dash, also covers exactly the ids from N up to UINT32_MAX, excluded |
| Ranges.DashToken | src/utils.c:870-897 | a token is cut at its first dash: the start is the text before it, the end the text after it, an empty end is UINT32_MAX, and an end before the start gives no span |
| IdMap.IdentityPhase | pkg/quadlet/quadlet.go:205-212 | each unmapped span becomes an identity mapping, and its ids leave both the ids still to map and the host pool |
| IdMap.IdentityCovers | pkg/quadlet/quadlet.go:205-212 | the identity mappings cover, on both sides, exactly the unmapped ids |
| IdMap.Unmapped | pkg/quadlet/quadlet.go:197-203 | the ids kept as identity are those below remapStartId other than the container id and the host id |
| IdMap.HostPool | pkg/quadlet/quadlet.go:194-202 | the host pool is the available ids minus the host id, and empty when nothing is available |
| IdMap.ToMap | pkg/quadlet/quadlet.go:197-199 | the container ids to map are all 32-bit ids except the pinned container id |
| IdMap.AfterIdentity | pkg/quadlet/quadlet.go:194-212 | the state after the identity phase is a pair of valid id sets |
| IdMap.FillRangeValid | pkg/quadlet/quadlet.go:214-231 | filling one container span from the pool leaves a valid pool and produces mappings of positive size |
| IdMap.FillRangeCounts | pkg/quadlet/quadlet.go:214-231 | a container span maps as many ids as it has or as the pool holds, whichever is fewer, and the pool shrinks by exactly that many |
| IdMap.FillRangeOrder | pkg/quadlet/quadlet.go:214-231 | the mappings for one span are contiguous in container ids from its start, ascending in host ids from the pool's first id, and end before what is left of the pool |
| IdMap.FillRangeHosts | pkg/quadlet/quadlet.go:214-231 | every host id used came from the pool and is no longer in it, and the pool only shrinks |
| IdMap.MapRemappedOrder | pkg/quadlet/quadlet.go:214-231 | the remapped triples have positive counts and ascend in both container and host ids |
| IdMap.MapRemappedCounts | pkg/quadlet/quadlet.go:214-231 | the remapped triples map as many ids as the container side needs or the pool holds, whichever is fewer |
| IdMap.MapRemappedCovers | pkg/quadlet/quadlet.go:214-231 | remapped container ids are ids that needed mapping and remapped host ids come from the pool |
| IdMap.AddIdMapsShape | pkg/quadlet/quadlet.go:179-232 | the output is the pinned triple, then the identity triples, then the remapped ones |
| IdMap.AddIdMapsIdentity | pkg/quadlet/quadlet.go:194-212 | the identity part maps each id to itself and covers exactly the ids below remapStartId other than the two pinned ids |
| IdMap.AddIdMapsRemappedOrder | pkg/quadlet/quadlet.go:214-231 | the remapped part ascends in container and host ids with positive counts |
| IdMap.AddIdMapsRemappedIds | pkg/quadlet/quadlet.go:179-232 | remapped ids avoid the pinned ids and the identity ids, host ids come from the available set, and nothing is remapped without an available set |
| IdMap.CAddIdMapSpec | src/generator.c:104-133 | the one or two triples map num ids onto [host, host+num), skipping the reserved container id and shifting the rest up by one when it falls inside |
| IdMap.CAddIdMapsSpec | src/generator.c:136-154 | root maps to root unless the user is root, the user id maps to the host id, and the extra ids fill from 1 skipping the user id |
| IdMap.CAddIdMapsDisjoint | src/generator.c:136-154 | no two triples overlap on the container side |
| IdMap.ExtraElements | src/generator.c:104-133 | the extra ids form at most two ordered triples from id 1 that never contain the user id |
| Tokenizer.FlagsOf | src/utils.c:305-495 | each of the nine split flags is set iff its bit is set in the mask |
| Tokenizer.GeneratorFlags | src/generator.c:96 | the generator's flag mask relaxes, unquotes and decodes escapes, and nothing else |
| Tokenizer.Unescape | src/utils.c:108-300 | a decoded escape consumes 1, 3, 5 or 9 characters within the given length and before any NUL; it yields NUL only when allowed; \x and octal give a byte; \u stays within 16 bits and \U gives a valid code point |
| Tokenizer.UnescapeSimple | src/utils.c:125-161 | a one-character escape is decoded iff it is one of the C escapes, and it decodes to the usual character |
| Tokenizer.HexEscapeRoundTrip | src/utils.c:163-187 | \x followed by the two hex digits of a non-zero byte decodes to that byte, consuming three characters |
| Tokenizer.OctalEscapeRoundTrip | src/utils.c:252-293 | three octal digits of a non-zero byte decode to that byte, consuming three characters |
| Tokenizer.OctalDigitAsWritten | src/utils.c:268-285 | as written, "\018" decodes to byte 8; the corrected decoder rejects it |
| Tokenizer.OctalStrict | src/utils.c:252-293 | the corrected octal decoder accepts exactly three octal digits whose value fits a byte, and yields that value |
| Tokenizer.SkipSeparators | src/utils.c:327-347 | skipping stops at a character that is neither a separator nor the end of the text |
| Tokenizer.Scan | src/utils.c:349-478 | the word loop, decoding escapes with cunescape_one as written, moves forward, stops without progress only on a separator outside quotes, and yields a non-empty word unless separators are not coalesced |
| Tokenizer.Extract | src/utils.c:305-495 | progress and non-emptiness only: when extract_first_word returns no word it sets the position to NULL (at the end of the text, or after an empty word such as `""`), each word advances the position unless separators are kept and not coalesced, and a word is non-empty when separators coalesce; what the word holds is stated by Tokenizer.SplitJoinedPlainWords and Escape.EscapeSplitRoundTrip |
| Tokenizer.SplitFrom | src/utils.c:498-520 | with coalescing separators every word collected is non-empty |
| Tokenizer.SplitStringAppend | src/utils.c:498-520 | the words found are appended after the array's existing contents, which stay as they were |
| Tokenizer.SplitOnlySeparators | src/utils.c:327-347 | a text made only of separators yields no words and no error |
| Tokenizer.SplitJoinedPlainWords | src/utils.c:432-477 | words free of quotes, backslashes and separators, joined by spaces, split back into the same words |
| Tokenizer.SplitEmptyQuotedEnds | src/utils.c:480-489 | an empty quoted word ends the split, so "\"\" foo" yields no words |
| Tokenizer.SplitNoCoalesce | src/utils.c:333-337 | without coalescing, "a,,b" split on commas keeps the empty middle word |
| Tokenizer.SplitUnterminatedQuote | src/utils.c:403-431 | an unterminated quote is an error, unless the relax flag is set, when the rest becomes the word |
| Tokenizer.SplitTrailingBackslash | src/utils.c:353-371 | a trailing backslash is dropped under relax and is an error otherwise |
| Tokenizer.SplitOctalAsWritten | src/utils.c:376-384 | the splitter decodes with cunescape_one as written, so `\018` under the generator's flags is the one-character word U+0008 |
| Escape.WordNeedEscape | src/utils.c:531-557 | a word needs quoting iff some character is an ASCII control or space, a quote, a backslash or a semicolon |
| Escape.EscapeChar | src/utils.c:569-611 | a character is copied when it needs no escape; otherwise it is written as itself (tab, space, `"` as written, `'`) or as a backslash sequence of at most four characters |
| Escape.QuoteWord | src/utils.c:560-614 | the quoted form is enclosed in double quotes and is at least two characters longer than the word |
| Escape.QuadEscapeWords | src/utils.c:617-632 | the loop writes the as-written escaping of each word, separated by single spaces, and for readable words without '"' the output splits back under the generator's flags into the same words |
| Escape.EscapeSplitRoundTripAsWritten | src/utils.c:617-632 | non-empty words without NUL, semicolon or '"', escaped as the source writes them and then split with unquoting and unescaping, come back as the same words |
| Escape.EscapeWordsPlain | src/utils.c:621-630 | words that need no quoting are joined unchanged |
| Escape.EscapeWordsAgree | src/utils.c:594-596 | for words without a double quote the source's escaping and the corrected escaping agree |
| Escape.EscapeDecodes | src/utils.c:569-611 | every backslash sequence the escaper writes decodes back to its character |
| Escape.EscapeSplitRoundTrip | src/utils.c:617-632 | with '"' escaped as `\"` (the corrected escaper), non-empty words without NUL or semicolon, escaped and then split with unquoting and unescaping, come back as the same words |
| Escape.QuoteAsWritten | src/utils.c:594-596 | as written, the word a"b is escaped as "a"b", which splits back as ab |
| Escape.QuoteEscaped | src/utils.c:594-596 | with the quote escaped, the word a"b splits back as a"b |
| Escape.SemicolonUnreadable | src/utils.c:588-590 | the escape \; written for a semicolon is rejected by the splitter, so ";" does not read back |
| Escape.EmptyWordLost | src/utils.c:626-629 | an empty word is written as nothing, so ["", "a"] reads back as ["a"] |
| Helpers.FindContinuation | src/utils.c:81-103 | finds the first backslash-newline pair, with none before it |
| Helpers.ApplyLineContinuation | src/utils.c:81-103 | every backslash-newline pair is replaced by a space and the rest is copied |
| Helpers.JoinLeavesNone | src/utils.c:81-103 | the joined value contains no backslash-newline pair |
| Helpers.JoinIdempotent | src/utils.c:81-103 | joining continuations twice is the same as joining once |
| Helpers.PathWalkClean | src/utils.c:1103-1142 | the canonical path has no empty, ".", ".." or slashed element |
| Helpers.PathWalkKeeps | src/utils.c:1103-1142 | elements that are already clean are kept in order |
| Helpers.CanonicalElements | src/utils.c:1103-1142 | a canonicalised path's elements are all clean |
| Helpers.CanonicalizeIdempotent | src/utils.c:1103-1142 | canonicalising twice is the same as canonicalising once |
| Helpers.CanonicalizeExamples | src/utils.c:1103-1142 | "../a//." becomes "a": a leading "..", empty elements and "." are dropped |
| Helpers.PathWalkParent | src/utils.c:1130-1134 | a ".." after a kept element drops that element: the walk goes on as if neither were there |
| Helpers.PathWalkTopParent | src/utils.c:1130-1134 | a ".." with nothing kept is ignored |
| Helpers.ReplaceExtensionCSpec | src/utils.c:54-78 | the last extension is replaced by the new one, with the prefix before and the suffix after the base name |
| Helpers.ReplaceExtensionAgree | pkg/quadlet/quadlet.go:74-83 | the C and Go versions agree iff the last dot of the name is not its first character |
| Helpers.ReplaceExtensionHidden | pkg/quadlet/quadlet.go:78 | for ".container" C strips the whole name while Go keeps it |
| Helpers.SplitPorts | pkg/quadlet/quadlet.go:151-177 | at least one part is always returned |
| Helpers.SplitPortsJoin | pkg/quadlet/quadlet.go:151-177 | joining the parts with colons gives the port string back |
| Helpers.SplitPortsPlain | pkg/quadlet/quadlet.go:151-177 | without brackets the ports split at every colon |
| Helpers.SplitPortsBracket | pkg/quadlet/quadlet.go:157-166 | a colon inside brackets does not split: "[::]:80" gives "[::]" and "80" |
| UnitFiles.FindGroup | src/unitfile.c:336-340 | finds the first group with the name, or reports that none has it |
| UnitFiles.FindLast | src/unitfile.c:104-120 | finds the last entry with the key, or reports that none has it |
| UnitFiles.FindGroupValid | src/unitfile.c:336-340 | in a file with unique group names, looking up a group's name finds that group |
| UnitFiles.LookupLastRawSpec | src/unitfile.c:602-618 | a raw value exists iff the group exists and has an entry for the key; it is the value of the last such entry |
| UnitFiles.LookupPlain | src/unitfile.c:621-642 | a value without continuations or trailing space is returned by lookup unchanged |
| UnitFiles.LookupBooleanSpec | src/unitfile.c:645-659 | a missing or empty value gives the default; otherwise the result is true iff the value is 1, yes, true or on, ignoring case |
| UnitFiles.EqualsIgnoreCaseLower | src/unitfile.c:654-658 | a case-insensitive comparison with a lower-case word is equality after lower-casing |
| UnitFiles.LookupIntNoDigits | src/unitfile.c:674-676 | as written a non-numeric value gives 0; the corrected lookup gives the default |
| UnitFiles.LookupInt | src/unitfile.c:662-680 | the corrected lookup gives the saturated number when strtol reads digits, and the default when the key is missing or no digits are read |
| UnitFiles.LookupIntDiffer | src/unitfile.c:669-680 | the source and the corrected lookup differ exactly on non-empty values without a number when the default is not 0 |
| UnitFiles.LookupIntSet | src/unitfile.c:662-680 | a number set as a value in the range of long is read back by both versions |
| UnitFiles.SetLookupPlain | src/unitfile.c:816-831 | a plain value that was set is what lookup returns |
| UnitFiles.LookupAllRaw | src/unitfile.c:720-750 | the values of the key in order, restarting after each empty value |
| UnitFiles.AllValuesLast | src/unitfile.c:720-750 | the last value listed is the last raw value, and a missing key or an empty last value lists nothing |
| UnitFiles.LookupAllLast | src/unitfile.c:753-767 | the last joined value listed is what lookup_last returns |
| UnitFiles.KeyValuesLast | src/unitfile.c:104-120 | some entry has the key iff a last value exists, and it is the final value in line order |
| UnitFiles.ListGroups | src/unitfile.c:780-792 | the group names in file order |
| UnitFiles.HasGroupListed | src/unitfile.c:770-792 | a group exists iff its name is listed |
| UnitFiles.ListKeysLookup | src/unitfile.c:795-813 | a key is listed iff a value can be looked up for it |
| UnitFiles.EnsureGroup | src/unitfile.c:343-356 | afterwards the group exists and the existing groups are kept in front |
| UnitFiles.EnsureGroupLookup | src/unitfile.c:343-356 | only the named group is created, and other groups are unchanged; unique names are preserved |
| UnitFiles.SetLineLast | src/unitfile.c:816-831 | after set the key's last value is the new one, and other keys are unaffected |
| UnitFiles.SetLookup | src/unitfile.c:816-831 | set makes the value the key's last value and creates the group if needed; nothing else changes; unique names are kept |
| UnitFiles.SetvLookup | src/unitfile.c:834-851 | each key takes the last value it was given in the list, and other keys keep theirs |
| UnitFiles.AddLookup | src/unitfile.c:855-864 | add makes the value the key's last value; nothing else changes; unique names are kept |
| UnitFiles.AddAll | src/unitfile.c:720-750 | after add, listing the key gives the earlier values plus the new one, or nothing when the new value is empty |
| UnitFiles.UnsetLinesSpec | src/unitfile.c:877-882 | unset removes every entry for the key and leaves other keys' values and order alone |
| UnitFiles.UnsetLookup | src/unitfile.c:867-883 | after unset the key has no value and is not listed; other keys and the set of groups are unchanged; unique names are kept |
| UnitFiles.RemoveGroupLookup | src/unitfile.c:886-896 | after removal the group is gone, the others are unchanged, and names stay unique |
| UnitFiles.RemoveGroupListed | src/unitfile.c:886-896 | the listed groups are the old ones minus the removed name |
| UnitFiles.RenameGroupLookup | src/unitfile.c:899-927 | after renaming the old name is gone; the new name holds the old group, or the existing group with the old one's comments and lines appended; other groups are unchanged |
| UnitFiles.RenameGroupLast | src/unitfile.c:899-927 | under the new name a key reads the renamed group's value when it had one, and the target's value otherwise |
| UnitFiles.MergeGroupLookup | src/unitfile.c:123-138 | merging a group appends its comments and lines to the same-named group, creating it if needed, and leaves the others alone |
| UnitFiles.MergeLookup | src/unitfile.c:193-202 | after merge each group of the source is appended to the same-named group of the target, and the other groups are unchanged |
| UnitFiles.MergeValid | src/unitfile.c:193-202 | merging keeps group names unique |
| UnitFiles.MergeLast | src/unitfile.c:193-202 | after merge a key reads the source's value when it has one, and the target's otherwise |
| UnitFiles.CopyIdentity | src/unitfile.c:205-210 | the copy of a file is the same file |
| UnitParse.ValidKeyShape | src/unitfile.c:289-331 | a valid key name is non-empty, contains no '=' and does not start with '[' |
| UnitParse.KeyStop | src/unitfile.c:300-301 | the key scan stops at the first '=', '[' or ']' |
| UnitParse.LocaleStop | src/unitfile.c:314-318 | the locale scan stops at the first character that is not alphanumeric, '-', '_', '.' or '@' |
| UnitParse.LineEnd | src/unitfile.c:512 | a line ends at the next newline or at the end of the data |
| UnitParse.ExtendLine | src/unitfile.c:529-543 | a key-value line continued by backslashes ends at a newline or at the end of the data |
| UnitParse.NextLogical | src/unitfile.c:506-543 | each logical line ends at a newline or at the end of the data |
| UnitParse.ParseLineNumber | src/unitfile.c:478-502 | handling one line does not change the line counter, and a bad line is reported with the current number and its text |
| UnitParse.ParseLinesNumbers | src/unitfile.c:504-553 | a bad line's reported number is the start number plus the lines before it, counted physically or logically |
| UnitParse.LogicalLinesAt | src/unitfile.c:504-553 | every logical line appears in the data at the start of a physical line, after as many newlines as the earlier logical lines hold |
| UnitParse.ParseErrorLine | src/unitfile.c:491-500 | the corrected parser reports a bad line with the physical line number at which its text starts |
| UnitParse.ParseAsWrittenErrorLine | src/unitfile.c:518-552 | as written, a bad line is reported with its logical line number |
| UnitParse.ParseAgreesWithAsWritten | src/unitfile.c:504-553 | both numberings accept the same files with the same result, and fail in the same way except on a line that is not a key, group or comment, where only the reported number may differ |
| UnitParse.LogicalLinesExample | src/unitfile.c:510-548 | a line ending in a backslash absorbs the next physical line |
| UnitParse.LineNumberAfterContinuation | src/unitfile.c:518-552 | after a continued entry, as written the bad line "b" is reported as line 3, while it is on line 4 |
| UnitRoundTrip.ParsePrint | src/unitfile.c:504-599 | printing a well-formed unit file and parsing the text gives the file back, with either numbering |
| UnitRoundTrip.DocParse | src/unitfile.c:388-429 | the printed logical lines of a well-formed file, read line by line, rebuild its groups, comments and entries |
| UnitRoundTrip.BlankFirstCommentLost | src/unitfile.c:413-420 | "\n\n[a]\n" parses to a group with one blank comment, which prints as "\n[a]\n", which parses to a group without comments, which prints as "[a]\n": the parser drops the first blank line as a group separator, so the file with the blank comment does not read back and parse-then-print is not idempotent |
| Generator.ParseKeyVal | src/generator.c:80-88 | a word with '=' adds its key and leaves the other keys; a word without '=' changes nothing |
| Generator.ParseKeyValSpec | src/generator.c:80-88 | "key=value" binds the key, up to the first '=', to the rest |
| Generator.ParseAssignmentsLastWins | src/generator.c:91-101 | each key takes the value of its last assignment, and keys never assigned keep their earlier value |
| Generator.ParseKeysEscaped | src/generator.c:91-101 | assignments without '"' written by the escaper as the source writes it are parsed back: each key has its last assigned value and no other keys appear |
| Generator.ParseAssignmentsExample | src/generator.c:80-101 | "A=1 junk A=2=3" gives A=2=3: the later assignment wins, junk is skipped, and the value keeps its '=' |
| Podman.New | src/podman.c:10-24 | the command line starts with /usr/bin/podman, followed by the command and the subcommand when given |
| Podman.NewCmdline | pkg/quadlet/podmancmdline.go:52-60 | the command line is /usr/bin/podman followed by the arguments |
| Podman.NewAgrees | pkg/quadlet/podmancmdline.go:52-60 | the C and Go constructors build the same command line |
| Podman.Add | src/podman.c:33-38 | one argument is appended and the earlier ones are kept |
| Podman.AddV | src/podman.c:52-65 | the arguments are appended in order |
| Podman.AddArray | src/podman.c:67-74 | the array is appended in order |
| Podman.PairsSpec | pkg/quadlet/podmancmdline.go:28-30 | each item is appended after its own copy of the option |
| Podman.AddKeysSpec | src/podman.c:83-100 | each key with a value adds the option followed by its key=value, and earlier arguments are kept |
| Podman.AddKeysSorted | src/podman.c:88-89 | the assignments appear in strictly increasing strcmp order of their keys |
| Podman.AddKeysReadBack | src/podman.c:90-99 | parsing the assignments back gives exactly the keys that have values, with those values |
| Podman.GoAddKeysAgrees | pkg/quadlet/podmancmdline.go:21-31 | the Go addKeys is the C add_keys on a table where every key has a value |
| Podman.TripleReadBack | pkg/quadlet/podmancmdline.go:45-50 | the container:host:count text splits into three numbers that read back as the triple |
| Podman.AddIdMap | pkg/quadlet/podmancmdline.go:45-50 | a triple with zero ids adds nothing; otherwise it adds the prefix and container:host:count |
| Podman.AddIdMapListSpec | pkg/quadlet/quadlet.go:179-232 | the id maps add the prefix and triple of every mapping with a non-zero count, in order |
| Podman.CIdMapArgs | src/generator.c:136-154 | the C id maps add a prefix and a triple for every triple add_id_maps produces |
| Podman.ToExecReadBack | src/podman.c:123-127 | the Exec line that quad_podman_to_exec writes for readable arguments without '"' splits back into the same arguments |
| Podman.ToExecBinaryFirst | src/podman.c:10-24 | for such arguments the Exec line of a new command line splits back with /usr/bin/podman first, followed by the arguments |
| Podman.ToExecQuoteLost | src/podman.c:123-127 | an argument `a"b` comes back from the Exec line as `ab` |

## Left out

- Logging (`quad_log`, `quad_debug`, `log_to_kmsg`) and `quad_fail`: they only report. The model drops the log call in `parse_key_val`.
- `quad_get_unit_dirs`: it reads the environment and the file system.
- Looking up users and groups (`quad_lookup_host_uid`, `quad_lookup_host_gid`, the subuid and subgid files, `lookup_uid`, `lookup_gid`): these read system databases. The available host id set is a parameter of `IdMap.AddIdMaps`.
- `quad_unit_file_new_from_path` and the path field: file I/O. Parsing is modelled on the text.
- The conversion functions (`convert_container`, `convert_volume`, `ConvertContainer`, `ConvertVolume`), unit loading and `main`: they glue the modelled pieces to I/O.
- GObject life cycle and memory (`finalize`, the free functions, reference counting): values are immutable in the model.
- UTF-8 handling: strings are sequences of characters. `g_utf8_find_next_char` steps one character, `memmove` is a slice, and `g_utf8_make_valid` is the identity.
- A `\u` escape naming a surrogate cannot be held in a Dafny character. `Tokenizer.Unescape` reports it as an error (`Unrepresentable`) instead of producing it.
- A NUL inside parsed data: the C parser stops at it; `UnitParse.Parse` treats it as an ordinary character.
- `quad_unit_file_list_keys` returns the keys in hash-table order. `UnitFiles.ListKeys` returns them as a set.
- `quad_podman_addf` and `fmt.Sprintf` are modelled only for the formats used, `%s=%s` and `%ld:%ld:%ld`, through `Strings.IntToString`.
- The Go `Ranges` type is not part of this model. `IdMap` uses the C `QuadRanges` operations in its place. `IdMap` builds its sets with `Ranges.New` and `Ranges.NewEmpty`, which add through `Ranges.Add`, for the Go `NewRanges` and `NewRangesEmpty`, and removes ids with `Ranges.RemoveClamped` for the Go `Remove` (pkg/quadlet/quadlet.go:179-231). The Go `Copy` and `ParseRanges` that `lookupRanges` calls (pkg/quadlet/quadlet.go:123-147) correspond to `Ranges.Copy` and `Ranges.Parse`. All of these act on ids below `UINT32_MAX`. For those ids the two are assumed to behave alike.
- Tokenizer.SplitFrom: takes flags that make progress, excluding "do not coalesce" together with "retain separators". Under that pair the source does not advance past a separator and loops for ever.
- UnitFiles.RemoveGroupLookup: requires unique group names (`UnitFiles.Valid`), as do the other group-lookup lemmas. The source keeps names unique through its hash table, and every mutator is proved to preserve it.
- Ranges.RemoveSpec: stated only when `start + length` does not wrap past 32 bits. The wrapping case is a finding, below.
- Escape.EscapeSplitRoundTrip: stated for non-empty words without NUL or semicolon. The other words do not read back (`Escape.SemicolonUnreadable`, `Escape.EmptyWordLost`).
- UnitRoundTrip.ParsePrint: stated for well-formed files (`UnitRoundTrip.Printable`) only. Such a file has valid names, and comments that look like comments. Its values have no leading blank, no final backslash, and no newline except after a backslash. Its first group does not start with a blank comment, and every group but the last ends with an entry, because trailing comments move to the next group's header.
- Ranges.ParseSpec: stated for non-empty text. The empty text is `Ranges.ParseEmpty`.
- UnitParse.LocaleStop: the locale suffix of a key accepts only ASCII letters and digits besides `-`, `_`, `.` and `@`. The source tests `g_unichar_isalnum`, which also accepts non-ASCII letters and digits, so `Name[é]=x` parses in C and fails with `InvalidKeyName` in the model. The model has no Unicode character tables. The same holds for `UnitParse.IsValidKeyName`, which uses it.
- UnitParse.ParseKeyValue: a line whose text before the first `=` is all whitespace, such as ` =v`, makes the source walk `key_end` back past the start of the line and call `g_strndup` with a negative length, which is undefined behaviour. The model instead trims the key to the empty string and reports `InvalidKeyName("")`.
- Escape.EscapeSplitRoundTripAsWritten: stated for words without `"` besides the conditions of `Escape.EscapeSplitRoundTrip`. The source writes `"` bare inside the quotes, and such a word does not read back (`Escape.QuoteAsWritten`); this is a finding, below. The same condition is on `Escape.QuadEscapeWords`, `Podman.ToExecReadBack`, `Podman.ToExecBinaryFirst` and `Generator.ParseKeysEscaped`.

## Findings

The splitter (`Tokenizer.Scan`) and the Exec line (`Podman.ToExec`, `Escape.QuadEscapeWords`) follow the source as written: they use `Tokenizer.CUnescapeOneAsWritten` and `Escape.EscapeWordsAsWritten`. The corrected members state what the code evidently intends.

| source | as written | input that shows it | evidently intended | confidence | as-written member | corrected member |
|---|---|---|---|---|---|---|
| src/utils.c:268-285 | the second and third octal digits are read with `g_ascii_digit_value`, which accepts 8 and 9, and the digits are combined with bitwise OR | `\018` decodes to byte 8 | accept only the octal digits 0-7 | not executed | Tokenizer.CUnescapeOneAsWritten; Tokenizer.OctalDigitAsWritten; Tokenizer.SplitOctalAsWritten | Tokenizer.CUnescapeOne; Tokenizer.OctalStrict |
| src/unitfile.c:674-676 | after `strtol`, `endp` is compared with `key` instead of the value, so the comparison always succeeds | value `abc` with default 7 gives 0 | return the default when no digits are read | not executed | UnitFiles.LookupIntAsWritten; UnitFiles.LookupIntNoDigits | UnitFiles.LookupInt; UnitFiles.LookupIntDiffer |
| src/utils.c:1042 | `guint32 end = start + length` wraps around 32 bits | removing start 5, length UINT32_MAX from [0,10) leaves the overlapping spans [0,5) and [4,10) | clamp the end to UINT32_MAX | not executed | Ranges.Remove; Ranges.RemoveWrapBreaksValid | Ranges.RemoveClamped; Ranges.RemoveClampedSpec |
| src/utils.c:594-596 | a double quote inside a quoted word is written bare | the word `a"b` is written `"a"b"`, which splits back as `ab` | write it as `\"` | not executed | Escape.EscapeWordsAsWritten; Escape.QuoteAsWritten; Podman.ToExecQuoteLost | Escape.EscapeWords; Escape.EscapeSplitRoundTrip |
| src/unitfile.c:518-552 | `n_lines` stays 1 when continuation lines are joined, so error messages count logical lines | in `[a]`, `k=\`, (blank), `b` the bad line `b` is reported as line 3 | report the physical line number | not executed | UnitParse.ParseAsWritten; UnitParse.LineNumberAfterContinuation | UnitParse.Parse; UnitParse.ParseErrorLine |
