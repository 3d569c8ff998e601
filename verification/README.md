# VM lexer model

A Dafny model of the lexer of a Hack VM translator (`src/lex.c`). The lexer
reads a text file of VM commands (`push`, `pop`, `label`, `goto`, `if-goto`,
`function`, `call`, `return` and nine arithmetic mnemonics). It cuts the
file into logical lines with `nextline` and splits each line into words at
blanks and tabs. It classifies the first word with `cmdtype`, then checks
and converts the following words according to the command's format in
`cmd_fmt`. The result is a list of typed instruction nodes. Errors on a
line are reported and raise a sticky failure flag. At the end, a raised
flag aborts the compilation.

The model is pure: the input file is a `string`, and each C routine is a
function over sequences. There is one method, `Stream.ScanStream`, which
runs the `scan_stream` loop.

- `wrappers.dfy` (`Wrappers`): `Option`.
- `chars.dfy` (`Chars`): `isspace`, the `strtok` delimiters `" \t"`, digits,
  and skipping leading whitespace.
- `tables.dfy` (`Tables`):
  - the `command`, `memory` and `arithmetic` tables and `cmd_fmt`;
  - the last-match lookup of `cmdtype`;
  - the first-match lookups (with `break`) for segments and mnemonics.
- `words.dfy` (`Tokenize`): `strtok` over one line, as a list of words.
- `numbers.dfy` (`Numbers`):
  - `strtoll` in base 10: whitespace, an optional sign and digits, saturating
    at the 64-bit bounds with the overflow flag (`ERANGE`) and the end pointer;
  - the `(int)` cast, as a 32-bit two's-complement wrap.
- `line_reader.dfy` (`LineReader`): `nextline`. A second, per-physical-line
  description of the same lines is proved equal to it.
- `scanner.dfy` (`Scanner`):
  - the body of the `scan_stream` loop for one line: the command slot, the
    slot loop, segment, number and name conversion, and the error list;
  - a per-command reference description of the lines accepted, proved
    equivalent to the scanner.
- `stream.dfy` (`Stream`): the loop of `scan_stream` over all lines, the
  sticky failure flag and the list. A reference description of the outcome
  is proved equal to it.

The code's behaviour is modelled as written where it is defined:

- `cmdtype` keeps the last matching entry.
- The segment and mnemonic lookups stop at the first match.
- An unknown command is reported and skipped without raising the failure
  flag.
- A missing word is reported once for every slot left without one.
- The push/pop range check uses the segment found in the previous slot.
- A number that overflows is still stored, saturated and then cut to
  32 bits.
- Words after the format's last slot are ignored.

The call `strtok(line, " \t")` at lex.c:138 carries the comment
`// FIXME?: null return`. That NULL cannot occur. `nextline` skips leading
whitespace and hands out only non-empty lines whose first character is not
whitespace, so `strtok` always finds a command word
(`Stream.LogicalLineHasCommand`).

The comment loop of `nextline` (lex.c:329-330) does not stop at the end
of the input. The model uses the corrected reading, where a comment also
ends at the end of the input, and models the loop as written beside it.
"## Findings" gives the details.

## Model

| member | source | states |
|---|---|---|
| Chars.SkipSpace | src/lex.c:313-316 | the result is a suffix of the input, everything dropped is `isspace` whitespace, and the result does not start with whitespace |
| Tables.FirstMatch | src/lex.c:201-209 | a lookup that stops at the first matching key: `None` exactly when no entry has the key, otherwise the value of the first entry with that key |
| Tables.LastMatch | src/lex.c:372-380 | a lookup that keeps the last match: the default when no entry has the key, otherwise the value of an entry with that key after which no entry has it |
| Tables.CmdType | src/lex.c:371-383 | `NONE` exactly when the word is not a command-table key; `ARITHMETIC` exactly for the nine arithmetic mnemonics; any other result is an entry of the table for that word |
| Tables.ArithmeticExactlyMnemonics | src/lex.c:17-38 | the command-table lookup yields `ARITHMETIC` for a word if and only if the word is a key of the arithmetic table |
| Tables.CommandTableLayout | src/lex.c:17-38 | no entry maps to `NONE`; entries 8 on map to `ARITHMETIC` and only they; their keys are, in order, the keys of the arithmetic table |
| Tables.SegmentOf | src/lex.c:200-209 | a segment is found exactly when the word is a key of the memory table, and then the pair is an entry of that table |
| Tables.OpOf | src/lex.c:164-172 | an operation is found exactly when the word is a key of the arithmetic table, and then the pair is an entry of that table |
| Tables.SegmentRoundTrip | src/lex.c:40-52 | looking up a segment's name gives the segment back, and a word that looks up to a segment is that segment's name |
| Tables.MnemonicRoundTrip | src/lex.c:54-67 | looking up an operation's mnemonic gives the operation back, and a word that looks up to an operation is its mnemonic |
| Tables.ArithmeticOpsDistinct | src/lex.c:17-67 | two arithmetic command words have operations, and they have the same operation only when they are the same word |
| Tables.Format | src/lex.c:69-83 | every format has three kind slots and at most three arguments; slot 0 has a kind only for `ARITHMETIC` (one argument, `ARG_CMD`); every slot the slot loop visits has a converting kind |
| Tokenize.Words | src/lex.c:132-138 | every word is non-empty and free of blanks and tabs; a line that starts with a non-delimiter has its leading run as its first word |
| Tokenize.WordsOfJoin | src/lex.c:183 | splitting words joined by single blanks gives the same words back |
| Tokenize.WordsOfSpread | src/lex.c:138-183 | words laid out with any runs of blanks and tabs between them, and optionally before and after them, split back into exactly those words |
| Tokenize.NoWords | src/lex.c:138 | a line has no word if and only if it consists of blanks and tabs only |
| Tokenize.WordsAfterGap | src/lex.c:138 | leading blanks and tabs do not change the words of a line |
| Numbers.StrToLL | src/lex.c:225-226 | the end pointer is within the word and stops after a digit and before a non-digit; the value is within the `long long` range; no conversion gives 0 and no overflow |
| Numbers.StrToLLOfDecimal | src/lex.c:225-229 | a decimal numeral followed by a non-digit converts to its value with the end after the digits, or saturates at `LLONG_MAX` with the overflow flag set when too large |
| Numbers.StrToLLOfNegative | src/lex.c:225-229 | `-` and a decimal numeral convert to the negated value, or saturate at `LLONG_MIN` with the overflow flag set |
| Numbers.StrToLLOfNumeral | src/lex.c:225-229 | for any whitespace, an optional `+` or `-`, a run of digits and then a non-digit or the end: the end pointer is just past the digits, the value is the signed value of the digits clamped to the `long long` range, and the overflow flag is set exactly when the clamp applies |
| Numbers.NoDigitsNoConversion | src/lex.c:226 | a word without a digit after its whitespace and sign converts nothing, so the end pointer stays at the word |
| Numbers.Narrow32 | src/lex.c:254 | the cast lands in the `int` range and differs from its input by a multiple of 2^32 |
| Numbers.NarrowFits | src/lex.c:254 | a value already in the `int` range is unchanged by the cast |
| LineReader.SkipComment | src/lex.c:324-333 | skipping a comment drops a prefix of the input and leaves exactly the input after the current physical line, also when that line ends the input |
| LineReader.ReadPhysical | src/lex.c:318-357 | the line kept is a prefix of the input with no newline and no `//`, ended by a newline, a `//` or the end; the rest is strictly shorter |
| LineReader.CommentStartIsFirst | src/lex.c:322-333 | the cut point of a line is its first `//`: no `//` starts before it, and one starts there unless it is the end of the line |
| LineReader.ReadPhysicalIsFirstLine | src/lex.c:318-357 | what is kept is the first physical line cut at its first `//`, and what is left is the input after that physical line |
| LineReader.NextLine | src/lex.c:298-368 | a line handed out is non-empty, starts with a character that is not whitespace, and has no newline and no `//`; the input left is strictly shorter |
| LineReader.Lines | src/lex.c:136 | every line of the successive `nextline` calls is such a logical line |
| LineReader.LinesAreCleanPhysicalLines | src/lex.c:298-368 | the lines handed out are exactly the physical lines with leading whitespace and comment removed that are not empty, in input order |
| LineReader.LeadingSpaceIgnored | src/lex.c:313-316 | a leading whitespace character, a newline included, changes neither the lines handed out nor the cleaned physical lines |
| LineReader.BlankInputHasNoLines | src/lex.c:359-367 | the input yields no line if and only if every physical line is blank or a comment once cleaned |
| LineReader.SkipCommentAsWritten | src/lex.c:329-330 | the comment loop as written finishes if and only if a newline follows, and then leaves what the corrected skip leaves |
| LineReader.TrailingCommentHangs | src/lex.c:324-333 | for code followed by a comment without a newline at the end of input, the loop as written never finishes, while the corrected reader hands out the code and reaches the end |
| Scanner.ArgKinds | src/lex.c:69-83 | the argument kinds of each node: an operation for arithmetic, segment then number for push/pop, a name for the jumps and labels, name then number for function/call, none for return |
| Scanner.CommandSlot | src/lex.c:161-172 | slot 0 is filled exactly for an `ARG_CMD` slot whose word is a mnemonic, and then holds that mnemonic's operation |
| Scanner.ScanSegment | src/lex.c:200-222 | the slot is written exactly when the word names a segment, with that segment; the word is error-free exactly when it names a segment and the line is not `pop constant` |
| Scanner.ScanNumber | src/lex.c:224-255 | the slot always receives the 32-bit cast of the converted value; there is no error exactly when the conversion consumed digits without overflow and, for push/pop after a segment, the value is within that segment's limit |
| Scanner.ScanArg | src/lex.c:192-267 | a present word never yields a missing-token error, and a converting slot without error is filled with an argument of its kind |
| Scanner.ScanArgs | src/lex.c:182-268 | there is one slot per kind, and when no slot raised an error every slot is filled with an argument of its kind |
| Scanner.Values | src/lex.c:273-274 | the node's arguments are the slots' contents, position by position |
| Scanner.ScanCommand | src/lex.c:147-268 | a known command has one slot per argument kind of its node, all filled with their kinds when there is no error |
| Scanner.ScanWords | src/lex.c:136-283 | no word is no command; an unknown first word is skipped exactly when it is not a command word; a rejected line has an error; an accepted node has the first word's command and the shape of its format |
| Scanner.ScanClassified | src/lex.c:139-283 | the same, once the first word has been classified |
| Scanner.ScanLine | src/lex.c:136-183 | a line of blanks and tabs only, and no other line, has no command word |
| Scanner.Limit | src/lex.c:236-248 | the largest index accepted: 7 for `temp` and 32767 for every other segment; its use is stated by `Scanner.IndexWord` and `Scanner.AcceptedIsValid` |
| Scanner.ScanWordsMatchesReference | src/lex.c:136-283 | a line is accepted if and only if it satisfies the per-command reference rules, and the node is then the reference node |
| Scanner.ArithmeticCommand | src/lex.c:161-182 | an arithmetic command has the single slot of its operation and no error, whatever words follow it |
| Scanner.MissingTokens | src/lex.c:182-190 | the slot loop reports exactly one missing token for every slot beyond the words available |
| Scanner.ShortLineRejected | src/lex.c:182-190 | a line with fewer words than its format needs is rejected with one missing-token error per absent word |
| Scanner.ScanNameCommand | src/lex.c:257-262 | `label`, `goto` and `if-goto` are accepted with the name word when there is one, and otherwise rejected with one missing token |
| Scanner.ScanCountCommand | src/lex.c:224-262 | `function` and `call` are accepted with the name and the 32-bit cast of the count exactly when the count converts without overflow, and otherwise rejected |
| Scanner.ScanSegmentCommand | src/lex.c:200-252 | `push` and `pop` are accepted with the segment and the index exactly when the segment is known, the line is not `pop constant` and the index converts and is within the segment's limit, and otherwise rejected |
| Scanner.ScanWordsFirst | src/lex.c:138-139 | a line with words is scanned as the kind of its first word, and an arithmetic first word has an operation |
| Scanner.AcceptedIsValid | src/lex.c:211-252 | an accepted node has its format's shape, never pops into `constant`, and has a push/pop index between 0 and its segment's limit |
| Scanner.ExtraWordsIgnored | src/lex.c:182-183 | words after those the format reads do not change the outcome of a line |
| Scanner.PopConstantRejected | src/lex.c:211-214 | `pop constant ...` is rejected with the pop-constant error |
| Scanner.IndexWord | src/lex.c:231-252 | a segment name and a decimal index pass the push/pop check exactly when the index is within the segment's limit and the line is not `pop constant` |
| Scanner.SegmentIndexLine | src/lex.c:200-254 | `push`/`pop` with a segment name and a decimal index is accepted exactly when the index is at most 7 for `temp` and 32767 otherwise and the line is not `pop constant`, and then holds that segment and index |
| Scanner.NegativeIndexRejected | src/lex.c:237-247 | a negative push/pop index is rejected for every segment |
| Scanner.CountWord | src/lex.c:225-229 | a decimal count passes the conversion check exactly when it fits in `long long`, and then reads back as itself |
| Scanner.CountLine | src/lex.c:224-262 | `function`/`call` with a name and a decimal count is accepted exactly when the count fits in `long long`, and then holds the name and the 32-bit cast of the count |
| Stream.Step | src/lex.c:141-144 | one line never shrinks the list; once the flag is raised nothing changes; the flag is raised after the line exactly when it was already raised or the line was rejected |
| Stream.Run | src/lex.c:136-286 | the loop over a sequence of line results adds at most one node per line |
| Stream.Outcome | src/lex.c:288-294 | a raised flag exits with failure, otherwise the list is returned; its meaning over the line results is stated by `Stream.OutcomeMatchesReference` |
| Stream.ScanInput | src/lex.c:120-295 | the whole of `scan_stream` on an input: the abort exactly when some line is rejected, and otherwise the nodes of the accepted lines in input order |
| Stream.Results | src/lex.c:136 | one result per line, each the scan of that line |
| Stream.FirstRejected | src/lex.c:188 | the position of the first rejected line: no line before it is rejected, and the line there is |
| Stream.RunFailure | src/lex.c:188-252 | after a sequence of lines the failure flag is raised if and only if some line was rejected |
| Stream.RunList | src/lex.c:270-283 | the list holds, in order, the nodes of the accepted lines before the first rejected one |
| Stream.NothingAfterFailure | src/lex.c:270 | once the flag is raised, no further line changes the list or the flag |
| Stream.UnknownLineNeutral | src/lex.c:141-144 | a skipped unknown command changes neither the list nor the flag |
| Stream.LogicalLineHasCommand | src/lex.c:138 | every line `nextline` hands out has a command word, so `strtok` never returns NULL for the command |
| Stream.ScanLineValid | src/lex.c:211-252 | every node the line scanner accepts obeys the shape and segment rules |
| Stream.EmittedValid | src/lex.c:270-283 | when every accepted line yields a valid node, so does every node collected from a sequence of lines |
| Stream.OutcomeMatchesReference | src/lex.c:288-294 | the outcome is the abort exactly when some line is rejected, and otherwise the nodes of all accepted lines in order |
| Stream.RunFromRun | src/lex.c:136-286 | running the loop on from the state after some lines over further lines is running it over all of them |
| Stream.ScanLines | src/lex.c:136-294 | the loop over the input's lines gives the fold of the line results: the abort exactly when a line is rejected, otherwise the accepted nodes in order |
| Stream.ScanStream | src/lex.c:120-295 | `scan_stream` aborts exactly when some line of the input is rejected; otherwise it returns the nodes of the accepted lines in input order, each obeying the shape and segment rules |

## Left out

- File I/O: the `FILE *` stream is a `string`, and `feof`, `fgetc` and `ungetc` are reads of that string.
- Memory management is not modelled (`malloc`, `realloc`, `free`, `new_token_list`, `free_token_list`, the linked `next` pointers). The list is a `seq`, and allocation failure (`exit(1)`) is not a path of the model.
- Allocation size: the name copy at lex.c:258 is one byte short of what `strcpy` writes. This overflow of the heap buffer is outside a model without memory.
- The diagnostics' text on `stderr` is not modelled. Errors are a list of `LineError` values, one per message the source would print.
- Process exit: the `exit(1)` after a failed scan is the `None` outcome.
- `errno` is never reset before `strtoll`, so an earlier `ERANGE` would flag a later, valid number. The failure flag is already raised at that point, so the outcome does not change; the model checks each number on its own.
- `lex.h` is not part of this model. `ARG_NONE` is taken to be the zero value, so the `{ 0 }` formats (`NONE`, `RETURN`) have no slot kinds. `return` gets no arguments; the C code's `argc` of `nargs - 1 = -1` and its `malloc` of that size are not modelled.
- `cmdt & (POP | PUSH)` depends on enum values in `lex.h`. It is read as "the command is `push` or `pop`".
- Undefined reads: after an unknown segment word, the source reads the uninitialised `argv[argn].mem` (lex.c:211, 235). The model applies the pop-constant check and the range check only when the segment was found. That line is rejected as an invalid segment either way.
- NUL characters in the input end a C string; the model treats them as ordinary characters. Locale-dependent `isspace` is fixed to the C locale.
- `strtok` on a NULL command word (lex.c:138) is not reachable, as `Stream.LogicalLineHasCommand` shows.
- Recursion depth of `nextline` is not modelled. It calls itself once per comment-only line (lex.c:366); blank lines are consumed by the whitespace loop at lex.c:313-316 without recursion.
- `long` is taken to be 64 bits wide (LP64). `num` is declared `long` (lex.c:198) and holds the `long long` result of `strtoll`. With a 32-bit `long`, `push constant 4294967296` would wrap to 0 before the range check at lex.c:244 and be accepted; the model keeps the full 64-bit value.
- Narrow32: implementation-defined in C; it is modelled as the two's-complement wrap that common compilers perform.

## Findings

| source | as written | input that shows it | evidently intended | confidence | as-written member | corrected member |
|---|---|---|---|---|---|---|
| src/lex.c:329-330 | the comment loop `while (fgetc(fp) != '\n')` only stops at a newline; at end of input `fgetc` returns `EOF` for ever | a file whose last line ends in a comment with no final newline, e.g. `push constant 1 // x` | the comment ends at the end of the input, and the code before it is handed out as the last line | high, not executed | LineReader.SkipCommentAsWritten, LineReader.TrailingCommentHangs | LineReader.SkipComment |
