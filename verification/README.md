# JP4Agent in Dafny

JP4Agent is a P4Runtime agent: it turns a controller's table entries into forwarding (AFI) objects and
carries packets between the controller and the device. This project models the parts of the repository
that compute something hard, and proves what they promise.

| part | modules |
|---|---|
| bracket matching in the C++ scanner | `CppText`, `BracketGrammar`, `AngleGrammar`, `ForwardScan`, `ForwardTheorems`, `AngleTheorems`, `BackwardScan`, `BracketTheorems`, `ReverseAngles`, `TemplateArguments` |
| the block stack, also across `#if`/`#else`/`#endif` | `NestingModel` (values), `NestingState` (objects), `BlockGrammar`, `BlockTheorems` |
| comments, raw strings and string literals | `CommentCleanser`, `RawStrings`, `RawGrammar`, `CollapseStrings`, `CollapseGrammar` |
| codecs and 128-bit numbers | `Base64`, `HexDigits`, `HexDump`, `Uint128` |
| Internet checksum and echo reply | `Checksum`, `IcmpEcho` |
| packets to and from the device | `Hostpath` |
| the controller's stream | `StreamProtocol` (all interleavings), `ControllerConnection` (the objects) |
| table-entry installation | `MatchTranslation`, `HeaderViews`, `ControllerEncoding`, `CapInstall`, `PipelineConfig` |

`Prelude` holds the shared types. `dafny verify dfyconfig.toml` checks everything.

## Main results

* **Brackets.** `Matches` is a grammar: an opening bracket, balanced text, its closing bracket. From `(`,
  `[` or `{`, `CloseExpression` finds exactly that match on the concatenated lines, whatever `<`, `>`,
  `<<`, `->`, `operator` and `;` stand in between; so does `ReverseCloseExpression` from a closing
  bracket; the two are inverse; and `_GetTextInside` agrees with them, failures included. `Paired` is a second
  grammar, which pairs angle brackets as well: from any `<` that opens, `CloseExpression` finds exactly the `>`
  that this grammar pairs with it, and from any `>` that closes `ReverseCloseExpression` does so on the file
  read from the right.
* **Nesting.** For every file, balanced or not, the state after all lines equals the state after the file
  without its alternative branches exactly when no `#else` is open at the end. The object-level
  `NestingState` refines the value-level model because the live stack and all checkpoints never share a
  block. The facts about a line are those read in the whole file: which class declarations sit in a template
  argument list, for instance, is decided with the alternatives present. What a line does is the word of its
  declarations, braces and semicolons: the stack gains exactly the blocks that the word leaves open, and over
  any stretch of complete lines a block's parentheses are the sum over the lines, its access level the last one
  set, and its assembly state that of its open parentheses.
* **Cleansers.** Each cleansed text is the one text that a relation between line and result allows: comments
  blanked from their opening to their closing line, raw strings and literals emptied, digit separators and
  escapes gone, everything else kept.
* **Codecs and checksum.** Base64 round trips in both directions, with canonical text characterised as
  exactly the fixed points of decode-then-encode. The checksum's 32-bit accumulator is safe exactly up to
  65536 bytes, and the echo reply verifies for every accepted request. A hex dump stays in its buffer exactly
  under the condition of `StaysInside`.
* **Hostpath.** A frame comes back from the loopback with its port exactly when it has 1 to 1992 bytes.
* **Stream channel.** Over every interleaving of any number of controllers and packet threads nothing is
  written to a cleared stream, each punt has exactly one outcome, and exactly one result is returned for it,
  which is that outcome; each reply begun is written once. Served streams are found throughout a run exactly
  when no registrations overlap.
* **Installation.** After any run of requests every entry binds its own match and action, and the match
  object that is bound accepts exactly the packets that the request's fields accept, where the packet is one
  record of header fields seen by P4 name on one side and by AFI field on the other. Null entries appear in
  the object map, and a new pipeline configuration then aborts, exactly under stated conditions.

## How the source is modelled

* Regular expressions are small predicates that read the same characters: `\boperator\s*$`, the start of a
  raw string, the digits before a separator, the escapes. Whether a line's head is already inside a `//`
  comment, and whether a line is an `#include`, are parameters of the cleansers.
* A line given to `NestingState` is reduced to the facts `Update` reads off it: its directive, parenthesis
  balance, namespaces, class declaration, access keyword, braces. None of them depends on the stack, so
  the theorems hold for every combination. `_PreprocessorInfo` records are values, because no two places
  refer to the same one; block records are objects.
* Bit operations of the codecs, the checksum and the headers are written as division and remainder;
  match values and masks are bit-vectors.
* `base64_decode` asserts that it stays inside its buffer; `None` stands for a failed assert or a write
  beyond the end. It succeeds when the decoded bytes are none or fewer than the buffer.
* Protocol buffers are an abstract pair of functions: parsing what was serialised, as a message of the same
  type, gives the message back. The bytes alone do not determine the type.
* The device is the Broadcom target. No target can create objects of the encap types, so no table has such a
  parent (`RequestCreates`).
* Strings are read through `c_str()`, so the terminator behind them may be read too.

Where the code and its comments, or an expected property, differ, the model follows the code:

* `CloseExpression` called on the second `<` of `<<(` skips it and closes a later bracket
  (`ShiftTailClosesLaterBracket`); `ReverseCloseExpression` called on the `>` of `->` opens an earlier one
  (`ArrowOpensEarlierBracket`). The theorems therefore start at a bracket or at an accepted `<`; from any
  other `<` the search goes on behind it with nothing open (`UnacceptedAngle`).
* `Update` says that stacks are not modified in place; `open_parentheses`, `inline_asm`, `access` and
  `seen_open_brace` are. That is why the separation of the stacks needs a proof.
* `ControllerICMPEcho` refuses a packet only when the IP protocol and the ICMP type are both wrong,
  since its test joins them with `&&`: a UDP packet can be answered (`UdpIsAnswered`), and only echo requests
  are answered exactly when both are right or both are wrong (`AnswersEchoIff`).
* An LPM field is stored as an exact value (`PrefixIsLost`), which is right exactly when the prefix is the whole
  field and the value fits it (`LpmRightIff`).
* The L4 source-port branch sets the mask twice and never the value: the entry tests for port 0
  (`SourcePortTestsZero`), which is right exactly for requests that accept port 0 and are no proper prefix
  (`SourcePortRightIff`).
* When two controllers overlap, the first to leave silences the other (`OverlapLosesPackets`,
  `OverlapHappens`, `AlwaysFoundIff`).
* A handler answers arbitration without the mutex, so its write can coincide with a packet thread's on the same
  stream (`ReplyCollides`), exactly when the stream is registered and no handler holds the mutex
  (`ReplyCollidesIff`).
* A table's CAP survives an insertion exactly when its name is not one of the generated names of the table
  inserted into (`CapSurvivesIff`). Generated names are injective without any assumption on table names.
* A row break in a hex dump is not a space, so the packet parser reads it as a digit 0; a dump is read
  back as it is exactly under the condition of `DumpReadsAsIsIff`.
* `getAfiObject` inserts a null entry for a name it does not find, and `bindAfiObjects` dereferences every
  entry: after a request on a missing table a new pipeline configuration aborts (`NullsAppearIff`,
  `MissingTableThenConfig`, `BindAbortsIff`).
* `getHex` does not count row breaks against the length of its buffer, so a dump that does not fit stays inside
  the buffer only when it is cut in its first row (`GetHex`).
* `headerParse` ignores the length.

## Model

| member | source | states |
|---|---|---|
| `ForwardScan.FindEndOfExpressionInLine` | tools/scripts/cpplint.py:1519-1594 | the loop with its look-behind and look-ahead refines a scan over classified characters, in all three outcomes: end found, mismatch, stack left for the next line |
| `ForwardScan.CloseExpression` | tools/scripts/cpplint.py:1597-1638 | the line-by-line loop returns the position of the multi-line scan, or end of file and -1; a found position is strictly later than the start |
| `ForwardScan.PopAngles` | tools/scripts/cpplint.py:1556-1557 | dropping abandoned `<` leaves the stack with a real bracket on top or empty |
| `ForwardTheorems.CloseFromFlat` | tools/scripts/cpplint.py:1618-1638 | carrying the stack from line to line equals one scan of the concatenated lines |
| `ForwardTheorems.ScanIsPlain` | tools/scripts/cpplint.py:1532-1594 | when the bottom of the stack is a real bracket, all angle, shift, operator and semicolon heuristics drop out: the scan is plain bracket matching with the `<` removed from the stack |
| `ForwardTheorems.CloseIsPlain` | tools/scripts/cpplint.py:1519-1638 | from `(`, `[` or `{` the returned position is the one of plain matching on the joined text, also when there is none |
| `ForwardTheorems.CloseIsMatch` | tools/scripts/cpplint.py:1519-1638 | from `(`, `[` or `{`: q is the grammatical partner if and only if the returned position is just past q |
| `ForwardTheorems.ScanFinds` | tools/scripts/cpplint.py:1551-1568 | inside a template list, an opened bracket is closed by its own partner around balanced text before the scan can succeed |
| `ForwardTheorems.ScanArguments` | tools/scripts/cpplint.py:1537-1591 | a scan that started at `<` and succeeds ends at a `>` and has passed a well-formed argument list, with no `;` outside brackets |
| `ForwardTheorems.CloseTemplate` | tools/scripts/cpplint.py:1537-1638 | the same for `CloseExpression` over a whole file, from a `<` accepted as a template opener |
| `ForwardTheorems.ShiftTailClosesLaterBracket` | tools/scripts/cpplint.py:1537-1547 | a concrete line where starting on the second character of `<<` yields a bracket that is not its partner |
| `ForwardTheorems.UnacceptedAngle` | tools/scripts/cpplint.py:1537-1550 | from a `<` that is not accepted, the result is that of the search behind it with an empty stack |
| `CppText.OperatorIff` | tools/scripts/cpplint.py:1545-1546 | the search for `operator` finds it exactly when the whole word stands before the place with only space between |
| `AngleTheorems.ReadMark` | tools/scripts/cpplint.py:1537-1575 | which `<` opens, which cancels, which `>` closes: as the text around them says |
| `AngleTheorems.ScanIsPaired` | tools/scripts/cpplint.py:1532-1594 | with one angle pending, the scan ends just past q if and only if the grammar pairs the angle with q and q closes |
| `AngleTheorems.CloseTemplateIff` | tools/scripts/cpplint.py:1537-1638 | from any `<` that opens: the result is just past q if and only if the next character is not `<` or `=` and q is the `>` that the grammar of brackets and angles pairs with it |
| `AngleTheorems.OnlyFromOpeners` | tools/scripts/cpplint.py:1620-1622 | nothing is found from any other character |
| `BracketGrammar.PlainSkips` | tools/scripts/cpplint.py:4703-4713 | plain stack matching passes over balanced text without effect |
| `BracketGrammar.PlainFinds` | tools/scripts/cpplint.py:4703-4713 | conversely, what it passed before closing the innermost bracket was balanced, and the closer was the right one |
| `BracketGrammar.PlainIsMatches` | tools/scripts/cpplint.py:4703-4718 | the stack algorithm decides the grammar: it stops just past q if and only if q is the partner |
| `BracketGrammar.MatchUnique` | tools/scripts/cpplint.py:1602-1606 | partners are unique in both directions |
| `BracketGrammar.BalancedMirror` | tools/scripts/cpplint.py:1641-1660 | balanced text read backwards with brackets exchanged is balanced, the symmetry between the two scanners |
| `BackwardScan.FindStartOfExpressionInLine` | tools/scripts/cpplint.py:1641-1715 | the downward loop with its character skips refines the backward scan in all three outcomes |
| `BackwardScan.ReverseCloseExpression` | tools/scripts/cpplint.py:1718-1753 | the loop towards the first line returns the position of the multi-line backward scan, or line 0 and -1 |
| `BracketTheorems.SkipIsNoBracket` | tools/scripts/cpplint.py:1661-1680 | the character skipped before `>` or `<` is never one of `()[]{}` |
| `BracketTheorems.ScanBackIsPlain` | tools/scripts/cpplint.py:1656-1715 | from a real bracket the backward scan is plain matching on the mirrored text, skips and angles included |
| `BracketTheorems.OpenIsMatch` | tools/scripts/cpplint.py:1641-1753 | from a closing bracket: p is the grammatical partner if and only if the backward scan returns it |
| `BracketTheorems.CloseReverseInverse` | tools/scripts/cpplint.py:1597-1753 | over any lines: `CloseExpression` from an opening bracket gives (l2, q) if and only if a closing bracket stands at q-1 and `ReverseCloseExpression` from there gives the opening bracket back |
| `BracketTheorems.ArrowOpensEarlierBracket` | tools/scripts/cpplint.py:1661-1672 | without the closing bracket the equivalence fails: a concrete line with `->` |
| `ReverseAngles.LineAgrees` | tools/scripts/cpplint.py:1656-1715 | the backward scan of a line, with its skips over `->`, `>=`, operators and pairs of `<`, is the forward machine on the turned text |
| `ReverseAngles.OpenTemplateIff` | tools/scripts/cpplint.py:1641-1753 | from any `>` that closes: p is returned if and only if the grammar, on the file read from the right, pairs the two; of a run of `<` one counts if its number is odd |
| `ReverseAngles.UnacceptedClose` | tools/scripts/cpplint.py:1661-1670 | from a `>` of an operator the search goes on two characters to the left with nothing pending |
| `ReverseAngles.OnlyFromClosers` | tools/scripts/cpplint.py:1735-1737 | nothing is found from any other character |
| `BracketTheorems.GetTextInside` | tools/scripts/cpplint.py:4665-4718 | the third matcher's loop computes the text up to the plain match, or nothing |
| `BracketTheorems.TextInsideIsMatch` | tools/scripts/cpplint.py:4665-4718 | it returns exactly the text between a bracket and its grammatical partner |
| `BracketTheorems.CloseAgreesWithTextInside` | tools/scripts/cpplint.py:1597-1638 | on one line `CloseExpression` and `_GetTextInside` enclose the same text and fail together |
| `TemplateArguments.InTemplateArgumentList` | tools/scripts/cpplint.py:2482-2532 | the loop ends on every input, by progress in (line, column) that rests on the strictly later result of `CloseExpression`, and gives the answer of a character-by-character definition |
| `TemplateArguments.OrdinaryTextIsSkipped` | tools/scripts/cpplint.py:2495-2501 | jumping to the next telling character does not change the answer |
| `TemplateArguments.InArgumentsIff` | tools/scripts/cpplint.py:2492-2532 | the answer is yes if and only if, over characters that tell nothing and over closed argument lists, one of `>`, `=`, `[`, `]`, `.` comes first |
| `NestingModel.NestedBracesCancel` | tools/scripts/cpplint.py:2717-2753 | once the head of the innermost block is complete, any properly nested sequence of braces, `;` and `)` leaves the stack as it was |
| `BlockTheorems.EffectIsWord` | tools/scripts/cpplint.py:2615-2753 | the effect of a line is that of its word: namespaces, class head and braces in order, on the stack with the line counted |
| `BlockTheorems.LineLeaves` | tools/scripts/cpplint.py:2615-2753 | the stack gains exactly the blocks that the line leaves open by the grammar, with their kinds, lines and fields; a forward declaration or a block that ends on its line leaves nothing |
| `BlockTheorems.LineShuts` | tools/scripts/cpplint.py:2748-2752 | a line that ends enclosing blocks takes exactly those from the stack, as far as there are any |
| `BlockTheorems.HeadLineLeaves` | tools/scripts/cpplint.py:2685-2753 | the same when a head from an earlier line still waits for its brace |
| `BlockTheorems.BodyRun` | tools/scripts/cpplint.py:2615-2753 | over any stretch of complete lines: the stack below is unchanged, open parentheses are the sum, the access level is the last one set, inline assembly lasts exactly while its parentheses are open, and a class is declared only at sum 0 |
| `BlockTheorems.HeadRun` | tools/scripts/cpplint.py:2262-2312 | a class head over several lines is derived if a colon was seen, and its parents are the bases named from there on |
| `NestingModel.StepFromLive` | tools/scripts/cpplint.py:2555-2588 | outside alternatives one line keeps the run and the run of the shortened file in step, also when the line opens an alternative |
| `NestingModel.StepFromPassed` | tools/scripts/cpplint.py:2559-2588 | inside an alternative, at any depth and whatever the line does to the stack, the state the shortened file is in can still be recovered from the checkpoints |
| `NestingModel.ElideTracks` | tools/scripts/cpplint.py:2534-2753 | the relation holds over every run from related states |
| `NestingModel.AlternativesLeaveNoTrace` | tools/scripts/cpplint.py:2534-2753 | for every file, the final state (block stack and checkpoints) equals the one of the file without its alternatives if and only if no `#else` is open at the end |
| `NestingModel.AlternativesAreIrrelevant` | tools/scripts/cpplint.py:2544-2550 | two files that differ only in what their alternatives contain end with the same stack |
| `NestingState.DeepCopy` | tools/scripts/cpplint.py:2558-2570 | a copy has the same values in new and distinct objects |
| `NestingState.NestingState.BeginIf` | tools/scripts/cpplint.py:2555-2558 | the checkpoint is a copy; live stack and all checkpoints stay pairwise disjoint |
| `NestingState.NestingState.SaveBeforeElse` | tools/scripts/cpplint.py:2562-2567 | the checkpoint before the first `#else` is a copy of the live stack, the other checkpoints are unchanged |
| `NestingState.NestingState.RestoreBeforeIf` | tools/scripts/cpplint.py:2569-2570 | the live stack becomes new objects with the values saved at `#if`; no checkpoint changes |
| `NestingState.NestingState.BeginElse` | tools/scripts/cpplint.py:2559-2573 | saves once, restores a copy of the stack before `#if`; disjointness is kept |
| `NestingState.NestingState.EndIf` | tools/scripts/cpplint.py:2574-2588 | the shallow assignment moves blocks out of the checkpoint it drops, so nothing is shared afterwards |
| `NestingState.NestingState.UpdatePreprocessor` | tools/scripts/cpplint.py:2534-2588 | all directives, stray ones included: the new values are those of the value model and the objects stay separate |
| `NestingState.NestingState.SeenOpenBrace` | tools/scripts/cpplint.py:2441-2447 | the object's test is the one of the value model |
| `NestingState.NestingState.CountParentheses` | tools/scripts/cpplint.py:2615-2637 | the in-place update of the innermost block changes no checkpoint |
| `NestingState.NestingState.PushNamespaces` | tools/scripts/cpplint.py:2638-2656 | the loop pushes every namespace of the line, complete or not, and changes no checkpoint |
| `NestingState.NestingState.DeclareClass` | tools/scripts/cpplint.py:2658-2683 | a class is pushed if and only if no parenthesis is open and it is not a template argument |
| `NestingState.NestingState.CheckBegin` | tools/scripts/cpplint.py:2685-2688 | the head of a class collects its bases in place, no checkpoint changes |
| `NestingState.NestingState.SetAccess` | tools/scripts/cpplint.py:2690-2698 | the access level of the innermost class, in place, no checkpoint changes |
| `NestingState.NestingState.Consume` | tools/scripts/cpplint.py:2723-2753 | one brace, `;` or `)`: new stack values and unchanged checkpoints |
| `NestingState.NestingState.ConsumeAll` | tools/scripts/cpplint.py:2716-2753 | the loop over the rest of the line equals the value model's fold |
| `NestingState.NestingState.UpdateStack` | tools/scripts/cpplint.py:2615-2753 | the non-directive part touches the live stack only |
| `NestingState.NestingState.Update` | tools/scripts/cpplint.py:2591-2753 | one line on objects refines one step of the value model and keeps all stacks pairwise disjoint |
| `NestingState.ProcessFile` | tools/scripts/cpplint.py:2534-2753 | over a whole file: separation holds at the end, the objects' values are the value run, and with no open `#else` the stack is the one of the file without alternatives |
| `CommentCleanser.FindNextMultiLineCommentStart` | tools/scripts/cpplint.py:1364-1372 | the first line at or after the given one that opens a multi-line comment |
| `CommentCleanser.FindNextMultiLineCommentEnd` | tools/scripts/cpplint.py:1375-1381 | the first line at or after the given one that closes a comment |
| `CommentCleanser.RemoveMultiLineCommentsFromRange` | tools/scripts/cpplint.py:1384-1389 | exactly the lines of the range become the blanking comment |
| `CommentCleanser.RemoveMultiLineComments` | tools/scripts/cpplint.py:1392-1405 | the loop blanks exactly the lines covered by a comment that is closed later, defined line by line without ranges, keeps the line count, and reports a line if and only if a comment is never closed there |
| `CommentCleanser.OpensOnlyUnclosed` | tools/scripts/cpplint.py:1392-1405 | afterwards a line can open a comment only at or behind one that was reported |
| `CommentCleanser.CleansedTwice` | tools/scripts/cpplint.py:1392-1405 | running it again changes nothing |
| `CommentCleanser.SameReport` | tools/scripts/cpplint.py:1399-1403 | running it again reports the same line |
| `CommentCleanser.OpensIff` | tools/scripts/cpplint.py:1367-1370 | a line opens a comment if and only if, behind leading space, an opening marker stands and no closing one follows |
| `CommentCleanser.ClosesIff` | tools/scripts/cpplint.py:1378-1379 | a line closes a comment if and only if a closing marker is last but for space |
| `CommentCleanser.CleansedIs` | tools/scripts/cpplint.py:1392-1405 | a line is blanked if and only if it lies between the opening and the first closing line of a comment, both included; every other line is unchanged |
| `CommentCleanser.ReportIs` | tools/scripts/cpplint.py:1399-1403 | the line reported is the opening line of the first comment that is never closed |
| `RawStrings.StripRawStrings` | tools/scripts/cpplint.py:1328-1355 | the inner loop ends, the text getting shorter each time, and computes the recursive stripping with the delimiter left open |
| `RawStrings.CleanseRawStrings` | tools/scripts/cpplint.py:1288-1361 | the outer loop equals the line-by-line definition, with as many lines as before |
| `RawStrings.StripSettles` | tools/scripts/cpplint.py:1328-1355 | a stripped line holds no raw string that would be stripped again |
| `RawStrings.CleanseTwice` | tools/scripts/cpplint.py:1288-1361 | cleansing a cleansed file changes nothing, for every starting delimiter |
| `RawGrammar.StripsIff` | tools/scripts/cpplint.py:1328-1355 | the stripped line and the ending waited for are the ones that the relation allows: each literal up to the ending with its own delimiter becomes `""` |
| `RawGrammar.NextIff` | tools/scripts/cpplint.py:1310-1323 | inside a raw string a line is `""` until the ending comes, then its indentation, `""` and the stripped rest |
| `RawGrammar.FileIff` | tools/scripts/cpplint.py:1288-1361 | the cleansed file is the one that the relation allows, with the ending carried from line to line |
| `CollapseStrings.CollapseFirst` | tools/scripts/cpplint.py:1475-1514 | one turn of the loop, digit separators and missing closing quotes included, always consumes text or stops |
| `CollapseStrings.CollapseLine` | tools/scripts/cpplint.py:1452-1516 | the whole loop terminates and equals the recursive collapse of the text without escapes; include lines are untouched |
| `CollapseStrings.CollapseEmptiesLiterals` | tools/scripts/cpplint.py:1452-1516 | in the result every literal is empty, except in an untouched tail whose first quote is never closed |
| `CollapseGrammar.UnescapesIff` | tools/scripts/cpplint.py:1252-1253 | the text without escapes is the one from which the longest escape at each place was taken, left to right |
| `CollapseGrammar.CollapsesIff` | tools/scripts/cpplint.py:1475-1514 | the result is the one that the relation allows: text without quotes kept, literals emptied, numbers without their separators, a tail without partner kept |
| `CollapseGrammar.CollapsedLine` | tools/scripts/cpplint.py:1452-1516 | both together for a whole line |
| `Base64.GroupRoundTrip` | src/utils/src/Utils.cpp:253-257 | splitting three bytes in four 6-bit values loses nothing |
| `Base64.GroupRoundTripBack` | src/utils/src/Utils.cpp:301-303 | joining four 6-bit values in three bytes loses nothing |
| `Base64.EncodeThenDecode` | src/utils/src/Utils.cpp:244-328 | decoding the encoding of any byte string gives it back |
| `Base64.EncodeIsCanonical` | src/utils/src/Utils.cpp:244-284 | the encoder emits only canonical text in the sense of section 3.5 of RFC 4648 |
| `Base64.DecodeThenEncode` | src/utils/src/Utils.cpp:244-328 | re-encoding the decoding of canonical text gives the text back |
| `Base64.CanonicalIsFixed` | src/utils/src/Utils.cpp:244-328 | for every text: it survives decoding and re-encoding if and only if it is canonical |
| `Base64.SymbolIs` | src/utils/src/Utils.cpp:234-237 | symbol v is the v-th character of the alphabet of RFC 4648 |
| `Base64.AlphabetIs` | src/utils/src/Utils.cpp:240-242 | exactly the characters of the alphabet are symbols |
| `Base64.GroupIsNumber` | src/utils/src/Utils.cpp:253-257 | three bytes and their four symbols are the same 24-bit number, to the base 256 and to the base 64 |
| `Base64.DecodeStops` | src/utils/src/Utils.cpp:295-296 | nothing behind the first character that is no symbol matters |
| `Base64.DecodedSize` | src/utils/src/Utils.cpp:286-328 | three bytes for four symbols, and only whole bytes of the rest |
| `Base64.Base64Encode` | src/utils/src/Utils.cpp:244-284 | the streaming loop over the 3-byte array computes the encoding of section 4 of RFC 4648 |
| `Base64.FlushRest` | src/utils/src/Utils.cpp:265-280 | the last one or two bytes are encoded with zero fill and padding |
| `Base64.Base64Decode` | src/utils/src/Utils.cpp:286-328 | the streaming loop stops at the first non-alphabet character, succeeds if and only if the bytes are none or fewer than the buffer, writes exactly the decoding and nothing behind it |
| `Base64.FlushGroup` | src/utils/src/Utils.cpp:297-311 | one full group advances the decoding by four characters and three bytes, or the whole cannot fit |
| `Base64.FlushTail` | src/utils/src/Utils.cpp:314-325 | the symbols behind the last full group are decoded and appended if and only if they fit |
| `Base64.WriteGroup` | src/utils/src/Utils.cpp:305-307 | three bytes appended, or refused with the buffer unchanged |
| `Base64.WriteTail` | src/utils/src/Utils.cpp:321-324 | the last bytes appended if and only if they fit |
| `Checksum.Csum` | test/controller/src/Controller.cpp:292-314 | for up to 65536 bytes the loop and the two folds, without 32-bit signed overflow, give the one's-complement sum defined by residues modulo 65535 (section 1 of RFC 1071) |
| `Checksum.WordSumBound` | test/controller/src/Controller.cpp:299-307 | a bound on the accumulator for every length |
| `Checksum.TwoFolds` | test/controller/src/Controller.cpp:309-311 | two folds suffice for every non-negative 32-bit sum |
| `Checksum.BoundIsExact` | test/controller/src/Controller.cpp:295-307 | the sum of every buffer of n bytes fits a signed 32-bit integer if and only if n is at most 65536 |
| `Checksum.OddByte` | test/controller/src/Controller.cpp:304-307 | an odd length equals padding with a zero byte |
| `Checksum.FilledFieldVerifies` | test/controller/src/Controller.cpp:383-395 | storing the checksum in a zeroed field at an even offset makes the checksum of the whole buffer 0 |
| `Checksum.SwappedSum` | test/controller/src/Controller.cpp:299-307 | the relation between the little-endian and the big-endian sum |
| `Checksum.OrderIndependent` | test/controller/src/Controller.cpp:292-314 | the stored checksum bytes are the same on either host order (section 2 of RFC 1071) |
| `Checksum.TotalPermuted` | test/controller/src/Controller.cpp:299-302 | the sum of a list of words depends only on its multiset |
| `Checksum.PermutedWords` | test/controller/src/Controller.cpp:292-314 | buffers with the same 16-bit words in any order have the same checksum |
| `IcmpEcho.FillChecksum` | test/controller/src/Controller.cpp:383-395 | zeroing, summing and storing a field makes its range verify and changes nothing else |
| `IcmpEcho.EchoReply` | test/controller/src/Controller.cpp:317-401 | a reply exists if and only if the packet without its last five bytes passes the checks; it has five bytes less, exchanges the MAC and IP addresses, clears the ICMP type and code, keeps every other byte outside the checksums, and its IP header and ICMP message both verify |
| `IcmpEcho.AnswersEchoIff` | test/controller/src/Controller.cpp:354-369 | for packets of the right frame: only an echo request is answered if and only if protocol and type are both right or both wrong |
| `IcmpEcho.UdpIsAnswered` | test/controller/src/Controller.cpp:366-369 | a UDP packet that is answered |
| `IcmpEcho.AddressSwapKeepsSum` | test/controller/src/Controller.cpp:371-395 | exchanging source and destination address keeps the header's checksum |
| `Hostpath.DeviceHPPacket.CreateTransmit` | src/pi/src/DeviceHPPacket.cpp:32-61 | the fields and the serialised header of a new transmit packet, body zeroed |
| `Hostpath.DeviceHPPacket.CreateReceive` | src/pi/src/DeviceHPPacket.cpp:66-87 | a buffer of the right size |
| `Hostpath.DeviceHPPacket.HeaderSerialize` | src/pi/src/DeviceHPPacket.cpp:92-110 | the eight header bytes written, the low bits of the first byte kept, the body untouched |
| `Hostpath.DeviceHPPacket.HeaderParse` | src/pi/src/DeviceHPPacket.cpp:115-147 | sandbox, port and direction are the ones in the bytes |
| `Hostpath.HeaderLayout` | src/pi/include/DeviceHPPacket.h:91-117 | read as one 64-bit number, the header has the documented fields at the documented bits |
| `Hostpath.CpuHeaderLayout` | test/controller/src/Controller.cpp:120-126 | the CPU header is twelve bytes that hold the port as one number in network order |
| `Hostpath.InjectL2Packet` | src/pi/src/Hostpath.cpp:194-227 | the datagram is the device header followed by the frame |
| `Hostpath.SendPacketOut` | src/pi/src/Hostpath.cpp:156-173 | the payload's port and frame go out; too short a payload is refused |
| `Hostpath.HandlePacketFromDevice` | src/pi/src/Hostpath.cpp:43-116 | what is punted for any datagram, including short and truncated ones |
| `Hostpath.ControllerEncapsulate` | test/controller/src/Controller.cpp:112-130 | CPU header with the port, then the frame |
| `Hostpath.ControllerDecapsulate` | test/controller/src/Controller.cpp:133-173 | port and frame, or nothing when no frame follows the header |
| `Hostpath.WellFormedIff` | test/controller/src/Controller.cpp:158-172 | a payload is taken if and only if a frame follows the header and the first eight bytes are zero |
| `Hostpath.PuntedIff` | src/pi/src/Hostpath.cpp:43-116 | a datagram is punted if and only if something follows its header |
| `Hostpath.EncapsulationRoundTrip` | test/controller/src/Controller.cpp:112-173 | decapsulation undoes encapsulation for every port and non-empty frame |
| `Hostpath.PuntedDatagram` | src/pi/src/Hostpath.cpp:43-227 | the receive handler turns an injected datagram back into the controller's payload, cut at the receive buffer |
| `Hostpath.LoopbackIs` | src/pi/src/Hostpath.cpp:43-227 | the result of the four steps together for every frame |
| `Hostpath.LoopbackReturnsFrame` | src/pi/src/Hostpath.cpp:43-227 | port and frame come back unchanged if and only if the frame has 1 to 1992 bytes |
| `ControllerConnection.Connection.SendPktIn` | src/pi/include/ControllerConnection.h:50-62 | appends the packet to the registered stream and to no other, or reports false |
| `ControllerConnection.StreamChannel` | src/pi/src/P4RuntimeService.cpp:482-529 | run alone: every arbitration answered, every well-formed packet sent to the device in order, nothing registered at the end |
| `ControllerConnection.OneReplyEach` | src/pi/src/P4RuntimeService.cpp:492-509 | there are as many replies as arbitration requests |
| `ControllerConnection.DatagramsConcat` | src/pi/src/P4RuntimeService.cpp:511-520 | datagrams go out in the order of the requests |
| `ControllerConnection.DatagramOf` | src/pi/src/P4RuntimeService.cpp:511-520 | one datagram for each packet that carries a frame: device header with the port, then the frame |
| `ControllerConnection.NoDatagramOf` | src/pi/src/P4RuntimeService.cpp:492-523 | other requests send nothing to the device |
| `ControllerConnection.PuntPacket` | src/pi/src/Hostpath.cpp:43-116 | a datagram is reported sent if and only if it could be punted and a stream is registered, and then that stream has it |
| `StreamProtocol.LockStep` | src/pi/include/ControllerConnection.h:35-67 | every step keeps mutual exclusion: the lock's owner is the one thread in a critical section |
| `StreamProtocol.StreamStep` | src/pi/include/ControllerConnection.h:35-67 | every step keeps the registered stream alive, and the pointer of a writing thread current |
| `StreamProtocol.LogStep` | src/pi/include/ControllerConnection.h:35-67 | every step keeps the log of effects a legal sequential history that agrees with the shared pointer |
| `StreamProtocol.Safe` | src/pi/src/P4RuntimeService.cpp:482-529 | the three invariants hold after every sequence of steps of any number of handlers and packet threads |
| `StreamProtocol.Conserved` | src/pi/src/Hostpath.cpp:107-113 | the accounting of punts holds after every sequence of steps |
| `StreamProtocol.SequentialIsSafe` | src/pi/include/ControllerConnection.h:35-67 | in a legal history no write of either kind follows the clearing of its stream |
| `StreamProtocol.NoWriteAfterClear` | src/pi/include/ControllerConnection.h:35-67 | in every run neither a packet nor a reply is written to a stream whose handler has cleared it |
| `StreamProtocol.WriterSeesLiveStream` | src/pi/include/ControllerConnection.h:50-62 | between test and write the stream is still registered and its handler has not cleared it |
| `StreamProtocol.EveryPuntOnce` | src/pi/src/Hostpath.cpp:107-113 | a punt has exactly one outcome once decided and exactly one returned result once its thread is done, none before, and every returned result is the outcome |
| `StreamProtocol.FinishedIsReported` | src/pi/src/Hostpath.cpp:107-113 | when the packet threads have returned, every punt that was begun has its true result among the returned ones |
| `StreamProtocol.EveryReplyOnce` | src/pi/src/P4RuntimeService.cpp:492-509 | in every run the replies written by a handler are as many as those it began, less one while it is writing |
| `StreamProtocol.RegisteredIsOpen` | src/pi/src/P4RuntimeService.cpp:482-529 | in histories without overlapping handlers the registered stream is exactly the one that was set and not yet cleared |
| `StreamProtocol.ServedIsFound` | src/pi/src/P4RuntimeService.cpp:482-529 | in a run without overlap a packet thread finds a handler's stream if and only if that handler is between set and clear |
| `StreamProtocol.AlwaysFoundIff` | src/pi/src/P4RuntimeService.cpp:482-529 | throughout a run exactly the served streams are found, if and only if no handler registered before the earlier ones had cleared |
| `StreamProtocol.OverlapLosesPackets` | src/pi/include/ControllerConnection.h:43-62 | with two handlers serving, once one leaves, a punt is unsent although the other still serves |
| `StreamProtocol.OverlapHappens` | src/pi/src/P4RuntimeService.cpp:482-529 | such a state is reachable |
| `StreamProtocol.OnlyRepliesCollide` | src/pi/include/ControllerConnection.h:50-62 | two packet threads are never inside a write at once |
| `StreamProtocol.ReplyCollides` | src/pi/src/P4RuntimeService.cpp:492-509 | a run in which a handler and a packet thread are inside a write on the same stream |
| `StreamProtocol.ReplyCollidesIff` | src/pi/src/P4RuntimeService.cpp:492-509 | while a handler writes its reply, the others can get a packet thread inside a write on its stream if and only if that stream is registered and no handler holds the mutex |
| `MatchTranslation.MatchFieldInfo` | src/pi/include/P4Info.h:110-125 | the search finds the field with the id, or none has it |
| `MatchTranslation.ReadField` | src/afi/src/AfiCap.cpp:100-129 | value and mask are the big-endian numbers in the request's strings and their terminators, the mask all ones unless ternary |
| `MatchTranslation.Dispatch` | src/afi/src/AfiCap.cpp:131-190 | the setters called for each field, the source-port branch as written |
| `MatchTranslation.AddField` | src/afi/src/AfiCap.cpp:88-214 | one field of the loop |
| `MatchTranslation.TranslateMatch` | src/afi/src/AfiCap.cpp:88-214 | the whole loop, with its failure on an unknown id |
| `MatchTranslation.BytesOrWords` | src/afi/src/AfiCap.cpp:109-129 | masked comparison byte by byte equals masked comparison of the big-endian words |
| `MatchTranslation.FieldMeaning` | src/pi/src/P4RuntimeService.cpp:156-214 | for a field that is not a proper prefix, the P4 meaning (equality, agreement on the first bits, or agreement under the mask) is the stored test |
| `MatchTranslation.FullPrefixIsExact` | src/pi/src/P4RuntimeService.cpp:174-202 | bit by bit, a prefix as long as the field is equality of the strings |
| `MatchTranslation.PutMeaning` | src/afi/src/AfiCap.cpp:131-190 | storing a word in an unused slot adds exactly its condition |
| `MatchTranslation.AddTests` | src/afi/src/AfiCap.cpp:100-214 | any field of the right size, word or MAC address, adds exactly its stored test to what the object accepts |
| `MatchTranslation.AddMeaning` | src/afi/src/AfiCap.cpp:100-214 | a field stored as it is meant adds exactly its P4 condition |
| `MatchTranslation.TranslationPreservesMatching` | src/afi/src/AfiCap.cpp:88-214 | for every list of fields that are stored as they are meant, words and MAC addresses, exact, ternary and full-length LPM, and for every object so far, the result accepts a packet if and only if the object did and all fields do |
| `MatchTranslation.TranslateFailsIff` | src/afi/src/AfiCap.cpp:89-96 | the translation fails if and only if some field id is unknown |
| `MatchTranslation.SizeIsSmallest` | src/afi/src/AfiCap.cpp:109-129 | a field is read as the smallest of one, two or four bytes that holds it |
| `MatchTranslation.FirstByteDecides` | src/afi/src/AfiCap.cpp:109-129 | the bytes are read in network order: the first that differs decides which number is smaller |
| `HeaderViews.SlotHoldsField` | src/afi/src/AfiCap.cpp:140-212 | each known name goes to the AFI field that holds the same header field, and no other name to any |
| `HeaderViews.EntryTranslation` | src/afi/src/AfiCap.cpp:62-214 | for every packet, given as one record of header fields: the AFI match accepts it, read by AFI field, if and only if the P4 entry does, read by name |
| `MatchTranslation.LpmRightIff` | src/afi/src/AfiCap.cpp:100-129 | the stored test means the prefix for every packet if and only if the prefix is the whole field and the value fits the field |
| `MatchTranslation.PrefixIsLost` | src/afi/src/AfiCap.cpp:100-129 | 10.0.0.0/8 covers 10.1.2.3, the stored object does not |
| `MatchTranslation.SourcePortTestsZero` | src/afi/src/AfiCap.cpp:172-174 | a source-port field becomes a test for 0 under its mask |
| `MatchTranslation.SourcePortRightIff` | src/afi/src/AfiCap.cpp:172-174 | that is the requested meaning for every packet if and only if the request accepts port 0 and is no proper prefix |
| `MatchTranslation.EncodedReads` | test/controller/include/Utils.h:33-59 | the agent reads back the number that the controller encoded in 1, 2 or 4 bytes |
| `MatchTranslation.EncodedMeaning` | test/controller/include/Controller.h:136-164 | a ternary field encoded by the controller accepts a number if and only if it agrees with the value under the mask |
| `ControllerEncoding.TernaryField` | test/controller/include/Controller.h:136-164 | the shift loop with its loss beyond the type, and the two encoded strings |
| `ControllerEncoding.ControllerFieldAccepts` | test/controller/include/Controller.h:136-164 | the field built for width w accepts x if and only if x and the value have the same last w bits |
| `CapInstall.NamesInjective` | src/afi/src/AfiCap.cpp:216-325 | generated names are injective in (table, kind) for all table names |
| `CapInstall.AfiDevice.GetAfiObject` | src/afi/include/AfiDevice.h:81-85 | returns the object if there is one and otherwise leaves a null entry behind |
| `CapInstall.AfiDevice.BindCapEntry` | src/targets/brcm/brcm/src/BrcmCapEntry.cpp:35-59 | the three lookups, each only after the one before succeeded, and the binding recorded when all do |
| `CapInstall.AfiDevice.BindPlain` | src/targets/brcm/brcm/src/BrcmCap.cpp:31-74 | the lookups of the other object types |
| `CapInstall.AfiDevice.HandleDMObject` | src/afi/src/AfiDevice.cpp:27-57 | decode, create by type, insert, and bind unless in the pipeline stage, with the error outcomes |
| `CapInstall.AfiDevice.AddObjEntry` | src/afi/src/Afi.cpp:189-256 | the request's table and action looked up, children created and handled in order |
| `CapInstall.CreateChildJsonRes` | src/afi/src/AfiCap.cpp:62-328 | the match, action and entry objects in this order, or nothing when a field or parameter is unknown |
| `CapInstall.ActionMeans` | src/afi/src/AfiCap.cpp:232-279 | the action object carries VRF, class and CPU queue as the last parameters of those names say, and copies to the CPU exactly when a queue is given |
| `CapInstall.ActionFailsIff` | src/afi/src/AfiCap.cpp:235-240 | the action cannot be made if and only if some parameter id is unknown |
| `CapInstall.MessageArrives` | src/afi/src/AfiCap.cpp:48-55 | a message whose serialisation is shorter than the decode buffer survives base64 and parsing |
| `CapInstall.BindFindsNewest` | src/targets/brcm/brcm/src/BrcmCapEntry.cpp:35-59 | after the three insertions the lookups find these three objects, whatever the map held before |
| `CapInstall.EntryBindsItsOwn` | src/afi/src/Afi.cpp:229-253 | one whole request binds its own match and action to its table's CAP |
| `CapInstall.AddEntryKeeps` | src/afi/src/Afi.cpp:189-256 | a request, successful or not, changes no object except under its three generated names |
| `CapInstall.CapSurvivesIff` | src/afi/src/AfiCap.cpp:216-325 | another table's CAP can still be found after a request if and only if it is not named like one of the generated objects |
| `CapInstall.RunKeepsCaps` | src/afi/src/Afi.cpp:189-256 | over any run of requests every table's CAP stays |
| `CapInstall.EveryEntryBindsItsOwn` | src/afi/src/Afi.cpp:229-253 | after any run of requests, though names and ids are reused, the next entry binds its own objects |
| `CapInstall.BoundEntryMeansRequest` | src/afi/src/AfiCap.cpp:62-328 | after any run, the match object bound for a request accepts exactly the packets of that request, and its action object sets what the parameters say |
| `PipelineConfig.NullsAppearIff` | src/afi/src/Afi.cpp:229-253 | a request on a map without null entries leaves one if and only if its table and action are known and the table's name is not in the map |
| `PipelineConfig.MissingTableExample` | src/afi/src/Afi.cpp:229-234 | one request on an empty device leaves a null entry |
| `PipelineConfig.RunNullsIff` | src/afi/src/Afi.cpp:189-256 | over any run of requests the map stays free of null entries if and only if every known request names a table that was in the map at the start |
| `PipelineConfig.RequestCreates` | src/targets/brcm/brcm/src/BrcmDevice.cpp:36-48 | every object in the map keeps a type that the device can create, so no parent of an encap type is found |
| `PipelineConfig.BindAfiObjects` | src/afi/include/AfiDevice.h:87-94 | the iteration in the order of names over a map that grows while objects are bound ends, and aborts at the first null entry |
| `PipelineConfig.HandlePipelineConfig` | src/afi/src/Afi.cpp:58-73 | all objects created without binding, then all bound; nothing is bound when one cannot be created |
| `PipelineConfig.BindAbortsIff` | src/afi/include/AfiDevice.h:87-94 | binding everything aborts if and only if the map has a null entry or some object looks up a missing name that comes after its own in the order |
| `PipelineConfig.BeforeIff` | src/afi/include/AfiDevice.h:87-94 | the order of the iteration is that of dictionaries: at the first difference the shorter or smaller comes first |
| `PipelineConfig.MissingTableThenConfig` | src/afi/src/Afi.cpp:58-73 | after a request on a missing table every creatable configuration that does not define the table aborts |
| `Uint128.Uint128.AddAssign` | src/utils/include/uint128.h:40-46 | addition modulo 2^128, also when operand and receiver are the same object |
| `Uint128.Uint128.SubAssign` | src/utils/include/uint128.h:59-65 | subtraction modulo 2^128, also when operand and receiver are the same object |
| `Uint128.Uint128.Equals` | src/utils/include/uint128.h:78-80 | equality of the represented numbers |
| `Uint128.Uint128.Less` | src/utils/include/uint128.h:86-88 | the order of the represented numbers |
| `Uint128.Uint128.LessOrEqual` | src/utils/include/uint128.h:90-92 | the reflexive order of the represented numbers |
| `Uint128.AddSubUndo` | src/utils/include/uint128.h:40-65 | addition and subtraction undo each other in either order |
| `Uint128.PrintRoundTrip` | src/utils/src/uint128.cpp:45-53 | the printed text is `0x` and digits that parse to the same number |
| `HexDump.WriteRow` | src/utils/src/Utils.cpp:71-77 | the inner loop writes as many bytes as its count of free characters allows; behind a row break it overruns the buffer if and only if the row does not fit |
| `HexDump.WriteLine` | src/utils/src/Utils.cpp:70-83 | one turn of the outer loop: overrun, end, or the start of the next row |
| `HexDump.GetHex` | src/utils/src/Utils.cpp:47-85 | for every packet, buffer and positive row width: all writes stay in the buffer if and only if the dump fits or is cut in its first row where no break is attempted, and then the buffer holds the dump, cut if need be |
| `HexDump.DumpLength` | src/utils/src/Utils.cpp:47-85 | the exact length of a dump for every length and row width |
| `HexDump.GetRidOfSpaces` | src/utils/src/Utils.cpp:162-175 | in-place compaction is filtering out spaces and writes nothing behind the old terminator |
| `HexDump.HexStringToBinary` | src/utils/src/Utils.cpp:131-148 | all pairs of digits, or -1 if and only if they do not fit |
| `HexDump.HexPktStrToPkt` | src/utils/src/Utils.cpp:195-204 | the pairs of the text without its spaces |
| `HexDump.DumpReadsBack` | src/utils/src/Utils.cpp:47-204 | for every packet and row width, the dump without row breaks parses to the packet |
| `HexDump.ShiftedDigits` | src/utils/src/Utils.cpp:99-148 | digits read one place off give the same bytes if and only if all digits equal the one in front |
| `HexDump.DumpReadsAsIsIff` | src/utils/src/Utils.cpp:47-204 | exactly which dumps parse back without removing row breaks |

## Left out

- gRPC servers, sockets, thread start-up, command line, configuration, tracing and logging: input and output only.
- The AFT client and the Broadcom SDK calls: foreign libraries.
- The encodings of protocol buffers and JSON: an abstract inverse pair.
- The style checks of `cpplint.py`, the reports of `CheckBegin` and `CheckEnd`, `CleanseComments` and `previous_stack_top`: independent tests without shared state.
- The regular-expression engine: the few patterns needed are predicates.
- `_GetTextInside` on text that was joined with newlines is not compared with `CloseExpression`, which sees the lines without them.
- HexDump.GetHex: the row width is positive; with any other the loop does not end.
- Checksum.Csum: covers buffers of up to 65536 bytes; beyond that the signed accumulator may overflow, which C leaves undefined.
- IcmpEcho.EchoReply: the ICMP message is at most 65536 bytes, for the same reason.
- Hostpath.DeviceHPPacket.CreateTransmit: data sizes above 65527, for which the 16-bit total wraps round, are excluded.
- Hostpath.DeviceHPPacket.CreateReceive: the same.
- Hostpath.InjectL2Packet: frames above 65527 bytes, longer than the 16-bit length field can say, are excluded.
- Hostpath.SendPacketOut: the same, with the CPU header in front.
- Hostpath.PuntedDatagram: the same frames are excluded.
- Hostpath.LoopbackIs: the same frames are excluded.
- Hostpath.LoopbackReturnsFrame: the same frames are excluded.
- ControllerConnection.StreamChannel: the same payloads are excluded.
- MatchTranslation.ReadField: strings so short that the code reads beyond their terminator are excluded.
- MatchTranslation.AddField: the same strings are excluded.
- MatchTranslation.TranslateMatch: the same strings are excluded.
- CapInstall.CreateChildJsonRes: the same strings are excluded, among match fields and action parameters.
- MatchTranslation.TranslationPreservesMatching: the source port and proper LPM prefixes, for which it is false, have their own theorems; fields that the dispatch drops and fields given twice are excluded.
- HeaderViews.EntryTranslation: the same fields are excluded.
- CapInstall.BoundEntryMeansRequest: the same fields are excluded; which parts of the bound objects the hardware driver uses, and with which masks, is not modelled.
- The 64-bit branch of `uint2Str`, `AfiEncap` and `AfiTreeEncap` children, `addEntry` with its hard-coded table, and `addAfiTree`: they would add easy members.
- StreamProtocol: a stream's address is never reused.
- Builds with `NDEBUG`, where the asserts of `base64_decode` disappear.
- `Uint128` increment and decrement: the same carry as `+=` and `-=`.
- Code under `#if 0`, `SUD` and `SUD_T`.
