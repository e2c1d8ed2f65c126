# BusybootPreparation in Dafny

This repository's preparations get Busybox-style source trees ready for variability analysis. Two of them are modelled, together with the `java.lang.String` operations they rely on.

**FloridaPreparation** copies a source tree. In every `.c`, `.cpp` and `.h` file it rewrites the FLOrIDA annotations into C preprocessor conditionals:
- `//&begin[F]` and `//&Line[F]` become `#if defined(F)`;
- `//&end[F]` becomes `#endif // F`;
- a `Line[F]` is closed by a synthetic `#endif // F` after the next written line.

While it rewrites, it keeps a feature stack for `begin[]`/`end[]`, shared by all files of a run. It also keeps a per-file stack of native `#if` blocks that counts the FLOrIDA openings and closings inside each block. It logs warnings and errors when these disagree. Every other file is copied unchanged.

**PrepareBusybox** normalises every `.c` and `.h` file in the style of Busyfix, in two stages:
1. Backslash-continued lines are joined.
2. Each line outside comments has its `ENABLE_` and `IF_` macros rewritten into `#if defined CONFIG_…` conditions.

The project has five modules:
- `JavaString` (`java_string.dfy`): `startsWith`, `endsWith`, `contains`, `indexOf` with and without a start index, literal `replace`, `trim`, and `Integer.toString`.
- `Florida` (`florida.dfy`):
  - the datatypes (`CppBlock`, `Diagnostic`, `Machine`, `Directive`);
  - the specification of one condition, one line, one file and one tree walk, as functions;
  - the class `FloridaPreparation`, which has the Java class's fields `featureStack`, `closeLine`, `currentFile`, `currentLineNumber`, plus the log. Its methods are proved equal to those functions.
- `FloridaProperties` (`florida_properties.dfy`): what the translator promises, as lemmas over the specification.
- `PrepareBusybox` (`busybox.dfy`):
  - the reference definitions of joining and of each rewrite;
  - the imperative parts of the source as methods proved against them: the continuation loop, the paren-counting loop, and `normalizeIf`;
  - the directory walk of `normalizeDir` over a tree of directories and files.
- `BusyboxProperties` (`busybox_properties.dfy`): lemmas about the joining and the rewrites.

Points where the model follows the code rather than the documentation, or where the code has a surprising effect:
- `end[F]` with an empty feature stack is not a no-op. `LinkedList.pop` throws `NoSuchElementException`, which ends the file and the whole walk. The model has an explicit `NoSuchElement` / `Aborted` outcome. The lines written before the exception are kept, as closing the writer flushes them.
- The three patterns are matched case-sensitively: `BEGIN[F]` and `Begin[F]` are unknown conditions. The test `testsIgnoreCase` reads data that is not part of this model, so nothing in it is taken as evidence otherwise.
- `closeLine` is a field of the object and is not reset per file. A `Line[F]` on a file's last line therefore puts its `#endif // F` into the next source file, after that file's first line.
- The error-marker line of an unknown condition is still handed to `onFloridaBlock`. It starts with `//`, so nothing is counted.
- The block stack is local to a file, and its leftover blocks are dropped at the end of the file without any check.
- Classification removes only `' '` characters (`trimmed.replace(" ", "")`), not tabs. Trimming follows `String.trim`, which removes every character `<= ' '`.
- `normalizeIf` counts parentheses from the `(` after the macro. When the line has no matching `)`, it takes the last character as the closing one.
- `normalizeEnableInline` (line 431) assigns `indexOfComma` when a `)` comes first. This is modelled as written in `InlinePosition`: the block then lands at the first `,` after the `)`, or at the end of the line (`InlinePositionParenthesisFirst`). The `StringIndexOutOfBoundsException` retry of lines 408-416 amounts to "insert at the index if it lies in the text, append otherwise" (`InsertOrAppend`).
- Line 305's `"\\t"` is the two characters backslash and `t`, not a tab.

## Model

| member | source | states |
|---|---|---|
| Florida.MatchBracketed | src/net/ssehub/kernel_haven/busyboot/FloridaPreparation.java:42-49 | a full match of `prefix(\w+)]` yields a group that is a non-empty word, and the condition is exactly prefix, group, `]` |
| Florida.Parse | src/net/ssehub/kernel_haven/busyboot/FloridaPreparation.java:296-320 | the patterns are tried in the order end, begin, Line; an End/Begin/Line result carries a word F with the condition exactly `end[F]`/`begin[F]`/`Line[F]` |
| FloridaProperties.MatchBracketedComplete | src/net/ssehub/kernel_haven/busyboot/FloridaPreparation.java:42-49 | conversely, `prefix F ]` with a word F always matches, with group F |
| FloridaProperties.ParseBegin | src/net/ssehub/kernel_haven/busyboot/FloridaPreparation.java:310-313 | `begin[F]` is recognised as a begin annotation of F for every word F |
| FloridaProperties.ParseEnd | src/net/ssehub/kernel_haven/busyboot/FloridaPreparation.java:300-301 | `end[F]` is recognised as an end annotation of F for every word F |
| FloridaProperties.ParseLine | src/net/ssehub/kernel_haven/busyboot/FloridaPreparation.java:315-316 | `Line[F]` is recognised as a line annotation of F for every word F |
| FloridaProperties.ParseUnknownIff | src/net/ssehub/kernel_haven/busyboot/FloridaPreparation.java:300-323 | a condition is unknown if and only if it equals none of `end[F]`, `begin[F]`, `Line[F]` for any word F |
| FloridaProperties.UnknownByFirstChar | src/net/ssehub/kernel_haven/busyboot/FloridaPreparation.java:42-49 | matching is anchored: a condition whose first character starts no keyword is unknown |
| FloridaProperties.ParseIsCaseSensitive | src/net/ssehub/kernel_haven/busyboot/FloridaPreparation.java:42-49 | for every text F, `BEGIN[F]`, `Begin[F]`, `END[F]` and `line[F]` are unknown conditions: the keywords are matched case-sensitively |
| Florida.ReplacementOf | src/net/ssehub/kernel_haven/busyboot/FloridaPreparation.java:293-326 | getReplacement throws exactly when the condition is `end[..]` and the feature stack is empty; otherwise it never touches the block stack or the written lines |
| FloridaProperties.BeginReplacement | src/net/ssehub/kernel_haven/busyboot/FloridaPreparation.java:310-313 | `begin[F]` pushes F, changes nothing else, and yields exactly `#if defined(F)` |
| FloridaProperties.EndReplacement | src/net/ssehub/kernel_haven/busyboot/FloridaPreparation.java:300-308 | `end[F]` pops the top G and yields `#endif // F` even when G differs; it logs exactly one warning, with the file, line and `Got //&end[F], expected //&end[G]`, exactly when F differs from G |
| FloridaProperties.EndOnEmptyStackThrows | src/net/ssehub/kernel_haven/busyboot/FloridaPreparation.java:302 | `end[F]` with no open `begin[]` throws, as `LinkedList.pop` on an empty deque does |
| FloridaProperties.LineReplacement | src/net/ssehub/kernel_haven/busyboot/FloridaPreparation.java:315-318 | `Line[F]` leaves the feature stack alone, records F as the pending close, and yields `#if defined(F)` |
| FloridaProperties.UnknownReplacement | src/net/ssehub/kernel_haven/busyboot/FloridaPreparation.java:294 | any other condition yields `// Error replacing FLOrIDA condition: //&` plus the condition and logs exactly one error `Unknown FLOrIDA condition in <file> in line <n>:` with the condition; nothing else changes |
| Florida.PopResult | src/net/ssehub/kernel_haven/busyboot/FloridaPreparation.java:183-195 | popBlock changes only the block stack and the log: on an empty stack nothing at all, otherwise it drops the top and warns exactly when the top's opening and closing counts differ |
| FloridaProperties.PopWarnsIffUnbalanced | src/net/ssehub/kernel_haven/busyboot/FloridaPreparation.java:188-192 | the pop logs `CppBlock in <file> in line <lineStart> has <o> opening and <c> closing FLOrIDA statements` if and only if o differs from c |
| Florida.FloridaCount | src/net/ssehub/kernel_haven/busyboot/FloridaPreparation.java:203-217 | onFloridaBlock changes only the block stack and the log, never the stack's depth, the blocks below the top, or the top's start line |
| FloridaProperties.CountsOpening | src/net/ssehub/kernel_haven/busyboot/FloridaPreparation.java:206-207 | an `#if` replacement adds one opening to the top block and logs nothing |
| FloridaProperties.CountsClosing | src/net/ssehub/kernel_haven/busyboot/FloridaPreparation.java:208-214 | an `#endif` replacement adds one closing to the top block and warns `... has a closing FLOrIDA statement without a prior opening one` exactly when closings now outnumber openings |
| FloridaProperties.CountsNothingOutsideBlocks | src/net/ssehub/kernel_haven/busyboot/FloridaPreparation.java:204-205 | with no open native block, onFloridaBlock changes nothing |
| FloridaProperties.ErrorMarkerNotCounted | src/net/ssehub/kernel_haven/busyboot/FloridaPreparation.java:247 | the error-marker line handed to onFloridaBlock changes nothing |
| FloridaProperties.FloridaCountKeepsShape | src/net/ssehub/kernel_haven/busyboot/FloridaPreparation.java:203-217 | counting keeps the number of blocks and every block's start line |
| Florida.FloridaCountIgnoresOut | src/net/ssehub/kernel_haven/busyboot/FloridaPreparation.java:203-217 | onFloridaBlock is independent of the lines written so far and leaves them as they are |
| Florida.NativeDirectiveIgnoresOut | src/net/ssehub/kernel_haven/busyboot/FloridaPreparation.java:249-266 | the native-directive bookkeeping is independent of the lines written so far |
| Florida.Translate | src/net/ssehub/kernel_haven/busyboot/FloridaPreparation.java:243-266 | translating a line writes nothing; a line that does not start with `//&` once trimmed is kept byte for byte, and the feature stack and pending close stay as they were |
| Florida.TranslateIgnoresOut | src/net/ssehub/kernel_haven/busyboot/FloridaPreparation.java:243-266 | translating a line throws, or translates, regardless of the lines written so far, and gives the same line and state |
| Florida.RunAbortedStays | src/net/ssehub/kernel_haven/busyboot/FloridaPreparation.java:237-283 | once a line has thrown, no later line is read and the outcome stays the same |
| FloridaProperties.PlainLineWrittenAsRead | src/net/ssehub/kernel_haven/busyboot/FloridaPreparation.java:245-276 | every line that is not an annotation, `#` lines included, is written exactly as read, followed only by the pending close, if any; the feature stack is kept and nothing is pending afterwards; for a line that does not start with `#`, the pending close is counted as a FLOrIDA closing on the top native block, with its warning |
| FloridaProperties.AnnotationLineReplaced | src/net/ssehub/kernel_haven/busyboot/FloridaPreparation.java:240-276 | an annotation line throws exactly for `end[]` on an empty feature stack; otherwise it is replaced by the grammar's text plus the pending close, `Line[F]` leaves F pending, the feature stack is pushed, popped or kept by the kind, and the block stack keeps its depth and start lines |
| FloridaProperties.DirectiveIsNotAnnotation | src/net/ssehub/kernel_haven/busyboot/FloridaPreparation.java:245-249 | a line that starts with `#` once trimmed is never taken for an annotation |
| FloridaProperties.NativeIfOpensBlock | src/net/ssehub/kernel_haven/busyboot/FloridaPreparation.java:252-254 | a native `#if*` line pushes a block starting on its line number with no counts, and is written unchanged followed by the pending close, if any, which is then counted as a closing on that new block |
| FloridaProperties.NativeElseReplacesBlock | src/net/ssehub/kernel_haven/busyboot/FloridaPreparation.java:256-259 | a native `#el*` line pops the top block, with popBlock's warning, then pushes a new one on its line, and is written unchanged followed by the pending close, if any, which is then counted on the new block |
| FloridaProperties.NativeEndifClosesBlock | src/net/ssehub/kernel_haven/busyboot/FloridaPreparation.java:261-263 | a native `#endif` line pops the top block, with popBlock's warning, and is written unchanged followed by the pending close, if any, which is then counted on the block below |
| FloridaProperties.StrayEndifIsSilent | src/net/ssehub/kernel_haven/busyboot/FloridaPreparation.java:183-184 | an `#endif` with no open block is written unchanged, followed by the pending close, if any, and changes neither the blocks nor the log |
| FloridaProperties.LineClosedAfterNextLine | src/net/ssehub/kernel_haven/busyboot/FloridaPreparation.java:240-241 | `//&Line[F]` writes `#if defined(F)` and leaves F pending; the next, plain, line is written unchanged and immediately followed by `#endif // F`, nothing is pending after it, and when that line does not start with `#` the `#endif // F` is counted as a closing on the top native block |
| FloridaProperties.PendingCloseCounted | src/net/ssehub/kernel_haven/busyboot/FloridaPreparation.java:271-276 | the pending close is written as `#endif // F` after the line and handed to onFloridaBlock: it adds a closing to the top native block and warns when closings then outnumber openings; with nothing pending or no open block, blocks and log are unchanged |
| FloridaProperties.DirectiveThenClose | src/net/ssehub/kernel_haven/busyboot/FloridaPreparation.java:249-276 | a native directive line is first entered into the block stack, then written, then followed by the pending close, which is counted on the block stack the directive left |
| FloridaProperties.LineAnnotationStep | src/net/ssehub/kernel_haven/busyboot/FloridaPreparation.java:240-247 | `//&Line[F]` is written as `#if defined(F)` after nothing but the previous pending close, leaves F pending, and keeps the feature stack |
| FloridaProperties.LineThenNativeIf | src/net/ssehub/kernel_haven/busyboot/FloridaPreparation.java:252-254 | `//&Line[F]` followed by a native `#if`: the `#if` opens a block on its line, the synthetic `#endif // F` after it counts as a closing in that block, and the warning about a closing without a prior opening is logged |
| FloridaProperties.StepExtendsOut | src/net/ssehub/kernel_haven/busyboot/FloridaPreparation.java:268-276 | a line only appends to what was written |
| FloridaProperties.RunPrefixWritten | src/net/ssehub/kernel_haven/busyboot/FloridaPreparation.java:237-277 | what the first k lines wrote is a prefix of what the whole file writes |
| FloridaProperties.FileWithoutAnnotationsCopied | src/net/ssehub/kernel_haven/busyboot/FloridaPreparation.java:237-277 | a file without annotations, with no close pending, reaches its end, is written exactly as read, and leaves the feature stack alone; when every open native block is balanced it logs nothing and leaves every block balanced |
| FloridaProperties.PlainLineKeepsBalance | src/net/ssehub/kernel_haven/busyboot/FloridaPreparation.java:183-195 | a line that is not an annotation, with no close pending, keeps the log and keeps every native block balanced: `#if` opens a balanced block, and `#el*` and `#endif` pop only balanced ones, which popBlock does not warn about |
| FloridaProperties.BeginLineStep | src/net/ssehub/kernel_haven/busyboot/FloridaPreparation.java:310-313 | the line `//&begin[F]`, with no close pending, pushes F, writes `#if defined(F)`, counts one opening on the innermost native block and logs nothing |
| FloridaProperties.EndLineStep | src/net/ssehub/kernel_haven/busyboot/FloridaPreparation.java:300-308 | the line `//&end[F]` with F on top of the feature stack and no close pending pops F, writes `#endif // F`, counts one closing, and logs nothing while the innermost block had fewer closings than openings |
| FloridaProperties.TextLinesWritten | src/net/ssehub/kernel_haven/busyboot/FloridaPreparation.java:237-276 | lines that are neither annotations nor directives, read with no close pending, are only appended to what is written |
| FloridaProperties.OpenedThenClosed | src/net/ssehub/kernel_haven/busyboot/FloridaPreparation.java:203-217 | one opening and then one closing on balanced blocks never lets the closings outnumber the openings, and the blocks are balanced again |
| FloridaProperties.BeginEndPairLogsNothing | src/net/ssehub/kernel_haven/busyboot/FloridaPreparation.java:237-276 | `//&begin[F]`, lines of plain text, `//&end[F]`, on balanced blocks with no close pending, logs nothing; the two annotations become `#if defined(F)` and `#endif // F`, the text is kept, and the feature stack and blocks are as balanced as before |
| FloridaProperties.NestedFileLogsNothing | src/net/ssehub/kernel_haven/busyboot/FloridaPreparation.java:227-284 | a source file that is just `//&begin[F]`, plain text and `//&end[F]` is transformed without a single diagnostic and keeps the feature stack it started with |
| FloridaProperties.LineOnLastLineStaysPending | src/net/ssehub/kernel_haven/busyboot/FloridaPreparation.java:240-241 | a `Line[F]` on a file's last line is still pending when the file ends |
| FloridaProperties.PendingCloseAfterFirstLine | src/net/ssehub/kernel_haven/busyboot/FloridaPreparation.java:271-276 | with F pending when a file starts, the file begins with its first line and then `#endif // F` |
| Florida.FloridaPreparation.constructor | src/net/ssehub/kernel_haven/busyboot/FloridaPreparation.java:51-63 | a new preparation has nothing pending, no current file, line number 0 and an empty log; its feature stack is empty, where Java leaves it `null` until `prepare` sets a new list |
| Florida.FloridaPreparation.GetReplacement | src/net/ssehub/kernel_haven/busyboot/FloridaPreparation.java:293-326 | the method's replacement and its new feature stack, pending close and log are those of ReplacementOf; when it throws, the fields are left as they were |
| Florida.FloridaPreparation.PopBlock | src/net/ssehub/kernel_haven/busyboot/FloridaPreparation.java:183-195 | the remaining blocks and the log are those of PopResult |
| Florida.FloridaPreparation.OnFloridaBlock | src/net/ssehub/kernel_haven/busyboot/FloridaPreparation.java:203-217 | the counted blocks and the log are those of FloridaCount |
| Florida.FloridaPreparation.TranslateLine | src/net/ssehub/kernel_haven/busyboot/FloridaPreparation.java:243-266 | throws exactly when Translate does, and then leaves the fields alone; otherwise the blocks, the line to write and the fields are those of Translate |
| Florida.FloridaPreparation.CopyLine | src/net/ssehub/kernel_haven/busyboot/FloridaPreparation.java:238-276 | one iteration sets the line number and leaves fields, blocks and written lines exactly as Step says |
| Florida.FloridaPreparation.CopySourceFile | src/net/ssehub/kernel_haven/busyboot/FloridaPreparation.java:227-284 | the written lines, whether the loop reached the end, and the new feature stack, pending close and log are those of TransformFile on the fields' old values; afterwards there is no current file and the line number is -1 |
| Florida.FloridaPreparation.Copy | src/net/ssehub/kernel_haven/busyboot/FloridaPreparation.java:137-153 | the files written, whether the walk completed, and the fields are those of CopyAll from the old fields; after a walk over a source file there is no current file and the line number is -1, and otherwise both keep their old values |
| Florida.FloridaPreparation.Prepare | src/net/ssehub/kernel_haven/busyboot/FloridaPreparation.java:106-126 | prepare is the walk from a fresh feature stack, while the pending close and the log carry over from before; the current file and line number are as after Copy |
| FloridaProperties.CopyFromShape | src/net/ssehub/kernel_haven/busyboot/FloridaPreparation.java:137-153 | for any file transform, the walk writes files under their own names and in order, copies every non-source file unchanged, writes all files unless an exception ends it, and an exception comes from a source file, the last written |
| FloridaProperties.CopyShape | src/net/ssehub/kernel_haven/busyboot/FloridaPreparation.java:146-150 | the same for the walk with copySourceFile: only `.c`, `.cpp` and `.h` files are transformed, all others copied verbatim |
| FloridaProperties.CopyFromWithoutSources | src/net/ssehub/kernel_haven/busyboot/FloridaPreparation.java:146-150 | from any point on, a tree without source files is copied exactly and the state is untouched |
| FloridaProperties.CopyWithoutSourcesIsIdentity | src/net/ssehub/kernel_haven/busyboot/FloridaPreparation.java:146-150 | a tree without `.c`, `.cpp` or `.h` files is copied exactly, with no change of state |
| FloridaProperties.CopyTwoSourceFiles | src/net/ssehub/kernel_haven/busyboot/FloridaPreparation.java:120 | the second of two source files is transformed from the state the first left, so the feature stack and pending close are shared across files |
| FloridaProperties.CloseLineLeaksIntoNextFile | src/net/ssehub/kernel_haven/busyboot/FloridaPreparation.java:63 | a `Line[F]` on the last line of one source file puts `#endif // F` after the first line of the next source file |
| PrepareBusybox.StripContinuation | src/net/ssehub/kernel_haven/busyboot/PrepareBusybox.java:254 | a continued line is its stripped form plus the backslash; any other line is kept |
| PrepareBusybox.ConcatenateRun | src/net/ssehub/kernel_haven/busyboot/PrepareBusybox.java:250-257 | the inner loop yields the lines start to end concatenated, each without its continuation backslash |
| PrepareBusybox.SubstituteLineContinuation | src/net/ssehub/kernel_haven/busyboot/PrepareBusybox.java:234-280 | the start/end loop returns exactly the reference joining Joined of its input |
| PrepareBusybox.JoinAtIsJoinFrom | src/net/ssehub/kernel_haven/busyboot/PrepareBusybox.java:239-277 | the index-based reading of the joining that the loop follows agrees with the reference JoinFrom |
| BusyboxProperties.JoinedUnchanged | src/net/ssehub/kernel_haven/busyboot/PrepareBusybox.java:239-266 | without a line ending in `\`, the input list is returned unchanged |
| BusyboxProperties.JoinFromPlain | src/net/ssehub/kernel_haven/busyboot/PrepareBusybox.java:261-265 | lines without a trailing backslash are passed through one by one |
| BusyboxProperties.JoinedRun | src/net/ssehub/kernel_haven/busyboot/PrepareBusybox.java:240-259 | a maximal run of continued lines followed by a plain line becomes one line, the run without its backslashes followed by the last line intact, and the rest is joined on its own |
| BusyboxProperties.JoinFromRun | src/net/ssehub/kernel_haven/busyboot/PrepareBusybox.java:240-245 | a run of continued lines only accumulates its stripped text |
| BusyboxProperties.JoinedTrailingRun | src/net/ssehub/kernel_haven/busyboot/PrepareBusybox.java:268-277 | a run of continued lines at the end of the input is one final line with every trailing backslash removed |
| BusyboxProperties.JoinedNoLonger | src/net/ssehub/kernel_haven/busyboot/PrepareBusybox.java:234-280 | the output has at most as many lines as the input |
| BusyboxProperties.JoinFromNoLonger | src/net/ssehub/kernel_haven/busyboot/PrepareBusybox.java:239-277 | the joining from any point emits at most one line per input line, plus the open run |
| BusyboxProperties.JoinedKeepsText | src/net/ssehub/kernel_haven/busyboot/PrepareBusybox.java:234-280 | the output's concatenation is the input's concatenation with only the continuation backslashes removed |
| BusyboxProperties.FlattenJoinFrom | src/net/ssehub/kernel_haven/busyboot/PrepareBusybox.java:239-277 | the same from any point, after the pending text |
| BusyboxProperties.UnfoldedCons | src/net/ssehub/kernel_haven/busyboot/PrepareBusybox.java:251-257 | the text of a run is its first line's stripped text followed by the rest's |
| BusyboxProperties.NormalizeLineKeepsDirectives | src/net/ssehub/kernel_haven/busyboot/PrepareBusybox.java:292-298 | an empty line, and a line containing `#undef`, `#define`, `# define` or `# undef`, is returned unchanged |
| BusyboxProperties.NormalizeLineKeepsLineComment | src/net/ssehub/kernel_haven/busyboot/PrepareBusybox.java:301-304 | everything from the first `//` on is kept verbatim and only the strictly shorter part before it is normalised |
| BusyboxProperties.OpenBlockCommentUnchanged | src/net/ssehub/kernel_haven/busyboot/PrepareBusybox.java:305-311 | a line that starts in a block comment and has no `*/` is returned unchanged |
| BusyboxProperties.NormalizeLineWithoutMacros | src/net/ssehub/kernel_haven/busyboot/PrepareBusybox.java:289-333 | normalizeLine is the identity on any line with neither `ENABLE_` nor `IF_`, through every comment branch |
| BusyboxProperties.BlockCommentsWithoutMacros | src/net/ssehub/kernel_haven/busyboot/PrepareBusybox.java:305-332 | the same for the block-comment part of normalizeLine |
| BusyboxProperties.RewriteMacrosWithoutMacros | src/net/ssehub/kernel_haven/busyboot/PrepareBusybox.java:324-332 | the four rewrites leave a line without `ENABLE_` and `IF_` alone |
| BusyboxProperties.NormalizedFileWithoutMacros | src/net/ssehub/kernel_haven/busyboot/PrepareBusybox.java:196-222 | a file without continuations or macros is written back as it was |
| BusyboxProperties.NormalizedDirKeepsTree | src/net/ssehub/kernel_haven/busyboot/PrepareBusybox.java:176-186 | normalizeDir adds, drops and renames no file or directory |
| BusyboxProperties.NormalizedDirWithoutMacros | src/net/ssehub/kernel_haven/busyboot/PrepareBusybox.java:176-222 | a tree whose `.c` and `.h` files hold no continuations and no `ENABLE_` or `IF_` is left exactly as it was, whatever its other files hold |
| BusyboxProperties.DefinedEnableMacroRewrite | src/net/ssehub/kernel_haven/busyboot/PrepareBusybox.java:358-360 | normalizeDefinedEnableMacro keeps the length, is the identity without `defined ENABLE_`, and otherwise rewrites the first occurrence to `defined CONFIG_` and continues after it |
| BusyboxProperties.GuardedRewriteGrows | src/net/ssehub/kernel_haven/busyboot/PrepareBusybox.java:370-387 | each `if (contains) replace` statement of normalizeEnableMacro lengthens the line when its trigger occurs and otherwise leaves it as it is |
| BusyboxProperties.EnableMacroWithoutTriggers | src/net/ssehub/kernel_haven/busyboot/PrepareBusybox.java:369-390 | normalizeEnableMacro is the identity on every line that holds none of `if ENABLE_`, `if !ENABLE_`, `|| ENABLE_`, `&& ENABLE_`, `|| !ENABLE_`, `&& !ENABLE_` |
| BusyboxProperties.EnableMacroChangesIffTriggered | src/net/ssehub/kernel_haven/busyboot/PrepareBusybox.java:369-390 | normalizeEnableMacro never shortens a line, and changes it if and only if one of its six triggers occurs in it |
| BusyboxProperties.EnableMacroWithoutEnable | src/net/ssehub/kernel_haven/busyboot/PrepareBusybox.java:369-390 | a line without `ENABLE_` holds none of the six triggers, so normalizeEnableMacro returns it unchanged |
| PrepareBusybox.InsertOrAppend | src/net/ssehub/kernel_haven/busyboot/PrepareBusybox.java:406-418 | the insert (or the append it falls back on) adds exactly the inserted text's length |
| BusyboxProperties.InsertedAt | src/net/ssehub/kernel_haven/busyboot/PrepareBusybox.java:406-438 | the block is inserted whole at some position of the text, the end included |
| BusyboxProperties.InlinePositionParenthesisFirst | src/net/ssehub/kernel_haven/busyboot/PrepareBusybox.java:422-438 | when a `)` follows the macro before any ` ` or `,`, line 431 puts the block at the first `,` after that `)`, or appends it when there is none; never at the `)` itself |
| BusyboxProperties.EnableInlineInsertsBlock | src/net/ssehub/kernel_haven/busyboot/PrepareBusybox.java:399-442 | normalizeEnableInline is the identity on lines containing `_ENABLE_` or `#if` or lacking `ENABLE_`; otherwise it is the `ENABLE_`-replaced line with `\n1\n#else\n0\n#endif\n` inserted at one position |
| PrepareBusybox.ScanClose | src/net/ssehub/kernel_haven/busyboot/PrepareBusybox.java:467-477 | the scan finds the first `)` at which the depth would drop below zero, or -1 if there is none |
| PrepareBusybox.ClosingIndex | src/net/ssehub/kernel_haven/busyboot/PrepareBusybox.java:461-477 | the closing index lies after the opening one, or is the line's last index |
| PrepareBusybox.FindClosingParenthesis | src/net/ssehub/kernel_haven/busyboot/PrepareBusybox.java:461-477 | the paren-counting loop over the characters returns ClosingIndex |
| PrepareBusybox.ToCharArray | src/net/ssehub/kernel_haven/busyboot/PrepareBusybox.java:465 | a new array holding the line's characters |
| PrepareBusybox.SplitArgument | src/net/ssehub/kernel_haven/busyboot/PrepareBusybox.java:459-484 | the head, argument and init text the method cuts are SplitAtArgument's |
| PrepareBusybox.NormalizeIf | src/net/ssehub/kernel_haven/busyboot/PrepareBusybox.java:451-497 | the method returns IfNormalized of its line |
| BusyboxProperties.IfNormalizedShape | src/net/ssehub/kernel_haven/busyboot/PrepareBusybox.java:451-497 | normalizeIf is the identity without `IF_`; otherwise the result ends with `\n#endif` and the init text, which is a line break plus the text after the argument's closing `)` (the first `)` that closes the `(` found after the `IF_`, or the last character when none does) when the line contains `(` and `)` and a `(` follows the `IF_`, and empty otherwise: `f(x) IF_Y` ends in `\n#endif` alone |
| BusyboxProperties.IfNormalizedEnds | src/net/ssehub/kernel_haven/busyboot/PrepareBusybox.java:491-495 | the result on a line with `IF_` ends with `\n#endif` and the cut's init text |
| BusyboxProperties.MatchingParenthesis | src/net/ssehub/kernel_haven/busyboot/PrepareBusybox.java:467-477 | for a balanced argument followed by `)`, the loop stops exactly at that `)` |
| BusyboxProperties.BalanceOfEqualText | src/net/ssehub/kernel_haven/busyboot/PrepareBusybox.java:467-477 | the depth count depends only on the characters counted |
| BusyboxProperties.BalanceSnoc | src/net/ssehub/kernel_haven/busyboot/PrepareBusybox.java:467-477 | the depth count advances one character at a time |
| BusyboxProperties.MacroOccursOnce | src/net/ssehub/kernel_haven/busyboot/PrepareBusybox.java:460 | in `pre IF_ name`, with no `IF_` in either part, the macro's `IF_` is the only one |
| BusyboxProperties.MacroFound | src/net/ssehub/kernel_haven/busyboot/PrepareBusybox.java:460 | `indexOf("IF_")` on a call line finds the macro |
| BusyboxProperties.ArgumentOpens | src/net/ssehub/kernel_haven/busyboot/PrepareBusybox.java:460 | the first `(` after the macro is the one behind its name |
| BusyboxProperties.ArgumentAt | src/net/ssehub/kernel_haven/busyboot/PrepareBusybox.java:459-484 | with the opening found and a balanced argument up to c, the line is cut at the opening and at c |
| BusyboxProperties.MacroCallSplit | src/net/ssehub/kernel_haven/busyboot/PrepareBusybox.java:459-484 | a call line `pre IF_name(arg) post` is cut into `pre IF_name`, `(arg` and a line break plus `post` |
| BusyboxProperties.IfGuardOfNotMacro | src/net/ssehub/kernel_haven/busyboot/PrepareBusybox.java:485-486 | `IF_NOT_` takes precedence: `IF_NOT_X` becomes `\n#if !defined CONFIG_X` |
| BusyboxProperties.IfGuardOfMacro | src/net/ssehub/kernel_haven/busyboot/PrepareBusybox.java:487-488 | any other `IF_X` becomes `\n#if defined CONFIG_X` |
| BusyboxProperties.IfMacroCall | src/net/ssehub/kernel_haven/busyboot/PrepareBusybox.java:451-497 | a call `IF_X(arg)` with balanced parentheses becomes the guard, `arg` and `#endif` on lines of their own, with what followed the call on a line after them |
| JavaString.Search | src/net/ssehub/kernel_haven/busyboot/PrepareBusybox.java:302 | the search finds the first occurrence at or after the start, or -1 when there is none |
| JavaString.IndexOfFrom | src/net/ssehub/kernel_haven/busyboot/PrepareBusybox.java:460 | `indexOf(p, from)` is an occurrence at or after `from` with none before it, or -1; a negative `from` counts from 0 |
| JavaString.IndexOf | src/net/ssehub/kernel_haven/busyboot/PrepareBusybox.java:302 | `indexOf(p)` is the first occurrence, and -1 exactly when the string does not contain p |
| JavaString.IndexOfFromIs | src/net/ssehub/kernel_haven/busyboot/PrepareBusybox.java:423-425 | an occurrence at k, with none between `from` and k, is what `indexOf(p, from)` returns |
| JavaString.IndexOfIs | src/net/ssehub/kernel_haven/busyboot/PrepareBusybox.java:302 | an occurrence at k, with none before it, is what `indexOf(p)` returns |
| JavaString.ReplaceAbsent | src/net/ssehub/kernel_haven/busyboot/PrepareBusybox.java:359 | replace changes nothing when the target does not occur |
| JavaString.ReplaceFirst | src/net/ssehub/kernel_haven/busyboot/PrepareBusybox.java:359 | replace rewrites the first occurrence and continues after it, non-overlapping, left to right |
| JavaString.ReplaceAfterPlain | src/net/ssehub/kernel_haven/busyboot/PrepareBusybox.java:359 | replace passes over text in which no occurrence starts |
| JavaString.ReplaceKeepsLength | src/net/ssehub/kernel_haven/busyboot/PrepareBusybox.java:359 | replacing by a text of the target's length keeps the length |
| JavaString.ContainsOfSlice | src/net/ssehub/kernel_haven/busyboot/PrepareBusybox.java:303 | what a substring contains, the string contains |
| JavaString.ContainsPart | src/net/ssehub/kernel_haven/busyboot/PrepareBusybox.java:401-404 | containing a text means containing each of its parts |
| JavaString.Trim | src/net/ssehub/kernel_haven/busyboot/FloridaPreparation.java:243 | `trim` is the slice from the first to the last character above `' '`; the result is empty exactly when every character is `<= ' '` |
| JavaString.SkipBlanks | src/net/ssehub/kernel_haven/busyboot/FloridaPreparation.java:243 | the first character above `' '` at or after i, or the end |
| JavaString.DropTrailingBlanks | src/net/ssehub/kernel_haven/busyboot/FloridaPreparation.java:243 | the end of the slice once trailing characters `<= ' '` are dropped |
| JavaString.TrimUnpadded | src/net/ssehub/kernel_haven/busyboot/FloridaPreparation.java:243 | a string with visible first and last characters is its own trim |
| JavaString.TrimIndented | src/net/ssehub/kernel_haven/busyboot/FloridaPreparation.java:243 | indentation of spaces or tabs is removed by trim |
| JavaString.NatToString | src/net/ssehub/kernel_haven/busyboot/FloridaPreparation.java:189-191 | a count is rendered as a non-empty string of decimal digits, which starts with `0` only for zero |
| JavaString.IntToString | src/net/ssehub/kernel_haven/busyboot/FloridaPreparation.java:304-305 | a line number is rendered non-empty, with a leading minus sign exactly when it is negative |
| JavaString.NatToStringValue | src/net/ssehub/kernel_haven/busyboot/FloridaPreparation.java:189-191 | the digits written for a count read back, most significant first, as that count |
| JavaString.IntToStringValue | src/net/ssehub/kernel_haven/busyboot/FloridaPreparation.java:304-305 | the text written for a line number reads back, sign included, as that number |
| JavaString.IntToStringInjective | src/net/ssehub/kernel_haven/busyboot/FloridaPreparation.java:304-305 | distinct line numbers are written as distinct texts |
| JavaString.ReplaceGrows | src/net/ssehub/kernel_haven/busyboot/PrepareBusybox.java:370-387 | replacing by a longer text never shortens a string, and lengthens it when the target occurs |

## Left out

- File system work: the directory listing of `copy` and `normalizeDir`, `Util.clearFolder`, `Util.copyFile`, `LineNumberReader`, `FileWriter` and the read/delete/write of `normalizeFile`. For FloridaPreparation a tree is a list of (path, lines) entries in the order the walk visits them; for PrepareBusybox it is a `Node` of directories and files. A file's lines come already split. Each written line stands for the line plus `"\n"`.
- The order in which `listFiles` returns entries, and whether a directory entry's files come before its siblings. The walk takes the order it is given.
- `Logger` internals: timestamps, levels as text, targets. The log is an ordered list of (level, lines) entries, one line per argument of the call.
- Debug messages are not recorded: the `logDebug` calls of `prepare` (FloridaPreparation.java:109, 123-124) are left out, and the log holds only the warnings and errors the preparation emits.
- Florida.FloridaPreparation.constructor: Java leaves `featureStack` `null` until `prepare` creates a new list (FloridaPreparation.java:57-58, 120); the model starts it empty. Nothing else reads it, since `copy`, `copySourceFile` and `getReplacement` are private and reached only from `prepare`.
- Strings are sequences of Unicode characters, not Java's UTF-16 text read with the platform's default encoding. No result depends on it: every match, `trim` and split compares ASCII characters only.
- `FloridaPreparation.run`, `AbstractBusybootPreparation` (`copyOriginal`, `makeDummyMakefile`, `findFilesByName`, `replaceInFile`), `PrepareCoreboot`, the `make` runs of PrepareBusybox, settings and `Util.isNestedInDirectory`. These are configuration, process execution and file I/O around the core.
- Java `int` overflow of line numbers and counters. These are unbounded here; a file would need more than 2^31 lines or annotations.
- The data files read by the test classes are not part of this model. Expected outputs are taken only from what the tests state in their text.
- `TranslateLine`, `CopyLine`, `ConcatenateRun`, `SplitArgument` and `ToCharArray` are parts of `copySourceFile`, `substituteLineContinuation` and `normalizeIf` written as methods of their own. Apart from one merge, the loops and statements are the source's: `ConcatenateRun` is a single loop for the two inner loops of lines 251-257 (a run followed by a plain line) and lines 271-275 (a run at the end of the file). Its flag `stripLast` says whether the run's last line also loses its backslash, as only in the second loop.
- The tree walk's specification `CopyFrom` takes the file transform as a parameter. The lemmas about the shape of the walk hold for any transform, and `CopyAll` fixes it to `TransformFile`.
- JavaString.Replace: defined for non-empty targets only, the only ones either preparation passes. Java's `replace("", x)`, which inserts x between all characters, is not modelled.
- The two name filters are predicates: `IsNormalizedFileName` (`normalizeDir`'s `.h`/`.c` test), used by `NormalizedDir`, and `IsSkippedFileName` (`normalizeFile`'s `unicode`/`.fnt` test), used by `NormalizedFile`. They have no lemma of their own, since they are plain `endsWith` / `contains` tests.
- `listFiles` returning `null` for a directory that cannot be read, which `normalizeDir` skips: a `Node` directory always has its list of children.
