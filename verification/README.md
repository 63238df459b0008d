# go-retrace in Dafny

A model of the core of go-retrace, the Go port of ProGuard's ReTrace. The tool
reads an obfuscated stack trace and a ProGuard mapping file and writes the stack
trace with the original class, field and method names and line numbers.

The model follows the Go package `retrace` file by file:

- `ClassUtil` (`class_util.go`): the conversion of internal class names
  (`java/lang/Object`) to external ones (`java.lang.Object`).
- `Frames` (`frame_info.go`): the `FrameInfo` record that describes one stack frame.
- `MappingReader` (`mapping_reader.go`): the mapping-file reader. It handles class
  headers (`orig.Class -> a:`), field and method lines with their delimiter
  search, qualified member names and the `a:b:` / `:c:d` line-number ranges.
  `Pump` becomes a fold over the lines of the file. The calls it makes into the
  processor interface are recorded as a list of `Call` values, so a processor is
  a function that applies them.
- `MappingProcessor` (`mapping_processor.go`): the `FrameRemapper` symbol tables.
  This covers the three processing calls, class, type and argument resolution,
  source-file naming, and `Transform`, which turns one obfuscated frame into its
  candidate original frames.
- `FramePatterns` (`frame_pattern.go`): frame patterns. It models the scan that
  compiles a template such as `%c.%m(%s:%l)` into a regular expression and a
  placeholder-letter table, `Parse` (a matched line to a frame) and `Format` (a
  frame back into the line).
- `Retrace` (`retrace.go`): `Trim`, `FirstNonCommonIndex`, the tokenizer used by
  `Deobfuscate`, `handle`, and the two-pass work done on each stack-trace line.

Helper modules: `Wrappers` (`Option`), `Text` (the parts of Go's `strings` that the
code uses) and `Decimal` (`strconv.Atoi` / `strconv.Itoa`).

The regular-expression engine is not modelled. A match is represented as a list
of groups, each absent or a span of the line, and the predicate
`FramePatterns.Conforms` states what the engine guarantees about such a list:
either no match, or the whole match followed by at least one group per
placeholder. Further groups, such as those of parentheses inside a fragment, may
follow, up to the 32 slots of the letter table. Every span lies inside the line,
and the placeholder spans are in order. Two Go panics in compiling a template
become preconditions, captured by `FramePatterns.Compilable`: a template with 32
or more placeholders, and a trailing lone `%` after the first placeholder. Two
other panics are kept out of the model instead; "## Left out" names them. A
member line is only scanned when `MappingReader.Scannable` holds, and
`MappingReader.MemberLinesScannable` proves that every line `Pump` hands on
meets it.

`Retrace` formats candidate frames with `FramePatterns.FormatAsWritten`, the
`Format` loop as the code has it. `FramePatterns.Format` is the corrected loop
described under "## Findings".

## Model

| member | source | states |
|---|---|---|
| ClassUtil.ExternalClassName | retrace/class_util.go:9-11 | the result has the input's length; each `/` becomes `.` and every other character stays at its position |
| ClassUtil.ExternalClassNameHasNoSlash | retrace/class_util.go:9-11 | no `/` is left in an external class name |
| ClassUtil.ExternalClassNameIdempotent | retrace/class_util.go:9-11 | converting an external name a second time changes nothing |
| ClassUtil.ExternalClassNameIdentity | retrace/class_util.go:9-11 | a name without `/` is its own external name |
| ClassUtil.ExternalClassNameExample | retrace/class_util.go:5-11 | `java/lang/Object` becomes `java.lang.Object`, as the doc comment says |
| Text.IndexOf | retrace/mapping_reader.go:15-22 | -1 exactly when `sub` occurs nowhere at or after `position`; otherwise the least such offset, counted from the start of the line |
| Text.TrimSpace | retrace/mapping_reader.go:37 | the result is a slice of the input that neither starts nor ends with white space, and no non-space character falls outside it |
| Text.TrimSpacePadded | retrace/mapping_reader.go:37 | white space added on either side of a trimmed string is removed again |
| Text.IndexOfCharIsIndexOf | retrace/frame_pattern.go:47 | the one-character search used by the template scan agrees with the general substring search |
| Text.LastIndexOfChar | retrace/mapping_reader.go:161 | the last position holding the character, or -1; no later position holds it |
| Text.Split | retrace/mapping_processor.go:376 | at least one piece; no piece contains the separator; joining the pieces with it gives the input back |
| Text.SplitJoin | retrace/mapping_processor.go:376-387 | splitting a join of separator-free pieces gives the pieces back |
| Decimal.ParseInt | retrace/frame_pattern.go:118-123 | succeeds exactly for an optional sign followed by one or more digits; a `-` gives a value of at most 0 and no minus gives a value of at least 0 |
| Decimal.IntToString | retrace/frame_pattern.go:178-179 | non-empty, and starts with `-` exactly for negative numbers |
| Decimal.ParseIntToString | retrace/frame_pattern.go:178-179 | what `Itoa` writes, `Atoi` reads back as the same number |
| MappingReader.ProcessClassMapping | retrace/mapping_reader.go:64-88 | a call is made exactly when the line has `->` and, after it, a `:`; the names are the trimmed text before the first `->` and between it and the next `:`; the context becomes the original name if the processor is interested and is empty otherwise |
| MappingReader.Locate | retrace/mapping_reader.go:120-144 | each delimiter is the first occurrence of its character where its search starts, or -1 when there is none: the colons from the start and after the first, the space from two characters past the second colon, `(` after the space, `)` after `(`, the suffix colons after `)`; a search after a missing delimiter gives -1; `->` is the first arrow after the last delimiter found |
| MappingReader.MemberLinesScannable | retrace/mapping_reader.go:48-54 | every line that reaches the member parser keeps the space search inside the line |
| MappingReader.SplitQualifiedName | retrace/mapping_reader.go:159-165 | an unqualified name keeps the header's class; a qualified one splits at its last dot into a class and a dot-free name that join back to it |
| MappingReader.ReadLineNumbers | retrace/mapping_reader.go:181-210 | `a:b:` sets the obfuscated range, and by default the original one too; `:c` makes the original range (c, c) and `:c:d` makes it (c, d); the read fails exactly when `a`, `c` or `d` is not a number, and an unreadable `b` reads as 0 |
| MappingReader.ProcessClassMemberMapping | retrace/mapping_reader.go:94-229 | fails with a missing delimiter exactly when the space or `->` is absent; makes no call exactly when the type, the name or the new name is empty; a call is a field call exactly when the line has no `)`; every call carries the header's class as its new class |
| MappingReader.MemberParts | retrace/mapping_reader.go:150-224 | each part of the emitted call is the trimmed text between the delimiters found in the line |
| MappingReader.Step | retrace/mapping_reader.go:36-54 | blank and comment lines change nothing; a header sets the context and appends the call the header parser makes, if any; a member line keeps the context, is ignored when there is none, and otherwise appends exactly the call the member parser emits, or nothing when it emits none; every new field or method call names a class and a member |
| MappingReader.PumpFromAppend | retrace/mapping_reader.go:36-55 | reading a file in two parts is reading it whole |
| MappingReader.PumpFromExtends | retrace/mapping_reader.go:36-55 | calls are only ever appended |
| MappingReader.SkippedLinesInvisible | retrace/mapping_reader.go:37-45 | removing a blank or comment line anywhere in a file changes nothing that is read |
| MappingReader.FailedMemberLineIgnored | retrace/mapping_reader.go:51-54 | a member line that fails to parse leaves the reader exactly as it was |
| MappingReader.PumpFromKeyed | retrace/mapping_reader.go:36-55 | every field and method call made for a whole file names a non-empty class and member |
| MappingReaderExamples.HeaderCall | retrace/mapping_reader.go:64-88 | `Orig -> Obf:` names `Orig` as the original class and `Obf` as the obfuscated one |
| MappingReaderExamples.MemberDelimiters | retrace/mapping_reader.go:120-144 | the delimiters of `1:3:void foo():10:12 -> a` are found where the text has them |
| MappingReaderExamples.MemberNumbers | retrace/mapping_reader.go:181-210 | in that line `1:3` is the obfuscated range and `:10:12` the original one |
| MappingReaderExamples.MemberCall | retrace/mapping_reader.go:94-229 | under the class `Orig` that line emits the method call of `void foo()`, lines 10 to 12, renamed `a` at lines 1 to 3 |
| MappingReaderExamples.PumpLines | retrace/mapping_reader.go:36-55 | a file of an R8 comment, that header and that method line, indented, makes the class call and then the method call |
| MappingProcessor.MatchesWildcards | retrace/mapping_processor.go:80-103 | a field matches exactly the empty type or its own; a method matches the all-wildcard query and every known line inside its range, and no known line outside a known range |
| MappingProcessor.AddUnique | retrace/mapping_processor.go:157-161 | a hash-set add keeps what was there, appends the element only when it is new, and keeps the set duplicate-free |
| MappingProcessor.ProcessClassMapping | retrace/mapping_processor.go:126-130 | the processor is always interested; the obfuscated name now resolves to the original and every other name resolves as before; the member tables are untouched |
| MappingProcessor.ProcessFieldMapping | retrace/mapping_processor.go:132-162 | the field entries under (class, obfuscated name) gain exactly the new entry and stay duplicate-free; every other entry and table is unchanged |
| MappingProcessor.ProcessMethodMapping | retrace/mapping_processor.go:164-204 | the method entries under (class, obfuscated name) gain exactly the new entry; every other entry and table is unchanged |
| MappingProcessor.Apply | retrace/mapping_processor.go:126-204 | each processing call keeps the tables duplicate-free and keyed by non-empty names |
| MappingProcessor.Build | retrace/retrace.go:96-100 | the tables built from any mapping file are duplicate-free and keyed by non-empty names |
| MappingProcessor.ApplyAllClassName | retrace/mapping_processor.go:126-130 | after a run of calls, an obfuscated class name resolves to the class of the last header that mapped it, or as before when none did |
| MappingProcessor.ApplyAllGrows | retrace/mapping_processor.go:132-204 | processing calls never removes a field or method entry |
| MappingProcessor.ApplyAllStoresField | retrace/mapping_processor.go:132-162 | every field call's entry can be found afterwards under its class and obfuscated name |
| MappingProcessor.ApplyAllStoresMethod | retrace/mapping_processor.go:164-204 | every method call's entry can be found afterwards under its class and obfuscated name |
| MappingProcessor.GetOriginalType | retrace/mapping_processor.go:357-364 | a type without `[` resolves as a class name |
| MappingProcessor.OriginalArrayType | retrace/mapping_processor.go:357-364 | an array type resolves its element class and keeps the `[]` suffix |
| MappingProcessor.ResolveEach | retrace/mapping_processor.go:383-385 | each argument, trimmed, is resolved as a type, in order |
| MappingProcessor.GetOriginalArguments | retrace/mapping_processor.go:375-388 | the result is the resolved, trimmed arguments joined by commas |
| MappingProcessor.WildcardResolvesToWildcard | retrace/mapping_processor.go:375-388 | an empty argument list (the wildcard of a member line) resolves to itself |
| MappingProcessor.GetSourceFileName | retrace/mapping_processor.go:342-355 | an empty class gives an empty name; otherwise the simple class name plus `.java`, or for an inner class the text from after the last dot up to the first `$` |
| MappingProcessor.SourceFileNameExamples | retrace/mapping_processor.go:342-355 | `a.b.C` gives `C.java`, `a.b.C$D` gives `C` and the empty class gives the empty name |
| MappingProcessor.FieldCandidates | retrace/mapping_processor.go:262-278 | at most one candidate per stored field; each keeps the frame's line number, method and arguments |
| MappingProcessor.FieldCandidatesComplete | retrace/mapping_processor.go:262-278 | every stored field of the wanted type gives a candidate |
| MappingProcessor.FieldCandidatesSound | retrace/mapping_processor.go:262-278 | every candidate comes from a stored field of the wanted type |
| MappingProcessor.TransformFieldInfo | retrace/mapping_processor.go:246-281 | a missing class or field name gives no candidates, the same as an empty entry list |
| MappingProcessor.AdjustedLineInOriginalRange | retrace/mapping_processor.go:316-326 | a known line inside the obfuscated range of an entry whose two ranges have equal length lands inside the original range |
| MappingProcessor.MethodCandidates | retrace/mapping_processor.go:310-337 | at most one candidate per stored method; each keeps the frame's field name |
| MappingProcessor.MethodCandidatesComplete | retrace/mapping_processor.go:310-337 | every stored method that matches the line, type and arguments gives a candidate |
| MappingProcessor.MethodCandidatesSound | retrace/mapping_processor.go:310-337 | every candidate comes from a matching stored method |
| MappingProcessor.MethodCandidatesAppend | retrace/mapping_processor.go:310-337 | the candidates of two runs of entries are the candidates of each, in order |
| MappingProcessor.TransformMethodInfo | retrace/mapping_processor.go:291-340 | a missing class or method name gives no candidates, the same as an empty entry list |
| MappingProcessor.PassThrough | retrace/mapping_processor.go:217-233 | the class is resolved; a source file is derived from it only when the frame names none; the other fields are kept |
| MappingProcessor.Transform | retrace/mapping_processor.go:206-236 | there is always at least one candidate: the field candidates then the method candidates, or the pass-through frame alone when there are none |
| MappingProcessor.TransformFindsMethod | retrace/mapping_processor.go:206-236 | every stored method that matches the frame shows up among its candidates |
| MappingProcessor.TransformFindsField | retrace/mapping_processor.go:206-236 | every stored field that matches the frame shows up among its candidates |
| MappingProcessorExamples.ClassOnlyExample | retrace/mapping_processor.go:206-236 | a frame of a mapped class with no members becomes the original class with a derived source file |
| MappingProcessorExamples.MethodLineExample | retrace/mapping_processor.go:291-340 | line 2 of the obfuscated range 1:3 maps to line 11 of the original range 10:12 |
| MappingProcessorExamples.MethodLineFromText | retrace/retrace.go:96-100 | the same holds for the table built from the text of that file |
| FramePatterns.TypeOf | retrace/frame_pattern.go:80-81 | groups 1 to the placeholder count have the letter of their placeholder; group 0 and the groups beyond have none |
| FramePatterns.CompileWith | retrace/frame_pattern.go:35-93 | the expression is each literal followed by its placeholder's fragment in parentheses, then the tail; the letter table lists the placeholders in order, and there are fewer than 32 of them |
| FramePatterns.Compile | retrace/frame_pattern.go:35-93 | the same, with the fragments of the eight placeholder letters |
| FramePatterns.ScanRestBound | retrace/frame_pattern.go:47-81 | a scan that succeeds fills fewer than the 32 slots of the letter table |
| FramePatterns.CompileRender | retrace/frame_pattern.go:46-86 | a template written from `%`-free literals and fewer than 32 placeholders scans back to exactly those pieces |
| FramePatterns.CompilableIffUnderCapacity | retrace/frame_pattern.go:46-86 | such a template compiles exactly when it has fewer than 32 placeholders |
| FramePatterns.TrailingPercentExamples | retrace/frame_pattern.go:47-51 | `%c%` overruns the template, because a position relative to the rest is compared with the full length; a lone `%` is literal text |
| FramePatterns.Parse | retrace/frame_pattern.go:101-144 | a line that does not match gives the zero-valued frame |
| FramePatterns.ParseFields | retrace/frame_pattern.go:106-144 | each field holds the last non-empty capture of a group that feeds it: `C` with `/` turned into `.`, `l` read as a number or -1; a field with no such capture is zero-valued |
| FramePatterns.StoreFields | retrace/frame_pattern.go:111-132 | storing a capture changes only the field its letter selects |
| FramePatterns.FieldTextVerbosity | retrace/frame_pattern.go:181-198 | a verbose pattern writes a field as type and name, and a method as type, name and parenthesised arguments |
| FramePatterns.FormatAsWritten | retrace/frame_pattern.go:155-207 | a line that does not match is written unchanged |
| FramePatterns.FormatAsWrittenKeepsLastSpan | retrace/frame_pattern.go:160-206 | with at least one placeholder, the written line ends with the line's own text from the start of the last placeholder's span, whatever the frame |
| FramePatterns.FormatAsWrittenParseRoundTrip | retrace/frame_pattern.go:155-207 | for a non-verbose pattern, formatting the frame parsed from an unambiguously matched line gives the line back |
| FramePatterns.Format | retrace/frame_pattern.go:155-207 | a line that does not match is written unchanged |
| FramePatterns.FormatAsWrittenSkipsLast | retrace/frame_pattern.go:160 | for a lone `%c` matching the whole line `a`, the loop as written copies `a` through where the corrected one writes the class `b` |
| FramePatterns.SpliceReproduces | retrace/frame_pattern.go:160-206 | splicing into the line each group's own captured text gives the line back |
| FramePatterns.ExternalClassNameBack | retrace/frame_pattern.go:174-175 | a `C` capture without dots is written back as it was read |
| FramePatterns.CaptureReproduced | retrace/frame_pattern.go:101-198 | for an unambiguous match, the text written for a group from the parsed frame is exactly the text the group captured |
| FramePatterns.FormatParseRoundTrip | retrace/frame_pattern.go:155-207 | formatting the frame parsed from an unambiguously matched line gives the line back |
| Retrace.FirstNonCommonIndex | retrace/retrace.go:183-191 | the strings agree before the index, and differ at it unless one of them ends there |
| Retrace.Trim | retrace/retrace.go:168-181 | same length as the first string; each position in the common prefix becomes a space and every other position is kept |
| Retrace.TrimSplit | retrace/retrace.go:168-191 | the trimmed line is spaces over the common prefix followed by the rest of the first string |
| Retrace.TrimSelf | retrace/retrace.go:168-191 | a line trimmed against itself is all spaces |
| Retrace.TrimEmpty | retrace/retrace.go:168-191 | trimming against the empty string changes nothing |
| Retrace.Tokens | retrace/utils_test.go:9-44 | the tokens concatenate to the input; each is a lone delimiter or a non-empty run without delimiters; no two runs are adjacent |
| Retrace.TokenizationUnique | retrace/utils_test.go:9-44 | any list of tokens with those three properties is the one `Tokens` returns |
| Retrace.TokensExample | retrace/utils_test.go:9-44 | `a  b'` split at spaces gives `a`, ` `, ` `, `b'` |
| Retrace.DeobfuscateToken | retrace/retrace.go:211-216 | a delimiter is copied; a mapped class name becomes its original; any other token is copied |
| Retrace.DeobfuscateTokens | retrace/retrace.go:209-217 | tokens none of which is a mapped class name are written as they are |
| Retrace.DeobfuscateIdentity | retrace/retrace.go:204-219 | a line none of whose tokens is a mapped class name comes back unchanged |
| Retrace.DeobfuscateWord | retrace/retrace.go:204-219 | a line that is a single word is looked up as a whole class name |
| Retrace.Written | retrace/retrace.go:144-149 | an empty candidate line writes nothing; a non-empty one is written as it is unless all class names are resolved |
| Retrace.CandidateLine | retrace/retrace.go:134-141 | the first candidate, and every candidate of a frame with a line number, is the line formatted by `Format` as written, which copies the last placeholder's span through; the others keep its length |
| Retrace.HandleRestPieces | retrace/retrace.go:133-152 | the loop from candidate `j` on writes exactly the pieces of candidates `j` onwards |
| Retrace.Handle | retrace/retrace.go:125-162 | for a frame, the pieces of all its candidates in candidate order, each formatted by `Format` as written; without a frame, the line itself, deobfuscated when all class names are resolved |
| Retrace.TransformEmptyFrame | retrace/mapping_processor.go:206-236 | the zero-valued frame names no member, so its only candidate is the pass-through frame |
| Retrace.HandleUnmatched | retrace/retrace.go:125-162 | a line no group matched is written back unchanged |
| Retrace.RetraceLineSecondPassIdle | retrace/retrace.go:110-117 | when the second pattern matches neither the line nor the first pass's output, the second pass leaves that output unchanged |
| Retrace.RetraceLineFirstPassIdle | retrace/retrace.go:110-117 | when the first pattern does not match, the line is handled by the second pattern alone, with the frame parsed from the original line |
| Retrace.RetraceLineUnmatched | retrace/retrace.go:110-117 | a line neither pattern matches is written as it was read |

## Left out

- Reading and writing streams are not modelled: `bufio` readers, scanners and writers, the command line in `main.go`, and the dropped final line without a newline. `Pump` takes the file as a list of lines, and `RetraceLine` takes one stack-trace line.
- Scanner errors and the scanner's maximum line length are not modelled, because they belong to I/O.
- The Go regular-expression engine is not modelled. `FramePatterns.Conforms` states what a match delivers, and `Retrace.RetraceLine` takes each pattern's matcher as a parameter. The fragment constants are copied into `FramePatterns`, but what they match is not modelled.
- `FieldsFuncWithDelims` (`utils.go`) is not part of this model. `Retrace.Tokens` is specified by the behaviour its test shows: delimiters become one-character tokens and the runs between them stay whole.
- The hash sets of field entries are modelled as duplicate-free lists in insertion order. Go's iteration order is unspecified, so nothing is claimed about the order of field candidates among themselves.
- Strings are sequences of characters, so Go byte offsets are modelled as character offsets. The `rune(token[0])` cast in `Deobfuscate` is modelled for one-byte characters only.
- Decimal.ParseInt: does not reject numbers outside the 64-bit range, because the model's integers are unbounded. Go's `Atoi` fails on those.
- MappingProcessor.AdjustedLineInOriginalRange: line arithmetic on 64-bit Go integers is not modelled for wrap-around.
- FramePatterns.Compile: requires `Compilable` where Go panics. Go panics on a 32nd placeholder, which indexes past the letter table, and on a trailing lone `%` after the first placeholder, which slices past the template.
- FramePatterns.Compile: the compiled `regexp.Regexp` is represented only by its expression text. `regexp.MustCompile` panics on an expression it cannot compile (frame_pattern.go:89). The model does not decide which expressions compile, so it does not model this panic.
- FramePatterns.Conforms: allows at most 32 groups. `Parse` indexes the 32-slot letter table with every group that captured text (frame_pattern.go:111), so in Go a match with a non-empty group past slot 31 panics. Such matches are excluded rather than modelled.
- FramePatterns.Fragment: an unknown placeholder letter gets an empty group. Its matches are never stored or formatted.
- Retrace.Handle: the nil-frame branch is modelled as `None`. `Retrace` itself always passes a frame.
- Retrace.RetraceLineSecondPassIdle: the per-line lemmas cover the setting without `AllClassNames` only. With it, deobfuscating an unchanged line may still change it.
- Retrace.RetraceLine: carries no contract of its own. Its properties are the two per-line lemmas, and under `AllClassNames` a line's output depends on which tokens are mapped.
- Retrace.HandleRestPieces: the trimming is stated for the untrimmed previous candidate, as in Go. Nothing is claimed about how readable the trimmed output is.

## Findings

| source | as written | input that shows it | evidently intended | confidence | as-written member | corrected member |
|---|---|---|---|---|---|---|
| retrace/frame_pattern.go:160 | the `Format` loop runs while `expressionTypeIndex < ExpressionTypeCount`, but the letters sit in slots 1 to `ExpressionTypeCount`, so the last placeholder's span is copied through unchanged | pattern `%c`, line `a`, group 1 spanning `a`, frame class `b`: the result is `a` | `<=`, so that every placeholder from 1 to the count is replaced, as in ProGuard's ReTrace | high, not executed | FramePatterns.FormatAsWritten, exhibited by FramePatterns.FormatAsWrittenSkipsLast and FramePatterns.FormatAsWrittenKeepsLastSpan; `Retrace.Handle` keeps this behaviour | FramePatterns.Format, with FramePatterns.FormatParseRoundTrip proved |
