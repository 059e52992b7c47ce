# pglint's ecpg wrapper, modelled in Dafny

pglint lints PostgreSQL statements by handing them to `ecpg`, PostgreSQL's embedded-SQL
preprocessor. Its wrapper package (`pkg/ecpg/ecpgWrapper.go`) is a small pipeline:

1. `NewECPG` builds a linter. It first asks a dependency checker whether `ecpg --help` is
   available. When the configuration has no checker, the built-in one is filled in first.
2. `CheckStatement` rejects the empty string. Otherwise it normalises the statement: it
   optionally trims white space, then optionally turns every `?` into `"placeholder"`
   (quotes included), then optionally appends a missing terminating `;`.
3. `executeECPGCommand` splits the statement after every `;` and skips empty pieces. Each
   remaining piece gets an `EXEC SQL ` prefix unless it already starts with `EXEC SQL`,
   and loses its line feeds. Each such fragment is piped through `ecpg`. Every failed run
   contributes one error, in fragment order, and nil is returned when no run failed.
4. `pullErrorData` turns ecpg's output into a message. It takes the first output line
   that starts with `stdin:1:`, deletes that marker and trims the rest. When no line
   carries the marker, the message is empty.

The model has three modules plus a shared one:

- `Results` (`results.dfy`) holds `Option` and `Result`.
- `GoStrings` (`go_strings.dfy`) models the calls into Go's `strings` package that the
  wrapper makes:
  - `TrimSpace`, with the full `unicode.IsSpace` set (pkg/ecpg/ecpgWrapper.go:58, 119);
  - `Replace`, as `ReplaceAll` and `RemoveFirst` (:62, :85, :119);
  - `HasPrefix` and `HasSuffix` (:65, :82, :117);
  - `SplitAfter` (:77) and `Split` (:114).

  `SplitAfter` and `Split` carry no contract of their own; the `SplitAfter*` and
  `Split*` lemmas in the table characterise them. The module also defines `Count`, `Concat`
  and `Join`. The wrapper calls none of these; they exist only to state properties,
  such as "one piece more than there are `;`" or "the pieces join back to the input".
- `EcpgWrapper` (`ecpg_wrapper.dfy`) models the wrapper itself. `Cleaned` is the
  trimming and substitution steps of `CheckStatement` (pkg/ecpg/ecpgWrapper.go:57-63).
  `Normalize` appends the terminator to its result, so the `;` test sees the trimmed,
  substituted text.
- `EcpgProperties` (`ecpg_properties.dfy`) holds properties that relate several calls:
  round trips, idempotence, and whole-pipeline scenarios such as an all-space statement
  or the default configuration.

Two outside parts become parameters:

- The `ecpg` process is a function `validator: string -> Run`, where a `Run` records
  whether the process failed and its combined output.
- The built-in dependency probe is a function `defaultChecker: string -> bool`.

The methods return `invoked`, the fragments handed to the validator in call order. This
lets "which fragments ecpg is run on, and in what order" be stated as a postcondition.
Go's nil error slice and an empty one are both `[]`.

## Model

| member | source | states |
|---|---|---|
| EcpgWrapper.WithDefaultChecker | pkg/ecpg/ecpgWrapper.go:36-38 | a missing checker is replaced by the default probe and a present one kept; the flags never change |
| EcpgWrapper.NewEcpg | pkg/ecpg/ecpgWrapper.go:34-48 | construction succeeds exactly when the effective checker accepts `ecpg --help`, for a given and for a missing checker; failure carries the missing-dependency message; success keeps the caller's flags |
| EcpgProperties.NewEcpgDependsOnlyOnProbe | pkg/ecpg/ecpgWrapper.go:34-47 | two configurations with the same flags whose checkers agree on `ecpg --help` are accepted or rejected together, with the same flags |
| EcpgProperties.NewEcpgExamples | pkg/ecpg/ecpgWrapper_test.go:131-170 | a checker that always says yes yields a linter with all three flags set; one that says no yields exactly the missing-dependency error |
| GoStrings.TrimSpace | pkg/ecpg/ecpgWrapper.go:57-59 | the input is an all-space head, the result and an all-space tail, and the result starts and ends with a non-space |
| GoStrings.TrimSpaceUnique | pkg/ecpg/ecpgWrapper.go:57-59 | whatever all-space head and tail surround a trimmed middle, trimming returns exactly that middle |
| GoStrings.TrimSpaceOfTrimmed | pkg/ecpg/ecpgWrapper.go:57-59 | trimming text that has nothing to trim changes nothing |
| GoStrings.TrimSpaceOfSpaces | pkg/ecpg/ecpgWrapper.go:57-59 | an all-space statement trims to the empty string |
| GoStrings.TrimSpaceKeepsCount | pkg/ecpg/ecpgWrapper.go:57-59 | trimming never changes how often a non-space character occurs |
| GoStrings.TrimSpaceKeepsOut | pkg/ecpg/ecpgWrapper.go:119 | trimming brings in no character that was not there |
| GoStrings.ReplaceAll | pkg/ecpg/ecpgWrapper.go:62 | replacing every `c` by text without `c` leaves no `c`; text without `c` is unchanged |
| GoStrings.ReplaceAllLength | pkg/ecpg/ecpgWrapper.go:62 | each replaced character changes the length by the replacement's length minus one |
| GoStrings.ReplaceAllKeepsCount | pkg/ecpg/ecpgWrapper.go:62 | characters that are neither replaced nor in the replacement keep their count |
| GoStrings.ReplaceAllAppend | pkg/ecpg/ecpgWrapper.go:62 | replacement works piecewise: the image of a concatenation is the concatenation of the images |
| EcpgWrapper.SubstitutePlaceholders | pkg/ecpg/ecpgWrapper.go:61-63 | no `?` is left, each `?` adds 12 characters, and text without `?` is unchanged |
| EcpgProperties.SubstitutePlaceholdersChar | pkg/ecpg/ecpgWrapper.go:62 | a `?` becomes `"placeholder"` and every other character stays itself |
| EcpgProperties.SubstitutePlaceholdersAppend | pkg/ecpg/ecpgWrapper.go:62 | substitution keeps order: it maps concatenations to concatenations |
| EcpgProperties.SubstitutePlaceholdersKeepsCount | pkg/ecpg/ecpgWrapper.go:62 | every character other than `?` and those in the placeholder keeps its count |
| EcpgProperties.SubstitutePlaceholdersIdempotent | pkg/ecpg/ecpgWrapper.go:61-63 | substituting twice gives the same as substituting once |
| EcpgWrapper.AddSemiColon | pkg/ecpg/ecpgWrapper.go:65-67 | the result ends in `;` and extends the input by nothing (input already terminated) or by exactly one character, one more `;` |
| EcpgWrapper.Normalize | pkg/ecpg/ecpgWrapper.go:57-67 | with terminators on the result ends in `;`; with placeholders on it holds no `?`; with every flag off it is the input |
| EcpgWrapper.CleanedKeepsSemicolons | pkg/ecpg/ecpgWrapper.go:57-63 | trimming and substitution keep the number of `;` |
| EcpgWrapper.NormalizeSemicolons | pkg/ecpg/ecpgWrapper.go:57-67 | normalisation adds at most one `;`, and only when terminators are on |
| EcpgProperties.NormalizeTrimmed | pkg/ecpg/ecpgWrapper.go:57-67 | with trimming on, the normalised statement has nothing left to trim |
| EcpgProperties.AddSemiColonKeepsTrimmed | pkg/ecpg/ecpgWrapper.go:65-67 | terminating a trimmed statement leaves it trimmed |
| EcpgProperties.NormalizeIdempotent | pkg/ecpg/ecpgWrapper.go:57-67 | normalising a normalised statement changes nothing, under every configuration |
| EcpgProperties.NormalizeAllSpace | pkg/ecpg/ecpgWrapper.go:57-67 | an all-space statement normalises to `;` with terminators on and to nothing otherwise |
| EcpgProperties.NormalizeDefault | pkg/ecpg/ecpgWrapper.go:57-67 | under the default configuration a trimmed statement without `;` is only substituted and terminated |
| EcpgProperties.NormalizeSteps | pkg/ecpg/ecpgWrapper.go:57-67 | under every configuration, for a trimmed middle between all-space head and tail: the middle (or, untrimmed, the whole text) is substituted if enabled, then gets a `;` exactly when terminators are on and it does not already end in one |
| EcpgProperties.NormalizeIgnoresSurroundingSpace | pkg/ecpg/ecpgWrapper.go:57-67 | with trimming on, white space around a trimmed statement changes nothing, so the `;` test sees the trimmed text: `t + "\n"` with `t` ending in `;` gets no second terminator |
| EcpgProperties.NormalizeUnterminated | pkg/ecpg/ecpgWrapper.go:57-67 | under the default configuration a trimmed statement whose substituted text does not end in `;` is substituted and then terminated |
| EcpgProperties.SubstituteAroundTerminator | pkg/ecpg/ecpgWrapper.go:62 | substitution leaves a `;` between two statements in place and substitutes each side on its own |
| EcpgProperties.TwoStatementsNormalized | pkg/ecpg/ecpgWrapper.go:57-67 | under the default configuration two trimmed `;`-separated statements are each substituted and only the second gets a new terminator |
| GoStrings.SplitAfterConcat | pkg/ecpg/ecpgWrapper.go:77 | the pieces concatenate back to the statement |
| GoStrings.SplitAfterCount | pkg/ecpg/ecpgWrapper.go:77 | there is one piece more than there are `;` |
| GoStrings.SplitAfterPieces | pkg/ecpg/ecpgWrapper.go:77-81 | every piece but the last is non-empty, ends in `;` and holds exactly one `;` |
| GoStrings.SplitAfterLast | pkg/ecpg/ecpgWrapper.go:77 | the last piece holds no `;` |
| GoStrings.SplitAfterFirst | pkg/ecpg/ecpgWrapper.go:77 | the first piece runs up to and including the first `;`, and the rest is split the same way |
| EcpgWrapper.SplitAfterLastEmpty | pkg/ecpg/ecpgWrapper.go:77-81 | the last piece is empty exactly when the statement is empty or ends in `;` |
| EcpgWrapper.ShapeFragment | pkg/ecpg/ecpgWrapper.go:82-85 | a fragment is non-empty, starts with `EXEC SQL` and has no line feed; it is the piece minus its line feeds, behind `EXEC SQL ` exactly when the raw piece, line feeds included, does not start with `EXEC SQL` |
| EcpgProperties.LineFeedHidesKeyword | pkg/ecpg/ecpgWrapper.go:82 | a piece that starts with a line feed never passes the keyword test |
| EcpgProperties.ShapeFragmentLeadingLineFeed | pkg/ecpg/ecpgWrapper.go:82-85 | a piece made of a line feed and then text starting with `EXEC SQL` is sent with the keyword twice, because the test runs before line feeds are dropped |
| EcpgWrapper.ShapePieces | pkg/ecpg/ecpgWrapper.go:78-85 | one fragment per non-empty piece, each a well-formed fragment |
| EcpgWrapper.ShapePiecesSnoc | pkg/ecpg/ecpgWrapper.go:78-85 | one more piece adds its own fragment at the end when it is non-empty and nothing when it is empty, so pieces are shaped in order, each on its own |
| EcpgWrapper.ShapedPiecesCount | pkg/ecpg/ecpgWrapper.go:77-81 | the non-empty pieces number the `;` plus one for an unterminated tail |
| EcpgWrapper.Fragments | pkg/ecpg/ecpgWrapper.go:77-85 | every fragment is well formed, and there are as many as `;` plus one for an unterminated tail |
| EcpgProperties.FragmentsCons | pkg/ecpg/ecpgWrapper.go:77-85 | the text up to the first `;` becomes the first fragment, and the rest yields the remaining fragments as if sent alone |
| EcpgProperties.SingleStatement | pkg/ecpg/ecpgWrapper.go:77-85 | a one-line statement without `;`, once terminated, becomes a single fragment: itself, or itself behind `EXEC SQL ` |
| EcpgProperties.TerminatorAlone | pkg/ecpg/ecpgWrapper.go:77-85 | a lone `;` is sent as `EXEC SQL ;` |
| EcpgProperties.FragmentsOfNothing | pkg/ecpg/ecpgWrapper.go:77-81 | the empty statement yields no fragment |
| EcpgProperties.KeywordAfterLineFeed | pkg/ecpg/ecpgWrapper.go:77-85 | when a statement starting with `EXEC SQL` follows a terminated one on the next line, there are exactly two fragments and the second carries the keyword twice |
| GoStrings.SplitJoin | pkg/ecpg/ecpgWrapper.go:114 | joining the lines with line feeds gives the output back |
| GoStrings.SplitPieces | pkg/ecpg/ecpgWrapper.go:114 | there is one line more than there are line feeds, and no line holds one |
| GoStrings.SplitFirst | pkg/ecpg/ecpgWrapper.go:114 | the first line is everything before the first line feed, and the rest is split the same way |
| GoStrings.Index | pkg/ecpg/ecpgWrapper.go:119 | the search inside `strings.Replace(v, "stdin:1:", "", 1)`: the position found is the first occurrence of the pattern, and none is found only when it occurs nowhere |
| GoStrings.RemoveFirst | pkg/ecpg/ecpgWrapper.go:119 | deleting the first occurrence shortens the text by the pattern's length; text starting with the pattern loses exactly that prefix |
| EcpgWrapper.FirstWithPrefix | pkg/ecpg/ecpgWrapper.go:116-121 | the index found is the first line with the prefix, and none is found only when no line has it |
| EcpgWrapper.PullErrorData | pkg/ecpg/ecpgWrapper.go:113-124 | the message is a single trimmed line, and it is empty when no line carries the marker |
| EcpgProperties.PullErrorDataMarkedLine | pkg/ecpg/ecpgWrapper.go:116-120 | when the first line carries the marker, the message is the rest of that line, trimmed |
| EcpgProperties.PullErrorDataSkipsUnmarkedLine | pkg/ecpg/ecpgWrapper.go:116-121 | a first line without the marker is passed over |
| EcpgProperties.PullErrorDataSingleLine | pkg/ecpg/ecpgWrapper.go:113-124 | one-line output gives its trimmed rest after the marker, or the empty message |
| EcpgProperties.PullErrorDataRoundTrip | pkg/ecpg/ecpgWrapper.go:116-120 | a trimmed one-line message reported after `stdin:1: ` comes back unchanged, whatever follows it |
| EcpgProperties.PullErrorDataSyntaxErrorExample | pkg/ecpg/ecpgWrapper_test.go:90-96 | the syntax-error output of the unit test gives its message |
| EcpgProperties.PullErrorDataNoMarkerExamples | pkg/ecpg/ecpgWrapper_test.go:97-110 | unrelated text and empty output give the empty message |
| EcpgWrapper.Diagnostic | pkg/ecpg/ecpgWrapper.go:100-103 | a run contributes one single-line trimmed message when it failed and nothing when it passed |
| EcpgWrapper.Diagnostics | pkg/ecpg/ecpgWrapper.go:86-104 | there are never more diagnostics than fragments |
| EcpgWrapper.DiagnosticsEmptyIff | pkg/ecpg/ecpgWrapper.go:105-108 | there are no diagnostics exactly when every run passed |
| EcpgWrapper.DiagnosticsAreTrimmedLines | pkg/ecpg/ecpgWrapper.go:100-103 | every diagnostic is a single trimmed line |
| EcpgWrapper.DiagnosticsAppend | pkg/ecpg/ecpgWrapper.go:78-104 | diagnostics keep fragment order: those of a concatenation are those of each part, in turn |
| EcpgWrapper.DiagnosticsSnoc | pkg/ecpg/ecpgWrapper.go:100-103 | one more fragment adds, at the end, the message extracted from its run's output when the run failed, and nothing when it passed |
| EcpgWrapper.DiagnosticsAt | pkg/ecpg/ecpgWrapper.go:78-103 | the error of a failed run is the message extracted from its output, placed right after the errors of the fragments before it |
| EcpgProperties.FailedRunWithoutMarker | pkg/ecpg/ecpgWrapper.go:100-103 | a failed run whose output has no marker still yields one, empty, diagnostic |
| EcpgWrapper.SendPiece | pkg/ecpg/ecpgWrapper.go:79-103 | an empty piece is skipped; otherwise the prefixed, line-feed-free piece is run once and appended, and the diagnostics stay those of the fragments run so far |
| EcpgWrapper.ExecuteEcpgCommand | pkg/ecpg/ecpgWrapper.go:74-109 | the validator is run on exactly the fragments of the statement, in order, even after failures; the errors are the diagnostics of those runs |
| EcpgWrapper.CheckStatement | pkg/ecpg/ecpgWrapper.go:52-71 | the empty string yields exactly the empty-statement error without running ecpg; otherwise the fragments of the normalised statement are run, all well formed, as many as `;` in the input or one more, and exactly as many as `;` in the normalised text when terminators are on |
| EcpgProperties.AllSpaceStatement | pkg/ecpg/ecpgWrapper.go:53-67 | an all-space statement passes the empty check; trimmed and terminated it is sent as the one fragment `EXEC SQL ;`, and without terminators nothing is sent |
| EcpgProperties.DefaultConfigStatement | pkg/ecpg/ecpgWrapper.go:57-85 | under the default configuration a trimmed one-line statement without `;` is sent as one fragment: the substituted statement, terminated, behind `EXEC SQL ` unless it already starts with it |
| EcpgProperties.DefaultConfigTwoStatements | pkg/ecpg/ecpgWrapper.go:57-85 | under the default configuration two trimmed statements separated by `;` are sent as exactly two fragments, each substituted and terminated on its own |

## Left out

- Subprocess plumbing (`exec.Command`, `StdinPipe`, the writer goroutine, `CombinedOutput`,
  pkg/ecpg/ecpgWrapper.go:87-100) is left out because it is operating-system I/O and
  concurrency. The `validator` parameter stands for the whole run. `log.Fatal` on a pipe
  error is not modelled.
- `checkDependencies` (pkg/ecpg/ecpgWrapper.go:127-137) shells out to
  `sh -c "command -v …"`. It is the `defaultChecker` parameter.
- The SQL grammar that ecpg accepts is left out. The validator is an arbitrary function,
  so the properties hold for every behaviour of ecpg. For the same reason, the verdicts
  of the `executeECPGCommand` and `CheckStatement` unit tests
  (pkg/ecpg/ecpgWrapper_test.go:41-79, 193-217) are not modelled, because they depend on
  a real ecpg binary. What those tests' inputs are turned into before ecpg sees them is
  covered (see the last line of this list).
- `cmd/pglint-cli/main.go` is not part of this model. It parses flags, reads files and
  prints.
- Go strings are UTF-8 byte strings; the model works on Unicode characters. Invalid UTF-8
  and the byte-level details of `strings.TrimSpace` are not modelled. White space is the
  full `unicode.IsSpace` set.
- `NewEcpg` returns a new configuration holding the default checker. The Go code instead
  writes the default checker into the caller's `Config` through the pointer. The caller
  sees this write even when construction fails, and later writes by the caller are seen
  by the linter. Pointer aliasing is not modelled.
- Go's nil error slice and an empty slice are not distinguished: both are `[]`. The code
  never returns an empty non-nil slice.
- Error values are modelled by their message strings.
- The unit test of `CheckStatement` (pkg/ecpg/ecpgWrapper_test.go:206-217) uses one
  literal statement. The fragment that statement becomes is stated by the general
  `EcpgProperties.DefaultConfigStatement`, with no literal instance. The test's
  pass/fail verdict is ecpg's and is not modelled.
