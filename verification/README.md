# gulp-conflict: the conflict resolver, modelled in Dafny

gulp-conflict is a stream filter for file generators. Candidate files flow
through it on their way to a destination directory. A candidate that would
overwrite an existing file with different content is put to the operator.
The operator can replace it, skip it, replace it and every later file, abort
the run, or view a diff first and then decide.

This project models that decision procedure (`index.js`) as pure functions.

- **Filesystem.** Each arriving file comes with what the filesystem reports
  about its destination: `Absent` (the stat call failed), `Directory`, or
  `File`. A `File` carries the outcome of the comparison read and the set
  of re-reads that fail: each `diff` answer reads the destination again, and
  re-read number n (counted from 0) fails when n is in that set, so the file
  may become unreadable between one diff and the next.
- **Prompter.** The prompter is a queue of raw answer values, consumed one
  per prompt. The entry point `Conflict` reads each value the way the switch
  does (`Answers.Classify`). The fold then works on the classified answers.
- **Run result.** A run over a stream yields the files pushed downstream and
  one outcome per examined file. It also yields how the run ended
  (`Finished`, `Aborted`, `Fatal`, or `Suspended` when the queue ran dry
  mid-prompt), the sticky `all` flag, the unused answers, and how many diffs
  were rendered.

Modules:

- `Wrappers` — `Option` and `Result`.
- `Answers` — the switch's reading of a raw answer value, and the
  expand-prompt menu with its shortcut keys.
- `Resolver` — the data model and the constructor. Also the prompt loop
  `Ask`, the per-file transform `ResolveFile` and the stream fold `RunFrom`,
  with the exported entry point `Conflict`. The contracts of `Ask`,
  `ResolveFile` and `RunFrom` are stated as lemmas in the next two modules.
- `FileProperties` — contracts of the prompt loop and of the per-file
  decision.
- `Properties` — stream-level properties: ordered and unique emission,
  acknowledgement of every file, the sticky flag, and nothing examined after a
  stop.
- `Scenarios` — whole-stream consequences for the situations the test suite
  exercises.
- `Transform` — the same procedure as explicit loops. There is an outer loop
  over the stream and an inner "render diff, ask again" loop. Each is proved
  equal to the recursive definitions.

Where the code and its test suite disagree, the model follows the code:

- The test titled `s) skip this and all...` (test/conflict_test.js:134)
  names a skip-all action and feeds the value `skipAll`. The menu offers no
  such choice and the switch has no case for one. Any value it does not
  know, `skipAll` included, drops only the current file and moves on,
  exactly like `skip` (`Scenarios.SkipAllValueSkipsEachFile`).
- The test for "replace this and all others" (test/conflict_test.js:99-106)
  feeds the value `replaceAll`. The switch only recognises `all`, so by the
  code `replaceAll` skips the file; see "## Findings". `all` is the value
  that sets the flag.
- Every failed stat call counts as an absent destination, not only a missing
  path, because the code tests only whether `stat` is set. Such files pass
  through.
- The comparison is `contents === String(file.contents)`. A candidate with
  `null` contents is compared against the text "null". Stream-backed contents
  are compared against the generic object tag "[object Object]".
- On `end` the code calls `process.exit(0)` and then `cb()`. The model treats
  `end` as terminal: the run ends `Aborted` and no later file is examined.

## Model

| member | source | states |
|---|---|---|
| Resolver.NewSession | index.js:10-17 | a missing or empty destination is a configuration error; otherwise the instance starts with the `all` flag unset |
| Resolver.Conflict | index.js:10-64 | the result is the configuration error exactly when the destination is missing or empty, and then no file is processed; otherwise it is the run from an unset flag over the switch's reading of the raw answers |
| Resolver.RunFrom | index.js:19-63 | a run examines at most as many files as arrive, one transform call per file |
| Resolver.AsText | index.js:27 | the text `String(file.contents)` yields: the buffer's text, "null" for no contents, "[object Object]" for a stream; PrintedFormsCompareEqual states its consequence for the comparison |
| Resolver.Conflicting | index.js:22-30 | a file is put to the prompter only with the flag unset, an existing non-directory destination that was read, and content differing from `String(file.contents)`; ResolveFileSpec proves that only such a file consumes answers |
| Resolver.Decision | index.js:32-46 | the switch on every answer but `diff`: `replace` and `all` keep the file, `end` aborts, `skip` or a value without a case drops it; only `end` stops the stream |
| Resolver.Ask | index.js:31-55 | the prompt loop with the `diff` recursion; its contract is AskConsumes, AskDecides, AskFails and AskReadFailure |
| Resolver.ResolveFile | index.js:19-63 | the transform body for one file; its contract is ResolveFileSpec |
| Answers.Classify | index.js:32-52 | the switch reads a value by string equality: the result maps back to the same value, and it is unrecognised exactly when the value is none of the five case labels |
| Answers.ClassifyAll | index.js:31-55 | every raw value the prompter returns is read by the switch; reading back each answer gives the raw value again |
| Answers.ClassifyValueOf | index.js:32-52 | classifying the value of any well-formed answer gives back that answer |
| Answers.FindKey | index.js:71-91 | key lookup in the menu finds nothing exactly when no choice has the key, and otherwise returns the value of a choice bound to it |
| Answers.FindKeyFirst | index.js:71-91 | the value found is that of the first choice bound to the key |
| Answers.PressKey | index.js:66-95 | the answer the switch receives for a key press; its table is stated by MenuShortcuts |
| Answers.MenuKeyValues | index.js:71-91 | the menu binds y, n, a, x and d to replace, skip, all, end and diff, and no other key |
| Answers.MenuShortcuts | index.js:71-91 | pressing y, n, a, x or d yields Replace, Skip, All, End or Diff; any other key yields no answer |
| Answers.MenuOnlyKnownAnswers | index.js:71-91 | every answer the menu can produce has a case in the switch; in particular it never yields skipAll |
| Answers.MenuOffersEveryKnownAnswer | index.js:71-91 | each of the five answers the switch knows is reachable from some key |
| FileProperties.AskConsumes | index.js:31-55 | the prompt loop consumes answers only from the front, one per round, and every rendered diff was asked for. The file is left undecided exactly when the queue runs dry, after one diff per answer |
| FileProperties.AskDecides | index.js:31-54 | the first answer other than `diff` decides the file as the switch says. Only an `all` answer that keeps the file sets the flag, and the prompt never reports the file identical |
| FileProperties.AskFails | index.js:98-108 | every rendered diff re-read the destination successfully. A fatal prompt error only follows a `diff` answer: on stream contents it is `DiffOnStream` with no diff rendered, otherwise it is `DiffReadFailed` at the first failing re-read |
| FileProperties.AskReadFailure | index.js:47-51 | conversely, when the answers open with n+1 diffs whose first n re-reads succeed and whose next re-read fails, the prompt renders n diffs and then fails, whatever answers follow |
| FileProperties.ResolveFileSpec | index.js:19-63 | with the flag set, an absent destination or a directory, the file is emitted unchanged with no read or prompt. A failed read is fatal and identical content drops the file, neither with a prompt. Only a real conflict consumes answers, at least one. The flag is never reset, and only `all` sets it |
| FileProperties.DiffIsTransparent | index.js:47-51 | a `diff` answer on buffer contents whose re-read succeeds renders one diff and the file is then decided by the answers that follow, as if it had not been asked |
| Properties.KeptPositions | index.js:19-63 | the kept positions of a trace ascend strictly and each points at a `Kept` outcome |
| Properties.KeptPositionsComplete | index.js:36-39 | every `Kept` outcome's position is among the kept positions |
| Properties.KeptFilesLength | index.js:36-39 | a trace keeps exactly as many files as it has kept positions |
| Properties.KeptFileAt | index.js:36-39 | the k-th file a trace keeps is the input at its k-th kept position, unchanged |
| Properties.RunEmitsKeptFiles | index.js:19-63 | a run emits exactly the files its trace marks `Kept`, in trace order |
| Properties.EmittedIsOrderedSubsequence | index.js:19-63 | the emitted files are an order-preserving subsequence of the inputs. Each input is emitted at most once, unchanged, and only when its outcome is `Kept`. Every `Kept` input is emitted |
| Properties.RunAcknowledgesPrefix | index.js:19-63 | every file examined before the last is acknowledged. A finished run examined and acknowledged every input. A run that did not finish stopped on its last file, whose outcome gives the end |
| Properties.RunFinishesIffAllAcknowledged | index.js:19-63 | a run finishes exactly when it examined and acknowledged every input |
| Properties.RunFlagAndQueue | index.js:17-39 | the `all` flag is never reset across the stream, and answers are only consumed from the front of the queue |
| Properties.AllPassesEverything | index.js:22-61 | once the flag is set, every file is emitted unchanged, in order, with no prompt or diff, and the run finishes |
| Properties.StopIgnoresLaterFiles | index.js:19-63 | after an abort, a fatal error or a missing answer, appending any files to the stream changes nothing |
| Scenarios.ReplaceAllOnFirstConflict | index.js:22-61 | `all` on the first conflict emits all N input files in order, consuming only that one answer |
| Scenarios.SkipEveryConflict | test/conflict_test.js:134-167 | `skip` or an unknown value such as skipAll on each of N conflicts emits nothing. All N files are acknowledged and the run finishes |
| Scenarios.ReplaceAllValueSkipsEachFile | test/conflict_test.js:99-132 | N conflicting files each answered with the raw value replaceAll, as the replace-all test does, are all dropped: nothing is emitted where replacing all would emit N, and the run finishes |
| Scenarios.SkipAllValueSkipsEachFile | test/conflict_test.js:134-167 | the raw value skipAll, which the menu never offers, drops each of two conflicting files on its own; nothing is emitted and the run finishes |
| Scenarios.AbortOnConflict | index.js:43-46 | `end` on a conflict emits nothing and ends the run as aborted, whatever files follow |
| Scenarios.DiffThenReplace | test/conflict_test.js:200-224 | `diff` then `replace` renders one diff and emits the file exactly once |
| Scenarios.DiffOnStreamIsFatal | index.js:98-101 | `diff` on stream-backed contents in a real conflict is fatal before any diff is rendered: the file is not emitted and no later file is examined |
| Scenarios.DiffThenUnreadable | index.js:47-51 | a destination that becomes unreadable after one rendered diff makes the second `diff` fatal: one diff rendered, nothing emitted, no later file examined |
| Scenarios.PrintedFormsCompareEqual | index.js:27-30 | a candidate with null contents is identical to a destination holding "null", and a stream-backed one to a destination holding "[object Object]"; both are dropped without a prompt |
| Scenarios.DirectoryInStream | test/conflict_test.js:226-252 | an entry whose destination is a directory is emitted unchanged, consumes no answer, and the run continues over the later files exactly as if they came alone |
| Scenarios.TrailingNewlineConflict | index.js:27-39 | a destination differing only by a trailing newline is a conflict; `replace` emits the candidate with its own content |
| Transform.AskLoop | index.js:31-55 | the explicit render-and-ask-again loop computes the recursive prompt loop |
| Transform.Fold | index.js:19-63 | the explicit loop over the stream, deciding each file by the transform's branches and the re-prompt loop and stopping at the first file that is not acknowledged, computes the recursive stream fold |

## Findings

| source | as written | input that shows it | evidently intended | confidence | as-written member | corrected member |
|---|---|---|---|---|---|---|
| test/conflict_test.js:99-132 | the replace-all test answers every prompt with `replaceAll` and expects both files emitted | conflicting files, each answered `replaceAll` (the test uses two): the switch has no case for it, so every one is skipped and nothing is emitted | the test answers `all`, the value the menu gives for key a, and both files are emitted | not executed | Scenarios.ReplaceAllValueSkipsEachFile | Scenarios.ReplaceAllOnFirstConflict |

## Left out

- Path resolution (`path.resolve` with `opt.cwd` or the process working
  directory, index.js:15-20) is a library call. Each arriving file carries
  its destination status instead, so `opt` is not modelled.
- The `fs.stat`, `fs.readFile` and `fs.readFileSync` calls are filesystem
  I/O. Their results are the `Destination` value of each arriving file. UTF-8
  decoding is not modelled: contents are compared as abstract strings.
- Interactive prompting through `inquirer` (index.js:67-95) is a foreign
  library. It is a queue of raw values. The menu and its keys are modelled;
  the prompt's own rendering and key validation are not.
- Diff computation and rendering (`diff.diffLines`, `formatPart`,
  `colorFromPart`, index.js:104-125) use a foreign library and terminal
  colours. Only the number of diffs rendered is recorded.
- Logging (index.js:127-130) is informational only and never affects control
  flow. Error message texts are not modelled either; errors are the `Error`
  constructors.
- The through2 stream machinery and `process.exit` are host plumbing.
  Acknowledgement (`cb()`) is a file outcome that lets the fold move on, and
  the process exit is the `Aborted` end.
