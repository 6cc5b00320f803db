# lfs-pointer-check, modelled in Dafny

`lfs-pointer-check` audits a git working directory for two policy violations:

- a file tracked by the Git LFS filter whose committed blob is not a valid LFS pointer;
- a file at or above a size threshold that the LFS filter does not track.

It exits with status 1 when it finds either violation or hits any error.

This project models the decision logic underneath the process plumbing. The collaborators become plain inputs:

- the output of `git ls-files -z` is a byte sequence;
- each pointer check is a record of what `git cat-file` and `git-lfs pointer check` did;
- HEAD's tree is a finite sequence of (name, size) entries, plus the error that stopped the walk, if any.

Modules:

- `Common` (`common.dfy`): the `int64`/`uint64`/byte widths, paths as byte sequences, the error taxonomy, diagnostics, and the `Report` each stage returns (success flag, error, printed lines).
- `LsFiles` (`lsfiles.dfy`): `listLfsFiles`. It splits the output on NUL the way Go's `bytes.Split` does, drops empty segments and collects a set. `Split` is proved to be the inverse of `Join`. Its segments are proved to be exactly the NUL-delimited fields of the input, which `IsField` defines by indices.
- `Pointers` (`pointers.dfy`): `validateLfsPointer`'s verdict rule and the `validateLfsFiles` fold. Go leaves the map's iteration order unspecified, so the fold takes an explicit order (`Enumerates`: every key once). The lemmas hold for every such order.
- `LargeFiles` (`largefiles.dfy`): the `ForEach` callback of `checkLargeFiles` over the visited files, and the head/tree resolution errors around it.
- `Orchestrator` (`orchestrator.dfy`): `run` covers the clamp of the parsed size to `MaxInt64`, the gating of the scan on a positive threshold, and the AND of the results. `Terminate` is `main`'s mapping to an exit status. `Passes` states, without reference to the implementation, when a run succeeds.

`listLfsFiles` drops every empty segment (main.go:30-32), not only the one after the final NUL. So leading and doubled separators contribute nothing to the tracked set.

## Model

| member | source | states |
|---|---|---|
| LsFiles.Split | main.go:26 | splitting yields at least one segment, and no segment contains a NUL |
| LsFiles.JoinSplit | main.go:26 | re-joining the segments with NUL gives back the original output |
| LsFiles.SplitJoin | main.go:26 | splitting the NUL-join of NUL-free segments gives back exactly those segments (empty ones included) |
| LsFiles.SegmentsAreFields | main.go:26 | a byte string is a segment iff it is a NUL-delimited field of the output (bounded by NUL or an end on each side, no NUL inside) |
| LsFiles.TrackedPaths | main.go:26-35 | a path is in the tracked set iff it is a non-empty NUL-delimited field of the output; no tracked path is empty or contains NUL |
| LsFiles.TrackedPathsOfListing | main.go:26-35 | listing any segments yields exactly the set of the non-empty ones |
| LsFiles.ListingOrderIrrelevant | main.go:26-35 | two listings with the same non-empty paths, in any order, with any repetition and with or without empty segments, yield the same set |
| LsFiles.TerminatedListing | main.go:17-35 | the `-z` format (every path followed by NUL) yields exactly the listed paths; the trailing empty field is dropped |
| Pointers.ValidatePointer | main.go:40-59 | the verdict is an error iff the pipe setup, the checker's start or cat-file failed; it is `Ok(true)` iff none failed and the checker exited 0; a non-zero checker exit code is `Ok(false)`, never an error |
| Pointers.ValidateFiles | main.go:62-74 | an error clears success and names a visited path whose verdict was that error; every printed line is an Invalid LFS Pointer line for a visited path whose verdict was `Ok(false)` |
| Pointers.ValidateFailsIffSomePathFails | main.go:64-67 | the pass ends with an error iff some visited path's verdict is an error |
| Pointers.ValidateSucceedsIffAllValid | main.go:62-74 | the pass returns (true, no error) iff every verdict is `Ok(true)`, and then it prints nothing |
| Pointers.ValidateReportsInvalid | main.go:68-71 | with no errors, each `Ok(false)` path is reported as often as it is visited, and nothing else is reported |
| Pointers.ValidateFlagWithoutError | main.go:63-74 | with no errors, success holds iff every verdict says valid |
| Pointers.ValidateStopsAtFirstError | main.go:64-67 | at the first erroring path the pass returns (false, that error wrapped with the path); the lines printed are those of the earlier paths; later paths are never looked at |
| Pointers.EnumerationLength | main.go:64 | a map iteration visits exactly as many paths as the map has keys |
| Pointers.ValidateLfsFiles | main.go:62-74 | over the tracked set: (true, no error) iff every tracked path is `Ok(true)`; no error iff no tracked path errs; an error names a tracked path whose verdict is that error; without an error, each `Ok(false)` tracked path is reported exactly once and nothing else is |
| Pointers.ValidateOrderIrrelevant | main.go:64 | any two iteration orders of the tracked set give the same success flag, the same error/no-error outcome and (without an error) the same lines up to order |
| LargeFiles.ScanFiles | main.go:92-103 | the scan never errs, succeeds iff it prints nothing, and prints only Untracked large file lines |
| LargeFiles.ScanConcat | main.go:92-106 | scanning `a + b` is scanning `a` and then `b`: success is the AND, and the lines are concatenated in tree order (no early exit) |
| LargeFiles.ScanEntryContribution | main.go:93-101 | a file contributes exactly one line, in its place, iff its size is at least the threshold and it is not tracked; otherwise it contributes nothing |
| LargeFiles.ScanIgnoresCompliantFile | main.go:94-98 | removing a file below the threshold, or a tracked file, changes neither the result nor the output |
| LargeFiles.ScanSucceedsIffNoViolation | main.go:90-108 | the scan succeeds iff no file is both at or above the threshold and untracked |
| LargeFiles.ScanReportsExactlyViolations | main.go:98-101 | a name is reported iff some visited file with that name is at or above the threshold and untracked |
| LargeFiles.CheckLargeFiles | main.go:77-108 | an error is returned iff HEAD's tree cannot be resolved or the walk stops with an error; a violation only clears success, it is never an error; success holds iff the tree resolves, the walk completes and no file violates the rule; a resolution error prints nothing; otherwise the lines are exactly the scan's lines over the visited files, so a walk error keeps the lines already printed |
| Orchestrator.Threshold | main.go:129-137 | the threshold is non-negative and at most the parsed size; it equals the parsed size unless that exceeds `MaxInt64`, in which case it is `MaxInt64` |
| Orchestrator.Run | main.go:129-157 | an error is returned iff the size limit fails to parse, the repository fails to open, the listing fails, some tracked path's pointer check fails to run, or (size check on) HEAD's tree cannot be resolved or walked; any error comes with success false; the first three failures are reported as an invalid size limit, a failed open and the listing's own error, each checked in that order; a failure before the listing prints nothing; success holds iff every step succeeds, every tracked pointer is valid, and (size check on) no violation is found; without an error, each tracked path with an invalid pointer is reported exactly once, and the untracked-large-file names are exactly the violators when the size check is on and none otherwise |
| Orchestrator.Terminate | main.go:160-167 | the exit status is 0 or 1, and 0 iff the run passes; something is printed to stderr iff the run aborts with an error, and then the status is 1; stderr carries the run's error and stdout the run's lines |
| Orchestrator.ScanSkippedWhenDisabled | main.go:149-155 | with size limit 0, the result does not depend on HEAD's tree at all |
| Orchestrator.SizeLimitCheckedFirst | main.go:129-131 | an unparsable size limit decides the result before the repository, the listing or the tree is consulted |
| Orchestrator.RunStopsAtPointerError | main.go:146-147 | when a tracked path's pointer check fails to run, the run returns exactly the pointer pass's result: that error, success false, and the Invalid LFS Pointer lines printed before it; HEAD's tree is not consulted |
| Orchestrator.RunCombinesChecks | main.go:149-157 | with the size check on and no validation error, success is the AND of the pointer pass and the scan, and their lines appear in that order |
| Orchestrator.EmptyRepositoryPasses | main.go:146-167 | no tracked files with the size check off: exit 0, no error, no output |
| Orchestrator.OneInvalidPointerFails | main.go:146-167 | one tracked file with an invalid pointer and the size check off: exit 1, no error, exactly one Invalid LFS Pointer line naming it |

## Left out

- Process spawning and piping (`exec.Command`, `StdoutPipe`, `Start`, `Run`, `Wait`) are OS I/O with a concurrent pipe. Each path's pipe, start, cat-file and exit-status outcome is an input (`PointerProbe`). The ignored error of `check.Wait()` is not modelled. Neither is the pointer checker left unwaited when cat-file fails.
- go-git (`PlainOpen`, `Head`, `CommitObject`, `Tree`, `Files().ForEach`) is library code. Opening is an optional failure text. Head, commit and tree resolution together are one `Attempt<TreeWalk>`. The walk is the list of files visited plus the error it stopped with.
- `humanize.ParseBytes` is a third-party parser. Its result is an input: any `uint64` or a failure. The concrete size strings (`1MB`, `1kb`) are therefore not modelled.
- `kingpin` flag parsing and `os.Getwd` are ambient configuration. The working directory only addresses the collaborators, so it does not appear.
- Printing and `os.Exit` are side effects. Output is a sequence of `Diagnostic` values, not formatted text. The exit status is an integer. The exact message strings are not modelled.
- `Exit.stderr` holds only the error `main` prints. `git ls-files` and `git cat-file` write their own stderr straight to the process's stderr (main.go:19, main.go:43). That text is not modelled, so real stderr can carry text even on a run that exits 0.
- Go's map iteration order is unspecified, so it is an input. The model requires it to visit every tracked path once. The fold's properties are proved for every such order.
