/**
 The orchestrator: parse the size limit, open the repository, list the
 tracked paths, validate every pointer, optionally scan for large untracked
 files, and map the outcome to the process exit code.
 */
module Orchestrator {
  import opened Common
  import LsFiles
  import Pointers
  import LargeFiles

  /** Everything the run learns from outside: the parsed `--size-limit`,
      whether the repository opens, the `git ls-files -z` output, the order
      in which the tracked-path map is iterated, what the pointer-check
      processes do per path, and HEAD's tree. */
  datatype Environment = Environment(
    sizeLimit: Attempt<uint64>,
    openFailure: Option<string>,
    listing: Attempt<seq<byte>>,
    order: seq<Path>,
    probe: Path -> Pointers.PointerProbe,
    headTree: Attempt<LargeFiles.TreeWalk>)

  /** The iteration order visits every tracked path exactly once. */
  ghost predicate WellFormed(env: Environment)
  {
    env.listing.Done? ==> Pointers.Enumerates(env.order, LsFiles.TrackedPaths(env.listing.value))
  }

  /** The parsed size, narrowed to a non-negative `int64`: the largest
      `int64` that does not exceed it. */
  function Threshold(size: uint64): (t: int64)
    ensures 0 <= t
    ensures t as int <= size as int
    ensures t as int == size as int || (t == MaxInt64 && size as int > MaxInt64 as int)
  {
    if size as int > MaxInt64 as int then MaxInt64 else size as int as int64
  }

  function Verdicts(env: Environment): Path -> Result<bool>
  {
    p => Pointers.ValidatePointer(env.probe(p))
  }

  /** The run passes: every step succeeds, every tracked path holds a valid
      pointer, and, when the size check is on, HEAD's tree is walked to the
      end without finding a large untracked file. */
  ghost predicate Passes(env: Environment)
  {
    && env.sizeLimit.Done?
    && env.openFailure.None?
    && env.listing.Done?
    && (forall p :: p in LsFiles.TrackedPaths(env.listing.value) ==>
          Pointers.ValidatePointer(env.probe(p)) == Ok(true))
    && (env.sizeLimit.value > 0 ==>
          && env.headTree.Done?
          && env.headTree.value.failure.None?
          && LargeFiles.NoViolation(env.headTree.value.files, LsFiles.TrackedPaths(env.listing.value),
                                    Threshold(env.sizeLimit.value)))
  }

  /** The run returns an error: the size limit does not parse, the
      repository does not open, the listing fails, some tracked path's
      pointer check fails to run, or, with the size check on, HEAD's tree
      cannot be resolved or walked to the end. */
  ghost predicate Aborts(env: Environment)
  {
    || env.sizeLimit.Failed?
    || env.openFailure.Some?
    || env.listing.Failed?
    || (exists p :: p in LsFiles.TrackedPaths(env.listing.value) &&
          Pointers.ValidatePointer(env.probe(p)).Err?)
    || (env.sizeLimit.value > 0 && (env.headTree.Failed? || env.headTree.value.failure.Some?))
  }

  /** `run`: the overall success flag, the error (if any), and the lines
      printed along the way. */
  function Run(env: Environment): (r: Report)
    requires WellFormed(env)
    ensures r.failure.Some? ==> !r.success
    ensures r.success <==> Passes(env)
    ensures r.failure.Some? <==> Aborts(env)
    ensures env.sizeLimit.Failed? ==> r.failure == Some(InvalidSizeLimit(env.sizeLimit.detail))
    ensures env.sizeLimit.Done? && env.openFailure.Some? ==> r.failure == Some(OpenRepository(env.openFailure.value))
    ensures env.sizeLimit.Done? && env.openFailure.None? && env.listing.Failed? ==>
      r.failure == Some(ListFiles(env.listing.detail))
    ensures env.sizeLimit.Failed? || env.openFailure.Some? || env.listing.Failed? ==> r.output == []
    ensures r.failure.None? ==>
      forall p :: multiset(r.output)[InvalidPointer(p)]
                  == if p in LsFiles.TrackedPaths(env.listing.value)
                        && Pointers.ValidatePointer(env.probe(p)) == Ok(false) then 1 else 0
    ensures r.failure.None? ==>
      forall p :: UntrackedLargeFile(p) in r.output <==>
        && env.sizeLimit.value > 0
        && LargeFiles.ViolatorNamed(env.headTree.value.files, p, LsFiles.TrackedPaths(env.listing.value),
                                    Threshold(env.sizeLimit.value))
  {
    match env.sizeLimit
    case Failed(detail) => Report(false, Some(InvalidSizeLimit(detail)), [])
    case Done(size) =>
      var threshold := Threshold(size);
      if env.openFailure.Some? then Report(false, Some(OpenRepository(env.openFailure.value)), [])
      else match env.listing
        case Failed(detail) => Report(false, Some(ListFiles(detail)), [])
        case Done(out) =>
          var tracked := LsFiles.TrackedPaths(out);
          var validation := Pointers.ValidateLfsFiles(tracked, env.order, Verdicts(env));
          if validation.failure.Some? then Report(false, validation.failure, validation.output)
          else if threshold > 0 then
            var scan := LargeFiles.CheckLargeFiles(env.headTree, tracked, threshold);
            OutputOfBothPasses(validation.output, scan.output);
            if scan.failure.Some? then Report(false, scan.failure, validation.output + scan.output)
            else Report(validation.success && scan.success, None, validation.output + scan.output)
          else Report(validation.success, None, validation.output)
  }

  /** Joining the pointer pass's lines with the scan's keeps each kind of
      line exactly where it came from. */
  lemma OutputOfBothPasses(invalid: seq<Diagnostic>, untracked: seq<Diagnostic>)
    requires forall d | d in invalid :: d.InvalidPointer?
    requires forall d | d in untracked :: d.UntrackedLargeFile?
    ensures forall p :: multiset(invalid + untracked)[InvalidPointer(p)] == multiset(invalid)[InvalidPointer(p)]
    ensures forall p :: UntrackedLargeFile(p) in invalid + untracked <==> UntrackedLargeFile(p) in untracked
  {
    forall p
      ensures multiset(untracked)[InvalidPointer(p)] == 0
    {
      assert InvalidPointer(p) !in untracked;
    }
  }

  /** How the process ends: exit status, the message on standard error, and
      the lines on standard output. */
  datatype Exit = Exit(code: int, stderr: Option<Error>, stdout: seq<Diagnostic>)

  /** `main`: print the error if there is one, and exit with 1 unless the
      run succeeded. */
  function Terminate(env: Environment): (e: Exit)
    requires WellFormed(env)
    ensures e.code == 0 <==> Passes(env)
    ensures e.code == 0 || e.code == 1
    ensures e.stderr.Some? ==> e.code == 1
    ensures e.stderr.Some? <==> Aborts(env)
    ensures e.stderr == Run(env).failure && e.stdout == Run(env).output
  {
    var r := Run(env);
    Exit(if r.success then 0 else 1, r.failure, r.output)
  }

  /** With the size limit at 0 the tree is never consulted. */
  lemma ScanSkippedWhenDisabled(env: Environment, tree: Attempt<LargeFiles.TreeWalk>)
    requires WellFormed(env)
    requires env.sizeLimit == Done(0)
    ensures Run(env.(headTree := tree)) == Run(env)
  {
  }

  /** An unparsable size limit is reported before the repository, the
      listing or the tree is looked at. */
  lemma SizeLimitCheckedFirst(env: Environment, other: Environment)
    requires WellFormed(env) && WellFormed(other)
    requires env.sizeLimit.Failed? && other.sizeLimit == env.sizeLimit
    ensures Run(env) == Run(other)
  {
  }

  /** An error from a pointer check ends the run with that error, and the
      Invalid LFS Pointer lines printed before it stay printed; the tree is
      not consulted. */
  lemma RunStopsAtPointerError(env: Environment)
    requires WellFormed(env)
    requires env.sizeLimit.Done? && env.openFailure.None? && env.listing.Done?
    ensures var tracked := LsFiles.TrackedPaths(env.listing.value);
      var validation := Pointers.ValidateLfsFiles(tracked, env.order, Verdicts(env));
      validation.failure.Some? ==> Run(env) == validation
  {
  }

  /** With the size check on, the outcome is the conjunction of the pointer
      pass and the scan, and their lines are printed in that order. */
  lemma RunCombinesChecks(env: Environment)
    requires WellFormed(env)
    requires env.sizeLimit.Done? && env.openFailure.None? && env.listing.Done?
    ensures var tracked := LsFiles.TrackedPaths(env.listing.value);
      var validation := Pointers.ValidateLfsFiles(tracked, env.order, Verdicts(env));
      var scan := LargeFiles.CheckLargeFiles(env.headTree, tracked, Threshold(env.sizeLimit.value));
      validation.failure.None? && env.sizeLimit.value > 0 ==>
        Run(env) == Report(validation.success && scan.success, scan.failure, validation.output + scan.output)
  {
  }

  /** A repository with no tracked files and the size check off passes. */
  lemma EmptyRepositoryPasses(env: Environment)
    requires WellFormed(env)
    requires env.sizeLimit == Done(0) && env.openFailure.None?
    requires env.listing.Done? && LsFiles.TrackedPaths(env.listing.value) == {}
    ensures Terminate(env) == Exit(0, None, [])
  {
    Pointers.EnumerationLength(env.order, {});
  }

  /** One tracked file with a broken pointer and the size check off: exit
      status 1 and exactly one line, naming that file. */
  lemma OneInvalidPointerFails(env: Environment, path: Path)
    requires WellFormed(env)
    requires env.sizeLimit == Done(0) && env.openFailure.None?
    requires env.listing.Done? && LsFiles.TrackedPaths(env.listing.value) == {path}
    requires Pointers.ValidatePointer(env.probe(path)) == Ok(false)
    ensures Terminate(env) == Exit(1, None, [InvalidPointer(path)])
  {
    var order, tracked := env.order, LsFiles.TrackedPaths(env.listing.value);
    Pointers.EnumerationLength(order, tracked);
    assert order[0] in order;
    assert order == [path];
    assert order[1..] == [];
    assert Verdicts(env)(path) == Ok(false);
    assert Pointers.ValidateFiles(order, Verdicts(env)) == Report(false, None, [InvalidPointer(path)]);
  }
}
