/**
 The pointer validator: the per-path verdict of `git cat-file blob HEAD:<path>`
 piped into `git-lfs pointer check --stdin`, and the pass over every tracked
 path that folds those verdicts into one success flag.
 */
module Pointers {
  import opened Common

  /** What the two collaborators did for one path. Each `...Failure` holds the
      error text of a step that failed; `checkExitCode` is the pointer
      checker's exit status (-1 when a signal ended it). */
  datatype PointerProbe = PointerProbe(
    pipeFailure: Option<string>,
    checkStartFailure: Option<string>,
    catFailure: Option<string>,
    checkExitCode: int)

  /** The verdict for one path: an error when the pipe cannot be set up, the
      checker cannot start, or cat-file fails; otherwise valid exactly when
      the checker exits with status 0. */
  function ValidatePointer(probe: PointerProbe): (verdict: Result<bool>)
    ensures verdict.Err? <==>
      probe.pipeFailure.Some? || probe.checkStartFailure.Some? || probe.catFailure.Some?
    ensures verdict == Ok(true) <==>
      && probe.pipeFailure.None? && probe.checkStartFailure.None? && probe.catFailure.None?
      && probe.checkExitCode == 0
  {
    if probe.pipeFailure.Some? then Err(PipeSetup(probe.pipeFailure.value))
    else if probe.checkStartFailure.Some? then Err(StartPointerCheck(probe.checkStartFailure.value))
    else if probe.catFailure.Some? then Err(CatFile(probe.catFailure.value))
    else Ok(probe.checkExitCode == 0)
  }

  /** The order in which a Go map is iterated: every key exactly once. */
  ghost predicate Enumerates(order: seq<Path>, keys: set<Path>)
  {
    && (forall i, j :: 0 <= i < j < |order| ==> order[i] != order[j])
    && (forall p :: p in order <==> p in keys)
  }

  /** Iterating a map visits as many paths as it has keys. */
  lemma {:induction false} EnumerationLength(order: seq<Path>, keys: set<Path>)
    requires Enumerates(order, keys)
    ensures |order| == |keys|
  {
    if order == [] {
      assert forall p :: p !in keys;
      assert keys == {};
    } else {
      var x, rest := order[0], order[1..];
      forall p
        ensures p in rest <==> p in keys - {x}
      {
        if p in rest {
          var i :| 0 <= i < |rest| && rest[i] == p;
          assert order[i + 1] == p;
        }
        if p in keys - {x} {
          assert p in order;
          var i :| 0 <= i < |order| && order[i] == p;
          assert rest[i - 1] == p;
        }
      }
      forall i, j | 0 <= i < j < |rest|
        ensures rest[i] != rest[j]
      {
        assert rest[i] == order[i + 1] && rest[j] == order[j + 1];
      }
      EnumerationLength(rest, keys - {x});
      assert x in keys;
    }
  }

  ghost predicate AllValid(order: seq<Path>, verdict: Path -> Result<bool>)
  {
    forall i :: 0 <= i < |order| ==> verdict(order[i]) == Ok(true)
  }

  ghost predicate NoneFails(order: seq<Path>, verdict: Path -> Result<bool>)
  {
    forall i :: 0 <= i < |order| ==> verdict(order[i]).Ok?
  }

  /** One pass of the validation loop over `order`: an invalid pointer prints
      a line and clears success; the first error ends the pass. */
  function ValidateFiles(order: seq<Path>, verdict: Path -> Result<bool>): (r: Report)
    ensures r.failure.Some? ==> !r.success
    ensures r.failure.Some? ==>
      && r.failure.value.Processing?
      && r.failure.value.path in order
      && verdict(r.failure.value.path) == Err(r.failure.value.cause)
    ensures forall d | d in r.output ::
      d.InvalidPointer? && d.path in order && verdict(d.path) == Ok(false)
  {
    if order == [] then Report(true, None, [])
    else
      var p := order[0];
      match verdict(p)
      case Err(e) => Report(false, Some(Processing(p, e)), [])
      case Ok(valid) =>
        var rest := ValidateFiles(order[1..], verdict);
        Report(valid && rest.success, rest.failure,
               (if valid then [] else [InvalidPointer(p)]) + rest.output)
  }

  lemma {:induction false} ValidateFailsIffSomePathFails(order: seq<Path>, verdict: Path -> Result<bool>)
    ensures ValidateFiles(order, verdict).failure.None? <==> NoneFails(order, verdict)
  {
    if order != [] {
      ValidateFailsIffSomePathFails(order[1..], verdict);
      if verdict(order[0]).Ok? {
        assert NoneFails(order, verdict) <==> NoneFails(order[1..], verdict);
      }
    }
  }

  lemma {:induction false} ValidateSucceedsIffAllValid(order: seq<Path>, verdict: Path -> Result<bool>)
    ensures var r := ValidateFiles(order, verdict);
      r.success && r.failure.None? <==> AllValid(order, verdict)
    ensures AllValid(order, verdict) ==> ValidateFiles(order, verdict).output == []
  {
    if order != [] {
      ValidateSucceedsIffAllValid(order[1..], verdict);
      if verdict(order[0]) == Ok(true) {
        assert AllValid(order, verdict) <==> AllValid(order[1..], verdict);
      }
    }
  }

  /** With no errors, each path with an `Ok(false)` verdict is reported as
      often as it occurs in `order`, and nothing else is reported. */
  lemma {:induction false} ValidateReportsInvalid(order: seq<Path>, verdict: Path -> Result<bool>)
    requires NoneFails(order, verdict)
    ensures forall p :: multiset(ValidateFiles(order, verdict).output)[InvalidPointer(p)]
                        == if verdict(p) == Ok(false) then multiset(order)[p] else 0
  {
    if order != [] {
      var p, rest := order[0], order[1..];
      assert order == [p] + rest;
      assert NoneFails(rest, verdict) by {
        forall i | 0 <= i < |rest|
          ensures verdict(rest[i]).Ok?
        {
          assert rest[i] == order[i + 1];
        }
      }
      ValidateReportsInvalid(rest, verdict);
      var line := if verdict(p).value then [] else [InvalidPointer(p)];
      assert ValidateFiles(order, verdict).output == line + ValidateFiles(rest, verdict).output;
      assert multiset(order) == multiset{p} + multiset(rest);
    }
  }

  /** With no errors, the pass succeeds exactly when every verdict is valid. */
  lemma ValidateFlagWithoutError(order: seq<Path>, verdict: Path -> Result<bool>)
    requires NoneFails(order, verdict)
    ensures var r := ValidateFiles(order, verdict);
      r.failure.None? && (r.success <==> forall i :: 0 <= i < |order| ==> verdict(order[i]).value)
  {
    ValidateFailsIffSomePathFails(order, verdict);
    ValidateSucceedsIffAllValid(order, verdict);
  }

  /** The pass stops at the first path whose verdict is an error: what was
      printed before it stays printed, and nothing after it is looked at. */
  lemma {:induction false} ValidateStopsAtFirstError(order: seq<Path>, verdict: Path -> Result<bool>, k: nat)
    requires k < |order| && verdict(order[k]).Err?
    requires NoneFails(order[..k], verdict)
    ensures ValidateFiles(order, verdict) ==
      Report(false, Some(Processing(order[k], verdict(order[k]).error)),
             ValidateFiles(order[..k], verdict).output)
  {
    if k > 0 {
      assert order[1..][..k - 1] == order[..k][1..];
      var before := order[1..][..k - 1];
      assert NoneFails(before, verdict) by {
        forall i | 0 <= i < |before|
          ensures verdict(before[i]).Ok?
        {
          assert before[i] == order[..k][i + 1];
        }
      }
      ValidateStopsAtFirstError(order[1..], verdict, k - 1);
      assert verdict(order[..k][0]).Ok?;
    }
  }

  lemma {:induction false} DistinctCounts(order: seq<Path>)
    requires forall i, j :: 0 <= i < j < |order| ==> order[i] != order[j]
    ensures forall p :: multiset(order)[p] == if p in order then 1 else 0
  {
    if order != [] {
      var rest := order[1..];
      assert order == [order[0]] + rest;
      DistinctCounts(rest);
      assert order[0] !in rest;
    }
  }

  /** `validateLfsFiles`: the pass over the tracked set in the map's
      iteration order. */
  function ValidateLfsFiles(tracked: set<Path>, order: seq<Path>, verdict: Path -> Result<bool>): (r: Report)
    requires Enumerates(order, tracked)
    ensures r.success && r.failure.None? <==> forall p :: p in tracked ==> verdict(p) == Ok(true)
    ensures r.failure.None? <==> forall p :: p in tracked ==> verdict(p).Ok?
    ensures r.failure.Some? ==>
      && !r.success
      && r.failure.value.Processing?
      && r.failure.value.path in tracked
      && verdict(r.failure.value.path) == Err(r.failure.value.cause)
    ensures r.failure.None? ==>
      forall p :: multiset(r.output)[InvalidPointer(p)]
                  == if p in tracked && verdict(p) == Ok(false) then 1 else 0
    ensures forall d | d in r.output :: d.InvalidPointer?
  {
    ValidateFailsIffSomePathFails(order, verdict);
    ValidateSucceedsIffAllValid(order, verdict);
    DistinctCounts(order);
    assert NoneFails(order, verdict) ==>
      forall p :: multiset(ValidateFiles(order, verdict).output)[InvalidPointer(p)]
                  == if verdict(p) == Ok(false) then multiset(order)[p] else 0
    by {
      if NoneFails(order, verdict) {
        ValidateReportsInvalid(order, verdict);
      }
    }
    ValidateFiles(order, verdict)
  }

  /** Go leaves the map's iteration order unspecified; whatever it is, the
      flag, whether an error occurs, and (without one) the reported lines
      up to order are the same. */
  lemma ValidateOrderIrrelevant(tracked: set<Path>, order1: seq<Path>, order2: seq<Path>, verdict: Path -> Result<bool>)
    requires Enumerates(order1, tracked) && Enumerates(order2, tracked)
    ensures var r1, r2 := ValidateLfsFiles(tracked, order1, verdict), ValidateLfsFiles(tracked, order2, verdict);
      && r1.success == r2.success
      && r1.failure.None? == r2.failure.None?
      && (r1.failure.None? ==> multiset(r1.output) == multiset(r2.output))
  {
    var r1, r2 := ValidateLfsFiles(tracked, order1, verdict), ValidateLfsFiles(tracked, order2, verdict);
    if r1.failure.None? {
      forall d
        ensures multiset(r1.output)[d] == multiset(r2.output)[d]
      {
        if d.UntrackedLargeFile? {
          assert d !in r1.output && d !in r2.output;
        }
      }
    }
  }
}
