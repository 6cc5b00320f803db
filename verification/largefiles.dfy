/**
 The large-file scanner: every file of HEAD's tree at or above the size
 threshold must be one of the LFS-tracked paths.
 */
module LargeFiles {
  import opened Common

  /** A file of the tree: its full relative path and its size in bytes. */
  datatype FileEntry = FileEntry(name: Path, size: int64)

  /** A walk over HEAD's tree: the files visited, in order, and the error
      the walk itself stopped with, if any. */
  datatype TreeWalk = TreeWalk(files: seq<FileEntry>, failure: Option<string>)

  /** A file the scan reports: large enough to matter and not tracked. */
  predicate Violates(f: FileEntry, tracked: set<Path>, threshold: int64)
  {
    f.size >= threshold && f.name !in tracked
  }

  ghost predicate NoViolation(files: seq<FileEntry>, tracked: set<Path>, threshold: int64)
  {
    forall i :: 0 <= i < |files| ==> !Violates(files[i], tracked, threshold)
  }

  /** Some file named `p` violates the rule. */
  ghost predicate ViolatorNamed(files: seq<FileEntry>, p: Path, tracked: set<Path>, threshold: int64)
  {
    exists i :: 0 <= i < |files| && files[i].name == p && Violates(files[i], tracked, threshold)
  }

  /** The `ForEach` callback applied to every visited file: small files are
      skipped, large untracked ones are reported and clear success. */
  function ScanFiles(files: seq<FileEntry>, tracked: set<Path>, threshold: int64): (r: Report)
    ensures r.failure.None?
    ensures r.success <==> r.output == []
    ensures forall d | d in r.output :: d.UntrackedLargeFile?
  {
    if files == [] then Report(true, None, [])
    else
      var f := files[0];
      var rest := ScanFiles(files[1..], tracked, threshold);
      if f.size < threshold then rest
      else if f.name !in tracked then
        Report(false, None, [UntrackedLargeFile(f.name)] + rest.output)
      else rest
  }

  /** Scanning two runs of files is scanning each in turn: the scan never
      stops early and keeps the order of the tree. */
  lemma {:induction false} ScanConcat(a: seq<FileEntry>, b: seq<FileEntry>, tracked: set<Path>, threshold: int64)
    ensures ScanFiles(a + b, tracked, threshold) ==
      Report(ScanFiles(a, tracked, threshold).success && ScanFiles(b, tracked, threshold).success, None,
             ScanFiles(a, tracked, threshold).output + ScanFiles(b, tracked, threshold).output)
  {
    if a == [] {
      assert a + b == b;
    } else {
      assert (a + b)[1..] == a[1..] + b;
      ScanConcat(a[1..], b, tracked, threshold);
    }
  }

  /** A single file contributes one line exactly when it violates the rule. */
  lemma ScanOne(f: FileEntry, tracked: set<Path>, threshold: int64)
    ensures ScanFiles([f], tracked, threshold) ==
      if Violates(f, tracked, threshold) then Report(false, None, [UntrackedLargeFile(f.name)])
      else Report(true, None, [])
  {
    assert [f][1..] == [];
  }

  /** Where a file sits in the tree, its line (if any) sits in the output. */
  lemma ScanEntryContribution(a: seq<FileEntry>, f: FileEntry, b: seq<FileEntry>, tracked: set<Path>, threshold: int64)
    ensures ScanFiles(a + [f] + b, tracked, threshold).output ==
      ScanFiles(a, tracked, threshold).output
      + (if Violates(f, tracked, threshold) then [UntrackedLargeFile(f.name)] else [])
      + ScanFiles(b, tracked, threshold).output
  {
    ScanConcat(a + [f], b, tracked, threshold);
    ScanConcat(a, [f], tracked, threshold);
    ScanOne(f, tracked, threshold);
  }

  /** A file below the threshold, or a tracked one, changes nothing. */
  lemma ScanIgnoresCompliantFile(a: seq<FileEntry>, f: FileEntry, b: seq<FileEntry>, tracked: set<Path>, threshold: int64)
    requires f.size < threshold || f.name in tracked
    ensures ScanFiles(a + [f] + b, tracked, threshold) == ScanFiles(a + b, tracked, threshold)
  {
    ScanConcat(a + [f], b, tracked, threshold);
    ScanConcat(a, [f], tracked, threshold);
    ScanConcat(a, b, tracked, threshold);
    ScanOne(f, tracked, threshold);
  }

  lemma {:induction false} ScanSucceedsIffNoViolation(files: seq<FileEntry>, tracked: set<Path>, threshold: int64)
    ensures ScanFiles(files, tracked, threshold).success <==> NoViolation(files, tracked, threshold)
  {
    if files != [] {
      ScanSucceedsIffNoViolation(files[1..], tracked, threshold);
      assert NoViolation(files, tracked, threshold) <==>
        !Violates(files[0], tracked, threshold) && NoViolation(files[1..], tracked, threshold)
      by {
        forall i | 0 <= i < |files[1..]|
          ensures files[1..][i] == files[i + 1]
        {
        }
      }
    }
  }

  /** The reported names are exactly the names of violating files. */
  lemma {:induction false} ScanReportsExactlyViolations(files: seq<FileEntry>, tracked: set<Path>, threshold: int64)
    ensures forall p :: UntrackedLargeFile(p) in ScanFiles(files, tracked, threshold).output <==>
      ViolatorNamed(files, p, tracked, threshold)
  {
    if files != [] {
      var rest := files[1..];
      ScanReportsExactlyViolations(rest, tracked, threshold);
      forall p
        ensures ViolatorNamed(files, p, tracked, threshold) <==>
          (files[0].name == p && Violates(files[0], tracked, threshold))
          || ViolatorNamed(rest, p, tracked, threshold)
      {
        if ViolatorNamed(files, p, tracked, threshold) {
          var i :| 0 <= i < |files| && files[i].name == p && Violates(files[i], tracked, threshold);
          if i > 0 {
            assert rest[i - 1] == files[i];
          }
        }
        if ViolatorNamed(rest, p, tracked, threshold) {
          var i :| 0 <= i < |rest| && rest[i].name == p && Violates(rest[i], tracked, threshold);
          assert files[i + 1] == rest[i];
        }
      }
    }
  }

  /** `checkLargeFiles`: resolving HEAD's tree can fail before any file is
      seen; a walk that fails midway keeps the lines already printed. Only
      those two failures are errors: a violation merely clears success. */
  function CheckLargeFiles(tree: Attempt<TreeWalk>, tracked: set<Path>, threshold: int64): (r: Report)
    ensures r.failure.Some? <==> tree.Failed? || tree.value.failure.Some?
    ensures r.failure.Some? ==> !r.success
    ensures r.success <==>
      && tree.Done? && tree.value.failure.None?
      && NoViolation(tree.value.files, tracked, threshold)
    ensures tree.Failed? ==> r.output == []
    ensures tree.Done? ==> r.output == ScanFiles(tree.value.files, tracked, threshold).output
    ensures tree.Done? ==> forall p :: UntrackedLargeFile(p) in r.output <==>
      ViolatorNamed(tree.value.files, p, tracked, threshold)
    ensures forall d | d in r.output :: d.UntrackedLargeFile?
  {
    match tree
    case Failed(detail) => Report(false, Some(Repository(detail)), [])
    case Done(walk) =>
      ScanSucceedsIffNoViolation(walk.files, tracked, threshold);
      ScanReportsExactlyViolations(walk.files, tracked, threshold);
      var scan := ScanFiles(walk.files, tracked, threshold);
      match walk.failure
      case Some(detail) => Report(false, Some(Repository(detail)), scan.output)
      case None => scan
  }
}
