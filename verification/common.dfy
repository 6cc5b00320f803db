/**
 Values shared by every part of the pointer checker: machine integer widths,
 byte-level paths, the tool's error taxonomy and the diagnostics it prints.
 */
module Common {

  newtype byte = x: int | 0 <= x < 0x100
  newtype uint64 = x: int | 0 <= x < 0x1_0000_0000_0000_0000
  newtype int64 = x: int | -0x8000_0000_0000_0000 <= x < 0x8000_0000_0000_0000

  const MaxInt64: int64 := 0x7fff_ffff_ffff_ffff

  /** The separator of `git ls-files -z` output. */
  const NUL: byte := 0

  /** A repository-relative path, as the bytes git prints for it. */
  type Path = seq<byte>

  datatype Option<+T> = None | Some(value: T)

  /** What a collaborator (a spawned process or a library call) handed back:
      its value, or the text of its failure. */
  datatype Attempt<+T> = Done(value: T) | Failed(detail: string)

  /** The errors the tool returns; each one aborts the run. */
  datatype Error =
    | InvalidSizeLimit(detail: string)
    | OpenRepository(detail: string)
    | ListFiles(detail: string)
    | PipeSetup(detail: string)
    | StartPointerCheck(detail: string)
    | CatFile(detail: string)
    | Processing(path: Path, cause: Error)
    | Repository(detail: string)

  datatype Result<+T> = Ok(value: T) | Err(error: Error)

  /** One line on standard output: `<path>: Invalid LFS Pointer` or
      `<path>: Untracked large file`. */
  datatype Diagnostic = InvalidPointer(path: Path) | UntrackedLargeFile(path: Path)

  /** What one stage hands back: its success flag, the error it aborted with
      (if any), and the lines it printed before returning. */
  datatype Report = Report(success: bool, failure: Option<Error>, output: seq<Diagnostic>)
}
