/** Types shared by every component: optional values, results and bytes. */
module Common {

  datatype Option<+T> = None | Some(value: T)

  datatype Result<+T, +E> = Ok(value: T) | Err(error: E)

  /** The exceptions that the storage backends and the service raise. */
  datatype Error =
    | InvalidFileName
    | FileExists
    | FileNotFound
    | FolderNotFound
    | FileTooLarge(size: nat, limit: nat)
    | InsufficientStorage(free: int, required: int)
    | ClientError(code: string)
    | OSError
    | ReadFailed
    | InvalidCursorError

  /** What the metadata endpoints report about one file. */
  datatype Metadata = Metadata(filename: string, size: nat, sha256: string)

  type byte = n: int | 0 <= n < 256

  function Min(a: int, b: int): int {
    if a <= b then a else b
  }

  function Max(a: int, b: int): int {
    if a >= b then a else b
  }

  /** Python's clamping slice `s[:n]` for a non-negative `n`. */
  function Take<T>(s: seq<T>, n: nat): seq<T> {
    if n <= |s| then s[..n] else s
  }

  /** ceil(a / b). */
  function CeilDiv(a: nat, b: nat): nat
    requires b > 0
  {
    (a + b - 1) / b
  }

  function Elements<T(==)>(s: seq<T>): set<T> {
    set x | x in s
  }

  lemma ElementsConcat<T>(a: seq<T>, b: seq<T>)
    ensures Elements(a + b) == Elements(a) + Elements(b)
  {
  }
}
