/** What the file system reports back to the tool. The kinds follow the
    checks the tool makes on an error (`os.IsPermission`). */
module Fs {

  datatype FsError =
    | Permission(detail: string)
    | NotFound(detail: string)
    | Other(detail: string)

  /** The result of one `os.RemoveAll` call. */
  datatype RemoveResult = Removed | RemoveFailed(err: FsError)
}
