/** Removing the selected paths and reporting on each (`deleteFiles`,
    gopher-tidy.go:162-183). The results of `os.RemoveAll` are an input:
    one per path, in order. */
module Deletion {
  import opened Common
  import opened Fs
  import opened Shell

  /** The report for one path. */
  datatype Outcome =
    | Deleted(path: string)
    | PermissionDenied(path: string, remedy: string)
    | Failed(path: string, err: FsError)

  /** How the result of removing one path is reported
      (gopher-tidy.go:168-180): success, a refusal for lack of permission
      together with the command that would remove the path with
      administrator rights, or any other error as it came. */
  function Classify(path: string, res: RemoveResult): (o: Outcome)
    ensures o.path == path
    ensures o.Deleted? <==> res.Removed?
    ensures o.PermissionDenied? <==> res.RemoveFailed? && res.err.Permission?
    ensures o.PermissionDenied? ==> RemovedPath(o.remedy) == Some(path)
    ensures o.PermissionDenied? && Plain(path) ==>
      o.remedy == "sudo rm -rf \"" + path + "\""
    ensures o.Failed? ==> res == RemoveFailed(o.err) && !o.err.Permission?
  {
    match res
    case Removed => Deleted(path)
    case RemoveFailed(err) =>
      if err.Permission? then
        RemedyRoundTrip(path);
        assert Plain(path) ==> RemedyCommand(path) == AsWrittenRemedy(path) by {
          if Plain(path) {
            RemedyAsWrittenWhenPlain(path);
          }
        }
        PermissionDenied(path, RemedyCommand(path))
      else Failed(path, err)
  }

  /** The loop over the selection (gopher-tidy.go:164-181): every path is
      attempted and reported in selection order; a failure does not stop
      the ones after it. */
  method DeleteFiles(paths: seq<string>, results: seq<RemoveResult>) returns (outcomes: seq<Outcome>)
    requires |results| == |paths|
    ensures |outcomes| == |paths|
    ensures forall i :: 0 <= i < |paths| ==> outcomes[i] == Classify(paths[i], results[i])
  {
    outcomes := [];
    var i := 0;
    while i < |paths|
      invariant 0 <= i <= |paths|
      invariant |outcomes| == i
      invariant forall k :: 0 <= k < i ==> outcomes[k] == Classify(paths[k], results[k])
    {
      outcomes := outcomes + [Classify(paths[i], results[i])];
      i := i + 1;
    }
  }
}
