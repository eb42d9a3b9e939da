/** One spawned download task: parse the URL, derive the file name,
    resolve the output path once, then run the retry controller against
    that path. */
module Download {
  import opened Common
  import UrlFileName
  import OutputPath
  import Retry

  /** What a task reports: the URL was rejected, the file was saved at a
      path, or every attempt failed. */
  datatype TaskOutcome<E> =
    | InvalidUrl
    | Saved(path: OutputPath.Path)
    | Failed(url: UrlFileName.Url, error: Retry.RetryError<E>)

  /** The path a task for `url` writes to, fixed before its first attempt. */
  function TargetPath(url: UrlFileName.Url, existing: set<OutputPath.Path>, outDir: string, overwrite: bool)
    : (p: OutputPath.Path)
    ensures p.dir == outDir
    ensures overwrite ==> p.name == UrlFileName.FileNameFromUrl(url)
    ensures !overwrite && p.name != UrlFileName.FileNameFromUrl(url) ==> p !in existing
  {
    OutputPath.ResolvedPath(existing, outDir, UrlFileName.FileNameFromUrl(url), overwrite)
  }

  /** The task body. `parsed` is the URL parser's verdict (None for a
      malformed URL), `existing` the files present when the path is
      resolved, and `once` the outcome of each download attempt into the
      resolved path. */
  function RunTask<E>(parsed: Option<UrlFileName.Url>, existing: set<OutputPath.Path>, outDir: string,
                      overwrite: bool, once: nat -> Retry.Attempt<E>, retries: nat, backoffMs: nat)
    : (o: TaskOutcome<E>)
    ensures parsed.None? <==> o.InvalidUrl?
    ensures parsed.Some? ==>
              (o.Saved? <==> exists n :: 1 <= n <= Retry.MaxAttempts(retries) && once(n).Done?)
    ensures o.Saved? ==> o.path == TargetPath(parsed.value, existing, outDir, overwrite)
    ensures o.Failed? ==> o.url == parsed.value
    ensures o.Failed? ==> o.error == Retry.LastAttempt(once(Retry.MaxAttempts(retries)).error)
  {
    match parsed
    case None => InvalidUrl
    case Some(url) =>
      var path := TargetPath(url, existing, outDir, overwrite);
      var t := Retry.Retry(once, retries, backoffMs);
      Retry.SucceedsIffSomeAttemptSucceeds(once, retries, backoffMs);
      match t.result
      case Ok(_) => Saved(path)
      case Err(e) => Failed(url, e)
  }

  /** As written, tasks running together resolve against the same files:
      two URLs with the same file name, neither saved yet, both get the
      base path and write the same file. */
  lemma SameNameTasksCollide(u1: UrlFileName.Url, u2: UrlFileName.Url, existing: set<OutputPath.Path>, outDir: string)
    requires UrlFileName.FileNameFromUrl(u1) == UrlFileName.FileNameFromUrl(u2)
    requires OutputPath.Path(outDir, UrlFileName.FileNameFromUrl(u1)) !in existing
    ensures TargetPath(u1, existing, outDir, false) == TargetPath(u2, existing, outDir, false)
    ensures TargetPath(u1, existing, outDir, false) == OutputPath.Path(outDir, UrlFileName.FileNameFromUrl(u1))
  {
  }

  /** The elements of a sequence. */
  function Elems<T>(s: seq<T>): set<T> {
    set x | x in s
  }

  /** Resolution with reservation: each name is resolved against the
      existing files plus the paths reserved for the names before it, as
      when a task claims its file at the moment it picks the path. */
  function ReservePaths(names: seq<string>, existing: set<OutputPath.Path>, outDir: string): (ps: seq<OutputPath.Path>)
    ensures |ps| == |names|
    ensures forall j :: 0 <= j < |ps| ==>
              ps[j] == OutputPath.ResolvedPath(existing + Elems(ps[..j]), outDir, names[j], false)
    decreases |names|
  {
    if |names| == 0 then []
    else
      var init := ReservePaths(names[..|names| - 1], existing, outDir);
      var ps := init + [OutputPath.ResolvedPath(existing + Elems(init), outDir, names[|names| - 1], false)];
      ReservedPrefix(init, ps);
      ps
  }

  /** Each prefix of the extended sequence is a prefix of the old one, or
      the old one itself. */
  lemma ReservedPrefix<T>(init: seq<T>, ps: seq<T>)
    requires |ps| == |init| + 1 && ps[..|init|] == init
    ensures forall j :: 0 <= j < |init| ==> ps[..j] == init[..j] && ps[j] == init[j]
  {
    forall j | 0 <= j < |init|
      ensures ps[..j] == init[..j] && ps[j] == init[j]
    {
      assert ps[..j] == ps[..|init|][..j];
    }
  }

  /** With reservation, a later name never gets a path reserved before it,
      unless every numbered candidate of that name is already taken. */
  lemma ReservedPathsDistinct(names: seq<string>, existing: set<OutputPath.Path>, outDir: string, i: nat, j: nat)
    requires i < j < |names|
    ensures var ps := ReservePaths(names, existing, outDir);
            ps[i] != ps[j] ||
            OutputPath.AllTaken(existing + Elems(ps[..j]), outDir, names[j], 1, OutputPath.MaxSuffix + 1)
  {
    var ps := ReservePaths(names, existing, outDir);
    assert ps[..j][i] == ps[i];
    assert ps[i] in existing + Elems(ps[..j]);
  }
}
