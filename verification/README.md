# mt-downloader, modelled in Dafny

mt-downloader is a small command-line tool that downloads several URLs
concurrently. For each URL it:

- derives a file name from the URL's last path segment;
- picks an output path that does not clobber an existing file by trying
  "stem (1).ext", "stem (2).ext", and so on;
- downloads with a bounded number of attempts and exponential backoff.

A semaphore limits how many downloads run at once.

This project models that core as pure functions over immutable data and
proves properties of it:

- `UrlFileName`: the file name taken from a URL. A URL is reduced to its
  serialized path. Path segments behave as the url crate defines them:
  there are none unless the path starts with '/', and empty segments are
  kept.
- `OutputPath`: output-path resolution. The filesystem is the set of paths
  that exist. It includes Rust's `Path::file_name`, `file_stem` and
  `extension` on Unix.
- `Retry`: the retry controller. A single download attempt is an oracle
  `once(n)`, the outcome of the n-th call. Sleeps are recorded, not
  performed.
- `Download`: one spawned task (parse, name, resolve, retry).
- `Scheduler`: the permit accounting of the main loop, as a sequential
  event system in which admitting a URL takes a permit and finishing a
  task returns it.
- `Strings` and `Common`: splitting and joining at a separator, decimal
  rendering of numbers, and `Option`/`Result`.

## Model

| member | source | states |
|---|---|---|
| UrlFileName.PathSegments | src/main.rs:101 | segments exist exactly when the path starts with '/'; joined with '/' they give back the rest of the path, and none contains '/' |
| UrlFileName.FileNameFromUrl | src/main.rs:100-106 | the name is never empty and never contains '/' |
| UrlFileName.FileNameIsLastPathSegment | src/main.rs:100-106 | a path not starting with '/', or ending in '/', gives "download"; otherwise the name is the text after the last '/' |
| UrlFileName.FileNameOfDirectoryPath | src/main.rs:103-104 | a path ending in '/' falls back to "download" |
| UrlFileName.FileNameAfterLastSlash | src/main.rs:101-103 | a non-empty text after the path's last '/' is the name |
| UrlFileName.LastSlash | src/main.rs:101-104 | the last segment is exactly the text after the last '/' of the path, and the name is that segment or "download" when it is empty |
| UrlFileName.DefaultNameExactlyWhenNoLastSegment | src/main.rs:102-104 | the name is "download" if and only if there are no segments, or the last one is empty or is itself "download" |
| OutputPath.FileName | src/main.rs:115-122 | the file name is the path's last component, skipping empty and "." pieces: none when there is no component or the last one is "..", else that component, which is never empty, ".", ".." or holds '/' |
| OutputPath.LastNormal | src/main.rs:115-122 | among '/'-free pieces, the result is fixed by the last piece that is neither empty nor ".": none when there is no such piece or it is "..", else that piece |
| OutputPath.NamelessBase | src/main.rs:115-122 | "", "." and ".." have no file name, so their candidates use the stem "file" and no extension |
| OutputPath.FileStem | src/main.rs:115-118 | a stem exists exactly when a file name exists; it is a non-empty prefix of the file name without '/', and the whole file name exactly when no '.' follows the file name's first character |
| OutputPath.Extension | src/main.rs:119-122 | an extension exists exactly when the file name has a '.' after its first character; then the file name is stem + "." + extension and the extension has no '.'; without one, the stem is the whole file name |
| OutputPath.CandidateStem | src/main.rs:115-118 | the file stem, or "file" when the base has no file name; never empty and without '/' |
| OutputPath.CandidateExt | src/main.rs:119-122 | the extension, or "" when there is none; never holds '.' or '/' |
| OutputPath.CandidateName | src/main.rs:125-129 | the numbered name starts with the stem, ends in "." + ext for a non-empty extension and in ")" otherwise, and holds no '/' when stem and extension hold none |
| OutputPath.Candidate | src/main.rs:125-129 | each numbered candidate lies in the output directory itself: its name has no '/' |
| OutputPath.FileNameOfPlainName | src/main.rs:115-116 | a single normal component is its own file name |
| OutputPath.SplitAtLastDot | src/main.rs:115-122 | with an extension, name = stem + "." + ext, where the stem is non-empty and the extension has no '.'; without one, the stem is the whole name; ".." never has an extension, and any other non-empty name has one exactly when a '.' follows its first character |
| OutputPath.CandidateNamesDistinct | src/main.rs:124-129 | two numbered names of one base are equal only for the same number |
| OutputPath.FirstFreeIndex | src/main.rs:124-133 | the result is the least suffix from `from` up to 9999 whose candidate does not exist (all smaller ones exist), or none when every candidate exists |
| OutputPath.ResolvedPath | src/main.rs:108-135 | the result lies in the output directory; with overwrite, or when the base path is free, the base path; otherwise the first free numbered candidate; the base path when all 9999 are taken; a numbered result never exists yet |
| OutputPath.ResolvedAtFirstFree | src/main.rs:124-132 | when the base path is taken, the first free suffix fixes the resolved path |
| OutputPath.PickOutputPath | src/main.rs:108-135 | the probing loop returns exactly the resolved path |
| OutputPath.SecondResolutionDiffers | src/main.rs:110-133 | once the first resolved path exists, resolving the same name again gives a different path unless every candidate is taken |
| OutputPath.SameNameTwice | src/main.rs:110-131 | two resolutions of "stem.ext" one after the other, where the first file exists before the second resolution (for example `-c 1` with a successful first download), give "stem.ext" and then "stem (1).ext" |
| OutputPath.FirstCandidateOfPlainName | src/main.rs:115-128 | the first candidate for "stem.ext" is "stem (1).ext" |
| OutputPath.FirstCandidateName | src/main.rs:127-128 | candidate number 1 with a non-empty extension is "stem (1).ext" |
| OutputPath.StemAndExtOfPlainName | src/main.rs:115-122 | "stem.ext" has file stem `stem` and extension `ext` |
| Retry.MaxAttempts | src/main.rs:192 | the attempt budget is max(retries, 1): at least 1, at least `retries`, and one of the two |
| Retry.Delay | src/main.rs:198 | the first sleep is the base backoff, no sleep is shorter, and with a positive base the n-th sleep is at least n ms |
| Retry.RunFrom | src/main.rs:192-206 | every run from a reachable state ends in a well-formed trace: earlier attempts failed, Ok exactly when the last attempt succeeded, and the sleeps follow the schedule |
| Retry.Retry | src/main.rs:183-207 | one to max(retries, 1) attempts; stops at the first success; an error only after every allowed attempt failed, reporting the last attempt's error (never "unknown error"); sleeps backoff * 2^(n-1) after each failed attempt n below `retries`, none when retries <= 1 |
| Retry.SucceedsIffSomeAttemptSucceeds | src/main.rs:192-206 | the download succeeds if and only if some allowed attempt succeeds |
| Retry.DownloadWithRetries | src/main.rs:183-207 | the loop returns the result, attempt count and sleeps of the controller |
| Retry.FailTwiceThenSucceed | src/main.rs:192-200 | failing twice with 3 attempts allowed succeeds on attempt 3, after sleeps of backoff and 2 * backoff |
| Retry.AlwaysFailTwice | src/main.rs:192-206 | always failing with 2 attempts allowed reports attempt 2's error after one sleep |
| Retry.BackoffDoubles | src/main.rs:198 | each sleep is twice the one before it |
| Retry.DelayAsWritten | src/main.rs:198 | the delay computed in u64 is below 2^64, and equals the mathematical delay while the shift and product do not overflow |
| Retry.NoWrapBelowModulus | src/main.rs:198 | for at most 64 attempts and a product below 2^64, the wrapped delay is the plain one |
| Retry.DelayAsWrittenRepeats | src/main.rs:198 | the u64 delay for attempt n + 64 equals that for attempt n |
| Retry.DelayAsWrittenCounterexample | src/main.rs:198 | with backoff 1, the u64 delay after attempt 65 is 1 ms, below that after attempt 64, while the intended delay exceeds 64 ms |
| Download.TargetPath | src/main.rs:80-81 | the task's path lies in the output directory; with overwrite its name is the URL's file name; a path with another name does not exist yet |
| Download.SameNameTasksCollide | src/main.rs:80-81 | two tasks resolving against the same existing files, for URLs with the same file name not yet saved, both get the base path |
| Download.ReservePaths | src/main.rs:80-81 | the corrected resolution: each name is resolved against the existing files plus the paths reserved for the names before it |
| Download.ReservedPathsDistinct | src/main.rs:110-133 | with reservation, a later name never gets a path reserved before it, unless every numbered candidate of that name is taken |
| Download.RunTask | src/main.rs:69-88 | a task reports "invalid URL" exactly when parsing fails; otherwise "saved" exactly when some allowed attempt succeeded, at the path resolved from the URL's file name, and "failed" with the last attempt's error otherwise |
| Scheduler.Tasks | src/main.rs:60 | the set of the first k URL numbers, of size k |
| Scheduler.Initial | src/main.rs:57-58 | the fresh gate has every permit free and nothing admitted, and satisfies the accounting invariant for any number of URLs |
| Scheduler.Enabled | src/main.rs:61-70 | under the invariant, admission needs fewer running tasks than the limit and a URL left; only an admitted task without an outcome can finish |
| Scheduler.Step | src/main.rs:61-70 | admission advances the URL counter; finishing records the outcome of exactly that task; the limit never changes |
| Scheduler.StepPreservesInv | src/main.rs:57-70 | each enabled event keeps held permits + free permits = limit, each admitted task running or reported but not both, and no task reports twice |
| Scheduler.AdmitPreservesInv | src/main.rs:61 | taking a permit for the next URL keeps the accounting invariant |
| Scheduler.FinishPreservesInv | src/main.rs:70 | a finishing task returns its permit and reports once, keeping the invariant |
| Scheduler.RunPreservesInv | src/main.rs:57-95 | every interleaving keeps the invariant and never holds more permits than the limit |
| Scheduler.Run | src/main.rs:57-95 | a possible interleaving keeps the limit, never admits fewer URLs than before nor more than one per event, and never forgets a task that has reported |
| Scheduler.RunKeepsOutcomes | src/main.rs:69-95 | under the invariant, a task's recorded outcome is never replaced later in the run |
| Scheduler.AllReported | src/main.rs:93-95 | once every URL is admitted and nothing runs, each URL has exactly one outcome and every permit is back |
| Scheduler.ConfigureAsWritten | src/main.rs:38-57 | set-up fails exactly for an empty URL list; any concurrency, 0 included, is accepted as the permit count |
| Scheduler.ZeroLimitAdmitsNothing | src/main.rs:57-61 | with concurrency 0 no event can ever happen, so no URL is ever admitted |
| Scheduler.Configure | src/main.rs:57-61 | the corrected set-up of the second finding (the source itself accepts 0): it succeeds exactly for a non-empty URL list and a positive concurrency, reports a zero concurrency as its own error, and otherwise uses the concurrency as the permit count |
| Scheduler.PositiveLimitNeverStuck | src/main.rs:57-95 | with a positive limit, until all URLs are admitted and finished, some event is enabled |
| Scheduler.ConfiguredRunsKeepInv | src/main.rs:38-95 | every interleaving from the gate the source sets up, for any concurrency including 0, keeps the invariant and never holds more permits than the concurrency |
| Scheduler.ConfiguredRunsNeverStuck | src/main.rs:57-95 | from the corrected set-up, after any interleaving either everything is admitted and finished, or the next URL can be admitted, or a running task can finish |
| Strings.Split | src/main.rs:101 | a split has one more piece than the string has separators |
| Strings.SplitPiecesFree | src/main.rs:101 | no piece of a split holds the separator |
| Strings.JoinSplit | src/main.rs:101 | joining the pieces of a split restores the string |
| Strings.SplitJoin | src/main.rs:115-122 | splitting a join of separator-free pieces gives the pieces back |
| Strings.SplitLastPiece | src/main.rs:102 | the last piece of a split is the text after the last separator |
| Strings.NatToString | src/main.rs:126-128 | `{i}` renders digits only, one digit exactly below 10, and with a leading '0' only for 0 |
| Strings.DecimalRoundTrip | src/main.rs:126-128 | reading back the decimal rendering of n gives n |
| Strings.NatToStringInjective | src/main.rs:126-128 | distinct numbers render differently |

## Left out

- HTTP requests, the body stream, the status check and the progress bar of
  `download_once` (src/main.rs:137-181) are left out. They are I/O. Each
  attempt is an oracle outcome, so any error it raises is an opaque value.
- Creating the output directory (src/main.rs:44-46) and the files is left
  out. The filesystem is a set of existing paths, fixed while one path is
  resolved.
- `Path::join` normalisation is not modelled: a path is a
  (directory, name) pair.
- The interleaving of one task's path resolution with another task's
  file creation is not modelled step by step. A task creates its file
  only after its request has been answered (src/main.rs:142-146, 168).
  So with a concurrency of 2 or more, URLs with the same last segment
  that run together normally get the same path and write the same file.
  The "a.txt, then a (1).txt" result (`SameNameTwice`,
  `SecondResolutionDiffers`) holds only for resolutions one after the
  other, where the first file already exists. The shared-files case is
  `SameNameTasksCollide`, recorded as the last row under "## Findings".
- Real concurrency, task scheduling and joining the handles are modelled
  only as interleavings of admit and finish events. Panics inside tasks
  are not modelled.
- Command-line parsing, its defaults, and the messages on standard
  output and standard error are left out. An empty URL list becomes the
  `NoUrls` configuration error rather than exit status 2.
- `Url::parse` is a parameter: its verdict is given, and a URL is reduced
  to its serialized path.
- Non-UTF-8 file names are not modelled, because strings here are always
  valid text. So the `to_str` failure that would fall back to "file" or
  "" cannot arise.
- Sleeping is recorded as a requested duration and not performed.
- Scheduler.ConfigureAsWritten: accepts every concurrency. In the source,
  `concurrency` is a `usize`, and tokio's `Semaphore::new` panics above
  `Semaphore::MAX_PERMITS` (`usize::MAX >> 3`). The model has no machine
  width, so that panic is not modelled.
- Scheduler.Configure: likewise has no upper bound on the concurrency.
- Retry.Retry: states delays over unbounded integers. The u64 wrap-around
  of the source is modelled separately, in `DelayAsWritten`.

## Findings

| source | as written | input that shows it | evidently intended | confidence | as-written member | corrected member |
|---|---|---|---|---|---|---|
| src/main.rs:198 | `backoff_ms * (1u64 << (attempt - 1))` in u64. Without overflow checks the shift amount is taken mod 64 and the product wraps mod 2^64; with them, it panics | `--backoff-ms 1 -r 66`: after failed attempt 65 the sleep is 1 ms instead of 2^64 ms, shorter than the one before | a delay that keeps growing (backoff * 2^(n-1), or saturated) | not executed | Retry.DelayAsWrittenCounterexample | Retry.BackoffDoubles |
| src/main.rs:57-61 | `Semaphore::new(cli.concurrency)` accepts 0. The first `acquire_owned` then never returns | `-c 0 https://example.com/a`: no download starts and the program waits forever | reject a concurrency of 0 as a usage error, like an empty URL list; then no run gets stuck (`ConfiguredRunsNeverStuck`) | not executed | Scheduler.ZeroLimitAdmitsNothing | Scheduler.Configure |
| src/main.rs:80-81 | each task resolves its path at line 81 against the files present then, and creates the file only at line 168, after the request | `mt-downloader https://x.example/a.txt https://y.example/a.txt` with the default `-c 4`: both tasks resolve to `./a.txt` and write the same file | each task claims its path when it picks it, so the second gets "a (1).txt" | not executed | Download.SameNameTasksCollide | Download.ReservePaths |
