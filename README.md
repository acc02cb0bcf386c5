# go-tw launcher, modelled in Dafny

go-tw is a launcher for the Tailwind CSS command-line binary. It chooses the release artifact for the
platform, with a musl variant on musl-based Linux. It resolves the version: the one given with
`-version`, else the latest release, else the version already installed when the lookup fails
with an HTTP error. It keeps one binary per version in a cache directory and downloads a
missing one with up to three attempts. It checks the download's size, makes the binary
executable, evicts the binaries of other versions, and finally runs the binary with the
remaining arguments.

The model has six modules:

- `Strings` (strings.dfy): the few functions of Go's `strings` package the core uses, and the
  byte-wise order in which `os.ReadDir` lists a directory.
- `FilePath` (filepath.dfy): Unix `filepath.Clean` and `filepath.Join` over path segments. It
  includes the theorem behind `fs.Write`'s containment check.
- `Errors` (errors.dfy): `Option`/`Result`, the error sentinels and wrappers of the core, and
  `errors.Is`.
- `Fs` (fs.go): the cache store.
  - `class Disk` holds the cache directory's listing in `os.ReadDir` order (a `seq`), and the
    regular files elsewhere (a `map`).
  - Its methods `Write`, `Remove` and `DeleteOtherVersions` change that state in place. Each is
    proved against a function on the old state.
  - `GetCurrentVersion` and `Exists` are functions over what `os.ReadDir` and `os.Stat` report.
- `Client` (client.go): the musl probe and the artifact name, the latest-release lookup, and the
  download client.
  - `class Client` holds the two endpoint URLs.
  - Its `Download` method runs the retry loop over a `Disk`. It is proved against the function
    `Retry`.
- `Launcher` (main.go): `isSupported`, `getArgs` (a loop, proved against the recursive `Scan`),
  the choice of output in `run`, and the whole of `main`.
  - `main` is written as the method `Launch`, proved against the function `Plan`.
  - `Plan` is built from `Resolve` (platform, arguments, version), `Install` (check, install,
    run) and `Provision` (download, make executable, evict).

I/O is modelled as oracle parameters. The network answers, the musl probe's view of the
machine, `os.Stat` faults, refused removals and the run of the binary are all values:
`Client.Attempt`, `Client.FileReader`, `Launcher.Env` and `Launcher.Process`. The file system
itself is the state of `Fs.Disk`.

`main` prints a message and returns normally on every failure (main.go:22-107), so
`Launcher.Exit` records which step ended the launch and carries no exit code.

`main` calls `client.GetLatestVersion` as written, and so does the model of `main`
(`Launcher.Resolve`, `Launcher.Plan`, `Launcher.Launch`). That lookup never reads the
status code. "## Findings" records this, together with a status-checking variant of the
lookup (`Client.GetLatestVersionChecked`) and of the first half of `main`
(`Launcher.ResolveChecked`).

## Model

| member | source | states |
|---|---|---|
| FilePath.InsideDirNested | fs/fs.go:20-25 | If a path passes Write's check against an absolute directory, the path is absolute and its cleaned segments are the directory's segments plus at least one proper name. So no `..` leads outside, and the directory itself is not accepted. |
| FilePath.PathJoinName | main.go:75 | Joining an absolute directory (other than the root) with a proper name gives the cleaned directory, a separator and the name. Its segments are the directory's plus the name, and it is already clean. |
| Fs.Exists | fs/fs.go:51-60 | Nil exactly when stat succeeds. A not-exist error becomes ErrFileNotExists. Any other error is returned unchanged. |
| Fs.ExistsStat | fs/fs.go:51-60 | Over the disk state: nil when a file or directory is at the place, ErrFileNotExists otherwise. |
| Fs.FirstInstalled | fs/fs.go:73-85 | The result is the version of some installed binary, with no installed binary before it in the listing. ErrNotInstalled is returned exactly when the listing has no installed binary. |
| Fs.GetCurrentVersion | fs/fs.go:67-86 | A listing error is returned as is; otherwise the result is the first-installed scan. |
| Fs.CurrentIsLeast | fs/fs.go:67-86 | With the listing in ReadDir order, the reported version belongs to the installed binary whose name is less than every other installed binary's name. |
| Fs.VersionOfName | fs/fs.go:78-81 | Removing the prefix and one `.exe` from a version's binary name (with or without `.exe`) gives back the version. |
| Fs.WriteOutcome | fs/fs.go:17-49 | Write succeeds exactly when the file was created, the copy ended cleanly, and a positive expected size was met. A rejected path gives ErrInvalidPath; a size mismatch is an ErrIncompleteDownload. |
| Fs.Disk.Write | fs/fs.go:17-49 | The error is WriteError of the check, os.Create and the stream. The disk holds the copied bytes at the path exactly when the file was created, and is otherwise unchanged. The listing stays in ReadDir order. |
| Fs.Disk.Put | fs/fs.go:27-37 | The file at the place holds the bytes; everything else is unchanged. |
| Fs.Disk.Remove | fs/fs.go:119 | os.Remove: the error for a directory, a missing file or a refused removal. On success the place is deleted; on failure the disk is unchanged. |
| Fs.Disk.DeleteOtherVersions | fs/fs.go:103-127 | A listing error is returned with nothing removed. Otherwise every doomed entry before the first refused removal is removed, that refusal's error is returned, and nothing outside the cache directory changes. |
| Fs.Disk.Evict | fs/fs.go:109-126 | The loop: the new listing is the survivors of the entries before the first refusal, followed by the untouched rest. The error is that refusal's error. |
| Fs.FirstRefusal | fs/fs.go:117-121 | The stopping point is within the listing, and when it is not the end, the entry there is doomed and its removal is refused. |
| Fs.FirstRefusalIsFirst | fs/fs.go:119-121 | No entry before the stopping point is a refused doomed entry. |
| Fs.FirstRefusalHere | fs/fs.go:119-121 | A refused doomed entry reached by the loop is the stopping point, and its error is the one returned. |
| Fs.SurvivorsMembers | fs/fs.go:109-124 | An entry survives eviction exactly when it was among the scanned entries and is not doomed. |
| Fs.SurvivorsNoneDoomed | fs/fs.go:109-124 | When nothing is doomed, eviction keeps every entry in order. |
| Fs.SurvivorsValid | fs/fs.go:109-124 | The working listing of the eviction loop stays in ReadDir order. |
| Fs.EvictionIdempotent | fs/fs.go:103-127 | A second eviction for the same version removes nothing more. |
| Fs.EvictionKeepsEntry | fs/fs.go:109-124 | An entry that is not doomed is still found by its name after an eviction that stopped anywhere. |
| Fs.BinaryNameTrim | fs/fs.go:114-116 | A version's binary name, with or without `.exe`, carries the prefix, and trimming `.exe` from it leaves the prefixed version. |
| Fs.EvictionKeepsVersion | fs/fs.go:114-117 | The binary of the version being kept, with or without `.exe`, is never doomed. |
| Fs.EvictionRemovesOther | fs/fs.go:114-117 | The binary of any other version of the same length, with or without `.exe`, is doomed. |
| Fs.StoreFileAt | fs/fs.go:27-37 | After a file is written, the place holds the new bytes and every other place is unchanged. |
| Fs.DeleteFileAt | fs/fs.go:119 | After a removal, nothing is at the place and every other place is unchanged. |
| Fs.LookupPutFile | fs/fs.go:27 | Creating a file in the cache directory changes only the entry of that name. |
| Fs.LookupRemoveNamed | fs/fs.go:119 | Removing an entry of the cache directory changes only the entry of that name. |
| Fs.PutFileValid | fs/fs.go:27 | Creating a file keeps the listing in ReadDir order. |
| Fs.RemoveNamedValid | fs/fs.go:119 | Removing an entry keeps the listing in ReadDir order. |
| Fs.CachePathLocated | main.go:75 | The cache path of a version passes Write's check and names that version's entry of the cache directory. |
| Client.AnyExists | client/client.go:117 | True exactly when one of the paths exists. |
| Client.MuslFallsThrough | client/client.go:106-118 | When the memory maps are unreadable or do not mention musl, the result is musl exactly when one of the linker paths exists. |
| Client.MuslTable | client/musl_test.go:34-77 | The five rows of isMusl's test table. |
| Client.NameParts | client/client.go:127-149 | The artifact name is the prefix, the operating-system part, a dash and the architecture part. Then `-musl` follows exactly on Linux with musl, and `.exe` exactly on Windows. |
| Client.NameIgnoresReaderOffLinux | client/client.go:128-131 | Off Linux the probe's view of the machine does not change the name. |
| Client.NameTableLinux | client/client_test.go:59-60 | Linux amd64 and arm64 names, with `-musl` exactly when the probe finds musl. |
| Client.NameTableDarwin | client/client_test.go:61-62 | macOS names, whatever the probe sees. |
| Client.NameTableWindows | client/client_test.go:63-64 | Windows names with `.exe`, whatever the probe sees. |
| Client.NameMuslViaMaps | client/musl_test.go:97-107 | Linux amd64 with musl in the memory maps gives the `-musl` artifact. |
| Client.NameMuslViaLinker | client/musl_test.go:108-118 | Linux arm64 with only the musl linker on disk gives the `-musl` artifact. |
| Client.NameGlibc | client/musl_test.go:119-125 | Linux amd64 with nothing pointing to musl gives the plain artifact. |
| Client.LatestIgnoresStatus | client/client.go:151-173 | As written, a 403 with a JSON body gives the empty version without error, and a 500 with a bad body does not give ErrHTTP. |
| Client.LatestHTTPOnUnreachable | client/client.go:156-159 | The lookup returns ErrHTTP exactly when the transport fails, provided the request builder and the decoder do not return ErrHTTP themselves. A reply of any status never yields ErrHTTP. |
| Client.LatestVersionStatus | client/client.go:151-173 | The status-checking variant gives a version only from a 200 whose body decodes. Every other status and every transport failure is ErrHTTP. On a 200 it agrees with the lookup as written. |
| Client.Retry | client/client.go:52-74 | At most MaxRetries attempts, and at least one more each time one remains. A failure comes only after all attempts, and wraps ErrDownloadFailed. RetryAttempts states the promises attempt by attempt. |
| Client.RetryAttempts | client/client.go:54-74 | Every attempt before the last one made failed, in the state the earlier clean-ups left. The result is nil exactly when that last attempt succeeded. Otherwise all MaxRetries attempts failed, the error is ErrDownloadFailed wrapping the last attempt's error, and the disk is what the clean-ups left. |
| Client.RetryAllRejected | client/client.go:54-74 | When every answer is a failure, all attempts are made and the error wraps the last answer's error. |
| Client.RetrySuccess | client/client.go:60-63 | On success, the last answer was a 200 that ended cleanly with its declared length, and the target holds exactly its body. |
| Client.RetryFailureLeavesNothing | client/client.go:68-71 | After a failed download, nothing is left at the target unless the final clean-up was refused. |
| Client.RetryFrame | client/client.go:48-75 | A download changes no file but the target. |
| Client.RetryValid | client/client.go:48-75 | A download keeps the cache listing in ReadDir order. |
| Client.AttemptFrame | client/client.go:175-201 | One attempt changes no file but the target. |
| Client.AttemptValid | client/client.go:175-201 | One attempt and its clean-up keep the listing in ReadDir order. |
| Client.Client.constructor | client/client.go:32-39 | New: the public release endpoints. |
| Client.Client.WithTestURLs | client/client.go:42-46 | Both endpoints are replaced. |
| Client.Client.DownloadAttempt | client/client.go:175-201 | The error and the new disk state are AttemptResult of the old state. A request or transport failure and a non-200 status change nothing; a 200 writes the body with the declared length. |
| Client.Client.TryOnce | client/client.go:60-71 | One pass of the loop: an attempt and, after a failure, the best-effort removal of the target. |
| Client.Client.Download | client/client.go:48-75 | The error and the new disk state are Retry's. One attempted URL per attempt, the artifact URL of the version and platform, including attempts whose request could not be built and so sent nothing. RetryDelay is slept once before every attempt but the first. |
| Launcher.IsSupported | main.go:109-116 | True exactly for windows, darwin or linux on amd64 or arm64. |
| Launcher.SupportedTable | main_test.go:21-30 | The ten rows of isSupported's test table. |
| Launcher.SupportedInitials | main.go:109-116 | On a supported platform, the first letters of the name parts determine the platform. |
| Launcher.SupportedNamesDistinct | main.go:109-116 | Different supported platforms never download the same artifact. |
| Launcher.GetArgs | main.go:118-136 | The loop over the arguments computes Parse, the recursive scan from version "latest" with nothing passed through. |
| Launcher.ScanAppend | main.go:124-134 | Scanning a concatenation continues from what the first part gathered. |
| Launcher.ScanWithoutFlag | main.go:124-134 | Without the flag, every argument passes through in order and the version is unchanged. |
| Launcher.ParseWithoutFlag | main.go:118-136 | Without the flag, the version is "latest" and all arguments pass through. |
| Launcher.LastFlagWins | main.go:125-131 | A later `-version v` overrides any earlier one, and neither token passes through. |
| Launcher.TrailingFlagFails | main.go:126-128 | A `-version` with nothing after it fails with ErrMissingVersionArg. |
| Launcher.FlagNeverPassed | main.go:124-134 | The flag itself is never passed through. |
| Launcher.ScanFailure | main.go:126-128 | getArgs fails only with ErrMissingVersionArg, and only when the flag is the last argument. |
| Launcher.ArgsTable | main_test.go:53-94 | The six rows of getArgs' test table. |
| Launcher.Shown | main.go:156-160 | run prints either the standard output or the standard error. |
| Launcher.ShownChoice | main.go:156-160 | Standard output is printed exactly when it is non-empty and there are arguments; without arguments, standard error is printed. |
| Launcher.LookupOnlyForLatest | main.go:52-73 | The latest release is looked up exactly when no version was asked for. An explicit version is used verbatim, and the arguments pass through either way. |
| Launcher.FallbackOnlyOnHTTP | main.go:54-68 | The cache is read only after the lookup for "latest" failed with ErrHTTP. Unless the request builder or the decoder return ErrHTTP themselves, that means the transport failed. The version then used is that of the installed binary with the least name. |
| Launcher.HTTPFailureFallsBack | main.go:54-68 | A lookup for "latest" that fails with ErrHTTP, as a transport failure does, reads the cache. The launch goes on with the installed version, or ends with the error GetCurrentVersion gave. |
| Launcher.RequestFailedAborts | main.go:54-68 | A request that cannot be built, for a reason other than ErrHTTP, ends the launch with that error after the lookup, without reading the cache. |
| Launcher.UndecodableReplyAborts | main.go:54-68 | A reply of any status whose body the decoder rejects, such as a 500 with an empty body, ends the launch with the decoder's error after the lookup. The cache is not read and the disk does not change. |
| Launcher.UntaggedReplyEmptyVersion | main.go:54-75 | A reply of any status whose JSON has no tag_name, such as a rate-limited 403, gives the version "". The launch then goes on with the rest of main for that version. |
| Launcher.FailedReplyFallsBack | main.go:54-68 | With the status-checking lookup (see "## Findings"), any non-200 reply falls back to the installed version. With nothing installed, the launch ends with ErrNotInstalled. |
| Launcher.ProvisionOrder | main.go:88-102 | The install downloads, then makes executable, then evicts, and each failure ends it with its own exit. |
| Launcher.InstallPresent | main.go:75-106 | A binary already at the cache path is run at once, and nothing on disk changes. |
| Launcher.InstallCheckFails | main.go:77-86 | A check error other than a missing file ends the launch before any download. |
| Launcher.InstallMissing | main.go:88-104 | A missing binary is checked, fetched, made executable, the other versions are evicted, and it is run, in that order, as far as the launch gets. |
| Launcher.InstallMissingExit | main.go:88-106 | How far the launch of a missing binary got tells which step failed, or that the binary ran. |
| Launcher.EvictedKeepsVersion | main.go:98-101 | The eviction after an install keeps the installed binary. When it completes, no entry is left that DeleteOtherVersions would remove (see "## Left out" on its suffix test). |
| Launcher.ProvisionInstalls | main.go:88-102 | A completed install leaves at the cache path the body of some 200 reply without a body error, and no entry that DeleteOtherVersions would remove. |
| Launcher.RunsInstalledBinary | main.go:75-106 | Whenever the binary is run, something is at the cache path. |
| Launcher.Launch | main.go:22-107 | main's steps, exit and final disk state are those of Plan, which uses the lookup as written. |
| Launcher.InstallAndRun | main.go:75-106 | The second half of main computes Install. |
| Launcher.Provide | main.go:88-102 | The install branch of main computes Provision. |

## Left out

- fs.GetDownloadDir (fs/fs.go:88-101) is not modelled as code. Its failure is the oracle `Env.dirErr`. The directory it returns is the root of the `Fs.Disk`, so the model does not compute the user cache directory or create it.
- fs.MakeExecutable (fs/fs.go:129-137) is the oracle `Env.chmodErr`. Permission bits are not part of the disk state.
- Running the binary (main.go:138-155) is the oracle `Launcher.Process`, which gives its error, stdout and stderr. Only the choice of what `run` prints is modelled.
- The text of the messages main prints is not modelled. `Launcher.Exit` names which failure ended the launch.
- Logging through slog and the log package is not modelled: it has no effect on the result.
- time.Sleep is not modelled as time passing. `Download` returns the durations it would sleep in `sleeps`.
- Contexts, the HTTP client's timeout and cancellation are left out. A cancelled or timed-out request is a transport failure in the oracle (`Client.Response`).
- JSON decoding is the oracle `Client.Json`: a document the decoder accepts (tag present or not), or a decoder error.
- client.GetName (client/client.go:121-123) is GetNameWithReader with the machine's own reader. The machine is a parameter (`Env.reader`).
- Errors from closing files and response bodies (the deferred Close calls) are only logged, so they are left out.
- Download's check `os.IsNotExist(removeErr)` (client/client.go:69) only decides whether to log, so every clean-up error is ignored alike.
- Paths use the Unix separator only. A relative path is resolved lexically and, when the cache directory is absolute, treated as outside it, because the working directory is not modelled.
- Fs.Stat: directories outside the cache listing are not in the disk state. This includes the cache directory itself and its ancestors, so `Fs.Stat` reports them missing. With `-version /..` the cache path is the cache directory itself: main.go:78 finds it and main runs it, while the model finds nothing there, downloads, and ends with ErrDownloadFailed wrapping ErrInvalidPath.
- Directory entries other than regular files and directories (symbolic links, devices) are not modelled. A subdirectory cannot be removed, as if it were non-empty.
- Content-Length and byte counts are unbounded integers, not int64. Content-Length is -1 when the header is absent, as net/http reports it.
- Launcher.Launch, Launcher.InstallAndRun, Launcher.Provide and Client.Client.Download require at least MaxRetries oracle answers in `attempts`. This is the shape of the oracle, not a demand of the source.
- Fs.EvictionRemovesOther: stated only for other versions of the same length. The source's suffix test keeps any name ending in "-" + version, for example `tailwindcss-x-1.0` when the version is `1.0`. For the same reason Launcher.EvictedKeepsVersion and Launcher.ProvisionInstalls promise only that no entry is left that DeleteOtherVersions would remove, and such a binary of another version survives.
- Launcher.ProvisionInstalls, Launcher.RunsInstalledBinary and Launcher.EvictedKeepsVersion: stated for a version that contains no separator and does not end in `.exe`. ProvisionInstalls and RunsInstalledBinary also need an absolute cache directory other than the root. For other versions the cache path need not be a direct entry of the cache directory, or eviction may remove it.
- Fs.VersionOfName, Fs.EvictionKeepsVersion and Fs.BinaryNameTrim: stated for a version that does not end in `.exe`. For a version that does, GetCurrentVersion and DeleteOtherVersions trim its own `.exe` from the name.

## Findings

| source | as written | input that shows it | evidently intended | confidence | as-written member | corrected member |
|---|---|---|---|---|---|---|
| client/client.go:151-173 | GetLatestVersion decodes the body whatever the status code. It returns ErrHTTP only when the transport fails. | A 403 reply (rate limit) whose JSON has no tag_name gives the version "" without error, and main goes on with it. A 500 reply with an empty body gives the decoder's error rather than ErrHTTP, so main (main.go:56-68) prints "failed to determine latest version" and returns instead of falling back to the installed version. | A non-200 reply is ErrHTTP, as downloadAttempt reports it (client/client.go:193-196), so that main falls back to the installed version, as it does for ErrHTTP (main.go:57). Launcher.FailedReplyFallsBack states this for the launcher with the checked lookup, Launcher.ResolveChecked. | not executed | Client.LatestIgnoresStatus | Client.LatestVersionStatus |
