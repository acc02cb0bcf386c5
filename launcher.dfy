/** The launcher of main.go: the platform whitelist, the command-line scan
    for `-version`, and the sequence that resolves the version, checks the
    cache, installs a missing binary and runs it. Every answer the system
    gives (the cache directory, the network, the file system, the process)
    is a parameter. */
module Launcher {
  import opened Errors
  import opened Strings
  import opened FilePath
  import Fs
  import Client

  /** isSupported: Windows, macOS and Linux on amd64 or arm64. */
  function IsSupported(os: string, arch: string): (r: bool)
    ensures r <==> os in {"windows", "darwin", "linux"} && arch in {"amd64", "arm64"}
  {
    match os
    case "windows" => arch == "amd64" || arch == "arm64"
    case "darwin" => arch == "amd64" || arch == "arm64"
    case "linux" => arch == "amd64" || arch == "arm64"
    case _ => false
  }

  /** isSupported on the rows of its test table. */
  lemma SupportedTable()
    ensures IsSupported("linux", "amd64") && IsSupported("linux", "arm64")
    ensures IsSupported("darwin", "amd64") && IsSupported("darwin", "arm64")
    ensures IsSupported("windows", "amd64") && IsSupported("windows", "arm64")
    ensures !IsSupported("freebsd", "amd64") && !IsSupported("linux", "386")
    ensures !IsSupported("linux", "arm") && !IsSupported("plan9", "amd64")
  {
  }

  /** On a supported platform the first letter of each name part tells the
      operating system and the architecture. */
  lemma SupportedInitials(os: string, arch: string)
    requires IsSupported(os, arch)
    ensures |Client.OsName(os)| > 0 && |Client.ArchName(arch)| > 0
    ensures os == match Client.OsName(os)[0] case 'w' => "windows" case 'm' => "darwin" case _ => "linux"
    ensures arch == if Client.ArchName(arch)[0] == 'x' then "amd64" else "arm64"
  {
  }

  /** The six supported platforms download six different artifacts: the
      name tells the operating system and the architecture apart. */
  lemma SupportedNamesDistinct(os1: string, arch1: string, os2: string, arch2: string, reader: Client.FileReader)
    requires IsSupported(os1, arch1) && IsSupported(os2, arch2)
    requires Client.GetNameWithReader(os1, arch1, reader) == Client.GetNameWithReader(os2, arch2, reader)
    ensures os1 == os2 && arch1 == arch2
  {
    var n := Client.GetNameWithReader(os1, arch1, reader);
    Client.NameParts(os1, arch1, reader);
    Client.NameParts(os2, arch2, reader);
    SupportedInitials(os1, arch1);
    SupportedInitials(os2, arch2);
    var p := "tailwindcss-";
    var o1, o2 := Client.OsName(os1), Client.OsName(os2);
    var h1 := p + o1 + "-" + Client.ArchName(arch1);
    var h2 := p + o2 + "-" + Client.ArchName(arch2);
    assert n[12] == h1[12] == o1[0];
    assert n[12] == h2[12] == o2[0];
    assert os1 == os2;
    var i := 12 + |o1| + 1;
    assert n[i] == h1[i] == Client.ArchName(arch1)[0];
    assert n[i] == h2[i] == Client.ArchName(arch2)[0];
  }

  /** The flag that names the version, and the version used without it. */
  const VersionFlag: string := "-version"
  const Latest: string := "latest"

  /** What getArgs returns: the version and the arguments passed through to
      the Tailwind binary. */
  datatype Args = Args(version: string, passThrough: seq<string>)

  /** The scan of getArgs from some point on, with what it has gathered so
      far: `-version` takes the next argument as the version (and fails when
      there is none), every other argument is passed through. */
  function Scan(args: seq<string>, acc: Args): Result<Args>
    decreases |args|
  {
    if |args| == 0 then Ok(acc)
    else if args[0] == VersionFlag then
      if |args| < 2 then Err(MissingVersionArg) else Scan(args[2..], acc.(version := args[1]))
    else Scan(args[1..], acc.(passThrough := acc.passThrough + [args[0]]))
  }

  /** The result of getArgs for the arguments after the program name. */
  function Parse(args: seq<string>): Result<Args> {
    Scan(args, Args(Latest, []))
  }

  /** getArgs, with os.Args[1:] passed in. */
  method GetArgs(args: seq<string>) returns (r: Result<Args>)
    ensures r == Parse(args)
  {
    var filteredArgs: seq<string> := [];
    var version := Latest;
    var i := 0;
    while i < |args|
      invariant 0 <= i <= |args|
      invariant Parse(args) == Scan(args[i..], Args(version, filteredArgs))
    {
      if args[i] == VersionFlag {
        if i + 1 >= |args| {
          return Err(MissingVersionArg);
        }
        version := args[i + 1];
        assert args[i..][2..] == args[i + 2..];
        i := i + 2;
        continue;
      }
      assert args[i..][1..] == args[i + 1..];
      filteredArgs := filteredArgs + [args[i]];
      i := i + 1;
    }
    return Ok(Args(version, filteredArgs));
  }

  /** Scanning a concatenation: once the first part scans without error, the
      second part continues from what the first gathered. */
  lemma {:induction false} ScanAppend(a: seq<string>, b: seq<string>, acc: Args)
    requires Scan(a, acc).Ok?
    ensures Scan(a + b, acc) == Scan(b, Scan(a, acc).value)
    decreases |a|
  {
    if |a| == 0 {
      assert a + b == b;
    } else if a[0] == VersionFlag {
      assert (a + b)[2..] == a[2..] + b;
      ScanAppend(a[2..], b, acc.(version := a[1]));
    } else {
      assert (a + b)[1..] == a[1..] + b;
      ScanAppend(a[1..], b, acc.(passThrough := acc.passThrough + [a[0]]));
    }
  }

  /** Without the flag every argument is passed through in order and the
      version stays what it was. */
  lemma {:induction false} ScanWithoutFlag(args: seq<string>, acc: Args)
    requires VersionFlag !in args
    ensures Scan(args, acc) == Ok(acc.(passThrough := acc.passThrough + args))
    decreases |args|
  {
    if |args| > 0 {
      assert VersionFlag !in args[1..] by {
        assert forall x | x in args[1..] :: x in args;
      }
      assert args[0] != VersionFlag by {
        assert args[0] in args;
      }
      var next := acc.(passThrough := acc.passThrough + [args[0]]);
      ScanWithoutFlag(args[1..], next);
      assert next.passThrough + args[1..] == acc.passThrough + args by {
        assert args == [args[0]] + args[1..];
      }
    } else {
      assert acc.passThrough + args == acc.passThrough;
    }
  }

  /** No `-version` flag: the version is "latest" and all arguments pass. */
  lemma ParseWithoutFlag(args: seq<string>)
    requires VersionFlag !in args
    ensures Parse(args) == Ok(Args(Latest, args))
  {
    ScanWithoutFlag(args, Args(Latest, []));
    assert [] + args == args;
  }

  /** A `-version` flag after arguments that scan cleanly, followed by no
      further flag: it consumes the next argument as the version, overriding
      any earlier flag, and neither token is passed through. */
  lemma LastFlagWins(a: seq<string>, v: string, b: seq<string>)
    requires Parse(a).Ok? && VersionFlag !in b
    ensures Parse(a + [VersionFlag, v] + b) == Ok(Args(v, Parse(a).value.passThrough + b))
  {
    var acc := Parse(a).value;
    ScanAppend(a, [VersionFlag, v] + b, Args(Latest, []));
    assert a + [VersionFlag, v] + b == a + ([VersionFlag, v] + b);
    assert ([VersionFlag, v] + b)[2..] == b;
    ScanWithoutFlag(b, acc.(version := v));
  }

  /** A `-version` flag with nothing after it fails the scan. */
  lemma TrailingFlagFails(a: seq<string>)
    requires Parse(a).Ok?
    ensures Parse(a + [VersionFlag]) == Err(MissingVersionArg)
  {
    ScanAppend(a, [VersionFlag], Args(Latest, []));
  }

  /** The arguments passed through never include the flag itself. */
  lemma {:induction false} FlagNeverPassed(args: seq<string>, acc: Args)
    requires VersionFlag !in acc.passThrough && Scan(args, acc).Ok?
    ensures VersionFlag !in Scan(args, acc).value.passThrough
    decreases |args|
  {
    if |args| > 0 {
      if args[0] == VersionFlag {
        FlagNeverPassed(args[2..], acc.(version := args[1]));
      } else {
        FlagNeverPassed(args[1..], acc.(passThrough := acc.passThrough + [args[0]]));
      }
    }
  }

  /** getArgs on the rows of its test table. */
  lemma ArgsTable()
    ensures Parse([]) == Ok(Args(Latest, []))
    ensures Parse(["-i", "input.css", "-o", "output.css"]) == Ok(Args(Latest, ["-i", "input.css", "-o", "output.css"]))
    ensures Parse(["-version", "v4.0.0", "-i", "input.css"]) == Ok(Args("v4.0.0", ["-i", "input.css"]))
    ensures Parse(["-i", "input.css", "-version", "v3.0.0"]) == Ok(Args("v3.0.0", ["-i", "input.css"]))
    ensures Parse(["-version"]) == Err(MissingVersionArg)
    ensures Parse(["-i", "input.css", "-version"]) == Err(MissingVersionArg)
  {
    ParseWithoutFlag(["-i", "input.css", "-o", "output.css"]);
    LastFlagWins([], "v4.0.0", ["-i", "input.css"]);
    ParseWithoutFlag(["-i", "input.css"]);
    LastFlagWins(["-i", "input.css"], "v3.0.0", []);
    TrailingFlagFails([]);
    TrailingFlagFails(["-i", "input.css"]);
    assert [] + [VersionFlag] == ["-version"];
    assert ["-i", "input.css"] + [VersionFlag] == ["-i", "input.css", "-version"];
    assert [] + [VersionFlag, "v4.0.0"] + ["-i", "input.css"] == ["-version", "v4.0.0", "-i", "input.css"];
    assert ["-i", "input.css"] + [VersionFlag, "v3.0.0"] + [] == ["-i", "input.css", "-version", "v3.0.0"];
  }

  /** What the Tailwind binary did when run: its error, and what it wrote to
      standard output and standard error. */
  datatype Process = Process(err: Option<Error>, stdout: string, stderr: string)

  /** The output run prints: standard output when there is some and the
      binary got arguments, standard error otherwise. */
  function Shown(p: Process, args: seq<string>): (r: string)
    ensures r == p.stdout || r == p.stderr
  {
    if |p.stdout| > 0 && |args| > 0 then p.stdout else p.stderr
  }

  /** Standard output is shown exactly when it is non-empty and there are
      arguments; otherwise standard error is shown, even when it is empty. */
  lemma ShownChoice(p: Process, args: seq<string>)
    requires p.stdout != p.stderr
    ensures Shown(p, args) == p.stdout <==> |p.stdout| > 0 && |args| > 0
    ensures |args| == 0 ==> Shown(p, args) == p.stderr
  {
  }

  /** Everything the launcher meets: the platform and the musl probe, the
      outcome of fs.GetDownloadDir, the answer to the latest-release request,
      the error of the cache listing when the version falls back to the
      installed one, an os.Stat failure other than a missing file, the
      answers of the download attempts, the outcome of fs.MakeExecutable,
      the error of the listing and the refused removals of
      fs.DeleteOtherVersions, and the run of the binary. */
  datatype Env = Env(
    os: string, arch: string, reader: Client.FileReader,
    dirErr: Option<Error>,
    latest: Client.Response<Client.Json>,
    cacheReadErr: Option<Error>,
    statFault: Option<Error>,
    attempts: seq<Client.Attempt>,
    chmodErr: Option<Error>,
    evictReadErr: Option<Error>,
    removeErr: map<string, Error>,
    process: Process)

  /** How the launcher ends; every failure prints a message and returns. */
  datatype Exit =
    | Unsupported
    | BadArgs(err: Error)
    | NoDownloadDir(err: Error)
    | NoLatest(err: Error)
    | NothingInstalled(err: Error)
    | CheckFailed(err: Error)
    | DownloadError(err: Error)
    | ChmodError(err: Error)
    | EvictError(err: Error)
    | RunError(err: Error)
    | Ran(shown: string)

  /** The externally visible steps, in the order they happen. */
  datatype Step =
    | LookUp                                  // GetLatestVersion
    | ReadCache                               // GetCurrentVersion
    | Check(path: string)                     // Exists
    | Fetch(requests: seq<string>)            // Download, with the URLs attempted
    | Chmod(path: string)                     // MakeExecutable
    | Evict(version: string)                  // DeleteOtherVersions
    | Exec(path: string, args: seq<string>)   // run

  /** Where the launcher stands once the version is known, or how it ended
      before. */
  datatype Front = Go(version: string, passThrough: seq<string>, steps: seq<Step>) | Halt(exit: Exit, steps: seq<Step>)

  /** Everything main does before it builds the cache path, given what the
      latest-release lookup returns: the platform check, the arguments, the
      cache directory and the version. A lookup that fails with ErrHTTP falls
      back to the installed version; any other failure ends the launch. */
  function ResolveWith(listing: seq<Fs.Entry>, env: Env, args: seq<string>, lookup: Result<string>): Front {
    if !IsSupported(env.os, env.arch) then Halt(Unsupported, [])
    else match Parse(args)
      case Err(e) => Halt(BadArgs(e), [])
      case Ok(parsed) =>
        if env.dirErr.Some? then Halt(NoDownloadDir(env.dirErr.value), [])
        else if parsed.version != Latest then Go(parsed.version, parsed.passThrough, [])
        else match lookup
          case Ok(v) => Go(v, parsed.passThrough, [LookUp])
          case Err(e) =>
            if !Is(e, HTTP) then Halt(NoLatest(e), [LookUp])
            else match Fs.GetCurrentVersion(listing, env.cacheReadErr)
              case Ok(v) => Go(v, parsed.passThrough, [LookUp, ReadCache])
              case Err(e2) => Halt(NothingInstalled(e2), [LookUp, ReadCache])
  }

  /** The first half of main, with the lookup as client.GetLatestVersion is
      written. */
  function Resolve(listing: seq<Fs.Entry>, env: Env, args: seq<string>): Front {
    ResolveWith(listing, env, args, Client.GetLatestVersion(env.latest))
  }

  /** The first half of main with the status-checking lookup instead. */
  function ResolveChecked(listing: seq<Fs.Entry>, env: Env, args: seq<string>): Front {
    ResolveWith(listing, env, args, Client.GetLatestVersionChecked(env.latest))
  }

  /** How a launch ends: the exit, the steps taken, and the disk after. */
  datatype Run = Run(exit: Exit, steps: seq<Step>, state: Fs.DiskState)

  /** The cache path of a version: the download directory joined with the
      prefixed version, without `.exe` on any platform. */
  function CachePath(downloadDir: string, version: string): string {
    PathJoin(downloadDir, Fs.PrefixTailwind + version)
  }

  /** The artifact URL Download requests for a version. */
  function ArtifactUrl(downloadURL: string, env: Env, version: string): string {
    downloadURL + "/" + version + "/" + Client.GetNameWithReader(env.os, env.arch, env.reader)
  }

  /** What os.Stat reports: the fault the system raises, if any, and
      otherwise whether something is at the place. */
  function StatError(s: Fs.DiskState, place: Fs.Place, fault: Option<Error>): Option<Error> {
    if fault.Some? then fault else Fs.Stat(s, place)
  }

  /** fs.DeleteOtherVersions on a disk state: its error and the state after. */
  function Evicted(s: Fs.DiskState, version: string, readErr: Option<Error>, removeErr: map<string, Error>)
    : (Option<Error>, Fs.DiskState)
  {
    if readErr.Some? then (readErr, s)
    else
      var k := Fs.FirstRefusal(s.listing, version, removeErr);
      (Fs.RefusalError(s.listing, version, removeErr),
       s.(listing := Fs.Survivors(s.listing, k, version) + s.listing[k..]))
  }

  /** Running the binary after the steps so far. */
  function Execute(s: Fs.DiskState, steps: seq<Step>, path: string, passThrough: seq<string>, p: Process): Run {
    Run(if p.err.Some? then RunError(p.err.value) else Ran(Shown(p, passThrough)),
        steps + [Exec(path, passThrough)], s)
  }

  /** The install of a missing binary: download it, make it executable and
      evict the other versions, each failure skipping the rest. The result
      is the exit when a step failed, the steps taken and the disk after. */
  function Provision(s: Fs.DiskState, root: string, downloadURL: string, env: Env, version: string, steps: seq<Step>)
    : (Option<Exit>, seq<Step>, Fs.DiskState)
    requires |env.attempts| >= Client.MaxRetries
  {
    var path := CachePath(root, version);
    var d := Client.Retry(s, root, env.attempts, path, root, 0, None);
    var fetched := steps + [Fetch(Client.Repeat(ArtifactUrl(downloadURL, env, version), d.tries))];
    if d.err.Some? then (Some(DownloadError(d.err.value)), fetched, d.state)
    else if env.chmodErr.Some? then (Some(ChmodError(env.chmodErr.value)), fetched + [Chmod(path)], d.state)
    else
      var evicted := Evicted(d.state, version, env.evictReadErr, env.removeErr);
      (if evicted.0.Some? then Some(EvictError(evicted.0.value)) else None, fetched + [Chmod(path)] + [Evict(version)], evicted.1)
  }

  /** What fs.Exists reports for the cache path of a version. */
  function CheckError(s: Fs.DiskState, root: string, env: Env, version: string): Option<Error> {
    Fs.Exists(StatError(s, Fs.Locate(root, CachePath(root, version)), env.statFault))
  }

  /** Everything main does once the version is known: check the cache path,
      install the binary when nothing is there, and run it. */
  function Install(s: Fs.DiskState, root: string, downloadURL: string, env: Env,
                   version: string, passThrough: seq<string>, steps: seq<Step>): Run
    requires |env.attempts| >= Client.MaxRetries
  {
    var path := CachePath(root, version);
    var checked := steps + [Check(path)];
    var statusErr := CheckError(s, root, env, version);
    if statusErr.None? then Execute(s, checked, path, passThrough, env.process)
    else if !Is(statusErr.value, FileNotExists) then Run(CheckFailed(statusErr.value), checked, s)
    else
      var (failed, installed, s1) := Provision(s, root, downloadURL, env, version, checked);
      if failed.Some? then Run(failed.value, installed, s1)
      else Execute(s1, installed, path, passThrough, env.process)
  }

  /** A whole launch, from the arguments to the run of the binary, with the
      cache directory `root`. */
  function Plan(s: Fs.DiskState, root: string, downloadURL: string, env: Env, args: seq<string>): Run
    requires |env.attempts| >= Client.MaxRetries
  {
    match Resolve(s.listing, env, args)
    case Halt(exit, steps) => Run(exit, steps, s)
    case Go(version, passThrough, steps) => Install(s, root, downloadURL, env, version, passThrough, steps)
  }

  /** getArgs fails only with ErrMissingVersionArg, and only when the flag is
      the last argument. */
  lemma {:induction false} ScanFailure(args: seq<string>, acc: Args)
    requires Scan(args, acc).Err?
    ensures Scan(args, acc).error == MissingVersionArg
    ensures |args| > 0 && args[|args| - 1] == VersionFlag
    decreases |args|
  {
    if args[0] == VersionFlag && |args| >= 2 {
      ScanFailure(args[2..], acc.(version := args[1]));
      assert args[|args| - 1] == args[2..][|args| - 3];
    } else if args[0] != VersionFlag {
      ScanFailure(args[1..], acc.(passThrough := acc.passThrough + [args[0]]));
      assert args[|args| - 1] == args[1..][|args| - 2];
    }
  }

  /** The launcher gets past its preliminaries: a supported platform,
      arguments that scan and a cache directory. */
  predicate Ready(env: Env, args: seq<string>) {
    IsSupported(env.os, env.arch) && Parse(args).Ok? && env.dirErr.None?
  }

  /** The latest release is looked up exactly when no version was asked for;
      an explicit version is used verbatim without touching the network. */
  lemma LookupOnlyForLatest(listing: seq<Fs.Entry>, env: Env, args: seq<string>)
    requires Ready(env, args)
    ensures var p, f := Parse(args).value, Resolve(listing, env, args);
            && (LookUp in f.steps <==> p.version == Latest)
            && (p.version != Latest ==> f == Go(p.version, p.passThrough, []))
            && (f.Go? ==> f.passThrough == p.passThrough)
  {
  }

  /** The installed version is consulted only after a lookup failed with
      ErrHTTP, which, the foreign errors aside, means the transport failed;
      the version then used is that of the installed binary with the least
      name in the cache directory. */
  lemma FallbackOnlyOnHTTP(listing: seq<Fs.Entry>, env: Env, args: seq<string>)
    requires Fs.ValidListing(listing) && ReadCache in Resolve(listing, env, args).steps
    ensures Ready(env, args) && Parse(args).value.version == Latest
    ensures Client.GetLatestVersion(env.latest).Err? && Is(Client.GetLatestVersion(env.latest).error, HTTP)
    ensures Client.ForeignErrors(env.latest) ==> env.latest.Unreachable?
    ensures var f := Resolve(listing, env, args);
            f.Go? ==> && env.cacheReadErr.None?
                      && exists i :: 0 <= i < |listing| && Fs.IsInstalled(listing[i])
                                     && f.version == Fs.VersionOf(listing[i].name)
                                     && forall j :: 0 <= j < |listing| && j != i && Fs.IsInstalled(listing[j])
                                                    ==> Less(listing[i].name, listing[j].name)
  {
    if !Ready(env, args) || Parse(args).value.version != Latest {
      assert false;
    }
    var latest := Client.GetLatestVersion(env.latest);
    if latest.Ok? || !Is(latest.error, HTTP) {
      assert false;
    }
    if Client.ForeignErrors(env.latest) {
      Client.LatestHTTPOnUnreachable(env.latest);
    }
    if Resolve(listing, env, args).Go? {
      Fs.CurrentIsLeast(listing);
    }
  }

  /** A lookup that fails with ErrHTTP (a transport failure is one, by
      Client.LatestHTTPOnUnreachable) reads the cache: the launch goes on
      with the installed version, or ends reporting why there is none. */
  lemma HTTPFailureFallsBack(listing: seq<Fs.Entry>, env: Env, args: seq<string>)
    requires Ready(env, args) && Parse(args).value.version == Latest
    requires Client.GetLatestVersion(env.latest).Err? && Is(Client.GetLatestVersion(env.latest).error, HTTP)
    ensures var f, p, cur := Resolve(listing, env, args), Parse(args).value, Fs.GetCurrentVersion(listing, env.cacheReadErr);
            f == if cur.Ok? then Go(cur.value, p.passThrough, [LookUp, ReadCache])
                 else Halt(NothingInstalled(cur.error), [LookUp, ReadCache])
  {
  }

  /** A request that cannot be built, for a reason other than ErrHTTP, ends
      the launch with that error after the lookup, without reading the
      cache. */
  lemma RequestFailedAborts(listing: seq<Fs.Entry>, env: Env, args: seq<string>)
    requires Ready(env, args) && Parse(args).value.version == Latest
    requires env.latest.RequestFailed? && !Is(env.latest.err, HTTP)
    ensures Resolve(listing, env, args) == Halt(NoLatest(env.latest.err), [LookUp])
  {
  }

  /** A reply of any status whose body the decoder rejects ends the launch
      with the decoder's error, after the lookup and without reading the
      cache, and nothing on disk changes (a 500 with an empty body is one). */
  lemma UndecodableReplyAborts(s: Fs.DiskState, root: string, downloadURL: string, env: Env, args: seq<string>)
    requires |env.attempts| >= Client.MaxRetries && Ready(env, args) && Parse(args).value.version == Latest
    requires env.latest.Reply? && env.latest.body.Malformed? && !Is(env.latest.body.err, HTTP)
    ensures Plan(s, root, downloadURL, env, args) == Run(NoLatest(env.latest.body.err), [LookUp], s)
  {
  }

  /** A reply of any status whose JSON carries no tag_name (a rate-limited 403
      is one) is taken as the version "": the launch goes on with the rest of
      main for that version, whose cache path is `tailwindcss-` in the cache
      directory. */
  lemma UntaggedReplyEmptyVersion(s: Fs.DiskState, root: string, downloadURL: string, env: Env, args: seq<string>)
    requires |env.attempts| >= Client.MaxRetries && Ready(env, args) && Parse(args).value.version == Latest
    requires env.latest.Reply? && env.latest.body == Client.Release(None)
    ensures Resolve(s.listing, env, args) == Go("", Parse(args).value.passThrough, [LookUp])
    ensures Plan(s, root, downloadURL, env, args) == Install(s, root, downloadURL, env, "", Parse(args).value.passThrough, [LookUp])
  {
    assert Client.GetLatestVersion(env.latest) == Ok("");
  }

  /** With the status-checking lookup, any reply other than 200, whatever
      its body, falls back to the installed version, and a launch with
      nothing installed then ends reporting ErrNotInstalled. */
  lemma FailedReplyFallsBack(listing: seq<Fs.Entry>, env: Env, args: seq<string>)
    requires Ready(env, args) && Parse(args).value.version == Latest
    requires env.latest.Reply? && env.latest.status != 200
    ensures var f, p := ResolveChecked(listing, env, args), Parse(args).value;
            && (Fs.GetCurrentVersion(listing, env.cacheReadErr).Ok? ==>
                  f == Go(Fs.GetCurrentVersion(listing, env.cacheReadErr).value, p.passThrough, [LookUp, ReadCache]))
            && (env.cacheReadErr.None? && (forall i :: 0 <= i < |listing| ==> !Fs.IsInstalled(listing[i])) ==>
                  f == Halt(NothingInstalled(NotInstalled), [LookUp, ReadCache]))
  {
    Client.LatestVersionStatus(env.latest);
  }

  /** The order of the install: the download first, then MakeExecutable,
      then the eviction, each failure ending it. */
  lemma ProvisionOrder(s: Fs.DiskState, root: string, downloadURL: string, env: Env, version: string, steps: seq<Step>)
    requires |env.attempts| >= Client.MaxRetries
    ensures var (failed, installed, _) := Provision(s, root, downloadURL, env, version, steps);
            var n, path := |installed| - |steps|, CachePath(root, version);
            && 1 <= n <= 3 && installed[..|steps|] == steps && installed[|steps|].Fetch?
            && installed[|steps| + 1..] == [Chmod(path), Evict(version)][..n - 1]
            && (n == 1 <==> failed.Some? && failed.value.DownloadError?)
            && (n == 2 <==> failed.Some? && failed.value.ChmodError?)
            && (n == 3 ==> failed.None? || failed.value.EvictError?)
  {
    var path := CachePath(root, version);
    var d := Client.Retry(s, root, env.attempts, path, root, 0, None);
    var fetched := steps + [Fetch(Client.Repeat(ArtifactUrl(downloadURL, env, version), d.tries))];
    assert fetched[..|steps|] == steps && fetched[|steps|].Fetch?;
    assert (fetched + [Chmod(path)])[|steps| + 1..] == [Chmod(path)];
    assert (fetched + [Chmod(path)] + [Evict(version)])[|steps| + 1..] == [Chmod(path), Evict(version)];
  }

  /** A binary already at the cache path is run at once: nothing is
      downloaded and the disk is left as it was. */
  lemma InstallPresent(s: Fs.DiskState, root: string, downloadURL: string, env: Env,
                       version: string, passThrough: seq<string>, steps: seq<Step>)
    requires |env.attempts| >= Client.MaxRetries && CheckError(s, root, env, version).None?
    ensures var r, path := Install(s, root, downloadURL, env, version, passThrough, steps), CachePath(root, version);
            && r.steps == steps + [Check(path), Exec(path, passThrough)] && r.state == s
            && (r.exit.Ran? <==> env.process.err.None?)
  {
    var path := CachePath(root, version);
    assert steps + [Check(path)] + [Exec(path, passThrough)] == steps + [Check(path), Exec(path, passThrough)];
  }

  /** A check error other than a missing file ends the launch before any
      download. */
  lemma InstallCheckFails(s: Fs.DiskState, root: string, downloadURL: string, env: Env,
                          version: string, passThrough: seq<string>, steps: seq<Step>)
    requires |env.attempts| >= Client.MaxRetries
    requires CheckError(s, root, env, version).Some? && !Is(CheckError(s, root, env, version).value, FileNotExists)
    ensures Install(s, root, downloadURL, env, version, passThrough, steps)
            == Run(CheckFailed(CheckError(s, root, env, version).value), steps + [Check(CachePath(root, version))], s)
  {
  }

  /** A missing binary is downloaded, made executable and the other versions
      evicted, in that order, each failure ending the launch, and only after
      all three is the binary run. */
  lemma InstallMissing(s: Fs.DiskState, root: string, downloadURL: string, env: Env,
                       version: string, passThrough: seq<string>, steps: seq<Step>)
    requires |env.attempts| >= Client.MaxRetries
    requires CheckError(s, root, env, version).Some? && Is(CheckError(s, root, env, version).value, FileNotExists)
    ensures var r, path := Install(s, root, downloadURL, env, version, passThrough, steps), CachePath(root, version);
            var n := |r.steps| - |steps|;
            && 2 <= n <= 5 && r.steps[..|steps|] == steps && r.steps[|steps|] == Check(path) && r.steps[|steps| + 1].Fetch?
            && r.steps[|steps| + 2..] == [Chmod(path), Evict(version), Exec(path, passThrough)][..n - 2]
  {
    var path := CachePath(root, version);
    var checked := steps + [Check(path)];
    ProvisionOrder(s, root, downloadURL, env, version, checked);
    InstallProvides(s, root, downloadURL, env, version, passThrough, steps);
    var (failed, installed, _) := Provision(s, root, downloadURL, env, version, checked);
    assert installed[..|steps|] == steps by {
      assert installed[..|checked|][..|steps|] == installed[..|steps|];
    }
    assert installed[|steps|] == Check(path) by {
      assert installed[|steps|] == installed[..|checked|][|steps|];
    }
    var tail := installed[|steps| + 2..];
    assert tail == [Chmod(path), Evict(version)][..|installed| - |checked| - 1];
    if failed.None? {
      var all := installed + [Exec(path, passThrough)];
      assert tail == [Chmod(path), Evict(version)];
      assert all[|steps| + 2..] == tail + [Exec(path, passThrough)];
    } else if |tail| == 0 {
      assert tail == [Chmod(path), Evict(version), Exec(path, passThrough)][..0];
    } else if |tail| == 1 {
      assert tail == [Chmod(path), Evict(version), Exec(path, passThrough)][..1];
    } else {
      assert tail == [Chmod(path), Evict(version), Exec(path, passThrough)][..2];
    }
  }

  /** The steps of Install for a missing binary: those of Provision after the
      check, and the run when Provision did not fail. */
  lemma InstallProvides(s: Fs.DiskState, root: string, downloadURL: string, env: Env,
                        version: string, passThrough: seq<string>, steps: seq<Step>)
    requires |env.attempts| >= Client.MaxRetries
    requires CheckError(s, root, env, version).Some? && Is(CheckError(s, root, env, version).value, FileNotExists)
    ensures var path := CachePath(root, version);
            var (failed, installed, _) := Provision(s, root, downloadURL, env, version, steps + [Check(path)]);
            Install(s, root, downloadURL, env, version, passThrough, steps).steps
              == if failed.Some? then installed else installed + [Exec(path, passThrough)]
  {
  }

  /** How far the launch of a missing binary got tells how it ended: after
      the download only on a download error, after MakeExecutable only on its
      error, after the eviction only on an eviction error, and the binary ran
      only when all three succeeded. */
  lemma InstallMissingExit(s: Fs.DiskState, root: string, downloadURL: string, env: Env,
                           version: string, passThrough: seq<string>, steps: seq<Step>)
    requires |env.attempts| >= Client.MaxRetries
    requires CheckError(s, root, env, version).Some? && Is(CheckError(s, root, env, version).value, FileNotExists)
    ensures var r := Install(s, root, downloadURL, env, version, passThrough, steps);
            var n := |r.steps| - |steps|;
            && (n == 2 <==> r.exit.DownloadError?)
            && (n == 3 <==> r.exit.ChmodError?)
            && (n == 4 <==> r.exit.EvictError?)
            && (n == 5 <==> r.exit.Ran? || r.exit.RunError?)
  {
    var checked := steps + [Check(CachePath(root, version))];
    ProvisionOrder(s, root, downloadURL, env, version, checked);
  }

  /** The eviction after an install keeps the installed binary, and when it
      completes no entry is left that DeleteOtherVersions would remove. */
  lemma EvictedKeepsVersion(s: Fs.DiskState, version: string, readErr: Option<Error>, removeErr: map<string, Error>,
                            data: seq<Fs.byte>)
    requires Fs.ValidListing(s.listing) && !HasSuffix(version, Fs.ExeSuffix)
    requires Fs.FileAt(s, Fs.InCache(Fs.PrefixTailwind + version)) == Some(data)
    ensures var (e, s1) := Evicted(s, version, readErr, removeErr);
            && Fs.FileAt(s1, Fs.InCache(Fs.PrefixTailwind + version)) == Some(data)
            && (e.None? ==> forall i :: 0 <= i < |s1.listing| ==> !Fs.Doomed(s1.listing[i], version))
  {
    var name := Fs.PrefixTailwind + version;
    if readErr.None? {
      var (e, s1) := Evicted(s, version, readErr, removeErr);
      Fs.LookupIn(s.listing, name);
      Fs.EvictionKeepsVersion(version, data);
      var k := Fs.FirstRefusal(s.listing, version, removeErr);
      Fs.EvictionKeepsEntry(s.listing, k, version, name);
      if e.None? {
        assert s.listing[k..] == [];
        assert s1.listing == Fs.Survivors(s.listing, k, version);
        forall i | 0 <= i < |s1.listing| ensures !Fs.Doomed(s1.listing[i], version) {
          Fs.SurvivorsMembers(s.listing, k, version, s1.listing[i]);
        }
      }
    }
  }

  /** A completed install leaves at the cache path the body of a clean 200
      reply, and no entry DeleteOtherVersions would remove. The
      cache directory must be absolute and not the root, and the version
      must be a plain name that does not end in `.exe`. */
  lemma ProvisionInstalls(s: Fs.DiskState, root: string, downloadURL: string, env: Env, version: string, steps: seq<Step>)
    requires |env.attempts| >= Client.MaxRetries && Fs.ValidListing(s.listing)
    requires IsAbs(root) && CleanNames(root) != []
    requires Separator !in version && !HasSuffix(version, Fs.ExeSuffix)
    ensures var (failed, _, s1) := Provision(s, root, downloadURL, env, version, steps);
            var place := Fs.InCache(Fs.PrefixTailwind + version);
            failed.None? ==>
              && (exists k :: 0 <= k < Client.MaxRetries && env.attempts[k].response.Reply?
                              && env.attempts[k].response.status == 200 && env.attempts[k].response.body.err.None?
                              && Fs.FileAt(s1, place) == Some(env.attempts[k].response.body.data))
              && forall i :: 0 <= i < |s1.listing| ==> !Fs.Doomed(s1.listing[i], version)
  {
    var (failed, _, s1) := Provision(s, root, downloadURL, env, version, steps);
    var path := CachePath(root, version);
    if failed.None? {
      Fs.CachePathLocated(root, version);
      var d := Client.Retry(s, root, env.attempts, path, root, 0, None);
      Client.RetrySuccess(s, root, env.attempts, path, root, 0, None);
      Client.RetryValid(s, root, env.attempts, path, root, 0, None);
      var data := env.attempts[d.tries - 1].response.body.data;
      EvictedKeepsVersion(d.state, version, env.evictReadErr, env.removeErr, data);
    }
  }

  /** Whenever the launch runs the binary, something is at the cache path:
      it was there already, or it was installed and survived the eviction of
      the other versions. */
  lemma RunsInstalledBinary(s: Fs.DiskState, root: string, downloadURL: string, env: Env,
                            version: string, passThrough: seq<string>, steps: seq<Step>)
    requires |env.attempts| >= Client.MaxRetries && Fs.ValidListing(s.listing)
    requires IsAbs(root) && CleanNames(root) != []
    requires Separator !in version && !HasSuffix(version, Fs.ExeSuffix)
    ensures var r, path := Install(s, root, downloadURL, env, version, passThrough, steps), CachePath(root, version);
            var place := Fs.InCache(Fs.PrefixTailwind + version);
            && Fs.Locate(root, path) == place
            && (r.exit.Ran? || r.exit.RunError? ==> Fs.Stat(r.state, place).None?)
  {
    Fs.CachePathLocated(root, version);
    var path := CachePath(root, version);
    var checked := steps + [Check(path)];
    ProvisionInstalls(s, root, downloadURL, env, version, checked);
  }

  /** main: the disk's root is the directory fs.GetDownloadDir returns. */
  method Launch(c: Client.Client, disk: Fs.Disk, env: Env, cmdline: seq<string>) returns (exit: Exit, steps: seq<Step>)
    requires disk.Valid() && |env.attempts| >= Client.MaxRetries
    modifies disk
    ensures disk.Valid()
    ensures Plan(old(disk.State()), disk.root, c.downloadURL, env, cmdline) == Run(exit, steps, disk.State())
  {
    steps := [];
    if !IsSupported(env.os, env.arch) {
      return Unsupported, steps;
    }
    var parsed := GetArgs(cmdline);
    if parsed.Err? {
      return BadArgs(parsed.error), steps;
    }
    var version, args := parsed.value.version, parsed.value.passThrough;
    if env.dirErr.Some? {
      return NoDownloadDir(env.dirErr.value), steps;
    }
    var actualVersion := version;
    if version == Latest {
      steps := steps + [LookUp];
      var ver := Client.GetLatestVersion(env.latest);
      if ver.Err? {
        if Is(ver.error, HTTP) {
          steps := steps + [ReadCache];
          var currVer := Fs.GetCurrentVersion(disk.listing, env.cacheReadErr);
          if currVer.Err? {
            return NothingInstalled(currVer.error), steps;
          }
          actualVersion := currVer.value;
        } else {
          return NoLatest(ver.error), steps;
        }
      } else {
        actualVersion := ver.value;
      }
    }
    assert Resolve(old(disk.State()).listing, env, cmdline) == Go(actualVersion, args, steps);
    exit, steps := InstallAndRun(c, disk, env, actualVersion, args, steps);
  }

  /** The second half of main: the cache path of the version, the check, the
      install when nothing is there, and the run. */
  method InstallAndRun(c: Client.Client, disk: Fs.Disk, env: Env, actualVersion: string, args: seq<string>,
                       stepsBefore: seq<Step>)
    returns (exit: Exit, steps: seq<Step>)
    requires disk.Valid() && |env.attempts| >= Client.MaxRetries
    modifies disk
    ensures disk.Valid()
    ensures Install(old(disk.State()), disk.root, c.downloadURL, env, actualVersion, args, stepsBefore)
            == Run(exit, steps, disk.State())
  {
    var downloadDir := disk.root;
    var filePath := CachePath(downloadDir, actualVersion);
    steps := stepsBefore + [Check(filePath)];
    var found := true;
    var err := Fs.Exists(StatError(disk.State(), Fs.Locate(disk.root, filePath), env.statFault));
    if err.Some? {
      if Is(err.value, FileNotExists) {
        found := false;
      } else {
        return CheckFailed(err.value), steps;
      }
    }

    if !found {
      var failed;
      failed, steps := Provide(c, disk, env, actualVersion, steps);
      if failed.Some? {
        return failed.value, steps;
      }
    }

    steps := steps + [Exec(filePath, args)];
    if env.process.err.Some? {
      return RunError(env.process.err.value), steps;
    }
    return Ran(Shown(env.process, args)), steps;
  }

  /** The install branch of main: Download, MakeExecutable and
      DeleteOtherVersions, stopping at the first failure. */
  method Provide(c: Client.Client, disk: Fs.Disk, env: Env, actualVersion: string, stepsBefore: seq<Step>)
    returns (failed: Option<Exit>, steps: seq<Step>)
    requires disk.Valid() && |env.attempts| >= Client.MaxRetries
    modifies disk
    ensures disk.Valid()
    ensures Provision(old(disk.State()), disk.root, c.downloadURL, env, actualVersion, stepsBefore)
            == (failed, steps, disk.State())
  {
    var downloadDir := disk.root;
    var filePath := CachePath(downloadDir, actualVersion);
    var err, requests, _ := c.Download(disk, env.os, env.arch, env.reader, actualVersion, filePath, downloadDir, env.attempts);
    ghost var d := Client.Retry(old(disk.State()), disk.root, env.attempts, filePath, downloadDir, 0, None);
    assert err == d.err && disk.State() == d.state;
    assert requests == Client.Repeat(ArtifactUrl(c.downloadURL, env, actualVersion), d.tries);
    steps := stepsBefore + [Fetch(requests)];
    if err.Some? {
      return Some(DownloadError(err.value)), steps;
    }
    steps := steps + [Chmod(filePath)];
    if env.chmodErr.Some? {
      return Some(ChmodError(env.chmodErr.value)), steps;
    }
    steps := steps + [Evict(actualVersion)];
    ghost var installed := disk.State();
    err := disk.DeleteOtherVersions(actualVersion, env.evictReadErr, env.removeErr);
    assert (err, disk.State()) == Evicted(installed, actualVersion, env.evictReadErr, env.removeErr);
    if err.Some? {
      return Some(EvictError(err.value)), steps;
    }
    return None, steps;
  }
}
