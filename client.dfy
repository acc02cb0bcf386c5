/** The download client of client/client.go: the artifact name for a platform
    (with the musl probe), the latest-release lookup, and the retrying download
    of an artifact into the cache. The network and the clock are oracles: every
    answer a server gives is a parameter. */
module Client {
  import opened Errors
  import opened Strings
  import opened FilePath
  import Fs

  const UrlDownload: string := "https://github.com/tailwindlabs/tailwindcss/releases/download"
  const UrlLatestVersion: string := "https://api.github.com/repos/tailwindlabs/tailwindcss/releases/latest"
  const MaxRetries: nat := 3
  /** retryDelay, in seconds */
  const RetryDelay: nat := 2

  /** What the musl probe can see of the machine: the files it can read, by
      path, and the paths for which os.Stat succeeds. */
  datatype FileReader = FileReader(files: map<string, string>, existing: set<string>)

  const ProcSelfMaps: string := "/proc/self/maps"

  /** The well-known paths of the musl dynamic linker. */
  const MuslLinkers: seq<string> := ["/lib/ld-musl-x86_64.so.1", "/lib/ld-musl-aarch64.so.1", "/lib/ld-musl-armhf.so.1"]

  /** slices.ContainsFunc(paths, reader.FileExists) */
  function AnyExists(paths: seq<string>, reader: FileReader): (r: bool)
    ensures r <==> exists i :: 0 <= i < |paths| && paths[i] in reader.existing
    decreases |paths|
  {
    if |paths| == 0 then false
    else if paths[0] in reader.existing then true
    else
      assert forall i :: 1 <= i < |paths| ==> paths[i] == paths[1..][i - 1];
      AnyExists(paths[1..], reader)
  }

  /** isMusl: the process's memory maps mention musl, or failing that a musl
      dynamic linker exists at one of the well-known paths. */
  function IsMusl(reader: FileReader): bool {
    (ProcSelfMaps in reader.files && Contains(reader.files[ProcSelfMaps], "musl"))
    || AnyExists(MuslLinkers, reader)
  }

  /** The operating-system part of an artifact name. */
  function OsName(os: string): string {
    if os == "darwin" then "macos" else os
  }

  /** The architecture part of an artifact name. */
  function ArchName(arch: string): string {
    if arch == "amd64" then "x64" else arch
  }

  /** GetNameWithReader: the release artifact for a platform; the `-musl`
      variant only on Linux with musl, `.exe` only on Windows. */
  function GetNameWithReader(os: string, arch: string, reader: FileReader): string {
    var muslPostfix := if os == "linux" && IsMusl(reader) then "-musl" else "";
    var executablePostfix := if os == "windows" then ".exe" else "";
    "tailwindcss-" + OsName(os) + "-" + ArchName(arch) + muslPostfix + executablePostfix
  }

  /** A text without the letter `m` does not mention musl. */
  lemma NoMuslWithoutM(text: string)
    requires 'm' !in text
    ensures !Contains(text, "musl")
  {
    forall i | 0 <= i && i + 4 <= |text| ensures !OccursAt(text, "musl", i) {
      assert text[i..i + 4][0] == text[i];
    }
  }

  /** A memory-map line of a process linked against glibc. */
  const GlibcMapsLine: string := "7f00 r--p 00000000" + " 08:01 /lib/x86_64" + "-linux-gnu/libc.so.6"

  /** A memory-map line of a process linked against musl. */
  const MuslMapsLine: string := "7f00 r--p 00000000 08:01 /lib/ld-musl-x86_64.so.1"

  /** isMusl on the readers of its test table: musl named in the memory maps,
      a linker on disk behind a glibc map, a linker alone, nothing at all, and
      a glibc map alone. */
  lemma MuslTable()
    ensures IsMusl(FileReader(map[ProcSelfMaps := MuslMapsLine], {}))
    ensures IsMusl(FileReader(map[ProcSelfMaps := GlibcMapsLine], {"/lib/ld-musl-x86_64.so.1"}))
    ensures IsMusl(FileReader(map[], {"/lib/ld-musl-aarch64.so.1"}))
    ensures !IsMusl(FileReader(map[], {}))
    ensures !IsMusl(FileReader(map[ProcSelfMaps := GlibcMapsLine], {}))
  {
    assert OccursAt(MuslMapsLine, "musl", 33);
    assert 'm' !in "7f00 r--p 00000000" && 'm' !in " 08:01 /lib/x86_64" && 'm' !in "-linux-gnu/libc.so.6";
    NoMuslWithoutM(GlibcMapsLine);
    assert MuslLinkers[0] == "/lib/ld-musl-x86_64.so.1";
    assert MuslLinkers[1] == "/lib/ld-musl-aarch64.so.1";
  }

  /** The linker paths are consulted only when the memory maps cannot be read
      or do not mention musl; then one of them existing decides. */
  lemma MuslFallsThrough(reader: FileReader)
    requires ProcSelfMaps !in reader.files || !Contains(reader.files[ProcSelfMaps], "musl")
    ensures IsMusl(reader) <==> exists i :: 0 <= i < |MuslLinkers| && MuslLinkers[i] in reader.existing
  {
  }

  /** The parts of an artifact name: the prefix, the operating system, a dash,
      the architecture, then `-musl` exactly on Linux with musl and `.exe`
      exactly on Windows. */
  lemma NameParts(os: string, arch: string, reader: FileReader)
    ensures var name := GetNameWithReader(os, arch, reader);
            var head := "tailwindcss-" + OsName(os) + "-" + ArchName(arch);
            && HasPrefix(name, head)
            && (os == "windows" ==> HasSuffix(name, ".exe") && name == head + ".exe")
            && (os == "linux" ==> name == head + (if IsMusl(reader) then "-musl" else ""))
            && (os != "windows" && os != "linux" ==> name == head)
  {
    var name := GetNameWithReader(os, arch, reader);
    var head := "tailwindcss-" + OsName(os) + "-" + ArchName(arch);
    var tail := name[|head|..];
    assert name == head + tail;
  }

  /** The reader is never consulted for an operating system other than Linux. */
  lemma NameIgnoresReaderOffLinux(os: string, arch: string, r1: FileReader, r2: FileReader)
    requires os != "linux"
    ensures GetNameWithReader(os, arch, r1) == GetNameWithReader(os, arch, r2)
  {
  }

  /** The Linux row of the musl test table where the memory maps name musl. */
  lemma NameMuslViaMaps()
    ensures GetNameWithReader("linux", "amd64", FileReader(map[ProcSelfMaps := "/lib/ld-musl-x86_64.so.1"], {}))
            == "tailwindcss-linux-x64-musl"
  {
    var viaMaps := FileReader(map[ProcSelfMaps := "/lib/ld-musl-x86_64.so.1"], {});
    assert IsMusl(viaMaps) by {
      assert OccursAt("/lib/ld-musl-x86_64.so.1", "musl", 8);
    }
    NameTableLinux(viaMaps);
  }

  /** The Linux row of the musl test table where only the linker is found. */
  lemma NameMuslViaLinker()
    ensures GetNameWithReader("linux", "arm64", FileReader(map[], {"/lib/ld-musl-aarch64.so.1"}))
            == "tailwindcss-linux-arm64-musl"
  {
    var viaLinker := FileReader(map[], {"/lib/ld-musl-aarch64.so.1"});
    assert IsMusl(viaLinker) by {
      assert MuslLinkers[1] == "/lib/ld-musl-aarch64.so.1";
    }
    NameTableLinux(viaLinker);
  }

  /** The Linux row of the musl test table where nothing points to musl. */
  lemma NameGlibc()
    ensures GetNameWithReader("linux", "amd64", FileReader(map[], {})) == "tailwindcss-linux-x64"
  {
    assert !IsMusl(FileReader(map[], {})) by {
      MuslTable();
    }
    NameTableLinux(FileReader(map[], {}));
  }

  /** GetNameWithReader on Linux: the `-musl` variant exactly when the probe
      finds musl. */
  lemma NameTableLinux(reader: FileReader)
    ensures var musl := if IsMusl(reader) then "-musl" else "";
            && GetNameWithReader("linux", "amd64", reader) == "tailwindcss-linux-x64" + musl
            && GetNameWithReader("linux", "arm64", reader) == "tailwindcss-linux-arm64" + musl
  {
  }

  /** GetNameWithReader on macOS, whatever the reader says. */
  lemma NameTableDarwin(reader: FileReader)
    ensures GetNameWithReader("darwin", "amd64", reader) == "tailwindcss-macos-x64"
    ensures GetNameWithReader("darwin", "arm64", reader) == "tailwindcss-macos-arm64"
  {
  }

  /** GetNameWithReader on Windows, whatever the reader says. */
  lemma NameTableWindows(reader: FileReader)
    ensures GetNameWithReader("windows", "amd64", reader) == "tailwindcss-windows-x64.exe"
    ensures GetNameWithReader("windows", "arm64", reader) == "tailwindcss-windows-arm64.exe"
  {
  }

  /** A JSON document as json.Decoder reads it into the release record: a value
      it accepts, which sets tag_name or leaves it empty, or one it rejects. */
  datatype Json = Release(tagName: Option<string>) | Malformed(err: Error)

  /** The outcome of one HTTP request: building the request failed, the
      transport failed (http.Client.Do returned an error), or a reply with its
      status, declared Content-Length (-1 when absent) and body. */
  datatype Response<+B> = RequestFailed(err: Error) | Unreachable(err: Error) | Reply(status: int, contentLength: int, body: B)

  /** GetLatestVersion: a failure to build the request is returned as is, a
      transport failure becomes ErrHTTP, a decoder error is returned as is,
      and the status code is never looked at. */
  function GetLatestVersion(resp: Response<Json>): Result<string> {
    match resp
    case RequestFailed(e) => Err(e)
    case Unreachable(_) => Err(HTTP)
    case Reply(_, _, body) =>
      match body
      case Malformed(e) => Err(e)
      case Release(tag) => Ok(if tag.Some? then tag.value else "")
  }

  /** The lookup with the status check the rest of the client follows: any
      reply other than 200 is ErrHTTP, like a transport failure, before the
      body is decoded (downloadAttempt treats a status the same way). */
  function GetLatestVersionChecked(resp: Response<Json>): Result<string> {
    if resp.Reply? && resp.status != 200 then Err(HTTP)
    else GetLatestVersion(resp)
  }

  /** The errors of the request builder and of the JSON decoder are never
      ErrHTTP: only the client itself returns that sentinel. */
  predicate ForeignErrors(resp: Response<Json>) {
    && (resp.RequestFailed? ==> !Is(resp.err, HTTP))
    && (resp.Reply? && resp.body.Malformed? ==> !Is(resp.body.err, HTTP))
  }

  /** The lookup reports ErrHTTP for a transport failure and, its foreign
      errors aside, for nothing else: a reply of any status never yields
      ErrHTTP. */
  lemma LatestHTTPOnUnreachable(resp: Response<Json>)
    requires ForeignErrors(resp)
    ensures (GetLatestVersion(resp).Err? && Is(GetLatestVersion(resp).error, HTTP)) <==> resp.Unreachable?
    ensures resp.Unreachable? ==> GetLatestVersion(resp) == Err(HTTP)
  {
  }

  /** A rate-limited reply (403 with an error document) yields the empty version
      without an error, and a 500 with an empty body yields the decoder's error
      rather than ErrHTTP, so the launcher does not fall back to the cache. */
  lemma LatestIgnoresStatus(decodeErr: Error)
    requires decodeErr != HTTP
    ensures GetLatestVersion(Reply(403, -1, Release(None))) == Ok("")
    ensures GetLatestVersion(Reply(500, 0, Malformed(decodeErr))) != Err(HTTP)
  {
  }

  /** The checked lookup yields a version only from a 200 reply whose body
      decodes, reports every other status and every transport failure as
      ErrHTTP, and agrees with GetLatestVersion on 200 replies. */
  lemma LatestVersionStatus(resp: Response<Json>)
    ensures GetLatestVersionChecked(resp).Ok? ==> resp.Reply? && resp.status == 200 && resp.body.Release?
    ensures (resp.Unreachable? || (resp.Reply? && resp.status != 200)) ==> GetLatestVersionChecked(resp) == Err(HTTP)
    ensures resp.Reply? && resp.status == 200 ==> GetLatestVersionChecked(resp) == GetLatestVersion(resp)
    ensures resp.Reply? && resp.status == 200 && resp.body.Release? && resp.body.tagName.Some?
            ==> GetLatestVersionChecked(resp) == Ok(resp.body.tagName.value)
  {
  }

  /** Everything one download attempt depends on: the server's answer, the
      error os.Create reports (if any), and the error os.Remove reports when
      the attempt fails and the partial file is cleaned up. */
  datatype Attempt = Attempt(response: Response<Fs.Stream>, createErr: Option<Error>, removeErr: Option<Error>)

  /** downloadAttempt on a disk state: the error and the state after. */
  function AttemptResult(s: Fs.DiskState, root: string, a: Attempt, path: string, downloadDir: string): (Option<Error>, Fs.DiskState) {
    match a.response
    case RequestFailed(e) => (Some(e), s)
    case Unreachable(e) => (Some(e), s)
    case Reply(status, len, body) =>
      if status != 200 then (Some(HTTP), s)
      else
        var place := Fs.Locate(root, path);
        var inside, isDir := InsideDir(path, downloadDir), Fs.DirAt(s, place);
        (Fs.WriteError(inside, isDir, a.createErr, body, len),
         if Fs.Creates(inside, isDir, a.createErr) then Fs.Store(s, place, body.data) else s)
  }

  /** The best-effort removal of the partial file after a failed attempt. */
  function Cleanup(s: Fs.DiskState, root: string, a: Attempt, path: string): Fs.DiskState {
    var place := Fs.Locate(root, path);
    if Fs.RemoveError(s, place, a.removeErr).None? then Fs.Delete(s, place) else s
  }

  /** `n` copies of `x`. */
  function Repeat<T>(x: T, n: nat): (r: seq<T>)
    ensures |r| == n && forall i :: 0 <= i < n ==> r[i] == x
  {
    if n == 0 then [] else Repeat(x, n - 1) + [x]
  }

  /** What Download ends with: its error, the disk state, and the number of
      attempts made. */
  datatype Outcome = Outcome(err: Option<Error>, state: Fs.DiskState, tries: nat)

  /** The retry loop of Download from attempt `k` (counting from 0), with the
      last attempt's error: stop at the first success, clean up after each
      failure, and after MaxRetries failures wrap the last error in
      ErrDownloadFailed. */
  function Retry(s: Fs.DiskState, root: string, attempts: seq<Attempt>, path: string, downloadDir: string,
                 k: nat, lastErr: Option<Error>): (r: Outcome)
    requires k <= MaxRetries <= |attempts|
    requires k > 0 ==> lastErr.Some?
    ensures k <= r.tries <= MaxRetries && (k < MaxRetries ==> k < r.tries)
    ensures r.err.Some? ==> r.tries == MaxRetries && r.err.value.RetriesExhausted? && Is(r.err.value, DownloadFailed)
    decreases MaxRetries - k
  {
    if k == MaxRetries then Outcome(Some(RetriesExhausted(lastErr.value)), s, k)
    else
      var (e, s1) := AttemptResult(s, root, attempts[k], path, downloadDir);
      if e.None? then Outcome(None, s1, k + 1)
      else Retry(Cleanup(s1, root, attempts[k], path), root, attempts, path, downloadDir, k + 1, e)
  }

  /** An answer that fails the attempt whatever the disk holds, and its error. */
  predicate Rejected(resp: Response<Fs.Stream>) {
    resp.RequestFailed? || resp.Unreachable? || (resp.Reply? && resp.status != 200)
  }

  function RejectionError(resp: Response<Fs.Stream>): Error
    requires Rejected(resp)
  {
    if resp.Reply? then HTTP else resp.err
  }

  /** When every remaining answer is a failure, all attempts are made and the
      error wraps the last answer's error. */
  lemma {:induction false} RetryAllRejected(s: Fs.DiskState, root: string, attempts: seq<Attempt>, path: string,
                                            downloadDir: string, k: nat, lastErr: Option<Error>)
    requires k < MaxRetries <= |attempts|
    requires k > 0 ==> lastErr.Some?
    requires forall i :: k <= i < MaxRetries ==> Rejected(attempts[i].response)
    ensures var r := Retry(s, root, attempts, path, downloadDir, k, lastErr);
            r.tries == MaxRetries && r.err == Some(RetriesExhausted(RejectionError(attempts[MaxRetries - 1].response)))
    decreases MaxRetries - k
  {
    var (e, s1) := AttemptResult(s, root, attempts[k], path, downloadDir);
    if k + 1 < MaxRetries {
      RetryAllRejected(Cleanup(s1, root, attempts[k], path), root, attempts, path, downloadDir, k + 1, e);
    }
  }

  /** Download changes nothing but the target path: every other place of the
      file system holds what it held. */
  lemma {:induction false} RetryFrame(s: Fs.DiskState, root: string, attempts: seq<Attempt>, path: string,
                                      downloadDir: string, k: nat, lastErr: Option<Error>, q: Fs.Place)
    requires k <= MaxRetries <= |attempts|
    requires k > 0 ==> lastErr.Some?
    requires Fs.ValidListing(s.listing) && q != Fs.Locate(root, path)
    ensures Fs.FileAt(Retry(s, root, attempts, path, downloadDir, k, lastErr).state, q) == Fs.FileAt(s, q)
    decreases MaxRetries - k
  {
    if k < MaxRetries {
      var place := Fs.Locate(root, path);
      var (e, s1) := AttemptResult(s, root, attempts[k], path, downloadDir);
      AttemptFrame(s, root, attempts[k], path, downloadDir, q);
      AttemptValid(s, root, attempts[k], path, downloadDir);
      if e.Some? {
        var s2 := Cleanup(s1, root, attempts[k], path);
        Fs.DeleteFileAt(s1, place, q);
        RetryFrame(s2, root, attempts, path, downloadDir, k + 1, e, q);
      }
    }
  }

  /** Download keeps the cache listing in os.ReadDir order. */
  lemma {:induction false} RetryValid(s: Fs.DiskState, root: string, attempts: seq<Attempt>, path: string,
                                      downloadDir: string, k: nat, lastErr: Option<Error>)
    requires k <= MaxRetries <= |attempts|
    requires k > 0 ==> lastErr.Some?
    requires Fs.ValidListing(s.listing)
    ensures Fs.ValidListing(Retry(s, root, attempts, path, downloadDir, k, lastErr).state.listing)
    decreases MaxRetries - k
  {
    if k < MaxRetries {
      var (e, s1) := AttemptResult(s, root, attempts[k], path, downloadDir);
      AttemptValid(s, root, attempts[k], path, downloadDir);
      if e.Some? {
        RetryValid(Cleanup(s1, root, attempts[k], path), root, attempts, path, downloadDir, k + 1, e);
      }
    }
  }

  /** One attempt changes nothing but the target path. */
  lemma AttemptFrame(s: Fs.DiskState, root: string, a: Attempt, path: string, downloadDir: string, q: Fs.Place)
    requires q != Fs.Locate(root, path)
    ensures var (_, s1) := AttemptResult(s, root, a, path, downloadDir);
            Fs.FileAt(s1, q) == Fs.FileAt(s, q)
  {
    var place := Fs.Locate(root, path);
    Fs.StoreFileAt(s, place, if a.response.Reply? then a.response.body.data else [], q);
  }

  /** One attempt and its clean-up keep the listing valid. */
  lemma AttemptValid(s: Fs.DiskState, root: string, a: Attempt, path: string, downloadDir: string)
    requires Fs.ValidListing(s.listing)
    ensures var (_, s1) := AttemptResult(s, root, a, path, downloadDir);
            Fs.ValidListing(s1.listing) && Fs.ValidListing(Cleanup(s1, root, a, path).listing)
  {
    var place := Fs.Locate(root, path);
    var (_, s1) := AttemptResult(s, root, a, path, downloadDir);
    if place.InCache? {
      if a.response.Reply? {
        Fs.PutFileValid(s.listing, place.name, a.response.body.data);
      }
      Fs.RemoveNamedValid(s1.listing, place.name);
    }
  }

  /** A successful download leaves at the target path exactly the body of the
      last attempt's 200 reply, which ended cleanly and, when the reply
      declared a length, has that length. */
  lemma {:induction false} RetrySuccess(s: Fs.DiskState, root: string, attempts: seq<Attempt>, path: string,
                                        downloadDir: string, k: nat, lastErr: Option<Error>)
    requires k <= MaxRetries <= |attempts|
    requires k > 0 ==> lastErr.Some?
    ensures var r := Retry(s, root, attempts, path, downloadDir, k, lastErr);
            r.err.None? ==>
              var resp := attempts[r.tries - 1].response;
              && resp.Reply? && resp.status == 200 && resp.body.err.None?
              && (resp.contentLength > 0 ==> |resp.body.data| == resp.contentLength)
              && Fs.FileAt(r.state, Fs.Locate(root, path)) == Some(resp.body.data)
    decreases MaxRetries - k
  {
    if k < MaxRetries {
      var a := attempts[k];
      var (e, s1) := AttemptResult(s, root, a, path, downloadDir);
      if e.None? {
        assert Retry(s, root, attempts, path, downloadDir, k, lastErr) == Outcome(None, s1, k + 1);
        var place := Fs.Locate(root, path);
        Fs.WriteOutcome(InsideDir(path, downloadDir), Fs.DirAt(s, place), a.createErr, a.response.body, a.response.contentLength);
        Fs.StoreFileAt(s, place, a.response.body.data, place);
      } else {
        var s2 := Cleanup(s1, root, a, path);
        assert Retry(s, root, attempts, path, downloadDir, k, lastErr) == Retry(s2, root, attempts, path, downloadDir, k + 1, e);
        RetrySuccess(s2, root, attempts, path, downloadDir, k + 1, e);
      }
    }
  }

  /** After a failed download nothing is left at the target path, provided the
      final clean-up's removal is not refused. */
  lemma {:induction false} RetryFailureLeavesNothing(s: Fs.DiskState, root: string, attempts: seq<Attempt>, path: string,
                                                     downloadDir: string, k: nat, lastErr: Option<Error>)
    requires k < MaxRetries <= |attempts|
    requires k > 0 ==> lastErr.Some?
    requires Fs.ValidListing(s.listing) && attempts[MaxRetries - 1].removeErr.None?
    ensures var r := Retry(s, root, attempts, path, downloadDir, k, lastErr);
            r.err.Some? ==> Fs.FileAt(r.state, Fs.Locate(root, path)) == None
    decreases MaxRetries - k
  {
    var place := Fs.Locate(root, path);
    var a := attempts[k];
    var (e, s1) := AttemptResult(s, root, a, path, downloadDir);
    if e.Some? {
      AttemptValid(s, root, a, path, downloadDir);
      var s2 := Cleanup(s1, root, a, path);
      assert Retry(s, root, attempts, path, downloadDir, k, lastErr) == Retry(s2, root, attempts, path, downloadDir, k + 1, e);
      if k + 1 < MaxRetries {
        RetryFailureLeavesNothing(s2, root, attempts, path, downloadDir, k + 1, e);
      } else {
        assert Retry(s2, root, attempts, path, downloadDir, k + 1, e).state == s2;
        Fs.DeleteFileAt(s1, place, place);
      }
    }
  }

  /** The disk state before attempt `i` (counting from 0) of a download that
      began in state `s`, when every earlier attempt failed and was cleaned up. */
  function Before(s: Fs.DiskState, root: string, attempts: seq<Attempt>, path: string, downloadDir: string,
                  i: nat): Fs.DiskState
    requires i <= MaxRetries <= |attempts|
    decreases i
  {
    if i == 0 then s
    else
      var a := attempts[i - 1];
      var (_, s1) := AttemptResult(Before(s, root, attempts, path, downloadDir, i - 1), root, a, path, downloadDir);
      Cleanup(s1, root, a, path)
  }

  /** The error attempt `i` reports in the state Before it. */
  function ErrorAt(s: Fs.DiskState, root: string, attempts: seq<Attempt>, path: string, downloadDir: string,
                   i: nat): Option<Error>
    requires i < MaxRetries <= |attempts|
  {
    AttemptResult(Before(s, root, attempts, path, downloadDir, i), root, attempts[i], path, downloadDir).0
  }

  /** Download's promises attempt by attempt: every attempt before the last
      one made failed; the result is nil exactly when that last attempt
      succeeded (RetrySuccess says what it wrote); otherwise all MaxRetries
      attempts failed, the error wraps the last attempt's error in
      ErrDownloadFailed, and the disk is what the clean-ups left. */
  lemma RetryAttempts(s: Fs.DiskState, root: string, attempts: seq<Attempt>, path: string, downloadDir: string)
    requires MaxRetries <= |attempts|
    ensures var r := Retry(s, root, attempts, path, downloadDir, 0, None);
            && 1 <= r.tries <= MaxRetries
            && (forall i :: 0 <= i < r.tries - 1 ==> ErrorAt(s, root, attempts, path, downloadDir, i).Some?)
            && (r.err.None? <==> ErrorAt(s, root, attempts, path, downloadDir, r.tries - 1).None?)
            && (r.err.Some? ==>
                  && r.tries == MaxRetries
                  && r.err == Some(RetriesExhausted(ErrorAt(s, root, attempts, path, downloadDir, MaxRetries - 1).value))
                  && r.state == Before(s, root, attempts, path, downloadDir, MaxRetries))
  {
    var b0, b1, b2, b3 := s, Before(s, root, attempts, path, downloadDir, 1),
                          Before(s, root, attempts, path, downloadDir, 2), Before(s, root, attempts, path, downloadDir, 3);
    var (e0, t0) := AttemptResult(b0, root, attempts[0], path, downloadDir);
    var (e1, t1) := AttemptResult(b1, root, attempts[1], path, downloadDir);
    var (e2, t2) := AttemptResult(b2, root, attempts[2], path, downloadDir);
    assert b1 == Cleanup(t0, root, attempts[0], path);
    assert b2 == Cleanup(t1, root, attempts[1], path);
    assert b3 == Cleanup(t2, root, attempts[2], path);
    assert e0 == ErrorAt(s, root, attempts, path, downloadDir, 0);
    assert e1 == ErrorAt(s, root, attempts, path, downloadDir, 1);
    assert e2 == ErrorAt(s, root, attempts, path, downloadDir, 2);
    var r := Retry(s, root, attempts, path, downloadDir, 0, None);
    if e0.None? {
      assert r == Outcome(None, t0, 1);
    } else {
      assert r == Retry(b1, root, attempts, path, downloadDir, 1, e0);
      if e1.None? {
        assert r == Outcome(None, t1, 2);
      } else {
        assert r == Retry(b2, root, attempts, path, downloadDir, 2, e1);
        if e2.None? {
          assert r == Outcome(None, t2, 3);
        } else {
          assert r == Retry(b3, root, attempts, path, downloadDir, 3, e2);
          assert r == Outcome(Some(RetriesExhausted(e2.value)), b3, 3);
        }
      }
    }
  }

  class Client {
    var downloadURL: string
    var latestVersionURL: string

    /** client.New: the public release endpoints. */
    constructor ()
      ensures downloadURL == UrlDownload && latestVersionURL == UrlLatestVersion
    {
      downloadURL := UrlDownload;
      latestVersionURL := UrlLatestVersion;
    }

    /** WithTestURLs: point the client at other endpoints. */
    method WithTestURLs(downloadURL: string, latestVersionURL: string)
      modifies this
      ensures this.downloadURL == downloadURL && this.latestVersionURL == latestVersionURL
    {
      this.downloadURL := downloadURL;
      this.latestVersionURL := latestVersionURL;
    }

    /** downloadAttempt: fetch the artifact and, on a 200 reply, write its body
        to `path` with the declared length as the expected size. */
    method DownloadAttempt(disk: Fs.Disk, path: string, downloadDir: string, a: Attempt) returns (err: Option<Error>)
      requires disk.Valid()
      modifies disk
      ensures disk.Valid()
      ensures (err, disk.State()) == AttemptResult(old(disk.State()), disk.root, a, path, downloadDir)
    {
      match a.response
      case RequestFailed(e) => err := Some(e);
      case Unreachable(e) => err := Some(e);
      case Reply(status, contentLength, body) =>
        if status != 200 {
          err := Some(HTTP);
        } else {
          err := disk.Write(body, path, downloadDir, contentLength, a.createErr);
        }
    }

    /** One pass of Download's loop: an attempt and, when it fails, the
        removal of what it left behind, whose own failure is only logged. */
    method TryOnce(disk: Fs.Disk, path: string, downloadDir: string, a: Attempt) returns (err: Option<Error>)
      requires disk.Valid()
      modifies disk
      ensures disk.Valid()
      ensures var (e, s1) := AttemptResult(old(disk.State()), disk.root, a, path, downloadDir);
              err == e && disk.State() == if e.None? then s1 else Cleanup(s1, disk.root, a, path)
    {
      err := DownloadAttempt(disk, path, downloadDir, a);
      if err.Some? {
        var _ := disk.Remove(path, a.removeErr);
      }
    }

    /** Download: up to MaxRetries attempts at the artifact URL of the version
        and platform, sleeping RetryDelay before each retry and removing the
        partial file after each failure; the result is nil on the first
        success and otherwise ErrDownloadFailed wrapping the last error.
        `attempts` holds what each attempt meets; `requests` are the URLs
        attempted, one per attempt whether or not a request was sent, and `sleeps` the durations slept, one before each retry. */
    method Download(disk: Fs.Disk, os: string, arch: string, reader: FileReader, version: string,
                    path: string, downloadDir: string, attempts: seq<Attempt>)
      returns (err: Option<Error>, requests: seq<string>, sleeps: seq<nat>)
      requires disk.Valid() && |attempts| >= MaxRetries
      modifies disk
      ensures disk.Valid()
      ensures var r := Retry(old(disk.State()), disk.root, attempts, path, downloadDir, 0, None);
              && err == r.err && disk.State() == r.state
              && requests == Repeat(downloadURL + "/" + version + "/" + GetNameWithReader(os, arch, reader), r.tries)
              && sleeps == Repeat(RetryDelay, r.tries - 1)
    {
      var fileName := GetNameWithReader(os, arch, reader);
      var url := downloadURL + "/" + version + "/" + fileName;
      ghost var goal := Retry(disk.State(), disk.root, attempts, path, downloadDir, 0, None);
      var lastErr: Option<Error> := None;
      requests, sleeps := [], [];
      var attempt := 1;
      while attempt <= MaxRetries
        invariant 1 <= attempt <= MaxRetries + 1
        invariant attempt > 1 ==> lastErr.Some?
        invariant disk.Valid()
        invariant goal == Retry(disk.State(), disk.root, attempts, path, downloadDir, attempt - 1, lastErr)
        invariant requests == Repeat(url, attempt - 1)
        invariant sleeps == Repeat(RetryDelay, if attempt == 1 then 0 else attempt - 2)
      {
        if attempt > 1 {
          sleeps := sleeps + [RetryDelay];
        }
        requests := requests + [url];
        var e := TryOnce(disk, path, downloadDir, attempts[attempt - 1]);
        if e.None? {
          return None, requests, sleeps;
        }
        lastErr := e;
        attempt := attempt + 1;
      }
      return Some(RetriesExhausted(lastErr.value)), requests, sleeps;
    }
  }
}
