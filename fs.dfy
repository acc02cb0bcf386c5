/** The cache store of fs/fs.go: the cache directory, listed in os.ReadDir
    order, the checked write of a downloaded binary, removal, the scan for the
    installed version and the eviction of other versions. */
module Fs {
  import opened Errors
  import opened Strings
  import opened FilePath

  newtype byte = b: int | 0 <= b < 256

  /** fs.PrefixTailwind */
  const PrefixTailwind: string := "tailwindcss-"

  const ExeSuffix: string := ".exe"

  /** An entry of the cache directory as os.ReadDir reports it; a regular file
      carries its bytes. */
  datatype Entry = File(name: string, content: seq<byte>) | Dir(name: string)

  /** What an io.Reader yields: its bytes, then end of stream (`err` is None)
      or the read error that stopped the copy. */
  datatype Stream = Stream(data: seq<byte>, err: Option<Error>)

  /** Where a path leads: straight into the cache directory, or anywhere else,
      named by its cleaned path. */
  datatype Place = InCache(name: string) | Elsewhere(path: string)

  /** The file system as the model sees it: the cache directory's entries and
      the regular files outside it. */
  datatype DiskState = DiskState(listing: seq<Entry>, elsewhere: map<string, seq<byte>>)

  /** The place `path` names when the cache directory is `root`. */
  function Locate(root: string, path: string): (place: Place)
    ensures place.InCache? ==> IsName(place.name)
  {
    var p, d := Clean(path), Clean(root);
    if HasPrefix(p, d + [Separator]) && IsName(p[|d| + 1..]) then InCache(p[|d| + 1..])
    else Elsewhere(p)
  }

  /** A listing as os.ReadDir returns it: proper names, each strictly below
      the next one. */
  predicate ValidListing(es: seq<Entry>)
    decreases |es|
  {
    |es| == 0 || (IsName(es[0].name) && (|es| > 1 ==> Less(es[0].name, es[1].name)) && ValidListing(es[1..]))
  }

  /** The first entry called `name`. */
  function Lookup(es: seq<Entry>, name: string): Option<Entry>
    decreases |es|
  {
    if |es| == 0 then None
    else if es[0].name == name then Some(es[0])
    else Lookup(es[1..], name)
  }

  /** The listing once the file `name` holds `data`: an entry of that name is
      replaced, otherwise the file is inserted at its place in name order. */
  function PutFile(es: seq<Entry>, name: string, data: seq<byte>): (r: seq<Entry>)
    ensures |r| > 0 && (r[0].name == name || (|es| > 0 && r[0] == es[0]))
    decreases |es|
  {
    if |es| == 0 then [File(name, data)]
    else if es[0].name == name then [File(name, data)] + es[1..]
    else if Less(name, es[0].name) then [File(name, data)] + es
    else [es[0]] + PutFile(es[1..], name, data)
  }

  /** The listing without its first entry called `name`. */
  function RemoveNamed(es: seq<Entry>, name: string): (r: seq<Entry>)
    ensures |r| > 0 ==> |es| > 0 && (r[0] == es[0] || (|es| > 1 && r[0] == es[1]))
    decreases |es|
  {
    if |es| == 0 then []
    else if es[0].name == name then es[1..]
    else [es[0]] + RemoveNamed(es[1..], name)
  }

  /** The bytes of the regular file at `place`, if there is one. */
  function FileAt(s: DiskState, place: Place): Option<seq<byte>> {
    match place
    case InCache(n) =>
      (match Lookup(s.listing, n)
       case Some(File(_, c)) => Some(c)
       case _ => None)
    case Elsewhere(p) => if p in s.elsewhere then Some(s.elsewhere[p]) else None
  }

  /** A subdirectory of the cache directory is at `place`. */
  predicate DirAt(s: DiskState, place: Place) {
    place.InCache? && Lookup(s.listing, place.name).Some? && Lookup(s.listing, place.name).value.Dir?
  }

  /** The state once the file at `place` holds `data`. */
  function Store(s: DiskState, place: Place, data: seq<byte>): DiskState {
    match place
    case InCache(n) => s.(listing := PutFile(s.listing, n, data))
    case Elsewhere(p) => s.(elsewhere := s.elsewhere[p := data])
  }

  /** The state once whatever is at `place` is gone. */
  function Delete(s: DiskState, place: Place): DiskState {
    match place
    case InCache(n) => s.(listing := RemoveNamed(s.listing, n))
    case Elsewhere(p) => s.(elsewhere := s.elsewhere - {p})
  }

  /** The error os.Stat reports for `place`. */
  function Stat(s: DiskState, place: Place): Option<Error> {
    if FileAt(s, place).Some? || DirAt(s, place) then None else Some(NotExist(ENOENT))
  }

  /** The error os.Remove reports for `place`; `removeErr` is what the system
      answers for a file it refuses to delete (permissions, say). A
      subdirectory of the cache counts as non-empty. */
  function RemoveError(s: DiskState, place: Place, removeErr: Option<Error>): Option<Error> {
    if DirAt(s, place) then Some(Sys(ENOTEMPTY))
    else if FileAt(s, place).None? then Some(NotExist(ENOENT))
    else removeErr
  }

  /** fs.Write creates the file: the path passed the check, no directory is in
      the way and os.Create succeeded. */
  predicate Creates(inside: bool, isDir: bool, createErr: Option<Error>) {
    inside && !isDir && createErr.None?
  }

  /** The error fs.Write returns, from the outcome of the containment check,
      whether a directory is in the way, os.Create's error, the stream and the
      expected size. */
  function WriteError(inside: bool, isDir: bool, createErr: Option<Error>, body: Stream, expectedSize: int): Option<Error> {
    if !inside then Some(InvalidPath)
    else if isDir then Some(Sys(EISDIR))
    else if createErr.Some? then createErr
    else if body.err.Some? then body.err
    else if expectedSize > 0 && |body.data| != expectedSize then Some(SizeMismatch(expectedSize, |body.data|))
    else None
  }

  /** fs.Exists: nil for a path that exists, ErrFileNotExists for a not-exist
      stat error, and any other stat error unchanged. */
  function Exists(statErr: Option<Error>): (r: Option<Error>)
    ensures r.None? <==> statErr.None?
    ensures statErr.Some? && IsNotExist(statErr.value) ==> r == Some(FileNotExists)
    ensures statErr.Some? && !IsNotExist(statErr.value) ==> r == statErr
  {
    match statErr
    case None => None
    case Some(e) => if IsNotExist(e) then Some(FileNotExists) else Some(e)
  }

  /** An installed binary: a regular file whose name carries the prefix. */
  predicate IsInstalled(e: Entry) {
    e.File? && HasPrefix(e.name, PrefixTailwind)
  }

  /** The version an installed binary's name stands for: the prefix removed and
      one `.exe` trimmed. */
  function VersionOf(name: string): string
    requires HasPrefix(name, PrefixTailwind)
  {
    TrimSuffix(name[|PrefixTailwind|..], ExeSuffix)
  }

  /** The scan of GetCurrentVersion: the version of the first installed binary
      in listing order, or ErrNotInstalled. */
  function FirstInstalled(es: seq<Entry>): (r: Result<string>)
    ensures r.Err? ==> r.error == NotInstalled && forall i :: 0 <= i < |es| ==> !IsInstalled(es[i])
    ensures r.Ok? ==> exists i :: 0 <= i < |es| && IsInstalled(es[i]) && r.value == VersionOf(es[i].name)
                                  && forall j :: 0 <= j < i ==> !IsInstalled(es[j])
    decreases |es|
  {
    if |es| == 0 then Err(NotInstalled)
    else if IsInstalled(es[0]) then Ok(VersionOf(es[0].name))
    else
      var r := FirstInstalled(es[1..]);
      assert r.Ok? ==> exists i :: 0 <= i < |es| && IsInstalled(es[i]) && r.value == VersionOf(es[i].name)
                                   && forall j :: 0 <= j < i ==> !IsInstalled(es[j]) by {
        if r.Ok? {
          var i :| 0 <= i < |es[1..]| && IsInstalled(es[1..][i]) && r.value == VersionOf(es[1..][i].name)
                   && forall j :: 0 <= j < i ==> !IsInstalled(es[1..][j]);
          assert forall j :: 0 <= j < i + 1 ==> !IsInstalled(es[j]) by {
            forall j | 0 <= j < i + 1 ensures !IsInstalled(es[j]) {
              if j > 0 { assert es[j] == es[1..][j - 1]; }
            }
          }
        }
      }
      assert r.Err? ==> forall i :: 0 <= i < |es| ==> !IsInstalled(es[i]) by {
        if r.Err? {
          forall i | 0 <= i < |es| ensures !IsInstalled(es[i]) {
            if i > 0 { assert es[i] == es[1..][i - 1]; }
          }
        }
      }
      r
  }

  /** fs.GetCurrentVersion over the listing os.ReadDir returned, or its error. */
  function GetCurrentVersion(es: seq<Entry>, readErr: Option<Error>): (r: Result<string>)
    ensures readErr.Some? ==> r == Err(readErr.value)
    ensures readErr.None? ==> r == FirstInstalled(es)
  {
    if readErr.Some? then Err(readErr.value) else FirstInstalled(es)
  }

  /** An entry DeleteOtherVersions removes: an installed binary whose name,
      with one `.exe` trimmed, does not end in "-" + version. */
  predicate Doomed(e: Entry, version: string) {
    IsInstalled(e) && !HasSuffix(TrimSuffix(e.name, ExeSuffix), "-" + version)
  }

  /** The entries among the first `n` of `es` that eviction leaves, in order. */
  function Survivors(es: seq<Entry>, n: nat, version: string): seq<Entry>
    requires n <= |es|
  {
    if n == 0 then []
    else Survivors(es, n - 1, version) + (if Doomed(es[n - 1], version) then [] else [es[n - 1]])
  }

  /** The position of the first doomed entry whose removal fails, or |es|. */
  function FirstRefusal(es: seq<Entry>, version: string, removeErr: map<string, Error>): (k: nat)
    ensures k <= |es|
    ensures k < |es| ==> Doomed(es[k], version) && es[k].name in removeErr
    decreases |es|
  {
    if |es| == 0 then 0
    else if Doomed(es[0], version) && es[0].name in removeErr then 0
    else FirstRefusal(es[1..], version, removeErr) + 1
  }

  /** The error eviction ends with: that of the first refused removal, if any. */
  function RefusalError(es: seq<Entry>, version: string, removeErr: map<string, Error>): Option<Error> {
    var k := FirstRefusal(es, version, removeErr);
    if k < |es| then Some(removeErr[es[k].name]) else None
  }

  class Disk {
    /** The cache directory, as handed to the fs functions (downloadDir). */
    const root: string
    /** The cache directory's entries, in os.ReadDir order. */
    var listing: seq<Entry>
    /** The regular files anywhere else, by cleaned path. */
    var elsewhere: map<string, seq<byte>>

    ghost predicate Valid()
      reads this
    {
      ValidListing(listing)
    }

    function State(): DiskState
      reads this
    {
      DiskState(listing, elsewhere)
    }

    constructor (root: string, listing: seq<Entry>, elsewhere: map<string, seq<byte>>)
      requires ValidListing(listing)
      ensures Valid() && this.root == root
      ensures State() == DiskState(listing, elsewhere)
    {
      this.root := root;
      this.listing := listing;
      this.elsewhere := elsewhere;
    }

    /** The file at `place` now holds `data`. */
    method Put(place: Place, data: seq<byte>)
      requires Valid() && !DirAt(State(), place)
      requires place.InCache? ==> IsName(place.name)
      modifies this
      ensures Valid()
      ensures State() == Store(old(State()), place, data)
    {
      match place
      case InCache(n) =>
        PutFileValid(listing, n, data);
        listing := PutFile(listing, n, data);
      case Elsewhere(p) =>
        elsewhere := elsewhere[p := data];
    }

    /** fs.Write(reader, path, downloadDir, expectedSize): reject a path whose
        cleaned form does not start with the cleaned download directory and a
        separator; otherwise create (or truncate) the file, copy the stream
        into it, and compare the byte count only when the expected size is
        positive. A failure after the create leaves the bytes copied so far in
        place. */
    method Write(body: Stream, path: string, downloadDir: string, expectedSize: int, createErr: Option<Error>)
      returns (err: Option<Error>)
      requires Valid()
      modifies this
      ensures Valid()
      ensures err == WriteError(InsideDir(path, downloadDir), DirAt(old(State()), Locate(root, path)),
                                createErr, body, expectedSize)
      ensures State() == if Creates(InsideDir(path, downloadDir), DirAt(old(State()), Locate(root, path)), createErr)
                         then Store(old(State()), Locate(root, path), body.data)
                         else old(State())
    {
      var cleanPath := Clean(path);
      var cleanDir := Clean(downloadDir);
      if !HasPrefix(cleanPath, cleanDir + [Separator]) {
        return Some(InvalidPath);
      }
      // os.Create(cleanPath): Locate resolves the cleaned path
      var place := Locate(root, path);
      if DirAt(State(), place) {
        return Some(Sys(EISDIR));
      }
      if createErr.Some? {
        return createErr;
      }
      Put(place, body.data);
      if body.err.Some? {
        return body.err;
      }
      var written := |body.data|;
      if expectedSize > 0 && written != expectedSize {
        return Some(SizeMismatch(expectedSize, written));
      }
      return None;
    }

    /** os.Remove(path). */
    method Remove(path: string, removeErr: Option<Error>) returns (err: Option<Error>)
      requires Valid()
      modifies this
      ensures Valid()
      ensures err == RemoveError(old(State()), Locate(root, path), removeErr)
      ensures State() == if err.None? then Delete(old(State()), Locate(root, path)) else old(State())
    {
      var place := Locate(root, path);
      err := RemoveError(State(), place, removeErr);
      if err.None? {
        match place
        case InCache(n) =>
          RemoveNamedValid(listing, n);
          listing := RemoveNamed(listing, n);
        case Elsewhere(p) =>
          elsewhere := elsewhere - {p};
      }
    }

    /** fs.DeleteOtherVersions(root, version): walk the listing os.ReadDir
        returned (or return its error) and remove every doomed entry, stopping
        at the first removal that fails; `removeErr` gives, by name, the error
        os.Remove reports for a file it refuses to delete. */
    method DeleteOtherVersions(version: string, readErr: Option<Error>, removeErr: map<string, Error>)
      returns (err: Option<Error>)
      requires Valid()
      modifies this
      ensures Valid() && elsewhere == old(elsewhere)
      ensures readErr.Some? ==> err == readErr && listing == old(listing)
      ensures readErr.None? ==>
                var k := FirstRefusal(old(listing), version, removeErr);
                && listing == Survivors(old(listing), k, version) + old(listing)[k..]
                && err == RefusalError(old(listing), version, removeErr)
    {
      if readErr.Some? {
        return readErr;
      }
      err := Evict(version, removeErr);
    }

    /** The loop of DeleteOtherVersions over the entries os.ReadDir returned. */
    method Evict(version: string, removeErr: map<string, Error>) returns (err: Option<Error>)
      requires Valid()
      modifies this`listing
      ensures Valid()
      ensures var k := FirstRefusal(old(listing), version, removeErr);
              && listing == Survivors(old(listing), k, version) + old(listing)[k..]
              && err == RefusalError(old(listing), version, removeErr)
    {
      var entries := listing;
      var i, j := 0, 0;
      assert entries[0..] == entries;
      while i < |entries|
        invariant 0 <= i <= |entries|
        invariant j == |Survivors(entries, i, version)|
        invariant listing == Survivors(entries, i, version) + entries[i..]
        invariant i <= FirstRefusal(entries, version, removeErr)
      {
        var entry := entries[i];
        EvictStep(entries, i, version);
        if !entry.Dir? && HasPrefix(entry.name, PrefixTailwind) {
          var fileName := TrimSuffix(entry.name, ExeSuffix);
          if !HasSuffix(fileName, "-" + version) {
            if entry.name in removeErr {
              FirstRefusalHere(entries, version, removeErr, i);
              SurvivorsValid(entries, i, version);
              return Some(removeErr[entry.name]);
            }
            listing := listing[..j] + listing[j + 1..];
          } else {
            j := j + 1;
          }
        } else {
          j := j + 1;
        }
        FirstRefusalPast(entries, version, removeErr, i);
        i := i + 1;
      }
      SurvivorsValid(entries, i, version);
      return None;
    }
  }

  /** One step of the eviction loop: the entry at `i` is removed from the
      working listing when it is doomed and kept otherwise. */
  lemma EvictStep(es: seq<Entry>, i: nat, version: string)
    requires i < |es|
    ensures var done, next := Survivors(es, i, version), Survivors(es, i + 1, version);
            && (done + es[i..])[|done|] == es[i]
            && (Doomed(es[i], version) ==>
                  (done + es[i..])[..|done|] + (done + es[i..])[|done| + 1..] == next + es[i + 1..]
                  && |done| == |next|)
            && (!Doomed(es[i], version) ==> done + es[i..] == next + es[i + 1..] && |done| + 1 == |next|)
  {
    assert es[i..] == [es[i]] + es[i + 1..];
  }

  /** The working listing of the eviction loop stays a valid listing. */
  lemma {:induction false} SurvivorsValid(es: seq<Entry>, k: nat, version: string)
    requires ValidListing(es) && k <= |es|
    ensures ValidListing(Survivors(es, k, version) + es[k..])
    decreases k
  {
    if k == 0 {
      assert Survivors(es, 0, version) + es[0..] == es;
    } else {
      SurvivorsValid(es, k - 1, version);
      EvictStep(es, k - 1, version);
      if Doomed(es[k - 1], version) {
        RemoveAtValid(Survivors(es, k - 1, version) + es[k - 1..], |Survivors(es, k - 1, version)|);
      }
    }
  }

  /** No entry before the first refusal is refused: eviction stops at the
      first failing removal and not later. */
  lemma {:induction false} FirstRefusalIsFirst(es: seq<Entry>, version: string, removeErr: map<string, Error>, i: nat)
    requires i < FirstRefusal(es, version, removeErr)
    ensures !(Doomed(es[i], version) && es[i].name in removeErr)
    decreases |es|
  {
    if i > 0 {
      FirstRefusalIsFirst(es[1..], version, removeErr, i - 1);
      assert es[1..][i - 1] == es[i];
    }
  }

  /** An entry that is not refused moves the first refusal past it. */
  lemma {:induction false} FirstRefusalPast(es: seq<Entry>, version: string, removeErr: map<string, Error>, i: nat)
    requires i < |es| && i <= FirstRefusal(es, version, removeErr)
    requires !(Doomed(es[i], version) && es[i].name in removeErr)
    ensures i + 1 <= FirstRefusal(es, version, removeErr)
  {
  }

  /** A refused entry not before the first refusal is the first refusal. */
  lemma FirstRefusalHere(es: seq<Entry>, version: string, removeErr: map<string, Error>, i: nat)
    requires i < |es| && i <= FirstRefusal(es, version, removeErr)
    requires Doomed(es[i], version) && es[i].name in removeErr
    ensures FirstRefusal(es, version, removeErr) == i
    ensures RefusalError(es, version, removeErr) == Some(removeErr[es[i].name])
  {
    if i < FirstRefusal(es, version, removeErr) {
      FirstRefusalIsFirst(es, version, removeErr, i);
    }
  }

  /** Removing one entry keeps a listing valid. */
  lemma {:induction false} RemoveAtValid(es: seq<Entry>, j: nat)
    requires ValidListing(es) && j < |es|
    ensures ValidListing(es[..j] + es[j + 1..])
    decreases j
  {
    if j == 0 {
      assert es[..0] + es[1..] == es[1..];
    } else {
      var tail := es[1..];
      RemoveAtValid(tail, j - 1);
      var t := tail[..j - 1] + tail[j..];
      assert es[..j] + es[j + 1..] == [es[0]] + t;
      if |t| > 0 && j == 1 {
        assert t[0] == es[2];
        LessTransitive(es[0].name, es[1].name, es[2].name);
      }
      assert ([es[0]] + t)[1..] == t;
    }
  }

  /** Putting a file with a proper name keeps a listing valid. */
  lemma {:induction false} PutFileValid(es: seq<Entry>, name: string, data: seq<byte>)
    requires ValidListing(es) && IsName(name)
    ensures ValidListing(PutFile(es, name, data))
    decreases |es|
  {
    var r := PutFile(es, name, data);
    if |es| == 0 {
      assert r[1..] == [];
    } else if es[0].name == name {
      assert r[1..] == es[1..];
    } else if Less(name, es[0].name) {
      assert r[1..] == es;
    } else {
      LessTotal(name, es[0].name);
      PutFileValid(es[1..], name, data);
      assert r[1..] == PutFile(es[1..], name, data);
    }
  }

  /** Removing a named entry keeps a listing valid. */
  lemma {:induction false} RemoveNamedValid(es: seq<Entry>, name: string)
    requires ValidListing(es)
    ensures ValidListing(RemoveNamed(es, name))
    decreases |es|
  {
    if |es| > 0 && es[0].name != name {
      var t := RemoveNamed(es[1..], name);
      RemoveNamedValid(es[1..], name);
      if |t| > 0 && t[0] != es[1] {
        assert t[0] == es[2];
        LessTransitive(es[0].name, es[1].name, es[2].name);
      }
      assert ([es[0]] + t)[1..] == t;
    }
  }

  /** In a valid listing a name below the first one is absent. */
  lemma {:induction false} LookupBelow(es: seq<Entry>, name: string)
    requires ValidListing(es) && (|es| > 0 ==> Less(name, es[0].name))
    ensures Lookup(es, name) == None
    decreases |es|
  {
    if |es| > 0 {
      LessIrreflexive(name);
      if |es| > 1 {
        LessTransitive(name, es[0].name, es[1].name);
      }
      LookupBelow(es[1..], name);
    }
  }

  /** Entry names in a valid listing increase strictly from any position to
      any later one. */
  lemma {:induction false} ValidOrdered(es: seq<Entry>, i: nat, j: nat)
    requires ValidListing(es) && i < j < |es|
    ensures Less(es[i].name, es[j].name)
    decreases j
  {
    if j == i + 1 {
      ValidAt(es, i);
    } else {
      ValidOrdered(es, i, j - 1);
      ValidAt(es, j - 1);
      LessTransitive(es[i].name, es[j - 1].name, es[j].name);
    }
  }

  /** The local facts of a valid listing at position `i`. */
  lemma {:induction false} ValidAt(es: seq<Entry>, i: nat)
    requires ValidListing(es) && i < |es|
    ensures IsName(es[i].name)
    ensures i + 1 < |es| ==> Less(es[i].name, es[i + 1].name)
    decreases i
  {
    if i > 0 {
      ValidAt(es[1..], i - 1);
    }
  }

  /** What the file system holds after a file is put: the new bytes at that
      name and every other entry as before. */
  lemma {:induction false} LookupPutFile(es: seq<Entry>, name: string, data: seq<byte>, m: string)
    ensures Lookup(PutFile(es, name, data), m) == if m == name then Some(File(name, data)) else Lookup(es, m)
    decreases |es|
  {
    if |es| > 0 && es[0].name != name && !Less(name, es[0].name) {
      LookupPutFile(es[1..], name, data, m);
      assert ([es[0]] + PutFile(es[1..], name, data))[1..] == PutFile(es[1..], name, data);
    } else if |es| > 0 && es[0].name == name {
      assert ([File(name, data)] + es[1..])[1..] == es[1..];
    } else if |es| > 0 {
      assert ([File(name, data)] + es)[1..] == es;
    }
  }

  /** What the file system holds after a named entry is removed from a valid
      listing: nothing at that name and every other entry as before. */
  lemma {:induction false} LookupRemoveNamed(es: seq<Entry>, name: string, m: string)
    requires ValidListing(es)
    ensures Lookup(RemoveNamed(es, name), m) == if m == name then None else Lookup(es, m)
    decreases |es|
  {
    if |es| > 0 {
      if es[0].name == name {
        if m == name {
          LookupBelow(es[1..], name);
        }
      } else {
        LookupRemoveNamed(es[1..], name, m);
        assert ([es[0]] + RemoveNamed(es[1..], name))[1..] == RemoveNamed(es[1..], name);
      }
    }
  }

  /** What Lookup finds is an entry of the listing with that name. */
  lemma {:induction false} LookupIn(es: seq<Entry>, name: string)
    ensures Lookup(es, name).Some? ==> Lookup(es, name).value in es && Lookup(es, name).value.name == name
    decreases |es|
  {
    if |es| > 0 && es[0].name != name {
      LookupIn(es[1..], name);
    }
  }

  /** In a valid listing every entry is found by its name. */
  lemma {:induction false} LookupMember(es: seq<Entry>, e: Entry)
    requires ValidListing(es) && e in es
    ensures Lookup(es, e.name) == Some(e)
    decreases |es|
  {
    if es[0] != e {
      var j :| 0 <= j < |es| && es[j] == e;
      ValidOrdered(es, 0, j);
      LessIrreflexive(e.name);
      assert e in es[1..] by {
        assert es[1..][j - 1] == e;
      }
      LookupMember(es[1..], e);
    }
  }

  /** An entry that is not doomed is still found by its name after an
      eviction stopped at any point. */
  lemma EvictionKeepsEntry(es: seq<Entry>, k: nat, version: string, name: string)
    requires ValidListing(es) && k <= |es|
    requires Lookup(es, name).Some? && !Doomed(Lookup(es, name).value, version)
    ensures Lookup(Survivors(es, k, version) + es[k..], name) == Lookup(es, name)
  {
    var e := Lookup(es, name).value;
    LookupIn(es, name);
    var j :| 0 <= j < |es| && es[j] == e;
    var kept := Survivors(es, k, version) + es[k..];
    if j < k {
      assert e in es[..k] by {
        assert es[..k][j] == e;
      }
      SurvivorsMembers(es, k, version, e);
    } else {
      assert e in es[k..] by {
        assert es[k..][j - k] == e;
      }
    }
    assert e in kept;
    SurvivorsValid(es, k, version);
    LookupMember(kept, e);
  }

  /** After Store the file at `place` holds `data`, no directory is there, and
      every other place is as before. */
  lemma StoreFileAt(s: DiskState, place: Place, data: seq<byte>, q: Place)
    ensures FileAt(Store(s, place, data), q) == if q == place then Some(data) else FileAt(s, q)
    ensures DirAt(Store(s, place, data), q) == (q != place && DirAt(s, q))
  {
    if place.InCache? && q.InCache? {
      LookupPutFile(s.listing, place.name, data, q.name);
    }
  }

  /** After Delete nothing is at `place` and every other place is as before. */
  lemma DeleteFileAt(s: DiskState, place: Place, q: Place)
    requires ValidListing(s.listing)
    ensures FileAt(Delete(s, place), q) == if q == place then None else FileAt(s, q)
    ensures DirAt(Delete(s, place), q) == (q != place && DirAt(s, q))
  {
    if place.InCache? && q.InCache? {
      LookupRemoveNamed(s.listing, place.name, q.name);
    }
  }

  /** fs.Write succeeds exactly when the file was created, the stream ended
      cleanly and, when a positive size was expected, exactly that many bytes
      arrived; a rejected path is ErrInvalidPath and a short or long body is an
      ErrIncompleteDownload. */
  lemma WriteOutcome(inside: bool, isDir: bool, createErr: Option<Error>, body: Stream, expectedSize: int)
    ensures var r := WriteError(inside, isDir, createErr, body, expectedSize);
            && (r.None? <==> Creates(inside, isDir, createErr) && body.err.None?
                             && (expectedSize > 0 ==> |body.data| == expectedSize))
            && (!inside ==> r == Some(InvalidPath))
            && (Creates(inside, isDir, createErr) && body.err.None? && expectedSize > 0 && |body.data| != expectedSize
                ==> r.Some? && Is(r.value, IncompleteDownload))
  {
  }

  /** fs.Exists over what os.Stat sees: nil when a file or directory is at the
      place, ErrFileNotExists otherwise. */
  lemma ExistsStat(s: DiskState, place: Place)
    ensures Exists(Stat(s, place)) == if FileAt(s, place).Some? || DirAt(s, place) then None else Some(FileNotExists)
  {
  }

  /** The name of a version's binary maps back to that version, with or without
      `.exe`, for a version that does not itself end in `.exe`. */
  lemma VersionOfName(v: string)
    requires !HasSuffix(v, ExeSuffix)
    ensures HasPrefix(PrefixTailwind + v, PrefixTailwind) && VersionOf(PrefixTailwind + v) == v
    ensures HasPrefix(PrefixTailwind + v + ExeSuffix, PrefixTailwind)
            && VersionOf(PrefixTailwind + v + ExeSuffix) == v
  {
    assert (PrefixTailwind + v)[|PrefixTailwind|..] == v;
    assert (PrefixTailwind + v + ExeSuffix)[|PrefixTailwind|..] == v + ExeSuffix;
    assert HasSuffix(v + ExeSuffix, ExeSuffix) by {
      assert (v + ExeSuffix)[|v|..] == ExeSuffix;
    }
  }

  /** With the listing in os.ReadDir order, the version GetCurrentVersion
      reports is that of the installed binary with the least name. */
  lemma CurrentIsLeast(es: seq<Entry>)
    requires ValidListing(es) && FirstInstalled(es).Ok?
    ensures exists i :: 0 <= i < |es| && IsInstalled(es[i]) && FirstInstalled(es).value == VersionOf(es[i].name)
                        && forall j :: 0 <= j < |es| && j != i && IsInstalled(es[j]) ==> Less(es[i].name, es[j].name)
  {
    var i :| 0 <= i < |es| && IsInstalled(es[i]) && FirstInstalled(es).value == VersionOf(es[i].name)
             && forall j :: 0 <= j < i ==> !IsInstalled(es[j]);
    forall j | 0 <= j < |es| && j != i && IsInstalled(es[j]) ensures Less(es[i].name, es[j].name) {
      ValidOrdered(es, i, j);
    }
  }

  /** Eviction keeps exactly the entries that are not doomed, in order. */
  lemma {:induction false} SurvivorsMembers(es: seq<Entry>, n: nat, version: string, e: Entry)
    requires n <= |es|
    ensures e in Survivors(es, n, version) <==> e in es[..n] && !Doomed(e, version)
    decreases n
  {
    if n > 0 {
      SurvivorsMembers(es, n - 1, version, e);
      assert es[..n] == es[..n - 1] + [es[n - 1]];
    }
  }

  /** Eviction with nothing doomed changes nothing. */
  lemma {:induction false} SurvivorsNoneDoomed(es: seq<Entry>, n: nat, version: string)
    requires n <= |es|
    requires forall i :: 0 <= i < n ==> !Doomed(es[i], version)
    ensures Survivors(es, n, version) == es[..n]
    decreases n
  {
    if n > 0 {
      SurvivorsNoneDoomed(es, n - 1, version);
      assert es[..n] == es[..n - 1] + [es[n - 1]];
    }
  }

  /** A second eviction for the same version removes nothing more. */
  lemma EvictionIdempotent(es: seq<Entry>, version: string)
    ensures var kept := Survivors(es, |es|, version);
            Survivors(kept, |kept|, version) == kept
  {
    var kept := Survivors(es, |es|, version);
    forall i | 0 <= i < |kept| ensures !Doomed(kept[i], version) {
      SurvivorsMembers(es, |es|, version, kept[i]);
    }
    SurvivorsNoneDoomed(kept, |kept|, version);
  }

  /** Trimming `.exe` from a binary's name leaves the prefixed version, with
      or without `.exe`, for a version that does not itself end in `.exe`. */
  lemma BinaryNameTrim(version: string)
    requires !HasSuffix(version, ExeSuffix)
    ensures HasPrefix(PrefixTailwind + version, PrefixTailwind)
    ensures HasPrefix(PrefixTailwind + version + ExeSuffix, PrefixTailwind)
    ensures TrimSuffix(PrefixTailwind + version, ExeSuffix) == PrefixTailwind + version
    ensures TrimSuffix(PrefixTailwind + version + ExeSuffix, ExeSuffix) == PrefixTailwind + version
  {
    var name := PrefixTailwind + version;
    assert name[..|PrefixTailwind|] == PrefixTailwind;
    assert (name + ExeSuffix)[..|PrefixTailwind|] == PrefixTailwind;
    assert !HasSuffix(name, ExeSuffix) by {
      if |version| >= |ExeSuffix| {
        assert name[|name| - |ExeSuffix|..] == version[|version| - |ExeSuffix|..];
      } else {
        assert name[|name| - |ExeSuffix|] == PrefixTailwind[|PrefixTailwind| + |version| - |ExeSuffix|];
      }
    }
    assert HasSuffix(name + ExeSuffix, ExeSuffix) by {
      assert (name + ExeSuffix)[|name|..] == ExeSuffix;
    }
    assert (name + ExeSuffix)[..|name + ExeSuffix| - |ExeSuffix|] == name;
  }

  /** The binary of the version being kept survives eviction, with or without
      `.exe`, as long as the version does not itself end in `.exe`. */
  lemma EvictionKeepsVersion(version: string, content: seq<byte>)
    requires !HasSuffix(version, ExeSuffix)
    ensures !Doomed(File(PrefixTailwind + version, content), version)
    ensures !Doomed(File(PrefixTailwind + version + ExeSuffix, content), version)
  {
    var name := PrefixTailwind + version;
    BinaryNameTrim(version);
    assert HasSuffix(name, "-" + version) by {
      assert name[|name| - |version| - 1..] == "-" + version;
    }
  }

  /** The binary of any other version of the same length is evicted, with or
      without `.exe`. */
  lemma EvictionRemovesOther(other: string, version: string, content: seq<byte>)
    requires |other| == |version| && other != version && !HasSuffix(other, ExeSuffix)
    ensures Doomed(File(PrefixTailwind + other, content), version)
    ensures Doomed(File(PrefixTailwind + other + ExeSuffix, content), version)
  {
    var name := PrefixTailwind + other;
    BinaryNameTrim(other);
    assert !HasSuffix(name, "-" + version) by {
      assert name[|name| - |version| - 1..][1..] == other;
    }
  }

  /** The path the launcher builds for a version, the cache directory joined
      with the binary's name, passes fs.Write's check and names that entry of
      the cache directory. */
  lemma CachePathLocated(root: string, version: string)
    requires IsAbs(root) && CleanNames(root) != [] && Separator !in version
    ensures InsideDir(PathJoin(root, PrefixTailwind + version), root)
    ensures Locate(root, PathJoin(root, PrefixTailwind + version)) == InCache(PrefixTailwind + version)
  {
    var name := PrefixTailwind + version;
    assert Separator !in name by {
      assert Separator !in PrefixTailwind;
    }
    PathJoinName(root, name);
    var p := PathJoin(root, name);
    var d := Clean(root);
    assert Clean(p) == d + [Separator] + name;
    assert Clean(p)[..|d| + 1] == d + [Separator];
    assert Clean(p)[|d| + 1..] == name;
  }
}
