/** Unix path handling from Go's path/filepath: Clean and Join, stated through
    the slash-separated segments of a path. Only the Unix separator is modelled. */
module FilePath {
  import opened Strings

  const Separator: char := '/'

  /** strings.Split(s, "/"): the segments between separators (always at least one). */
  function Split(s: string): (r: seq<string>)
    ensures |r| >= 1
    ensures forall i :: 0 <= i < |r| ==> Separator !in r[i]
    decreases |s|
  {
    if |s| == 0 then [""]
    else if s[0] == Separator then [""] + Split(s[1..])
    else
      var t := Split(s[1..]);
      [[s[0]] + t[0]] + t[1..]
  }

  /** strings.Join(xs, "/") */
  function Join(xs: seq<string>): string
    decreases |xs|
  {
    if |xs| == 0 then ""
    else if |xs| == 1 then xs[0]
    else xs[0] + [Separator] + Join(xs[1..])
  }

  /** A segment that Clean can keep: not empty, not `.`, without a separator. */
  predicate IsElem(n: string) {
    n != "" && n != "." && Separator !in n
  }

  /** A segment that names an entry below a directory: an element other than `..`. */
  predicate IsName(n: string) {
    IsElem(n) && n != ".."
  }

  predicate IsAbs(p: string) {
    |p| > 0 && p[0] == Separator
  }

  /** The lexical rules of filepath.Clean applied left to right onto `stack`:
      empty and `.` segments vanish, `..` removes the previous name, is dropped
      at the root of an absolute path, and is kept at the head of a relative one. */
  function Resolve(rooted: bool, segs: seq<string>, stack: seq<string>): seq<string>
    decreases |segs|
  {
    if |segs| == 0 then stack
    else
      var s, rest := segs[0], segs[1..];
      if s == "" || s == "." then Resolve(rooted, rest, stack)
      else if s == ".." then
        if |stack| > 0 && stack[|stack| - 1] != ".." then Resolve(rooted, rest, stack[..|stack| - 1])
        else if rooted then Resolve(rooted, rest, stack)
        else Resolve(rooted, rest, stack + [".."])
      else Resolve(rooted, rest, stack + [s])
  }

  /** The segments of Clean(p) after its root. */
  function CleanNames(p: string): seq<string> {
    Resolve(IsAbs(p), Split(p), [])
  }

  /** filepath.Clean on Unix. */
  function Clean(p: string): string {
    var names := CleanNames(p);
    if IsAbs(p) then [Separator] + Join(names)
    else if names == [] then "."
    else Join(names)
  }

  /** filepath.Join of two elements: empty elements are ignored, the rest are
      joined with a separator and the result is cleaned. */
  function PathJoin(a: string, b: string): string {
    if a == "" && b == "" then ""
    else if a == "" then Clean(b)
    else if b == "" then Clean(a)
    else Clean(a + [Separator] + b)
  }

  /** The containment test of fs.Write: the cleaned path begins with the
      cleaned directory followed by a separator. */
  predicate InsideDir(path: string, dir: string) {
    HasPrefix(Clean(path), Clean(dir) + [Separator])
  }

  lemma {:induction false} SplitName(s: string)
    requires Separator !in s
    ensures Split(s) == [s]
    decreases |s|
  {
    if |s| > 0 {
      SplitName(s[1..]);
      assert [s[0]] + s[1..] == s;
    }
  }

  lemma {:induction false} SplitConcat(a: string, b: string)
    ensures Split(a + [Separator] + b) == Split(a) + Split(b)
    decreases |a|
  {
    if |a| == 0 {
      assert a + [Separator] + b == [Separator] + b;
      assert (a + [Separator] + b)[1..] == b;
    } else {
      assert (a + [Separator] + b)[1..] == a[1..] + [Separator] + b;
      SplitConcat(a[1..], b);
    }
  }

  lemma {:induction false} SplitJoin(xs: seq<string>)
    requires |xs| >= 1
    requires forall i :: 0 <= i < |xs| ==> Separator !in xs[i]
    ensures Split(Join(xs)) == xs
    decreases |xs|
  {
    if |xs| == 1 {
      SplitName(xs[0]);
    } else {
      SplitConcat(xs[0], Join(xs[1..]));
      SplitName(xs[0]);
      SplitJoin(xs[1..]);
    }
  }

  lemma {:induction false} JoinSnoc(xs: seq<string>, n: string)
    requires |xs| >= 1
    ensures Join(xs + [n]) == Join(xs) + [Separator] + n
    decreases |xs|
  {
    if |xs| > 1 {
      assert (xs + [n])[1..] == xs[1..] + [n];
      JoinSnoc(xs[1..], n);
    }
  }

  /** Segments that a cleaned path may hold: elements, and below an absolute
      root proper names only. */
  predicate Kept(rooted: bool, xs: seq<string>) {
    forall i :: 0 <= i < |xs| ==> IsElem(xs[i]) && (rooted ==> xs[i] != "..")
  }

  /** Every segment Clean keeps is an element; below an absolute root none is `..`. */
  lemma {:induction false} ResolveKeepsElems(rooted: bool, segs: seq<string>, stack: seq<string>)
    requires forall i :: 0 <= i < |segs| ==> Separator !in segs[i]
    requires Kept(rooted, stack)
    ensures Kept(rooted, Resolve(rooted, segs, stack))
    decreases |segs|
  {
    if |segs| > 0 {
      var s, rest := segs[0], segs[1..];
      if s == "" || s == "." {
        assert Resolve(rooted, segs, stack) == Resolve(rooted, rest, stack);
        ResolveKeepsElems(rooted, rest, stack);
      } else if s == ".." {
        if |stack| > 0 && stack[|stack| - 1] != ".." {
          ResolveKeepsElems(rooted, rest, stack[..|stack| - 1]);
        } else if rooted {
          ResolveKeepsElems(rooted, rest, stack);
        } else {
          ResolveKeepsElems(rooted, rest, stack + [".."]);
        }
      } else {
        ResolveKeepsElems(rooted, rest, stack + [s]);
      }
    }
  }

  lemma {:induction false} ResolveAppend(rooted: bool, a: seq<string>, b: seq<string>, stack: seq<string>)
    ensures Resolve(rooted, a + b, stack) == Resolve(rooted, b, Resolve(rooted, a, stack))
    decreases |a|
  {
    if |a| > 0 {
      assert (a + b)[0] == a[0] && (a + b)[1..] == a[1..] + b;
      var s := a[0];
      if s == "" || s == "." {
        ResolveAppend(rooted, a[1..], b, stack);
      } else if s == ".." {
        if |stack| > 0 && stack[|stack| - 1] != ".." {
          ResolveAppend(rooted, a[1..], b, stack[..|stack| - 1]);
        } else if rooted {
          ResolveAppend(rooted, a[1..], b, stack);
        } else {
          ResolveAppend(rooted, a[1..], b, stack + [".."]);
        }
      } else {
        ResolveAppend(rooted, a[1..], b, stack + [s]);
      }
    } else {
      assert a + b == b;
    }
  }

  /** The names of a cleaned absolute path are all proper names. */
  lemma CleanAbsNames(p: string)
    requires IsAbs(p)
    ensures Clean(p) == [Separator] + Join(CleanNames(p))
    ensures forall i :: 0 <= i < |CleanNames(p)| ==> IsName(CleanNames(p)[i])
  {
    ResolveKeepsElems(true, Split(p), []);
    assert Kept(true, CleanNames(p));
  }

  /** What fs.Write's check guarantees for an absolute cache directory: the
      accepted path is absolute, and its cleaned names are the directory's
      cleaned names followed by at least one more proper name, so no `..`
      or absolute path can lead outside the directory or onto the directory
      itself. */
  lemma InsideDirNested(path: string, dir: string)
    requires IsAbs(dir) && InsideDir(path, dir)
    ensures IsAbs(path)
    ensures var ds, ps := CleanNames(dir), CleanNames(path);
      |ds| < |ps| && ps[..|ds|] == ds && forall i :: |ds| <= i < |ps| ==> IsName(ps[i])
  {
    var ds, ps := CleanNames(dir), CleanNames(path);
    CleanAbsNames(dir);
    ResolveKeepsElems(IsAbs(path), Split(path), []);
    assert Kept(IsAbs(path), ps);
    var D, P := Clean(dir), Clean(path);
    assert P[0] == Separator;
    if !IsAbs(path) {
      assert false;
    }
    var J := Join(ps);
    assert P == [Separator] + J;
    var Dj := Join(ds);
    assert HasPrefix(J, Dj + [Separator]) by {
      assert D == [Separator] + Dj;
      assert P[..|D| + 1] == D + [Separator];
      assert J[..|Dj| + 1] == P[1..|D| + 1];
      assert P[1..|D| + 1] == P[..|D| + 1][1..];
      assert (D + [Separator])[1..] == Dj + [Separator];
    }
    assert ps != [];
    if ds == [] {
      assert false;
    }
    var R := J[|Dj| + 1..];
    assert J == Dj + [Separator] + R;
    SplitConcat(Dj, R);
    SplitJoin(ps);
    SplitJoin(ds);
    assert ps == ds + Split(R);
  }

  /** Joining an absolute directory (other than the root) with a proper name
      gives the cleaned directory, a separator and that name. */
  lemma PathJoinName(dir: string, name: string)
    requires IsAbs(dir) && CleanNames(dir) != [] && IsName(name)
    ensures PathJoin(dir, name) == Clean(dir) + [Separator] + name
    ensures CleanNames(PathJoin(dir, name)) == CleanNames(dir) + [name]
    ensures Clean(PathJoin(dir, name)) == PathJoin(dir, name)
  {
    var p := dir + [Separator] + name;
    SplitConcat(dir, name);
    SplitName(name);
    ResolveAppend(true, Split(dir), [name], []);
    assert IsAbs(p);
    assert CleanNames(p) == CleanNames(dir) + [name];
    JoinSnoc(CleanNames(dir), name);
    CleanAbsNames(dir);
    CleanAbsNames(p);
    var q := Clean(p);
    assert IsAbs(q);
    // Cleaning is idempotent on this path: its split is the root and the names.
    assert Split(q) == [""] + CleanNames(p) by {
      assert q == [] + [Separator] + Join(CleanNames(p));
      SplitConcat([], Join(CleanNames(p)));
      SplitJoin(CleanNames(p));
    }
    ResolveAppend(true, [""], CleanNames(p), []);
    ResolveNamesFixed(CleanNames(p), []);
  }

  /** Resolving proper names only pushes them. */
  lemma {:induction false} ResolveNamesFixed(names: seq<string>, stack: seq<string>)
    requires forall i :: 0 <= i < |names| ==> IsName(names[i])
    ensures Resolve(true, names, stack) == stack + names
    decreases |names|
  {
    if |names| > 0 {
      ResolveNamesFixed(names[1..], stack + [names[0]]);
      assert stack + [names[0]] + names[1..] == stack + names;
    }
  }
}
