/** fs/dfs_fs.c: the mount table, and dfs_subdir of fs/dfs.c. */
module Mounts {
  import opened Bytes
  import opened Paths
  import opened PathRewrite

  /** A live entry of filesystem_table: where it is mounted and its driver. */
  datatype Mount = Mount(path: string, driver: nat)

  type Table = seq<Option<Mount>>

  // ---- dfs_filesystem_lookup ----

  /** strncmp on the mount path, then the separator test. */
  predicate Matches(m: string, path: string) {
    m <= path && (|m| > 1 && |path| > |m| ==> path[|m|] == '/')
  }

  /** Scanning the first `n` entries: a match replaces an earlier one that is not longer. */
  function Lookup(t: Table, path: string, n: nat): (r: Option<nat>)
    requires n <= |t|
    ensures r.Some? ==> r.value < n && t[r.value].Some? && Matches(t[r.value].value.path, path)
    ensures forall i :: 0 <= i < n && t[i].Some? && Matches(t[i].value.path, path) ==>
              r.Some? && |t[i].value.path| <= |t[r.value].value.path|
    ensures r.Some? ==>
              forall i :: r.value < i < n && t[i].Some? && Matches(t[i].value.path, path) ==>
                |t[i].value.path| < |t[r.value].value.path|
  {
    if n == 0 then None
    else
      var prev := Lookup(t, path, n - 1);
      match t[n - 1]
      case None => prev
      case Some(m) =>
        if Matches(m.path, path) && (prev.None? || |m.path| >= |t[prev.value].value.path|) then Some(n - 1) else prev
  }

  function Find(t: Table, path: string): (r: Option<nat>)
    ensures r.Some? ==> r.value < |t| && t[r.value].Some?
  {
    Lookup(t, path, |t|)
  }

  /** Every live mount path is a normal form. */
  ghost predicate Normal(t: Table) {
    forall i :: 0 <= i < |t| && t[i].Some? ==> IsNormal(t[i].value.path)
  }

  ghost predicate IsNormal(s: string) {
    AllOrdinary(Components(s)) && s == Render(Components(s))
  }

  lemma RenderIsNormal(cs: seq<string>)
    requires AllOrdinary(cs)
    ensures IsNormal(Render(cs))
  {
    ComponentsRender(cs);
  }

  /** On normal forms the string test is the component-wise prefix test. */
  lemma MatchIsPrefix(m: string, p: string)
    requires IsNormal(m) && IsNormal(p)
    ensures Matches(m, p) <==> Components(m) <= Components(p)
  {
    var ms, cs := Components(m), Components(p);
    if ms <= cs {
      PrefixMatches(ms, cs[|ms|..]);
      assert ms + cs[|ms|..] == cs;
    }
    if Matches(m, p) && ms != [] {
      MatchedTail(m, p);
    }
  }

  lemma PrefixMatches(ms: seq<string>, rest: seq<string>)
    ensures Matches(Render(ms), Render(ms + rest))
  {
    PrefixedAppend(ms, rest);
    if ms == [] {
      assert Render(ms + rest)[..1] == "/";
    } else if rest == [] {
      assert ms + rest == ms;
    }
  }

  lemma MatchedTail(m: string, p: string)
    requires IsNormal(m) && IsNormal(p) && Matches(m, p) && Components(m) != []
    ensures Components(m) <= Components(p)
  {
    var t := p[|m|..];
    assert p == m + t;
    if t != "" {
      assert |m| > 1 by {
        assert m == "/" + Components(m)[0] + Prefixed(Components(m)[1..]);
      }
      assert t[0] == p[|m|] == '/';
      assert p == m + "/" + t[1..];
      ComponentsJoin(m, t[1..]);
    } else {
      assert p == m;
    }
  }

  lemma LongerPrefix(a: seq<string>, b: seq<string>, cs: seq<string>)
    requires a <= cs && b <= cs && AllOrdinary(cs)
    ensures |a| < |b| ==> |Render(a)| < |Render(b)|
    ensures |a| == |b| ==> |Render(a)| == |Render(b)|
  {
    assert |a| == |b| ==> a == b;
    if |a| < |b| {
      var rest := b[|a|..];
      assert a + rest == b;
      PrefixedAppend(a, rest);
      assert Prefixed(rest) == "/" + rest[0] + Prefixed(rest[1..]);
      assert Ordinary(rest[0]) by {
        assert rest[0] == cs[|a|];
      }
    }
  }

  /** On normalised paths lookup returns the last live entry with the longest component-wise
      prefix of the path, and nothing exactly when no live entry is a prefix. */
  lemma LookupIsLongestPrefix(t: Table, path: string)
    requires Normal(t) && IsNormal(path)
    ensures var cs := Components(path);
            && (Find(t, path).None? <==>
                forall i :: 0 <= i < |t| && t[i].Some? ==> !(Components(t[i].value.path) <= cs))
            && (Find(t, path).Some? ==>
                  var ms := Components(t[Find(t, path).value].value.path);
                  && ms <= cs
                  && forall i :: 0 <= i < |t| && t[i].Some? && Components(t[i].value.path) <= cs ==>
                       |Components(t[i].value.path)| <= |ms|
                       && (i > Find(t, path).value ==> |Components(t[i].value.path)| < |ms|))
  {
    hide Components, Matches;
    forall i | 0 <= i < |t| && t[i].Some?
      ensures Matches(t[i].value.path, path) <==> Components(t[i].value.path) <= Components(path)
    {
      MatchIsPrefix(t[i].value.path, path);
    }
    var r := Find(t, path);
    if r.Some? {
      var ms := Components(t[r.value].value.path);
      forall i | 0 <= i < |t| && t[i].Some? && Components(t[i].value.path) <= Components(path)
        ensures |Components(t[i].value.path)| <= |ms|
        ensures i > r.value ==> |Components(t[i].value.path)| < |ms|
      {
        LongerPrefix(ms, Components(t[i].value.path), Components(path));
      }
    }
  }

  // ---- dfs_subdir ----

  /** The tail of `filename` below `directory`; none when they are the same path. */
  function Subdir(directory: string, filename: string): Option<string>
    requires |directory| <= |filename|
  {
    if |directory| == |filename| then None
    else if filename[|directory|] != '/' && |directory| != 0 then Some(filename[|directory| - 1..])
    else Some(filename[|directory|..])
  }

  /** The path below a mount point, "/" for the mount point itself. */
  function Below(directory: string, filename: string): string
    requires |directory| <= |filename|
  {
    match Subdir(directory, filename)
    case None => "/"
    case Some(s) => s
  }

  /** For a mount point and a path under it, the mount's components followed by those of
      the sub-path are the path's, and the sub-path is itself in normal form. */
  lemma SubdirSplits(m: string, p: string)
    requires IsNormal(m) && IsNormal(p) && Components(m) <= Components(p)
    ensures |m| <= |p|
    ensures Subdir(m, p).None? <==> Components(m) == Components(p)
    ensures IsNormal(Below(m, p))
    ensures Components(m) + Components(Below(m, p)) == Components(p)
  {
    hide Components, Render, Subdir;
    var ms, cs := Components(m), Components(p);
    var rest := cs[|ms|..];
    assert ms + rest == cs;
    SubdirOfRendered(ms, rest);
    RenderIsNormal(rest);
    ComponentsRender(rest);
    assert rest == [] ==> ms == cs;
  }

  lemma SubdirOfRendered(ms: seq<string>, rest: seq<string>)
    requires AllOrdinary(ms) && AllOrdinary(rest)
    ensures |Render(ms)| <= |Render(ms + rest)|
    ensures Subdir(Render(ms), Render(ms + rest)) == if rest == [] then None else Some(Render(rest))
    ensures Below(Render(ms), Render(ms + rest)) == Render(rest)
  {
    PrefixedAppend(ms, rest);
    if rest == [] {
      assert ms + rest == ms;
    } else {
      var r := Prefixed(rest);
      assert r == "/" + rest[0] + Prefixed(rest[1..]);
      if ms == [] {
        assert ms + rest == rest;
        assert r[1] == rest[0][0] != '/';
      } else {
        assert Prefixed(ms + rest)[|Prefixed(ms)|..] == r;
      }
    }
  }

  // ---- dfs_mount and dfs_unmount ----

  /** Done, one of the code's error numbers, the driver's own failure, or behaviour C leaves undefined. */
  datatype Status = Success | NoDevice | NotADirectory | AlreadyMounted | TableFull | NoMountOperation | DriverFailed | Undefined

  /** What mounting finds outside the table: the device, the driver by its type name, the
      directory mounted on, and the driver's mount operation. */
  datatype Outside = Outside(deviceFound: bool, driver: Option<nat>, directoryOpens: bool,
                             hasMountOp: bool, mountSucceeds: bool)

  predicate Live(t: Table, path: string) {
    exists i :: 0 <= i < |t| && t[i].Some? && t[i].value.path == path
  }

  /** The first free entry from `i` on, |t| if there is none. */
  function FirstFree(t: Table, i: nat): (r: nat)
    requires i <= |t|
    ensures i <= r <= |t|
    ensures r < |t| ==> t[r].None?
    decreases |t| - i
  {
    if i == |t| || t[i].None? then i else FirstFree(t, i + 1)
  }

  /** dfs_mount of the path `raw` as given, `norm` being its normalisation.  Note which of
      the two each test uses. */
  function MountSpec(t: Table, raw: string, norm: Outcome, out: Outside): (r: (Table, Status))
    ensures |r.0| == |t|
  {
    if !out.deviceFound || out.driver.None? then (t, NoDevice)
    else match norm
      case Refused => (t, NotADirectory)
      case Underrun => (t, Undefined)
      case Path(full) =>
        if full != "/" && full != "/dev" && !out.directoryOpens then (t, NotADirectory)
        else if Live(t, raw) then (t, AlreadyMounted)
        else if FirstFree(t, 0) == |t| then (t, TableFull)
        else if !out.hasMountOp then (t, NoMountOperation)
        else if !out.mountSucceeds then (t, DriverFailed)
        else (t[FirstFree(t, 0) := Some(Mount(full, out.driver.value))], Success)
  }

  /** dfs_unmount: whatever lookup finds is cleared; when it finds nothing, the null entry
      is dereferenced. */
  function UnmountSpec(t: Table, norm: Outcome, unmountFails: bool): (r: (Table, Status))
    ensures |r.0| == |t|
  {
    match norm
    case Refused => (t, NotADirectory)
    case Underrun => (t, Undefined)
    case Path(full) =>
      match Find(t, full)
      case None => (t, Undefined)
      case Some(i) => if unmountFails then (t, DriverFailed) else (t[i := None], Success)
  }

  ghost predicate Distinct(t: Table) {
    forall i, j :: 0 <= i < j < |t| && t[i].Some? && t[j].Some? ==> t[i].value.path != t[j].value.path
  }

  /** A successful mount keeps the live paths distinct exactly when the normalised path was
      not live: the test looks for the path as given, so only a path given in normal form
      is sure to be refused when it is already mounted. */
  lemma MountKeepsDistinct(t: Table, raw: string, norm: Outcome, out: Outside)
    requires Distinct(t) && MountSpec(t, raw, norm, out).1 == Success
    ensures norm.Path? && (Distinct(MountSpec(t, raw, norm, out).0) <==> !Live(t, norm.path))
    ensures norm == Path(raw) ==> Distinct(MountSpec(t, raw, norm, out).0)
  {
    var t' := MountSpec(t, raw, norm, out).0;
    var k := FirstFree(t, 0);
    if i :| 0 <= i < |t| && t[i].Some? && t[i].value.path == norm.path {
      assert t'[i] == t[i] && t'[k].value.path == norm.path;
    }
  }

  /** A mount succeeds exactly when the device and the driver are there, the path normalises,
      its directory opens or is one of the two that need not, no live entry has the path as
      given, an entry is free, and the driver has a mount operation that succeeds.  The lowest
      free entry then holds the normalised path; in every other case the table is as it was. */
  lemma MountSucceedsExactly(t: Table, raw: string, norm: Outcome, out: Outside)
    ensures var (t', st) := MountSpec(t, raw, norm, out);
            && (st == Success <==>
                  && out.deviceFound && out.driver.Some? && norm.Path?
                  && (norm.path in {"/", "/dev"} || out.directoryOpens)
                  && !Live(t, raw) && None in t && out.hasMountOp && out.mountSucceeds)
            && (st == Success ==>
                  exists k :: 0 <= k < |t| && t[k].None? && (forall j :: 0 <= j < k ==> t[j].Some?)
                           && t' == t[k := Some(Mount(norm.path, out.driver.value))])
            && (st != Success ==> t' == t)
  {
    FirstFreeExists(t, 0);
    var k := FirstFree(t, 0);
    assert k < |t| ==> t[k].None? && forall j :: 0 <= j < k ==> t[j].Some?;
  }

  lemma {:induction false} FirstFreeExists(t: Table, i: nat)
    requires i <= |t|
    ensures forall j :: i <= j < FirstFree(t, i) ==> t[j].Some?
    ensures FirstFree(t, i) < |t| <==> None in t[i..]
    decreases |t| - i
  {
    if i < |t| {
      assert t[i..] == [t[i]] + t[i + 1..];
      if t[i].Some? {
        FirstFreeExists(t, i + 1);
      }
    }
  }

  /** Which error a mount that normalises ends with. */
  lemma MountFailsBecause(t: Table, raw: string, full: string, out: Outside)
    ensures var st := MountSpec(t, raw, Path(full), out).1;
            && (st == NoDevice <==> !out.deviceFound || out.driver.None?)
            && (st == NotADirectory ==> full !in {"/", "/dev"} && !out.directoryOpens)
            && (st == AlreadyMounted ==> Live(t, raw) && (full in {"/", "/dev"} || out.directoryOpens))
            && (st == TableFull ==> None !in t && !Live(t, raw) && (full in {"/", "/dev"} || out.directoryOpens))
            && (st == NoMountOperation ==> !out.hasMountOp && None in t && !Live(t, raw))
            && (st == DriverFailed ==> out.hasMountOp && !out.mountSucceeds && None in t && !Live(t, raw))
            && st != Undefined
  {
    FirstFreeExists(t, 0);
    assert t[0..] == t;
  }

  /** An unmount succeeds exactly when some live mount is a component prefix of the path and the
      driver lets go of it: the longest such entry is cleared.  Otherwise the table is as it was. */
  lemma UnmountSucceedsExactly(t: Table, path: string, fails: bool)
    requires Normal(t) && IsNormal(path)
    ensures var (t', st) := UnmountSpec(t, Path(path), fails);
            && (st == Success <==> !fails && exists i :: 0 <= i < |t| && InMount(t, i, path))
            && (st == Success ==>
                  exists i :: 0 <= i < |t| && InMount(t, i, path) && t' == t[i := None]
                    && forall j :: 0 <= j < |t| && InMount(t, j, path) ==>
                         |Components(t[j].value.path)| <= |Components(t[i].value.path)|)
            && (st != Success ==> t' == t)
  {
    hide Components, IsNormal, Find;
    LookupIsLongestPrefix(t, path);
    if Find(t, path).Some? {
      assert InMount(t, Find(t, path).value, path);
    }
  }

  /** The path lies in what is mounted at entry `i`. */
  ghost predicate InMount(t: Table, i: nat, path: string)
    requires i < |t|
  {
    t[i].Some? && Components(t[i].value.path) <= Components(path)
  }

  lemma TrailingSlash()
    ensures Normalize("/a/") == Path("/a")
  {
    assert "/a/"[1..] == "a" + "/" && "/"[1..] == "";
    FirstComponent("a", "/");
    assert Components("/a/") == ["a"];
    ReduceOrdinary([], ["a"]);
    assert [] + ["a"] == ["a"];
    NormalizeExact("/a/");
    assert Prefixed(["a"]) == "/" + "a" + "";
  }

  /** "/a" is live and mounting "/a/" succeeds: the same path is then live twice. */
  lemma DuplicateMount()
    ensures var t := [Some(Mount("/a", 0)), None];
            var r := MountSpec(t, "/a/", Normalize("/a/"), Outside(true, Some(1), true, true, true));
            r.1 == Success && r.0 == [Some(Mount("/a", 0)), Some(Mount("/a", 1))] && Distinct(t) && !Distinct(r.0)
  {
    hide Normalize;
    TrailingSlash();
    var t := [Some(Mount("/a", 0)), None];
    assert FirstFree(t, 1) == 1;
    assert |"/a/"| != |"/a"|;
    assert !Live(t, "/a/");
    var r := [Some(Mount("/a", 0)), Some(Mount("/a", 1))];
    assert r[0].value.path == r[1].value.path;
  }

  /** Unmounting clears the entry mounted at that very path exactly when one is live; given
      any other path it clears the mount that path lies in. */
  lemma UnmountIsExact(t: Table, path: string)
    requires Normal(t) && Distinct(t) && IsNormal(path)
    ensures Find(t, path).Some? ==>
              (t[Find(t, path).value].value.path == path <==> Live(t, path))
    ensures Live(t, path) ==>
              && Find(t, path).Some?
              && UnmountSpec(t, Path(path), false).1 == Success
              && !Live(UnmountSpec(t, Path(path), false).0, path)
              && forall i :: 0 <= i < |t| && t[i].Some? && t[i].value.path != path ==>
                   UnmountSpec(t, Path(path), false).0[i] == t[i]
  {
    if i :| 0 <= i < |t| && t[i].Some? && t[i].value.path == path {
      assert Matches(path, path);
      var r := Find(t, path).value;
      assert |t[r].value.path| == |path|;
      assert t[r].value.path == path;
    }
  }

  /** Unmounting a path follows a null pointer exactly when no live mount is a prefix of it. */
  lemma UnmountOfNothing(t: Table, path: string, fails: bool)
    requires Normal(t) && IsNormal(path)
    ensures UnmountSpec(t, Path(path), fails).1 == Undefined <==>
            forall i :: 0 <= i < |t| && t[i].Some? ==> !(Components(t[i].value.path) <= Components(path))
  {
    hide Components, IsNormal, Find;
    LookupIsLongestPrefix(t, path);
  }

  /** Such a path: "/a" with nothing mounted. */
  lemma UnmountOfEmptyTable()
    ensures UnmountSpec([None], Normalize("/a"), false).1 == Undefined
  {
    hide Normalize;
    assert ["a"][1..] == [];
    assert Render(["a"]) == "/" + "a" + "" == "/a";
    NormalFormIsFixed(["a"]);
    var t: Table := [None];
    assert Lookup(t, "/a", 0).None? && Lookup(t, "/a", 1).None?;
  }

  /** Mounting a normal path and unmounting it again gives back the same table, so every
      lookup answers as before. */
  lemma UnmountUndoesMount(t: Table, path: string, out: Outside)
    requires Normal(t) && Distinct(t) && IsNormal(path)
    requires MountSpec(t, path, Path(path), out).1 == Success
    ensures UnmountSpec(MountSpec(t, path, Path(path), out).0, Path(path), false) == (t, Success)
  {
    var t' := MountSpec(t, path, Path(path), out).0;
    var k := FirstFree(t, 0);
    MountKeepsDistinct(t, path, Path(path), out);
    assert t'[k].value.path == path && Live(t', path);
    UnmountIsExact(t', path);
    assert Find(t', path) == Some(k);
    assert t'[k := None] == t;
  }

  // ---- Runs ----

  datatype Call = DoMount(path: string, out: Outside) | DoUnmount(path: string, fails: bool)

  function Run1(t: Table, c: Call): Table {
    match c
    case DoMount(path, out) => MountSpec(t, path, Normalize(path), out).0
    case DoUnmount(path, fails) => UnmountSpec(t, Normalize(path), fails).0
  }

  function RunCalls(t: Table, cs: seq<Call>): Table
    decreases |cs|
  {
    if cs == [] then t else RunCalls(Run1(t, cs[0]), cs[1..])
  }

  /** Over any run of mounts given normal paths and unmounts given any path, the live mount
      paths stay normal and pairwise distinct. */
  lemma {:induction false} RunKeepsDistinct(t: Table, cs: seq<Call>)
    requires Normal(t) && Distinct(t)
    requires forall i :: 0 <= i < |cs| && cs[i].DoMount? ==> IsNormal(cs[i].path)
    ensures Normal(RunCalls(t, cs)) && Distinct(RunCalls(t, cs))
    decreases |cs|
  {
    if cs != [] {
      CallKeepsDistinct(t, cs[0]);
      RunKeepsDistinct(Run1(t, cs[0]), cs[1..]);
    }
  }

  lemma CallKeepsDistinct(t: Table, c: Call)
    requires Normal(t) && Distinct(t) && (c.DoMount? ==> IsNormal(c.path))
    ensures Normal(Run1(t, c)) && Distinct(Run1(t, c))
  {
    hide Find, IsNormal, Live;
    match c
    case DoMount(path, out) =>
      NormalIsFixed(path);
      if MountSpec(t, path, Path(path), out).1 == Success {
        MountKeepsDistinct(t, path, Path(path), out);
      }
    case DoUnmount(path, fails) =>
  }

  lemma NormalIsFixed(path: string)
    requires IsNormal(path)
    ensures Normalize(path) == Path(path)
  {
    NormalFormIsFixed(Components(path));
  }

  // ---- The table in memory ----

  class FsTable {
    const entries: array<Option<Mount>>
    const workdir: Option<string>

    constructor (max: nat, workdir: Option<string>)
      ensures fresh(entries) && entries.Length == max && this.workdir == workdir
      ensures forall i :: 0 <= i < max ==> entries[i].None?
    {
      entries := new Option<Mount>[max](_ => None);
      this.workdir := workdir;
    }

    method FilesystemLookup(path: string) returns (fs: Option<nat>)
      ensures fs == Find(entries[..], path)
    {
      fs := None;
      var prefixlen := 0;
      var index := 0;
      while index < entries.Length
        invariant 0 <= index <= entries.Length
        invariant fs == Lookup(entries[..], path, index)
        invariant prefixlen == if fs.Some? then |entries[fs.value].value.path| else 0
      {
        if entries[index].Some? {
          var m := entries[index].value;
          var fspath := |m.path|;
          if fspath >= prefixlen && m.path <= path {
            if !(fspath > 1 && |path| > fspath && path[fspath] != '/') {
              fs, prefixlen := Some(index), fspath;
            }
          }
        }
        index := index + 1;
      }
    }

    method MountFs(path: string, out: Outside) returns (st: Status)
      requires CString(path) && (workdir.Some? ==> CString(workdir.value))
      modifies entries
      ensures (entries[..], st) == MountSpec(old(entries[..]), path, Normalized(FullName(workdir, None, path)), out)
    {
      hide Normalized, FullName, CString;
      if !out.deviceFound || out.driver.None? {
        return NoDevice;
      }
      var norm := NormalizePath(workdir, None, path);
      if norm.Refused? {
        return NotADirectory;
      }
      if norm.Underrun? {
        return Undefined;
      }
      var fullpath := norm.path;
      if fullpath != "/" && fullpath != "/dev" && !out.directoryOpens {
        return NotADirectory;
      }
      var index := 0;
      while index < entries.Length
        invariant 0 <= index <= entries.Length
        invariant forall i :: 0 <= i < index && entries[i].Some? ==> entries[i].value.path != path
      {
        if entries[index].Some? && entries[index].value.path == path {
          assert Live(entries[..], path) by {
            assert entries[..][index].value.path == path;
          }
          return AlreadyMounted;
        }
        index := index + 1;
      }
      index := 0;
      while index < entries.Length && entries[index].Some?
        invariant 0 <= index <= entries.Length
        invariant FirstFree(entries[..], 0) == FirstFree(entries[..], index)
      {
        index := index + 1;
      }
      if index == entries.Length {
        return TableFull;
      }
      entries[index] := Some(Mount(fullpath, out.driver.value));
      if !out.hasMountOp {
        entries[index] := None;
        assert entries[..] == old(entries[..]);
        return NoMountOperation;
      } else if !out.mountSucceeds {
        entries[index] := None;
        assert entries[..] == old(entries[..]);
        return DriverFailed;
      }
      return Success;
    }

    method UnmountFs(specialfile: string, unmountFails: bool) returns (st: Status)
      requires CString(specialfile) && (workdir.Some? ==> CString(workdir.value))
      modifies entries
      ensures (entries[..], st) ==
              UnmountSpec(old(entries[..]), Normalized(FullName(workdir, None, specialfile)), unmountFails)
    {
      hide Normalized, FullName, CString;
      var norm := NormalizePath(workdir, None, specialfile);
      if norm.Refused? {
        return NotADirectory;
      }
      if norm.Underrun? {
        return Undefined;
      }
      var fs := FilesystemLookup(norm.path);
      if fs.Some? && unmountFails {
        return DriverFailed;
      }
      if fs.None? {
        return Undefined;   // fs->dev_id of a null fs
      }
      entries[fs.value] := None;
      return Success;
    }
  }
}
