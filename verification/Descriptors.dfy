/** fs/dfs.c, fs/dfs_file.c, fs/dfs_posix.c: the descriptor table, open, close and unlink.

    The mount table is fixed here; what a file system driver answers is a parameter. */
module Descriptors {
  import opened Bytes
  import opened Paths
  import opened PathRewrite
  import opened Mounts

  const ENOENT := 2
  const EBUSY := 16
  const EINVAL := 22
  const ENOSYS := 38

  datatype FileType = Regular | Directory

  /** struct dfs_fd; `fs` is the index of the mount entry, none for the null pointer. */
  datatype Fd = Fd(refs: int, fs: Option<nat>, path: string, ftype: FileType, flags: nat, isOpen: bool)

  /** A slot after memset. */
  const EMPTY := Fd(0, None, "", Regular, 0, false)

  /** The fixed surroundings: mounts, the drivers that take full paths, the working
      directory, the first slot fd_new uses (3 with stdio, else 0) and the number of slots. */
  datatype World = World(mounts: Table, fullPath: set<nat>, workdir: Option<string>, base: nat, max: nat)

  type Fds = seq<Fd>

  predicate TakesFullPath(w: World, i: nat)
    requires i < |w.mounts| && w.mounts[i].Some?
  {
    w.mounts[i].value.driver in w.fullPath
  }

  // ---- What each call makes of the table ----

  /** fd_new's scan from slot `i` on. */
  function FreeSlot(fds: Fds, i: nat): (r: nat)
    requires i <= |fds|
    ensures i <= r <= |fds|
    ensures r < |fds| ==> fds[r].refs <= 0
    ensures forall j :: i <= j < r ==> fds[j].refs > 0
    decreases |fds| - i
  {
    if i == |fds| || fds[i].refs <= 0 then i else FreeSlot(fds, i + 1)
  }

  /** fd_put. */
  function Put(d: Fd): Fd {
    if d.refs - 1 == 0 then EMPTY else d.(refs := d.refs - 1)
  }

  /** What the driver has to say: no open operation, or its result. */
  datatype Answer = NoOperation | Returns(res: int)

  /** `Broken`: behaviour C leaves undefined (a null or stray pointer is followed). */
  datatype Result = Done(fd: int) | Failed(errno: int) | Broken

  /** The path a descriptor keeps for the normalised path `full` on mount `i`. */
  function StoredPath(w: World, i: nat, full: string): string
    requires i < |w.mounts| && w.mounts[i].Some? && |w.mounts[i].value.path| <= |full|
  {
    if TakesFullPath(w, i) then full else Below(w.mounts[i].value.path, full)
  }

  /** dfs_file_open on descriptor `d`. */
  function FileOpen(w: World, d: Fd, norm: Outcome, flags: nat, dir: bool, answer: Answer): (r: (Fd, Result))
    ensures r.1.Done? ==> r.1 == Done(0)
  {
    match norm
    case Refused => (d, Failed(-1))
    case Underrun => (d, Broken)
    case Path(full) =>
      match Find(w.mounts, full)
      case None => (d, Failed(-ENOENT))
      case Some(i) =>
        var o := d.(fs := Some(i), ftype := Regular, flags := flags, isOpen := false, path := StoredPath(w, i, full));
        match answer
        case NoOperation => (EMPTY, Failed(-ENOSYS))
        case Returns(res) =>
          if res < 0 then (EMPTY, Failed(res))
          else (o.(isOpen := true, ftype := if dir then Directory else Regular), Done(0))
  }

  /** open: take a slot, hold it twice, release once, or twice more if the file did not open. */
  function OpenSpec(w: World, fds: Fds, norm: Outcome, flags: nat, dir: bool, answer: Answer): (r: (Fds, Result))
    requires |fds| == w.base + w.max
    ensures |r.0| == |fds|
  {
    var k := FreeSlot(fds, w.base);
    if k == |fds| then (fds, Failed(-1))
    else
      var (d, res) := FileOpen(w, fds[k].(refs := 2), norm, flags, dir, answer);
      match res
      case Broken => (fds[k := d], Broken)
      case Failed(e) => (fds[k := Put(Put(d))], Failed(e))
      case Done(_) => (fds[k := Put(d)], Done(k))
  }

  /** close of slot `k`. */
  function CloseSpec(fds: Fds, k: nat, answer: Answer): (r: (Fds, Result))
    requires k < |fds|
    ensures |r.0| == |fds|
  {
    var d := fds[k].(refs := fds[k].refs + 1);
    if d.fs.None? then (fds[k := d], Broken)
    else match answer
      case Returns(res) =>
        if res < 0 then (fds[k := Put(d)], Failed(res)) else (fds[k := Put(Put(EMPTY))], Done(0))
      case NoOperation => (fds[k := Put(Put(EMPTY))], Done(0))
  }

  /** close of descriptor number `fd`: fd_get's range test lets one number too many through. */
  function CloseCall(w: World, fds: Fds, fd: int, answer: Answer): (r: (Fds, Result))
    requires |fds| == w.base + w.max
    ensures |r.0| == |fds|
  {
    if fd < w.base || fd > w.base + w.max then (fds, Failed(-1))
    else if fd == w.base + w.max then (fds, Broken)
    else CloseSpec(fds, fd, answer)
  }

  /** fd_is_open's path below the mount point: cut after the mount path, except at the root. */
  function MountPath(m: string, full: string): string
    requires |m| <= |full|
  {
    if m == "/" then full else full[|m|..]
  }

  /** fd_is_open on a normalised path: the scan covers slots 0 .. max - 1. */
  predicate IsOpen(w: World, fds: Fds, full: string)
    requires |fds| == w.base + w.max
  {
    var fs := Find(w.mounts, full);
    fs.Some? && exists k :: 0 <= k < w.max && fds[k].fs == fs && fds[k].path == MountPath(w.mounts[fs.value].value.path, full)
  }

  /** dfs_file_unlink of a normalised path; the driver is asked unless the file is busy. */
  function UnlinkCall(w: World, fds: Fds, norm: Outcome, answer: Answer): Result
    requires |fds| == w.base + w.max
  {
    match norm
    case Refused => Failed(-EINVAL)
    case Underrun => Broken
    case Path(full) =>
      if Find(w.mounts, full).None? then Failed(-ENOENT)
      else match Normalized(FullName(w.workdir, None, full))
        case Underrun => Broken
        case Refused => UnlinkAnswer(answer)
        case Path(again) => if IsOpen(w, fds, again) then Failed(-EBUSY) else UnlinkAnswer(answer)
  }

  function UnlinkAnswer(answer: Answer): Result {
    match answer
    case NoOperation => Failed(-ENOSYS)
    case Returns(res) => if res < 0 then Failed(res) else Done(res)
  }

  // ---- The invariant ----

  /** A live descriptor `d` is open on the normalised path `full`. */
  ghost predicate OpenOn(w: World, d: Fd, full: string) {
    && d.refs > 0 && IsNormal(full)
    && Find(w.mounts, full).Some?
    && d.fs == Find(w.mounts, full)
    && d.path == StoredPath(w, d.fs.value, full)
  }

  ghost predicate Free(d: Fd) {
    d.refs <= 0 && d == EMPTY.(refs := d.refs)
  }

  /** Every slot is either free and cleared, or held once and open on some path. */
  ghost predicate Inv(w: World, fds: Fds) {
    && Normal(w.mounts)
    && |fds| == w.base + w.max
    && forall k :: 0 <= k < |fds| ==> Free(fds[k]) || Held(w, fds[k])
  }

  ghost predicate Held(w: World, d: Fd) {
    d.refs == 1 && d.isOpen && exists full :: OpenOn(w, d, full)
  }

  /** A path that some mount claims is a normal form: normalisation yields nothing else
      that begins with '/'. */
  lemma FoundIsNormal(w: World, name: string, full: string)
    requires Normal(w.mounts) && Normalize(name) == Path(full) && Find(w.mounts, full).Some?
    ensures IsNormal(full)
  {
    hide Components, Climbs, Find;
    FindIsAbsolute(w, full);
    if Absolute(name) {
      NormalizeExact(name);
      NormalizeYieldsNormalForm(name);
      RenderIsNormal(Reduce([], Components(name)));
    } else {
      RelativeStaysRelative(name);
    }
  }

  lemma FindIsAbsolute(w: World, full: string)
    requires Normal(w.mounts) && Find(w.mounts, full).Some?
    ensures Absolute(full) && |w.mounts[Find(w.mounts, full).value].value.path| <= |full|
  {
    var m := w.mounts[Find(w.mounts, full).value].value.path;
    assert IsNormal(m) && m <= full;
  }

  lemma RelativeStaysRelative(name: string)
    requires !Absolute(name)
    ensures Normalize(name).Path? ==> !Absolute(Normalize(name).path)
  {
    var cs := Components(name);
    ComponentsAreNames(name);
    UnrootedForGood(Place(false, []), cs);
    WalkNames(Place(false, []), cs);
    var p := Walk(Place(false, []), cs);
    if p.Some? && p.value.stack != [] {
      ShowFirst(p.value);
    }
  }

  /** open hands out a slot that was free, filled in for the normalised path; when it fails,
      a free slot is free again.  No other slot changes. */
  lemma OpenKeepsInv(w: World, fds: Fds, name: string, flags: nat, dir: bool, answer: Answer)
    requires Inv(w, fds)
    ensures var (fds', res) := OpenSpec(w, fds, Normalize(name), flags, dir, answer);
            && (res != Broken ==> Inv(w, fds'))
            && (res.Done? ==>
                  && w.base <= res.fd < |fds| && Free(fds[res.fd])
                  && OpenOn(w, fds'[res.fd], Normalize(name).path)
                  && fds' == fds[res.fd := fds'[res.fd]])
            && (res.Failed? ==> forall k :: 0 <= k < |fds| ==> fds'[k] == fds[k] || (Free(fds[k]) && Free(fds'[k])))
  {
    hide Normalize, Find, IsNormal, Below;
    var k := FreeSlot(fds, w.base);
    if k < |fds| {
      var (fds', res) := OpenSpec(w, fds, Normalize(name), flags, dir, answer);
      if res.Done? {
        var full := Normalize(name).path;
        FoundIsNormal(w, name, full);
        assert OpenOn(w, fds'[k], full);
      }
    }
  }

  /** close of a live descriptor frees its slot, or, when the driver fails, leaves the whole
      table as it was. */
  lemma CloseKeepsInv(w: World, fds: Fds, k: nat, answer: Answer)
    requires Inv(w, fds) && k < |fds| && fds[k].refs > 0
    ensures var (fds', res) := CloseSpec(fds, k, answer);
            && Inv(w, fds') && res != Broken
            && (res.Failed? ==> fds' == fds)
            && (res.Done? ==> Free(fds'[k]) && fds'[k].refs == -2 && fds' == fds[k := fds'[k]])
  {
  }

  /** close runs into undefined behaviour exactly for the number one past the table, which
      fd_get lets through, and for a slot without a file system, as every free one is. */
  lemma CloseBreaksExactly(w: World, fds: Fds, fd: int, answer: Answer)
    requires Inv(w, fds)
    ensures CloseCall(w, fds, fd, answer).1 == Broken <==>
            fd == w.base + w.max || (w.base <= fd < w.base + w.max && Free(fds[fd]))
  {
    if w.base <= fd < w.base + w.max {
      assert Free(fds[fd]) || Held(w, fds[fd]);
    }
  }

  // ---- Runs of open and close ----

  datatype Call =
    | DoOpen(name: string, flags: nat, dir: bool, answer: Answer)
    | DoClose(fd: nat, answer: Answer)

  function After(w: World, fds: Fds, c: Call): (r: (Fds, Result))
    requires |fds| == w.base + w.max && (c.DoClose? ==> w.base <= c.fd < |fds|)
    ensures |r.0| == |fds|
  {
    match c
    case DoOpen(name, flags, dir, answer) => OpenSpec(w, fds, Normalize(name), flags, dir, answer)
    case DoClose(fd, answer) => CloseCall(w, fds, fd, answer)
  }

  /** Callers close live descriptors only, and no call runs into undefined behaviour. */
  ghost predicate Legal(w: World, fds: Fds, cs: seq<Call>)
    requires |fds| == w.base + w.max
    decreases |cs|
  {
    cs == [] ||
    (&& (cs[0].DoClose? ==> w.base <= cs[0].fd < |fds| && fds[cs[0].fd].refs > 0)
     && After(w, fds, cs[0]).1 != Broken
     && Legal(w, After(w, fds, cs[0]).0, cs[1..]))
  }

  ghost function RunAll(w: World, fds: Fds, cs: seq<Call>): (r: Fds)
    requires |fds| == w.base + w.max && Legal(w, fds, cs)
    ensures |r| == |fds|
    decreases |cs|
  {
    if cs == [] then fds else RunAll(w, After(w, fds, cs[0]).0, cs[1..])
  }

  /** The invariant holds over every legal run from the cleared table. */
  lemma {:induction false} RunKeepsInv(w: World, fds: Fds, cs: seq<Call>)
    requires Inv(w, fds) && Legal(w, fds, cs)
    ensures Inv(w, RunAll(w, fds, cs))
    decreases |cs|
  {
    hide Inv, OpenSpec, CloseSpec, Normalize;
    InvLength(w, fds);
    if cs != [] {
      match cs[0] {
        case DoOpen(name, flags, dir, answer) => OpenKeepsInv(w, fds, name, flags, dir, answer);
        case DoClose(fd, answer) => CloseKeepsInv(w, fds, fd, answer);
      }
      RunKeepsInv(w, After(w, fds, cs[0]).0, cs[1..]);
    }
  }

  lemma InvLength(w: World, fds: Fds)
    requires Inv(w, fds)
    ensures |fds| == w.base + w.max
  {
  }

  // ---- The busy check ----

  /** When the busy check can see a descriptor open on `full`: at a root mount, or below the
      mount point of a driver that is given paths relative to it. */
  predicate Checkable(w: World, i: nat, full: string)
    requires i < |w.mounts| && w.mounts[i].Some?
  {
    w.mounts[i].value.path == "/" || (!TakesFullPath(w, i) && full != w.mounts[i].value.path)
  }

  lemma MountedBelow(w: World, full: string)
    requires Normal(w.mounts) && IsNormal(full) && Find(w.mounts, full).Some?
    ensures var m := w.mounts[Find(w.mounts, full).value].value.path;
            && IsNormal(m) && |m| <= |full|
            && Components(m) + Components(Below(m, full)) == Components(full)
            && IsNormal(Below(m, full))
            && (m == "/" ==> Below(m, full) == full)
            && (MountPath(m, full) == Below(m, full) <==> m == "/" || full != m)
            && (MountPath(m, full) == full <==> m == "/")
  {
    var m := w.mounts[Find(w.mounts, full).value].value.path;
    MatchIsPrefix(m, full);
    SubdirSplits(m, full);
    BelowRoot(full);
    if m != "/" {
      MountPathBelow(m, full);
    }
  }

  lemma BelowRoot(full: string)
    requires IsNormal(full)
    ensures Below("/", full) == full
  {
    if |full| > 1 {
      assert Components(full) != [];
      assert full == "/" + Components(full)[0] + Prefixed(Components(full)[1..]);
      assert Ordinary(Components(full)[0]);
      assert full[1] == Components(full)[0][0] != '/';
    } else {
      assert full == "/";
    }
  }

  lemma MountPathBelow(m: string, full: string)
    requires IsNormal(m) && IsNormal(full) && m != "/" && Matches(m, full)
    ensures |m| <= |full|
    ensures MountPath(m, full) == Below(m, full) <==> full != m
    ensures MountPath(m, full) != full
  {
    if Components(m) != [] {
      assert m == "/" + Components(m)[0] + Prefixed(Components(m)[1..]);
    }
    if |full| > |m| {
      assert full[|m|] == '/';
    } else {
      assert full == m;
    }
  }

  /** A descriptor open on `full` is seen by the busy check exactly when the path is
      checkable and its slot is among the first `max`. */
  lemma DescriptorIsSeen(w: World, fds: Fds, k: nat, full: string)
    requires Inv(w, fds) && k < |fds| && OpenOn(w, fds[k], full)
    ensures var i := Find(w.mounts, full).value;
            && |w.mounts[i].value.path| <= |full|
            && (fds[k].path == MountPath(w.mounts[i].value.path, full) <==> Checkable(w, i, full))
  {
    hide Components, Below, MountPath, Find, IsNormal;
    MountedBelow(w, full);
  }

  /** And what it sees on a checkable path is a descriptor open on that path. */
  lemma SeenIsOpen(w: World, fds: Fds, k: nat, full: string)
    requires Inv(w, fds) && k < |fds| && IsNormal(full)
    requires Find(w.mounts, full).Some? && Checkable(w, Find(w.mounts, full).value, full)
    requires |w.mounts[Find(w.mounts, full).value].value.path| <= |full|
    requires fds[k].fs == Find(w.mounts, full)
    requires fds[k].path == MountPath(w.mounts[Find(w.mounts, full).value].value.path, full)
    ensures OpenOn(w, fds[k], full)
  {
    hide Below, MountPath, Find, IsNormal, Normal;
    assert Held(w, fds[k]);
    var other :| OpenOn(w, fds[k], other);
    MountedBelow(w, full);
    MountedBelow(w, other);
    SameComponents(full, other);
  }

  lemma SameComponents(a: string, b: string)
    requires IsNormal(a) && IsNormal(b)
    ensures Components(a) == Components(b) <==> a == b
  {
  }

  /** Unlinking a checkable path is refused as busy exactly when a live descriptor in the
      first `max` slots is open on it, over every table that open and close can produce. */
  lemma UnlinkBusyExactly(w: World, fds: Fds, full: string, answer: Answer)
    requires Inv(w, fds) && IsNormal(full) && Find(w.mounts, full).Some?
    requires Checkable(w, Find(w.mounts, full).value, full)
    ensures UnlinkCall(w, fds, Path(full), answer) ==
            if exists k :: 0 <= k < w.max && OpenOn(w, fds[k], full) then Failed(-EBUSY) else UnlinkAnswer(answer)
  {
    hide Find, IsNormal, Below, Components, Normalize, Checkable;
    NormalIsFixed(full);
    FindIsAbsolute(w, full);
    var i := Find(w.mounts, full).value;
    if k :| 0 <= k < w.max && OpenOn(w, fds[k], full) {
      DescriptorIsSeen(w, fds, k, full);
    }
    if IsOpen(w, fds, full) {
      var k :| 0 <= k < w.max && fds[k].fs == Some(i) && fds[k].path == MountPath(w.mounts[i].value.path, full);
      SeenIsOpen(w, fds, k, full);
    }
  }

  function Cleared(w: World): Fds {
    Fill(w.base + w.max, EMPTY)
  }

  /** After any run of open and close from the cleared table, without stdio slots, unlinking
      a checkable path is refused as busy exactly when a live descriptor is open on it. */
  lemma UnlinkAfterRun(w: World, cs: seq<Call>, full: string, answer: Answer)
    requires Normal(w.mounts) && w.base == 0 && Legal(w, Cleared(w), cs)
    requires IsNormal(full) && Find(w.mounts, full).Some?
    requires Checkable(w, Find(w.mounts, full).value, full)
    ensures var fds := RunAll(w, Cleared(w), cs);
            UnlinkCall(w, fds, Path(full), answer) ==
            if exists k :: 0 <= k < |fds| && OpenOn(w, fds[k], full) then Failed(-EBUSY) else UnlinkAnswer(answer)
  {
    hide Find, IsNormal, Below, Components, Normalize, Checkable, OpenOn, Legal, UnlinkCall;
    RunKeepsInv(w, Cleared(w), cs);
    UnlinkBusyExactly(w, RunAll(w, Cleared(w), cs), full, answer);
  }

  /** With a single file open, unlinking it is refused exactly when its path is checkable. */
  lemma UnlinkOfOnlyOpenFile(w: World, fds: Fds, k: nat, full: string, answer: Answer)
    requires Inv(w, fds) && k < w.max && OpenOn(w, fds[k], full)
    requires forall j :: 0 <= j < |fds| && j != k ==> fds[j].refs <= 0
    ensures UnlinkCall(w, fds, Path(full), answer) ==
            if Checkable(w, Find(w.mounts, full).value, full) then Failed(-EBUSY) else UnlinkAnswer(answer)
  {
    hide Find, IsNormal, Below, Components, Normalize, Checkable;
    NormalIsFixed(full);
    FindIsAbsolute(w, full);
    DescriptorIsSeen(w, fds, k, full);
  }

  // ---- Answers ----

  /** Some mount's components begin the path's. */
  ghost predicate Claimed(w: World, full: string) {
    IsNormal(full) &&
    exists i :: 0 <= i < |w.mounts| && w.mounts[i].Some? && Components(w.mounts[i].value.path) <= Components(full)
  }

  /** The paths that a lookup finds a mount for are those. */
  lemma FoundIsClaimed(w: World, name: Option<string>)
    requires Normal(w.mounts) && Normalized(name).Path?
    ensures Find(w.mounts, Normalized(name).path).Some? <==> Claimed(w, Normalized(name).path)
  {
    hide Find, IsNormal, Components, Normalize;
    var full := Normalized(name).path;
    if Find(w.mounts, full).Some? {
      FoundIsNormal(w, name.value, full);
    }
    if IsNormal(full) {
      LookupIsLongestPrefix(w.mounts, full);
    }
  }

  ghost predicate HasFree(w: World, fds: Fds) {
    exists k :: w.base <= k < |fds| && fds[k].refs <= 0
  }

  lemma FreeSlotExists(w: World, fds: Fds)
    requires |fds| == w.base + w.max
    ensures FreeSlot(fds, w.base) < |fds| <==> HasFree(w, fds)
  {
    if FreeSlot(fds, w.base) < |fds| {
      assert fds[FreeSlot(fds, w.base)].refs <= 0;
    }
  }

  /** open succeeds exactly when a slot is free, the name is one that some mount claims, and
      the driver's open operation exists and does not return a negative number; the descriptor
      is then the lowest free one, held once and marked as asked for.  Otherwise the error is
      -1 without a slot or a path, ENOENT without a mount, ENOSYS without the operation, and
      else the driver's own. */
  lemma OpenAnswers(w: World, fds: Fds, name: Option<string>, flags: nat, dir: bool, answer: Answer)
    requires Inv(w, fds)
    ensures var norm := Normalized(name);
            var (fds', res) := OpenSpec(w, fds, norm, flags, dir, answer);
            && (res.Done? <==> HasFree(w, fds) && norm.Path? && Claimed(w, norm.path)
                               && answer.Returns? && answer.res >= 0)
            && (res.Done? ==>
                  && w.base <= res.fd < |fds| && fds[res.fd].refs <= 0
                  && (forall j :: w.base <= j < res.fd ==> fds[j].refs > 0)
                  && fds'[res.fd].refs == 1 && fds'[res.fd].isOpen && fds'[res.fd].flags == flags
                  && fds'[res.fd].ftype == (if dir then Directory else Regular))
            && (res.Failed? ==>
                  res.errno == if !HasFree(w, fds) || norm.Refused? then -1
                               else if !Claimed(w, norm.path) then -2
                               else if answer.NoOperation? then -38
                               else answer.res)
            && (res.Broken? <==> HasFree(w, fds) && norm.Underrun?)
  {
    hide Normalized, Find, Claimed, HasFree, Below, FreeSlot;
    FreeSlotExists(w, fds);
    if Normalized(name).Path? {
      FoundIsClaimed(w, name);
    }
  }

  /** close answers -1 to a number out of range, and for a live descriptor 0 unless the
      driver's close operation returns a negative number, which is then the error. */
  lemma CloseAnswers(w: World, fds: Fds, fd: int, answer: Answer)
    requires Inv(w, fds) && fd != w.base + w.max && (w.base <= fd < w.base + w.max ==> fds[fd].refs > 0)
    ensures CloseCall(w, fds, fd, answer).1 ==
            if !(w.base <= fd < w.base + w.max) then Failed(-1)
            else if answer.Returns? && answer.res < 0 then Failed(answer.res)
            else Done(0)
    ensures CloseCall(w, fds, fd, answer).1 == Failed(-1) && !(w.base <= fd < w.base + w.max) ==>
              CloseCall(w, fds, fd, answer).0 == fds
  {
    if w.base <= fd < w.base + w.max {
      CloseKeepsInv(w, fds, fd, answer);
    }
  }

  /** unlink answers EINVAL without a path, ENOENT without a mount, EBUSY for an open file,
      ENOSYS without the operation, and else what the driver returns. */
  lemma UnlinkAnswers(w: World, fds: Fds, name: Option<string>, answer: Answer)
    requires Inv(w, fds)
    ensures var norm := Normalized(name);
            var res := UnlinkCall(w, fds, norm, answer);
            && (res.Broken? <==> norm.Underrun?)
            && (res.Done? <==> norm.Path? && Claimed(w, norm.path) && !IsOpen(w, fds, norm.path)
                               && answer.Returns? && answer.res >= 0)
            && (res.Done? ==> res.fd == answer.res)
            && (res.Failed? ==>
                  res.errno == if norm.Refused? then -22
                               else if !Claimed(w, norm.path) then -2
                               else if IsOpen(w, fds, norm.path) then -16
                               else if answer.NoOperation? then -38
                               else answer.res)
  {
    hide Normalize, Find, Claimed, IsOpen, IsNormal;
    if Normalized(name).Path? {
      var full := Normalized(name).path;
      FoundIsClaimed(w, name);
      if Find(w.mounts, full).Some? {
        FoundIsNormal(w, name.value, full);
        NormalIsFixed(full);
        FindIsAbsolute(w, full);
      }
    }
  }

  // ---- The table in memory ----

  class FdTable {
    const world: World
    const table: FsTable
    const fds: array<Fd>

    ghost predicate Valid()
      reads this, table, table.entries, fds
    {
      && fds.Length == world.base + world.max
      && table.entries[..] == world.mounts && table.workdir == world.workdir
      && (world.workdir.Some? ==> CString(world.workdir.value))
      && (forall i :: 0 <= i < |world.mounts| && world.mounts[i].Some? ==> CString(world.mounts[i].value.path))
    }

    constructor (world: World, table: FsTable)
      requires table.entries[..] == world.mounts && table.workdir == world.workdir
      requires world.workdir.Some? ==> CString(world.workdir.value)
      requires forall i :: 0 <= i < |world.mounts| && world.mounts[i].Some? ==> CString(world.mounts[i].value.path)
      ensures Valid() && this.world == world && this.table == table && fresh(fds)
      ensures Normal(world.mounts) ==> Inv(world, fds[..])
    {
      this.world, this.table := world, table;
      fds := new Fd[world.base + world.max](_ => EMPTY);
    }

    method FdNew() returns (idx: int)
      requires Valid()
      modifies fds
      ensures Valid()
      ensures var k := FreeSlot(old(fds[..]), world.base);
              if k == fds.Length then idx == -1 && fds[..] == old(fds[..])
              else idx == k && fds[..] == old(fds[..])[k := old(fds[k]).(refs := 1)]
    {
      idx := world.base;
      while idx < fds.Length && fds[idx].refs > 0
        invariant world.base <= idx <= fds.Length
        invariant FreeSlot(fds[..], world.base) == FreeSlot(fds[..], idx)
      {
        idx := idx + 1;
      }
      if idx == fds.Length {
        return -1;
      }
      fds[idx] := fds[idx].(refs := 1);
    }

    /** fd_put. */
    method FdPut(k: nat)
      requires Valid() && k < fds.Length
      modifies fds
      ensures Valid() && fds[..] == old(fds[..])[k := Put(old(fds[k]))]
    {
      fds[k] := fds[k].(refs := fds[k].refs - 1);
      if fds[k].refs == 0 {
        fds[k] := EMPTY;
      }
    }

    /** dfs_file_open on slot `k`. */
    method FileOpenAt(k: nat, path: string, flags: nat, dir: bool, answer: Answer) returns (res: Result)
      requires Valid() && k < fds.Length && CString(path)
      modifies fds
      ensures Valid()
      ensures var r := FileOpen(world, old(fds[k]), Normalized(FullName(world.workdir, None, path)), flags, dir, answer);
              fds[..] == old(fds[..])[k := r.0] && res == r.1
    {
      hide Normalized, FullName, CString, Find, Below;
      var norm := NormalizePath(world.workdir, None, path);
      if norm.Refused? {
        return Failed(-1);
      }
      if norm.Underrun? {
        return Broken;
      }
      var full := norm.path;
      var fs := table.FilesystemLookup(full);
      if fs.None? {
        return Failed(-ENOENT);
      }
      var m := table.entries[fs.value].value;
      fds[k] := fds[k].(fs := fs, ftype := Regular, flags := flags, isOpen := false);
      FoundFits(world.mounts, full);
      if m.driver !in world.fullPath {
        fds[k] := fds[k].(path := Below(m.path, full));
      } else {
        fds[k] := fds[k].(path := full);
      }
      if answer.NoOperation? {
        fds[k] := EMPTY;
        return Failed(-ENOSYS);
      }
      if answer.res < 0 {
        fds[k] := EMPTY;
        return Failed(answer.res);
      }
      fds[k] := fds[k].(isOpen := true);
      if dir {
        fds[k] := fds[k].(ftype := Directory);
      }
      return Done(0);
    }

    method Open(path: string, flags: nat, dir: bool, answer: Answer) returns (res: Result)
      requires Valid() && CString(path)
      modifies fds
      ensures Valid()
      ensures (fds[..], res) ==
              OpenSpec(world, old(fds[..]), Normalized(FullName(world.workdir, None, path)), flags, dir, answer)
    {
      hide Normalized, FullName, CString, FileOpen, Put;
      var fd := FdNew();
      if fd < 0 {
        return Failed(-1);
      }
      fds[fd] := fds[fd].(refs := fds[fd].refs + 1);   // fd_get
      assert fds[..] == old(fds[..])[fd := old(fds[fd]).(refs := 2)];
      ghost var opening := FileOpen(world, fds[fd], Normalized(FullName(world.workdir, None, path)), flags, dir, answer);
      res := FileOpenAt(fd, path, flags, dir, answer);
      assert fds[..] == old(fds[..])[fd := opening.0];
      match res {
        case Broken =>
        case Failed(_) =>
          FdPut(fd);
          FdPut(fd);
          assert fds[..] == old(fds[..])[fd := Put(Put(opening.0))];
        case Done(_) =>
          FdPut(fd);
          assert fds[..] == old(fds[..])[fd := Put(opening.0)];
          res := Done(fd);
      }
    }

    method Close(fd: int, answer: Answer) returns (res: Result)
      requires Valid()
      modifies fds
      ensures Valid() && (fds[..], res) == CloseCall(world, old(fds[..]), fd, answer)
    {
      if fd < world.base || fd > world.base + world.max {
        return Failed(-1);
      }
      if fd == world.base + world.max {
        return Broken;   // one past the table
      }
      fds[fd] := fds[fd].(refs := fds[fd].refs + 1);   // fd_get
      if fds[fd].fs.None? {
        return Broken;   // fd->fs->ops of a null fs
      }
      var result := if answer.NoOperation? then 0 else answer.res;
      if result >= 0 {
        fds[fd] := EMPTY;
      }
      assert fds[..] == old(fds[..])[fd := fds[fd]];
      ghost var d := fds[fd];
      FdPut(fd);
      assert fds[..] == old(fds[..])[fd := Put(d)];
      if result < 0 {
        return Failed(result);
      }
      FdPut(fd);
      assert fds[..] == old(fds[..])[fd := Put(Put(d))];
      return Done(0);
    }

    /** fd_is_open. */
    method FdIsOpen(path: string) returns (found: Option<bool>)
      requires Valid() && CString(path)
      ensures found == match Normalized(FullName(world.workdir, None, path))
                       case Refused => Some(false)
                       case Underrun => None
                       case Path(full) => Some(IsOpen(world, fds[..], full))
    {
      hide Normalized, FullName, CString, Find;
      var norm := NormalizePath(world.workdir, None, path);
      if norm.Refused? {
        return Some(false);
      }
      if norm.Underrun? {
        return None;
      }
      var full := norm.path;
      var fs := table.FilesystemLookup(full);
      if fs.None? {
        return Some(false);
      }
      var m := table.entries[fs.value].value.path;
      FoundFits(world.mounts, full);
      var mountpath := if m == "/" then full else full[|m|..];
      var index := 0;
      while index < world.max
        invariant 0 <= index <= world.max
        invariant forall k :: 0 <= k < index ==> !(fds[k].fs == fs && fds[k].path == mountpath)
      {
        if fds[index].fs.Some? && fds[index].fs == fs && fds[index].path == mountpath {
          assert fds[..][index].fs == fs && fds[..][index].path == MountPath(m, full);
          return Some(true);
        }
        index := index + 1;
      }
      return Some(false);
    }

    /** dfs_file_unlink. */
    method Unlink(path: string, answer: Answer) returns (res: Result)
      requires Valid() && CString(path)
      ensures res == UnlinkCall(world, fds[..], Normalized(FullName(world.workdir, None, path)), answer)
    {
      hide Normalized, FullName, Find, IsOpen;
      var norm := NormalizePath(world.workdir, None, path);
      if norm.Refused? {
        return Failed(-EINVAL);
      }
      if norm.Underrun? {
        return Broken;
      }
      var fs := table.FilesystemLookup(norm.path);
      if fs.None? {
        return Failed(-ENOENT);
      }
      var busy := FdIsOpen(norm.path);
      if busy.None? {
        return Broken;
      }
      if busy.value {
        return Failed(-EBUSY);
      }
      return UnlinkAnswer(answer);
    }
  }

  lemma FoundFits(t: Table, full: string)
    requires Find(t, full).Some?
    ensures |t[Find(t, full).value].value.path| <= |full|
  {
  }
}
