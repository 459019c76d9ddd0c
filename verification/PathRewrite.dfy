/** fs/dfs.c, dfs_normalize_path: the rewriting of a path inside its own buffer. */
module PathRewrite {
  import opened Bytes
  import opened Paths

  /** The text behind `dst` when the walk stands at `p`. */
  function Front(p: Place): string {
    (if p.rooted then "/" else "") + Text(p.stack)
  }

  predicate AllNames(cs: seq<string>) {
    forall i :: 0 <= i < |cs| ==> cs[i] != "" && '/' !in cs[i]
  }

  function Start(full: string): Place {
    Place(Absolute(full), [])
  }

  /** Where the whole walk over `full` ends. */
  function End(full: string): Option<Place> {
    Walk(Start(full), Components(full))
  }

  /** The buffer holds the rest of the input, then the terminator, from `src` on. */
  predicate Holds(buf: seq<char>, full: string, src: nat) {
    |buf| == |full| + 1 && src <= |full| && buf[src..] == full[src..] + ['\0']
  }

  /** Between two components: the rewritten part in front, the unread part behind. */
  ghost predicate Between(buf: seq<char>, full: string, p: Place, dst: nat, src: nat) {
    && Holds(buf, full, src) && dst <= src
    && AllNames(p.stack)
    && (if src == 0 then dst == 0 && p == Place(false, [])
        else
          && buf[..dst] == Front(p)
          && (src < |full| ==> full[src] != '/')
          && Walk(p, Components(full[src..])) == End(full))
  }

  /** All of the input read: `out` is the front of the last place, or lacks its last '/'. */
  ghost predicate Finished(out: string, full: string) {
    && End(full).Some?
    && AllNames(End(full).value.stack)
    && (out == Front(End(full).value) ||
        (out != "" && out[|out| - 1] != '/' && out + "/" == Front(End(full).value)))
  }

  // ---- Slashes and components of a suffix ----

  lemma {:induction false} DropSlashes(full: string, k: nat, s: nat)
    requires k <= s <= |full| && forall i :: k <= i < s ==> full[i] == '/'
    ensures Components(full[k..]) == Components(full[s..])
    decreases s - k
  {
    if k < s {
      assert full[k..][0] == '/' && full[k..][1..] == full[k + 1..];
      DropSlashes(full, k + 1, s);
    }
  }

  /** The component read from `k` to `e`, followed by slashes up to `s`. */
  lemma ComponentAt(full: string, k: nat, e: nat, s: nat)
    requires k < e <= s <= |full| && '/' !in full[k..e]
    requires forall i :: e <= i < s ==> full[i] == '/'
    requires e < |full| ==> e < s
    ensures Components(full[k..]) == [full[k..e]] + Components(full[s..])
  {
    assert full[k..] == full[k..e] + full[e..];
    FirstComponent(full[k..e], full[e..]);
    DropSlashes(full, e, s);
  }

  lemma FrontPush(p: Place, c: string)
    ensures Front(p.(stack := p.stack + [c])) == Front(p) + c + "/"
  {
    assert (p.stack + [c])[..|p.stack|] == p.stack;
  }

  /** Before anything is read the walk stands at the start, the '/' not yet copied. */
  lemma WalkFrom(full: string, p: Place, src: nat, buf: seq<char>, dst: nat)
    requires Between(buf, full, p, dst, src) && !(src == 0 && Absolute(full))
    ensures Walk(p, Components(full[src..])) == End(full) && buf[..dst] == Front(p)
  {
    assert full[0..] == full;
  }

  // ---- The pieces of the loop ----

  /** Skip every '/' from `src0` on. */
  method SkipSlashes(a: array<char>, src0: nat, ghost full: string) returns (src: nat)
    requires Holds(a[..], full, src0) && CString(full)
    ensures src0 <= src <= |full| && Holds(a[..], full, src)
    ensures forall i :: src0 <= i < src ==> full[i] == '/'
    ensures src < |full| ==> full[src] != '/'
  {
    src := src0;
    while a[src] == '/'
      invariant src0 <= src <= |full| && Holds(a[..], full, src)
      invariant forall i :: src0 <= i < src ==> full[i] == '/'
      decreases |full| - src
    {
      assert a[..][src..][0] == (full[src..] + ['\0'])[0];
      assert a[..][src..][1..] == (full[src..] + ['\0'])[1..];
      src := src + 1;
    }
    assert a[..][src..][0] == (full[src..] + ['\0'])[0];
  }

  /** Copy the characters of one component, up to a '/' or the terminator, down to `dst`. */
  method CopyName(a: array<char>, src0: nat, dst0: nat, ghost full: string) returns (src: nat, dst: nat, c: char)
    requires Holds(a[..], full, src0) && dst0 <= src0 && CString(full)
    modifies a
    ensures src0 < src <= |full| + 1 && dst == dst0 + (src - 1 - src0) && a.Length == |full| + 1
    ensures '/' !in full[src0..src - 1] && a[..dst] == old(a[..dst0]) + full[src0..src - 1]
    ensures a[src - 1..] == (full + ['\0'])[src - 1..]
    ensures if src <= |full| then c == full[src - 1] == '/' else c == '\0'
  {
    src, dst := src0, dst0;
    ghost var all := full + ['\0'];
    assert all[src0..] == full[src0..] + ['\0'];
    c := a[src];
    assert c == a[..][src..][0] == all[src];
    src := src + 1;
    while c != '\0' && c != '/'
      invariant src0 < src <= |full| + 1 && dst == dst0 + (src - 1 - src0)
      invariant c == all[src - 1]
      invariant forall i :: src0 <= i < src - 1 ==> full[i] != '/'
      invariant forall i :: 0 <= i < dst0 ==> a[i] == old(a[i])
      invariant forall i :: dst0 <= i < dst ==> a[i] == full[src0 + (i - dst0)]
      invariant forall i :: src - 1 <= i < a.Length ==> a[i] == all[i]
      decreases |full| + 1 - src
    {
      a[dst] := c;
      dst := dst + 1;
      c := a[src];
      src := src + 1;
    }
  }

  /** up_one: back over the last component. */
  method UpOne(a: array<char>, dst0: nat, ghost p: Place) returns (ok: bool, dst: nat, ghost q: Place)
    requires dst0 <= a.Length && a[..dst0] == Front(p) && AllNames(p.stack)
    ensures ok <==> (p.rooted || p.stack != [])
    ensures !ok ==> dst == 0
    ensures ok ==> dst <= dst0 && a[..dst] == Front(q) && AllNames(q.stack)
    ensures ok ==> q == if p.stack != [] then p.(stack := p.stack[..|p.stack| - 1]) else Place(false, [])
  {
    hide Front;
    FrontPop(p);
    q := if p.stack != [] then p.(stack := p.stack[..|p.stack| - 1]) else Place(false, []);
    if dst0 == 0 {
      return false, 0, q;
    }
    dst := dst0 - 1;
    ghost var top := if p.stack != [] then p.stack[|p.stack| - 1] else "";
    ghost var base := |Front(q)|;
    assert a[..dst0] == Front(q) + top + "/";
    FrontEndsInSlash(q);
    while 0 < dst && a[dst - 1] != '/'
      invariant base <= dst <= base + |top|
    {
      assert a[dst - 1] == a[..dst0][dst - 1];
      dst := dst - 1;
    }
    ok := true;
  }

  /** The front of a place without its last component, or without the root's '/'. */
  lemma FrontPop(p: Place)
    ensures Front(p) == "" <==> !p.rooted && p.stack == []
    ensures Front(Place(false, [])) == ""
    ensures p.stack != [] ==>
              Front(p) == Front(p.(stack := p.stack[..|p.stack| - 1])) + p.stack[|p.stack| - 1] + "/"
    ensures p.rooted && p.stack == [] ==> Front(p) == "/"
  {
  }

  lemma FrontEndsInSlash(p: Place)
    ensures Front(p) != "" ==> Front(p)[|Front(p)| - 1] == '/'
  {
  }

  // ---- One component ----

  /** What one component does to the walk. */
  function Step(p: Place, c: string): Option<Place> {
    if c == HERE then Some(p)
    else if c == UP then
      if p.stack != [] then Some(p.(stack := p.stack[..|p.stack| - 1]))
      else if p.rooted then Some(Place(false, []))
      else None
    else Some(p.(stack := p.stack + [c]))
  }

  lemma WalkStep(p: Place, c: string, rest: seq<string>)
    ensures Walk(p, [c] + rest) == match Step(p, c) case None => None case Some(q) => Walk(q, rest)
  {
    assert ([c] + rest)[1..] == rest;
  }

  /** Having taken the component from `k` to `e` and the slashes up to `s`, the walk stands at `q`. */
  lemma Advance(buf: seq<char>, full: string, p: Place, k: nat, e: nat, s: nat, q: Place, dst: nat)
    requires k < e <= s <= |full| && '/' !in full[k..e]
    requires forall i :: e <= i < s ==> full[i] == '/'
    requires (e < |full| ==> e < s) && (s < |full| ==> full[s] != '/')
    requires Walk(p, Components(full[k..])) == End(full)
    requires Step(p, full[k..e]) == Some(q) && AllNames(q.stack)
    requires Holds(buf, full, s) && dst <= s && buf[..dst] == Front(q)
    ensures Between(buf, full, q, dst, s)
  {
    hide Front, Walk, Components, Holds, End;
    ComponentAt(full, k, e, s);
    WalkStep(p, full[k..e], Components(full[s..]));
  }

  /** The leading slashes of an absolute path. */
  lemma AdvanceRoot(buf: seq<char>, full: string, s: nat)
    requires Absolute(full) && 0 < s <= |full|
    requires forall i :: 0 <= i < s ==> full[i] == '/'
    requires s < |full| ==> full[s] != '/'
    requires Holds(buf, full, s) && buf[..1] == "/"
    ensures Between(buf, full, Place(true, []), 1, s)
  {
    DropSlashes(full, 0, s);
    assert full[0..] == full;
  }

  lemma FinishHere(out: string, full: string, p: Place, k: nat)
    requires k <= |full| && '/' !in full[k..] && full[k..] != HERE && full[k..] != UP
    requires Walk(p, Components(full[k..])) == End(full) && AllNames(p.stack)
    requires out == Front(p) + full[k..]
    ensures Finished(out, full)
  {
    var c := full[k..];
    if c == "" {
      assert out == Front(p);
    } else {
      FirstComponent(c, "");
      assert c + "" == c;
      WalkStep(p, c, []);
      FrontPush(p, c);
    }
  }

  predicate DotAt(full: string, k: nat) {
    k < |full| && full[k] == '.' && (k + 1 == |full| || full[k + 1] == '/')
  }

  predicate DotDotAt(full: string, k: nat) {
    k + 1 < |full| && full[k] == '.' && full[k + 1] == '.' && (k + 2 == |full| || full[k + 2] == '/')
  }

  datatype Dot = NoDot | DotHere | DotLast | DotUp

  /** The tests for ".", "./", ".." and "../", and the slashes after them. */
  method SkipDots(a: array<char>, src0: nat, ghost full: string) returns (d: Dot, src: nat)
    requires Holds(a[..], full, src0) && CString(full)
    ensures src0 <= src <= |full| && Holds(a[..], full, src)
    ensures d == NoDot ==> src == src0 && !DotAt(full, src) && !DotDotAt(full, src)
    ensures d == DotLast ==> DotAt(full, src0) && src == src0 + 1 == |full|
    ensures d == DotHere ==> DotAt(full, src0) && src0 + 1 < src && (forall i :: src0 + 1 <= i < src ==> full[i] == '/')
    ensures d == DotUp ==> DotDotAt(full, src0) && src0 + 2 <= src && (forall i :: src0 + 2 <= i < src ==> full[i] == '/')
    ensures d == DotUp && src0 + 2 < |full| ==> src0 + 2 < src
    ensures d != NoDot && src < |full| ==> full[src] != '/'
  {
    HoldsEach(a[..], full, src0);
    d, src := NoDot, src0;
    if a[src] == '.' {
      if a[src + 1] == '\0' {
        d, src := DotLast, src + 1;
        HoldsOn(a[..], full, src0, src);
      } else if a[src + 1] == '/' {
        HoldsOn(a[..], full, src0, src + 2);
        src := SkipSlashes(a, src + 2, full);
        d := DotHere;
      } else if a[src + 1] == '.' {
        if a[src + 2] == '\0' {
          d, src := DotUp, src + 2;
          HoldsOn(a[..], full, src0, src);
        } else if a[src + 2] == '/' {
          HoldsOn(a[..], full, src0, src + 3);
          src := SkipSlashes(a, src + 3, full);
          d := DotUp;
        }
      }
    }
  }

  lemma HoldsEach(buf: seq<char>, full: string, s: nat)
    requires Holds(buf, full, s)
    ensures forall i :: s <= i < |full| ==> buf[i] == full[i]
    ensures buf[|full|] == '\0'
  {
    forall i | s <= i < |buf|
      ensures buf[i] == (full[s..] + ['\0'])[i - s]
    {
      assert buf[i] == buf[s..][i - s];
    }
  }

  lemma HoldsOn(buf: seq<char>, full: string, s: nat, t: nat)
    requires Holds(buf, full, s) && s <= t <= |full|
    ensures Holds(buf, full, t)
  {
    assert buf[t..] == buf[s..][t - s..] == (full[s..] + ['\0'])[t - s..];
  }

  // ---- The whole function ----

  lemma PlainComponent(full: string, k: nat, e: nat)
    requires k <= e <= |full| && '/' !in full[k..e] && (e < |full| ==> full[e] == '/')
    requires !DotAt(full, k) && !DotDotAt(full, k)
    ensures full[k..e] != HERE && full[k..e] != UP
  {
    if e > k {
      assert full[k..e][0] == full[k];
    }
    if e > k + 1 {
      assert full[k..e][1] == full[k + 1];
    }
  }

  lemma LastDot(buf: seq<char>, full: string, p: Place, dst: nat, k: nat)
    requires Between(buf, full, p, dst, k) && DotAt(full, k) && k + 1 == |full| && Holds(buf, full, k + 1)
    ensures Between(buf, full, p, dst, k + 1)
  {
    WalkFrom(full, p, k, buf, dst);
    assert full[k..k + 1] == HERE;
    Advance(buf, full, p, k, k + 1, k + 1, p, dst);
  }

  lemma MiddleDot(buf: seq<char>, full: string, p: Place, dst: nat, k: nat, s: nat)
    requires Between(buf, full, p, dst, k) && DotAt(full, k) && k + 1 < s <= |full| && Holds(buf, full, s)
    requires forall i :: k + 1 <= i < s ==> full[i] == '/'
    requires s < |full| ==> full[s] != '/'
    ensures Between(buf, full, p, dst, s)
  {
    WalkFrom(full, p, k, buf, dst);
    assert full[k..k + 1] == HERE;
    Advance(buf, full, p, k, k + 1, s, p, dst);
  }

  lemma UpStep(full: string, p: Place, k: nat, s: nat)
    requires DotDotAt(full, k) && k + 2 <= s <= |full|
    requires forall i :: k + 2 <= i < s ==> full[i] == '/'
    requires k + 2 < |full| ==> k + 2 < s
    ensures full[k..k + 2] == UP
    ensures Walk(p, Components(full[k..])) == match Step(p, UP) case None => None case Some(q) => Walk(q, Components(full[s..]))
  {
    assert full[k..k + 2] == UP;
    ComponentAt(full, k, k + 2, s);
    WalkStep(p, UP, Components(full[s..]));
  }

  /** The rewriting loop.  It stays inside the buffer, `dst` never passes `src`. */
  method Rewrite(a: array<char>, ghost full: string) returns (dst: nat, ok: bool)
    requires a[..] == full + ['\0'] && CString(full)
    modifies a
    ensures dst <= |full|
    ensures !ok ==> End(full).None?
    ensures ok ==> Finished(a[..dst], full)
  {
    hide Walk, Components, Front, End;
    var src := 0;
    dst := 0;
    ghost var p := Place(false, []);
    BetweenStarts(a[..], full);
    while true
      invariant a.Length == |full| + 1 && Between(a[..], full, p, dst, src)
      decreases |full| + 1 - src
    {
      ghost var k := src;
      var d;
      d, src := SkipDots(a, src, full);
      if d == DotUp {
        WalkFrom(full, p, k, a[..], dst);
        UpStep(full, p, k, src);
        ghost var q;
        ok, dst, q := UpOne(a, dst, p);
        if !ok {
          return;
        }
        Advance(a[..], full, p, k, k + 2, src, q, dst);
        p := q;
      } else if d == DotHere {
        MiddleDot(a[..], full, p, dst, k, src);
      } else {
        if d == DotLast {
          LastDot(a[..], full, p, dst, k);
        }
        ok, dst, src, p := CopyComponent(a, dst, src, p, full);
        if ok {
          return;
        }
      }
    }
  }

  lemma BetweenStarts(buf: seq<char>, full: string)
    requires buf == full + ['\0']
    ensures Between(buf, full, Place(false, []), 0, 0)
  {
    assert full[0..] == full;
  }

  /** Copy one component and its '/', or the last component. */
  method CopyComponent(a: array<char>, dst0: nat, src0: nat, ghost p0: Place, ghost full: string)
    returns (done: bool, dst: nat, src: nat, ghost p: Place)
    requires a.Length == |full| + 1 && Between(a[..], full, p0, dst0, src0) && CString(full)
    requires !DotAt(full, src0) && !DotDotAt(full, src0)
    modifies a
    ensures dst <= |full| && src0 < src
    ensures done ==> Finished(a[..dst], full)
    ensures !done ==> Between(a[..], full, p, dst, src)
  {
    hide Walk, Components, Front, End;
    p := p0;
    ghost var rooted := src0 == 0 && Absolute(full);
    if !rooted {
      WalkFrom(full, p0, src0, a[..], dst0);
    }
    var c;
    src, dst, c := CopyName(a, src0, dst0, full);
    ghost var e := src - 1;
    PlainComponent(full, src0, e);
    TailEach(a[..], full + ['\0'], e);
    if c == '/' {
      a[dst] := '/';
      dst := dst + 1;
      assert a[..dst] == old(a[..dst0]) + full[src0..e] + "/";
      HoldsFrom(a[..], full, src);
      src := SkipSlashes(a, src, full);
      if rooted {
        p := Place(true, []);
        AdvanceRoot(a[..], full, src);
      } else {
        p := p0.(stack := p0.stack + [full[src0..e]]);
        FrontPush(p0, full[src0..e]);
        Advance(a[..], full, p0, src0, e, src, p, dst);
      }
      done := false;
    } else {
      assert full[src0..e] == full[src0..];
      FinishHere(a[..dst], full, p0, src0);
      done := true;
    }
  }

  lemma TailEach(buf: seq<char>, all: seq<char>, k: nat)
    requires k <= |buf| == |all| && buf[k..] == all[k..]
    ensures forall i :: k <= i < |buf| ==> buf[i] == all[i]
  {
    forall i | k <= i < |buf|
      ensures buf[i] == all[i]
    {
      assert buf[k..][i - k] == all[k..][i - k];
    }
  }

  lemma HoldsFrom(buf: seq<char>, full: string, s: nat)
    requires s <= |full| && |buf| == |full| + 1
    requires forall i :: s <= i < |buf| ==> buf[i] == (full + ['\0'])[i]
    ensures Holds(buf, full, s)
  {
    assert (full + ['\0'])[s..] == full[s..] + ['\0'];
  }

  /** The joined name that dfs_normalize_path rewrites; none if there is no directory to join. */
  function FullName(workdir: Option<string>, directory: Option<string>, filename: string): Option<string> {
    if Absolute(filename) then Some(filename)
    else match (directory, workdir)
      case (Some(d), _) => Some(d + "/" + filename)
      case (None, Some(w)) => Some(w + "/" + filename)
      case (None, None) => None
  }

  function Normalized(full: Option<string>): Outcome {
    match full
    case None => Refused
    case Some(f) => Normalize(f)
  }

  /** A relative name is evaluated on top of the directory given, or of the working directory
      when none is; the two have their separator. */
  lemma NameInDirectory(workdir: Option<string>, directory: Option<string>, ds: seq<string>, name: string)
    requires AllOrdinary(ds) && !Absolute(name)
    requires directory == Some(Render(ds)) || (directory.None? && workdir == Some(Render(ds)))
    ensures var out := Normalized(FullName(workdir, directory, name));
            if !Climbs(|ds|, Components(name)) then out == Path(Render(Reduce(ds, Components(name))))
            else !(out.Path? && Absolute(out.path))
  {
    RelativeName(ds, name);
  }

  /** An absolute name is taken by itself, and a relative one without any directory is refused. */
  lemma NameByItself(workdir: Option<string>, directory: Option<string>, name: string)
    ensures Absolute(name) ==> Normalized(FullName(workdir, directory, name)) == Normalize(name)
    ensures !Absolute(name) && workdir.None? && directory.None? ==>
              Normalized(FullName(workdir, directory, name)) == Refused
  {
  }

  /** "lib" in the working directory "/usr" is "/usr/lib". */
  lemma NameInUsr()
    ensures Normalized(FullName(Some("/usr"), None, "lib")) == Path("/usr/lib")
  {
    hide Normalize;
    assert ["usr"][1..] == [] && ["usr", "lib"][1..] == ["lib"] && ["lib"][1..] == [];
    assert Render(["usr"]) == "/" + "usr" + "" == "/usr";
    assert Prefixed(["lib"]) == "/" + "lib" + "" == "/lib";
    assert Render(["usr", "lib"]) == "/" + "usr" + "/lib" == "/usr/lib";
    FirstComponent("lib", "");
    assert "lib" + "" == "lib" && Components("lib") == ["lib"];
    ReduceOrdinary(["usr"], ["lib"]);
    assert ["usr"] + ["lib"] == ["usr", "lib"];
    NameInDirectory(Some("/usr"), None, ["usr"], "lib");
  }

  lemma FinalText(out: string, full: string)
    requires Finished(out, full)
    ensures out == "" <==> Normalize(full) == Underrun
    ensures out != "" ==>
              Normalize(full) == Path(if |out| > 1 && out[|out| - 1] == '/' then out[..|out| - 1] else out)
  {
    var p := End(full).value;
    TextPrefixed(p.stack);
    if p.stack != [] {
      assert |Text(p.stack)| >= 2;
      assert Front(p)[|Front(p)| - 1] == '/';
      assert Show(p) == Front(p)[..|Front(p)| - 1];
      if out != Front(p) {
        assert out == Front(p)[..|Front(p)| - 1];
      }
    }
  }

  predicate AllCStrings(cs: seq<string>) {
    forall i :: 0 <= i < |cs| ==> CString(cs[i])
  }

  lemma {:induction false} ComponentsAreCStrings(s: string)
    requires CString(s)
    ensures AllCStrings(Components(s))
    decreases |s|
  {
    if s != "" && s[0] == '/' {
      ComponentsAreCStrings(s[1..]);
    } else if s != "" {
      ComponentsAreCStrings(s[Run(s)..]);
    }
  }

  lemma {:induction false} WalkCStrings(p: Place, cs: seq<string>)
    requires AllCStrings(p.stack) && AllCStrings(cs)
    ensures Walk(p, cs).Some? ==> AllCStrings(Walk(p, cs).value.stack)
    decreases |cs|
  {
    if cs != [] {
      WalkStep(p, cs[0], cs[1..]);
      assert [cs[0]] + cs[1..] == cs;
      var q := Step(p, cs[0]);
      if q.Some? {
        WalkCStrings(q.value, cs[1..]);
      }
    }
  }

  lemma {:induction false} TextCString(cs: seq<string>)
    requires AllCStrings(cs)
    ensures CString(Text(cs)) && CString(Render(cs))
  {
    if cs != [] {
      TextCString(cs[..|cs| - 1]);
    }
    TextPrefixed(cs);
    assert Prefixed(cs) == ("/" + Text(cs))[..|Prefixed(cs)|];
  }

  /** Normalising a C string gives a C string. */
  lemma NormalizeCString(full: string)
    requires CString(full)
    ensures Normalize(full).Path? ==> CString(Normalize(full).path)
  {
    ComponentsAreCStrings(full);
    WalkCStrings(Start(full), Components(full));
    var p := End(full);
    if p.Some? {
      TextCString(p.value.stack);
    }
  }

  lemma RefusedWhenStuck(full: string)
    ensures End(full).None? ==> Normalize(full) == Refused
  {
  }

  /** dfs_normalize_path, with (`workdir`) or without a working directory. */
  method NormalizePath(workdir: Option<string>, directory: Option<string>, filename: string) returns (r: Outcome)
    requires CString(filename) && (workdir.Some? ==> CString(workdir.value)) && (directory.Some? ==> CString(directory.value))
    ensures r == Normalized(FullName(workdir, directory, filename))
    ensures r.Path? ==> CString(r.path)
  {
    hide Normalize, Finished, End, Text, Walk, Components;
    var dir := if directory.None? then workdir else directory;
    if dir.None? && !Absolute(filename) {
      return Refused;
    }
    var full := if !Absolute(filename) then dir.value + "/" + filename else filename;
    var a := new char[|full| + 1](i => if 0 <= i < |full| then full[i] else '\0');
    assert a[..] == full + ['\0'];
    var dst, ok := Rewrite(a, full);
    RefusedWhenStuck(full);
    NormalizeCString(full);
    if !ok {
      return Refused;
    }
    ghost var out := a[..dst];
    FinalText(out, full);
    a[dst] := '\0';
    assert a[..dst] == out;
    if dst == 0 {
      return Underrun;   // dst - 1 points in front of the buffer, and is read
    }
    dst := dst - 1;
    if dst != 0 && a[dst] == '/' {
      a[dst] := '\0';
      r := Path(a[..dst]);
    } else {
      r := Path(a[..dst + 1]);
    }
  }
}
