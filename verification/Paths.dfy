/** fs/dfs.c: path components, their text, and the meaning of normalisation. */
module Paths {
  import opened Bytes

  const UP := ".."
  const HERE := "."

  predicate CString(s: string) {
    '\0' !in s
  }

  predicate Absolute(s: string) {
    s != "" && s[0] == '/'
  }

  // ---- Components ----

  /** Length of the first component: characters before a '/' or the end. */
  function Run(s: string): (n: nat)
    ensures n <= |s|
    ensures forall i :: 0 <= i < n ==> s[i] != '/'
    ensures n < |s| ==> s[n] == '/'
  {
    if s == "" || s[0] == '/' then 0 else 1 + Run(s[1..])
  }

  function Components(s: string): seq<string>
    decreases |s|
  {
    if s == "" then []
    else if s[0] == '/' then Components(s[1..])
    else [s[..Run(s)]] + Components(s[Run(s)..])
  }

  /** A component that names a file: not empty, not "." or "..", no '/' in it. */
  predicate Ordinary(c: string) {
    c != "" && '/' !in c && c != HERE && c != UP
  }

  predicate AllOrdinary(cs: seq<string>) {
    forall i :: 0 <= i < |cs| ==> Ordinary(cs[i])
  }

  lemma {:induction false} RunOf(c: string, rest: string)
    requires '/' !in c && (rest == "" || rest[0] == '/')
    ensures Run(c + rest) == |c|
  {
    if c == "" {
      assert c + rest == rest;
    } else {
      assert (c + rest)[0] == c[0] && (c + rest)[1..] == c[1..] + rest;
      RunOf(c[1..], rest);
    }
  }

  lemma FirstComponent(c: string, rest: string)
    requires c != "" && '/' !in c && (rest == "" || rest[0] == '/')
    ensures Components(c + rest) == [c] + Components(rest)
  {
    RunOf(c, rest);
    assert (c + rest)[0] == c[0];
    assert (c + rest)[..|c|] == c && (c + rest)[|c|..] == rest;
  }

  /** Joining with a '/' concatenates the components. */
  lemma {:induction false} ComponentsJoin(s: string, t: string)
    ensures Components(s + "/" + t) == Components(s) + Components(t)
    decreases |s|
  {
    var j := s + "/" + t;
    if s == "" {
      assert j[0] == '/' && j[1..] == t;
    } else if s[0] == '/' {
      assert j[0] == '/' && j[1..] == s[1..] + "/" + t;
      ComponentsJoin(s[1..], t);
    } else {
      var n := Run(s);
      assert s[..n] + (s[n..] + "/" + t) == j;
      FirstComponent(s[..n], s[n..] + "/" + t);
      ComponentsJoin(s[n..], t);
    }
  }

  lemma {:induction false} ComponentsAreNames(s: string)
    ensures forall i :: 0 <= i < |Components(s)| ==> Components(s)[i] != "" && '/' !in Components(s)[i]
    decreases |s|
  {
    if s != "" && s[0] == '/' {
      ComponentsAreNames(s[1..]);
    } else if s != "" {
      ComponentsAreNames(s[Run(s)..]);
    }
  }

  // ---- The text of a list of components ----

  /** Each component followed by a '/': what the rewriting loop keeps behind `dst`. */
  function Text(cs: seq<string>): string {
    if cs == [] then "" else Text(cs[..|cs| - 1]) + cs[|cs| - 1] + "/"
  }

  /** The normal form: "/" or "/a/b". */
  function Render(cs: seq<string>): (r: string)
    ensures r != "" && r[0] == '/'
  {
    if cs == [] then "/" else Prefixed(cs)
  }

  /** Each component preceded by a '/'. */
  function Prefixed(cs: seq<string>): (r: string)
    ensures cs != [] ==> r != "" && r[0] == '/'
  {
    if cs == [] then "" else "/" + cs[0] + Prefixed(cs[1..])
  }

  lemma {:induction false} PrefixedAppend(a: seq<string>, b: seq<string>)
    ensures Prefixed(a + b) == Prefixed(a) + Prefixed(b)
  {
    if a == [] {
      assert a + b == b;
    } else {
      assert (a + b)[0] == a[0] && (a + b)[1..] == a[1..] + b;
      PrefixedAppend(a[1..], b);
    }
  }

  lemma {:induction false} TextPrefixed(cs: seq<string>)
    ensures "/" + Text(cs) == Prefixed(cs) + "/"
  {
    if cs != [] {
      var init, last := cs[..|cs| - 1], cs[|cs| - 1];
      TextPrefixed(init);
      assert init + [last] == cs;
      PrefixedAppend(init, [last]);
      assert Prefixed([last]) == "/" + last + Prefixed([]);
      calc {
        "/" + Text(cs);
        ("/" + Text(init)) + last + "/";
        Prefixed(init) + ("/" + last) + "/";
        Prefixed(cs) + "/";
      }
    }
  }

  /** The components of a normal form are the list it was made from. */
  lemma {:induction false} ComponentsRender(cs: seq<string>)
    requires AllOrdinary(cs)
    ensures Components(Render(cs)) == cs
  {
    if cs == [] {
      assert "/"[1..] == "";
    } else {
      ComponentsPrefixed(cs);
    }
  }

  lemma {:induction false} ComponentsPrefixed(cs: seq<string>)
    requires AllOrdinary(cs)
    ensures Components(Prefixed(cs)) == cs
  {
    hide Components, Prefixed;
    PrefixedUnfolds(cs);
    ComponentsOfNothing();
    if cs != [] {
      var rest := Prefixed(cs[1..]);
      ComponentsPrefixed(cs[1..]);
      SlashFirst(cs[0] + rest);
      FirstComponent(cs[0], rest);
      assert [cs[0]] + cs[1..] == cs;
    }
  }

  lemma PrefixedUnfolds(cs: seq<string>)
    ensures cs == [] ==> Prefixed(cs) == ""
    ensures cs != [] ==> Prefixed(cs) == "/" + (cs[0] + Prefixed(cs[1..]))
    ensures cs != [] && cs[1..] != [] ==> Prefixed(cs[1..]) != "" && Prefixed(cs[1..])[0] == '/'
    ensures cs != [] && cs[1..] == [] ==> Prefixed(cs[1..]) == ""
  {
    if cs != [] {
      assert "/" + (cs[0] + Prefixed(cs[1..])) == "/" + cs[0] + Prefixed(cs[1..]);
    }
  }

  lemma ComponentsOfNothing()
    ensures Components("") == []
  {
  }

  lemma SlashFirst(t: string)
    ensures Components("/" + t) == Components(t)
  {
    assert ("/" + t)[1..] == t;
  }

  // ---- Stack evaluation ----

  /** What is left of `cs` after "." and ".." have been carried out on top of `stack`. */
  function Reduce(stack: seq<string>, cs: seq<string>): seq<string>
    decreases |cs|
  {
    if cs == [] then stack
    else if cs[0] == HERE then Reduce(stack, cs[1..])
    else if cs[0] == UP then Reduce(if stack == [] then [] else stack[..|stack| - 1], cs[1..])
    else Reduce(stack + [cs[0]], cs[1..])
  }

  /** What a component adds to the depth. */
  function Weight(c: string): int {
    if c == HERE then 0 else if c == UP then -1 else 1
  }

  /** Ordinary components less ".." ones. */
  function Height(cs: seq<string>): int {
    if cs == [] then 0 else Weight(cs[0]) + Height(cs[1..])
  }

  /** Starting `depth` deep, some prefix has more ".." than there is to leave. */
  ghost predicate Climbs(depth: nat, cs: seq<string>) {
    exists k :: 0 <= k <= |cs| && depth + Height(cs[..k]) < 0
  }

  // ---- What the code computes, for every input ----

  /** Where the rewriting stands: is the leading '/' still there, and what follows it. */
  datatype Place = Place(rooted: bool, stack: seq<string>)

  /** ".." at the root of a rooted path loses the '/'; on nothing at all it fails. */
  function Walk(p: Place, cs: seq<string>): Option<Place>
    decreases |cs|
  {
    if cs == [] then Some(p)
    else if cs[0] == HERE then Walk(p, cs[1..])
    else if cs[0] == UP then
      if p.stack != [] then Walk(p.(stack := p.stack[..|p.stack| - 1]), cs[1..])
      else if p.rooted then Walk(Place(false, []), cs[1..])
      else None
    else Walk(p.(stack := p.stack + [cs[0]]), cs[1..])
  }

  function Show(p: Place): string {
    if p.rooted then Render(p.stack)
    else if p.stack == [] then "" else Text(p.stack)[..|Text(p.stack)| - 1]
  }

  /** NULL, a string, or a read in front of the buffer. */
  datatype Outcome = Refused | Path(path: string) | Underrun

  function Normalize(full: string): Outcome {
    match Walk(Place(Absolute(full), []), Components(full))
    case None => Refused
    case Some(p) => if !p.rooted && p.stack == [] then Underrun else Path(Show(p))
  }

  // ---- Exactly when normalisation is right ----

  lemma ClimbsStep(depth: nat, cs: seq<string>)
    requires cs != []
    ensures depth + Weight(cs[0]) < 0 ==> Climbs(depth, cs)
    ensures depth + Weight(cs[0]) >= 0 ==> (Climbs(depth, cs) <==> Climbs(depth + Weight(cs[0]), cs[1..]))
  {
    forall k | 0 < k <= |cs|
      ensures Height(cs[..k]) == Weight(cs[0]) + Height(cs[1..][..k - 1])
    {
      assert cs[..k][0] == cs[0] && cs[..k][1..] == cs[1..][..k - 1];
    }
    if depth + Weight(cs[0]) < 0 {
      assert cs[1..][..0] == [];
      assert depth + Height(cs[..1]) < 0;
    } else if Climbs(depth + Weight(cs[0]), cs[1..]) {
      var k :| 0 <= k <= |cs[1..]| && depth + Weight(cs[0]) + Height(cs[1..][..k]) < 0;
      assert depth + Height(cs[..k + 1]) < 0;
    }
  }

  /** A walk that has lost the '/' never finds it again. */
  lemma {:induction false} UnrootedForGood(p: Place, cs: seq<string>)
    requires !p.rooted
    ensures Walk(p, cs).Some? ==> !Walk(p, cs).value.rooted
    decreases |cs|
  {
    if cs != [] {
      if cs[0] == HERE {
        UnrootedForGood(p, cs[1..]);
      } else if cs[0] == UP {
        if p.stack != [] {
          UnrootedForGood(p.(stack := p.stack[..|p.stack| - 1]), cs[1..]);
        }
      } else {
        UnrootedForGood(p.(stack := p.stack + [cs[0]]), cs[1..]);
      }
    }
  }

  lemma {:induction false} WalkExact(stack: seq<string>, cs: seq<string>)
    ensures !Climbs(|stack|, cs) ==> Walk(Place(true, stack), cs) == Some(Place(true, Reduce(stack, cs)))
    ensures Climbs(|stack|, cs) ==>
              Walk(Place(true, stack), cs).None? || !Walk(Place(true, stack), cs).value.rooted
    decreases |cs|
  {
    if cs == [] {
      assert cs[..0] == [];
    } else {
      ClimbsStep(|stack|, cs);
      if cs[0] == HERE {
        WalkExact(stack, cs[1..]);
      } else if cs[0] == UP {
        if stack != [] {
          WalkExact(stack[..|stack| - 1], cs[1..]);
        } else {
          UnrootedForGood(Place(false, []), cs[1..]);
        }
      } else {
        WalkExact(stack + [cs[0]], cs[1..]);
      }
    }
  }

  lemma {:induction false} WalkNames(p: Place, cs: seq<string>)
    requires AllOrdinary(p.stack)
    requires forall i :: 0 <= i < |cs| ==> cs[i] != "" && '/' !in cs[i]
    ensures Walk(p, cs).Some? ==> AllOrdinary(Walk(p, cs).value.stack)
    decreases |cs|
  {
    if cs != [] {
      if cs[0] == HERE {
        WalkNames(p, cs[1..]);
      } else if cs[0] == UP {
        if p.stack != [] {
          WalkNames(p.(stack := p.stack[..|p.stack| - 1]), cs[1..]);
        } else if p.rooted {
          WalkNames(Place(false, []), cs[1..]);
        }
      } else {
        WalkNames(p.(stack := p.stack + [cs[0]]), cs[1..]);
      }
    }
  }

  lemma ShowFirst(p: Place)
    requires !p.rooted && p.stack != [] && AllOrdinary(p.stack)
    ensures Show(p) != "" && Show(p)[0] != '/'
  {
    TextPrefixed(p.stack);
    var c := p.stack[0];
    assert Prefixed(p.stack) == "/" + c + Prefixed(p.stack[1..]);
    assert ("/" + Text(p.stack))[1] == c[0];
    assert Text(p.stack)[0] == c[0];
    assert |Text(p.stack)| == |Prefixed(p.stack)| > |c|;
  }

  /** An absolute path comes out as an absolute path exactly when no prefix climbs above
      the root, and then it is the normal form of what stack evaluation leaves. */
  lemma NormalizeExact(full: string)
    requires Absolute(full)
    ensures var cs := Components(full);
            && (!Climbs(0, cs) ==> Normalize(full) == Path(Render(Reduce([], cs))))
            && ((Normalize(full).Path? && Absolute(Normalize(full).path)) <==> !Climbs(0, cs))
  {
    var cs := Components(full);
    WalkExact([], cs);
    ComponentsAreNames(full);
    WalkNames(Place(true, []), cs);
    var w := Walk(Place(true, []), cs);
    if w.Some? && !w.value.rooted && w.value.stack != [] {
      ShowFirst(w.value);
    }
  }

  /** The first climb: `k` components in, for the first time one more ".." than there is to
      leave. */
  ghost predicate FirstClimb(depth: nat, cs: seq<string>, k: nat) {
    0 < k <= |cs| && depth + Height(cs[..k]) < 0 && forall j :: 0 <= j < k ==> depth + Height(cs[..j]) >= 0
  }

  /** A path that climbs goes on from there as a relative one. */
  lemma {:induction false} ClimbingContinues(stack: seq<string>, cs: seq<string>, k: nat)
    requires FirstClimb(|stack|, cs, k)
    ensures Walk(Place(true, stack), cs) == Walk(Place(false, []), cs[k..])
    decreases |cs|
  {
    HeightStep(cs, k);
    assert cs[..1][1..] == [] && Height(cs[..1]) == Weight(cs[0]);
    if k == 1 {
      assert |stack| + Weight(cs[0]) < 0;
    } else {
      assert |stack| + Weight(cs[0]) >= 0;
      var next := if cs[0] == HERE then stack else if cs[0] == UP then stack[..|stack| - 1] else stack + [cs[0]];
      forall j | 0 <= j < k - 1
        ensures |next| + Height(cs[1..][..j]) >= 0
      {
        HeightStep(cs, j + 1);
      }
      ClimbingContinues(next, cs[1..], k - 1);
      assert cs[1..][k - 1..] == cs[k..];
    }
  }

  lemma HeightStep(cs: seq<string>, k: nat)
    requires 0 < k <= |cs|
    ensures Height(cs[..k]) == Weight(cs[0]) + Height(cs[1..][..k - 1])
  {
    assert cs[..k][0] == cs[0] && cs[..k][1..] == cs[1..][..k - 1];
  }

  lemma {:induction false} WalkUnrooted(stack: seq<string>, cs: seq<string>)
    ensures Walk(Place(false, stack), cs) ==
            if Climbs(|stack|, cs) then None else Some(Place(false, Reduce(stack, cs)))
    decreases |cs|
  {
    if cs == [] {
      assert cs[..0] == [];
    } else {
      ClimbsStep(|stack|, cs);
      if cs[0] == HERE {
        WalkUnrooted(stack, cs[1..]);
      } else if cs[0] == UP {
        if stack != [] {
          WalkUnrooted(stack[..|stack| - 1], cs[1..]);
        }
      } else {
        WalkUnrooted(stack + [cs[0]], cs[1..]);
      }
    }
  }

  /** A text without a leading '/': refused exactly when a prefix has more ".." than there is
      to leave, read in front of its buffer when nothing is left, else what is left joined. */
  lemma NormalizeRelative(full: string)
    requires !Absolute(full)
    ensures var cs := Components(full);
            Normalize(full) == if Climbs(0, cs) then Refused
                               else if Reduce([], cs) == [] then Underrun
                               else Path(Prefixed(Reduce([], cs))[1..])
  {
    var cs := Components(full);
    WalkUnrooted([], cs);
    TextPrefixed(Reduce([], cs));
    var left := Reduce([], cs);
    if left != [] {
      assert "/" + Text(left) == Prefixed(left) + "/";
      assert ("/" + Text(left))[1..] == Text(left);
      assert (Prefixed(left) + "/")[1..] == Prefixed(left)[1..] + "/";
    }
  }

  /** "/../a" loses its '/'. */
  lemma ClimbingGoesRelative()
    ensures Normalize("/../a") == Path("a")
  {
    hide Components;
    UpThenA();
    assert [UP, "a"][1..] == ["a"] && ["a"][1..] == [] && ["a"][..0] == [];
    assert Text(["a"]) == "a/";
  }

  lemma UpThenA()
    ensures Components("/../a") == [UP, "a"]
  {
    assert "/../a"[1..] == ".." + "/a" && "/a"[1..] == "a" + "";
    FirstComponent("a", "");
    FirstComponent("..", "/a");
  }

  /** "/.." reads in front of its buffer. */
  lemma ClimbingUnderruns()
    ensures Normalize("/..") == Underrun
  {
    assert "/.."[1..] == ".." + "";
    FirstComponent("..", "");
    assert Components("/..") == [".."];
  }

  /** "/../.." is refused, as climbing is meant to be. */
  lemma ClimbingTwiceIsRefused()
    ensures Normalize("/../..") == Refused
  {
    assert "/../.."[1..] == ".." + "/.." && "/.."[1..] == ".." + "";
    FirstComponent("..", "");
    FirstComponent("..", "/..");
    assert Components("/../..") == [".."] + [".."];
  }

  // ---- Normal forms ----

  lemma {:induction false} ReduceOrdinary(stack: seq<string>, cs: seq<string>)
    requires AllOrdinary(cs)
    ensures Reduce(stack, cs) == stack + cs
    ensures !Climbs(|stack|, cs)
    decreases |cs|
  {
    if cs == [] {
      assert cs[..0] == [];
    } else {
      ClimbsStep(|stack|, cs);
      ReduceOrdinary(stack + [cs[0]], cs[1..]);
      assert stack + [cs[0]] + cs[1..] == stack + cs;
    }
  }

  /** Normal forms are fixed points. */
  lemma NormalFormIsFixed(cs: seq<string>)
    requires AllOrdinary(cs)
    ensures Normalize(Render(cs)) == Path(Render(cs))
  {
    ComponentsRender(cs);
    ReduceOrdinary([], cs);
    NormalizeExact(Render(cs));
    assert [] + cs == cs;
  }

  /** No empty component, and no trailing '/' but the root's. */
  lemma {:induction false} NormalFormShape(cs: seq<string>)
    requires AllOrdinary(cs) && cs != []
    ensures var r := Render(cs);
            && r[|r| - 1] != '/'
            && (forall i :: 0 <= i < |r| - 1 ==> r[i] != '/' || r[i + 1] != '/')
  {
    var rest := Prefixed(cs[1..]);
    if cs[1..] != [] {
      NormalFormShape(cs[1..]);
    }
    var r := Render(cs);
    assert r == "/" + cs[0] + rest;
    forall i | 0 <= i < |r| - 1
      ensures r[i] != '/' || r[i + 1] != '/'
    {
      if i == 0 {
        assert r[1] == cs[0][0];
      } else if i <= |cs[0]| {
        assert r[i] == cs[0][i - 1];
      } else {
        assert r[i] == rest[i - 1 - |cs[0]|] && r[i + 1] == rest[i - |cs[0]|];
      }
    }
  }

  lemma PrefixedPush(stack: seq<string>, c: string)
    ensures |Prefixed(stack + [c])| == |Prefixed(stack)| + 1 + |c|
  {
    PrefixedAppend(stack, [c]);
    assert Prefixed([c]) == "/" + c + Prefixed([]);
  }

  lemma PrefixedHead(cs: seq<string>)
    requires cs != []
    ensures |Prefixed(cs)| == 1 + |cs[0]| + |Prefixed(cs[1..])|
  {
  }

  lemma {:induction false} PrefixedLength(stack: seq<string>, cs: seq<string>)
    ensures |Prefixed(Reduce(stack, cs))| <= |Prefixed(stack)| + |Prefixed(cs)|
    decreases |cs|
  {
    hide Prefixed;
    if cs != [] {
      PrefixedHead(cs);
      if cs[0] == HERE {
        PrefixedLength(stack, cs[1..]);
      } else if cs[0] == UP {
        if stack != [] {
          var up, top := stack[..|stack| - 1], stack[|stack| - 1];
          assert up + [top] == stack;
          PrefixedPush(up, top);
          PrefixedLength(up, cs[1..]);
        } else {
          PrefixedLength([], cs[1..]);
        }
      } else {
        PrefixedPush(stack, cs[0]);
        PrefixedLength(stack + [cs[0]], cs[1..]);
      }
    }
  }

  lemma {:induction false} ComponentsLength(s: string)
    ensures |Prefixed(Components(s))| <= if s != "" && s[0] != '/' then |s| + 1 else |s|
    decreases |s|
  {
    if s != "" && s[0] == '/' {
      ComponentsLength(s[1..]);
    } else if s != "" {
      var n := Run(s);
      ComponentsLength(s[n..]);
      var cs := Components(s);
      assert cs[1..] == Components(s[n..]);
      assert Prefixed(cs) == "/" + cs[0] + Prefixed(cs[1..]);
    }
  }

  /** Whatever does not climb normalises to a normal form no longer than it was. */
  lemma NormalizeYieldsNormalForm(full: string)
    requires Absolute(full) && !Climbs(0, Components(full))
    ensures var cs := Reduce([], Components(full));
            && AllOrdinary(cs)
            && Normalize(full) == Path(Render(cs))
            && |Render(cs)| <= |full|
  {
    var cs := Components(full);
    NormalizeExact(full);
    ComponentsAreNames(full);
    WalkExact([], cs);
    WalkNames(Place(true, []), cs);
    PrefixedLength([], cs);
    ComponentsLength(full);
  }

  lemma {:induction false} ReduceFrom(stack: seq<string>, ds: seq<string>, cs: seq<string>)
    requires AllOrdinary(ds)
    ensures Reduce(stack, ds + cs) == Reduce(stack + ds, cs)
    decreases |ds|
  {
    if ds == [] {
      assert ds + cs == cs && stack + ds == stack;
    } else {
      assert (ds + cs)[0] == ds[0] && (ds + cs)[1..] == ds[1..] + cs;
      ReduceFrom(stack + [ds[0]], ds[1..], cs);
      assert stack + [ds[0]] + ds[1..] == stack + ds;
    }
  }

  lemma {:induction false} ClimbsFrom(depth: nat, ds: seq<string>, cs: seq<string>)
    requires AllOrdinary(ds)
    ensures Climbs(depth, ds + cs) <==> Climbs(depth + |ds|, cs)
    decreases |ds|
  {
    if ds == [] {
      assert ds + cs == cs;
    } else {
      assert (ds + cs)[0] == ds[0] && (ds + cs)[1..] == ds[1..] + cs;
      ClimbsStep(depth, ds + cs);
      ClimbsFrom(depth + 1, ds[1..], cs);
    }
  }

  /** A relative name is evaluated on top of its directory. */
  lemma RelativeName(ds: seq<string>, name: string)
    requires AllOrdinary(ds)
    ensures var full := Render(ds) + "/" + name;
            (if !Climbs(|ds|, Components(name)) then Normalize(full) == Path(Render(Reduce(ds, Components(name))))
             else !(Normalize(full).Path? && Absolute(Normalize(full).path)))
  {
    var full := Render(ds) + "/" + name;
    ComponentsJoin(Render(ds), name);
    ComponentsRender(ds);
    ReduceFrom([], ds, Components(name));
    ClimbsFrom(0, ds, Components(name));
    assert [] + ds == ds;
    assert full[0] == '/';
    NormalizeExact(full);
  }
}
