/** MakeRelative (common/FileSystem.cpp) against Combine and Canonicalize. Absolute paths are those
    of the Vita build: rooted ones, and ones that begin with a device name and a colon. */
module RelativePaths {

  import opened Paths
  import opened PathAlgebra

  /** `find`: the first position of `c`, the length of the text if there is none. */
  function Find(s: string, c: char): (i: nat)
    ensures i <= |s| && (i < |s| ==> s[i] == c) && forall j :: 0 <= j < i ==> s[j] != c
  {
    if s == "" || s[0] == c then 0 else 1 + Find(s[1..], c)
  }

  predicate IsAbsolute(path: string) {
    || (|path| >= 1 && path[0] == SLASH)
    || (Find(path, ':') < |path| && Find(path, ':') > 0
        && (Find(path, SLASH) == |path| || Find(path, ':') < Find(path, SLASH)))
  }

  /** Absolute are exactly the paths that begin with a slash, or in which a colon comes after at least one
      character and before any slash. */
  lemma AbsoluteIff(path: string)
    ensures IsAbsolute(path)
       <==> || (path != "" && path[0] == SLASH)
            || (path != "" && path[0] != ':'
                && exists i :: 0 < i < |path| && path[i] == ':' && SLASH !in path[..i])
  {
    var colon, slash := Find(path, ':'), Find(path, SLASH);
    if path != "" && path[0] != SLASH && path[0] != ':' && colon < |path| && (slash == |path| || colon < slash) {
      assert 0 < colon < |path| && path[colon] == ':' && SLASH !in path[..colon];
    }
    forall i | path != "" && path[0] != ':' && 0 < i < |path| && path[i] == ':' && SLASH !in path[..i]
      ensures IsAbsolute(path)
    {
      assert colon <= i;
    }
  }

  /** How many components the two lists share at the front. */
  function Shared(p: seq<string>, b: seq<string>): (k: nat)
    ensures k <= |p| && k <= |b| && p[..k] == b[..k]
    ensures k < |p| && k < |b| ==> p[k] != b[k]
  {
    if p == [] || b == [] || p[0] != b[0] then 0
    else
      assert p[1..][..Shared(p[1..], b[1..])] == b[1..][..Shared(p[1..], b[1..])];
      1 + Shared(p[1..], b[1..])
  }

  function Ups(n: nat): (u: seq<string>)
    ensures |u| == n && forall i :: 0 <= i < n ==> u[i] == ".."
  {
    seq(n, _ => "..")
  }

  /** The components of the relative path: up to the shared part, then down again. */
  function Route(p: seq<string>, b: seq<string>): seq<string> {
    var k := Shared(p, b);
    Ups(|b| - k) + p[k..]
  }

  function Relative(path: string, base: string): string {
    var p, b := Split(path), Split(base);
    if IsAbsolute(path) && IsAbsolute(base) && Shared(p, b) > 0 then Join(Route(p, b)) else Join(p)
  }

  method MakeRelative(path: string, base: string) returns (ret: string)
    ensures ret == Relative(path, base)
  {
    var p := SplitNativePath(path);
    var b := SplitNativePath(base);
    var components := [];
    if IsAbsolute(path) && IsAbsolute(base) {
      var same := CountSame(p, b);
      if same > 0 {
        components := BackUp(|b| - same);
        components := AppendFrom(components, p, same);
      } else {
        components := p;
      }
    } else {
      components := p;
    }
    ret := JoinNativePath(components);
  }

  /** The loop from the base up to the shared components. */
  method BackUp(n: nat) returns (components: seq<string>)
    ensures components == Ups(n)
  {
    components := [];
    for i := 0 to n
      invariant components == Ups(i)
    {
      components := components + [".."];
    }
  }

  /** The loop that adds the rest of the path. */
  method AppendFrom(start: seq<string>, p: seq<string>, same: nat) returns (components: seq<string>)
    requires same <= |p|
    ensures components == start + p[same..]
  {
    components := start;
    for i := same to |p|
      invariant components == start + p[same..i]
    {
      components := components + [p[i]];
    }
    assert p[same..|p|] == p[same..];
  }

  /** The loop that counts the shared components. */
  method CountSame(p: seq<string>, b: seq<string>) returns (same: nat)
    ensures same == Shared(p, b)
  {
    same := 0;
    var i := 0;
    while i < |p| && i < |b| && p[i] == b[i]
      invariant same == i <= |p| && i <= |b| && p[..i] == b[..i]
    {
      same := same + 1;
      i := i + 1;
    }
    SharedIsUnique(p, b, same);
  }

  lemma SharedIsUnique(p: seq<string>, b: seq<string>, n: nat)
    requires n <= |p| && n <= |b| && p[..n] == b[..n] && (n < |p| && n < |b| ==> p[n] != b[n])
    ensures n == Shared(p, b)
  {
    var k := Shared(p, b);
    assert forall i :: 0 <= i < n ==> p[i] == p[..n][i] && b[i] == b[..n][i];
    assert forall i :: 0 <= i < k ==> p[i] == p[..k][i] && b[i] == b[..k][i];
  }

  // ----- the way back -----

  predicate DotFree(cs: seq<string>) {
    "." !in cs && ".." !in cs
  }

  lemma {:induction false} ReduceAppend(stack: seq<string>, a: seq<string>, b: seq<string>, alone: bool)
    ensures Reduce(stack, a + b, alone) == Reduce(Reduce(stack, a, alone), b, alone)
    decreases |a|
  {
    if a == [] {
      assert a + b == b;
    } else {
      ReduceAppend(Step(stack, a[0], alone), a[1..], b, alone);
      assert (a + b)[1..] == a[1..] + b;
    }
  }

  lemma {:induction false} ReduceDotFree(stack: seq<string>, cs: seq<string>, alone: bool)
    requires DotFree(cs)
    ensures Reduce(stack, cs, alone) == stack + cs
    decreases |cs|
  {
    if cs == [] {
      assert stack + cs == stack;
    } else {
      assert cs[0] in cs;
      ReduceDotFree(stack + [cs[0]], cs[1..], alone);
      assert stack + [cs[0]] + cs[1..] == stack + cs;
    }
  }

  /** `n` times up takes `n` components off. */
  lemma {:induction false} ReduceUps(stack: seq<string>, n: nat, alone: bool)
    requires n <= |stack|
    ensures Reduce(stack, Ups(n), alone) == stack[..|stack| - n]
    decreases n
  {
    if n > 0 {
      assert Ups(n)[1..] == Ups(n - 1);
      ReduceUps(stack[..|stack| - 1], n - 1, alone);
    }
  }

  /** Down to the base and up again. */
  lemma ReduceUpFromBase(b: seq<string>, k: nat, rest: seq<string>, alone: bool)
    requires DotFree(b) && k <= |b|
    ensures Reduce([], b + (Ups(|b| - k) + rest), alone) == Reduce(b[..k], rest, alone)
  {
    var ups := Ups(|b| - k);
    ReduceAppend([], b, ups + rest, alone);
    ReduceAppend(b, ups, rest, alone);
    ReduceDotFree([], b, alone);
    assert [] + b == b;
    ReduceUps(b, |b| - k, alone);
  }

  lemma ReduceFromShared(p: seq<string>, k: nat, alone: bool)
    requires k <= |p| && DotFree(p[..k])
    ensures Reduce([], p, alone) == Reduce(p[..k], p[k..], alone)
  {
    assert p == p[..k] + p[k..];
    ReduceAppend([], p[..k], p[k..], alone);
    ReduceDotFree([], p[..k], alone);
    assert [] + p[..k] == p[..k];
  }

  /** Going to the base and along the route ends where the path itself does. */
  lemma RouteReduces(p: seq<string>, b: seq<string>)
    requires DotFree(b) && Shared(p, b) > 0
    ensures Reduced(b + Route(p, b)) == Reduced(p)
  {
    var k := Shared(p, b);
    var alone := |b + Route(p, b)| == 1;
    ReduceUpFromBase(b, k, p[k..], alone);
    assert forall c :: c in b[..k] ==> c in b;
    ReduceFromShared(p, k, |p| == 1);
    assert |p| == 1 || alone ==> p[k..] == [];
  }

  lemma RouteIsNormal(p: seq<string>, b: seq<string>)
    requires Normal(p) && Shared(p, b) > 0
    ensures Normal(Route(p, b)) && "" !in Route(p, b)
  {
  }

  lemma AbsoluteHasComponents(path: string)
    requires IsAbsolute(path)
    ensures Split(path) != []
  {
    if Split(path) == [] {
      NoComponents("", path, true);
    }
  }

  lemma {:induction false} NoComponents(cur: string, rest: string, first: bool)
    requires Rest(cur, rest, first) == []
    ensures cur == "" && (first ==> rest == "")
    decreases |rest|
  {
    if rest != "" && rest[0] != SLASH {
      NoComponents(cur + [rest[0]], rest[1..], first);
    }
  }

  /** For absolute paths that share their first component, the relative path leads from a base
      without dots back to the path. */
  lemma RelativeLeadsBack(path: string, base: string)
    requires IsAbsolute(path) && IsAbsolute(base) && DotFree(Split(base))
    requires Shared(Split(path), Split(base)) > 0
    ensures Canonical(Combined(base, Relative(path, base))) == Canonical(path)
  {
    var p, b := Split(path), Split(base);
    var route := Route(p, b);
    SplitIsNormal(path);
    SplitIsNormal(base);
    AbsoluteHasComponents(base);
    RouteIsNormal(p, b);
    assert "" in [""];
    SplitJoined(route, false);
    assert Combined(base, Relative(path, base)) == Join(b + route);
    assert Normal(b + route);
    SplitJoinIff(b + route);
    RouteReduces(p, b);
    if b + route == [""] {
      assert DotFree([""]) && [] + [""] == [""];
      ReduceDotFree([], [""], true);
    }
  }

  /** Two absolute paths, the path in canonical form: it is recovered from its relative form
      exactly when the two share their first component. */
  lemma RecoveredIff(path: string, base: string)
    requires IsAbsolute(path) && IsAbsolute(base) && Canonical(path) == path && DotFree(Split(base))
    ensures Split(path) != [] && Split(base) != []
    ensures Canonical(Combined(base, Relative(path, base))) == path <==> Split(path)[0] == Split(base)[0]
  {
    AbsoluteHasComponents(path);
    AbsoluteHasComponents(base);
    CanonicalAbsoluteIsDotFree(path);
    if Split(path)[0] == Split(base)[0] {
      RelativeLeadsBack(path, base);
    } else {
      Unrelated(path, base);
    }
  }

  /** An absolute path in canonical form has no dots left; this is what makes it a good base. */
  lemma CanonicalAbsoluteIsDotFree(path: string)
    requires IsAbsolute(path) && Canonical(path) == path
    ensures DotFree(Split(path))
  {
    var r := Reduced(Split(path));
    ReducedIsSettled(path);
    SplitJoinIff(r);
    assert r != [] && r != [""];
    if r[0] == "." || r[0] == ".." {
      DotsAreNotAbsolute(r);
    }
  }

  lemma DotsAreNotAbsolute(r: seq<string>)
    requires Settled(r) && r != [] && (r[0] == "." || r[0] == "..")
    ensures !IsAbsolute(Join(r))
  {
    var path := Join(r);
    if |r| > 1 {
      assert path == ".." + "/" + Join(r[1..]);
      assert path[2] == SLASH;
    }
  }

  /** With nothing shared the path is appended whole, below the base. */
  lemma Unrelated(path: string, base: string)
    requires Split(path) != [] && Split(base) != [] && Split(path)[0] != Split(base)[0]
    requires DotFree(Split(base)) && Canonical(path) == path && DotFree(Split(path))
    ensures Canonical(Combined(base, Relative(path, base))) != path
  {
    var p, b := Split(path), Split(base);
    CanonicalDotFree(p);
    assert Join(p) == path && Relative(path, base) == path;
    SplitIsNormal(base);
    TailDropsRoot(path);
    RestIsNormal("", path, false);
    BelowBase(b, Tail(path), path);
  }

  lemma CanonicalDotFree(cs: seq<string>)
    requires DotFree(cs)
    ensures Reduced(cs) == cs
  {
    ReduceDotFree([], cs, |cs| == 1);
    assert [] + cs == cs;
  }

  /** Components below a base do not spell a path that begins elsewhere. */
  lemma BelowBase(b: seq<string>, t: seq<string>, path: string)
    requires b != [] && Normal(b) && Normal(t) && (t != [] ==> t[0] != "") && DotFree(b) && DotFree(t)
    requires Split(path) != [] && Split(path)[0] != b[0] && path != ""
    ensures Canonical(Join(b + t)) != path
  {
    var all := b + t;
    assert all[0] == b[0];
    assert Normal(all) && DotFree(all);
    SplitJoinIff(all);
    CanonicalDotFree(all);
    if all == [""] {
      assert Split(Join(all)) == [];
      CanonicalDotFree([]);
    }
  }

  lemma TailDropsRoot(path: string)
    ensures Tail(path) == Split(path) || [""] + Tail(path) == Split(path)
  {
    TailRest("", path);
  }

  lemma {:induction false} TailRest(cur: string, rest: string)
    ensures Rest(cur, rest, false) == Rest(cur, rest, true) || [""] + Rest(cur, rest, false) == Rest(cur, rest, true)
    decreases |rest|
  {
    if rest != "" && rest[0] != SLASH {
      TailRest(cur + [rest[0]], rest[1..]);
    }
  }
}
