/** Combining, canonicalizing and relativizing paths (common/FileSystem.cpp).

    A Vita device path such as `ux0:data` is absolute as well; its device name is an ordinary first
    component. */
module PathAlgebra {

  import opened Paths

  // ----- Combine -----

  predicate EndsWithSlash(s: string) {
    s != "" && s[|s| - 1] == SLASH
  }

  /** One turn of PathAppendString. */
  function AppendChar(dst: string, ch: char): string {
    if ch == SLASH && EndsWithSlash(dst) then dst else dst + [ch]
  }

  function Appended(dst: string, src: string): string
    decreases |src|
  {
    if src == "" then dst else Appended(AppendChar(dst, src[0]), src[1..])
  }

  /** PathAppendString, with the flag that remembers a trailing separator. */
  method PathAppendString(dst: string, src: string) returns (r: string)
    ensures r == Appended(dst, src)
  {
    r := dst;
    var lastSeparator := EndsWithSlash(dst);
    for index := 0 to |src|
      invariant lastSeparator == EndsWithSlash(r)
      invariant Appended(r, src[index..]) == Appended(dst, src)
    {
      var ch := src[index];
      assert src[index..][1..] == src[index + 1..];
      if ch == SLASH {
        if !lastSeparator {
          lastSeparator := true;
          r := r + [SLASH];
        }
      } else {
        lastSeparator := false;
        r := r + [ch];
      }
    }
    assert src[|src|..] == "";
  }

  function Trimmed(s: string): string {
    if EndsWithSlash(s) then Trimmed(s[..|s| - 1]) else s
  }

  method TrimSlashes(s: string) returns (r: string)
    ensures r == Trimmed(s)
  {
    r := s;
    while r != "" && r[|r| - 1] == SLASH
      invariant Trimmed(r) == Trimmed(s)
      decreases |r|
    {
      r := r[..|r| - 1];
    }
  }

  /** The components a base path contributes: an empty one stands for the root. */
  function Lead(base: string): (cs: seq<string>)
    ensures cs != []
  {
    if Split(base) == [] then [""] else Split(base)
  }

  /** The components of a path that is appended to another: leading separators do not count. */
  function Tail(next: string): seq<string> {
    Rest("", next, false)
  }

  /** The components of the one path, then those of the other. */
  function Combined(base: string, next: string): string {
    Join(Lead(base) + Tail(next))
  }

  /** Whatever separators the two paths begin, end or are littered with, combining them puts
      their components together. */
  method Combine(base: string, next: string) returns (ret: string)
    ensures ret == Combined(base, next)
  {
    ret := PathAppendString("", base);
    ret := TrimSlashes(ret);
    AppendToComponents([], "", base);
    assert [] + [""] == [""] && [] + Split(base) == Split(base);
    assert ret == Join(Split(base));
    SplitIsNormal(base);
    JoinLast(Split(base), "");
    JoinLast([""], "");
    ret := ret + "/";
    assert ret == Join(Lead(base) + [""]);
    ret := PathAppendString(ret, next);
    ret := TrimSlashes(ret);
    AppendToComponents(Lead(base), "", next);
  }

  lemma SplitIsNormal(path: string)
    ensures Normal(Split(path)) && Normal(Lead(path))
    ensures Split(path) != [] && Split(path)[0] == "" ==> path != "" && path[0] == SLASH
  {
    RestIsNormal("", path, true);
  }

  /** Appending text to a path whose components are `cs` and, so far, `cur`. */
  lemma {:induction false} AppendToComponents(cs: seq<string>, cur: string, src: string)
    requires Normal(cs) && IsName(cur)
    ensures Trimmed(Appended(Join(cs + [cur]), src)) == Join(cs + Rest(cur, src, cs == []))
    decreases |src|
  {
    if src == "" {
      TrimJoined(cs, cur);
    } else {
      AppendOne(cs, cur, src[0]);
      if src[0] != SLASH {
        AppendToComponents(cs, cur + [src[0]], src[1..]);
      } else if cur == "" && cs != [] {
        AppendToComponents(cs, "", src[1..]);
        assert [] + Rest("", src[1..], false) == Rest("", src[1..], false);
      } else {
        AppendToComponents(cs + [cur], "", src[1..]);
        assert cs + ([cur] + Rest("", src[1..], false)) == cs + [cur] + Rest("", src[1..], false);
      }
    }
  }

  /** One more character extends the current component, ends it, or is a repeated separator. */
  lemma AppendOne(cs: seq<string>, cur: string, ch: char)
    requires Normal(cs) && IsName(cur)
    ensures AppendChar(Join(cs + [cur]), ch)
         == if ch != SLASH then Join(cs + [cur + [ch]])
            else if cur == "" && cs != [] then Join(cs + [""])
            else Join(cs + [cur] + [""])
  {
    JoinLast(cs, cur);
    JoinLast(cs, cur + [ch]);
    JoinLast(cs + [cur], "");
    var dst := Join(cs + [cur]);
    if cur != "" {
      assert dst[|dst| - 1] == cur[|cur| - 1] && cur[|cur| - 1] in cur;
    }
  }

  lemma TrimJoined(cs: seq<string>, cur: string)
    requires Normal(cs) && IsName(cur)
    ensures Trimmed(Join(cs + [cur])) == Join(cs + if cur != "" then [cur] else [])
  {
    JoinLast(cs, cur);
    var dst := Join(cs + [cur]);
    if cur != "" {
      assert dst[|dst| - 1] == cur[|cur| - 1];
    } else {
      assert cs + [] == cs;
      if cs != [] {
        JoinIsTidy(cs);
        var joined := Join(cs);
        assert dst == joined + "/" && dst[..|dst| - 1] == joined;
        assert !EndsWithSlash(joined);
      }
    }
  }

  // ----- Canonicalize -----

  /** One component: `alone` says that the path has no other. */
  function Step(stack: seq<string>, c: string, alone: bool): seq<string> {
    if c == "." then (if alone then stack + [c] else stack)
    else if c == ".." then (if stack != [] then stack[..|stack| - 1] else [c])
    else stack + [c]
  }

  function Reduce(stack: seq<string>, cs: seq<string>, alone: bool): seq<string>
    decreases |cs|
  {
    if cs == [] then stack else Reduce(Step(stack, cs[0], alone), cs[1..], alone)
  }

  function Reduced(cs: seq<string>): seq<string> {
    Reduce([], cs, |cs| == 1)
  }

  function Canonical(path: string): string {
    Join(Reduced(Split(path)))
  }

  method Canonicalize(path: string) returns (ret: string)
    ensures ret == Canonical(path)
  {
    var components := SplitNativePath(path);
    var stack := [];
    for i := 0 to |components|
      invariant Reduce(stack, components[i..], |components| == 1) == Reduced(components)
    {
      var component := components[i];
      assert components[i..][1..] == components[i + 1..];
      if component == "." {
        if |components| == 1 {
          stack := stack + [component];
        }
      } else if component == ".." {
        if stack != [] {
          stack := stack[..|stack| - 1];
        } else {
          stack := [component];
        }
      } else {
        stack := stack + [component];
      }
    }
    assert components[|components|..] == [];
    ret := JoinNativePath(stack);
  }

  /** What is left on the stack: no `.` unless it is all there is, and `..` only at the front. */
  predicate Settled(stack: seq<string>) {
    && Normal(stack)
    && (forall i :: 0 < i < |stack| ==> stack[i] != ".." && stack[i] != ".")
    && (stack != [] && stack[0] == "." ==> |stack| == 1)
  }

  lemma {:induction false} ReduceSettles(stack: seq<string>, cs: seq<string>, alone: bool)
    requires Settled(stack) && Normal(cs) && (stack != [] && stack[0] == "." ==> cs == [])
    requires alone ==> |cs| <= 1 && (cs != [] ==> stack == [])
    requires cs != [] && cs[0] == "" ==> stack == []
    ensures Settled(Reduce(stack, cs, alone))
    decreases |cs|
  {
    if cs != [] {
      var c := cs[0];
      assert IsName(c);
      if c == "." && alone {
        assert cs[1..] == [];
      }
      ReduceSettles(Step(stack, c, alone), cs[1..], alone);
    }
  }

  /** A settled list is left as it is. */
  lemma {:induction false} ReduceKeeps(stack: seq<string>, cs: seq<string>, alone: bool)
    requires Settled(stack + cs) && (alone <==> |stack + cs| == 1)
    ensures Reduce(stack, cs, alone) == stack + cs
    decreases |cs|
  {
    if cs == [] {
      assert stack + cs == stack;
    } else {
      var whole := stack + cs;
      assert whole[|stack|] == cs[0];
      assert Step(stack, cs[0], alone) == stack + [cs[0]];
      assert stack + [cs[0]] + cs[1..] == whole;
      ReduceKeeps(stack + [cs[0]], cs[1..], alone);
    }
  }

  lemma ReducedIsSettled(path: string)
    ensures Settled(Reduced(Split(path))) && Reduced(Reduced(Split(path))) == Reduced(Split(path))
  {
    SplitIsNormal(path);
    var cs := Split(path);
    ReduceSettles([], cs, |cs| == 1);
    var r := Reduced(cs);
    assert [] + r == r;
    ReduceKeeps([], r, |r| == 1);
  }

  /** Canonicalizing twice is canonicalizing once, for every path. */
  lemma CanonicalIsIdempotent(path: string)
    ensures Canonical(Canonical(path)) == Canonical(path)
  {
    var r := Reduced(Split(path));
    ReducedIsSettled(path);
    SplitJoinIff(r);
  }
}
