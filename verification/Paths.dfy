/** Path splitting, joining and combining of common/FileSystem.cpp, as built for hosts whose
    separator is the slash. */
module Paths {

  const SLASH: char := '/'

  /** A component holds no separator. */
  predicate IsName(s: string) {
    SLASH !in s
  }

  /** Lists that stand for a path: only the first component may be empty, which marks the root. */
  predicate Normal(cs: seq<string>) {
    forall i :: 0 <= i < |cs| ==> IsName(cs[i]) && (i > 0 ==> cs[i] != "")
  }

  /** JoinNativePath. */
  function Join(cs: seq<string>): string {
    if cs == [] then ""
    else if |cs| == 1 then cs[0]
    else cs[0] + "/" + Join(cs[1..])
  }

  /** Components still to come: `cur` has been read since the last separator, `rest` has not, and
      `first` says that no separator has been read at all. */
  function Rest(cur: string, rest: string, first: bool): seq<string>
    decreases |rest|
  {
    if rest == "" then (if cur != "" then [cur] else [])
    else if rest[0] != SLASH then Rest(cur + [rest[0]], rest[1..], first)
    else (if cur != "" || first then [cur] else []) + Rest("", rest[1..], false)
  }

  /** SplitNativePath. */
  function Split(path: string): seq<string> {
    Rest("", path, true)
  }

  /** The scan for separators. */
  method SplitNativePath(path: string) returns (parts: seq<string>)
    ensures parts == Split(path)
  {
    parts := [];
    var start, pos := 0, 0;
    while pos < |path|
      invariant 0 <= start <= pos <= |path|
      invariant parts + Rest(path[start..pos], path[pos..], start == 0) == Split(path)
    {
      assert path[pos..][1..] == path[pos + 1..];
      if path[pos] != SLASH {
        assert path[start..pos] + [path[pos]] == path[start..pos + 1];
        pos := pos + 1;
      } else {
        if pos != start || pos == 0 {
          parts := parts + [path[start..pos]];
        }
        pos := pos + 1;
        start := pos;
        assert path[start..pos] == "";
      }
    }
    assert path[start..pos] == path[start..] && path[pos..] == "";
    if start != pos {
      parts := parts + [path[start..]];
    }
  }

  /** The loop of JoinString. */
  method JoinNativePath(components: seq<string>) returns (ret: string)
    ensures ret == Join(components)
  {
    ret := "";
    for i := 0 to |components|
      invariant ret == Join(components[..i])
    {
      if i != 0 {
        ret := ret + "/";
      }
      ret := ret + components[i];
      JoinLast(components[..i], components[i]);
      assert components[..i + 1] == components[..i] + [components[i]];
    }
    assert components[..|components|] == components;
  }

  lemma {:induction false} JoinLast(cs: seq<string>, c: string)
    ensures Join(cs + [c]) == if cs == [] then c else Join(cs) + "/" + c
  {
    if |cs| > 1 {
      JoinLast(cs[1..], c);
      assert (cs + [c])[1..] == cs[1..] + [c];
    }
  }

  /** Reading a name moves it into the current component. */
  lemma {:induction false} RestReadsName(cur: string, name: string, rest: string, first: bool)
    requires IsName(name)
    ensures Rest(cur, name + rest, first) == Rest(cur + name, rest, first)
    decreases |name|
  {
    if name == "" {
      assert name + rest == rest && cur + name == cur;
    } else {
      RestReadsName(cur + [name[0]], name[1..], rest, first);
      assert (name + rest)[1..] == name[1..] + rest;
      assert cur + [name[0]] + name[1..] == cur + name;
    }
  }

  /** Whatever the path, the components form a normal list. */
  lemma {:induction false} RestIsNormal(cur: string, rest: string, first: bool)
    requires IsName(cur)
    ensures var cs := Rest(cur, rest, first);
            && Normal(cs)
            && (!first && cs != [] ==> cs[0] != "")
            && (first && cs != [] && cs[0] == "" ==> cur == "" && rest != "" && rest[0] == SLASH)
    decreases |rest|
  {
    if rest != "" {
      RestIsNormal(if rest[0] != SLASH then cur + [rest[0]] else "", rest[1..], first && rest[0] != SLASH);
    }
  }

  lemma {:induction false} SplitJoined(cs: seq<string>, first: bool)
    requires Normal(cs) && cs != [""] && (!first && cs != [] ==> cs[0] != "")
    ensures Rest("", Join(cs), first) == cs
  {
    if |cs| == 1 {
      RestReadsName("", cs[0], "", first);
      assert cs[0] + "" == cs[0] && "" + cs[0] == cs[0];
    } else if cs != [] {
      var tail := Join(cs[1..]);
      RestReadsName("", cs[0], "/" + tail, first);
      assert "" + cs[0] == cs[0] && cs[0] + "/" + tail == cs[0] + ("/" + tail);
      assert ("/" + tail)[1..] == tail;
      SplitJoined(cs[1..], false);
    }
  }

  /** Splitting undoes joining exactly on the normal lists other than the lone root. */
  lemma SplitJoinIff(cs: seq<string>)
    ensures Split(Join(cs)) == cs <==> Normal(cs) && cs != [""]
  {
    if Normal(cs) && cs != [""] {
      SplitJoined(cs, true);
    } else {
      RestIsNormal("", Join(cs), true);
    }
  }

  /** Repeated or trailing separators: what a path has over its components. */
  predicate Tidy(path: string) {
    && (path != "" ==> path[|path| - 1] != SLASH)
    && forall i :: 0 < i < |path| ==> !(path[i - 1] == SLASH && path[i] == SLASH)
  }

  /** Joining undoes splitting exactly on the paths with no repeated or trailing separator. */
  lemma JoinSplitIff(path: string)
    ensures Join(Split(path)) == path <==> Tidy(path)
  {
    RestIsNormal("", path, true);
    if Join(Split(path)) == path {
      JoinIsTidy(Split(path));
    }
    if Tidy(path) {
      JoinRest("", path, true);
    }
  }

  lemma {:induction false} JoinIsTidy(cs: seq<string>)
    requires Normal(cs)
    ensures Tidy(Join(cs))
    ensures cs != [] && cs[0] != "" ==> Join(cs) != "" && Join(cs)[0] != SLASH
  {
    if |cs| > 1 {
      JoinIsTidy(cs[1..]);
      var s, tail := Join(cs), Join(cs[1..]);
      assert s == cs[0] + "/" + tail;
      forall i | 0 < i < |s|
        ensures !(s[i - 1] == SLASH && s[i] == SLASH)
      {
        if i > |cs[0]| + 1 {
          assert s[i - 1] == tail[i - |cs[0]| - 2] && s[i] == tail[i - |cs[0]| - 1];
        }
      }
    }
  }

  lemma {:induction false} JoinRest(cur: string, rest: string, first: bool)
    requires IsName(cur) && Tidy(rest)
    requires rest != "" && rest[0] == SLASH ==> cur != "" || first
    ensures Join(Rest(cur, rest, first)) == cur + rest
    decreases |rest|
  {
    if rest != "" {
      var tail := rest[1..];
      TidyTail(rest);
      if rest[0] != SLASH {
        JoinRest(cur + [rest[0]], tail, first);
        assert cur + [rest[0]] + tail == cur + rest;
      } else {
        JoinRest("", tail, false);
        JoinAfterSlash(cur, rest, first);
      }
    }
  }

  lemma JoinAfterSlash(cur: string, rest: string, first: bool)
    requires rest != "" && rest[0] == SLASH && (cur != "" || first)
    requires Rest("", rest[1..], false) != [] && Join(Rest("", rest[1..], false)) == "" + rest[1..]
    ensures Join(Rest(cur, rest, first)) == cur + rest
  {
    JoinTwo(cur, Rest("", rest[1..], false));
    assert cur + "/" + rest[1..] == cur + rest;
  }

  lemma JoinTwo(c: string, cs: seq<string>)
    requires cs != []
    ensures Join([c] + cs) == c + "/" + Join(cs)
  {
    assert ([c] + cs)[1..] == cs;
  }

  /** Behind a separator there is always a component. */
  lemma TidyTail(rest: string)
    requires rest != "" && Tidy(rest)
    ensures Tidy(rest[1..])
    ensures rest[0] == SLASH ==> rest[1..] != "" && rest[1..][0] != SLASH && Rest("", rest[1..], false) != []
  {
    var tail := rest[1..];
    forall i | 0 < i < |tail|
      ensures !(tail[i - 1] == SLASH && tail[i] == SLASH)
    {
      assert !(rest[i + 1 - 1] == SLASH && rest[i + 1] == SLASH);
    }
    if rest[0] == SLASH {
      assert !(rest[1 - 1] == SLASH && rest[1] == SLASH);
      assert "" + [tail[0]] == [tail[0]];
      HasComponent([tail[0]], tail[1..], false);
    }
  }

  lemma {:induction false} HasComponent(cur: string, rest: string, first: bool)
    requires cur != ""
    ensures Rest(cur, rest, first) != []
    decreases |rest|
  {
    if rest != "" && rest[0] != SLASH {
      HasComponent(cur + [rest[0]], rest[1..], first);
    }
  }
}
