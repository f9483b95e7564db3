/** When canonicalizing a path keeps the place it denotes.

    A path denotes a walk from the working directory: the empty first component goes to the root,
    `.` stays, `..` goes up (and stays at the root), any other name goes down. */
module PathMeaning {

  import opened Paths
  import opened PathAlgebra

  type Place = seq<string>

  function Move(at: Place, c: string): Place {
    if c == "" then []
    else if c == "." then at
    else if c == ".." then (if at == [] then [] else at[..|at| - 1])
    else at + [c]
  }

  function Walk(at: Place, cs: seq<string>): Place
    decreases |cs|
  {
    if cs == [] then at else Walk(Move(at, cs[0]), cs[1..])
  }

  /** No `..` ever removes the root marker or a `..` kept at the front. */
  predicate Tame(stack: seq<string>, cs: seq<string>, alone: bool)
    decreases |cs|
  {
    cs == [] || (!PopsMarker(stack, cs[0]) && Tame(Step(stack, cs[0], alone), cs[1..], alone))
  }

  predicate PopsMarker(stack: seq<string>, c: string) {
    c == ".." && stack != [] && (stack[|stack| - 1] == "" || stack[|stack| - 1] == "..")
  }

  lemma {:induction false} WalkOn(at: Place, cs: seq<string>, c: string)
    ensures Walk(at, cs + [c]) == Move(Walk(at, cs), c)
    decreases |cs|
  {
    if cs == [] {
      assert cs + [c] == [c];
    } else {
      WalkOn(Move(at, cs[0]), cs[1..], c);
      assert (cs + [c])[1..] == cs[1..] + [c];
    }
  }

  /** A tame step of the reduction is a step of the walk. */
  lemma StepMoves(at: Place, stack: seq<string>, c: string, alone: bool)
    requires !PopsMarker(stack, c) && (alone ==> stack == []) && "." !in stack
    ensures Walk(at, Step(stack, c, alone)) == Move(Walk(at, stack), c)
  {
    WalkOn(at, stack, c);
    if c == ".." && stack != [] {
      var top := stack[|stack| - 1];
      assert top in stack;
      WalkOn(at, stack[..|stack| - 1], top);
      assert stack[..|stack| - 1] + [top] == stack;
    } else if c == ".." {
      assert stack + [c] == [c];
    }
  }

  lemma {:induction false} TameReduceKeepsWalk(at: Place, stack: seq<string>, cs: seq<string>, alone: bool)
    requires Tame(stack, cs, alone) && (alone ==> |cs| <= 1) && (cs != [] ==> "." !in stack)
    requires alone && cs != [] ==> stack == []
    ensures Walk(at, Reduce(stack, cs, alone)) == Walk(Walk(at, stack), cs)
    decreases |cs|
  {
    if cs != [] {
      StepMoves(at, stack, cs[0], alone);
      assert alone ==> cs[1..] == [];
      TameReduceKeepsWalk(at, Step(stack, cs[0], alone), cs[1..], alone);
    }
  }

  // ----- what happens otherwise -----

  /** How much deeper a walk ends than it began, if it does not meet the root. */
  function Net(cs: seq<string>): int {
    if cs == [] then 0 else NetOf(cs[0]) + Net(cs[1..])
  }

  function NetOf(c: string): int {
    if c == "." || c == "" then 0 else if c == ".." then -1 else 1
  }

  lemma {:induction false} NetOn(cs: seq<string>, c: string)
    ensures Net(cs + [c]) == Net(cs) + NetOf(c)
  {
    if cs == [] {
      assert cs + [c] == [c];
    } else {
      NetOn(cs[1..], c);
      assert (cs + [c])[1..] == cs[1..] + [c];
    }
  }

  lemma {:induction false} NetBound(cs: seq<string>)
    ensures -|cs| <= Net(cs) <= |cs|
  {
    if cs != [] {
      NetBound(cs[1..]);
    }
  }

  /** From deep enough, a walk without a root marker changes the depth by its net count. */
  lemma {:induction false} WalkDepth(at: Place, cs: seq<string>)
    requires "" !in cs && |at| >= |cs|
    ensures |Walk(at, cs)| == |at| + Net(cs)
    decreases |cs|
  {
    if cs != [] {
      assert cs[0] in cs;
      WalkDepth(Move(at, cs[0]), cs[1..]);
    }
  }

  lemma {:induction false} WalkGrowth(at: Place, cs: seq<string>)
    ensures |Walk(at, cs)| <= |at| + |cs|
    decreases |cs|
  {
    if cs != [] {
      WalkGrowth(Move(at, cs[0]), cs[1..]);
    }
  }

  /** Without a root marker, every removed `..` leaves the result two levels too deep. */
  lemma {:induction false} ReduceNet(stack: seq<string>, cs: seq<string>, alone: bool)
    requires "" !in stack && "" !in cs && (cs != [] ==> "." !in stack)
    requires alone ==> |cs| <= 1
    ensures "" !in Reduce(stack, cs, alone)
    ensures Net(Reduce(stack, cs, alone)) >= Net(stack) + Net(cs)
    ensures !Tame(stack, cs, alone) ==> Net(Reduce(stack, cs, alone)) > Net(stack) + Net(cs)
    decreases |cs|
  {
    if cs != [] {
      var c := cs[0];
      assert c in cs;
      StepNet(stack, c, alone);
      assert alone ==> cs[1..] == [];
      ReduceNet(Step(stack, c, alone), cs[1..], alone);
    }
  }

  lemma StepNet(stack: seq<string>, c: string, alone: bool)
    requires "" !in stack && c != "" && "." !in stack
    ensures "" !in Step(stack, c, alone) && (alone || "." !in Step(stack, c, alone))
    ensures Net(Step(stack, c, alone)) == Net(stack) + NetOf(c) + if PopsMarker(stack, c) then 2 else 0
  {
    NetOn(stack, c);
    if c == ".." && stack != [] {
      var top := stack[|stack| - 1];
      assert top in stack;
      NetOn(stack[..|stack| - 1], top);
      assert stack[..|stack| - 1] + [top] == stack;
    }
  }

  /** A rooted path that is not tame loses its root. */
  lemma {:induction false} RootLost(stack: seq<string>, cs: seq<string>)
    requires stack != [] && stack[0] == "" && "" !in cs && forall i :: 0 < i < |stack| ==> stack[i] != ""
    requires "." !in stack && ".." !in stack && !Tame(stack, cs, false)
    ensures "" !in Reduce(stack, cs, false)
    decreases |cs|
  {
    var c := cs[0];
    assert c in cs;
    if PopsMarker(stack, c) {
      var top := stack[|stack| - 1];
      assert top in stack;
      assert Step(stack, c, false) == [];
      ReduceNet([], cs[1..], false);
    } else {
      assert |stack| > 1 || c != "..";
      RootLost(Step(stack, c, false), cs[1..]);
    }
  }

  predicate IsRooted(path: string) {
    path != "" && path[0] == SLASH
  }

  predicate DenotesRoot(path: string) {
    IsRooted(path) && Walk([], Split(path)) == []
  }

  predicate IsTame(path: string) {
    Tame([], Split(path), |Split(path)| == 1)
  }

  /** The path and its canonical form lead to the same place from the working directory `at`. */
  predicate SamePlace(at: Place, path: string) {
    Walk(at, Split(Canonical(path))) == Walk(at, Split(path))
  }

  /** A rooted path has the empty component in front, and nowhere else. */
  lemma SplitMarksRoot(path: string)
    ensures var cs := Split(path);
            if IsRooted(path) then cs != [] && cs[0] == "" && "" !in cs[1..] else "" !in cs
  {
    SplitIsNormal(path);
    if IsRooted(path) {
      assert Split(path) == [""] + Rest("", path[1..], false);
    }
  }

  /** The stack of a tame rooted path keeps the root marker. */
  lemma {:induction false} RootKept(stack: seq<string>, cs: seq<string>)
    requires stack != [] && stack[0] == "" && Tame(stack, cs, false)
    ensures var r := Reduce(stack, cs, false); r != [] && r[0] == ""
    decreases |cs|
  {
    if cs != [] {
      RootKept(Step(stack, cs[0], false), cs[1..]);
    }
  }

  lemma {:induction false} WalkDown(at: Place, names: seq<string>)
    requires "" !in names && "." !in names && ".." !in names
    ensures Walk(at, names) == at + names
    decreases |names|
  {
    if names == [] {
      assert at + names == at;
    } else {
      assert names[0] in names;
      WalkDown(at + [names[0]], names[1..]);
      assert at + [names[0]] + names[1..] == at + names;
    }
  }

  /** A settled rooted list denotes the root only if it is the root marker alone. */
  lemma SettledRoot(at: Place, r: seq<string>)
    requires Settled(r) && r != [] && r[0] == ""
    ensures Walk(at, r) == r[1..]
  {
    WalkDown([], r[1..]);
  }

  /** A place to start from that is deep enough to tell two walks apart. */
  function Deep(n: nat): (at: Place)
    ensures |at| == n
  {
    seq(n, _ => "d")
  }

  /** For a path without a root: tame paths keep their meaning from everywhere, the others lose it
      from every working directory that is deep enough. */
  lemma RelativeMeaning(at: Place, path: string)
    requires !IsRooted(path)
    ensures IsTame(path) ==> SamePlace(at, path)
    ensures !IsTame(path) && |at| >= |Split(path)| + |Reduced(Split(path))| ==> !SamePlace(at, path)
  {
    var cs := Split(path);
    var r := Reduced(cs);
    SplitMarksRoot(path);
    ReducedIsSettled(path);
    ReduceNet([], cs, |cs| == 1);
    assert "" in [""];
    SplitJoinIff(r);
    if IsTame(path) {
      TameReduceKeepsWalk(at, [], cs, |cs| == 1);
    } else if |at| >= |cs| + |r| {
      WalkDepth(at, cs);
      WalkDepth(at, r);
    }
  }

  /** For a rooted path: tame paths other than the root keep their meaning, the others lose it. */
  lemma RootedMeaning(at: Place, path: string)
    requires IsRooted(path)
    ensures IsTame(path) && !DenotesRoot(path) ==> SamePlace(at, path)
    ensures IsTame(path) && DenotesRoot(path) && at != [] ==> !SamePlace(at, path)
    ensures !IsTame(path) && |at| > |Split(path)| + 2 * |Reduced(Split(path))| ==> !SamePlace(at, path)
  {
    var cs := Split(path);
    var r := Reduced(cs);
    SplitMarksRoot(path);
    ReducedIsSettled(path);
    SplitJoinIff(r);
    var alone := |cs| == 1;
    assert [] + [""] == [""];
    assert Step([], "", alone) == [""];
    assert r == Reduce([""], cs[1..], alone);
    if IsTame(path) {
      assert Tame([""], cs[1..], alone);
      if alone {
        assert cs[1..] == [];
      } else {
        RootKept([""], cs[1..]);
      }
      TameReduceKeepsWalk([], [], cs, alone);
      TameReduceKeepsWalk(at, [], cs, alone);
      SettledRoot([], r);
      SettledRoot(at, r);
    } else {
      assert alone ==> cs[1..] == [];
      assert !Tame([""], cs[1..], alone);
      RootLost([""], cs[1..]);
      WalkGrowth([], cs[1..]);
      NetBound(r);
      if |at| > |cs| + 2 * |r| {
        WalkDepth(at, r);
        assert Walk(at, cs) == Walk([], cs[1..]);
        assert "" in [""];
      }
    }
  }

  /** Canonicalizing keeps the meaning of a path, wherever it is resolved from, exactly when no
      `..` in it removes the root or an earlier kept `..`, and it does not denote the root. */
  lemma CanonicalKeepsMeaningIff(path: string)
    ensures (forall at: Place :: SamePlace(at, path)) <==> IsTame(path) && !DenotesRoot(path)
  {
    var far := Deep(|Split(path)| + 2 * |Reduced(Split(path))| + 1);
    if IsRooted(path) {
      RootedMeaning(far, path);
      forall at: Place
        ensures IsTame(path) && !DenotesRoot(path) ==> SamePlace(at, path)
      {
        RootedMeaning(at, path);
      }
    } else {
      RelativeMeaning(far, path);
      forall at: Place
        ensures IsTame(path) ==> SamePlace(at, path)
      {
        RelativeMeaning(at, path);
      }
    }
  }

  /** Two leading parents cancel, and a parent of the root makes the path relative. */
  lemma ParentsAreLost()
    ensures Canonical("../..") == "" && Canonical("/../a") == "a" && Canonical("/") == ""
  {
    assert Split("../..") == ["..", ".."] by {
      SplitJoinIff(["..", ".."]);
      assert Join(["..", ".."]) == "../..";
    }
    assert Split("/../a") == ["", "..", "a"] by {
      SplitJoinIff(["", "..", "a"]);
      assert Join(["..", "a"]) == "../a";
      assert Join(["", "..", "a"]) == "/../a";
    }
    assert Split("/") == [""];
  }
}
