/** The mask matcher of common/StringUtil.cpp, for an arbitrary character equality.

    Strings are NUL-terminated in the source: the end of a sequence stands for the NUL, which is
    neither a wildcard nor equal to a character of the subject. A null cursor is 0: a remembered
    mask position always follows a star. */
module Wildcards {

  type Equality = (char, char) -> bool

  predicate Agrees(eq: Equality, mask: char, c: char) {
    mask == '?' || eq(mask, c)
  }

  /** `mask[m..]` matches `subject[s..]`: `*` stands for any run of characters, `?` for any one. */
  ghost predicate Glob(eq: Equality, mask: string, subject: string, m: nat, s: nat)
    requires m <= |mask| && s <= |subject|
    decreases |mask| - m, 0
  {
    if m == |mask| then s == |subject|
    else if mask[m] == '*' then GlobFrom(eq, mask, subject, m + 1, s)
    else s < |subject| && Agrees(eq, mask[m], subject[s]) && Glob(eq, mask, subject, m + 1, s + 1)
  }

  /** `mask[m..]` matches some end of the subject that starts at `s` or later. */
  ghost predicate GlobFrom(eq: Equality, mask: string, subject: string, m: nat, s: nat)
    requires m <= |mask| && s <= |subject|
    decreases |mask| - m, 1
  {
    exists k: nat :: s <= k <= |subject| && Glob(eq, mask, subject, m, k)
  }

  /** `n` mask characters from `m`, none a star, match the subject from `s` one by one. */
  ghost predicate Segment(eq: Equality, mask: string, subject: string, m: nat, s: nat, n: nat)
    requires m + n <= |mask|
  {
    && s + n <= |subject|
    && forall i :: m <= i < m + n ==> mask[i] != '*' && Agrees(eq, mask[i], subject[i - m + s])
  }

  /** A stretch of mask without stars matches exactly where its characters do. */
  lemma {:induction false} GlobSegment(eq: Equality, mask: string, subject: string, m: nat, s: nat, n: nat)
    requires m + n <= |mask| && s <= |subject|
    requires forall i :: m <= i < m + n ==> mask[i] != '*'
    ensures Glob(eq, mask, subject, m, s)
       <==> Segment(eq, mask, subject, m, s, n) && Glob(eq, mask, subject, m + n, s + n)
    decreases n
  {
    if n > 0 {
      if s < |subject| && Agrees(eq, mask[m], subject[s]) {
        GlobSegment(eq, mask, subject, m + 1, s + 1, n - 1);
        SegmentFromHead(eq, mask, subject, m, s, n);
      }
    }
  }

  lemma SegmentFromHead(eq: Equality, mask: string, subject: string, m: nat, s: nat, n: nat)
    requires 0 < n && m + n <= |mask| && s < |subject|
    requires mask[m] != '*' && Agrees(eq, mask[m], subject[s])
    ensures Segment(eq, mask, subject, m, s, n) <==> Segment(eq, mask, subject, m + 1, s + 1, n - 1)
  {
  }

  /** A mask without stars matches the texts of its length that agree with it character by character, where a
      question mark agrees with every character. */
  lemma StarlessIff(eq: Equality, mask: string, subject: string)
    requires '*' !in mask
    ensures Glob(eq, mask, subject, 0, 0)
       <==> |mask| == |subject| && forall i :: 0 <= i < |mask| ==> mask[i] == '?' || eq(mask[i], subject[i])
  {
    GlobSegment(eq, mask, subject, 0, 0, |mask|);
  }

  /** A star at the front stands for any beginning of the text. */
  lemma StarIff(eq: Equality, mask: string, subject: string)
    requires mask != [] && mask[0] == '*'
    ensures Glob(eq, mask, subject, 0, 0) <==> exists k: nat :: k <= |subject| && Glob(eq, mask[1..], subject[k..], 0, 0)
  {
    forall k: nat | k <= |subject|
      ensures Glob(eq, mask, subject, 1, k) <==> Glob(eq, mask[1..], subject[k..], 0, 0)
    {
      GlobShifts(eq, mask, subject, 1, k, 0, 0);
    }
    if Glob(eq, mask, subject, 0, 0) {
      assert GlobFrom(eq, mask, subject, 1, 0);
      var k: nat :| k <= |subject| && Glob(eq, mask, subject, 1, k);
      assert Glob(eq, mask[1..], subject[k..], 0, 0);
    }
  }

  /** Only what is left of mask and text matters. */
  lemma {:induction false} GlobShifts(eq: Equality, mask: string, subject: string, a: nat, b: nat, m: nat, s: nat)
    requires a + m <= |mask| && b + s <= |subject|
    ensures Glob(eq, mask, subject, a + m, b + s) <==> Glob(eq, mask[a..], subject[b..], m, s)
    decreases |mask| - a - m
  {
    if a + m < |mask| {
      if mask[a + m] == '*' {
        if GlobFrom(eq, mask, subject, a + m + 1, b + s) {
          var j: nat :| b + s <= j <= |subject| && Glob(eq, mask, subject, a + m + 1, j);
          GlobShifts(eq, mask, subject, a, b, m + 1, j - b);
        }
        if GlobFrom(eq, mask[a..], subject[b..], m + 1, s) {
          var k: nat :| s <= k <= |subject[b..]| && Glob(eq, mask[a..], subject[b..], m + 1, k);
          GlobShifts(eq, mask, subject, a, b, m + 1, k);
        }
      } else if b + s < |subject| {
        GlobShifts(eq, mask, subject, a, b, m + 1, s + 1);
      }
    }
  }

  /** What backtracking to the latest star relies on: the earlier stars need never be revisited.
      The star before `mp` is being tried from `c`, and the `n` characters after it match there. */
  ghost predicate Pending(eq: Equality, mask: string, subject: string, mp: nat, c: nat, n: nat)
    requires 0 < mp && mp + n <= |mask| && c + n <= |subject|
  {
    && Segment(eq, mask, subject, mp, c, n)
    && (Glob(eq, mask, subject, 0, 0) <==> GlobFrom(eq, mask, subject, mp, c))
  }

  /** A further star makes the earlier one's choice final. */
  lemma NextStar(eq: Equality, mask: string, subject: string, mp: nat, c: nat, n: nat)
    requires 0 < mp && mp + n < |mask| && c + n <= |subject|
    requires Pending(eq, mask, subject, mp, c, n) && mask[mp + n] == '*'
    ensures Glob(eq, mask, subject, 0, 0) <==> Glob(eq, mask, subject, mp + n, c + n)
  {
    if Glob(eq, mask, subject, 0, 0) {
      assert GlobFrom(eq, mask, subject, mp, c);
      var k: nat :| c <= k <= |subject| && Glob(eq, mask, subject, mp, k);
      GlobSegment(eq, mask, subject, mp, k, n);
      var j: nat :| k + n <= j <= |subject| && Glob(eq, mask, subject, mp + n + 1, j);
      assert Glob(eq, mask, subject, mp + n, c + n);
    }
    if Glob(eq, mask, subject, mp + n, c + n) {
      GlobSegment(eq, mask, subject, mp, c, n);
      assert GlobFrom(eq, mask, subject, mp, c);
    }
  }

  /** The characters before the first star are matched, which leaves the mask from it on. */
  ghost predicate AtFirstStar(eq: Equality, mask: string, subject: string, m: nat, s: nat)
    requires m <= |mask| && s <= |subject|
  {
    && (s < |subject| ==> m < |mask| && mask[m] == '*')
    && (Glob(eq, mask, subject, 0, 0) <==> Glob(eq, mask, subject, m, s))
  }

  /** The latest star becomes the one to backtrack to; a last star matches everything. */
  lemma StarTakesOver(eq: Equality, mask: string, subject: string, m: nat, s: nat)
    requires m < |mask| && s <= |subject| && mask[m] == '*'
    requires Glob(eq, mask, subject, 0, 0) <==> Glob(eq, mask, subject, m, s)
    ensures Pending(eq, mask, subject, m + 1, s, 0)
    ensures m + 1 == |mask| ==> Glob(eq, mask, subject, 0, 0)
  {
    if m + 1 == |mask| {
      assert Glob(eq, mask, subject, m + 1, |subject|);
    }
  }

  /** One more matching character. */
  lemma LongerSegment(eq: Equality, mask: string, subject: string, mp: nat, c: nat, n: nat)
    requires 0 < mp && mp + n < |mask| && c + n < |subject|
    requires Pending(eq, mask, subject, mp, c, n)
    requires mask[mp + n] != '*' && Agrees(eq, mask[mp + n], subject[c + n])
    ensures Pending(eq, mask, subject, mp, c, n + 1)
  {
  }

  /** A mismatch rules out this position of the star, and no other. */
  lemma Backtrack(eq: Equality, mask: string, subject: string, mp: nat, c: nat, n: nat)
    requires 0 < mp && mp + n <= |mask| && c + n < |subject|
    requires Pending(eq, mask, subject, mp, c, n)
    requires mp + n < |mask| ==> mask[mp + n] != '*' && !Agrees(eq, mask[mp + n], subject[c + n])
    ensures Pending(eq, mask, subject, mp, c + 1, 0)
  {
    GlobSegment(eq, mask, subject, mp, c, n);
    assert !Glob(eq, mask, subject, mp, c);
    if Glob(eq, mask, subject, 0, 0) {
      assert GlobFrom(eq, mask, subject, mp, c);
      var k: nat :| c <= k <= |subject| && Glob(eq, mask, subject, mp, k);
      assert c + 1 <= k;
    }
  }

  /** With the subject used up, the rest of the mask decides. */
  lemma SubjectEnds(eq: Equality, mask: string, subject: string, mp: nat, c: nat, n: nat)
    requires 0 < mp && mp + n <= |mask| && c + n == |subject|
    requires Pending(eq, mask, subject, mp, c, n)
    ensures Glob(eq, mask, subject, 0, 0) <==> Glob(eq, mask, subject, mp + n, |subject|)
  {
    if Glob(eq, mask, subject, 0, 0) {
      assert GlobFrom(eq, mask, subject, mp, c);
      var k: nat :| c <= k <= |subject| && Glob(eq, mask, subject, mp, k);
      GlobSegment(eq, mask, subject, mp, k, n);
      assert k == c;
    }
    if Glob(eq, mask, subject, mp + n, |subject|) {
      GlobSegment(eq, mask, subject, mp, c, n);
      assert GlobFrom(eq, mask, subject, mp, c);
    }
  }

  /** The scan up to the first star: every character has one place to match. */
  method MatchHead(eq: Equality, subject: string, mask: string) returns (failed: bool, m: nat, s: nat)
    ensures failed ==> !Glob(eq, mask, subject, 0, 0)
    ensures !failed ==> m <= |mask| && s <= |subject| && (s < |subject| ==> m < |mask| && mask[m] == '*')
    ensures !failed ==> (Glob(eq, mask, subject, 0, 0) <==> Glob(eq, mask, subject, m, s))
  {
    failed, m, s := false, 0, 0;
    while s < |subject| && !(m < |mask| && mask[m] == '*')
      invariant m <= |mask| && s <= |subject|
      invariant Glob(eq, mask, subject, 0, 0) <==> Glob(eq, mask, subject, m, s)
    {
      if m == |mask| || !Agrees(eq, mask[m], subject[s]) {
        return true, m, s;
      }
      m, s := m + 1, s + 1;
    }
  }

  /** The whole matcher: greedy, backtracking only to the latest star. */
  method WildcardMatch(eq: Equality, subject: string, mask: string) returns (matches: bool)
    ensures matches <==> Glob(eq, mask, subject, 0, 0)
  {
    var failed: bool, m: nat, s: nat := MatchHead(eq, subject, mask);
    if failed {
      return false;
    }
    var mp: nat, cp: nat := 0, 0;
    while s < |subject|
      invariant mp <= m <= |mask| && s <= |subject|
      invariant mp == 0 ==> AtFirstStar(eq, mask, subject, m, s)
      invariant mp > 0 ==> 0 < cp <= |subject| + 1 && s - (cp - 1) == m - mp
      invariant mp > 0 ==> Pending(eq, mask, subject, mp, cp - 1, m - mp)
      decreases |mask| - mp, |subject| + 1 - cp, |subject| - s
    {
      if m < |mask| && mask[m] == '*' {
        if mp > 0 {
          NextStar(eq, mask, subject, mp, cp - 1, m - mp);
        }
        StarTakesOver(eq, mask, subject, m, s);
        m := m + 1;
        if m == |mask| {
          return true;
        }
        mp, cp := m, s + 1;
      } else if m < |mask| && Agrees(eq, mask[m], subject[s]) {
        LongerSegment(eq, mask, subject, mp, cp - 1, m - mp);
        m, s := m + 1, s + 1;
      } else {
        Backtrack(eq, mask, subject, mp, cp - 1, m - mp);
        m, s, cp := mp, cp, cp + 1;
      }
    }
    if mp > 0 {
      SubjectEnds(eq, mask, subject, mp, cp - 1, m - mp);
    }
    matches := OnlyStarsLeft(eq, subject, mask, m);
  }

  /** Trailing stars match the empty rest of the subject, nothing else does. */
  method OnlyStarsLeft(eq: Equality, subject: string, mask: string, from: nat) returns (matches: bool)
    requires from <= |mask|
    ensures matches <==> Glob(eq, mask, subject, from, |subject|)
  {
    var m := from;
    while m < |mask| && mask[m] == '*'
      invariant m <= |mask|
      invariant Glob(eq, mask, subject, from, |subject|) <==> Glob(eq, mask, subject, m, |subject|)
    {
      m := m + 1;
    }
    matches := m == |mask|;
  }

  /** The public entry point. Asking for a case-sensitive match selects the comparison that folds
      case, and the other way round. */
  method Match(lower: char -> char, subject: string, mask: string, caseSensitive: bool) returns (matches: bool)
    ensures caseSensitive ==> (matches <==> Glob((a, b) => lower(a) == lower(b), mask, subject, 0, 0))
    ensures !caseSensitive ==> (matches <==> Glob((a, b) => a == b, mask, subject, 0, 0))
  {
    if caseSensitive {
      matches := WildcardMatch((a, b) => lower(a) == lower(b), subject, mask);
    } else {
      matches := WildcardMatch((a, b) => a == b, subject, mask);
    }
  }
}
