/**
 `sanitize_llm_text` of `llm/client.py`: three regex passes that collapse runaway repetition, then a
 right trim. A text is read as runs: maximal stretches of horizontal whitespace, of newlines, or of
 one and the same visible character.
 */
module Sanitize {
  import opened Text

  const HSPACE_LIMIT := 40
  const BLANKS_LIMIT := 10
  const CHAR_LIMIT := 60

  /** The character a run is named after: horizontal whitespace is all one kind. */
  function Kind(c: char): char {
    if IsSpace(c) && c != '\n' then ' ' else c
  }

  predicate Uniform(s: string) {
    forall i | 0 <= i < |s| :: Kind(s[i]) == Kind(s[0])
  }

  /** Length of the run at the front of `s`. */
  function RunLength(s: string): (n: nat)
    requires s != ""
    ensures 1 <= n <= |s| && Uniform(s[..n])
    ensures n < |s| ==> Kind(s[n]) != Kind(s[0])
  {
    if |s| > 1 && Kind(s[1]) == Kind(s[0]) then
      var n := RunLength(s[1..]);
      assert forall i | 0 < i < 1 + n :: s[i] == s[1..][..n][i - 1];
      1 + n
    else 1
  }

  lemma RunLengthUnique(s: string, n: nat)
    requires 1 <= n <= |s| && Uniform(s[..n]) && (n < |s| ==> Kind(s[n]) != Kind(s[0]))
    ensures RunLength(s) == n
  {
    var m := RunLength(s);
    assert m < |s| ==> Kind(s[m]) != Kind(s[0]);
    assert forall i | 0 <= i < n :: Kind(s[..n][i]) == Kind(s[i]);
    assert forall i | 0 <= i < m :: Kind(s[..m][i]) == Kind(s[i]);
  }

  /** The three substitutions in the order of the code, all of them at once, and the run skeleton. */
  datatype Pass = HSpace | Blanks | Chars | All | Skeleton

  /** What a pass makes of one run. */
  function Rewrite(p: Pass, run: string): string
    requires run != ""
  {
    match p
    case HSpace => if Kind(run[0]) == ' ' && |run| >= HSPACE_LIMIT then " " else run
    case Blanks => if run[0] == '\n' && |run| >= BLANKS_LIMIT then "\n\n" else run
    case Chars => if !IsSpace(run[0]) && |run| >= CHAR_LIMIT then [run[0], run[0], run[0]] else run
    case All => if |run| >= Limit(run[0]) then Stub(run[0]) else run
    case Skeleton => [Kind(run[0])]
  }

  function Limit(c: char): nat {
    if c == '\n' then BLANKS_LIMIT else if IsSpace(c) then HSPACE_LIMIT else CHAR_LIMIT
  }

  function Stub(c: char): string {
    if c == '\n' then "\n\n" else if IsSpace(c) then " " else [c, c, c]
  }

  /** `re.sub` over maximal runs. */
  function Sub(p: Pass, s: string): string
    decreases |s|
  {
    if s == "" then "" else Rewrite(p, s[..RunLength(s)]) + Sub(p, s[RunLength(s)..])
  }

  /** `(clean_text, changed)` */
  function Sanitized(text: string): (string, bool) {
    if text == "" then (text, false)
    else
      var cleaned := Sub(Chars, Sub(Blanks, Sub(HSpace, text)));
      (StripRight(cleaned), cleaned != text)
  }

  /** A run too long for its kind starts at `i`. */
  predicate RunawayAt(s: string, i: nat) {
    i < |s| && i + Limit(s[i]) <= |s| && Uniform(s[i..i + Limit(s[i])])
  }

  ghost predicate HasRunaway(s: string) {
    exists i: nat :: RunawayAt(s, i)
  }

  // ---------------------------------------------------------------------------------------
  // One pass
  // ---------------------------------------------------------------------------------------

  lemma RewriteKeepsKind(p: Pass, run: string)
    requires run != "" && Uniform(run)
    ensures var r := Rewrite(p, run);
            && r != "" && |r| <= |run| && Uniform(r) && Kind(r[0]) == Kind(run[0])
            && (p.All? ==> |r| < Limit(run[0]) && Limit(r[0]) == Limit(run[0]))
  {
    if p.All? && |run| >= Limit(run[0]) {
      assert |Stub(run[0])| <= 3 && Stub(run[0])[0] == Kind(run[0]);
      assert forall i | 0 <= i < |Stub(run[0])| :: Stub(run[0])[i] == Stub(run[0])[0];
    }
  }

  /** The front of a substituted text keeps its kind. */
  lemma SubKeepsFront(p: Pass, s: string)
    ensures s == "" <==> Sub(p, s) == ""
    ensures s != "" ==> Kind(Sub(p, s)[0]) == Kind(s[0])
  {
    if s != "" {
      RewriteKeepsKind(p, s[..RunLength(s)]);
    }
  }

  /** The first run of a substituted text is the rewritten first run. */
  lemma FrontRun(p: Pass, s: string)
    requires s != ""
    ensures var run, rest := s[..RunLength(s)], s[RunLength(s)..];
            && Sub(p, s) == Rewrite(p, run) + Sub(p, rest)
            && Sub(p, s) != "" && RunLength(Sub(p, s)) == |Rewrite(p, run)|
            && Sub(p, s)[..|Rewrite(p, run)|] == Rewrite(p, run)
            && Sub(p, s)[|Rewrite(p, run)|..] == Sub(p, rest)
  {
    var n := RunLength(s);
    var run, rest := s[..n], s[n..];
    RewriteKeepsKind(p, run);
    SubKeepsFront(p, rest);
    var t, m := Sub(p, s), |Rewrite(p, run)|;
    assert t[..m] == Rewrite(p, run) && t[m..] == Sub(p, rest);
    if m < |t| {
      assert t[m] == Sub(p, rest)[0];
      assert Kind(t[m]) == Kind(rest[0]) == Kind(s[n]);
    }
    RunLengthUnique(t, m);
  }

  /** Three passes in a row act on every run separately. */
  lemma {:induction false} PassesCompose(s: string)
    ensures Sub(Chars, Sub(Blanks, Sub(HSpace, s))) == Sub(All, s)
    decreases |s|
  {
    if s != "" {
      var n := RunLength(s);
      var run := s[..n];
      PassesCompose(s[n..]);
      FrontRun(HSpace, s);
      FrontRun(Blanks, Sub(HSpace, s));
      RewriteKeepsKind(HSpace, run);
      RewriteKeepsKind(Blanks, Rewrite(HSpace, run));
      assert Rewrite(Chars, Rewrite(Blanks, Rewrite(HSpace, run))) == Rewrite(All, run);
      FrontRun(Chars, Sub(Blanks, Sub(HSpace, s)));
      FrontRun(All, s);
    }
  }

  lemma {:induction false} SubNeverLengthens(p: Pass, s: string)
    ensures |Sub(p, s)| <= |s|
    decreases |s|
  {
    if s != "" {
      RewriteKeepsKind(p, s[..RunLength(s)]);
      SubNeverLengthens(p, s[RunLength(s)..]);
    }
  }

  // ---------------------------------------------------------------------------------------
  // Runaway runs
  // ---------------------------------------------------------------------------------------

  lemma UniformPart(s: string, i: nat, j: nat)
    requires Uniform(s) && i <= j <= |s|
    ensures Uniform(s[i..j])
  {
    if i < j {
      assert forall k | 0 <= k < j - i :: s[i..j][k] == s[i + k];
      assert Kind(s[i]) == Kind(s[0]);
    }
  }

  lemma UniformAcross(s: string, i: nat, n: nat, m: nat)
    requires i + n <= |s| && Uniform(s[i..i + n]) && i <= m < i + n
    ensures Kind(s[m]) == Kind(s[i])
  {
    assert s[i..i + n][m - i] == s[m] && s[i..i + n][0] == s[i];
  }

  lemma SameLimit(a: char, b: char)
    requires Kind(a) == Kind(b)
    ensures Limit(a) == Limit(b)
  {}

  /** A runaway stretch of `a + b`, where the kinds change at the seam, lies in one of the parts. */
  lemma RunawayInOnePart(a: string, b: string)
    requires a != "" && Uniform(a) && (b != "" ==> Kind(b[0]) != Kind(a[0]))
    ensures HasRunaway(a + b) <==> |a| >= Limit(a[0]) || HasRunaway(b)
  {
    var s := a + b;
    if i: nat :| RunawayAt(s, i) {
      var n := Limit(s[i]);
      if i < |a| {
        SameLimit(s[i], a[0]);
        if i + n > |a| {
          UniformAcross(s, i, n, |a|);
        }
      } else {
        assert b[i - |a|..i - |a| + n] == s[i..i + n] && b[i - |a|] == s[i];
        assert RunawayAt(b, i - |a|);
      }
    }
    if |a| >= Limit(a[0]) {
      UniformPart(a, 0, Limit(a[0]));
      assert s[0..Limit(a[0])] == a[0..Limit(a[0])];
      assert RunawayAt(s, 0);
    }
    if i: nat :| RunawayAt(b, i) {
      var n := Limit(b[i]);
      assert s[|a| + i..|a| + i + n] == b[i..i + n] && s[|a| + i] == b[i];
      assert RunawayAt(s, |a| + i);
    }
  }

  /** Collapsing changes a text exactly when it has a runaway run, and leaves none. */
  lemma {:induction false} CollapseIffRunaway(s: string)
    ensures Sub(All, s) != s <==> HasRunaway(s)
    ensures !HasRunaway(Sub(All, s))
    decreases |s|
  {
    if s != "" {
      var n := RunLength(s);
      var run, rest := s[..n], s[n..];
      assert s == run + rest;
      CollapseIffRunaway(rest);
      RewriteKeepsKind(All, run);
      RunawayInOnePart(run, rest);
      SubKeepsFront(All, rest);
      RunawayInOnePart(Rewrite(All, run), Sub(All, rest));
      SubNeverLengthens(All, rest);
      if |run| < Limit(run[0]) {
        assert Sub(All, s) == run + Sub(All, rest);
        if Sub(All, s) == s {
          assert Sub(All, rest) == Sub(All, s)[n..] == rest;
        }
      } else {
        assert |Rewrite(All, run)| < |run|;
        assert |Sub(All, s)| < |s|;
      }
    }
  }

  /**
   What a runaway run is: forty or more horizontal white-space characters, ten or more newlines, or
   sixty or more times the same visible character.
   */
  lemma RunawayInNumbers(s: string, i: nat)
    ensures RunawayAt(s, i) <==>
            || (i + 40 <= |s| && forall k | i <= k < i + 40 :: IsSpace(s[k]) && s[k] != '\n')
            || (i + 10 <= |s| && forall k | i <= k < i + 10 :: s[k] == '\n')
            || (i + 60 <= |s| && forall k | i <= k < i + 60 :: !IsSpace(s[k]) && s[k] == s[i])
  {
    if i < |s| && i + Limit(s[i]) <= |s| {
      var part := s[i..i + Limit(s[i])];
      forall k | i <= k < i + Limit(s[i]) ensures s[k] == part[k - i] {}
      assert Uniform(part) <==> forall k | i <= k < i + Limit(s[i]) :: Kind(s[k]) == Kind(s[i]) by {
        if forall k | i <= k < i + Limit(s[i]) :: Kind(s[k]) == Kind(s[i]) {
          assert forall j | 0 <= j < |part| :: part[j] == s[i + j];
        }
        if Uniform(part) {
          forall k | i <= k < i + Limit(s[i]) ensures Kind(s[k]) == Kind(s[i]) {
            assert part[k - i] == s[k] && part[0] == s[i];
          }
        }
      }
    }
  }

  lemma RunawayInPrefix(s: string, n: nat)
    requires n <= |s| && HasRunaway(s[..n])
    ensures HasRunaway(s)
  {
    var i: nat :| RunawayAt(s[..n], i);
    var m := Limit(s[i]);
    assert s[..n][i..i + m] == s[i..i + m];
    assert RunawayAt(s, i);
  }

  lemma StripRightIsPrefix(s: string)
    ensures |StripRight(s)| <= |s| && StripRight(s) == s[..|StripRight(s)|]
    ensures StripRight(StripRight(s)) == StripRight(s)
  {
    var r := StripRightSplits(s);
  }

  // ---------------------------------------------------------------------------------------
  // The whole function
  // ---------------------------------------------------------------------------------------

  /**
   The result never grows, has no runaway run left, is trimmed, and is marked changed exactly when the
   input had a runaway run; a healthy text is only trimmed.
   */
  lemma SanitizedIsClean(text: string)
    ensures var (clean, changed) := Sanitized(text);
            && |clean| <= |text|
            && !HasRunaway(clean)
            && (clean != "" ==> !IsSpace(clean[|clean| - 1]))
            && (changed <==> HasRunaway(text))
            && (!changed ==> clean == StripRight(text))
  {
    NoTextNoRunaway();
    hide Sub, HasRunaway, StripRight, IsSpace;
    PassesCompose(text);
    SubNeverLengthens(All, text);
    CollapseIffRunaway(text);
    var cleaned := Sub(All, text);
    var r := StripRightSplits(cleaned);
    StripRightIsPrefix(cleaned);
    if HasRunaway(StripRight(cleaned)) {
      RunawayInPrefix(cleaned, |StripRight(cleaned)|);
    }
  }

  lemma NoTextNoRunaway()
    ensures !HasRunaway("") && StripRight("") == ""
  {}

  /** Sanitising twice is sanitising once, and the second time nothing is flagged. */
  lemma SanitizedIsIdempotent(text: string)
    ensures var clean := Sanitized(text).0;
            Sanitized(clean) == (clean, false)
  {
    hide Sub, HasRunaway, StripRight, IsSpace;
    SanitizedIsClean(text);
    var clean := Sanitized(text).0;
    SanitizedIsClean(clean);
    StripRightIsPrefix(Sub(Chars, Sub(Blanks, Sub(HSpace, text))));
  }

  // ---------------------------------------------------------------------------------------
  // The skeleton survives
  // ---------------------------------------------------------------------------------------

  lemma {:induction false} CollapseKeepsSkeleton(s: string)
    ensures Sub(Skeleton, Sub(All, s)) == Sub(Skeleton, s)
    decreases |s|
  {
    if s != "" {
      var n := RunLength(s);
      FrontRun(All, s);
      RewriteKeepsKind(All, s[..n]);
      CollapseKeepsSkeleton(s[n..]);
    }
  }

  lemma {:induction false} AllSpaceSkeleton(s: string)
    requires AllSpace(s)
    ensures AllSpace(Sub(Skeleton, s))
    decreases |s|
  {
    if s != "" {
      AllSpaceSkeleton(s[RunLength(s)..]);
    }
  }

  /** What follows with a change of kind does not lengthen the front run. */
  lemma FrontRunSplits(a: string, b: string)
    requires a != "" && (b != "" ==> Kind(a[|a| - 1]) != Kind(b[0]))
    ensures RunLength(a + b) == RunLength(a)
  {
    var n := RunLength(a);
    var s := a + b;
    assert s[..n] == a[..n];
    if n < |a| {
      assert s[n] == a[n];
    } else {
      assert a[..n] == a;
      assert Kind(a[|a| - 1]) == Kind(a[0]);
      if b != "" { assert s[n] == b[0]; }
    }
    hide Uniform;
    RunLengthUnique(s, n);
  }

  /** A substitution works on the two sides of a change of kind separately. */
  lemma {:induction false} SubSplits(p: Pass, a: string, b: string)
    requires a != "" && b != "" ==> Kind(a[|a| - 1]) != Kind(b[0])
    ensures Sub(p, a + b) == Sub(p, a) + Sub(p, b)
    decreases |a|
  {
    hide Kind, Uniform, RunLength, Rewrite, Sub;
    if a == "" {
      assert a + b == b;
      SubOfNothing(p);
      assert "" + Sub(p, b) == Sub(p, b);
    } else {
      var n := RunLength(a);
      FrontRunSplits(a, b);
      assert (a + b)[..n] == a[..n];
      assert (a + b)[n..] == a[n..] + b;
      if n < |a| {
        assert a[n..][|a[n..]| - 1] == a[|a| - 1];
      }
      SubSplits(p, a[n..], b);
      SubUnfolds(p, a);
      SubUnfolds(p, a + b);
      var first := Rewrite(p, a[..n]);
      assert first + (Sub(p, a[n..]) + Sub(p, b)) == (first + Sub(p, a[n..])) + Sub(p, b);
    }
  }

  lemma SubOfNothing(p: Pass)
    ensures Sub(p, "") == ""
  {}

  lemma SubUnfolds(p: Pass, s: string)
    requires s != ""
    ensures Sub(p, s) == Rewrite(p, s[..RunLength(s)]) + Sub(p, s[RunLength(s)..])
  {}

  /** What collapsing makes of a whole run, wherever it stands. */
  lemma RunBecomes(a: string, run: string, b: string)
    requires run != "" && Uniform(run)
    requires (a != "" ==> Kind(a[|a| - 1]) != Kind(run[0])) && (b != "" ==> Kind(b[0]) != Kind(run[0]))
    ensures Sub(All, a + run + b) == Sub(All, a) +
              (if run[0] == '\n' then (if |run| >= 10 then "\n\n" else run)
               else if IsSpace(run[0]) then (if |run| >= 40 then " " else run)
               else if |run| >= 60 then [run[0], run[0], run[0]] else run)
              + Sub(All, b)
  {
    hide Sub, Kind, Uniform, IsSpace;
    OneRun(run);
    RunsApart(a, run, b);
  }

  lemma RunsApart(a: string, run: string, b: string)
    requires run != "" && Uniform(run)
    requires (a != "" ==> Kind(a[|a| - 1]) != Kind(run[0])) && (b != "" ==> Kind(b[0]) != Kind(run[0]))
    ensures Sub(All, a + run + b) == Sub(All, a) + Sub(All, run) + Sub(All, b)
  {
    hide Sub;
    assert Kind(run[|run| - 1]) == Kind(run[0]);
    hide Kind, Uniform;
    assert (run + b)[0] == run[0];
    SubSplits(All, a, run + b);
    SubSplits(All, run, b);
    assert a + run + b == a + (run + b);
  }

  lemma OneRun(run: string)
    requires run != "" && Uniform(run)
    ensures Sub(All, run) ==
            if run[0] == '\n' then (if |run| >= 10 then "\n\n" else run)
            else if IsSpace(run[0]) then (if |run| >= 40 then " " else run)
            else if |run| >= 60 then [run[0], run[0], run[0]] else run
  {
    assert run[..|run|] == run && run[|run|..] == "";
    RunLengthUnique(run, |run|);
    assert Sub(All, "") == "";
  }

  lemma SpaceEndsVisible(a: string, b: string)
    requires a != "" && !IsSpace(a[|a| - 1]) && AllSpace(b)
    ensures b != "" ==> Kind(a[|a| - 1]) != Kind(b[0])
  {}

  lemma {:induction false} StripRightOfSum(a: string, b: string)
    requires AllSpace(b) && (a != "" ==> !IsSpace(a[|a| - 1]))
    ensures StripRight(a + b) == a
    decreases |b|
  {
    if b != "" {
      assert (a + b)[..|a + b| - 1] == a + b[..|b| - 1];
      StripRightOfSum(a, b[..|b| - 1]);
    } else {
      assert a + b == a;
    }
  }

  lemma {:induction false} SkeletonEndsAlike(s: string)
    requires s != ""
    ensures var t := Sub(Skeleton, s); t != "" && t[|t| - 1] == Kind(s[|s| - 1])
    decreases |s|
  {
    var n := RunLength(s);
    if n < |s| {
      SkeletonEndsAlike(s[n..]);
    } else {
      assert s[..n] == s;
    }
  }

  /** The sequence of runs survives sanitising, up to trailing whitespace. */
  lemma SkeletonSurvives(text: string)
    ensures Sub(Skeleton, Sanitized(text).0) == StripRight(Sub(Skeleton, text))
  {
    EmptySkeleton();
    PassesCompose(text);
    hide Sub, StripRight, IsSpace, AllSpace;
    var cleaned := Sub(All, text);
    CollapseKeepsSkeleton(text);
    SkeletonOfTrimmed(cleaned);
  }

  lemma EmptySkeleton()
    ensures Sub(Skeleton, "") == "" && Sub(All, "") == "" && StripRight("") == ""
  {}

  lemma SkeletonOfTrimmed(s: string)
    ensures Sub(Skeleton, StripRight(s)) == StripRight(Sub(Skeleton, s))
  {
    var r := StripRightSplits(s);
    var a := StripRight(s);
    EmptySkeleton();
    AllSpaceSkeleton(r);
    hide Sub, StripRight;
    if a != "" {
      SpaceEndsVisible(a, r);
      SubSplits(Skeleton, a, r);
      SkeletonEndsAlike(a);
    } else {
      assert s == r && Sub(Skeleton, a) + Sub(Skeleton, r) == Sub(Skeleton, r);
    }
    StripRightOfSum(Sub(Skeleton, a), Sub(Skeleton, r));
  }
}
