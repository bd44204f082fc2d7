/**
 The Python string operations used by the exclusion code: `strip`, `lower`, `split(c, 1)`,
 `rsplit(c, 1)`, with the facts the matcher and the learner need to agree on hosts.
 Lower-casing is ASCII; every other character is its own lower case.
 */
module Text {
  /** `str.isspace()` */
  predicate IsSpace(c: char) {
    var n := c as int;
    || 9 <= n <= 13 || 28 <= n <= 32 || n == 0x85 || n == 0xA0 || n == 0x1680
    || 0x2000 <= n <= 0x200A || n == 0x2028 || n == 0x2029 || n == 0x202F || n == 0x205F || n == 0x3000
  }

  function LowerChar(c: char): char {
    if 'A' <= c <= 'Z' then (c as int + 32) as char else c
  }

  function Lower(s: string): (t: string)
    ensures |t| == |s|
  {
    seq(|s|, i requires 0 <= i < |s| => LowerChar(s[i]))
  }

  predicate AllSpace(s: string) {
    forall i | 0 <= i < |s| :: IsSpace(s[i])
  }

  function StripLeft(s: string): string {
    if s != "" && IsSpace(s[0]) then StripLeft(s[1..]) else s
  }

  function StripRight(s: string): string {
    if s != "" && IsSpace(s[|s| - 1]) then StripRight(s[..|s| - 1]) else s
  }

  function Strip(s: string): string {
    StripRight(StripLeft(s))
  }

  /** `rstrip(".")` */
  function StripDots(s: string): string {
    if s != "" && s[|s| - 1] == '.' then StripDots(s[..|s| - 1]) else s
  }

  /** Index of the first `c`, or the length. */
  function Find(s: string, c: char): (n: nat)
    ensures n <= |s| && (n < |s| ==> s[n] == c)
    ensures forall i | 0 <= i < n :: s[i] != c
  {
    if s == "" || s[0] == c then 0 else 1 + Find(s[1..], c)
  }

  /** Index of the last `c`, or -1. */
  function FindLast(s: string, c: char): (n: int)
    ensures -1 <= n < |s| && (n >= 0 ==> s[n] == c)
    ensures forall i | n < i < |s| :: s[i] != c
  {
    if s == "" then -1 else if s[|s| - 1] == c then |s| - 1 else FindLast(s[..|s| - 1], c)
  }

  /** `split(c, 1)[0]` */
  function Before(s: string, c: char): string { s[..Find(s, c)] }

  /** `split(c, 1)[-1]` */
  function AfterFirst(s: string, c: char): string {
    if Find(s, c) < |s| then s[Find(s, c) + 1..] else s
  }

  /** `rsplit(c, 1)[-1]` */
  function AfterLast(s: string, c: char): string { s[FindLast(s, c) + 1..] }

  predicate SchemeAt(s: string, i: nat) { i + 3 <= |s| && s[i..i + 3] == "://" }

  /** Index of the first "://" from `i` on, or the length. */
  function FindSchemeFrom(s: string, i: nat): (n: nat)
    requires i <= |s|
    ensures i <= n <= |s| && (n < |s| ==> SchemeAt(s, n))
    ensures forall k: nat | i <= k < n :: !SchemeAt(s, k)
    decreases |s| - i
  {
    if i == |s| || SchemeAt(s, i) then i else FindSchemeFrom(s, i + 1)
  }

  function FindScheme(s: string): nat { FindSchemeFrom(s, 0) }

  /** `url.split("://", 1)[1] if "://" in url else url` */
  function AfterScheme(s: string): string {
    if FindScheme(s) < |s| then s[FindScheme(s) + 3..] else s
  }

  /** The host part of a URL, before case folding: scheme, path, query, fragment, userinfo, port cut. */
  function UrlHost(url: string): string {
    var host := Before(Before(Before(AfterScheme(url), '/'), '?'), '#');
    Before(AfterFirst(host, '@'), ':')
  }

  function EndsWith(s: string, t: string): bool {
    |t| <= |s| && s[|s| - |t|..] == t
  }

  // ---------------------------------------------------------------------------------------
  // Case folding commutes with everything
  // ---------------------------------------------------------------------------------------

  /** Characters that lower-casing neither changes nor produces. */
  predicate Caseless(c: char) { !('A' <= c <= 'Z') && !('a' <= c <= 'z') }

  lemma LowerSlice(s: string, i: nat, j: nat)
    requires i <= j <= |s|
    ensures Lower(s[i..j]) == Lower(s)[i..j]
    ensures Lower(s[..j]) == Lower(s)[..j] && Lower(s[i..]) == Lower(s)[i..]
  {}

  lemma FirstUnique(s: string, c: char, n: nat)
    requires n <= |s| && (n < |s| ==> s[n] == c)
    requires forall i | 0 <= i < n :: s[i] != c
    ensures Find(s, c) == n
  {}

  lemma LastUnique(s: string, c: char, n: int)
    requires -1 <= n < |s| && (n >= 0 ==> s[n] == c)
    requires forall i | n < i < |s| :: s[i] != c
    ensures FindLast(s, c) == n
  {}

  lemma SchemeUnique(s: string, n: nat)
    requires n <= |s| && (n < |s| ==> SchemeAt(s, n))
    requires forall i: nat | i < n :: !SchemeAt(s, i)
    ensures FindScheme(s) == n
  {}

  lemma LowerFind(s: string, c: char)
    requires Caseless(c)
    ensures Find(Lower(s), c) == Find(s, c)
  {
    FirstUnique(Lower(s), c, Find(s, c));
  }

  lemma LowerBefore(s: string, c: char)
    requires Caseless(c)
    ensures Before(Lower(s), c) == Lower(Before(s, c))
  {
    hide Caseless, Find, Lower;
    LowerFind(s, c);
    LowerSlice(s, 0, Find(s, c));
  }

  lemma LowerAfterFirst(s: string, c: char)
    requires Caseless(c)
    ensures AfterFirst(Lower(s), c) == Lower(AfterFirst(s, c))
  {
    hide Caseless, Find, Lower;
    LowerFind(s, c);
    if Find(s, c) < |s| { LowerSlice(s, Find(s, c) + 1, |s|); }
  }

  lemma LowerAfterLast(s: string, c: char)
    requires Caseless(c)
    ensures AfterLast(Lower(s), c) == Lower(AfterLast(s, c))
  {
    var n := FindLast(s, c);
    LowerSlice(s, n + 1, |s|);
    LastUnique(Lower(s), c, n);
  }

  lemma LowerAfterScheme(s: string)
    ensures AfterScheme(Lower(s)) == Lower(AfterScheme(s))
  {
    var n := FindScheme(s);
    forall i: nat ensures SchemeAt(Lower(s), i) <==> SchemeAt(s, i) {
      if i + 3 <= |s| {
        SchemeChars(s, i);
        SchemeChars(Lower(s), i);
      }
    }
    SchemeUnique(Lower(s), n);
    if n < |s| { LowerSlice(s, n + 3, |s|); }
  }

  lemma LowerUrlHost(s: string)
    ensures UrlHost(Lower(s)) == Lower(UrlHost(s))
  {
    var a := AfterScheme(s);
    LowerAfterScheme(s);
    LowerBefore(a, '/');
    LowerBefore(Before(a, '/'), '?');
    LowerBefore(Before(Before(a, '/'), '?'), '#');
    var h := Before(Before(Before(a, '/'), '?'), '#');
    LowerAfterFirst(h, '@');
    LowerBefore(AfterFirst(h, '@'), ':');
  }

  lemma LowerEmpty(s: string)
    ensures Lower(s) == "" <==> s == ""
  {}

  lemma LowerIdempotent(s: string)
    ensures Lower(Lower(s)) == Lower(s)
  {}

  lemma {:induction false} LowerStripLeft(s: string)
    ensures StripLeft(Lower(s)) == Lower(StripLeft(s))
    decreases |s|
  {
    if s != "" && IsSpace(s[0]) {
      LowerSlice(s, 1, |s|);
      LowerStripLeft(s[1..]);
    }
  }

  lemma {:induction false} LowerStripRight(s: string)
    ensures StripRight(Lower(s)) == Lower(StripRight(s))
    decreases |s|
  {
    if s != "" && IsSpace(s[|s| - 1]) {
      LowerSlice(s, 0, |s| - 1);
      LowerStripRight(s[..|s| - 1]);
    }
  }

  lemma LowerStrip(s: string)
    ensures Strip(Lower(s)) == Lower(Strip(s))
  {
    LowerStripLeft(s);
    LowerStripRight(StripLeft(s));
  }

  lemma {:induction false} LowerStripDots(s: string)
    ensures StripDots(Lower(s)) == Lower(StripDots(s))
    decreases |s|
  {
    if s != "" && s[|s| - 1] == '.' {
      LowerSlice(s, 0, |s| - 1);
      LowerStripDots(s[..|s| - 1]);
    }
  }

  // ---------------------------------------------------------------------------------------
  // Surrounding whitespace
  // ---------------------------------------------------------------------------------------

  /** `a` is `b` with whitespace `l` and `r` around it. */
  ghost predicate Padded(l: string, b: string, r: string, a: string) {
    AllSpace(l) && AllSpace(r) && a == l + b + r
  }

  predicate Trim(s: string) {
    s != "" ==> !IsSpace(s[0]) && !IsSpace(s[|s| - 1])
  }

  lemma {:induction false} StripLeftSplits(s: string) returns (l: string)
    ensures AllSpace(l) && s == l + StripLeft(s)
    ensures StripLeft(s) != "" ==> !IsSpace(StripLeft(s)[0])
    decreases |s|
  {
    if s != "" && IsSpace(s[0]) {
      var l' := StripLeftSplits(s[1..]);
      hide IsSpace;
      l := [s[0]] + l';
      var t := StripLeft(s[1..]);
      assert s == [s[0]] + s[1..] == [s[0]] + (l' + t) == l + t;
    } else {
      l := "";
    }
  }

  lemma {:induction false} StripRightSplits(s: string) returns (r: string)
    ensures AllSpace(r) && s == StripRight(s) + r
    ensures StripRight(s) != "" ==> !IsSpace(StripRight(s)[|StripRight(s)| - 1]) && StripRight(s)[0] == s[0]
    decreases |s|
  {
    if s != "" && IsSpace(s[|s| - 1]) {
      var r' := StripRightSplits(s[..|s| - 1]);
      hide IsSpace;
      r := r' + [s[|s| - 1]];
      var t := StripRight(s[..|s| - 1]);
      assert s == s[..|s| - 1] + [s[|s| - 1]] == (t + r') + [s[|s| - 1]] == t + r;
    } else {
      r := "";
    }
  }

  lemma StripSplits(s: string) returns (l: string, r: string)
    ensures Padded(l, Strip(s), r, s) && Trim(Strip(s))
  {
    l := StripLeftSplits(s);
    r := StripRightSplits(StripLeft(s));
    assert s == l + (Strip(s) + r) == l + Strip(s) + r;
  }

  lemma PaddedEnds(l: string, b: string, r: string, s: string)
    requires Padded(l, b, r, s)
    ensures forall i | 0 <= i < |l| :: IsSpace(s[i])
    ensures forall i | |l| + |b| <= i < |s| :: IsSpace(s[i])
    ensures forall i | 0 <= i < |b| :: s[|l| + i] == b[i]
    ensures b == s[|l|..|l| + |b|]
  {}

  /** The trimmed core of a string is unique. */
  lemma CoreIsUnique(s: string, l1: string, b1: string, r1: string, l2: string, b2: string, r2: string)
    requires Padded(l1, b1, r1, s) && Padded(l2, b2, r2, s) && Trim(b1) && Trim(b2) && b1 != ""
    ensures b1 == b2
  {
    PaddedEnds(l1, b1, r1, s);
    PaddedEnds(l2, b2, r2, s);
    var i, j := |l1|, |l1| + |b1| - 1;
    assert s[i] == b1[0] && s[j] == b1[|b1| - 1];
    assert |l2| <= i <= j < |l2| + |b2|;
    assert s[|l2|] == b2[0] && s[|l2| + |b2| - 1] == b2[|b2| - 1];
  }

  lemma StripOfPadded(l: string, b: string, r: string, a: string)
    requires Padded(l, b, r, a)
    ensures Strip(a) == Strip(b)
  {
    var l1, r1 := StripSplits(a);
    var l2, r2 := StripSplits(b);
    assert a == (l + l2) + Strip(b) + (r2 + r);
    assert AllSpace(l + l2) && AllSpace(r2 + r);
    if Strip(a) != "" {
      CoreIsUnique(a, l1, Strip(a), r1, l + l2, Strip(b), r2 + r);
    } else if Strip(b) != "" {
      CoreIsUnique(a, l + l2, Strip(b), r2 + r, l1, Strip(a), r1);
    }
  }

  lemma StripIdempotent(s: string)
    ensures Strip(Strip(s)) == Strip(s)
  {
    var l, r := StripSplits(s);
    StripOfPadded(l, Strip(s), r, s);
  }

  lemma TrimmedStrips(s: string)
    ensures Strip(s) == s <==> Trim(s)
  {
    var l, r := StripSplits(s);
  }

  lemma PaddedBefore(l: string, b: string, r: string, a: string, c: char) returns (r': string)
    requires Padded(l, b, r, a) && !IsSpace(c)
    ensures Padded(l, Before(b, c), r', Before(a, c))
  {
    PaddedEnds(l, b, r, a);
    var n := Find(b, c);
    if n < |b| {
      r' := "";
      FirstUnique(a, c, |l| + n);
      assert a[..|l| + n] == l + b[..n];
    } else {
      r' := r;
      FirstUnique(a, c, |a|);
    }
  }

  lemma PaddedFind(l: string, b: string, r: string, a: string, c: char)
    requires Padded(l, b, r, a) && !IsSpace(c)
    ensures Find(a, c) == if Find(b, c) < |b| then |l| + Find(b, c) else |a|
  {
    PaddedEnds(l, b, r, a);
    FirstUnique(a, c, if Find(b, c) < |b| then |l| + Find(b, c) else |a|);
  }

  lemma PaddedTail(l: string, b: string, r: string, a: string, n: nat)
    requires Padded(l, b, r, a) && n <= |b|
    ensures Padded("", b[n..], r, a[|l| + n..])
  {
    hide IsSpace;
    assert a[|l| + n..] == "" + b[n..] + r;
  }

  lemma PaddedAfterFirst(l: string, b: string, r: string, a: string, c: char) returns (l': string)
    requires Padded(l, b, r, a) && !IsSpace(c)
    ensures Padded(l', AfterFirst(b, c), r, AfterFirst(a, c))
  {
    PaddedFind(l, b, r, a, c);
    hide Padded, IsSpace;
    if Find(b, c) < |b| {
      l' := "";
      PaddedTail(l, b, r, a, Find(b, c) + 1);
    } else {
      l' := l;
    }
  }

  lemma PaddedLast(l: string, b: string, r: string, a: string, c: char)
    requires Padded(l, b, r, a) && !IsSpace(c) && FindLast(b, c) >= 0
    ensures FindLast(a, c) == |l| + FindLast(b, c)
    ensures AfterLast(a, c) == AfterLast(b, c) + r
  {
    PaddedEnds(l, b, r, a);
    var n := FindLast(b, c);
    forall i | |l| + n < i < |a| ensures a[i] != c {
      if i < |l| + |b| { assert a[|l| + (i - |l|)] == b[i - |l|]; }
    }
    LastUnique(a, c, |l| + n);
  }

  lemma PaddedAfterLast(l: string, b: string, r: string, a: string, c: char) returns (l': string)
    requires Padded(l, b, r, a) && !IsSpace(c)
    ensures Padded(l', AfterLast(b, c), r, AfterLast(a, c))
  {
    var n := FindLast(b, c);
    if n >= 0 {
      l' := "";
      PaddedLast(l, b, r, a, c);
      PaddedTail(l, b, r, a, n + 1);
      hide Padded, IsSpace;
    } else {
      l' := l;
      PaddedEnds(l, b, r, a);
      LastUnique(a, c, -1);
      hide Padded, IsSpace;
      assert a[0..] == a && b[0..] == b;
    }
  }

  lemma SchemeChars(s: string, i: nat)
    requires i + 3 <= |s|
    ensures SchemeAt(s, i) <==> s[i] == ':' && s[i + 1] == '/' && s[i + 2] == '/'
  {
    var t := s[i..i + 3];
    assert t == [t[0], t[1], t[2]];
  }

  lemma PaddedSchemeAt(l: string, b: string, r: string, a: string, i: nat)
    requires Padded(l, b, r, a)
    ensures SchemeAt(a, i) <==> i >= |l| && SchemeAt(b, i - |l|)
  {
    PaddedEnds(l, b, r, a);
    if i + 3 <= |a| {
      SchemeChars(a, i);
      if i >= |l| && i + 3 <= |l| + |b| {
        SchemeChars(b, i - |l|);
        assert a[i] == b[i - |l|] && a[i + 1] == b[i + 1 - |l|] && a[i + 2] == b[i + 2 - |l|];
      }
    }
  }

  lemma PaddedFindScheme(l: string, b: string, r: string, a: string)
    requires Padded(l, b, r, a)
    ensures FindScheme(a) == if FindScheme(b) < |b| then |l| + FindScheme(b) else |a|
  {
    forall i: nat ensures SchemeAt(a, i) <==> i >= |l| && SchemeAt(b, i - |l|) {
      PaddedSchemeAt(l, b, r, a, i);
    }
    SchemeUnique(a, if FindScheme(b) < |b| then |l| + FindScheme(b) else |a|);
  }

  lemma AfterSchemeIs(s: string)
    ensures FindScheme(s) < |s| ==> FindScheme(s) + 3 <= |s| && AfterScheme(s) == s[FindScheme(s) + 3..]
    ensures FindScheme(s) >= |s| ==> AfterScheme(s) == s
  {}

  lemma PaddedAfterScheme(l: string, b: string, r: string, a: string) returns (l': string)
    requires Padded(l, b, r, a)
    ensures Padded(l', AfterScheme(b), r, AfterScheme(a))
  {
    hide Padded, IsSpace, FindScheme, SchemeAt, AfterScheme;
    PaddedFindScheme(l, b, r, a);
    AfterSchemeIs(a);
    AfterSchemeIs(b);
    PaddedLength(l, b, r, a);
    l' := if FindScheme(b) < |b| then "" else l;
    if FindScheme(b) < |b| {
      PaddedTail(l, b, r, a, FindScheme(b) + 3);
    }
  }

  lemma PaddedLength(l: string, b: string, r: string, a: string)
    requires Padded(l, b, r, a)
    ensures |a| == |l| + |b| + |r|
  {}

  lemma SchemeFits(s: string, i: nat)
    requires SchemeAt(s, i)
    ensures i + 3 <= |s|
  {}

  /** Whitespace around a URL only ever ends up as whitespace around its host. */
  lemma PaddedUrlHost(l: string, b: string, r: string, a: string) returns (l': string, r': string)
    requires Padded(l, b, r, a)
    ensures Padded(l', UrlHost(b), r', UrlHost(a))
  {
    l' := PaddedAfterScheme(l, b, r, a);
    var a1, b1 := AfterScheme(a), AfterScheme(b);
    r' := PaddedBefore(l', b1, r, a1, '/');
    var a2, b2 := Before(a1, '/'), Before(b1, '/');
    r' := PaddedBefore(l', b2, r', a2, '?');
    var a3, b3 := Before(a2, '?'), Before(b2, '?');
    r' := PaddedBefore(l', b3, r', a3, '#');
    var a4, b4 := Before(a3, '#'), Before(b3, '#');
    l' := PaddedAfterFirst(l', b4, r', a4, '@');
    r' := PaddedBefore(l', AfterFirst(b4, '@'), r', AfterFirst(a4, '@'), ':');
  }

  // ---------------------------------------------------------------------------------------
  // Cutting never lengthens
  // ---------------------------------------------------------------------------------------

  predicate Lacks(s: string, c: char) {
    forall i | 0 <= i < |s| :: s[i] != c
  }

  /** `t` is a contiguous part of `s`. */
  ghost predicate PartOf(t: string, s: string) {
    exists i, j | 0 <= i <= j <= |s| :: t == s[i..j]
  }

  lemma PartOfPart(a: string, b: string, c: string)
    requires PartOf(a, b) && PartOf(b, c)
    ensures PartOf(a, c)
  {
    var i, j :| 0 <= i <= j <= |b| && a == b[i..j];
    var k, m :| 0 <= k <= m <= |c| && b == c[k..m];
    SliceOfSlice(c, k, m, i, j);
    assert a == c[k + i..k + j];
  }

  lemma SliceOfSlice(c: string, k: nat, m: nat, i: nat, j: nat)
    requires k <= m <= |c| && i <= j <= m - k
    ensures c[k..m][i..j] == c[k + i..k + j]
  {
    var a, b := c[k..m][i..j], c[k + i..k + j];
    assert |a| == |b|;
    forall x | 0 <= x < |a| ensures a[x] == b[x] {
      assert a[x] == c[k..m][i + x] && c[k..m][i + x] == c[k + (i + x)];
    }
  }

  lemma BeforeCuts(s: string, c: char)
    ensures PartOf(Before(s, c), s)
    ensures if Lacks(s, c) then Before(s, c) == s else |Before(s, c)| < |s|
  {
    assert Before(s, c) == s[0..Find(s, c)];
  }

  lemma AfterFirstCuts(s: string, c: char)
    ensures PartOf(AfterFirst(s, c), s)
    ensures if Lacks(s, c) then AfterFirst(s, c) == s else |AfterFirst(s, c)| < |s|
  {
    assert s == s[0..|s|];
    var n := Find(s, c);
    if n < |s| { assert AfterFirst(s, c) == s[n + 1..] == s[n + 1..|s|]; }
  }

  lemma AfterSchemeCuts(s: string)
    ensures PartOf(AfterScheme(s), s)
    ensures |AfterScheme(s)| <= |s| && (|AfterScheme(s)| == |s| ==> AfterScheme(s) == s)
    ensures Lacks(s, ':') ==> AfterScheme(s) == s
  {
    assert s == s[0..|s|];
    var n := FindScheme(s);
    if n < |s| {
      SchemeFits(s, n);
      SchemeChars(s, n);
      assert AfterScheme(s) == s[n + 3..] == s[n + 3..|s|];
    }
  }

  /** No character that delimits the host inside a URL. */
  predicate BareHost(s: string) {
    Lacks(s, '/') && Lacks(s, '?') && Lacks(s, '#') && Lacks(s, '@') && Lacks(s, ':')
  }

  /** The host is a part of the URL, and all of it exactly when the text is a bare host already. */
  lemma UrlHostCuts(s: string)
    ensures PartOf(UrlHost(s), s)
    ensures if BareHost(s) then UrlHost(s) == s else |UrlHost(s)| < |s|
  {
    hide Before, AfterFirst, AfterScheme, PartOf;
    var a0 := AfterScheme(s);
    AfterSchemeCuts(s);
    var a1 := Before(a0, '/');
    BeforeCuts(a0, '/');
    PartOfPart(a1, a0, s);
    var a2 := Before(a1, '?');
    BeforeCuts(a1, '?');
    PartOfPart(a2, a1, s);
    var a3 := Before(a2, '#');
    BeforeCuts(a2, '#');
    PartOfPart(a3, a2, s);
    var a4 := AfterFirst(a3, '@');
    AfterFirstCuts(a3, '@');
    PartOfPart(a4, a3, s);
    BeforeCuts(a4, ':');
    PartOfPart(Before(a4, ':'), a4, s);
  }

  lemma SuffixChars(s: string, t: string)
    requires t != "" && EndsWith(s, "." + t)
    ensures |s| > |t| && s[|s| - 1] == t[|t| - 1] && s[|s| - 1 - |t|] == '.'
  {
    var u := "." + t;
    assert s[|s| - |u|..] == u;
    assert s[|s| - |u|..][0] == u[0] && s[|s| - |u|..][|u| - 1] == u[|u| - 1];
  }

  /** What `strip` leaves out is white space, and what is left has none at its ends. */
  lemma StripIsCore(s: string) returns (l: string, r: string)
    ensures s == l + Strip(s) + r && AllSpace(l) && AllSpace(r)
    ensures Strip(s) != "" ==> !IsSpace(Strip(s)[0]) && !IsSpace(Strip(s)[|Strip(s)| - 1])
  {
    l, r := StripSplits(s);
  }

  /** `rstrip(".")` cuts dots only, and all of them. */
  lemma {:induction false} StripDotsIsCore(s: string) returns (dots: string)
    ensures s == StripDots(s) + dots && forall i | 0 <= i < |dots| :: dots[i] == '.'
    ensures StripDots(s) != "" ==> StripDots(s)[|StripDots(s)| - 1] != '.'
    decreases |s|
  {
    if s != "" && s[|s| - 1] == '.' {
      var rest := StripDotsIsCore(s[..|s| - 1]);
      dots := rest + ".";
      assert s == s[..|s| - 1] + ".";
    } else {
      dots := "";
    }
  }

  /** Lower-casing leaves no capital letter, changes nothing but those, and changes each by the same distance. */
  lemma LowerIsAscii(s: string)
    ensures |Lower(s)| == |s|
    ensures forall i | 0 <= i < |s| :: !('A' <= Lower(s)[i] <= 'Z')
    ensures forall i | 0 <= i < |s| ::
              Lower(s)[i] == if 'A' <= s[i] <= 'Z' then ('a' as int + (s[i] as int - 'A' as int)) as char else s[i]
  {}
}
