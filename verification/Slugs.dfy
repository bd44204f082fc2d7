/**
 Tenant slugs: normalisation of a customer name, the collision loop, and its two users: creating one
 tenant on ingest (`auth/tenancy.py`) and the boot-time batch (`db/tenancy_backfill.py`).
 */
module Slugs {
  import opened Wrappers
  import opened Text

  // ---------------------------------------------------------------------------------------
  // slugify
  // ---------------------------------------------------------------------------------------

  /** `[a-zA-Z0-9]` */
  predicate Alnum(c: char) {
    'a' <= c <= 'z' || 'A' <= c <= 'Z' || '0' <= c <= '9'
  }

  function SkipOthers(s: string): (t: string)
    ensures |t| <= |s| && (t != "" ==> Alnum(t[0]))
  {
    if s != "" && !Alnum(s[0]) then SkipOthers(s[1..]) else s
  }

  /** `re.sub("[^a-zA-Z0-9]+", "-", s)` */
  function Dashed(s: string): string
    decreases |s|
  {
    if s == "" then ""
    else if Alnum(s[0]) then [s[0]] + Dashed(s[1..])
    else "-" + Dashed(SkipOthers(s[1..]))
  }

  function StripLeftDashes(s: string): string {
    if s != "" && s[0] == '-' then StripLeftDashes(s[1..]) else s
  }

  function StripRightDashes(s: string): string {
    if s != "" && s[|s| - 1] == '-' then StripRightDashes(s[..|s| - 1]) else s
  }

  function Slugify(name: string): string {
    var slug := Lower(StripRightDashes(StripLeftDashes(Dashed(name))));
    if slug == "" then "unnamed" else slug
  }

  /** Characters of a slug body: no two dashes in a row. */
  predicate Sparse(s: string) {
    && (forall i | 0 <= i < |s| :: Alnum(s[i]) || s[i] == '-')
    && (forall i | 0 < i < |s| :: s[i - 1] == '-' ==> s[i] != '-')
  }

  predicate IsSlug(s: string) {
    && s != "" && Sparse(s) && s[0] != '-' && s[|s| - 1] != '-'
    && forall i | 0 <= i < |s| :: LowerChar(s[i]) == s[i]
  }

  lemma {:induction false} DashedIsSparse(s: string)
    ensures Sparse(Dashed(s))
    ensures s != "" ==> Dashed(s) != "" && (Alnum(s[0]) ==> Dashed(s)[0] == s[0])
    decreases |s|
  {
    if s != "" {
      var rest := if Alnum(s[0]) then s[1..] else SkipOthers(s[1..]);
      DashedIsSparse(rest);
    }
  }

  lemma {:induction false} StripLeftDashesKeepsSparse(s: string)
    requires Sparse(s)
    ensures var t := StripLeftDashes(s); Sparse(t) && (t != "" ==> t[0] != '-')
    decreases |s|
  {
    if s != "" && s[0] == '-' { StripLeftDashesKeepsSparse(s[1..]); }
  }

  lemma {:induction false} StripRightDashesKeepsSparse(s: string)
    requires Sparse(s) && (s != "" ==> s[0] != '-')
    ensures var t := StripRightDashes(s); Sparse(t) && (t != "" ==> t[0] != '-' && t[|t| - 1] != '-')
    decreases |s|
  {
    if s != "" && s[|s| - 1] == '-' { StripRightDashesKeepsSparse(s[..|s| - 1]); }
  }

  /** Whatever the name, the result is a well-formed slug. */
  lemma SlugifyMakesSlug(name: string)
    ensures IsSlug(Slugify(name))
  {
    DashedIsSparse(name);
    hide Dashed, StripLeftDashes, StripRightDashes;
    StripLeftDashesKeepsSparse(Dashed(name));
    var body := StripLeftDashes(Dashed(name));
    StripRightDashesKeepsSparse(body);
    if StripRightDashes(body) == "" {
      UnnamedIsSlug();
    } else {
      LowerSparse(StripRightDashes(body));
    }
  }

  lemma UnnamedIsSlug()
    ensures IsSlug("unnamed") && Lower("") == ""
  {}

  lemma LowerSparse(s: string)
    requires s != "" && Sparse(s) && s[0] != '-' && s[|s| - 1] != '-'
    ensures IsSlug(Lower(s))
  {
    forall i | 0 <= i < |s|
      ensures LowerChar(Lower(s)[i]) == Lower(s)[i] && (Lower(s)[i] == '-' <==> s[i] == '-')
      ensures Alnum(s[i]) ==> Alnum(Lower(s)[i])
    {}
    hide LowerChar, Alnum;
  }

  lemma {:induction false} DashedFixes(s: string)
    requires Sparse(s)
    ensures Dashed(s) == s
    decreases |s|
  {
    if s != "" {
      assert s == [s[0]] + s[1..];
      if !Alnum(s[0]) {
        assert SkipOthers(s[1..]) == s[1..];
      }
      DashedFixes(s[1..]);
    }
  }

  /** The fixed points are exactly the slugs; so `slugify` is idempotent. */
  lemma SlugifyFixesSlugs(s: string)
    ensures Slugify(s) == s <==> IsSlug(s)
    ensures Slugify(Slugify(s)) == Slugify(s)
  {
    SlugifyMakesSlug(s);
    SlugIsFixed(Slugify(s));
    if IsSlug(s) { SlugIsFixed(s); }
    hide Slugify;
  }

  lemma SlugIsFixed(s: string)
    requires IsSlug(s)
    ensures Slugify(s) == s
  {
    DashedFixes(s);
    assert StripLeftDashes(s) == s && StripRightDashes(s) == s;
    hide Dashed, StripLeftDashes, StripRightDashes;
    assert Lower(s) == s;
  }

  // What becomes of the words of a name.

  ghost predicate IsWord(w: string) { w != "" && forall i | 0 <= i < |w| :: Alnum(w[i]) }
  ghost predicate IsGap(g: string) { forall i | 0 <= i < |g| :: !Alnum(g[i]) }

  lemma {:induction false} DashedWord(w: string, t: string)
    requires forall i | 0 <= i < |w| :: Alnum(w[i])
    ensures Dashed(w + t) == w + Dashed(t)
    decreases |w|
  {
    hide Alnum;
    if w == "" {
      assert w + t == t;
    } else {
      assert (w + t)[1..] == w[1..] + t;
      DashedWord(w[1..], t);
      assert w == [w[0]] + w[1..];
    }
  }

  lemma {:induction false} SkipGap(g: string, t: string)
    requires IsGap(g) && (t != "" ==> Alnum(t[0]))
    ensures SkipOthers(g + t) == t
    decreases |g|
  {
    hide Alnum;
    if g == "" {
      assert g + t == t;
    } else {
      assert (g + t)[1..] == g[1..] + t;
      SkipGap(g[1..], t);
    }
  }

  lemma DashedGap(g: string, t: string)
    requires g != "" && IsGap(g) && (t != "" ==> Alnum(t[0]))
    ensures Dashed(g + t) == "-" + Dashed(t)
  {
    hide Alnum;
    assert (g + t)[0] == g[0] && (g + t)[1..] == g[1..] + t;
    SkipGap(g[1..], t);
  }

  lemma {:induction false} StripRightDashesOfSum(a: string, b: string)
    requires StripRightDashes(b) != ""
    ensures StripRightDashes(a + b) == a + StripRightDashes(b)
    decreases |b|
  {
    assert (a + b)[|a + b| - 1] == b[|b| - 1];
    if b[|b| - 1] == '-' {
      assert (a + b)[..|a + b| - 1] == a + b[..|b| - 1];
      StripRightDashesOfSum(a, b[..|b| - 1]);
    }
  }

  /** What the slug of a name that starts with a word is. */
  lemma SlugOfStart(name: string)
    requires name != "" && Alnum(name[0])
    ensures Dashed(name) != "" && StripLeftDashes(Dashed(name)) == Dashed(name)
    ensures StripRightDashes(Dashed(name)) != ""
    ensures Slugify(name) == Lower(StripRightDashes(Dashed(name)))
  {
    DashedIsSparse(name);
    StripRightKeepsFirst(Dashed(name));
    hide Dashed, Sparse;
    LowerEmpty(StripRightDashes(Dashed(name)));
  }

  lemma {:induction false} StripRightKeepsFirst(s: string)
    requires s != "" && s[0] != '-'
    ensures StripRightDashes(s) != "" && StripRightDashes(s)[0] == s[0]
    decreases |s|
  {
    if s[|s| - 1] == '-' {
      StripRightKeepsFirst(s[..|s| - 1]);
    }
  }

  lemma {:induction false} WordIsStripped(w: string)
    requires IsWord(w)
    ensures Dashed(w) == w && StripRightDashes(w) == w
  {
    DashedWord(w, "");
    assert w + "" == w;
  }

  /** A single word is only lower-cased. */
  lemma SlugOfWord(w: string)
    requires IsWord(w)
    ensures Slugify(w) == Lower(w)
  {
    WordIsStripped(w);
    SlugOfStart(w);
  }

  /** The first word, a dash for whatever separates it from the next one, and the slug of the rest. */
  lemma SlugOfWords(w: string, gap: string, rest: string)
    requires IsWord(w) && gap != "" && IsGap(gap) && rest != "" && Alnum(rest[0])
    ensures Slugify(w + gap + rest) == Lower(w) + "-" + Slugify(rest)
  {
    var name := w + gap + rest;
    assert name[0] == w[0];
    SlugOfStart(name);
    SlugOfStart(rest);
    hide Slugify, Alnum, StripLeftDashes, StripRightDashes, Dashed, Lower;
    assert name == w + (gap + rest);
    DashedWord(w, gap + rest);
    DashedGap(gap, rest);
    assert w + ("-" + Dashed(rest)) == w + "-" + Dashed(rest);
    StripRightDashesOfSum(w + "-", Dashed(rest));
    LowerOfSum(w, StripRightDashes(Dashed(rest)));
  }

  lemma LowerOfSum(a: string, b: string)
    ensures Lower(a + "-" + b) == Lower(a) + "-" + Lower(b)
  {}

  /** What stands in front of the first word is dropped, and so is what stands behind the last one. */
  lemma SlugDropsEnds(front: string, w: string, back: string)
    requires IsGap(front) && IsWord(w) && IsGap(back)
    ensures Slugify(front + w + back) == Lower(w)
  {
    var rest := w + back;
    assert rest[0] == w[0];
    SlugDropsFront(front, rest);
    assert front + w + back == front + rest;
    SlugOfStart(rest);
    DashedWord(w, back);
    WordIsStripped(w);
    if back != "" {
      DashedGap(back, "");
      assert back + "" == back;
      assert (w + "-")[..|w|] == w;
    } else {
      assert w + back == w;
    }
    hide Slugify, Alnum;
  }

  lemma SlugDropsFront(front: string, rest: string)
    requires IsGap(front) && rest != "" && Alnum(rest[0])
    ensures Slugify(front + rest) == Slugify(rest)
  {
    if front == "" {
      assert front + rest == rest;
    } else {
      DashedGap(front, rest);
      assert ("-" + Dashed(rest))[1..] == Dashed(rest);
    }
  }

  /** A name without letters and digits is "unnamed". */
  lemma SlugOfNothing(g: string)
    requires IsGap(g)
    ensures Slugify(g) == "unnamed"
  {
    if g != "" {
      DashedGap(g, "");
      assert g + "" == g;
    }
    assert Dashed("") == "" && StripLeftDashes("-") == "" && Lower("") == "";
  }

  /** The example of the documentation. */
  lemma SlugOfExample()
    ensures Slugify("Polisan Kansai") == "polisan-kansai"
  {
    hide Slugify, Lower, Alnum, IsWord, IsGap;
    var w, gap, rest := "Polisan", " ", "Kansai";
    ExampleWords(w, gap, rest);
    SlugOfWords(w, gap, rest);
    SlugOfWord(rest);
    ExampleLower();
    assert w + gap + rest == "Polisan Kansai";
    assert "polisan" + "-" + "kansai" == "polisan-kansai";
  }

  lemma ExampleWords(w: string, gap: string, rest: string)
    requires w == "Polisan" && gap == " " && rest == "Kansai"
    ensures IsWord(w) && IsGap(gap) && IsWord(rest) && Alnum(rest[0])
  {}

  lemma ExampleLower()
    ensures Lower("Polisan") == "polisan" && Lower("Kansai") == "kansai"
  {}

  // ---------------------------------------------------------------------------------------
  // The collision loop
  // ---------------------------------------------------------------------------------------

  function Digit(d: nat): char
    requires d < 10
  {
    ('0' as int + d) as char
  }

  /** The decimal rendering of `n` in an f-string. */
  function Decimal(n: nat): (s: string)
    ensures s != "" && (|s| == 1 <==> n < 10)
  {
    if n < 10 then [Digit(n)] else Decimal(n / 10) + [Digit(n % 10)]
  }

  lemma {:induction false} DecimalIsInjective(a: nat, b: nat)
    requires Decimal(a) == Decimal(b)
    ensures a == b
    decreases a
  {
    var s := Decimal(a);
    assert s[|s| - 1] == Digit(a % 10) && s[|s| - 1] == Digit(b % 10);
    assert a % 10 == b % 10;
    if a >= 10 && b >= 10 {
      assert Decimal(a / 10) == s[..|s| - 1] == Decimal(b / 10);
      DecimalIsInjective(a / 10, b / 10);
    }
  }

  /** The number a string of digits stands for. */
  function ValueOf(s: string): int {
    if s == "" then 0 else 10 * ValueOf(s[..|s| - 1]) + (s[|s| - 1] as int - '0' as int)
  }

  /** The rendering stands for the number, in digits, without a leading zero. */
  lemma {:induction false} DecimalIsNumber(n: nat)
    ensures ValueOf(Decimal(n)) == n
    ensures forall i | 0 <= i < |Decimal(n)| :: '0' <= Decimal(n)[i] <= '9'
    ensures n > 0 ==> Decimal(n)[0] != '0'
    decreases n
  {
    var s := Decimal(n);
    if n >= 10 {
      DecimalIsNumber(n / 10);
      assert s[..|s| - 1] == Decimal(n / 10);
    } else {
      assert s[..0] == "";
    }
  }

  /** The n-th slug tried: the base, then base-2, base-3, ... */
  function Candidate(base: string, n: nat): string {
    if n == 1 then base else base + "-" + Decimal(n)
  }

  lemma CandidatesDiffer(base: string, m: nat, n: nat)
    requires 1 <= m < n
    ensures Candidate(base, m) != Candidate(base, n)
  {
    if Candidate(base, m) == Candidate(base, n) && m > 1 {
      var k := |base + "-"|;
      assert Candidate(base, m)[k..] == Decimal(m) && Candidate(base, n)[k..] == Decimal(n);
      DecimalIsInjective(m, n);
    }
  }

  function Tried(base: string, n: nat): set<string> {
    set k | 1 <= k < n :: Candidate(base, k)
  }

  lemma {:induction false} TriedCount(base: string, n: nat)
    requires n >= 1
    ensures |Tried(base, n)| == n - 1
    decreases n
  {
    if n == 1 {
      assert Tried(base, 1) == {};
    } else {
      TriedCount(base, n - 1);
      assert Tried(base, n) == Tried(base, n - 1) + {Candidate(base, n - 1)};
      forall k | 1 <= k < n - 1 ensures Candidate(base, k) != Candidate(base, n - 1) {
        CandidatesDiffer(base, k, n - 1);
      }
    }
  }

  lemma {:induction false} SubsetCount(a: set<string>, b: set<string>)
    requires a <= b
    ensures |a| <= |b|
  {
    assert b == a + (b - a);
  }

  lemma TriedBound(used: set<string>, base: string, n: nat)
    requires n >= 1 && Tried(base, n) <= used
    ensures n <= |used| + 1
  {
    TriedCount(base, n);
    SubsetCount(Tried(base, n), used);
  }

  ghost predicate IsLeastFree(used: set<string>, base: string, n: nat) {
    n >= 1 && Candidate(base, n) !in used && forall k | 1 <= k < n :: Candidate(base, k) in used
  }

  lemma LeastFreeIsUnique(used: set<string>, base: string, m: nat, n: nat)
    requires IsLeastFree(used, base, m) && IsLeastFree(used, base, n)
    ensures m == n
  {}

  /** Index of the least free candidate from `n` on. */
  ghost function FirstFree(used: set<string>, base: string, n: nat): (m: nat)
    requires n >= 1 && Tried(base, n) <= used
    ensures IsLeastFree(used, base, m) && m <= |used| + 1
    decreases |used| + 1 - n
  {
    TriedBound(used, base, n);
    if Candidate(base, n) in used then
      assert Tried(base, n + 1) == Tried(base, n) + {Candidate(base, n)};
      TriedBound(used, base, n + 1);
      FirstFree(used, base, n + 1)
    else
      assert forall k | 1 <= k < n :: Candidate(base, k) in Tried(base, n);
      n
  }

  ghost function FreeSlug(used: set<string>, base: string): (slug: string)
    ensures slug !in used
  {
    assert Tried(base, 1) == {};
    Candidate(base, FirstFree(used, base, 1))
  }

  /** The loop both writers run: at most one more try than there are used slugs. */
  method AllocateSlug(used: set<string>, base: string) returns (slug: string, tries: nat)
    ensures slug == FreeSlug(used, base)
    ensures IsLeastFree(used, base, tries) && slug == Candidate(base, tries) && tries <= |used| + 1
  {
    slug := base;
    var n := 1;
    assert Tried(base, 1) == {};
    while slug in used
      invariant n >= 1 && slug == Candidate(base, n) && Tried(base, n) <= used
      invariant forall k | 1 <= k < n :: Candidate(base, k) in used
      decreases |used| + 1 - n
    {
      assert Tried(base, n + 1) == Tried(base, n) + {Candidate(base, n)};
      TriedBound(used, base, n + 1);
      n := n + 1;
      slug := base + "-" + Decimal(n);
    }
    tries := n;
    TriedBound(used, base, n);
    LeastFreeIsUnique(used, base, n, FirstFree(used, base, 1));
  }

  // ---------------------------------------------------------------------------------------
  // Creating tenants
  // ---------------------------------------------------------------------------------------

  /** `tenants`, by unique name; the slug column is unique too. */
  type Tenants = map<string, string>

  ghost predicate SlugsDistinct(ts: Tenants) {
    forall a, b | a in ts && b in ts && ts[a] == ts[b] :: a == b
  }

  /** What `ensure_tenant_for_customer` does; a blank name is refused. */
  ghost function EnsureOne(ts: Tenants, customer: string): Tenants {
    var name := Strip(customer);
    if name == "" || name in ts then ts else ts[name := FreeSlug(ts.Values, Slugify(name))]
  }

  ghost function EnsureAll(ts: Tenants, customers: seq<string>): Tenants {
    if customers == [] then ts
    else EnsureOne(EnsureAll(ts, customers[..|customers| - 1]), customers[|customers| - 1])
  }

  /** The batch keeps its own set of used slugs, also for names whose insert was a no-op. */
  datatype Batch = Batch(ts: Tenants, used: set<string>, created: nat)

  ghost function BackfillOne(b: Batch, customer: string): Batch {
    var slug := FreeSlug(b.used, Slugify(customer));
    if customer in b.ts then b.(used := b.used + {slug})
    else Batch(b.ts[customer := slug], b.used + {slug}, b.created + 1)
  }

  ghost function BackfillAll(ts: Tenants, customers: seq<string>): Batch {
    if customers == [] then Batch(ts, ts.Values, 0)
    else BackfillOne(BackfillAll(ts, customers[..|customers| - 1]), customers[|customers| - 1])
  }

  class TenantTable {
    var tenants: Tenants

    constructor (tenants: Tenants)
      ensures this.tenants == tenants
    {
      this.tenants := tenants;
    }

    /** `None` is the ValueError for a blank name; otherwise the slug of the customer's tenant. */
    method EnsureTenantForCustomer(customer: string) returns (slug: Option<string>)
      modifies this
      ensures tenants == EnsureOne(old(tenants), customer)
      ensures slug == if Strip(customer) == "" then None else Some(tenants[Strip(customer)])
      ensures Strip(customer) == "" || Strip(customer) in old(tenants) ==> tenants == old(tenants)
      ensures Strip(customer) != "" && Strip(customer) !in old(tenants) ==>
                exists n :: IsLeastFree(old(tenants).Values, Slugify(Strip(customer)), n)
                            && tenants == old(tenants)[Strip(customer) := Candidate(Slugify(Strip(customer)), n)]
    {
      var name := Strip(customer);
      if name == "" {
        return None;
      }
      if name in tenants {
        return Some(tenants[name]);
      }
      var free, tries := AllocateSlug(tenants.Values, Slugify(name));
      tenants := tenants[name := free];
      slug := Some(free);
    }

    /** The slug part of `backfill_tenants`. */
    method BackfillTenants(customers: seq<string>) returns (created: nat)
      modifies this
      ensures tenants == BackfillAll(old(tenants), customers).ts
      ensures created == BackfillAll(old(tenants), customers).created
    {
      created := 0;
      var used := tenants.Values;
      for n := 0 to |customers|
        invariant Batch(tenants, used, created) == BackfillAll(old(tenants), customers[..n])
      {
        assert customers[..n + 1][..n] == customers[..n];
        var slug, tries := AllocateSlug(used, Slugify(customers[n]));
        used := used + {slug};
        if customers[n] !in tenants {
          tenants := tenants[customers[n] := slug];
          created := created + 1;
        }
      }
      assert customers[..|customers|] == customers;
    }
  }

  lemma ValuesAfterInsert(ts: Tenants, name: string, slug: string)
    requires name !in ts
    ensures ts[name := slug].Values == ts.Values + {slug}
  {
    var more := ts[name := slug];
    assert more[name] == slug;
    forall v | v in ts.Values ensures v in more.Values {
      var k :| k in ts && ts[k] == v;
      assert more[k] == v;
    }
  }

  lemma SameStep(b: Batch, c: string)
    requires b.used == b.ts.Values && c !in b.ts && c != "" && Strip(c) == c
    ensures var b' := BackfillOne(b, c);
            && b'.ts == EnsureOne(b.ts, c) && b'.used == b'.ts.Values
            && b'.ts.Keys == b.ts.Keys + {c} && b'.created == b.created + 1
  {
    ValuesAfterInsert(b.ts, c, FreeSlug(b.used, Slugify(c)));
  }

  /** Customers of the batch condition: no tenant yet, stripped, not blank, pairwise different. */
  ghost predicate NewNames(ts: Tenants, customers: seq<string>) {
    && (forall i | 0 <= i < |customers| ::
          customers[i] !in ts && customers[i] != "" && Strip(customers[i]) == customers[i])
    && (forall i, j | 0 <= i < j < |customers| :: customers[i] != customers[j])
  }

  lemma NewNamesSplit(ts: Tenants, customers: seq<string>)
    requires NewNames(ts, customers) && customers != []
    ensures var n := |customers| - 1;
            && NewNames(ts, customers[..n]) && customers[n] !in Names(customers[..n])
            && customers[n] !in ts && customers[n] != "" && Strip(customers[n]) == customers[n]
  {
    hide Strip;
  }

  function Names(customers: seq<string>): set<string> {
    set c | c in customers
  }

  lemma UnfoldAll(ts: Tenants, customers: seq<string>)
    requires customers != []
    ensures var n := |customers| - 1;
            && BackfillAll(ts, customers) == BackfillOne(BackfillAll(ts, customers[..n]), customers[n])
            && EnsureAll(ts, customers) == EnsureOne(EnsureAll(ts, customers[..n]), customers[n])
  {
    hide EnsureOne, BackfillOne;
  }

  lemma NamesSnoc(customers: seq<string>)
    requires customers != []
    ensures Names(customers) == Names(customers[..|customers| - 1]) + {customers[|customers| - 1]}
  {
    assert customers == customers[..|customers| - 1] + [customers[|customers| - 1]];
  }

  /** New, stripped, pairwise different names get the same tenants from the batch as one by one. */
  lemma {:induction false} BackfillIsOneByOne(ts: Tenants, customers: seq<string>)
    requires NewNames(ts, customers)
    ensures var b := BackfillAll(ts, customers);
            && b.ts == EnsureAll(ts, customers) && b.used == b.ts.Values
            && b.ts.Keys == ts.Keys + Names(customers)
            && b.created == |customers|
    decreases |customers|
  {
    hide EnsureOne, BackfillOne, Strip, NewNames, Slugify, FreeSlug;
    if customers == [] {
      assert Names(customers) == {};
    } else {
      var n := |customers| - 1;
      NewNamesSplit(ts, customers);
      BackfillIsOneByOne(ts, customers[..n]);
      NamesSnoc(customers);
      SameStep(BackfillAll(ts, customers[..n]), customers[n]);
      UnfoldAll(ts, customers);
    }
  }

  /** The counter of the batch is the number of tenants it added. */
  lemma {:induction false} CreatedIsCounted(ts: Tenants, customers: seq<string>)
    ensures BackfillAll(ts, customers).created == |BackfillAll(ts, customers).ts| - |ts|
    decreases |customers|
  {
    hide Slugify, FreeSlug;
    if customers != [] {
      CreatedIsCounted(ts, customers[..|customers| - 1]);
    }
  }

  ghost predicate BatchOk(ts: Tenants, b: Batch) {
    && SlugsDistinct(b.ts) && b.ts.Values <= b.used && ts.Values <= b.used && ts.Keys <= b.ts.Keys
    && (forall name | name in ts :: b.ts[name] == ts[name])
    && (forall name | name in b.ts && name !in ts :: b.ts[name] !in ts.Values)
  }

  lemma BackfillOneKeepsBatchOk(ts: Tenants, b: Batch, c: string)
    requires BatchOk(ts, b)
    ensures BatchOk(ts, BackfillOne(b, c))
    ensures BackfillOne(b, c).ts.Keys == b.ts.Keys + {c}
  {
    hide Slugify;
    var slug := FreeSlug(b.used, Slugify(c));
    hide FreeSlug;
    if c !in b.ts {
      ValuesAfterInsert(b.ts, c, slug);
      assert forall name | name in b.ts :: b.ts[name] in b.ts.Values;
    }
  }

  /** The batch never reuses a slug, neither an existing one nor one of its own. */
  lemma {:induction false} BackfillSlugsAreDistinct(ts: Tenants, customers: seq<string>)
    requires SlugsDistinct(ts)
    ensures var b := BackfillAll(ts, customers);
            && SlugsDistinct(b.ts)
            && b.ts.Keys == ts.Keys + Names(customers)
            && (forall name | name in ts :: b.ts[name] == ts[name])
            && (forall name | name in b.ts && name !in ts :: b.ts[name] !in ts.Values)
    ensures BatchOk(ts, BackfillAll(ts, customers))
    decreases |customers|
  {
    if customers != [] {
      hide BackfillOne, Names, SlugsDistinct;
      var n := |customers| - 1;
      BackfillSlugsAreDistinct(ts, customers[..n]);
      NamesSnoc(customers);
      BackfillOneKeepsBatchOk(ts, BackfillAll(ts, customers[..n]), customers[n]);
    }
  }

  // ---------------------------------------------------------------------------------------
  // When the batch and the single calls agree
  // ---------------------------------------------------------------------------------------

  /** Every name costs the batch one slug, tenant or not. */
  lemma {:induction false} EveryNameSpendsASlug(ts: Tenants, customers: seq<string>)
    ensures |BackfillAll(ts, customers).used| == |ts.Values| + |customers|
    decreases |customers|
  {
    hide Slugify, FreeSlug;
    if customers != [] {
      EveryNameSpendsASlug(ts, customers[..|customers| - 1]);
    }
  }

  /** Stripped, not blank and pairwise different; some may have a tenant already. */
  ghost predicate ProperNames(customers: seq<string>) {
    && (forall i | 0 <= i < |customers| :: customers[i] != "" && Strip(customers[i]) == customers[i])
    && (forall i, j | 0 <= i < j < |customers| :: customers[i] != customers[j])
  }

  /** The slugs the batch has spent on customers that had a tenant already. */
  ghost function Spent(ts: Tenants, customers: seq<string>): set<string> {
    if customers == [] then {}
    else
      var n := |customers| - 1;
      Spent(ts, customers[..n]) +
      if customers[n] in ts then {FreeSlug(BackfillAll(ts, customers[..n]).used, Slugify(customers[n]))} else {}
  }

  /** Customer `j` is new, and the batch has spent the slug that the single call would choose. */
  ghost predicate MissesItsSlug(ts: Tenants, customers: seq<string>, j: nat)
    requires j < |customers|
  {
    && customers[j] !in ts
    && FreeSlug(EnsureAll(ts, customers[..j]).Values, Slugify(customers[j])) in Spent(ts, customers[..j])
  }

  /** More used slugs change the choice exactly when the chosen one is among them. */
  lemma FreeSlugGrows(used: set<string>, more: set<string>, base: string)
    requires used <= more
    ensures FreeSlug(used, base) == FreeSlug(more, base) <==> FreeSlug(used, base) !in more
  {
    assert Tried(base, 1) == {};
    var n := FirstFree(used, base, 1);
    hide Candidate;
    if Candidate(base, n) !in more {
      FreeIs(more, base, n);
    }
  }

  lemma StepAgrees(b: Batch, spent: set<string>, c: string)
    requires b.used == b.ts.Values + spent && c !in b.ts && c != "" && Strip(c) == c
    ensures BackfillOne(b, c).ts == EnsureOne(b.ts, c) <==> FreeSlug(b.ts.Values, Slugify(c)) !in spent
  {
    FreeSlugGrows(b.ts.Values, b.used, Slugify(c));
    hide FreeSlug, Slugify, Strip;
    assert BackfillOne(b, c).ts[c] == FreeSlug(b.used, Slugify(c));
  }

  lemma ProperNamesSplit(customers: seq<string>)
    requires ProperNames(customers) && customers != []
    ensures var n := |customers| - 1;
            && ProperNames(customers[..n]) && customers[n] !in Names(customers[..n])
            && customers[n] != "" && Strip(customers[n]) == customers[n]
  {
    hide Strip;
  }

  lemma BatchStep(b: Batch, spent: set<string>, c: string)
    requires b.used == b.ts.Values + spent
    ensures var b', slug := BackfillOne(b, c), FreeSlug(b.used, Slugify(c));
            && b'.ts.Keys == b.ts.Keys + {c}
            && b'.used == b'.ts.Values + spent + (if c in b.ts then {slug} else {})
            && (forall name | name in b.ts :: b'.ts[name] == b.ts[name])
            && (c in b.ts ==> b'.ts == b.ts)
  {
    hide Slugify, FreeSlug;
    if c !in b.ts {
      ValuesAfterInsert(b.ts, c, FreeSlug(b.used, Slugify(c)));
    }
  }

  lemma SingleStep(ts: Tenants, c: string)
    requires c != "" && Strip(c) == c
    ensures var ts' := EnsureOne(ts, c);
            && ts'.Keys == ts.Keys + {c}
            && (forall name | name in ts :: ts'[name] == ts[name])
            && (c in ts ==> ts' == ts)
  {
    hide Slugify, FreeSlug, Strip;
  }

  /** Both writers serve the same names, and the batch has used the slugs of its tenants and the spent ones. */
  lemma {:induction false} SameNames(ts: Tenants, customers: seq<string>)
    requires ProperNames(customers)
    ensures BackfillAll(ts, customers).ts.Keys == ts.Keys + Names(customers)
    ensures EnsureAll(ts, customers).Keys == ts.Keys + Names(customers)
    ensures BackfillAll(ts, customers).used == BackfillAll(ts, customers).ts.Values + Spent(ts, customers)
    decreases |customers|
  {
    hide ProperNames, EnsureOne, BackfillOne, FreeSlug, Slugify, Strip;
    if customers == [] {
      assert Names(customers) == {};
    } else {
      var n := |customers| - 1;
      ProperNamesSplit(customers);
      SameNames(ts, customers[..n]);
      NamesSnoc(customers);
      BatchStep(BackfillAll(ts, customers[..n]), Spent(ts, customers[..n]), customers[n]);
      SingleStep(EnsureAll(ts, customers[..n]), customers[n]);
    }
  }

  /** Two tables that differ go on differing while new names are added. */
  lemma StillDifferent(a: Tenants, b: Tenants, a': Tenants, b': Tenants)
    requires a.Keys == b.Keys && a != b && a.Keys <= a'.Keys && a.Keys <= b'.Keys
    requires forall name | name in a :: a'[name] == a[name] && b'[name] == b[name]
    ensures a' != b'
  {}

  lemma MissesPrefix(ts: Tenants, customers: seq<string>, n: nat, j: nat)
    requires j < n <= |customers|
    ensures MissesItsSlug(ts, customers[..n], j) <==> MissesItsSlug(ts, customers, j)
  {
    assert customers[..n][..j] == customers[..j];
  }

  /** The last name alone decides whether two equal tables stay equal. */
  lemma LastNameDecides(ts: Tenants, customers: seq<string>)
    requires ProperNames(customers) && customers != []
    requires BackfillAll(ts, customers[..|customers| - 1]).ts == EnsureAll(ts, customers[..|customers| - 1])
    ensures BackfillAll(ts, customers).ts == EnsureAll(ts, customers) <==>
            !MissesItsSlug(ts, customers, |customers| - 1)
  {
    hide ProperNames, BackfillOne, EnsureOne, FreeSlug, Slugify, Strip, Spent;
    var n := |customers| - 1;
    var c, b, spent := customers[n], BackfillAll(ts, customers[..n]), Spent(ts, customers[..n]);
    ProperNamesSplit(customers);
    SameNames(ts, customers[..n]);
    BatchStep(b, spent, c);
    SingleStep(b.ts, c);
    if c !in ts {
      StepAgrees(b, spent, c);
    }
  }

  lemma DifferenceStays(ts: Tenants, customers: seq<string>)
    requires ProperNames(customers) && customers != []
    requires BackfillAll(ts, customers[..|customers| - 1]).ts != EnsureAll(ts, customers[..|customers| - 1])
    ensures BackfillAll(ts, customers).ts != EnsureAll(ts, customers)
  {
    hide ProperNames, BackfillOne, EnsureOne, FreeSlug, Slugify, Strip, Spent;
    var n := |customers| - 1;
    ProperNamesSplit(customers);
    SameNames(ts, customers[..n]);
    BatchStep(BackfillAll(ts, customers[..n]), Spent(ts, customers[..n]), customers[n]);
    SingleStep(EnsureAll(ts, customers[..n]), customers[n]);
    StillDifferent(BackfillAll(ts, customers[..n]).ts, EnsureAll(ts, customers[..n]),
                   BackfillAll(ts, customers).ts, EnsureAll(ts, customers));
  }

  /**
   The batch gives the same tenants as the single calls, for any table, exactly when no new customer
   would get a slug that the batch spent before on a customer who had a tenant.
   */
  lemma {:induction false} BatchAgreesIff(ts: Tenants, customers: seq<string>)
    requires ProperNames(customers)
    ensures BackfillAll(ts, customers).ts == EnsureAll(ts, customers) <==>
            forall j | 0 <= j < |customers| :: !MissesItsSlug(ts, customers, j)
    decreases |customers|
  {
    hide BackfillOne, EnsureOne, MissesItsSlug, BackfillAll, EnsureAll;
    if customers == [] {
      NobodyServed(ts);
    } else {
      var n := |customers| - 1;
      ProperNamesSplit(customers);
      hide ProperNames;
      BatchAgreesIff(ts, customers[..n]);
      forall j | 0 <= j < n ensures MissesItsSlug(ts, customers[..n], j) <==> MissesItsSlug(ts, customers, j) {
        MissesPrefix(ts, customers, n, j);
      }
      if BackfillAll(ts, customers[..n]).ts == EnsureAll(ts, customers[..n]) {
        LastNameDecides(ts, customers);
      } else {
        DifferenceStays(ts, customers);
      }
    }
  }

  lemma NobodyServed(ts: Tenants)
    ensures BackfillAll(ts, []).ts == EnsureAll(ts, [])
  {}

  lemma SlugOfAB()
    ensures Slugify("A B") == "a-b" && Slugify("a-b") == "a-b"
    ensures Strip("A B") == "A B" && Strip("a-b") == "a-b"
  {
    hide Slugify, Strip, Lower, Alnum, IsWord, IsGap;
    AbWords();
    SlugOfWords("A", " ", "B");
    SlugOfWord("B");
    SlugOfWords("a", "-", "b");
    SlugOfWord("b");
    assert "A" + " " + "B" == "A B" && "a" + "-" + "b" == "a-b";
  }

  lemma AbWords()
    ensures IsWord("A") && IsWord("B") && IsWord("a") && IsWord("b") && IsGap(" ") && IsGap("-")
    ensures Alnum("B"[0]) && Alnum("b"[0])
    ensures Lower("A") == Lower("a") == "a" && Lower("B") == Lower("b") == "b"
    ensures Strip("A B") == "A B" && Strip("a-b") == "a-b"
  {
    TrimmedStrips("A B");
    TrimmedStrips("a-b");
    hide Strip;
  }

  /** With a tenant already there the batch burns a slug, and the next name gets a worse one. */
  lemma ExistingTenantBurnsSlug(ts: Tenants)
    requires ts == map["A B" := "other"]
    ensures Strip("A B") == "A B" && Strip("a-b") == "a-b"
    ensures EnsureAll(ts, ["A B", "a-b"]) == ts["a-b" := "a-b"]
    ensures BackfillAll(ts, ["A B", "a-b"]).ts == ts["a-b" := "a-b-2"]
  {
    SlugOfAB();
    BurntSlug(ts);
    hide EnsureOne, BackfillOne, Slugify, Strip, FreeSlug;
    var customers := ["A B", "a-b"];
    assert customers[..1] == ["A B"] && ["A B"][..0] == [];
    assert EnsureAll(ts, []) == ts && EnsureAll(ts, ["A B"]) == ts;
    assert BackfillAll(ts, []) == Batch(ts, ts.Values, 0);
    assert BackfillAll(ts, ["A B"]) == Batch(ts, ts.Values + {"a-b"}, 0);
  }

  lemma BurntSlug(ts: Tenants)
    requires ts == map["A B" := "other"]
    ensures EnsureOne(ts, "A B") == ts
    ensures EnsureOne(ts, "a-b") == ts["a-b" := "a-b"]
    ensures BackfillOne(Batch(ts, ts.Values, 0), "A B") == Batch(ts, ts.Values + {"a-b"}, 0)
    ensures BackfillOne(Batch(ts, ts.Values + {"a-b"}, 0), "a-b").ts == ts["a-b" := "a-b-2"]
  {
    SlugOfAB();
    hide Slugify, Strip;
    assert ts.Values == {"other"};
    assert "a-b" != "other" && "a-b" != "A B";
    assert |"a-b-2"| == 5 && "a-b-2" != "other" by { assert "a-b-2"[0] == 'a'; }
    FreeIs(ts.Values, "a-b", 1);
    assert Candidate("a-b", 2) == "a-b-2" by { assert Decimal(2) == "2"; }
    FreeIs(ts.Values + {"a-b"}, "a-b", 2);
  }

  lemma FreeIs(used: set<string>, base: string, n: nat)
    requires IsLeastFree(used, base, n)
    ensures FreeSlug(used, base) == Candidate(base, n)
  {
    assert Tried(base, 1) == {};
    LeastFreeIsUnique(used, base, n, FirstFree(used, base, 1));
  }
}
