/**
 `auth/tenancy.py`, who can see what: the breadth-first closure over the tenant parent links (which may
 be cyclic), the natural scope of a user, and the narrowing header.
 */
module TenantScope {
  import opened Wrappers

  type TenantId = nat

  datatype Tier = Host | Mssp | Client

  /** One row of `tenants`. */
  datatype Tenant = Tenant(parent: Option<TenantId>, tier: Tier)

  type Tenants = map<TenantId, Tenant>

  /** `None` is unrestricted. */
  type Scope = Option<set<TenantId>>

  datatype User = User(isAdmin: bool, memberships: seq<TenantId>)

  // ---------------------------------------------------------------------------------------
  // Reachability
  // ---------------------------------------------------------------------------------------

  predicate ChildOf(ts: Tenants, child: TenantId, parent: TenantId) {
    child in ts && ts[child].parent == Some(parent)
  }

  function Children(ts: Tenants, parents: set<TenantId>): set<TenantId> {
    set c | c in ts && ts[c].parent.Some? && ts[c].parent.value in parents
  }

  /** A chain of parent links from `a` down to `b`. */
  ghost predicate Chain(ts: Tenants, path: seq<TenantId>, a: TenantId, b: TenantId) {
    && |path| > 0 && path[0] == a && path[|path| - 1] == b
    && forall k | 0 < k < |path| :: ChildOf(ts, path[k], path[k - 1])
  }

  ghost predicate Reaches(ts: Tenants, a: TenantId, b: TenantId) {
    exists path :: Chain(ts, path, a, b)
  }

  /** `roots` and everything below them. */
  ghost predicate Below(ts: Tenants, roots: set<TenantId>, b: TenantId) {
    exists a :: a in roots && Reaches(ts, a, b)
  }

  ghost predicate Closed(ts: Tenants, s: set<TenantId>) {
    forall c | c in Children(ts, s) :: c in s
  }

  lemma ReachesExtends(ts: Tenants, a: TenantId, b: TenantId, c: TenantId)
    requires Reaches(ts, a, b) && ChildOf(ts, c, b)
    ensures Reaches(ts, a, c)
  {
    var path :| Chain(ts, path, a, b);
    assert Chain(ts, path + [c], a, c);
  }

  lemma {:induction false} ClosedContainsReachable(
    ts: Tenants, s: set<TenantId>, path: seq<TenantId>, a: TenantId, b: TenantId)
    requires Closed(ts, s) && a in s && Chain(ts, path, a, b)
    ensures b in s
    decreases |path|
  {
    if |path| > 1 {
      var c := path[|path| - 2];
      ClosedContainsReachable(ts, s, path[..|path| - 1], a, c);
      assert ChildOf(ts, path[|path| - 1], c);
    }
  }

  lemma RootsAreBelow(ts: Tenants, roots: set<TenantId>)
    ensures forall b | b in roots :: Below(ts, roots, b)
  {
    forall b | b in roots ensures Below(ts, roots, b) {
      assert Chain(ts, [b], b, b);
    }
  }

  lemma BelowExtends(ts: Tenants, roots: set<TenantId>, p: TenantId, c: TenantId)
    requires Below(ts, roots, p) && ChildOf(ts, c, p)
    ensures Below(ts, roots, c)
  {
    var a :| a in roots && Reaches(ts, a, p);
    ReachesExtends(ts, a, p, c);
  }

  lemma ClosedIsEverything(ts: Tenants, roots: set<TenantId>, s: set<TenantId>)
    requires roots <= s && Closed(ts, s)
    ensures forall b | Below(ts, roots, b) :: b in s
  {
    forall b | Below(ts, roots, b) ensures b in s {
      var a :| a in roots && Reaches(ts, a, b);
      var path :| Chain(ts, path, a, b);
      ClosedContainsReachable(ts, s, path, a, b);
    }
  }

  /**
   `_descendants`: terminates on any parent graph, cycles included, with exactly the roots and
   everything reachable from them.
   */
  method Descendants(ts: Tenants, roots: set<TenantId>) returns (seen: set<TenantId>)
    ensures forall b :: b in seen <==> Below(ts, roots, b)
  {
    seen := roots;
    var frontier := roots;
    RootsAreBelow(ts, roots);
    hide Below;
    while frontier != {}
      invariant roots <= seen && frontier <= seen
      invariant forall b | b in seen :: Below(ts, roots, b)
      invariant forall c | c in Children(ts, seen - frontier) :: c in seen
      decreases ts.Keys - seen, |frontier|
    {
      var children := Children(ts, frontier);
      var added := children - seen;
      if added == {} {
        assert Closed(ts, seen) by {
          forall c | c in Children(ts, seen) ensures c in seen {
            assert c in added || c in seen || c in Children(ts, seen - frontier);
          }
        }
        break;
      }
      forall c | c in added ensures Below(ts, roots, c) {
        BelowExtends(ts, roots, ts[c].parent.value, c);
      }
      var c :| c in added;
      assert c in ts.Keys - seen && c !in ts.Keys - (seen + added);
      seen := seen + added;
      frontier := added;
    }
    assert Closed(ts, seen) by {
      assert frontier == {} ==> seen - frontier == seen;
    }
    ClosedIsEverything(ts, roots, seen);
  }

  lemma ReachesTransitive(ts: Tenants, a: TenantId, b: TenantId, c: TenantId)
    requires Reaches(ts, a, b) && Reaches(ts, b, c)
    ensures Reaches(ts, a, c)
  {
    var p :| Chain(ts, p, a, b);
    var q :| Chain(ts, q, b, c);
    var r := p + q[1..];
    forall k | 0 < k < |r| ensures ChildOf(ts, r[k], r[k - 1]) {
      if k >= |p| {
        assert r[k] == q[k - |p| + 1] && r[k - 1] == q[k - |p|];
      }
    }
    assert Chain(ts, r, a, c);
  }

  /** The closure is extensive, monotone and idempotent. */
  lemma DescendantsIsAClosure(ts: Tenants, roots: set<TenantId>, more: set<TenantId>, b: TenantId)
    requires roots <= more
    ensures b in roots ==> Below(ts, roots, b)
    ensures Below(ts, roots, b) ==> Below(ts, more, b)
    ensures (exists a :: Below(ts, roots, a) && Reaches(ts, a, b)) <==> Below(ts, roots, b)
  {
    assert Chain(ts, [b], b, b);
    if a :| Below(ts, roots, a) && Reaches(ts, a, b) {
      var r :| r in roots && Reaches(ts, r, a);
      ReachesTransitive(ts, r, a, b);
    }
  }

  // ---------------------------------------------------------------------------------------
  // Scopes
  // ---------------------------------------------------------------------------------------

  /** The join of memberships with existing tenants. */
  function Joined(ts: Tenants, user: User): set<TenantId> {
    set t | t in user.memberships && t in ts
  }

  function MsspRoots(ts: Tenants, user: User): set<TenantId> {
    set t | t in Joined(ts, user) && ts[t].tier.Mssp?
  }

  ghost predicate Unrestricted(ts: Tenants, user: User) {
    user.isAdmin || exists t :: t in Joined(ts, user) && ts[t].tier.Host?
  }

  /** A tenant is visible when it is a membership or lies below an MSSP membership. */
  ghost predicate Visible(ts: Tenants, user: User, t: TenantId) {
    t in Joined(ts, user) || Below(ts, MsspRoots(ts, user), t)
  }

  /** The scope of a user in terms of the memberships alone. */
  lemma ScopeOfMemberships(ts: Tenants, user: User, t: TenantId)
    ensures Unrestricted(ts, user) <==>
            user.isAdmin || exists m :: m in user.memberships && m in ts && ts[m].tier == Host
    ensures Visible(ts, user, t) <==>
            exists m :: m in user.memberships && m in ts && (m == t || (ts[m].tier == Mssp && Reaches(ts, m, t)))
  {
    hide Reaches;
    if Below(ts, MsspRoots(ts, user), t) {
      var m :| m in MsspRoots(ts, user) && Reaches(ts, m, t);
      assert m in user.memberships && m in ts && ts[m].tier == Mssp;
    }
    if m :| m in user.memberships && m in ts && ts[m].tier == Mssp && Reaches(ts, m, t) {
      assert m in MsspRoots(ts, user);
    }
  }

  /** `resolve_tenant_scope`. */
  method ResolveScope(ts: Tenants, user: User) returns (scope: Scope)
    ensures scope == None <==> Unrestricted(ts, user)
    ensures scope.Some? ==> forall t :: t in scope.value <==> Visible(ts, user, t)
  {
    if user.isAdmin {
      return None;
    }
    var found, expand := {}, {};
    for n := 0 to |user.memberships|
      invariant forall t :: t in found <==> t in user.memberships[..n] && t in ts
      invariant forall t :: t in expand <==> t in found && ts[t].tier.Mssp?
      invariant forall t | t in found :: !ts[t].tier.Host?
    {
      var t := user.memberships[n];
      assert user.memberships[..n + 1] == user.memberships[..n] + [t];
      if t in ts {
        if ts[t].tier.Host? {
          return None;
        }
        found := found + {t};
        if ts[t].tier.Mssp? {
          expand := expand + {t};
        }
      }
    }
    assert user.memberships[..|user.memberships|] == user.memberships;
    assert found == Joined(ts, user) && expand == MsspRoots(ts, user);
    if expand != {} {
      var below := Descendants(ts, expand);
      found := found + below;
    }
    scope := Some(found);
  }

  /** The X-Tenant-Scope header: absent, not a UUID, or a tenant id. */
  datatype Header = Absent | Malformed | Override(id: TenantId)

  /** `current_tenant_scope`. */
  method CurrentScope(ts: Tenants, user: User, header: Header) returns (scope: Scope)
    ensures var narrowed := && header.Override? && header.id in ts
                            && (Unrestricted(ts, user) || Visible(ts, user, header.id));
            && (narrowed ==> scope.Some? && forall t :: t in scope.value <==> Reaches(ts, header.id, t))
            && (!narrowed ==> (scope == None <==> Unrestricted(ts, user)))
            && (!narrowed && scope.Some? ==> forall t :: t in scope.value <==> Visible(ts, user, t))
  {
    var natural := ResolveScope(ts, user);
    match header
    case Absent => return natural;
    case Malformed => return natural;
    case Override(id) =>
      if natural.Some? && id !in natural.value {
        return natural;
      }
      if id !in ts {
        return natural;
      }
      var below := Descendants(ts, {id});
      forall t ensures t in below <==> Reaches(ts, id, t) {
        if Reaches(ts, id, t) { assert Below(ts, {id}, t); }
      }
      scope := Some(below);
  }

  /** No override shows a restricted user more than the natural scope. */
  ghost predicate OverridesNarrow(ts: Tenants, user: User) {
    forall id, t | Visible(ts, user, id) && Reaches(ts, id, t) :: Visible(ts, user, t)
  }

  /** Every child of a membership that is not expanded is visible anyway. */
  ghost predicate LeavesAreVisible(ts: Tenants, user: User) {
    forall m, c | m in Joined(ts, user) && !ts[m].tier.Mssp? && ChildOf(ts, c, m) :: Visible(ts, user, c)
  }

  lemma VisibleChildren(ts: Tenants, user: User, p: TenantId, c: TenantId)
    requires LeavesAreVisible(ts, user) && Visible(ts, user, p) && ChildOf(ts, c, p)
    ensures Visible(ts, user, c)
  {
    var roots := MsspRoots(ts, user);
    if Below(ts, roots, p) {
      var a :| a in roots && Reaches(ts, a, p);
      ReachesExtends(ts, a, p, c);
    } else if ts[p].tier.Mssp? {
      assert p in roots && Chain(ts, [p, c], p, c);
      assert Below(ts, roots, c);
    }
  }

  lemma {:induction false} VisibleAlongChain(ts: Tenants, user: User, path: seq<TenantId>, id: TenantId, t: TenantId)
    requires LeavesAreVisible(ts, user) && Visible(ts, user, id) && Chain(ts, path, id, t)
    ensures Visible(ts, user, t)
    decreases |path|
  {
    if |path| > 1 {
      var p := path[|path| - 2];
      VisibleAlongChain(ts, user, path[..|path| - 1], id, p);
      assert ChildOf(ts, path[|path| - 1], p);
      VisibleChildren(ts, user, p, t);
    }
  }

  /** Overrides only ever narrow exactly when the children of plain memberships are visible anyway. */
  lemma OverridesNarrowIff(ts: Tenants, user: User)
    ensures OverridesNarrow(ts, user) <==> LeavesAreVisible(ts, user)
  {
    if LeavesAreVisible(ts, user) {
      forall id, t | Visible(ts, user, id) && Reaches(ts, id, t) ensures Visible(ts, user, t) {
        var path :| Chain(ts, path, id, t);
        VisibleAlongChain(ts, user, path, id, t);
      }
    }
    if OverridesNarrow(ts, user) {
      forall m, c | m in Joined(ts, user) && !ts[m].tier.Mssp? && ChildOf(ts, c, m) ensures Visible(ts, user, c) {
        assert Chain(ts, [m, c], m, c);
        assert Visible(ts, user, m) && Reaches(ts, m, c);
      }
    }
  }

  /** In particular when clients have no children, as the tier model intends. */
  lemma ClientsWithoutChildrenNarrow(ts: Tenants, user: User)
    requires forall c, p | ChildOf(ts, c, p) && p in ts :: !ts[p].tier.Client?
    requires !Unrestricted(ts, user)
    ensures OverridesNarrow(ts, user)
  {
    OverridesNarrowIff(ts, user);
  }

  /** A client with a child: the override shows the child, which the natural scope hides. */
  lemma ClientWithChildWidens() returns (ts: Tenants, user: User)
    ensures !Unrestricted(ts, user) && Visible(ts, user, 1)
    ensures Reaches(ts, 1, 2) && !Visible(ts, user, 2)
  {
    ts := map[1 := Tenant(None, Client), 2 := Tenant(Some(1), Client)];
    user := User(false, [1]);
    assert MsspRoots(ts, user) == {};
    assert Chain(ts, [1, 2], 1, 2);
  }
}
