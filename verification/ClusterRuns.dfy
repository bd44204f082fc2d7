/**
 Concurrent correlation. Each worker reads its siblings without any lock (possibly stale), takes the
 advisory transaction lock of its tenant key, runs the critical section on what its statements see,
 and commits or aborts. Workers of other tenants interleave freely, also between lock and commit.
 */
module ClusterRuns {
  import opened Clusters
  import opened ClusterRank
  import EntityStore

  type Worker = nat

  datatype Phase =
    | Idle
    | Ready(call: Call)                                          // siblings read, lock not yet taken
    | Locked(call: Call)                                         // lock held, nothing written
    | Written(call: Call, seen: View, mine: View, c: ClusterId)  // statements done, not committed

  /** `db` is the committed content; `log` the committed calls; `issued` every uuid ever generated. */
  datatype System = System(db: View, log: seq<Call>, phase: map<Worker, Phase>, issued: set<ClusterId>)

  datatype Action =
    | Read(w: Worker, call: Call)
    | Lock(w: Worker)
    | Work(w: Worker, seen: View, mine: View, c: ClusterId)
    | Commit(w: Worker)
    | Abort(w: Worker)

  predicate Holds(p: Phase) { p.Locked? || p.Written? }

  /** The committed rows of one tenant are the same in `a` and `b`. */
  ghost predicate SameFor(e: Estate, t: Tenant, a: View, b: View) {
    && (forall i | e.tenant(i) == t :: i in a.member <==> i in b.member)
    && (forall i | e.tenant(i) == t && i in a.member :: a.member[i] == b.member[i])
    && (forall c :: (c in a.clusters && a.clusters[c].tenant == t) <==> (c in b.clusters && b.clusters[c].tenant == t))
    && (forall c | c in a.clusters && a.clusters[c].tenant == t :: a.clusters[c] == b.clusters[c])
  }

  /** `base` with the entries that `mine` changed relative to `seen`: what a commit makes visible. */
  function Patch<K, V(==)>(base: map<K, V>, seen: map<K, V>, mine: map<K, V>): map<K, V> {
    map k | k in base.Keys + mine.Keys && (if SameAt(seen, mine, k) then k in base else k in mine) ::
      if SameAt(seen, mine, k) then base[k] else mine[k]
  }

  predicate SameAt<K, V(==)>(a: map<K, V>, b: map<K, V>, k: K) {
    (k in a <==> k in b) && (k in a ==> a[k] == b[k])
  }

  function Install(db: View, seen: View, mine: View): View {
    View(Patch(db.clusters, seen.clusters, mine.clusters), Patch(db.member, seen.member, mine.member))
  }

  ghost predicate Step(e: Estate, s: System, a: Action, s': System) {
    a.w in s.phase &&
    match a
    case Read(w, call) =>
      && s.phase[w].Idle? && WellFormedCall(e, call)
      && s' == s.(phase := s.phase[w := Ready(call)])
    case Lock(w) =>
      && s.phase[w].Ready?
      && var call := s.phase[w].call;
         && (forall v | v in s.phase && Holds(s.phase[v]) ::
               e.lockKey(e.tenant(s.phase[v].call.x)) != e.lockKey(e.tenant(call.x)))
         && s' == s.(phase := s.phase[w := Locked(call)])
    case Work(w, seen, mine, c) =>
      && s.phase[w].Locked?
      && var call := s.phase[w].call;
         && Consistent(e, seen) && SameFor(e, e.tenant(call.x), seen, s.db)
         && Correlated(e, seen, mine, call, c)
         && (c !in seen.clusters ==> c !in s.issued)
         && s' == s.(phase := s.phase[w := Written(call, seen, mine, c)], issued := s.issued + {c})
    case Commit(w) =>
      && s.phase[w].Written?
      && var p := s.phase[w];
         s' == s.(db := Install(s.db, p.seen, p.mine), log := s.log + [p.call], phase := s.phase[w := Idle])
    case Abort(w) =>
      && !s.phase[w].Idle?
      && s' == s.(phase := s.phase[w := Idle])
  }

  /**
   Whatever the sibling queries find, over entities shared by all tenants too, is a call the run can
   go on with: an idle worker may read it.
   */
  lemma SiblingReadIsEnabled(
    e: Estate, s: System, w: Worker, links: set<EntityStore.Link>, deleted: set<IncidentId>,
    x: IncidentId, ids: set<EntityStore.EntityId>, windowStart: int, minShared: int)
    requires w in s.phase && s.phase[w].Idle?
    requires EntityStore.Siblings(e, links, deleted, x, ids, windowStart, minShared) != {}
    ensures var call := Call(x, EntityStore.Siblings(e, links, deleted, x, ids, windowStart, minShared));
            Step(e, s, Read(w, call), s.(phase := s.phase[w := Ready(call)]))
  {
    EntityStore.SiblingsMakeWellFormedCall(e, links, deleted, x, ids, windowStart, minShared);
    hide WellFormedCall, EntityStore.Siblings;
  }

  ghost predicate Initial(s: System) {
    && s.db == View(map[], map[]) && s.log == [] && s.issued == {}
    && forall w | w in s.phase :: s.phase[w].Idle?
  }

  ghost predicate Run(e: Estate, states: seq<System>, actions: seq<Action>) {
    && |states| == |actions| + 1
    && Initial(states[0])
    && forall k | 0 <= k < |actions| :: Step(e, states[k], actions[k], states[k + 1])
  }

  /** The edges recorded by the committed calls. */
  function EdgesOf(log: seq<Call>): set<Edge> {
    if log == [] then {} else EdgesOf(log[..|log| - 1]) + Star(log[|log| - 1])
  }

  // ---------------------------------------------------------------------------------------
  // The invariant
  // ---------------------------------------------------------------------------------------

  ghost predicate Committed(e: Estate, s: System) {
    && Consistent(e, s.db)
    && IsPartition(s.db.member, EdgesOf(s.log))
    && s.db.clusters.Keys <= s.issued
  }

  ghost predicate WorkerOk(e: Estate, s: System, p: Phase) {
    && (!p.Idle? ==> WellFormedCall(e, p.call))
    && (p.Written? ==>
          && Consistent(e, p.seen) && SameFor(e, e.tenant(p.call.x), p.seen, s.db)
          && Correlated(e, p.seen, p.mine, p.call, p.c)
          && p.c in s.issued
          && (p.c !in p.seen.clusters ==> p.c !in s.db.clusters))
  }

  /** Two holders have different lock keys, hence different tenants, and never generated the same id. */
  ghost predicate Exclusive(e: Estate, p: Phase, q: Phase) {
    && (Holds(p) && Holds(q) ==> e.lockKey(e.tenant(p.call.x)) != e.lockKey(e.tenant(q.call.x)))
    && (p.Written? && q.Written? && p.c !in p.seen.clusters && q.c !in q.seen.clusters ==> p.c != q.c)
  }

  ghost predicate Inv(e: Estate, s: System) {
    && Committed(e, s)
    && (forall w | w in s.phase :: WorkerOk(e, s, s.phase[w]))
    && (forall w, v | w in s.phase && v in s.phase && w != v :: Exclusive(e, s.phase[w], s.phase[v]))
  }

  /** Absorbed clusters, and hence the winner, only depend on the rows of the call's own tenant. */
  lemma AbsorbedIsLocal(e: Estate, a: View, b: View, call: Call)
    requires WellFormedCall(e, call) && SameFor(e, e.tenant(call.x), a, b)
    ensures Absorbed(a.member, {call.x} + call.siblings) == Absorbed(b.member, {call.x} + call.siblings)
  {}

  /** The incidents whose membership a call may set. */
  ghost predicate Moves(member: map<IncidentId, ClusterId>, call: Call, i: IncidentId) {
    var ids := {call.x} + call.siblings;
    i in ids || (i in member && member[i] in Absorbed(member, ids))
  }

  lemma MovesOwnTenant(e: Estate, v: View, call: Call, i: IncidentId)
    requires TenantSafe(e, v) && WellFormedCall(e, call) && Moves(v.member, call, i)
    ensures e.tenant(i) == e.tenant(call.x)
  {
    if i !in {call.x} + call.siblings {
      AbsorbedIsOwnTenant(e, v, call, v.member[i]);
    }
  }

  /** Both contents agree on whom the call moves, and on everybody of its tenant. */
  lemma MovesIsLocal(e: Estate, seen: View, db: View, call: Call, i: IncidentId)
    requires TenantSafe(e, seen) && TenantSafe(e, db) && WellFormedCall(e, call)
    requires SameFor(e, e.tenant(call.x), seen, db)
    ensures Moves(seen.member, call, i) <==> Moves(db.member, call, i)
    ensures Moves(db.member, call, i) ==> SameAt(seen.member, db.member, i)
  {
    AbsorbedIsLocal(e, seen, db, call);
    if Moves(seen.member, call, i) { MovesOwnTenant(e, seen, call, i); }
    if Moves(db.member, call, i) { MovesOwnTenant(e, db, call, i); }
  }

  lemma InstalledMembers(e: Estate, db: View, seen: View, mine: View, call: Call, c: ClusterId)
    requires TenantSafe(e, seen) && TenantSafe(e, db) && WellFormedCall(e, call)
    requires SameFor(e, e.tenant(call.x), seen, db)
    requires mine.member == Joined(seen.member, {call.x} + call.siblings, c)
    ensures Patch(db.member, seen.member, mine.member) == Joined(db.member, {call.x} + call.siblings, c)
  {
    forall i
      ensures SameAt(Patch(db.member, seen.member, mine.member), Joined(db.member, {call.x} + call.siblings, c), i)
    {
      MovesIsLocal(e, seen, db, call, i);
      JoinedAt(seen.member, call, c, i);
      JoinedAt(db.member, call, c, i);
    }
    SameEverywhere(Patch(db.member, seen.member, mine.member), Joined(db.member, {call.x} + call.siblings, c));
  }

  lemma SameEverywhere(a: map<IncidentId, ClusterId>, b: map<IncidentId, ClusterId>)
    requires forall i :: SameAt(a, b, i)
    ensures a == b
  {
    forall i ensures i in a <==> i in b {
      assert SameAt(a, b, i);
    }
    forall i | i in a ensures a[i] == b[i] {
      assert SameAt(a, b, i);
    }
  }

  lemma JoinedAt(member: map<IncidentId, ClusterId>, call: Call, c: ClusterId, i: IncidentId)
    ensures var joined := Joined(member, {call.x} + call.siblings, c);
            && (Moves(member, call, i) ==> i in joined && joined[i] == c)
            && (!Moves(member, call, i) ==> SameAt(member, joined, i))
  {
    var ids := {call.x} + call.siblings;
    assert i in Joined(member, ids, c) <==> i in member.Keys + ids;
  }

  /** A correlation changes no row of another tenant. */
  lemma CorrelatedLeavesOthers(e: Estate, v: View, v': View, call: Call, c: ClusterId, t: Tenant)
    requires TenantSafe(e, v) && WellFormedCall(e, call) && Correlated(e, v, v', call, c)
    requires t != e.tenant(call.x)
    ensures SameFor(e, t, v, v')
  {
    LeavesOtherMembers(e, v, call, c, t);
    LeavesOtherClusters(e, v, v', call, c, t);
    hide Absorbed, MembersOf, IsWinner, Oldest, Joined, WellFormedCall, TenantSafe;
  }

  lemma LeavesOtherMembers(e: Estate, v: View, call: Call, c: ClusterId, t: Tenant)
    requires TenantSafe(e, v) && WellFormedCall(e, call) && t != e.tenant(call.x)
    ensures forall i | e.tenant(i) == t :: SameAt(v.member, Joined(v.member, {call.x} + call.siblings, c), i)
  {
    forall i | e.tenant(i) == t ensures SameAt(v.member, Joined(v.member, {call.x} + call.siblings, c), i) {
      JoinedAt(v.member, call, c, i);
      if Moves(v.member, call, i) {
        MovesOwnTenant(e, v, call, i);
      }
    }
  }

  lemma LeavesOtherClusters(e: Estate, v: View, v': View, call: Call, c: ClusterId, t: Tenant)
    requires TenantSafe(e, v) && WellFormedCall(e, call) && Correlated(e, v, v', call, c)
    requires t != e.tenant(call.x)
    ensures forall d ::
              (d in v.clusters && v.clusters[d].tenant == t) <==> (d in v'.clusters && v'.clusters[d].tenant == t)
    ensures forall d | d in v.clusters && v.clusters[d].tenant == t :: v.clusters[d] == v'.clusters[d]
  {
    hide Absorbed, MembersOf, Oldest, Joined, WellFormedCall, TenantSafe, Clip;
    CorrelatedKeepsTenants(e, v, v', call, c);
    var absorbed := Absorbed(v.member, {call.x} + call.siblings);
    forall d | d in absorbed ensures d in v.clusters && v.clusters[d].tenant != t {
      AbsorbedIsOwnTenant(e, v, call, d);
    }
    OtherRowsStay(v.clusters, v'.clusters, absorbed, c, t);
  }

  lemma OtherRowsStay(
    rows: map<ClusterId, Cluster>, rows': map<ClusterId, Cluster>, absorbed: set<ClusterId>, c: ClusterId, t: Tenant)
    requires rows'.Keys == rows.Keys - absorbed + {c} && rows'[c].tenant != t
    requires (forall d | d in absorbed :: d in rows && rows[d].tenant != t) && (c in rows ==> rows[c].tenant != t)
    requires forall d | d in rows' && d != c :: rows'[d] == rows[d]
    ensures forall d :: (d in rows && rows[d].tenant == t) <==> (d in rows' && rows'[d].tenant == t)
    ensures forall d | d in rows && rows[d].tenant == t :: rows[d] == rows'[d]
  {}

  /** What a commit publishes is one correlation of the committed content at that moment. */
  lemma CommitIsOneCorrelation(e: Estate, db: View, seen: View, mine: View, call: Call, c: ClusterId)
    requires Consistent(e, seen) && Consistent(e, db) && WellFormedCall(e, call)
    requires SameFor(e, e.tenant(call.x), seen, db) && Correlated(e, seen, mine, call, c)
    requires c !in seen.clusters ==> c !in db.clusters
    ensures Correlated(e, db, Install(db, seen, mine), call, c)
  {
    var ids, t := {call.x} + call.siblings, e.tenant(call.x);
    var db' := Install(db, seen, mine);
    InstalledMembers(e, db, seen, mine, call, c);
    InstalledClusters(e, db, seen, mine, call, c);
    AbsorbedIsLocal(e, seen, db, call);
    TargetMembersAreLocal(e, db, seen, call, c);
    WinnerIsLocal(e, db, seen, mine, call, c);
  }

  lemma TargetMembersAreLocal(e: Estate, db: View, seen: View, call: Call, c: ClusterId)
    requires TenantSafe(e, seen) && TenantSafe(e, db) && WellFormedCall(e, call)
    requires SameFor(e, e.tenant(call.x), seen, db)
    requires if c in seen.clusters then c in Absorbed(seen.member, {call.x} + call.siblings) else c !in db.clusters
    ensures MembersOf(Joined(db.member, {call.x} + call.siblings, c), c) ==
            MembersOf(Joined(seen.member, {call.x} + call.siblings, c), c)
  {
    var ids := {call.x} + call.siblings;
    AbsorbedIsLocal(e, seen, db, call);
    forall i ensures i in MembersOf(Joined(db.member, ids, c), c) <==> i in MembersOf(Joined(seen.member, ids, c), c) {
      MovesIsLocal(e, seen, db, call, i);
      JoinedAt(seen.member, call, c, i);
      JoinedAt(db.member, call, c, i);
    }
  }

  lemma WinnerIsLocal(e: Estate, db: View, seen: View, mine: View, call: Call, c: ClusterId)
    requires TenantSafe(e, seen) && TenantSafe(e, db) && WellFormedCall(e, call)
    requires SameFor(e, e.tenant(call.x), seen, db) && Correlated(e, seen, mine, call, c)
    ensures var absorbed := Absorbed(db.member, {call.x} + call.siblings);
            absorbed != {} ==> absorbed <= db.clusters.Keys && IsWinner(e, db.clusters, absorbed, c)
  {
    AbsorbedIsLocal(e, seen, db, call);
    var absorbed := Absorbed(db.member, {call.x} + call.siblings);
    forall d | d in absorbed ensures d in db.clusters && d in seen.clusters && db.clusters[d] == seen.clusters[d] {
      AbsorbedIsOwnTenant(e, db, call, d);
    }
  }

  lemma InstalledClusters(e: Estate, db: View, seen: View, mine: View, call: Call, c: ClusterId)
    requires TenantSafe(e, seen) && TenantSafe(e, db) && WellFormedCall(e, call)
    requires SameFor(e, e.tenant(call.x), seen, db) && Correlated(e, seen, mine, call, c)
    requires c !in seen.clusters ==> c !in db.clusters
    ensures var patched := Patch(db.clusters, seen.clusters, mine.clusters);
            && patched.Keys == db.clusters.Keys - Absorbed(db.member, {call.x} + call.siblings) + {c}
            && patched[c] == mine.clusters[c]
            && (c in seen.clusters ==> c in db.clusters && db.clusters[c] == seen.clusters[c])
            && forall d | d in patched && d != c :: patched[d] == db.clusters[d]
  {
    var absorbed := Absorbed(seen.member, {call.x} + call.siblings);
    AbsorbedIsLocal(e, seen, db, call);
    forall d | d in absorbed ensures d in seen.clusters && d in db.clusters && seen.clusters[d] == db.clusters[d] {
      AbsorbedIsOwnTenant(e, seen, call, d);
    }
    PatchedRows(db.clusters, seen.clusters, mine.clusters, absorbed, c);
  }

  lemma PatchedRows(
    db: map<ClusterId, Cluster>, seen: map<ClusterId, Cluster>, mine: map<ClusterId, Cluster>,
    absorbed: set<ClusterId>, c: ClusterId)
    requires mine.Keys == seen.Keys - absorbed + {c}
    requires forall d | d in mine && d != c :: mine[d] == seen[d]
    requires forall d | d in absorbed :: d in seen && d in db && seen[d] == db[d]
    requires if c in seen then c in absorbed else c !in db
    ensures var patched := Patch(db, seen, mine);
            && patched.Keys == db.Keys - absorbed + {c}
            && patched[c] == mine[c]
            && forall d | d in patched && d != c :: patched[d] == db[d]
  {
    forall d | d != c ensures SameAt(seen, mine, d) <==> d !in absorbed {}
  }

  // ---------------------------------------------------------------------------------------
  // Every step keeps the invariant
  // ---------------------------------------------------------------------------------------

  /** The content after worker phase `p` commits on top of `db`. */
  lemma CommitEffect(e: Estate, s: System, p: Phase)
    requires Committed(e, s) && p.Written? && WorkerOk(e, s, p)
    ensures var db' := Install(s.db, p.seen, p.mine);
            && Correlated(e, s.db, db', p.call, p.c)
            && Consistent(e, db')
            && IsPartition(db'.member, EdgesOf(s.log) + Star(p.call))
            && db'.clusters.Keys <= s.issued
  {
    hide Consistent, Correlated, IsPartition, Install, SameFor, WellFormedCall;
    CommitIsOneCorrelation(e, s.db, p.seen, p.mine, p.call, p.c);
    var db' := Install(s.db, p.seen, p.mine);
    CorrelatedKeepsConsistent(e, s.db, db', p.call, p.c);
    CorrelatedKeepsPartition(e, s.db, db', p.call, p.c, EdgesOf(s.log));
  }

  lemma CommitKeepsCommitted(e: Estate, s: System, w: Worker, s': System)
    requires Inv(e, s) && Step(e, s, Commit(w), s')
    ensures Committed(e, s')
    ensures Correlated(e, s.db, s'.db, s.phase[w].call, s.phase[w].c)
  {
    CommitEffect(e, s, s.phase[w]);
    assert s'.log[..|s.log|] == s.log;
  }

  lemma SameForTransitive(e: Estate, t: Tenant, a: View, b: View, c: View)
    requires SameFor(e, t, a, b) && SameFor(e, t, b, c)
    ensures SameFor(e, t, a, c)
  {}

  /** A commit by `p` leaves what another worker `q` relies on untouched. */
  lemma CommitKeepsWorker(e: Estate, s: System, p: Phase, s': System, q: Phase)
    requires Committed(e, s) && p.Written? && WorkerOk(e, s, p) && WorkerOk(e, s, q) && Exclusive(e, p, q)
    requires s'.db == Install(s.db, p.seen, p.mine) && s'.issued == s.issued
    ensures WorkerOk(e, s', q)
  {
    CommitEffect(e, s, p);
    if q.Written? {
      var t := e.tenant(q.call.x);
      CorrelatedLeavesOthers(e, s.db, s'.db, p.call, p.c, t);
      SameForTransitive(e, t, q.seen, s.db, s'.db);
      if q.c !in q.seen.clusters {
        FreshStaysFresh(e, s, p, s'.db, q);
      }
    }
  }

  lemma FreshStaysFresh(e: Estate, s: System, p: Phase, db': View, q: Phase)
    requires p.Written? && WorkerOk(e, s, p)
    requires q.Written? && WorkerOk(e, s, q) && Exclusive(e, p, q)
    requires db'.clusters.Keys <= s.db.clusters.Keys + {p.c}
    requires TenantSafe(e, s.db)
    requires q.c !in q.seen.clusters
    ensures q.c !in db'.clusters
  {
    hide Correlated, TenantSafe, Consistent, SameFor, WellFormedCall;
    assert q.c !in s.db.clusters;
    if p.c in p.seen.clusters {
      assert p.c in s.db.clusters by {
        TargetWasCommitted(e, p.seen, p.mine, p.call, p.c, s.db);
      }
    }
  }

  /** A reused or winning cluster is one of the committed ones. */
  lemma TargetWasCommitted(e: Estate, seen: View, mine: View, call: Call, c: ClusterId, db: View)
    requires Correlated(e, seen, mine, call, c) && c in seen.clusters
    requires WellFormedCall(e, call) && SameFor(e, e.tenant(call.x), seen, db) && TenantSafe(e, db)
    ensures c in db.clusters
  {
    AbsorbedIsLocal(e, seen, db, call);
    AbsorbedIsOwnTenant(e, db, call, c);
  }

  lemma CommitKeepsWorkers(e: Estate, s: System, w: Worker, s': System, v: Worker)
    requires Inv(e, s) && Step(e, s, Commit(w), s') && v in s.phase
    ensures WorkerOk(e, s', s'.phase[v])
  {
    if v != w {
      hide WorkerOk, Exclusive, Committed, Install;
      CommitKeepsWorker(e, s, s.phase[w], s', s.phase[v]);
    }
  }

  lemma CommitKeepsExclusive(e: Estate, s: System, w: Worker, s': System, u: Worker, v: Worker)
    requires Inv(e, s) && Step(e, s, Commit(w), s')
    requires u in s.phase && v in s.phase && u != v
    ensures Exclusive(e, s'.phase[u], s'.phase[v])
  {
    hide WorkerOk, Committed, Install;
    assert Exclusive(e, s.phase[u], s.phase[v]);
  }

  lemma CommitKeepsInv(e: Estate, s: System, w: Worker, s': System)
    requires Inv(e, s) && Step(e, s, Commit(w), s')
    ensures Inv(e, s')
  {
    hide WorkerOk, Exclusive, Committed, Install, Step, Correlated;
    SamePhases(e, s, w, s');
    CommitKeepsCommitted(e, s, w, s');
    forall v | v in s'.phase ensures WorkerOk(e, s', s'.phase[v]) {
      CommitKeepsWorkers(e, s, w, s', v);
    }
    forall u, v | u in s'.phase && v in s'.phase && u != v ensures Exclusive(e, s'.phase[u], s'.phase[v]) {
      CommitKeepsExclusive(e, s, w, s', u, v);
    }
  }

  lemma SamePhases(e: Estate, s: System, w: Worker, s': System)
    requires Step(e, s, Commit(w), s')
    ensures s'.phase.Keys == s.phase.Keys
  {}

  lemma StepKeepsInv(e: Estate, s: System, a: Action, s': System)
    requires Inv(e, s) && Step(e, s, a, s')
    ensures Inv(e, s')
  {
    hide Inv, Step;
    if a.Commit? {
      CommitKeepsInv(e, s, a.w, s');
    } else {
      QuietStepKeepsInv(e, s, a, s');
    }
  }

  /** Steps that publish nothing. */
  lemma QuietStepKeepsInv(e: Estate, s: System, a: Action, s': System)
    requires Inv(e, s) && Step(e, s, a, s') && !a.Commit?
    ensures Inv(e, s')
  {
    hide Consistent, Correlated, SameFor, IsPartition, WellFormedCall;
    assert WorkerOk(e, s, s.phase[a.w]);
    forall v | v in s'.phase ensures WorkerOk(e, s', s'.phase[v]) {
      assert WorkerOk(e, s, s.phase[v]);
    }
    forall u, v | u in s'.phase && v in s'.phase && u != v ensures Exclusive(e, s'.phase[u], s'.phase[v]) {
      assert Exclusive(e, s.phase[u], s.phase[v]);
      assert WorkerOk(e, s, s.phase[u]) && WorkerOk(e, s, s.phase[v]);
    }
  }

  // ---------------------------------------------------------------------------------------
  // What holds of every run
  // ---------------------------------------------------------------------------------------

  lemma {:induction false} RunKeepsInv(e: Estate, states: seq<System>, actions: seq<Action>)
    requires Run(e, states, actions)
    ensures forall k | 0 <= k < |states| :: Inv(e, states[k])
  {
    assert Inv(e, states[0]);
    for n := 0 to |actions|
      invariant forall k | 0 <= k <= n :: Inv(e, states[k])
    {
      StepKeepsInv(e, states[n], actions[n], states[n + 1]);
    }
  }

  /**
   In every state of every interleaving, the committed clusters are exactly the connected components
   of the recorded edges, no cluster mixes tenants, and counts and seeds are right.
   */
  lemma ClustersAreComponents(e: Estate, states: seq<System>, actions: seq<Action>, k: nat)
    requires Run(e, states, actions) && k < |states|
    ensures var db := states[k].db;
            && IsPartition(db.member, EdgesOf(states[k].log))
            && (forall i | i in db.member ::
                  db.member[i] in db.clusters && db.clusters[db.member[i]].tenant == e.tenant(i))
            && (forall c | c in db.clusters :: Settled(e, db, c) && Titled(e, db, c))
  {
    RunKeepsInv(e, states, actions);
  }

  lemma EdgesGrow(log: seq<Call>, n: nat)
    requires n <= |log|
    ensures EdgesOf(log[..n]) <= EdgesOf(log)
    decreases |log| - n
  {
    if n < |log| {
      assert log[..n + 1][..n] == log[..n];
      EdgesGrow(log, n + 1);
    } else {
      assert log[..n] == log;
    }
  }

  lemma EdgesAreStars(log: seq<Call>, edge: Edge)
    ensures edge in EdgesOf(log) <==> exists call :: call in log && edge in Star(call)
  {
    if log != [] {
      var n := |log| - 1;
      EdgesAreStars(log[..n], edge);
      assert log == log[..n] + [log[n]];
    }
  }

  lemma {:induction false} LogGrows(e: Estate, states: seq<System>, actions: seq<Action>, k: nat, m: nat)
    requires Run(e, states, actions) && k <= m < |states|
    ensures |states[k].log| <= |states[m].log| && states[m].log[..|states[k].log|] == states[k].log
  {
    for n := k to m
      invariant |states[k].log| <= |states[n].log| && states[n].log[..|states[k].log|] == states[k].log
    {
      assert Step(e, states[n], actions[n], states[n + 1]);
    }
  }

  /** Incidents once in the same cluster stay in the same cluster. */
  lemma CoMembersStayTogether(
    e: Estate, states: seq<System>, actions: seq<Action>, k: nat, m: nat, i: IncidentId, j: IncidentId)
    requires Run(e, states, actions) && k <= m < |states|
    requires i in states[k].db.member && j in states[k].db.member
    requires states[k].db.member[i] == states[k].db.member[j]
    ensures i in states[m].db.member && j in states[m].db.member
    ensures states[m].db.member[i] == states[m].db.member[j]
  {
    ClustersAreComponents(e, states, actions, k);
    ClustersAreComponents(e, states, actions, m);
    LogGrows(e, states, actions, k, m);
    var early, late := EdgesOf(states[k].log), EdgesOf(states[m].log);
    EdgesGrow(states[m].log, |states[k].log|);
    ConnectedMonotone(early, late, i, j);
    var a :| Linked(early, i, a);
    assert Linked(late, i, a);
    var b :| Linked(early, j, b);
    assert Linked(late, j, b);
  }

  /** The order of the calls does not matter: runs that committed the same calls agree on the partition. */
  lemma OrderDoesNotMatter(
    e: Estate, states1: seq<System>, actions1: seq<Action>, k1: nat,
    states2: seq<System>, actions2: seq<Action>, k2: nat)
    requires Run(e, states1, actions1) && k1 < |states1|
    requires Run(e, states2, actions2) && k2 < |states2|
    requires forall call :: call in states1[k1].log <==> call in states2[k2].log
    ensures var m1, m2 := states1[k1].db.member, states2[k2].db.member;
            && m1.Keys == m2.Keys
            && forall i, j | i in m1 && j in m1 :: m1[i] == m1[j] <==> m2[i] == m2[j]
  {
    ClustersAreComponents(e, states1, actions1, k1);
    ClustersAreComponents(e, states2, actions2, k2);
    var log1, log2 := states1[k1].log, states2[k2].log;
    forall edge ensures edge in EdgesOf(log1) <==> edge in EdgesOf(log2) {
      EdgesAreStars(log1, edge);
      EdgesAreStars(log2, edge);
    }
    assert EdgesOf(log1) == EdgesOf(log2);
    PartitionIsUnique(states1[k1].db.member, states2[k2].db.member, EdgesOf(log1));
  }

  /** While a worker holds its lock nobody else changes its tenant's committed rows. */
  lemma LockFreezesTenant(e: Estate, s: System, a: Action, s': System, w: Worker)
    requires Inv(e, s) && Step(e, s, a, s')
    requires w in s.phase && Holds(s.phase[w]) && a.w != w
    ensures SameFor(e, e.tenant(s.phase[w].call.x), s.db, s'.db)
  {
    if a.Commit? {
      assert Exclusive(e, s.phase[a.w], s.phase[w]);
      assert WorkerOk(e, s, s.phase[a.w]);
      CommitKeepsCommitted(e, s, a.w, s');
      CorrelatedLeavesOthers(e, s.db, s'.db, s.phase[a.w].call, s.phase[a.w].c, e.tenant(s.phase[w].call.x));
    }
  }
}
