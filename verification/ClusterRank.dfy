/**
 The invariants of the cluster rows (`member_count`, `seed_incident_id`, `tenant_id`), the order
 that picks the winner of a merge, and the effect of one correlation on whole rows.
 */
module ClusterRank {
  import opened Wrappers
  import opened Clusters

  function MembersOf(member: map<IncidentId, ClusterId>, c: ClusterId): set<IncidentId> {
    set i | i in member && member[i] == c
  }

  /** `i` has minimal `created_at` among `ids`. */
  predicate Oldest(e: Estate, ids: set<IncidentId>, i: IncidentId) {
    i in ids && forall j | j in ids :: e.created(i) <= e.created(j)
  }

  ghost predicate Settled(e: Estate, v: View, c: ClusterId)
    requires c in v.clusters
  {
    var members := MembersOf(v.member, c);
    && v.clusters[c].memberCount == |members|
    && |members| >= 2
    && v.clusters[c].seed.Some?
    && Oldest(e, members, v.clusters[c].seed.value)
  }

  /** Every membership points at a cluster of the incident's own tenant. */
  ghost predicate TenantSafe(e: Estate, v: View) {
    forall i | i in v.member :: v.member[i] in v.clusters && v.clusters[v.member[i]].tenant == e.tenant(i)
  }

  /** A cluster's title, if it has one, is that of one of its members, cut at 512 characters. */
  ghost predicate Titled(e: Estate, v: View, c: ClusterId)
    requires c in v.clusters
  {
    v.clusters[c].title.Some? ==>
      exists i :: i in MembersOf(v.member, c) && v.clusters[c].title.value == Clip(e.title(i))
  }

  /** What holds of the committed tables between calls. */
  ghost predicate Consistent(e: Estate, v: View) {
    && TenantSafe(e, v)
    && (forall c | c in v.clusters :: Settled(e, v, c))
    && (forall c | c in v.clusters :: Titled(e, v, c))
  }

  // ---------------------------------------------------------------------------------------
  // The winner of a merge
  // ---------------------------------------------------------------------------------------

  /** `seed_created.get(...)`: missing when the cluster has no seed. */
  function SeedTime(e: Estate, c: Cluster): Option<int> {
    if c.seed.Some? then Some(e.created(c.seed.value)) else None
  }

  /** The tuple order of `_rank`: a known timestamp first, then the older one, then the smaller id. */
  predicate RankBelow(e: Estate, clusters: map<ClusterId, Cluster>, a: ClusterId, b: ClusterId)
    requires a in clusters && b in clusters
  {
    var ta, tb := SeedTime(e, clusters[a]), SeedTime(e, clusters[b]);
    if ta.None? != tb.None? then tb.None?
    else if ta != tb then ta.value < tb.value
    else a < b
  }

  /** `_rank` never compares a timestamp with a missing one and orders any two clusters strictly. */
  lemma RankIsStrictTotalOrder(e: Estate, clusters: map<ClusterId, Cluster>, a: ClusterId, b: ClusterId, c: ClusterId)
    requires a in clusters && b in clusters && c in clusters
    ensures !RankBelow(e, clusters, a, a)
    ensures a != b ==> (RankBelow(e, clusters, a, b) <==> !RankBelow(e, clusters, b, a))
    ensures RankBelow(e, clusters, a, b) && RankBelow(e, clusters, b, c) ==> RankBelow(e, clusters, a, c)
  {}

  ghost predicate IsWinner(e: Estate, clusters: map<ClusterId, Cluster>, ids: set<ClusterId>, w: ClusterId)
    requires ids <= clusters.Keys
  {
    w in ids && forall d | d in ids && d != w :: RankBelow(e, clusters, w, d)
  }

  /** Who wins: a cluster with a seed before one without, the older seed, and the smaller id among equals. */
  lemma WinnerIsOldestSeed(
    e: Estate, clusters: map<ClusterId, Cluster>, ids: set<ClusterId>, w: ClusterId, d: ClusterId)
    requires ids <= clusters.Keys && IsWinner(e, clusters, ids, w) && d in ids
    ensures clusters[d].seed.Some? ==>
              && clusters[w].seed.Some?
              && e.created(clusters[w].seed.value) <= e.created(clusters[d].seed.value)
              && (e.created(clusters[w].seed.value) == e.created(clusters[d].seed.value) ==> w <= d)
    ensures clusters[d].seed.None? && clusters[w].seed.None? ==> w <= d
  {
    assert d == w || RankBelow(e, clusters, w, d);
  }

  ghost function Pooled(member: map<IncidentId, ClusterId>, ids: set<ClusterId>): set<IncidentId> {
    set i | i in member && member[i] in ids
  }

  /** Re-seeding after a merge never has to look for an older incident than the winner's own seed. */
  lemma WinnerSeedIsOldest(e: Estate, v: View, ids: set<ClusterId>, w: ClusterId)
    requires Consistent(e, v) && ids <= v.clusters.Keys
    requires IsWinner(e, v.clusters, ids, w)
    ensures v.clusters[w].seed.Some?
    ensures Oldest(e, Pooled(v.member, ids), v.clusters[w].seed.value)
  {
    assert Settled(e, v, w);
    var s := v.clusters[w].seed.value;
    assert s in MembersOf(v.member, w);
    forall j | j in Pooled(v.member, ids) ensures e.created(s) <= e.created(j) {
      var d := v.member[j];
      assert Settled(e, v, d) && j in MembersOf(v.member, d);
      assert d == w || RankBelow(e, v.clusters, w, d);
    }
  }

  // ---------------------------------------------------------------------------------------
  // One correlation, as a change of both tables
  // ---------------------------------------------------------------------------------------

  /** `title[:512]` */
  function Clip(title: string): string {
    if |title| <= 512 then title else title[..512]
  }

  /** The title a new cluster is created with: that of an oldest incident, none when it has none. */
  ghost predicate FirstTitle(e: Estate, ids: set<IncidentId>, title: Option<string>) {
    exists i :: Oldest(e, ids, i) && title == if e.title(i) == "" then None else Some(Clip(e.title(i)))
  }

  /** The stored title is a prefix of the incident's, of at most 512 characters, and whole when it fits. */
  lemma ClipIsPrefix(title: string)
    ensures Clip(title) <= title && |Clip(title)| <= 512
    ensures |title| <= 512 ==> Clip(title) == title
    ensures |title| > 512 ==> |Clip(title)| == 512
  {}

  /** The effect of one `correlate_incident` that found siblings, whatever branch it took. */
  ghost predicate Correlated(e: Estate, v: View, v': View, call: Call, c: ClusterId) {
    var ids := {call.x} + call.siblings;
    var absorbed := Absorbed(v.member, ids);
    && (if absorbed == {} then c !in v.clusters
        else absorbed <= v.clusters.Keys && IsWinner(e, v.clusters, absorbed, c))
    && v'.member == Joined(v.member, ids, c)
    && v'.clusters.Keys == v.clusters.Keys - absorbed + {c}
    && (forall d | d in v'.clusters && d != c :: v'.clusters[d] == v.clusters[d])
    && v'.clusters[c].tenant == (if absorbed == {} then e.tenant(call.x) else v.clusters[c].tenant)
    && v'.clusters[c].memberCount == |MembersOf(v'.member, c)|
    && v'.clusters[c].seed.Some?
    && var seed := v'.clusters[c].seed.value;
       && Oldest(e, MembersOf(v'.member, c), seed)
       && (e.title(seed) != "" ==> v'.clusters[c].title == Some(Clip(e.title(seed))))
       && (e.title(seed) == "" && absorbed != {} ==> v'.clusters[c].title == v.clusters[c].title)
       && (e.title(seed) == "" && absorbed == {} ==> FirstTitle(e, ids, v'.clusters[c].title))
  }

  /** The title after a call: that of the new seed, cut, or the old one when the seed has none. */
  lemma TitleAfter(e: Estate, v: View, v': View, call: Call, c: ClusterId)
    requires Correlated(e, v, v', call, c)
    ensures c in v'.clusters && v'.clusters[c].seed.Some?
    ensures var title, before := v'.clusters[c].title, e.title(v'.clusters[c].seed.value);
            && (before != "" ==>
                  && title.Some? && title.value <= before
                  && |title.value| == if |before| <= 512 then |before| else 512)
            && (before == "" && c in v.clusters ==> title == v.clusters[c].title)
            && (before == "" && c !in v.clusters ==> title == None || exists i ::
                  Oldest(e, {call.x} + call.siblings, i) && title == Some(Clip(e.title(i))))
  {
    ClipIsPrefix(e.title(v'.clusters[c].seed.value));
    hide Clip, Oldest, MembersOf, Joined;
  }

  /** All clusters a same-tenant call absorbs belong to that tenant. */
  lemma AbsorbedIsOwnTenant(e: Estate, v: View, call: Call, d: ClusterId)
    requires TenantSafe(e, v) && WellFormedCall(e, call)
    requires d in Absorbed(v.member, {call.x} + call.siblings)
    ensures d in v.clusters && v.clusters[d].tenant == e.tenant(call.x)
  {
    var i :| i in {call.x} + call.siblings && i in v.member && v.member[i] == d;
  }

  lemma CorrelatedKeepsTenants(e: Estate, v: View, v': View, call: Call, c: ClusterId)
    requires TenantSafe(e, v) && WellFormedCall(e, call) && Correlated(e, v, v', call, c)
    ensures TenantSafe(e, v')
    ensures v'.clusters[c].tenant == e.tenant(call.x)
  {
    var ids := {call.x} + call.siblings;
    var absorbed := Absorbed(v.member, ids);
    if c in absorbed {
      AbsorbedIsOwnTenant(e, v, call, c);
    }
    forall i | i in v'.member
      ensures v'.member[i] in v'.clusters && v'.clusters[v'.member[i]].tenant == e.tenant(i)
    {
      if i !in ids && v.member[i] in absorbed {
        AbsorbedIsOwnTenant(e, v, call, v.member[i]);
      }
    }
  }

  /** A correlation keeps tenants apart, counts exact, clusters non-trivial and seeds oldest. */
  lemma CorrelatedKeepsConsistent(e: Estate, v: View, v': View, call: Call, c: ClusterId)
    requires Consistent(e, v) && WellFormedCall(e, call) && Correlated(e, v, v', call, c)
    ensures Consistent(e, v')
  {
    CorrelatedKeepsTenants(e, v, v', call, c);
    hide Correlated, TenantSafe, Settled, Titled, WellFormedCall;
    CorrelatedRows(e, v, v', call, c);
    forall d | d in v'.clusters ensures Settled(e, v', d) && Titled(e, v', d) {
      if d == c {
        TargetIsSettled(e, v, v', call, c);
        TargetIsTitled(e, v, v', call, c);
      } else {
        UntouchedStaysSettled(e, v, v', call, c, d);
      }
    }
  }

  lemma CorrelatedRows(e: Estate, v: View, v': View, call: Call, c: ClusterId)
    requires Correlated(e, v, v', call, c)
    ensures c in v'.clusters && forall d | d in v'.clusters && d != c :: d in v.clusters
  {}

  lemma TargetIsTitled(e: Estate, v: View, v': View, call: Call, c: ClusterId)
    requires Consistent(e, v) && Correlated(e, v, v', call, c)
    ensures Titled(e, v', c)
  {
    var seed := v'.clusters[c].seed.value;
    if e.title(seed) != "" {
      assert seed in MembersOf(v'.member, c);
    } else if Absorbed(v.member, {call.x} + call.siblings) == {} {
      var i :| Oldest(e, {call.x} + call.siblings, i) &&
               v'.clusters[c].title == if e.title(i) == "" then None else Some(Clip(e.title(i)));
      assert i in MembersOf(v'.member, c);
    } else if v.clusters[c].title.Some? {
      assert Titled(e, v, c);
      var i :| i in MembersOf(v.member, c) && v.clusters[c].title.value == Clip(e.title(i));
      assert i in MembersOf(v'.member, c);
    }
  }

  lemma TargetIsSettled(e: Estate, v: View, v': View, call: Call, c: ClusterId)
    requires WellFormedCall(e, call) && Correlated(e, v, v', call, c)
    ensures Settled(e, v', c)
  {
    var s :| s in call.siblings;
    Pair(call.x, s, MembersOf(v'.member, c));
  }

  lemma UntouchedStaysSettled(e: Estate, v: View, v': View, call: Call, c: ClusterId, d: ClusterId)
    requires Consistent(e, v) && Correlated(e, v, v', call, c)
    requires d in v'.clusters && d != c
    ensures Settled(e, v', d) && Titled(e, v', d)
  {
    assert Settled(e, v, d) && Titled(e, v, d);
    assert MembersOf(v'.member, d) == MembersOf(v.member, d);
  }

  lemma Pair(a: IncidentId, b: IncidentId, s: set<IncidentId>)
    requires a != b && {a, b} <= s
    ensures |s| >= 2
  {
    assert |s - {a, b}| == |s| - 2;
  }

  lemma CorrelatedKeepsPartition(e: Estate, v: View, v': View, call: Call, c: ClusterId, edges: set<Edge>)
    requires Consistent(e, v) && WellFormedCall(e, call) && Correlated(e, v, v', call, c)
    requires IsPartition(v.member, edges)
    ensures IsPartition(v'.member, edges + Star(call))
  {
    assert GoodTarget(v.member, {call.x} + call.siblings, c) by {
      forall i | i in v.member ensures v.member[i] in v.clusters {}
    }
    JoinedKeepsPartition(v.member, edges, call, c);
  }
}
