/**
 The statements `correlate_incident` issues against the two cluster tables, under the tenant lock.
 Member rows carry their own primary key here, so the two unique constraints of the member table,
 the cascade of a cluster delete and the delete fallback of a merge are all visible.
 */
module ClusterStore {
  import opened Wrappers
  import opened Clusters
  import opened ClusterRank

  type RowKey = nat

  /** One row of `incident_cluster_members`. */
  datatype MemberRow = MemberRow(cluster: ClusterId, incident: IncidentId)

  /** `uq_cluster_member_incident`, which implies `uq_cluster_incident`. */
  ghost predicate OneRowEach(rows: map<RowKey, MemberRow>) {
    forall p, q | p in rows && q in rows && rows[p].incident == rows[q].incident :: p == q
  }

  /** `index` is the unique index on `incident_id`: the one row of each incident that has a row. */
  ghost predicate Indexed(rows: map<RowKey, MemberRow>, index: map<IncidentId, RowKey>) {
    && (forall i | i in index :: index[i] in rows && rows[index[i]].incident == i)
    && (forall p | p in rows :: rows[p].incident in index && index[rows[p].incident] == p)
  }

  ghost function Membership(rows: map<RowKey, MemberRow>, index: map<IncidentId, RowKey>): map<IncidentId, ClusterId>
    requires Indexed(rows, index)
  {
    map i | i in index :: rows[index[i]].cluster
  }

  lemma IndexedMeansOneRowEach(rows: map<RowKey, MemberRow>, index: map<IncidentId, RowKey>)
    requires Indexed(rows, index)
    ensures OneRowEach(rows)
  {}

  /** The membership after a merge: everyone of a cluster in `ids` is in `w`. */
  ghost function Relabelled(
    member: map<IncidentId, ClusterId>, ids: set<ClusterId>, w: ClusterId): map<IncidentId, ClusterId>
  {
    map i | i in member :: if member[i] in ids then w else member[i]
  }

  lemma InsertedRow(
    rows: map<RowKey, MemberRow>, index: map<IncidentId, RowKey>, key: RowKey, c: ClusterId, i: IncidentId)
    requires Indexed(rows, index) && key !in rows
    requires forall p | p in rows :: rows[p].incident != i
    ensures Indexed(rows[key := MemberRow(c, i)], index[i := key]) && i !in index
    ensures Membership(rows[key := MemberRow(c, i)], index[i := key]) == Membership(rows, index)[i := c]
  {
    forall j | j in index ensures j != i && index[j] != key {
      assert rows[index[j]].incident == j;
    }
  }

  lemma RewrittenRows(
    before: map<RowKey, MemberRow>, rows: map<RowKey, MemberRow>, index: map<IncidentId, RowKey>,
    ids: set<ClusterId>, w: ClusterId)
    requires Indexed(before, index) && rows.Keys == before.Keys
    requires forall p | p in rows :: rows[p] == Rewritten(before[p], ids, w)
    ensures Indexed(rows, index)
    ensures Membership(rows, index) == Relabelled(Membership(before, index), ids, w)
  {}

  function Rewritten(row: MemberRow, ids: set<ClusterId>, w: ClusterId): MemberRow {
    if row.cluster in ids then row.(cluster := w) else row
  }

  lemma RelabelledNothing(member: map<IncidentId, ClusterId>, ids: set<ClusterId>, w: ClusterId)
    requires ids <= {w}
    ensures Relabelled(member, ids, w) == member
  {}

  lemma NothingLeft(before: map<RowKey, MemberRow>, rows: map<RowKey, MemberRow>, losers: set<ClusterId>, w: ClusterId)
    requires w !in losers
    requires rows.Keys == before.Keys && forall p | p in rows :: rows[p] == Rewritten(before[p], losers, w)
    ensures (map p | p in rows && rows[p].cluster !in losers :: rows[p]) == rows
  {}

  lemma FilledStep(member: map<IncidentId, ClusterId>, ids: set<IncidentId>, c: ClusterId, i: IncidentId)
    ensures var m := Filled(member, ids, c);
            Filled(member, ids + {i}, c) == if i in m then m else m[i := c]
  {}

  lemma FilledNothing(member: map<IncidentId, ClusterId>, c: ClusterId)
    ensures Filled(member, {}, c) == member
  {}

  lemma IncidentsOfCluster(rows: map<RowKey, MemberRow>, index: map<IncidentId, RowKey>, c: ClusterId)
    requires Indexed(rows, index)
    ensures (set p | p in rows && rows[p].cluster == c :: rows[p].incident) == MembersOf(Membership(rows, index), c)
  {
    forall i | i in MembersOf(Membership(rows, index), c)
      ensures i in set p | p in rows && rows[p].cluster == c :: rows[p].incident
    {
      assert rows[index[i]].cluster == c;
    }
  }

  lemma ClustersOfIncidents(rows: map<RowKey, MemberRow>, index: map<IncidentId, RowKey>, ids: set<IncidentId>)
    requires Indexed(rows, index)
    ensures (set p | p in rows && rows[p].incident in ids :: rows[p].cluster) == Absorbed(Membership(rows, index), ids)
  {
    forall i | i in ids && i in index
      ensures rows[index[i]].cluster in set p | p in rows && rows[p].incident in ids :: rows[p].cluster
    {
      assert rows[index[i]].incident in ids;
    }
  }

  class ClusterTables {
    const estate: Estate
    var clusters: map<ClusterId, Cluster>
    var rows: map<RowKey, MemberRow>
    var nextKey: RowKey
    ghost var index: map<IncidentId, RowKey>

    /** The schema: fresh keys, foreign key, unique incident. */
    ghost predicate Valid()
      reads this
    {
      && (forall p | p in rows :: p < nextKey && rows[p].cluster in clusters)
      && Indexed(rows, index)
    }

    ghost function Member(): map<IncidentId, ClusterId>
      requires Valid()
      reads this
    {
      Membership(rows, index)
    }

    ghost function Content(): View
      requires Valid()
      reads this
    {
      View(clusters, Member())
    }

    constructor (estate: Estate)
      ensures Valid() && this.estate == estate
      ensures Content() == View(map[], map[])
    {
      this.estate := estate;
      clusters, rows, nextKey, index := map[], map[], 0, map[];
    }

    /** `INSERT ... ON CONFLICT DO NOTHING`. */
    method InsertMember(c: ClusterId, i: IncidentId)
      requires Valid() && c in clusters
      modifies this`rows, this`nextKey, this`index
      ensures Valid()
      ensures Member() == if i in old(Member()) then old(Member()) else old(Member())[i := c]
    {
      if forall p | p in rows :: rows[p].incident != i {
        InsertedRow(rows, index, nextKey, c, i);
        rows := rows[nextKey := MemberRow(c, i)];
        index := index[i := nextKey];
        nextKey := nextKey + 1;
      }
    }

    /** `_oldest_incident`; ties may be broken either way. */
    method OldestIncident(ids: set<IncidentId>) returns (i: IncidentId)
      requires ids != {}
      ensures Oldest(estate, ids, i)
    {
      i :| i in ids;
      var todo := ids - {i};
      while todo != {}
        invariant i in ids && todo <= ids
        invariant forall j | j in ids - todo :: estate.created(i) <= estate.created(j)
      {
        var j :| j in todo;
        if estate.created(j) < estate.created(i) {
          i := j;
        }
        todo := todo - {j};
      }
    }

    method CreateCluster(call: Call, uuid: ClusterId)
      requires Valid() && uuid !in clusters
      modifies this`clusters
      ensures Valid() && clusters.Keys == old(clusters).Keys + {uuid}
      ensures forall d | d in old(clusters) :: clusters[d] == old(clusters)[d]
      ensures clusters[uuid].tenant == estate.tenant(call.x)
      ensures clusters[uuid].memberCount == |{call.x} + call.siblings|
      ensures FirstTitle(estate, {call.x} + call.siblings, clusters[uuid].title)
      ensures clusters[uuid].seed.Some? && Oldest(estate, {call.x} + call.siblings, clusters[uuid].seed.value)
    {
      var ids := {call.x} + call.siblings;
      var seed := OldestIncident(ids);
      var title := estate.title(seed);
      clusters := clusters[uuid := Cluster(estate.tenant(call.x), Some(seed),
                                           if title == "" then None else Some(Clip(title)), |ids|)];
    }

    /** Minimum of the candidate clusters under `_rank`. */
    method PickWinner(ids: set<ClusterId>) returns (w: ClusterId)
      requires ids != {} && ids <= clusters.Keys
      ensures IsWinner(estate, clusters, ids, w)
    {
      w :| w in ids;
      var todo := ids - {w};
      while todo != {}
        invariant w in ids && todo <= ids
        invariant forall d | d in ids - todo && d != w :: RankBelow(estate, clusters, w, d)
      {
        var d :| d in todo;
        if RankBelow(estate, clusters, d, w) {
          forall b | b in ids - todo { RankIsStrictTotalOrder(estate, clusters, d, w, b); }
          w := d;
        } else {
          RankIsStrictTotalOrder(estate, clusters, d, w, w);
        }
        todo := todo - {d};
      }
    }

    /**
     One guarded reparent: the UPDATE under a savepoint, and the DELETE of the row when the UPDATE
     violates a unique constraint.
     */
    method ReparentOrDrop(p: RowKey, w: ClusterId) returns (dropped: bool)
      requires p in rows
      modifies this`rows
      ensures dropped <==> exists q | q in old(rows) && q != p :: old(rows)[q].incident == old(rows)[p].incident
      ensures rows == if dropped then old(rows) - {p} else old(rows)[p := MemberRow(w, old(rows)[p].incident)]
    {
      dropped := exists q | q in rows && q != p :: rows[q].incident == rows[p].incident;
      if dropped {
        rows := rows - {p};
      } else {
        rows := rows[p := MemberRow(w, rows[p].incident)];
      }
    }

    /** Moves every row of `loser` to `w`; the delete fallback is never taken. */
    method ReparentCluster(loser: ClusterId, w: ClusterId) returns (drops: nat)
      requires Valid() && w in clusters
      modifies this`rows
      ensures Valid() && drops == 0 && rows.Keys == old(rows).Keys
      ensures forall p | p in rows ::
                rows[p] == Rewritten(old(rows)[p], {loser}, w)
    {
      drops := 0;
      var todo := set p | p in rows && rows[p].cluster == loser;
      ghost var before := rows;
      while todo != {}
        invariant drops == 0 && rows.Keys == before.Keys
        invariant forall p | p in todo :: p in before && before[p].cluster == loser
        invariant forall p | p in rows ::
                    rows[p] == if p in todo then before[p] else Rewritten(before[p], {loser}, w)
      {
        var p :| p in todo;
        var dropped := ReparentOrDrop(p, w);
        drops := drops + (if dropped then 1 else 0);
        todo := todo - {p};
      }
    }

    /** `DELETE FROM incident_clusters WHERE id IN (...)`, cascading to the member rows. */
    method DeleteClusters(ids: set<ClusterId>) returns (cascaded: nat)
      modifies this`clusters, this`rows
      ensures clusters == old(clusters) - ids
      ensures rows == map p | p in old(rows) && old(rows)[p].cluster !in ids :: old(rows)[p]
      ensures cascaded == |old(rows)| - |rows|
    {
      var gone := set p | p in rows && rows[p].cluster in ids;
      assert rows.Keys == gone + (rows.Keys - gone);
      clusters := clusters - ids;
      rows := map p | p in rows && rows[p].cluster !in ids :: rows[p];
      assert rows.Keys == old(rows).Keys - gone;
      assert |old(rows).Keys| == |gone| + |rows.Keys|;
      cascaded := |gone|;
    }

    method ReparentClusters(losers: set<ClusterId>, w: ClusterId) returns (drops: nat)
      requires Valid() && w in clusters
      modifies this`rows
      ensures Valid() && drops == 0 && rows.Keys == old(rows).Keys
      ensures forall p | p in rows :: rows[p] == Rewritten(old(rows)[p], losers, w)
    {
      drops := 0;
      var todo := losers;
      while todo != {}
        invariant Valid() && drops == 0 && todo <= losers && rows.Keys == old(rows).Keys
        invariant forall p | p in rows :: rows[p] == Rewritten(old(rows)[p], losers - todo, w)
      {
        var loser :| loser in todo;
        var n := ReparentCluster(loser, w);
        drops := drops + n;
        todo := todo - {loser};
      }
    }

    /**
     Transitive merge. Every membership survives: nothing is dropped by the fallback, nothing is
     removed by the cascade, and the winner holds the union.
     */
    method MergeClusters(ids: set<ClusterId>) returns (w: ClusterId, drops: nat, cascaded: nat)
      requires Valid() && ids != {} && ids <= clusters.Keys
      modifies this`clusters, this`rows
      ensures Valid() && IsWinner(estate, old(clusters), ids, w)
      ensures drops == 0 && cascaded == 0
      ensures clusters == old(clusters) - (ids - {w})
      ensures rows.Keys == old(rows).Keys
      ensures Member() == Relabelled(old(Member()), ids, w)
    {
      hide IsWinner, Membership, Relabelled;
      w := PickWinner(ids);
      drops, cascaded := 0, 0;
      var losers := ids - {w};
      if losers != {} {
        drops := ReparentClusters(losers, w);
        NothingLeft(old(rows), rows, losers, w);
        cascaded := DeleteClusters(losers);
      }
      RewrittenRows(old(rows), rows, index, ids, w);
    }

    /** Recomputes `member_count`, the seed and, from a non-empty seed title, the title. */
    method ReconcileCluster(c: ClusterId) returns (count: nat)
      requires Valid()
      modifies this`clusters
      ensures Valid() && count == |MembersOf(Member(), c)|
      ensures clusters.Keys == old(clusters).Keys
      ensures forall d | d in clusters && d != c :: clusters[d] == old(clusters)[d]
      ensures c in clusters ==> Reconciled(estate, old(clusters)[c], clusters[c], MembersOf(Member(), c))
    {
      var incidents := set p | p in rows && rows[p].cluster == c :: rows[p].incident;
      IncidentsOfCluster(rows, index, c);
      count := |incidents|;
      if c !in clusters {
        return;
      }
      var row := clusters[c].(memberCount := count);
      if incidents != {} {
        var seed := OldestIncident(incidents);
        row := row.(seed := Some(seed));
        if estate.title(seed) != "" {
          row := row.(title := Some(Clip(estate.title(seed))));
        }
      }
      clusters := clusters[c := row];
    }

    method InsertMembers(c: ClusterId, ids: set<IncidentId>)
      requires Valid() && c in clusters
      modifies this`rows, this`nextKey, this`index
      ensures Valid()
      ensures Member() == Filled(old(Member()), ids, c)
    {
      hide Filled, Indexed, Membership;
      var todo := ids;
      FilledNothing(Member(), c);
      assert ids - todo == {};
      while todo != {}
        invariant Valid() && todo <= ids
        invariant Member() == Filled(old(Member()), ids - todo, c)
      {
        var i :| i in todo;
        FilledStep(old(Member()), ids - todo, c, i);
        InsertMember(c, i);
        assert ids - (todo - {i}) == ids - todo + {i};
        todo := todo - {i};
      }
      assert ids - todo == ids;
    }

    /** Picks or makes the cluster of a call: cases A, B and C. */
    method TargetCluster(call: Call, uuid: ClusterId) returns (c: ClusterId)
      requires Valid() && uuid !in clusters
      modifies this`clusters, this`rows
      ensures Valid()
      ensures Targeted(estate, old(Content()), Content(), call, c)
    {
      var ids := {call.x} + call.siblings;
      ghost var v := Content();
      var existing := set p | p in rows && rows[p].incident in ids :: rows[p].cluster;
      ClustersOfIncidents(rows, index, ids);
      if existing == {} {
        CreateCluster(call, uuid);
        c := uuid;
        TargetedFresh(estate, v, Content(), call, c);
      } else if |existing| == 1 {
        c :| c in existing;
        Only(existing, c);
        TargetedReuse(estate, v, call, c);
      } else {
        assert existing <= clusters.Keys;
        var winner, drops, cascaded := MergeClusters(existing);
        c := winner;
        TargetedMerge(estate, v, Content(), call, c);
      }
    }

    /** Steps 4 to 6 of `correlate_incident`: the whole critical section. `uuid` is the generated id. */
    method CorrelateIncident(call: Call, uuid: ClusterId) returns (result: Option<(ClusterId, nat)>)
      requires Valid() && uuid !in clusters
      modifies this
      ensures Valid()
      ensures call.siblings == {} ==> result == None && Content() == old(Content())
      ensures call.siblings != {} ==>
                && result.Some?
                && Correlated(estate, old(Content()), Content(), call, result.value.0)
                && result.value.1 == |MembersOf(Content().member, result.value.0)|
    {
      if call.siblings == {} {
        return None;
      }
      var c := TargetCluster(call, uuid);
      ghost var mid := Content();
      InsertMembers(c, {call.x} + call.siblings);
      ghost var full := Content();
      var count := ReconcileCluster(c);
      StagesCompose(estate, old(Content()), mid, full, Content(), call, c);
      result := Some((c, count));
    }
  }

  /** The membership after `INSERT ... ON CONFLICT DO NOTHING` of all `ids` into `c`. */
  ghost function Filled(
    member: map<IncidentId, ClusterId>, ids: set<IncidentId>, c: ClusterId): map<IncidentId, ClusterId>
  {
    map i | i in member.Keys + ids :: if i in member then member[i] else c
  }

  ghost predicate Reconciled(e: Estate, before: Cluster, after: Cluster, members: set<IncidentId>) {
    && after.tenant == before.tenant
    && after.memberCount == |members|
    && (if members == {} then after.seed == before.seed && after.title == before.title
        else
          && after.seed.Some?
          && Oldest(e, members, after.seed.value)
          && after.title == if e.title(after.seed.value) != "" then Some(Clip(e.title(after.seed.value)))
                            else before.title)
  }

  ghost predicate Targeted(e: Estate, v: View, mid: View, call: Call, c: ClusterId) {
    var existing := Absorbed(v.member, {call.x} + call.siblings);
    && (if existing == {} then c !in v.clusters
        else existing <= v.clusters.Keys && IsWinner(e, v.clusters, existing, c))
    && mid.clusters.Keys == v.clusters.Keys - existing + {c}
    && (forall d | d in mid.clusters && d in v.clusters :: mid.clusters[d] == v.clusters[d])
    && (existing == {} ==>
          && mid.clusters[c].tenant == e.tenant(call.x)
          && FirstTitle(e, {call.x} + call.siblings, mid.clusters[c].title))
    && mid.member == Relabelled(v.member, existing, c)
  }

  lemma TargetedFresh(e: Estate, v: View, mid: View, call: Call, c: ClusterId)
    requires Absorbed(v.member, {call.x} + call.siblings) == {} && c !in v.clusters
    requires mid.member == v.member && mid.clusters.Keys == v.clusters.Keys + {c}
    requires forall d | d in v.clusters :: mid.clusters[d] == v.clusters[d]
    requires mid.clusters[c].tenant == e.tenant(call.x)
    requires FirstTitle(e, {call.x} + call.siblings, mid.clusters[c].title)
    ensures Targeted(e, v, mid, call, c)
  {
    RelabelledNothing(v.member, {}, c);
  }

  lemma TargetedReuse(e: Estate, v: View, call: Call, c: ClusterId)
    requires Absorbed(v.member, {call.x} + call.siblings) == {c} && c in v.clusters
    ensures Targeted(e, v, v, call, c)
  {
    RelabelledNothing(v.member, {c}, c);
  }

  lemma TargetedMerge(e: Estate, v: View, mid: View, call: Call, c: ClusterId)
    requires var existing := Absorbed(v.member, {call.x} + call.siblings);
             && existing <= v.clusters.Keys && IsWinner(e, v.clusters, existing, c)
             && mid.clusters == v.clusters - (existing - {c})
             && mid.member == Relabelled(v.member, existing, c)
    ensures Targeted(e, v, mid, call, c)
  {}

  lemma StagesCompose(e: Estate, v: View, mid: View, full: View, v': View, call: Call, c: ClusterId)
    requires Targeted(e, v, mid, call, c)
    requires full.clusters == mid.clusters && full.member == Filled(mid.member, {call.x} + call.siblings, c)
    requires v'.member == full.member && v'.clusters.Keys == full.clusters.Keys
    requires forall d | d in v'.clusters && d != c :: v'.clusters[d] == full.clusters[d]
    requires Reconciled(e, full.clusters[c], v'.clusters[c], MembersOf(v'.member, c))
    ensures Correlated(e, v, v', call, c)
  {
    hide Oldest;
    FilledRelabelling(v.member, {call.x} + call.siblings, c);
    assert call.x in MembersOf(v'.member, c);
  }

  lemma FilledRelabelling(member: map<IncidentId, ClusterId>, ids: set<IncidentId>, c: ClusterId)
    ensures Filled(Relabelled(member, Absorbed(member, ids), c), ids, c) == Joined(member, ids, c)
  {}

  lemma Only(s: set<ClusterId>, c: ClusterId)
    requires |s| == 1 && c in s
    ensures s == {c}
  {
    assert |s - {c}| == 0;
  }
}
