/**
 What the cluster tables mean: the abstract content of `incident_clusters` and
 `incident_cluster_members`, the effect of one correlation on it, and the proof that the
 clusters are the connected components of every incident-sibling edge seen so far.
 */
module Clusters {
  import opened Wrappers

  type IncidentId = nat
  type ClusterId = nat
  type Tenant = Option<nat>

  /** The columns of `incidents` that correlation reads and never writes. */
  datatype Estate = Estate(
    tenant: IncidentId -> Tenant,
    created: IncidentId -> int,
    title: IncidentId -> string,
    lockKey: Tenant -> int)  // hashtext of the tenant key; distinct tenants may share a value

  /** One row of `incident_clusters`. */
  datatype Cluster = Cluster(tenant: Tenant, seed: Option<IncidentId>, title: Option<string>, memberCount: nat)

  /** The two tables, with membership keyed by incident (the unique constraint of the member table). */
  datatype View = View(clusters: map<ClusterId, Cluster>, member: map<IncidentId, ClusterId>)

  /** One call that found siblings: the star of edges from `x` to each of them. */
  datatype Call = Call(x: IncidentId, siblings: set<IncidentId>)

  ghost predicate WellFormedCall(e: Estate, call: Call) {
    && call.siblings != {}
    && call.x !in call.siblings
    && forall s | s in call.siblings :: e.tenant(s) == e.tenant(call.x)
  }

  // ---------------------------------------------------------------------------------------
  // Connected components
  // ---------------------------------------------------------------------------------------

  type Edge = (IncidentId, IncidentId)

  ghost predicate Linked(edges: set<Edge>, a: IncidentId, b: IncidentId) {
    (a, b) in edges || (b, a) in edges
  }

  ghost predicate Walk(edges: set<Edge>, path: seq<IncidentId>, a: IncidentId, b: IncidentId) {
    && |path| > 0 && path[0] == a && path[|path| - 1] == b
    && forall k | 0 < k < |path| :: Linked(edges, path[k - 1], path[k])
  }

  ghost predicate Connected(edges: set<Edge>, a: IncidentId, b: IncidentId) {
    exists path :: Walk(edges, path, a, b)
  }

  ghost predicate OnSomeEdge(edges: set<Edge>, a: IncidentId) {
    exists b :: Linked(edges, a, b)
  }

  function Star(call: Call): set<Edge> {
    set s | s in call.siblings :: (call.x, s)
  }

  /** Membership is exactly the partition of `edges` into connected components. */
  ghost predicate IsPartition(member: map<IncidentId, ClusterId>, edges: set<Edge>) {
    && (forall i :: i in member <==> OnSomeEdge(edges, i))
    && (forall i, j | i in member && j in member :: member[i] == member[j] <==> Connected(edges, i, j))
  }

  lemma LinkedIsConnected(edges: set<Edge>, a: IncidentId, b: IncidentId)
    requires Linked(edges, a, b)
    ensures Connected(edges, a, b)
  {
    assert Walk(edges, [a, b], a, b);
  }

  lemma ConnectedToItself(edges: set<Edge>, a: IncidentId)
    ensures Connected(edges, a, a)
  {
    assert Walk(edges, [a], a, a);
  }

  lemma ConnectedTransitive(edges: set<Edge>, a: IncidentId, b: IncidentId, c: IncidentId)
    requires Connected(edges, a, b) && Connected(edges, b, c)
    ensures Connected(edges, a, c)
  {
    var p :| Walk(edges, p, a, b);
    var q :| Walk(edges, q, b, c);
    var r := p + q[1..];
    forall k | 0 < k < |r| ensures Linked(edges, r[k - 1], r[k]) {
      if k >= |p| {
        assert r[k] == q[k - |p| + 1];
        assert r[k - 1] == q[k - |p|];
      }
    }
    assert Walk(edges, r, a, c);
  }

  lemma ConnectedSymmetric(edges: set<Edge>, a: IncidentId, b: IncidentId)
    requires Connected(edges, a, b)
    ensures Connected(edges, b, a)
  {
    var p :| Walk(edges, p, a, b);
    var q := seq(|p|, k requires 0 <= k < |p| => p[|p| - 1 - k]);
    forall k | 0 < k < |q| ensures Linked(edges, q[k - 1], q[k]) {
      var m := |p| - k;
      assert Linked(edges, p[m - 1], p[m]);
    }
    assert Walk(edges, q, b, a);
  }

  lemma ConnectedMonotone(edges: set<Edge>, more: set<Edge>, a: IncidentId, b: IncidentId)
    requires edges <= more && Connected(edges, a, b)
    ensures Connected(more, a, b)
  {
    var p :| Walk(edges, p, a, b);
    forall k | 0 < k < |p| ensures Linked(more, p[k - 1], p[k]) {
      assert Linked(edges, p[k - 1], p[k]);
    }
    assert Walk(more, p, a, b);
  }

  /** A labelling that agrees along every edge agrees along every path. */
  lemma {:induction false} LabelsAgreeAlongPath(
    member: map<IncidentId, ClusterId>, edges: set<Edge>, path: seq<IncidentId>, a: IncidentId, b: IncidentId)
    requires forall i, j | Linked(edges, i, j) :: i in member && j in member && member[i] == member[j]
    requires Walk(edges, path, a, b) && a in member
    ensures b in member && member[b] == member[a]
    decreases |path|
  {
    if |path| > 1 {
      assert Linked(edges, path[0], path[1]);
      var rest := path[1..];
      forall k | 0 < k < |rest| ensures Linked(edges, rest[k - 1], rest[k]) {
        assert Linked(edges, path[k], path[k + 1]);
      }
      LabelsAgreeAlongPath(member, edges, rest, path[1], b);
    }
  }

  // ---------------------------------------------------------------------------------------
  // One correlation, as a change of the membership
  // ---------------------------------------------------------------------------------------

  /** The clusters that already hold one of the incidents. */
  function Absorbed(member: map<IncidentId, ClusterId>, ids: set<IncidentId>): set<ClusterId> {
    set i | i in ids && i in member :: member[i]
  }

  /** Everyone in `ids`, and everyone sharing a cluster with one of them, ends up in `c`. */
  function Joined(member: map<IncidentId, ClusterId>, ids: set<IncidentId>, c: ClusterId): map<IncidentId, ClusterId> {
    map i | i in member.Keys + ids :: if i in ids || member[i] in Absorbed(member, ids) then c else member[i]
  }

  ghost predicate GoodTarget(member: map<IncidentId, ClusterId>, ids: set<IncidentId>, c: ClusterId) {
    if Absorbed(member, ids) == {} then c !in member.Values else c in Absorbed(member, ids)
  }

  /** Adding a star of edges and joining its clusters keeps the partition exact. */
  lemma JoinedKeepsPartition(member: map<IncidentId, ClusterId>, edges: set<Edge>, call: Call, c: ClusterId)
    requires IsPartition(member, edges)
    requires call.siblings != {} && call.x !in call.siblings
    requires GoodTarget(member, {call.x} + call.siblings, c)
    ensures IsPartition(Joined(member, {call.x} + call.siblings, c), edges + Star(call))
  {
    var ids := {call.x} + call.siblings;
    var joined, all := Joined(member, ids, c), edges + Star(call);
    forall i ensures i in joined <==> OnSomeEdge(all, i) {
      JoinedDomain(member, edges, call, c, i);
    }
    forall i, j | Linked(all, i, j) ensures i in joined && j in joined && joined[i] == joined[j] {
      JoinedAgreesOnEdge(member, edges, call, c, i, j);
    }
    forall i, j | i in joined && j in joined ensures joined[i] == joined[j] <==> Connected(all, i, j) {
      if Connected(all, i, j) {
        var path :| Walk(all, path, i, j);
        LabelsAgreeAlongPath(joined, all, path, i, j);
      }
      if joined[i] == joined[j] {
        JoinedIsConnected(member, edges, call, c, i, j);
      }
    }
  }

  lemma JoinedDomain(member: map<IncidentId, ClusterId>, edges: set<Edge>, call: Call, c: ClusterId, i: IncidentId)
    requires IsPartition(member, edges) && call.siblings != {}
    ensures i in Joined(member, {call.x} + call.siblings, c) <==> OnSomeEdge(edges + Star(call), i)
  {
    var all := edges + Star(call);
    if i in member {
      var b :| Linked(edges, i, b);
      assert Linked(all, i, b);
    } else if i == call.x {
      var s :| s in call.siblings;
      assert (call.x, s) in Star(call);
      assert Linked(all, i, s);
    } else if i in call.siblings {
      assert (call.x, i) in Star(call);
      assert Linked(all, i, call.x);
    } else if OnSomeEdge(all, i) {
      var b :| Linked(all, i, b);
      assert Linked(edges, i, b);
      assert OnSomeEdge(edges, i);
    }
  }

  lemma JoinedAgreesOnEdge(
    member: map<IncidentId, ClusterId>, edges: set<Edge>, call: Call, c: ClusterId, i: IncidentId, j: IncidentId)
    requires IsPartition(member, edges) && Linked(edges + Star(call), i, j)
    ensures var joined := Joined(member, {call.x} + call.siblings, c);
            i in joined && j in joined && joined[i] == joined[j]
  {
    if Linked(edges, i, j) {
      LinkedIsConnected(edges, i, j);
      assert OnSomeEdge(edges, i);
      assert Linked(edges, j, i);
      assert OnSomeEdge(edges, j);
      assert member[i] == member[j];
    }
  }

  /** Whoever lands in the joined cluster is connected to the new incident. */
  lemma ReachesCentre(
    member: map<IncidentId, ClusterId>, edges: set<Edge>, call: Call, i: IncidentId)
    requires IsPartition(member, edges)
    requires i == call.x || i in call.siblings ||
             (i in member && member[i] in Absorbed(member, {call.x} + call.siblings))
    ensures Connected(edges + Star(call), i, call.x)
    decreases if i == call.x || i in call.siblings then 0 else 1
  {
    var all := edges + Star(call);
    if i == call.x {
      ConnectedToItself(all, i);
    } else if i in call.siblings {
      assert (call.x, i) in Star(call);
      LinkedIsConnected(all, i, call.x);
    } else {
      var k :| k in {call.x} + call.siblings && k in member && member[k] == member[i];
      ConnectedMonotone(edges, all, i, k);
      ReachesCentre(member, edges, call, k);
      ConnectedTransitive(all, i, k, call.x);
    }
  }

  lemma JoinedIsConnected(
    member: map<IncidentId, ClusterId>, edges: set<Edge>, call: Call, c: ClusterId, i: IncidentId, j: IncidentId)
    requires IsPartition(member, edges)
    requires GoodTarget(member, {call.x} + call.siblings, c)
    requires var joined := Joined(member, {call.x} + call.siblings, c);
             i in joined && j in joined && joined[i] == joined[j]
    ensures Connected(edges + Star(call), i, j)
  {
    var ids := {call.x} + call.siblings;
    var joined, all := Joined(member, ids, c), edges + Star(call);
    if joined[i] == c {
      ReachesCentre(member, edges, call, i);
      ReachesCentre(member, edges, call, j);
      ConnectedSymmetric(all, j, call.x);
      ConnectedTransitive(all, i, call.x, j);
    } else {
      assert member[i] == member[j];
      ConnectedMonotone(edges, all, i, j);
    }
  }

  /** The partition is determined by the set of edges alone. */
  lemma PartitionIsUnique(m1: map<IncidentId, ClusterId>, m2: map<IncidentId, ClusterId>, edges: set<Edge>)
    requires IsPartition(m1, edges) && IsPartition(m2, edges)
    ensures m1.Keys == m2.Keys
    ensures forall i, j | i in m1 && j in m1 :: m1[i] == m1[j] <==> m2[i] == m2[j]
  {
    forall i ensures i in m1 <==> i in m2 {}
    forall i, j | i in m1 && j in m1 ensures m1[i] == m1[j] <==> m2[i] == m2[j] {
      assert m1[i] == m1[j] <==> Connected(edges, i, j);
      assert m2[i] == m2[j] <==> Connected(edges, i, j);
    }
  }
}
