/**
 `worker.py`: at-most-once pull ingestion. Pollers claim an alert with a Redis SET NX, then look for it
 in the database, then insert and commit; claims may expire or be flushed.
 */
module PullIngest {
  import opened Wrappers

  /** What identifies an alert: provider and external id. */
  datatype Alert = Alert(provider: string, externalId: string)

  /** `dedup_key`: the Redis key of a claim. */
  function DedupKey(a: Alert): string {
    "ingest:seen:" + a.provider + ":" + a.externalId
  }

  predicate NoColon(s: string) { forall i | 0 <= i < |s| :: s[i] != ':' }

  /** Providers without a colon never share a claim for different alerts. */
  lemma DedupKeyIsInjective(a: Alert, b: Alert)
    requires NoColon(a.provider) && NoColon(b.provider)
    requires DedupKey(a) == DedupKey(b)
    ensures a == b
  {
    var n, p, q := |"ingest:seen:"|, a.provider, b.provider;
    var k := DedupKey(a);
    assert k[n..] == p + ":" + a.externalId;
    assert DedupKey(b)[n..] == q + ":" + b.externalId;
    var tail := k[n..];
    assert tail[|p|] == ':' && tail[|q|] == ':';
    assert forall i | 0 <= i < |p| :: tail[i] == p[i];
    assert forall i | 0 <= i < |q| :: tail[i] == q[i];
    assert |p| == |q|;
    assert p == tail[..|p|] == q;
    assert a.externalId == tail[|p| + 1..] == b.externalId;
  }

  /** Within one provider the external id can be read off the claim. */
  lemma OneProviderNeverCollides(a: Alert, b: Alert)
    requires a.provider == b.provider && DedupKey(a) == DedupKey(b)
    ensures a == b
  {
    var n := |"ingest:seen:" + a.provider + ":"|;
    assert a.externalId == DedupKey(a)[n..] == DedupKey(b)[n..] == b.externalId;
  }

  /** The text of `a` and of `b` is cut at different colons: `b`'s provider swallows a part of `a`'s id. */
  ghost predicate CutLater(a: Alert, b: Alert) {
    exists r: string :: b.provider == a.provider + ":" + r && a.externalId == r + ":" + b.externalId
  }

  lemma CutLaterShares(a: Alert, b: Alert, r: string)
    requires b.provider == a.provider + ":" + r && a.externalId == r + ":" + b.externalId
    ensures DedupKey(a) == DedupKey(b)
  {
    var head := "ingest:seen:";
    assert head + a.provider + ":" + (r + ":" + b.externalId) == head + (a.provider + ":" + r) + ":" + b.externalId;
  }

  lemma TwoCuts(p: string, x: string, q: string, y: string)
    requires |p| <= |q| && p + ":" + x == q + ":" + y
    ensures if |p| == |q| then p == q && x == y
            else q == p + ":" + q[|p| + 1..] && x == q[|p| + 1..] + ":" + y
  {
    var t := p + ":" + x;
    assert t[..|p|] == p && t[..|q|] == q && t[|p|] == ':' && t[|q|] == ':';
    assert t[|p| + 1..] == x && t[|q| + 1..] == y;
    if |p| < |q| {
      var r := q[|p| + 1..];
      assert q[..|p|] == p && q[|p|] == ':';
      assert q == p + ":" + r;
      assert t == q + (":" + y);
      assert x == r + ":" + y;
    }
  }

  lemma SharedIsCutLater(a: Alert, b: Alert)
    requires a != b && DedupKey(a) == DedupKey(b) && |a.provider| <= |b.provider|
    ensures CutLater(a, b)
  {
    var n := |"ingest:seen:"|;
    assert DedupKey(a)[n..] == a.provider + ":" + a.externalId;
    assert DedupKey(b)[n..] == b.provider + ":" + b.externalId;
    TwoCuts(a.provider, a.externalId, b.provider, b.externalId);
    hide DedupKey;
  }

  /** Different alerts share a claim exactly when one is the other cut at a later colon. */
  lemma KeysCollideIff(a: Alert, b: Alert)
    requires a != b
    ensures DedupKey(a) == DedupKey(b) <==> CutLater(a, b) || CutLater(b, a)
  {
    if r: string :| b.provider == a.provider + ":" + r && a.externalId == r + ":" + b.externalId {
      CutLaterShares(a, b, r);
    }
    if r: string :| a.provider == b.provider + ":" + r && b.externalId == r + ":" + a.externalId {
      CutLaterShares(b, a, r);
    }
    if DedupKey(a) == DedupKey(b) {
      if |a.provider| <= |b.provider| { SharedIsCutLater(a, b); } else { SharedIsCutLater(b, a); }
    }
  }

  /** The providers with a pull adapter; a source of any other one is skipped before it claims anything. */
  const PROVIDERS: set<string> := {"vision_one", "sentinelone", "crowdstrike", "microsoft_defender"}

  /** So among the alerts that can be pulled, a claim stands for one alert. */
  lemma PulledAlertsNeverCollide(a: Alert, b: Alert)
    requires a.provider in PROVIDERS && b.provider in PROVIDERS
    requires DedupKey(a) == DedupKey(b)
    ensures a == b
  {
    hide DedupKey;
    assert forall p | p in PROVIDERS :: NoColon(p);
    DedupKeyIsInjective(a, b);
  }

  // ---------------------------------------------------------------------------------------
  // Concurrent pollers
  // ---------------------------------------------------------------------------------------

  type Poller = nat

  datatype Phase =
    | Idle
    | Claimed(a: Alert)                  // SET NX succeeded
    | Checked(a: Alert, known: bool)     // `_pull_already_ingested` answered

  /** `incidents` lists the committed pull incidents by the alert they came from. */
  datatype State = State(claims: set<string>, incidents: seq<Alert>, phase: map<Poller, Phase>)

  datatype Event =
    | Claim(p: Poller, a: Alert)
    | Refuse(p: Poller, a: Alert)        // SET NX failed: skip
    | Check(p: Poller)
    | Commit(p: Poller)                  // insert and commit, or return None when already known
    | Crash(p: Poller)                   // the poller dies; its claim stays
    | Expire(key: string)                // TTL, eviction or flush

  predicate Busy(f: Phase) { !f.Idle? }

  /** The assumption on claim life time: no claim disappears between its claim and its commit. */
  predicate MayExpire(s: State, key: string) {
    forall p | p in s.phase && Busy(s.phase[p]) :: DedupKey(s.phase[p].a) != key
  }

  predicate Enabled(s: State, e: Event) {
    match e
    case Claim(p, a) => p in s.phase && s.phase[p].Idle? && DedupKey(a) !in s.claims
    case Refuse(p, a) => p in s.phase && s.phase[p].Idle? && DedupKey(a) in s.claims
    case Check(p) => p in s.phase && s.phase[p].Claimed?
    case Commit(p) => p in s.phase && s.phase[p].Checked?
    case Crash(p) => p in s.phase && Busy(s.phase[p])
    case Expire(key) => key in s.claims
  }

  function Step(s: State, e: Event): State
    requires Enabled(s, e)
  {
    match e
    case Claim(p, a) => s.(claims := s.claims + {DedupKey(a)}, phase := s.phase[p := Claimed(a)])
    case Refuse(_, _) => s
    case Check(p) => var a := s.phase[p].a; s.(phase := s.phase[p := Checked(a, a in s.incidents)])
    case Commit(p) =>
      var f := s.phase[p];
      s.(incidents := if f.known then s.incidents else s.incidents + [f.a], phase := s.phase[p := Idle])
    case Crash(p) => s.(phase := s.phase[p := Idle])
    case Expire(key) => s.(claims := s.claims - {key})
  }

  predicate Initial(s: State) {
    s.claims == {} && s.incidents == [] && forall p | p in s.phase :: s.phase[p].Idle?
  }

  ghost predicate Steps(states: seq<State>, events: seq<Event>) {
    && |states| == |events| + 1
    && forall k | 0 <= k < |events| :: Enabled(states[k], events[k]) && states[k + 1] == Step(states[k], events[k])
  }

  /** A run in which every expiry respects the life-time assumption. */
  ghost predicate Run(states: seq<State>, events: seq<Event>) {
    && Steps(states, events)
    && forall k | 0 <= k < |events| && events[k].Expire? :: MayExpire(states[k], events[k].key)
  }

  ghost predicate Inv(s: State) {
    // no alert twice
    && (forall i, j | 0 <= i < j < |s.incidents| :: s.incidents[i] != s.incidents[j])
    // a busy poller owns the claim of its alert, alone
    && (forall p | p in s.phase && Busy(s.phase[p]) :: DedupKey(s.phase[p].a) in s.claims)
    && (forall p, q | p in s.phase && q in s.phase && p != q && Busy(s.phase[p]) && Busy(s.phase[q]) ::
          DedupKey(s.phase[p].a) != DedupKey(s.phase[q].a))
    // the answer of the check is still right
    && (forall p | p in s.phase && s.phase[p].Checked? :: s.phase[p].known <==> s.phase[p].a in s.incidents)
  }

  lemma StepKeepsInv(s: State, e: Event)
    requires Inv(s) && Enabled(s, e) && (e.Expire? ==> MayExpire(s, e.key))
    ensures Inv(Step(s, e))
  {
    hide DedupKey;
    if e.Commit? {
      var f := s.phase[e.p];
      forall q | q in s.phase && q != e.p && s.phase[q].Checked?
        ensures s.phase[q].a in Step(s, e).incidents <==> s.phase[q].a in s.incidents
      {
        assert s.phase[q].a != f.a;
      }
    }
  }

  lemma {:induction false} RunKeepsInv(states: seq<State>, events: seq<Event>)
    requires Run(states, events) && Initial(states[0])
    ensures forall k | 0 <= k < |states| :: Inv(states[k])
  {
    for n := 0 to |events|
      invariant forall k | 0 <= k <= n :: Inv(states[k])
    {
      StepKeepsInv(states[n], events[n]);
    }
  }

  /** At most one incident per (provider, external id), whatever the interleaving. */
  lemma AtMostOnce(states: seq<State>, events: seq<Event>, k: nat, a: Alert)
    requires Run(states, events) && Initial(states[0]) && k < |states|
    ensures multiset(states[k].incidents)[a] <= 1
  {
    RunKeepsInv(states, events);
    assert Inv(states[k]);
    NoDuplicateCounts(states[k].incidents, a);
  }

  lemma {:induction false} NoDuplicateCounts(s: seq<Alert>, a: Alert)
    requires forall i, j | 0 <= i < j < |s| :: s[i] != s[j]
    ensures multiset(s)[a] == if a in s then 1 else 0
    decreases |s|
  {
    if s != [] {
      var n := |s| - 1;
      assert s == s[..n] + [s[n]];
      NoDuplicateCounts(s[..n], a);
    }
  }

  /** What has been ingested is never lost or re-ordered. */
  lemma {:induction false} IncidentsOnlyGrow(states: seq<State>, events: seq<Event>, k: nat, m: nat)
    requires Steps(states, events) && k <= m < |states|
    ensures states[k].incidents <= states[m].incidents
  {
    for n := k to m
      invariant states[k].incidents <= states[n].incidents
    {
      assert states[n + 1] == Step(states[n], events[n]);
    }
  }

  /** Event `i` stores `a`: a commit by a poller that was told the alert is not known. */
  ghost predicate Stores(states: seq<State>, events: seq<Event>, i: nat, a: Alert)
    requires i < |events| && i < |states|
  {
    events[i].Commit? && events[i].p in states[i].phase && states[i].phase[events[i].p] == Checked(a, false)
  }

  ghost function StoreCount(states: seq<State>, events: seq<Event>, n: nat, a: Alert): nat
    requires n <= |events| < |states|
  {
    if n == 0 then 0 else StoreCount(states, events, n - 1, a) + if Stores(states, events, n - 1, a) then 1 else 0
  }

  lemma {:induction false} StoredIsCounted(states: seq<State>, events: seq<Event>, n: nat, a: Alert)
    requires Steps(states, events) && Initial(states[0]) && n <= |events|
    ensures multiset(states[n].incidents)[a] == StoreCount(states, events, n, a)
    decreases n
  {
    if n > 0 {
      StoredIsCounted(states, events, n - 1, a);
      assert states[n] == Step(states[n - 1], events[n - 1]);
    }
  }

  lemma {:induction false} TwoStores(states: seq<State>, events: seq<Event>, n: nat, a: Alert)
    requires n <= |events| < |states|
    ensures StoreCount(states, events, n, a) >= 1 <==> exists j | 0 <= j < n :: Stores(states, events, j, a)
    ensures StoreCount(states, events, n, a) >= 2 <==>
            exists i, j | 0 <= i < j < n :: Stores(states, events, i, a) && Stores(states, events, j, a)
    decreases n
  {
    hide Stores;
    if n > 0 {
      TwoStores(states, events, n - 1, a);
    }
  }

  /** An alert is stored twice exactly when two commits both rest on the answer that it is not known. */
  lemma StoredTwiceIff(states: seq<State>, events: seq<Event>, n: nat, a: Alert)
    requires Steps(states, events) && Initial(states[0]) && n <= |events|
    ensures multiset(states[n].incidents)[a] >= 2 <==>
            exists i, j | 0 <= i < j < n :: Stores(states, events, i, a) && Stores(states, events, j, a)
  {
    StoredIsCounted(states, events, n, a);
    TwoStores(states, events, n, a);
  }

  predicate Owns(s: State, p: Poller, key: string) {
    p in s.phase && Busy(s.phase[p]) && DedupKey(s.phase[p].a) == key
  }

  /** What keeps one alert from being stored twice: only its own claim matters. */
  ghost predicate InvFor(s: State, a: Alert) {
    && multiset(s.incidents)[a] <= 1
    && (forall p | p in s.phase && Owns(s, p, DedupKey(a)) :: DedupKey(a) in s.claims)
    && (forall p, q | p in s.phase && q in s.phase && Owns(s, p, DedupKey(a)) && Owns(s, q, DedupKey(a)) :: p == q)
    && (forall p | p in s.phase && s.phase[p].Checked? && s.phase[p].a == a :: s.phase[p].known <==> a in s.incidents)
  }

  lemma StepKeepsInvFor(s: State, e: Event, a: Alert)
    requires InvFor(s, a) && Enabled(s, e)
    requires e == Expire(DedupKey(a)) ==> MayExpire(s, DedupKey(a))
    ensures InvFor(Step(s, e), a)
  {
    hide DedupKey;
    if e.Commit? && s.phase[e.p].a == a {
      assert Owns(s, e.p, DedupKey(a));
      forall q | q in s.phase && q != e.p && s.phase[q].Checked? ensures s.phase[q].a != a {
        assert s.phase[q].a == a ==> Owns(s, q, DedupKey(a));
      }
    }
  }

  /** So a duplicate takes an expiry of the alert's own claim while a poller is between claim and commit on it. */
  lemma DuplicateNeedsOwnExpiry(states: seq<State>, events: seq<Event>, k: nat, a: Alert)
    requires Steps(states, events) && Initial(states[0]) && k < |states|
    requires multiset(states[k].incidents)[a] >= 2
    ensures exists e | 0 <= e < k :: events[e] == Expire(DedupKey(a)) && !MayExpire(states[e], DedupKey(a))
  {
    hide DedupKey, MayExpire;
    if forall e | 0 <= e < k && events[e] == Expire(DedupKey(a)) :: MayExpire(states[e], DedupKey(a)) {
      for n := 0 to k
        invariant InvFor(states[n], a)
      {
        StepKeepsInvFor(states[n], events[n], a);
      }
      assert false;
    }
  }

  /** The life-time assumption is needed: one expiry between claim and commit gives two incidents. */
  lemma EarlyExpiryDuplicates(a: Alert) returns (states: seq<State>, events: seq<Event>)
    ensures Steps(states, events) && Initial(states[0])
    ensures |events| == 7 && events[1] == Expire(DedupKey(a)) && !MayExpire(states[1], DedupKey(a))
    ensures multiset(states[7].incidents)[a] == 2
  {
    events := [Claim(0, a), Expire(DedupKey(a)), Claim(1, a), Check(0), Check(1), Commit(0), Commit(1)];
    var s0 := State({}, [], map[0 := Idle, 1 := Idle]);
    var s1 := Step(s0, events[0]);
    var s2 := Step(s1, events[1]);
    var s3 := Step(s2, events[2]);
    var s4 := Step(s3, events[3]);
    var s5 := Step(s4, events[4]);
    var s6 := Step(s5, events[5]);
    var s7 := Step(s6, events[6]);
    states := [s0, s1, s2, s3, s4, s5, s6, s7];
    assert s1.phase[0] == Claimed(a);
    assert s7.incidents == [a, a];
  }

  // ---------------------------------------------------------------------------------------
  // One poll, sequentially
  // ---------------------------------------------------------------------------------------

  /** An alert of a fetch result: whether it passes the severity floor, and its external id (may be empty). */
  datatype Pulled = Pulled(passes: bool, externalId: string)

  predicate Eligible(x: Pulled) { x.passes && x.externalId != "" }

  class IngestTables {
    var claims: set<string>
    var incidents: seq<Alert>

    constructor ()
      ensures claims == {} && incidents == []
    {
      claims, incidents := {}, [];
    }

    /** `_create_pull_incident`: insert unless the database already has it. */
    method CreatePullIncident(a: Alert) returns (created: bool)
      modifies this`incidents
      ensures created <==> a !in old(incidents)
      ensures incidents == if created then old(incidents) + [a] else old(incidents)
    {
      created := a !in incidents;
      if created {
        incidents := incidents + [a];
      }
    }

    /**
     The inner loop of `pull_ingest` over one fetch result: the counter is the number of new
     incidents, only eligible alerts of this provider are added, none twice, and afterwards every
     eligible alert is claimed and, if its claim was free before, stored.
     */
    method IngestAlerts(provider: string, alerts: seq<Pulled>) returns (ingested: nat)
      requires forall i, j | 0 <= i < j < |incidents| :: incidents[i] != incidents[j]
      modifies this
      ensures (claims, incidents) == Polled(provider, alerts, old(claims), old(incidents))
      ensures old(incidents) <= incidents && ingested == |incidents| - |old(incidents)|
      ensures forall i, j | 0 <= i < j < |incidents| :: incidents[i] != incidents[j]
      ensures forall i | |old(incidents)| <= i < |incidents| ::
                Wanted(provider, alerts, incidents[i])
      ensures forall x | x in alerts && x.passes && x.externalId != "" ::
                DedupKey(Alert(provider, x.externalId)) in claims
      ensures forall x | x in alerts && x.passes && x.externalId != "" ::
                DedupKey(Alert(provider, x.externalId)) in old(claims) || Alert(provider, x.externalId) in incidents
    {
      hide DedupKey;
      ingested := 0;
      ghost var added: set<Alert> := {};
      for n := 0 to |alerts|
        invariant (claims, incidents) == Polled(provider, alerts[..n], old(claims), old(incidents))
        invariant old(incidents) <= incidents && ingested == |incidents| - |old(incidents)|
        invariant forall i, j | 0 <= i < j < |incidents| :: incidents[i] != incidents[j]
        invariant forall i | |old(incidents)| <= i < |incidents| :: Wanted(provider, alerts, incidents[i])
        invariant forall k | 0 <= k < n && Eligible(alerts[k]) ::
                    DedupKey(Alert(provider, alerts[k].externalId)) in claims
        invariant claims == old(claims) + ClaimsOf(added)
        invariant forall a | a in added :: a.provider == provider && a in incidents
      {
        assert alerts[..n + 1][..n] == alerts[..n];
        if !alerts[n].passes {
          continue;
        }
        if alerts[n].externalId == "" {
          continue;
        }
        var a := Alert(provider, alerts[n].externalId);
        assert Wanted(provider, alerts, a) by { assert alerts[n] in alerts; }
        if DedupKey(a) in claims {
          continue;
        }
        claims := claims + {DedupKey(a)};
        added := added + {a};
        var created := CreatePullIncident(a);
        if created {
          ingested := ingested + 1;
        }
      }
      assert alerts[..|alerts|] == alerts;
      forall x | x in alerts && Eligible(x) && DedupKey(Alert(provider, x.externalId)) !in old(claims)
        ensures Alert(provider, x.externalId) in incidents
      {
        var a := Alert(provider, x.externalId);
        var k :| 0 <= k < |alerts| && alerts[k] == x;
        assert DedupKey(a) in claims;
        var b :| b in added && DedupKey(b) == DedupKey(a);
        OneProviderNeverCollides(a, b);
      }
    }
  }

  /** Claims and incidents after a poll, alert by alert. */
  ghost function Polled(
    provider: string, alerts: seq<Pulled>, claims: set<string>, incidents: seq<Alert>): (set<string>, seq<Alert>)
  {
    if alerts == [] then (claims, incidents)
    else
      var n := |alerts| - 1;
      var (claimed, stored) := Polled(provider, alerts[..n], claims, incidents);
      var a := Alert(provider, alerts[n].externalId);
      if !Eligible(alerts[n]) || DedupKey(a) in claimed then (claimed, stored)
      else (claimed + {DedupKey(a)}, if a in stored then stored else stored + [a])
  }

  ghost predicate Wanted(provider: string, alerts: seq<Pulled>, a: Alert) {
    exists x :: x in alerts && x.passes && x.externalId != "" && a == Alert(provider, x.externalId)
  }

  ghost function ClaimsOf(alerts: set<Alert>): set<string> {
    set a | a in alerts :: DedupKey(a)
  }
}
