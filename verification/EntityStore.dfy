/**
 The entity tables that feed correlation: the race-safe UPSERT over two unique indexes (one of them
 partial, for rows without a customer), the idempotent link, and the two queries that pick the
 siblings of an incident.
 */
module EntityStore {
  import opened Wrappers
  import opened Clusters

  type EntityId = nat

  /** The JSON attributes: `type_id`, which correlation reads, and everything else. */
  datatype Attributes = Attributes(typeId: Option<int>, others: string)

  /** One row of `entities`. */
  datatype Entity = Entity(
    customer: Option<string>, entityType: string, key: string,
    displayName: string, attributes: Attributes, firstSeen: int, lastSeen: int)

  /** One row of `incident_entities`; the table has no duplicate triple. */
  datatype Link = Link(incident: IncidentId, entity: EntityId, role: string)

  // ---------------------------------------------------------------------------------------
  // Unique indexes and upsert
  // ---------------------------------------------------------------------------------------

  ghost predicate SameKey(a: Entity, b: Entity) {
    a.customer == b.customer && a.entityType == b.entityType && a.key == b.key
  }

  /** The composite constraint: SQL compares no two rows with a NULL customer as equal. */
  ghost predicate CompositeUnique(rows: map<EntityId, Entity>) {
    forall p, q | p in rows && q in rows && p != q && rows[p].customer.Some? :: !SameKey(rows[p], rows[q])
  }

  /** The partial index, on the rows with a NULL customer only. */
  ghost predicate GlobalUnique(rows: map<EntityId, Entity>) {
    forall p, q | p in rows && q in rows && p != q && rows[p].customer.None? && rows[q].customer.None? ::
      !(rows[p].entityType == rows[q].entityType && rows[p].key == rows[q].key)
  }

  ghost predicate OneRowPerKey(rows: map<EntityId, Entity>) {
    forall p, q | p in rows && q in rows && SameKey(rows[p], rows[q]) :: p == q
  }

  /** Together, and only together, the two indexes mean one row per key, NULL customer included. */
  lemma IndexesMeanOneRowPerKey(rows: map<EntityId, Entity>)
    ensures CompositeUnique(rows) && GlobalUnique(rows) <==> OneRowPerKey(rows)
  {
    if CompositeUnique(rows) && GlobalUnique(rows) {
      forall p, q | p in rows && q in rows && SameKey(rows[p], rows[q]) ensures p == q {}
    }
  }

  /** Neither index alone stops duplicates: each admits a table with two rows of one key. */
  lemma NeitherIndexAlone(e: Entity, name: string)
    ensures var twice := map[0 := e.(customer := None), 1 := e.(customer := None)];
            CompositeUnique(twice) && !OneRowPerKey(twice)
    ensures var twice := map[0 := e.(customer := Some(name)), 1 := e.(customer := Some(name))];
            GlobalUnique(twice) && !OneRowPerKey(twice)
  {
    var globals := map[0 := e.(customer := None), 1 := e.(customer := None)];
    var named := map[0 := e.(customer := Some(name)), 1 := e.(customer := Some(name))];
    assert SameKey(globals[0], globals[1]) && SameKey(named[0], named[1]);
  }

  ghost function Matching(rows: map<EntityId, Entity>, e: Entity): set<EntityId> {
    set p | p in rows && SameKey(rows[p], e)
  }

  lemma SameKeySameMatches(rows: map<EntityId, Entity>, a: Entity, b: Entity)
    requires SameKey(a, b)
    ensures Matching(rows, a) == Matching(rows, b)
  {}

  lemma StoredKeepsOneRowPerKey(rows: map<EntityId, Entity>, id: EntityId, e: Entity)
    requires OneRowPerKey(rows) && Matching(rows, e) <= {id}
    ensures OneRowPerKey(rows[id := e])
    ensures Matching(rows[id := e], e) == {id}
  {
    forall p | p in rows && SameKey(rows[p], e) ensures p == id {
      assert p in Matching(rows, e);
    }
  }

  class EntityTables {
    var entities: map<EntityId, Entity>
    var links: set<Link>
    var nextId: EntityId

    ghost predicate Valid()
      reads this
    {
      && (forall p | p in entities :: p < nextId)
      && CompositeUnique(entities) && GlobalUnique(entities)
      && (forall l | l in links :: l.entity in entities)
    }

    constructor ()
      ensures Valid() && entities == map[] && links == {}
    {
      entities, links, nextId := map[], {}, 0;
    }

    /** The row the chosen conflict target points at. */
    method Conflicting(e: Entity) returns (hit: set<EntityId>)
      requires Valid()
      ensures hit == Matching(entities, e)
      ensures forall p, q | p in hit && q in hit :: p == q
    {
      if e.customer.None? {
        hit := set p | p in entities &&
          entities[p].customer.None? && entities[p].entityType == e.entityType && entities[p].key == e.key;
      } else {
        hit := set p | p in entities &&
          entities[p].customer == e.customer && entities[p].entityType == e.entityType && entities[p].key == e.key;
      }
    }

    /**
     INSERT ... ON CONFLICT DO UPDATE, with the conflict target chosen by whether the customer is
     NULL. Either the one row of this key is refreshed (keeping `first_seen`) or a new row is added.
     */
    method UpsertEntity(e: Entity, now: int) returns (id: EntityId)
      requires Valid()
      modifies this`entities, this`nextId
      ensures Valid()
      ensures Matching(entities, e) == {id}
      ensures Matching(old(entities), e) != {} ==>
                && Matching(old(entities), e) == {id}
                && entities == old(entities)[id := old(entities)[id].(
                     lastSeen := now, displayName := e.displayName, attributes := e.attributes)]
      ensures Matching(old(entities), e) == {} ==>
                id !in old(entities) && entities == old(entities)[id := e.(firstSeen := now, lastSeen := now)]
    {
      var conflicting := Conflicting(e);
      IndexesMeanOneRowPerKey(entities);
      var row;
      if conflicting != {} {
        id :| id in conflicting;
        row := entities[id].(lastSeen := now, displayName := e.displayName, attributes := e.attributes);
      } else {
        id := nextId;
        nextId := nextId + 1;
        row := e.(firstSeen := now, lastSeen := now);
      }
      hide CompositeUnique, GlobalUnique, OneRowPerKey;
      SameKeySameMatches(entities, row, e);
      StoredKeepsOneRowPerKey(entities, id, row);
      entities := entities[id := row];
      SameKeySameMatches(entities, row, e);
      IndexesMeanOneRowPerKey(entities);
    }

    /** `ON CONFLICT (uq_incident_entity_role) DO NOTHING`. */
    method LinkIncidentEntity(incident: IncidentId, id: EntityId, role: string)
      requires Valid() && id in entities
      modifies this`links
      ensures Valid() && links == old(links) + {Link(incident, id, role)}
    {
      links := links + {Link(incident, id, role)};
    }

    /**
     `_strong_entity_ids`: walks the link rows of the incident (an entity may occur under several
     roles) and keeps each strong entity of acceptable fan-out once.
     */
    method StrongEntityIds(estate: Estate, deleted: set<IncidentId>, x: IncidentId, rows: seq<Link>, fanoutCap: int)
        returns (kept: seq<EntityId>)
      requires Valid() && forall l | l in rows :: l in links && l.incident == x
      requires forall l | l in links && l.incident == x :: l in rows
      ensures forall i, j | 0 <= i < j < |kept| :: kept[i] != kept[j]
      ensures forall id :: id in kept <==> StrongLink(estate, entities, links, deleted, x, fanoutCap, id)
    {
      kept := [];
      var seen := {};
      for n := 0 to |rows|
        invariant forall id :: id in seen <==> exists k | 0 <= k < n :: rows[k].entity == id
        invariant forall id | id in kept :: id in seen
        invariant forall i, j | 0 <= i < j < |kept| :: kept[i] != kept[j]
        invariant forall id | id in seen :: id in kept <==>
                    IsStrong(entities, id) && Fanout(estate, links, deleted, x, id) <= fanoutCap
      {
        var id := rows[n].entity;
        if id in seen {
          continue;
        }
        seen := seen + {id};
        if !IsStrong(entities, id) {
          continue;
        }
        if Fanout(estate, links, deleted, x, id) > fanoutCap {
          continue;
        }
        kept := kept + [id];
      }
      forall id ensures id in seen <==> exists l | l in links :: l.incident == x && l.entity == id {
        if l: Link :| l in links && l.incident == x && l.entity == id {
          assert l in rows;
        }
      }
    }
  }

  // ---------------------------------------------------------------------------------------
  // Siblings
  // ---------------------------------------------------------------------------------------

  /** `is_strong_entity`. */
  predicate StrongSignal(entityType: string, typeId: Option<int>) {
    if entityType in {"file", "user", "device"} then true
    else if entityType == "observable" then typeId.Some? && typeId.value in {4, 5, 6, 8, 10}
    else false
  }

  predicate IsStrong(entities: map<EntityId, Entity>, id: EntityId) {
    id in entities && StrongSignal(entities[id].entityType, entities[id].attributes.typeId)
  }

  /** Distinct live incidents of the same tenant linked to this entity. */
  function Fanout(e: Estate, links: set<Link>, deleted: set<IncidentId>, x: IncidentId, id: EntityId): nat {
    |set l | l in links && l.entity == id && l.incident !in deleted && e.tenant(l.incident) == e.tenant(x)
       :: l.incident|
  }

  ghost predicate StrongLink(
    e: Estate, entities: map<EntityId, Entity>, links: set<Link>, deleted: set<IncidentId>,
    x: IncidentId, fanoutCap: int, id: EntityId)
  {
    && (exists l | l in links :: l.incident == x && l.entity == id)
    && IsStrong(entities, id)
    && Fanout(e, links, deleted, x, id) <= fanoutCap
  }

  function SharedEntities(links: set<Link>, i: IncidentId, ids: set<EntityId>): set<EntityId> {
    set l | l in links && l.incident == i && l.entity in ids :: l.entity
  }

  /** The grouped query of `_sibling_incident_ids`: roles collapse, so one entity counts once. */
  function Siblings(
    e: Estate, links: set<Link>, deleted: set<IncidentId>,
    x: IncidentId, ids: set<EntityId>, windowStart: int, minShared: int): set<IncidentId>
  {
    set l | l in links
            && l.entity in ids
            && l.incident != x
            && l.incident !in deleted
            && e.tenant(l.incident) == e.tenant(x)
            && e.created(l.incident) >= windowStart
            && |SharedEntities(links, l.incident, ids)| >= minShared
      :: l.incident
  }

  lemma SubsetCount<T>(a: set<T>, b: set<T>)
    requires a <= b
    ensures |a| <= |b|
  {
    assert b == a + (b - a);
  }

  /**
   Who is a sibling, in terms of the links: another live incident of the same tenant in the window that
   is linked, under whatever roles, to at least `minShared` of the entities (and to one in any case).
   */
  lemma SiblingsIff(
    e: Estate, links: set<Link>, deleted: set<IncidentId>, x: IncidentId, ids: set<EntityId>,
    windowStart: int, minShared: int, s: IncidentId)
    ensures s in Siblings(e, links, deleted, x, ids, windowStart, minShared) <==>
            && s != x && s !in deleted && e.tenant(s) == e.tenant(x) && e.created(s) >= windowStart
            && exists shared: set<EntityId> ::
                 && shared <= ids && |shared| >= minShared && shared != {}
                 && forall id | id in shared :: exists role :: Link(s, id, role) in links
  {
    if s in Siblings(e, links, deleted, x, ids, windowStart, minShared) {
      var shared := SharedEntities(links, s, ids);
      var l :| l in links && l.incident == s && l.entity in ids;
      assert l.entity in shared;
      forall id | id in shared ensures exists role :: Link(s, id, role) in links {
        var m :| m in links && m.incident == s && m.entity == id;
        assert Link(s, id, m.role) in links;
      }
    }
    if shared: set<EntityId> :| && shared <= ids && |shared| >= minShared && shared != {}
                                && forall id | id in shared :: exists role :: Link(s, id, role) in links {
      LinkedIsShared(links, s, ids, shared);
      SubsetCount(shared, SharedEntities(links, s, ids));
      var id :| id in shared;
      var role :| Link(s, id, role) in links;
    }
  }

  lemma LinkedIsShared(links: set<Link>, s: IncidentId, ids: set<EntityId>, shared: set<EntityId>)
    requires shared <= ids && forall id | id in shared :: exists role :: Link(s, id, role) in links
    ensures shared <= SharedEntities(links, s, ids)
  {
    forall id | id in shared ensures id in SharedEntities(links, s, ids) {
      var role :| Link(s, id, role) in links;
      assert Link(s, id, role).entity == id;
    }
  }

  /** How far an entity fans out: to at least as many incidents as some set of live ones of the tenant linked to it. */
  lemma FanoutIff(e: Estate, links: set<Link>, deleted: set<IncidentId>, x: IncidentId, id: EntityId, n: nat)
    ensures Fanout(e, links, deleted, x, id) >= n <==>
            exists touched: set<IncidentId> ::
              && |touched| >= n
              && forall i | i in touched ::
                   && i !in deleted && e.tenant(i) == e.tenant(x)
                   && exists role :: Link(i, id, role) in links
  {
    var all := set l | l in links && l.entity == id && l.incident !in deleted && e.tenant(l.incident) == e.tenant(x)
                 :: l.incident;
    if Fanout(e, links, deleted, x, id) >= n {
      forall i | i in all ensures exists role :: Link(i, id, role) in links {
        var l :| l in links && l.entity == id && l.incident == i;
        assert Link(i, id, l.role) in links;
      }
    }
    if touched: set<IncidentId> :|
         && |touched| >= n
         && forall i | i in touched ::
              && i !in deleted && e.tenant(i) == e.tenant(x)
              && exists role :: Link(i, id, role) in links {
      forall i | i in touched ensures i in all {
        var role :| Link(i, id, role) in links;
        assert Link(i, id, role).incident == i;
      }
      SubsetCount(touched, all);
    }
  }

  /** Files, users and devices are strong; of the observables exactly user name, e-mail, URL, hash and CVE. */
  lemma StrongKinds(entities: map<EntityId, Entity>, id: EntityId)
    ensures IsStrong(entities, id) <==>
            && id in entities
            && var kind, typeId := entities[id].entityType, entities[id].attributes.typeId;
               || kind == "file" || kind == "user" || kind == "device"
               || (kind == "observable" && (typeId == Some(4) || typeId == Some(5) || typeId == Some(6) ||
                                            typeId == Some(8) || typeId == Some(10)))
  {
    assert |"file"| == 4 && |"user"| == 4 && |"device"| == 6 && |"observable"| == 10;
  }

  /**
   Two live incidents of one tenant, both linked to one strong entity that does not fan out too far, are
   siblings when one shared entity is enough: the read of the later one finds the other.
   */
  lemma OneSharedEntityIsEnough(
    e: Estate, entities: map<EntityId, Entity>, links: set<Link>, deleted: set<IncidentId>,
    x: IncidentId, s: IncidentId, id: EntityId, roleX: string, roleS: string,
    fanoutCap: int, ids: set<EntityId>, windowStart: int)
    requires x != s && s !in deleted && e.tenant(s) == e.tenant(x) && e.created(s) >= windowStart
    requires Link(x, id, roleX) in links && Link(s, id, roleS) in links
    requires IsStrong(entities, id) && Fanout(e, links, deleted, x, id) <= fanoutCap
    requires forall i :: i in ids <==> StrongLink(e, entities, links, deleted, x, fanoutCap, i)
    ensures s in Siblings(e, links, deleted, x, ids, windowStart, 1)
  {
    assert StrongLink(e, entities, links, deleted, x, fanoutCap, id) by {
      assert Link(x, id, roleX).incident == x;
    }
    SiblingsIff(e, links, deleted, x, ids, windowStart, 1, s);
    assert {id} <= ids && |{id}| == 1;
    hide Siblings, StrongLink, IsStrong, Fanout;
  }

  /**
   Whatever the tables hold, shared entities without a customer included, a call that goes on to the
   lock is well-formed: a non-empty star inside one tenant, each ray backed by enough shared entities.
   */
  lemma SiblingsMakeWellFormedCall(
    e: Estate, links: set<Link>, deleted: set<IncidentId>,
    x: IncidentId, ids: set<EntityId>, windowStart: int, minShared: int)
    requires Siblings(e, links, deleted, x, ids, windowStart, minShared) != {}
    ensures WellFormedCall(e, Call(x, Siblings(e, links, deleted, x, ids, windowStart, minShared)))
    ensures forall s | s in Siblings(e, links, deleted, x, ids, windowStart, minShared) ::
              |SharedEntities(links, s, ids)| >= minShared && s !in deleted && e.created(s) >= windowStart
  {}

  /** Re-linking under another role never changes who the siblings are. */
  lemma RolesDoNotCount(
    e: Estate, links: set<Link>, deleted: set<IncidentId>, x: IncidentId, ids: set<EntityId>,
    windowStart: int, minShared: int, l: Link, role: string)
    requires l in links
    ensures Siblings(e, links + {Link(l.incident, l.entity, role)}, deleted, x, ids, windowStart, minShared) ==
            Siblings(e, links, deleted, x, ids, windowStart, minShared)
  {
    var more := links + {Link(l.incident, l.entity, role)};
    forall i ensures SharedEntities(more, i, ids) == SharedEntities(links, i, ids) {}
  }
}
