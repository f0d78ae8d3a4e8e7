/**
 * The records of the in-memory graph and the read-only operations over it:
 * first-match name resolution, the two type queries, and the relationship set
 * that a cascading delete keeps. Everything here is a function of the two
 * maps' contents; the class in module Store changes them.
 */
module Graph {
  import opened Options
  import opened Sequences
  import opened OrderedMaps

  /** An id handed out by the store; see Store.GraphDb.nextId. */
  type Id = nat

  datatype Entity = Entity(id: Id, name: string, entityType: string, observations: seq<string>)

  datatype Relationship = Relationship(id: Id, fromId: Id, toId: Id, relationType: string)

  /** A relationship as `query_relationships` reports it: its own fields plus both endpoint names. */
  datatype RelationshipView = RelationshipView(
    id: Id, fromId: Id, toId: Id, relationType: string,
    fromEntity: Option<string>, toEntity: Option<string>)

  type Entities = OrderedMap<Id, Entity>
  type Relationships = OrderedMap<Id, Relationship>

  /** Each record is stored under its own id, and no id has been handed out yet at or above `nextId`. */
  ghost predicate Keyed(entities: Entities, relationships: Relationships, nextId: Id)
  {
    && (forall k :: k in entities.entries ==> entities.entries[k].id == k && k < nextId)
    && (forall k :: k in relationships.entries ==> relationships.entries[k].id == k && k < nextId)
  }

  /** The entity half of Keyed without the id bound: each entity is stored under its own id. */
  ghost predicate SelfKeyed(entities: Entities)
  {
    forall k :: k in entities.entries ==> entities.entries[k].id == k
  }

  /** Every relationship's endpoints are entities of the store. */
  ghost predicate NoDangling(entities: Entities, relationships: Relationships)
  {
    forall k :: k in relationships.entries ==>
      relationships.entries[k].fromId in entities.entries && relationships.entries[k].toId in entities.entries
  }

  /** What every handler of the store keeps. */
  ghost predicate Invariant(entities: Entities, relationships: Relationships, nextId: Id)
  {
    && entities.Valid()
    && relationships.Valid()
    && Keyed(entities, relationships, nextId)
    && NoDangling(entities, relationships)
  }

  /**
   * `Array.from(entities.values()).find(e => e.name === name)`: the entity
   * with that name that was inserted first. Names need not be unique.
   */
  function FindByName(entities: Entities, name: string): (r: Option<Entity>)
    requires entities.Valid()
    ensures r.Some? ==> r.value.name == name
  {
    Find(entities.Values(), (e: Entity) => e.name == name)
  }

  /**
   * A name resolves exactly when some entity has it, and then to the first
   * such entity in insertion order.
   */
  lemma FindByNameFirst(entities: Entities, name: string)
    requires entities.Valid()
    ensures var r := FindByName(entities, name);
      r.None? <==> forall k :: k in entities.entries ==> entities.entries[k].name != name
    ensures var r := FindByName(entities, name);
      r.Some? ==>
        r.value.name == name &&
        exists i :: 0 <= i < |entities.keys| && entities.entries[entities.keys[i]] == r.value &&
          forall j :: 0 <= j < i ==> entities.entries[entities.keys[j]].name != name
  {
    var r := FindByName(entities, name);
    var values := entities.Values();
    if r.None? {
      forall k | k in entities.entries ensures entities.entries[k].name != name {
        var i :| 0 <= i < |entities.keys| && entities.keys[i] == k;
        assert values[i] == entities.entries[k];
      }
    } else {
      var i :| 0 <= i < |values| && values[i] == r.value && r.value.name == name &&
        forall j :: 0 <= j < i ==> values[j].name != name;
      assert entities.entries[entities.keys[i]] == r.value;
      forall j | 0 <= j < i ensures entities.entries[entities.keys[j]].name != name {
        assert values[j] == entities.entries[entities.keys[j]];
      }
    }
  }

  /** `query_entities`: the entities whose type is exactly `entityType`, in insertion order. */
  function QueryEntities(entities: Entities, entityType: string): (r: seq<Entity>)
    requires entities.Valid()
    ensures forall i :: 0 <= i < |r| ==> r[i].entityType == entityType && r[i] in entities.entries.Values
    ensures forall k :: k in entities.entries && entities.entries[k].entityType == entityType ==>
      entities.entries[k] in r
  {
    var r := Filter(entities.Values(), (e: Entity) => e.entityType == entityType);
    assert forall k :: k in entities.entries ==> entities.entries[k] in entities.Values() by {
      forall k | k in entities.entries ensures entities.entries[k] in entities.Values() {
        var i :| 0 <= i < |entities.keys| && entities.keys[i] == k;
        assert entities.Values()[i] == entities.entries[k];
      }
    }
    r
  }

  /** `entities.get(id)?.name`. */
  function NameOf(entities: Entities, id: Id): (r: Option<string>)
    ensures r.Some? <==> id in entities.entries
    ensures r.Some? ==> r.value == entities.entries[id].name
  {
    match entities.Get(id)
    case Some(e) => Some(e.name)
    case None => None
  }

  /** `{...r, fromEntity: ..., toEntity: ...}`, names looked up at query time. */
  function View(entities: Entities, r: Relationship): (v: RelationshipView)
    ensures (v.id, v.fromId, v.toId, v.relationType) == (r.id, r.fromId, r.toId, r.relationType)
    ensures v.fromEntity.Some? <==> r.fromId in entities.entries
    ensures v.toEntity.Some? <==> r.toId in entities.entries
  {
    RelationshipView(r.id, r.fromId, r.toId, r.relationType, NameOf(entities, r.fromId), NameOf(entities, r.toId))
  }

  /** The `.filter` step of `query_relationships`: the relationships of one type, in insertion order. */
  function OfRelationType(relationships: Relationships, relationType: string): (r: seq<Relationship>)
    requires relationships.Valid()
    ensures forall i :: 0 <= i < |r| ==> r[i].relationType == relationType
    ensures forall i :: 0 <= i < |relationships.keys| && relationships.entries[relationships.keys[i]].relationType == relationType ==>
      relationships.entries[relationships.keys[i]] in r
  {
    Filter(relationships.Values(), (r: Relationship) => r.relationType == relationType)
  }

  /**
   * `query_relationships`: the relationships whose type is exactly
   * `relationType`, in insertion order, each with the current names of its
   * endpoints, or None for an endpoint id no entity has.
   */
  function QueryRelationships(entities: Entities, relationships: Relationships, relationType: string)
    : (r: seq<RelationshipView>)
    requires relationships.Valid()
    ensures |r| == |OfRelationType(relationships, relationType)|
    ensures forall i :: 0 <= i < |r| ==>
      var rel := OfRelationType(relationships, relationType)[i];
      && rel in relationships.entries.Values
      && r[i].relationType == rel.relationType == relationType
      && (r[i].id, r[i].fromId, r[i].toId) == (rel.id, rel.fromId, rel.toId)
      && (r[i].fromEntity.Some? <==> rel.fromId in entities.entries)
      && (r[i].toEntity.Some? <==> rel.toId in entities.entries)
      && (r[i].fromEntity.Some? ==> r[i].fromEntity.value == entities.entries[rel.fromId].name)
      && (r[i].toEntity.Some? ==> r[i].toEntity.value == entities.entries[rel.toId].name)
  {
    var rels := OfRelationType(relationships, relationType);
    assert forall i :: 0 <= i < |rels| ==> rels[i] in relationships.entries.Values by {
      forall i | 0 <= i < |rels| ensures rels[i] in relationships.entries.Values {
        var j :| 0 <= j < |relationships.keys| && relationships.Values()[j] == rels[i];
        assert relationships.keys[j] in relationships.entries;
      }
    }
    MapSeq(rels, (r: Relationship) => View(entities, r))
  }

  /** Setting a fresh relationship of the queried type appends its view to the query's answer. */
  lemma QueryRelationshipsAppend(entities: Entities, relationships: Relationships, rel: Relationship, relationType: string)
    requires relationships.Valid() && rel.id !in relationships.entries && rel.relationType == relationType
    ensures QueryRelationships(entities, relationships.Set(rel.id, rel), relationType)
         == QueryRelationships(entities, relationships, relationType) + [View(entities, rel)]
  {
    var relationships' := relationships.Set(rel.id, rel);
    SetFreshValues(relationships, rel.id, rel);
    FilterAppend(relationships.Values(), [rel], (r: Relationship) => r.relationType == relationType);
    assert OfRelationType(relationships', relationType) == OfRelationType(relationships, relationType) + [rel];
    var f := (r: Relationship) => View(entities, r);
    MapSeqAppend(OfRelationType(relationships, relationType), [rel], f);
    assert MapSeq([rel], f) == [View(entities, rel)];
  }

  predicate Incident(r: Relationship, entityId: Id)
  {
    r.fromId == entityId || r.toId == entityId
  }

  /** The keys of the relationships that start or end at `entityId`. */
  function IncidentIds(relationships: Relationships, entityId: Id): set<Id>
  {
    set k | k in relationships.entries && Incident(relationships.entries[k], entityId)
  }

  /** The keys among `ks` of the relationships that start or end at `entityId`. */
  function IncidentAmong(relationships: Relationships, ks: seq<Id>, entityId: Id): set<Id>
  {
    if ks == [] then {}
    else
      var k := ks[|ks| - 1];
      IncidentAmong(relationships, ks[..|ks| - 1], entityId)
        + (if k in relationships.entries && Incident(relationships.entries[k], entityId) then {k} else {})
  }

  lemma {:induction false} IncidentAmongKeys(relationships: Relationships, ks: seq<Id>, entityId: Id)
    ensures forall k :: k in IncidentAmong(relationships, ks, entityId) ==>
      k in ks && k in relationships.entries && Incident(relationships.entries[k], entityId)
  {
    if ks != [] {
      IncidentAmongKeys(relationships, ks[..|ks| - 1], entityId);
    }
  }

  /** Walking every key finds every incident relationship. */
  lemma IncidentAmongAll(relationships: Relationships, entityId: Id)
    requires relationships.Valid()
    ensures IncidentAmong(relationships, relationships.keys, entityId) == IncidentIds(relationships, entityId)
  {
    IncidentAmongKeys(relationships, relationships.keys, entityId);
    forall k | k in IncidentIds(relationships, entityId)
      ensures k in IncidentAmong(relationships, relationships.keys, entityId)
    {
      var i :| 0 <= i < |relationships.keys| && relationships.keys[i] == k;
      IncidentAmongPrefix(relationships, relationships.keys, i, entityId);
    }
  }

  lemma {:induction false} IncidentAmongPrefix(relationships: Relationships, ks: seq<Id>, i: nat, entityId: Id)
    requires i < |ks| && ks[i] in relationships.entries && Incident(relationships.entries[ks[i]], entityId)
    ensures ks[i] in IncidentAmong(relationships, ks, entityId)
  {
    if i < |ks| - 1 {
      IncidentAmongPrefix(relationships, ks[..|ks| - 1], i, entityId);
    }
  }

  /** The relationships left once every one incident to `entityId` is deleted. */
  function RemoveIncident(relationships: Relationships, entityId: Id): (r: Relationships)
    requires relationships.Valid()
    ensures r.Valid()
    ensures forall k :: k in r.entries ==> !Incident(r.entries[k], entityId)
    ensures forall k :: k in relationships.entries && !Incident(relationships.entries[k], entityId) ==>
      k in r.entries && r.entries[k] == relationships.entries[k]
  {
    relationships.DeleteKeys(IncidentIds(relationships, entityId))
  }

  /**
   * The cascade keeps every relationship not incident to `entityId`, in its
   * insertion order, and nothing else.
   */
  lemma RemoveIncidentValues(relationships: Relationships, entityId: Id)
    requires relationships.Valid()
    ensures RemoveIncident(relationships, entityId).Values()
         == Filter(relationships.Values(), (r: Relationship) => !Incident(r, entityId))
  {
    ValuesDeleteKeys(relationships, IncidentIds(relationships, entityId), (r: Relationship) => !Incident(r, entityId));
  }

  /** While no relationship dangles, every endpoint name of a query result is present. */
  lemma ViewsResolve(entities: Entities, relationships: Relationships, relationType: string)
    requires relationships.Valid() && NoDangling(entities, relationships)
    ensures forall v :: v in QueryRelationships(entities, relationships, relationType) ==>
      v.fromEntity.Some? && v.toEntity.Some?
  {
    var views := QueryRelationships(entities, relationships, relationType);
    forall v | v in views ensures v.fromEntity.Some? && v.toEntity.Some? {
      var i :| 0 <= i < |views| && views[i] == v;
      var rel := OfRelationType(relationships, relationType)[i];
      var k :| k in relationships.entries && relationships.entries[k] == rel;
    }
  }

  /** A query reports only stored relationships, so none incident to an id no stored one is incident to. */
  lemma ViewsAvoid(entities: Entities, relationships: Relationships, relationType: string, entityId: Id)
    requires relationships.Valid()
    requires forall k :: k in relationships.entries ==> !Incident(relationships.entries[k], entityId)
    ensures forall v :: v in QueryRelationships(entities, relationships, relationType) ==>
      v.fromId != entityId && v.toId != entityId
  {
    var views := QueryRelationships(entities, relationships, relationType);
    forall v | v in views ensures v.fromId != entityId && v.toId != entityId {
      var i :| 0 <= i < |views| && views[i] == v;
      var rel := OfRelationType(relationships, relationType)[i];
      var k :| k in relationships.entries && relationships.entries[k] == rel;
    }
  }

  /** Resolving a name yields the entity stored under the resolved id, and it carries that name. */
  lemma FindByNameStored(entities: Entities, name: string)
    requires entities.Valid() && SelfKeyed(entities)
    requires FindByName(entities, name).Some?
    ensures var e := FindByName(entities, name).value;
      e.id in entities.entries && entities.entries[e.id] == e && e.name == name
  {
    FindByNameFirst(entities, name);
    var e := FindByName(entities, name).value;
    var i :| 0 <= i < |entities.keys| && entities.entries[entities.keys[i]] == e;
  }

  /**
   * When two entities share a name, the one inserted later is never the one a
   * name resolves to.
   */
  lemma FirstMatchWins(entities: Entities, i: nat, j: nat)
    requires entities.Valid() && SelfKeyed(entities)
    requires i < j < |entities.keys|
    requires entities.entries[entities.keys[i]].name == entities.entries[entities.keys[j]].name
    ensures FindByName(entities, entities.entries[entities.keys[i]].name).Some?
    ensures FindByName(entities, entities.entries[entities.keys[i]].name).value.id != entities.keys[j]
  {
    var name := entities.entries[entities.keys[i]].name;
    FindByNameFirst(entities, name);
    var e := FindByName(entities, name).value;
    var m :| 0 <= m < |entities.keys| && entities.entries[entities.keys[m]] == e &&
      forall l :: 0 <= l < m ==> entities.entries[entities.keys[l]].name != name;
    assert m <= i;
    assert e.id == entities.keys[m];
    assert entities.keys[m] in entities.keys[..j];
    DistinctAt(entities.keys, j);
  }
}
