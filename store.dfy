/**
 * The process-wide graph store (`graphDb`) and the three tool handlers that
 * change it: create_entity, create_relationship and delete_entity. The two
 * query handlers change nothing and are the functions QueryEntities and
 * QueryRelationships of module Graph, applied to the store's fields.
 */
module Store {
  import opened Options
  import opened Sequences
  import opened OrderedMaps
  import opened Graph

  datatype RelationshipOutcome = RelationshipCreated(id: Id) | EntitiesNotFound

  datatype DeleteOutcome = EntityDeleted(id: Id) | EntityNotFound

  class GraphDb {
    var entities: Entities
    var relationships: Relationships
    /** The next id to hand out; stands for the random ids of the original. */
    var nextId: Id

    ghost predicate Valid()
      reads this
    {
      Invariant(entities, relationships, nextId)
    }

    constructor ()
      ensures Valid()
      ensures entities.Values() == [] && relationships.Values() == []
    {
      entities := Empty();
      relationships := Empty();
      nextId := 0;
    }

    /**
     * create_entity: stores a new entity under an id neither map holds;
     * absent observations become the empty list.
     */
    method CreateEntity(name: string, entityType: string, observations: Option<seq<string>>) returns (id: Id)
      requires Valid()
      modifies this
      ensures Valid()
      ensures id == old(nextId) && nextId > old(nextId)
      ensures id !in old(entities).entries && id !in old(relationships).entries
      ensures entities == old(entities).Set(id, Entity(id, name, entityType, observations.GetOr([])))
      ensures relationships == old(relationships)
    {
      id := nextId;
      var entity := Entity(id, name, entityType, observations.GetOr([]));
      CreateEntityKeeps(entities, relationships, nextId, entity);
      entities := entities.Set(id, entity);
      nextId := nextId + 1;
    }

    /**
     * create_relationship: resolves both names by first match; if either is
     * unknown nothing changes, otherwise a relationship between the two
     * resolved ids is stored under a fresh id.
     */
    method CreateRelationship(fromEntityName: string, toEntityName: string, relationType: string)
      returns (outcome: RelationshipOutcome)
      requires Valid()
      modifies this
      ensures Valid()
      ensures entities == old(entities)
      ensures var from, to := old(FindByName(entities, fromEntityName)), old(FindByName(entities, toEntityName));
        from.None? || to.None? ==>
          outcome == EntitiesNotFound && relationships == old(relationships) && nextId == old(nextId)
      ensures var from, to := old(FindByName(entities, fromEntityName)), old(FindByName(entities, toEntityName));
        from.Some? && to.Some? ==>
          && outcome == RelationshipCreated(old(nextId))
          && old(nextId) !in old(entities).entries && old(nextId) !in old(relationships).entries
          && relationships == old(relationships).Set(old(nextId),
               Relationship(old(nextId), from.value.id, to.value.id, relationType))
          && nextId > old(nextId)
    {
      var from := FindByName(entities, fromEntityName);
      var to := FindByName(entities, toEntityName);
      if from.None? || to.None? {
        return EntitiesNotFound;
      }
      var id := nextId;
      var relationship := Relationship(id, from.value.id, to.value.id, relationType);
      ResolvedRelationshipKeeps(entities, relationships, nextId, fromEntityName, toEntityName, relationType);
      relationships := relationships.Set(id, relationship);
      nextId := nextId + 1;
      assert Invariant(entities, relationships, nextId);
      outcome := RelationshipCreated(id);
    }

    /**
     * delete_entity: resolves the name by first match; if it is unknown
     * nothing changes, otherwise every relationship incident to the entity is
     * deleted, walking the relationships in insertion order, and then the
     * entity itself.
     */
    method DeleteEntity(name: string) returns (outcome: DeleteOutcome)
      requires Valid()
      modifies this
      ensures Valid()
      ensures nextId == old(nextId)
      ensures match old(FindByName(entities, name))
        case None =>
          outcome == EntityNotFound && entities == old(entities) && relationships == old(relationships)
        case Some(e) =>
          && outcome == EntityDeleted(e.id)
          && entities == old(entities).Delete(e.id)
          && relationships == RemoveIncident(old(relationships), e.id)
    {
      var found := FindByName(entities, name);
      if found.None? {
        return EntityNotFound;
      }
      var entity := found.value;

      ghost var before := relationships;
      RemoveRelationshipsOf(entity.id);
      DeleteEntityKeeps(entities, before, nextId, entity.id);
      entities := entities.Delete(entity.id);
      assert Invariant(entities, relationships, nextId);
      outcome := EntityDeleted(entity.id);
    }

    /**
     * The cascade of delete_entity: walks the relationships in insertion
     * order and deletes each one that starts or ends at `entityId`.
     */
    method RemoveRelationshipsOf(entityId: Id)
      requires relationships.Valid()
      modifies this`relationships
      ensures relationships == RemoveIncident(old(relationships), entityId)
    {
      ghost var before := relationships;
      var ids := relationships.keys;
      ghost var doomed: set<Id> := {};
      DeleteNoKeys(before);
      assert ids[..0] == [];
      var i := 0;
      while i < |ids|
        invariant 0 <= i <= |ids|
        invariant doomed == IncidentAmong(before, ids[..i], entityId)
        invariant relationships == before.DeleteKeys(doomed)
      {
        var id := ids[i];
        CascadeStep(before, i, entityId);
        var rel := relationships.entries[id];
        if rel.fromId == entityId || rel.toId == entityId {
          DeleteKeysTwice(before, doomed, {id});
          relationships := relationships.Delete(id);
          doomed := doomed + {id};
        }
        i := i + 1;
      }
      assert ids[..i] == ids;
      IncidentAmongAll(before, entityId);
    }
  }

  /** One step of the cascade's walk over the relationship keys `relationships.keys`. */
  lemma CascadeStep(relationships: Relationships, i: nat, entityId: Id)
    requires relationships.Valid() && i < |relationships.keys|
    ensures var id, walked := relationships.keys[i], relationships.keys[..i];
      && id in relationships.entries
      && id !in IncidentAmong(relationships, walked, entityId)
      && IncidentAmong(relationships, relationships.keys[..i + 1], entityId)
         == IncidentAmong(relationships, walked, entityId)
            + (if Incident(relationships.entries[id], entityId) then {id} else {})
  {
    var ids := relationships.keys;
    DistinctAt(ids, i);
    IncidentAmongKeys(relationships, ids[..i], entityId);
    assert ids[..i + 1][..i] == ids[..i];
  }

  lemma CreateEntityKeeps(entities: Entities, relationships: Relationships, nextId: Id, e: Entity)
    requires Invariant(entities, relationships, nextId)
    requires e.id == nextId
    ensures nextId !in entities.entries && nextId !in relationships.entries
    ensures Invariant(entities.Set(nextId, e), relationships, nextId + 1)
  {
  }

  lemma CreateRelationshipKeeps(entities: Entities, relationships: Relationships, nextId: Id, r: Relationship)
    requires Invariant(entities, relationships, nextId)
    requires r.id == nextId && r.fromId in entities.entries && r.toId in entities.entries
    ensures nextId !in entities.entries && nextId !in relationships.entries
    ensures Invariant(entities, relationships.Set(nextId, r), nextId + 1)
  {
  }

  lemma ResolvedRelationshipKeeps(entities: Entities, relationships: Relationships, nextId: Id,
                                  fromEntityName: string, toEntityName: string, relationType: string)
    requires Invariant(entities, relationships, nextId)
    requires FindByName(entities, fromEntityName).Some? && FindByName(entities, toEntityName).Some?
    ensures var from, to := FindByName(entities, fromEntityName).value, FindByName(entities, toEntityName).value;
      && nextId !in entities.entries && nextId !in relationships.entries
      && Invariant(entities, relationships.Set(nextId, Relationship(nextId, from.id, to.id, relationType)), nextId + 1)
  {
    FindByNameStored(entities, fromEntityName);
    FindByNameStored(entities, toEntityName);
    var from, to := FindByName(entities, fromEntityName).value, FindByName(entities, toEntityName).value;
    CreateRelationshipKeeps(entities, relationships, nextId, Relationship(nextId, from.id, to.id, relationType));
  }

  lemma DeleteEntityKeeps(entities: Entities, relationships: Relationships, nextId: Id, entityId: Id)
    requires Invariant(entities, relationships, nextId)
    ensures Invariant(entities.Delete(entityId), RemoveIncident(relationships, entityId), nextId)
  {
    DeleteKeepsNoDangling(entities, relationships, entityId);
    assert Keyed(entities.Delete(entityId), RemoveIncident(relationships, entityId), nextId);
  }

  /** The cascade takes every relationship that would dangle with the entity. */
  lemma DeleteKeepsNoDangling(entities: Entities, relationships: Relationships, entityId: Id)
    requires entities.Valid() && relationships.Valid() && NoDangling(entities, relationships)
    ensures NoDangling(entities.Delete(entityId), RemoveIncident(relationships, entityId))
  {
    var entities', relationships' := entities.Delete(entityId), RemoveIncident(relationships, entityId);
    forall k | k in relationships'.entries
      ensures relationships'.entries[k].fromId in entities'.entries && relationships'.entries[k].toId in entities'.entries
    {
      assert k in relationships.entries && relationships'.entries[k] == relationships.entries[k];
    }
  }

  /**
   * After create_entity, query_entities gives its former answer, followed by
   * the new entity when that has the queried type.
   */
  lemma QueryEntitiesAfterCreate(entities: Entities, id: Id, e: Entity, entityType: string)
    requires entities.Valid() && id !in entities.entries
    ensures QueryEntities(entities.Set(id, e), entityType)
         == QueryEntities(entities, entityType) + (if e.entityType == entityType then [e] else [])
  {
    SetFreshValues(entities, id, e);
    FilterAppend(entities.Values(), [e], (e: Entity) => e.entityType == entityType);
  }

  /**
   * After delete_entity, query_entities gives its former answer without the
   * deleted entity: every other entity stays, in order.
   */
  lemma QueryEntitiesAfterDelete(entities: Entities, relationships: Relationships, nextId: Id,
                                 entityId: Id, entityType: string)
    requires Invariant(entities, relationships, nextId)
    ensures QueryEntities(entities.Delete(entityId), entityType)
         == Filter(QueryEntities(entities, entityType), (e: Entity) => e.id != entityId)
  {
    var ofType := (e: Entity) => e.entityType == entityType;
    var kept := (e: Entity) => e.id != entityId;
    var both := (e: Entity) => e.entityType == entityType && e.id != entityId;
    ValuesDeleteKeys(entities, {entityId}, kept);
    FilterFilter(entities.Values(), kept, ofType, both);
    FilterFilter(entities.Values(), ofType, kept, both);
  }

  /**
   * A relationship created between two names that resolve shows up last
   * among the relationships of its type, with those two names as endpoints.
   */
  lemma QueryRelationshipsAfterCreate(entities: Entities, relationships: Relationships, nextId: Id,
                                      fromEntityName: string, toEntityName: string, relationType: string)
    requires Invariant(entities, relationships, nextId)
    requires FindByName(entities, fromEntityName).Some? && FindByName(entities, toEntityName).Some?
    ensures var from, to := FindByName(entities, fromEntityName).value, FindByName(entities, toEntityName).value;
      QueryRelationships(entities, relationships.Set(nextId, Relationship(nextId, from.id, to.id, relationType)), relationType)
      == QueryRelationships(entities, relationships, relationType)
         + [RelationshipView(nextId, from.id, to.id, relationType, Some(fromEntityName), Some(toEntityName))]
  {
    var from, to := FindByName(entities, fromEntityName).value, FindByName(entities, toEntityName).value;
    var rel := Relationship(nextId, from.id, to.id, relationType);
    FindByNameStored(entities, fromEntityName);
    FindByNameStored(entities, toEntityName);
    QueryRelationshipsAppend(entities, relationships, rel, relationType);
  }

  /**
   * After delete_entity, no relationship reported by query_relationships
   * starts or ends at the deleted id, and every endpoint name is present.
   */
  lemma QueryRelationshipsAfterDelete(entities: Entities, relationships: Relationships, nextId: Id,
                                      entityId: Id, relationType: string)
    requires Invariant(entities, relationships, nextId)
    ensures forall v :: v in QueryRelationships(entities.Delete(entityId), RemoveIncident(relationships, entityId), relationType) ==>
      v.fromId != entityId && v.toId != entityId && v.fromEntity.Some? && v.toEntity.Some?
  {
    var entities', relationships' := entities.Delete(entityId), RemoveIncident(relationships, entityId);
    DeleteKeepsNoDangling(entities, relationships, entityId);
    ViewsResolve(entities', relationships', relationType);
    ViewsAvoid(entities', relationships', relationType, entityId);
  }
}
