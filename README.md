# graph-memory: a verified model of the in-memory graph store

The graph-memory server keeps a small knowledge graph in process memory. There are two JavaScript `Map`s: entities keyed by id and relationships keyed by id. Five tool handlers read and change them:

- `create_entity` stores a named, typed entity with its observations.
- `create_relationship` links two entities found by name.
- `query_entities` and `query_relationships` list the records of one type. A relationship also carries the current names of its two endpoints.
- `delete_entity` removes an entity found by name, together with every relationship that starts or ends at it.

This project models that store in Dafny. The modules are:

- `Options` holds the `Option` type. It stands for JavaScript's `undefined`.
- `Sequences` holds `Find`, `Filter` and `MapSeq`. They model `Array.prototype.find`, `filter` and `map`.
- `OrderedMaps` holds `OrderedMap`, a JavaScript `Map`. It is a finite map together with its insertion order. `Values()` is `Array.from(m.values())`, `Set` is `m.set` (a new key goes last) and `Delete` is `m.delete`.
- `Graph` holds the records, the store invariant and the pure parts of the handlers:
  - name resolution by first match (`FindByName`);
  - the two queries;
  - the cascade's result (`RemoveIncident`).
- `Store` holds the class `GraphDb`. Its fields `entities` and `relationships` are the two maps of the process-wide `graphDb`; its field `nextId` stands for `generateId`. The three mutating handlers are methods on it, and the delete cascade is a loop over the relationship keys.
- `Validation` holds `validateFields`.

The store invariant (`Graph.Invariant`) has three parts:

- Both maps list each key exactly once, in insertion order.
- Every record is stored under its own id, and every id is below `nextId`.
- No relationship points at an entity that is not stored ("no dangling edges").

The constructor establishes the invariant, and every handler method (`CreateEntity`, `CreateRelationship`, `DeleteEntity`) keeps it. The cascade helper `RemoveRelationshipsOf` is specified only by the relationship map it leaves behind; `DeleteEntity` restores the invariant after it.

## Model

| member | source | states |
|---|---|---|
| Store.GraphDb.constructor | app.js:6-9 | the store starts with both maps empty and satisfies the invariant |
| Store.GraphDb.CreateEntity | app.js:57-65 | a new entity is stored under an id that neither map held, with the given name, type and observations (the empty list when none are given); the entity order gains it at the end; the relationships are unchanged; the invariant is kept |
| Store.CreateEntityKeeps | app.js:58-65 | storing an entity under the next id keeps the invariant, and that id is fresh in both maps |
| Store.QueryEntitiesAfterCreate | app.js:65 | after a create, query_entities returns its former answer, followed by the new entity when that entity has the queried type |
| Store.GraphDb.CreateRelationship | app.js:85-109 | if either name resolves to no entity, the result is an error and nothing changes; otherwise exactly one relationship is added, under a fresh id, between the ids of the first entities with those names; the entities are unchanged; the invariant is kept |
| Store.CreateRelationshipKeeps | app.js:102-109 | adding a relationship whose endpoints are stored, under the next id, keeps the invariant |
| Store.ResolvedRelationshipKeeps | app.js:87-109 | when both names resolve, the relationship between the resolved entities keeps the invariant |
| Store.QueryRelationshipsAfterCreate | app.js:102-109 | after a successful create, query_relationships for its type returns its former answer followed by the new relationship, which carries the two given names as its endpoint names |
| Graph.FindByName | app.js:87-90 | `Array.from(entities.values()).find(e => e.name === name)`; a resolved entity carries the name; that it is the first such entity in insertion order, and that nothing resolves only when no entity has the name, is stated by Graph.FindByNameFirst |
| Graph.FindByNameFirst | app.js:87-90 | a name resolves to nothing exactly when no stored entity has it; otherwise it resolves to an entity with that name, and no entity inserted before it has the name |
| Graph.FindByNameStored | app.js:87-90 | a resolved entity is the one stored under its own id |
| Graph.FirstMatchWins | app.js:87-90 | when two entities share a name, the name always resolves and never to the one inserted later, so duplicate names are neither merged nor rejected |
| Graph.QueryEntities | app.js:127-129 | every returned entity is stored and has the queried type, and every stored entity of that type is returned |
| Store.QueryEntitiesAfterDelete | app.js:198 | after a delete, query_entities returns its former answer without the deleted entity; the other entities keep their order |
| Graph.OfRelationType | app.js:148-149 | the `.filter` step of query_relationships: every returned relationship has the queried type, and every stored relationship of that type is returned |
| Graph.NameOf | app.js:151-156 | `entities.get(id)?.name`: a name is present exactly when an entity is stored under the id, and it is that entity's name |
| Graph.View | app.js:150-157 | the `.map` callback: the view keeps the relationship's id, endpoints and type, and each endpoint name is present exactly when that endpoint is stored |
| Graph.QueryRelationships | app.js:147-158 | one result per stored relationship of the queried type, in insertion order; each result keeps the relationship's id, endpoints and type; an endpoint name is present exactly when an entity with that id is stored, and is then that entity's name |
| Graph.QueryRelationshipsAppend | app.js:148-158 | a fresh relationship of the queried type appears last in the query, with its endpoint names resolved |
| Graph.ViewsResolve | app.js:150-156 | while no relationship dangles, every result of query_relationships has both endpoint names |
| Graph.ViewsAvoid | app.js:148-149 | query_relationships reports only stored relationships, so it reports none at an id that no stored relationship touches |
| Store.GraphDb.DeleteEntity | app.js:176-198 | an unknown name gives an error and changes nothing; otherwise the first entity with that name is removed, together with exactly the relationships that start or end at its id; everything else stays; the invariant is kept |
| Store.GraphDb.RemoveRelationshipsOf | app.js:191-195 | walking the relationships in insertion order and deleting each one incident to the entity leaves exactly the cascade's result |
| Store.CascadeStep | app.js:191-193 | each key of the walk is stored and has not been visited before; visiting it adds it to the deleted set exactly when the relationship is incident |
| Graph.IncidentAmongAll | app.js:191-195 | the walk over all keys picks out exactly the incident relationships |
| Graph.IncidentAmongKeys | app.js:192 | every relationship the walk picks is one of the walked keys, is stored, and is incident |
| Graph.IncidentAmongPrefix | app.js:191-193 | every incident relationship among the walked keys is picked |
| Graph.RemoveIncident | app.js:191-195 | after the cascade, no relationship starts or ends at the entity, and every other relationship is kept unchanged |
| Graph.RemoveIncidentValues | app.js:191-195 | the relationships left by the cascade are, in insertion order, exactly the old ones not incident to the entity |
| Store.DeleteEntityKeeps | app.js:191-198 | the cascade followed by removing the entity keeps the invariant |
| Store.DeleteKeepsNoDangling | app.js:191-198 | because the cascade takes every incident relationship, removing the entity leaves no dangling relationship |
| Store.QueryRelationshipsAfterDelete | app.js:191-198 | after a delete, query_relationships reports no relationship at the deleted id, and every reported endpoint name is present |
| Validation.ValidateFields | app.js:12-18 | the check passes exactly when every required field is present; otherwise it names the first required field that is missing |
| Sequences.Find | app.js:87-88 | `find` gives nothing exactly when no element matches; otherwise it gives a matching element with no match before it |
| Sequences.Filter | app.js:128-129 | `filter` returns only elements of the input that pass, and every element that passes |
| Sequences.MapSeq | app.js:150-157 | `map` keeps the length and applies the function at each position |
| Sequences.FilterAppend | app.js:128-129 | filtering distributes over concatenation, so it keeps order |
| Sequences.FilterFilter | app.js:128-129 | two filters in a row equal one filter by their conjunction |
| Sequences.FilterAll | app.js:191-195 | a filter that every element passes changes nothing |
| Sequences.MapSeqAppend | app.js:150-157 | mapping distributes over concatenation |
| OrderedMaps.OrderedMap.Values | app.js:87 | `Array.from(m.values())`: one value per key, the value bound to the key at the same position of the insertion order |
| OrderedMaps.OrderedMap.Get | app.js:151-152 | `get` finds a value exactly when the key is bound, and then finds its value |
| OrderedMaps.OrderedMap.Set | app.js:65 | `set` binds the key; a new key goes last in the iteration order, and an existing key keeps its place |
| OrderedMaps.OrderedMap.Delete | app.js:193 | `delete` unbinds exactly that key and leaves a valid map; that the remaining values keep their order is stated by OrderedMaps.ValuesDeleteKeys |
| OrderedMaps.OrderedMap.DeleteKeys | app.js:191-195 | deleting a set of keys unbinds exactly those keys and keeps each remaining key listed once |
| OrderedMaps.Empty | app.js:7-8 | `new Map()` has no values |
| OrderedMaps.SetFreshValues | app.js:65 | setting a fresh key appends its value to the iteration order |
| OrderedMaps.DeleteKeysTwice | app.js:191-195 | deleting keys one batch after another equals deleting them all at once |
| OrderedMaps.DeleteNoKeys | app.js:191-195 | deleting no keys leaves the map as it was |
| OrderedMaps.ValuesDeleteKeys | app.js:191-195 | deleting the keys whose values fail a test leaves, in order, exactly the values that pass it |

## Left out

- The MCP `Server`, the stdio transport, tool registration and `server.connect` are protocol and I/O plumbing. They are not part of this model.
- The zod argument schemas are not modelled. The handlers take typed parameters instead.
- `log` and `handleError` only write to the console and rethrow. They are not modelled.
- `generateId` draws a random base-36 string. The model hands out a counter, `nextId`, instead, and the invariant keeps every stored id below it. A new id is therefore always fresh, and the silent overwrite that `Map.set` would do on an id collision never happens in the model.
- The text responses (`JSON.stringify`, template strings) and the `async` wrappers are not modelled. Outcomes are the datatypes `RelationshipOutcome` and `DeleteOutcome`, and query results are sequences of records.
- Store.GraphDb.CreateEntity: `observations` is an `Option`. Its `None` stands for an absent or falsy argument, which the `|| []` default turns into the empty list. The schema makes the argument required, so the default is unreachable through the server; the model keeps the default anyway.
- `query_entities` and `query_relationships` are functions of the store's fields rather than methods. As a result, they cannot change the store, and two calls in a row give the same answer.
- Store.GraphDb.RemoveRelationshipsOf iterates over a snapshot of the relationship keys. JavaScript iterates the live `Map` instead. The two agree here because the loop deletes only the entry it is visiting, which has already been passed.
- Store.QueryRelationshipsAfterDelete is stated by id, not by name. Entity names need not be unique, so another entity may still carry the deleted entity's name, and relationships to it may show that name.
- Validation.ValidateFields models `field in data` as membership in the set of property names of `data`, inherited ones included. The server never calls `validateFields`.
