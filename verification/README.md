# In-memory pet store of `PetController`, modelled in Dafny

`PetController` keeps all pets in one `HashMap<Long, Pet>` and serves four routes over it:

- GET /pets lists the stored pets.
- GET /pets/{id} looks one up.
- PUT /pets/{id} stores a pet under a given id.
- POST /pets numbers a new pet one past the highest stored id and stores it.

This project models that store as an immutable `map<Long, Pet>`. Each handler is a pure
transition that returns the new store together with the handler's reply.

Modules:

- `JavaLong` (`java_long.dfy`) defines `Long` as the integers in Java's 64-bit range. `Add` is Java's `long` addition, with its two's-complement wrap-around.
- `Wrappers` (`wrappers.dfy`) defines `Option`, where `None` stands for Java's `null`.
- `PetController` (`pet_controller.dfy`) models the code as written: `Pet` (an id plus opaque attributes), `Store`, `HashMap.get` over Java objects (`Lookup`), the highest-id computation and the four handlers.
- `PetStoreTraces` (`pet_store_traces.dfy`) covers runs of several calls. The main result is that inserts from an empty store are numbered 0, 1, 2, … in order.
- `PetControllerIntended` (`pet_controller_intended.dfy`) gives the handlers as the routes evidently intend them. It also has lemmas that exhibit each place where the code departs from that intent (see "## Findings").

Where a route's evident purpose and the code disagree, the model follows the code:

- GET /pets/{id} evidently means to return the stored pet. In the code it takes a `String` and, for any non-null id, never finds anything.
- PUT /pets/{id} evidently means to store the pet under its `id` argument, as `insertPet` does with the id it assigns. The code stores the pet unchanged, with whatever id it carried.
- Nothing in the code handles POST /pets once a pet is stored under `Long.MAX_VALUE`. The code wraps `highestId + 1` around to `Long.MIN_VALUE`.

The maximum follows Java's `Stream.max` taken together with `orElse(-1L)`. A non-empty store whose keys are all below -1 therefore yields a maximum below -1, not -1. The model keeps that behaviour.

## Model

| member | source | states |
|---|---|---|
| JavaLong.Add | src/main/java/com/bol/securitydemo/PetController.java:40 | `highestId + 1` in `long` arithmetic: the sum itself when it fits, and otherwise the sum shifted by 2^64, which is the only other in-range value congruent to it |
| PetController.Lookup | src/main/java/com/bol/securitydemo/PetController.java:28 | `HashMap.get` finds a pet exactly when the argument is a `Long` that is a stored key, and then returns the pet stored under it |
| PetController.GreatestOf | src/main/java/com/bol/securitydemo/PetController.java:39 | every non-empty set of stored ids has a member that no other member exceeds, so the `max` of line 39 exists whenever the store is non-empty |
| PetController.HighestId | src/main/java/com/bol/securitydemo/PetController.java:39 | `highestId` is -1 for an empty store; otherwise it is a stored id that no stored id exceeds |
| PetController.NextId | src/main/java/com/bol/securitydemo/PetController.java:39-40 | the id an insert assigns is 0 on an empty store. Without a key at `Long.MAX_VALUE`, it is above every stored key and one past a stored key, so it is exactly the max plus one. With such a key, it wraps to `Long.MIN_VALUE` |
| PetController.ListPets | src/main/java/com/bol/securitydemo/PetController.java:21-24 | the list holds one pet per stored key, with no key read twice and none missed, so its length is the store's size and its elements are exactly the stored pets |
| PetController.GetPet | src/main/java/com/bol/securitydemo/PetController.java:26-29 | with a non-null `String` id, the lookup returns null for every store and every such id |
| PetController.UpdatePet | src/main/java/com/bol/securitydemo/PetController.java:31-35 | afterwards `id` maps to the pet exactly as sent, whether or not `id` was present; the reply is that pet; other keys are untouched; the store grows by one exactly when `id` was new |
| PetController.InsertPet | src/main/java/com/bol/securitydemo/PetController.java:37-43 | the pet gets the `NextId` id and keeps its other attributes. It is stored under that id and no other key changes. Unless `Long.MAX_VALUE` is a key, the id was not stored before, so no pet is overwritten and the store grows by one. Every pet stays stored under its own id |
| PetStoreTraces.InsertNumbersNext | src/main/java/com/bol/securitydemo/PetController.java:39-40 | on a store holding exactly the ids 0..n-1, the next insert is numbered n |
| PetStoreTraces.InsertExtendsRun | src/main/java/com/bol/securitydemo/PetController.java:39-41 | one more insert extends a run numbered 0..n-1 to one numbered 0..n |
| PetStoreTraces.InsertsFromEmptyCountUp | src/main/java/com/bol/securitydemo/PetController.java:39-41 | from an empty store, inserts are numbered 0, 1, 2, … in arrival order and keep their other fields. The store then holds exactly those pets, each under its number, and has as many entries as there were inserts |
| PetStoreTraces.UpdatePetKeepsIdsIff | src/main/java/com/bol/securitydemo/PetController.java:32-34 | on a store where every pet sits under its own id, `updatePet` keeps that true if and only if the pet already carries the `id` argument |
| PetControllerIntended.GetById | src/main/java/com/bol/securitydemo/PetController.java:27-28 | a lookup by `Long` id finds a pet exactly when the id is stored, and returns the pet stored there |
| PetControllerIntended.GetPetMissesStoredPet | src/main/java/com/bol/securitydemo/PetController.java:27-28 | with pet 0 stored, the as-written GET of "0" returns null while the `Long` lookup returns pet 0 |
| PetControllerIntended.GetByIdAfterInsert | src/main/java/com/bol/securitydemo/PetController.java:40-42 | looking up the id an insert returned gives back the inserted pet with that id written in |
| PetControllerIntended.ReplacePet | src/main/java/com/bol/securitydemo/PetController.java:32-34 | `updatePet` with its `id` argument forced onto the pet: the stored and returned pet carries that id and its own attributes, other keys are untouched, and every pet stays stored under its own id |
| PetControllerIntended.UpdatePetLeavesIdMismatch | src/main/java/com/bol/securitydemo/PetController.java:32-34 | as written, `updatePet(5L, pet)` with `pet.id == 0` stores a pet whose id is 0 under key 5; the forced-id replace stores id 5 there |
| PetControllerIntended.InsertPetChecked | src/main/java/com/bol/securitydemo/PetController.java:39-41 | the insert that refuses exactly when `Long.MAX_VALUE` is a stored key. When it succeeds, it numbers the pet `NextId` as the as-written insert does, the new id is fresh, no stored pet changes, the store grows by one and every pet stays stored under its own id |
| PetControllerIntended.InsertPetOverwritesAfterMaxId | src/main/java/com/bol/securitydemo/PetController.java:39-41 | as written, once `Long.MAX_VALUE` is a stored key, two inserts both get `Long.MIN_VALUE`; the second replaces the first's pet and the store does not grow |
| PetControllerIntended.ExampleSession | src/main/java/com/bol/securitydemo/PetController.java:32-42 | two inserts on an empty store get ids 0 and 1 whatever id the caller sent; a forced-id replace at 5 stores id 5; lookups find 0 and 5 but not 99 |

## Left out

- Spring routing and request binding are not modelled. This covers the mapping annotations and the JSON body. The `id` parameters have no `@PathVariable`, so where their value comes from is also out. The handlers take their arguments directly.
- JSON (de)serialisation of `Pet` is not modelled. The `Pet` class is not part of this model, so a pet is an id plus an opaque map of attributes.
- Concurrency is not modelled. The `HashMap` is unsynchronised, and racing inserts can assign one id twice. The model is sequential.
- Aliasing is not modelled. `getPets` returns a live view of the map's values, and `insertPet` writes the id into the caller's own object. The model returns snapshots and new values.
- Null ids are not modelled. A `null` key in the map, or a `null` id on PUT, would make the maximum on line 39 throw. Ids here are always non-null `Long`s.
- PetController.Lookup: only `Long` and `String` arguments are modelled, the two kinds of argument the controller passes.

## Findings

| source | as written | input that shows it | evidently intended | confidence | as-written member | corrected member |
|---|---|---|---|---|---|---|
| src/main/java/com/bol/securitydemo/PetController.java:27-28 | the id is a `String` looked up in a map keyed by `Long`, so for any non-null id the lookup never matches | `getPet("0")` with pet 0 stored | return the pet stored under that id | high, not executed | PetControllerIntended.GetPetMissesStoredPet | PetControllerIntended.GetById |
| src/main/java/com/bol/securitydemo/PetController.java:32-34 | the pet is stored as sent, and its own `id` is not set to the `id` argument | `updatePet(5L, pet)` with `pet.id == 0` | the stored pet carries id 5, so every pet sits under its own id | medium, not executed | PetControllerIntended.UpdatePetLeavesIdMismatch | PetControllerIntended.ReplacePet |
| src/main/java/com/bol/securitydemo/PetController.java:39-41 | `highestId + 1` wraps to `Long.MIN_VALUE` when the highest key is `Long.MAX_VALUE` | `updatePet(Long.MAX_VALUE, p)`, then `insertPet` twice: the second insert overwrites the first | a fresh id every time, or a refusal once no id above the highest stored id is left | medium, not executed | PetControllerIntended.InsertPetOverwritesAfterMaxId | PetControllerIntended.InsertPetChecked |
