/** The handlers as their routes evidently intend them, next to
    lemmas that show where the code as written in `PetController` departs from that. */
module PetControllerIntended {
  import opened Wrappers
  import opened JavaLong
  import opened PetController

  /** GET /pets/{id} with the id taken as a `Long`: the pet stored under `id`, if any. */
  function GetById(store: Store, id: Long): (r: Option<Pet>)
    ensures r.Some? <==> id in store
    ensures r.Some? ==> r.value == store[id]
  {
    Lookup(store, LongKey(id))
  }

  /** As written, `getPet` misses even a pet that is stored: with pet 0 in the
      store, `getPet("0")` yields null while the `Long` lookup finds it. */
  lemma GetPetMissesStoredPet(store: Store)
    requires 0 in store
    ensures GetPet(store, "0") == None
    ensures GetById(store, 0) == Some(store[0])
  {
  }

  /** After an insert, looking its id up gives back the pet with that id written in. */
  lemma GetByIdAfterInsert(store: Store, pet: Pet)
    ensures var r := InsertPet(store, pet);
      GetById(r.store, r.value.id) == Some(pet.(id := r.value.id))
  {
  }

  /** `updatePet` with the `id` argument forced onto the pet: the stored and returned
      pet carries that id, so every pet stays stored under its own id. */
  function ReplacePet(store: Store, id: Long, pet: Pet): (r: Reply<Pet>)
    ensures r.value.id == id && r.value.attributes == pet.attributes
    ensures r.store.Keys == store.Keys + {id}
    ensures r.store[id] == r.value
    ensures forall k :: k in store && k != id ==> r.store[k] == store[k]
    ensures KeysMatchIds(store) ==> KeysMatchIds(r.store)
  {
    var stored := pet.(id := id);
    var after := UpdatePet(store, id, stored).store;
    StoringUnderOwnIdKeepsKeysMatchIds(store, stored);
    Reply(after, stored)
  }

  /** As written, `updatePet` stores a pet whose own id disagrees with its key
      whenever the pet carries a different id: `updatePet(5L, pet)` with `pet.id == 0`. */
  lemma UpdatePetLeavesIdMismatch(store: Store, pet: Pet)
    requires pet.id == 0
    ensures UpdatePet(store, 5, pet).store[5].id == 0
    ensures ReplacePet(store, 5, pet).store[5].id == 5
    ensures !KeysMatchIds(UpdatePet(store, 5, pet).store)
  {
  }

  /** `insertPet` refusing to number a pet past `Long.MAX_VALUE`, as a checked addition
      would: otherwise it numbers the pet exactly as `insertPet` does, never overwrites
      a stored pet and always grows the store by one. */
  function InsertPetChecked(store: Store, pet: Pet): (r: Option<Reply<Pet>>)
    ensures r.None? <==> LONG_MAX in store
    ensures r.Some? ==> r.value.value == pet.(id := NextId(store))
    ensures r.Some? ==> r.value.value.id !in store
    ensures r.Some? ==> r.value.value.attributes == pet.attributes
    ensures r.Some? ==> r.value.store.Keys == store.Keys + {r.value.value.id}
    ensures r.Some? ==> r.value.store[r.value.value.id] == r.value.value
    ensures r.Some? ==> forall k :: k in store ==> r.value.store[k] == store[k]
    ensures r.Some? ==> |r.value.store| == |store| + 1
    ensures r.Some? && KeysMatchIds(store) ==> KeysMatchIds(r.value.store)
  {
    if LONG_MAX in store then None else Some(InsertPet(store, pet))
  }

  /** As written, once some pet is stored under `Long.MAX_VALUE` (`updatePet(Long.MAX_VALUE, p)`),
      every `insertPet` numbers its pet `Long.MIN_VALUE`, so the second such insert
      replaces the first one's pet and the store stops growing. */
  lemma InsertPetOverwritesAfterMaxId(store: Store, first: Pet, second: Pet)
    requires LONG_MAX in store
    ensures var r1 := InsertPet(store, first);
      var r2 := InsertPet(r1.store, second);
      && r1.value.id == LONG_MIN
      && r2.value.id == LONG_MIN
      && r2.store[LONG_MIN] == second.(id := LONG_MIN)
      && |r2.store| == |r1.store|
  {
  }

  /** A sample session: two inserts numbered 0 and 1, a replace
      at 5 that forces the id, and lookups that find 0 and 5 but not 99. */
  lemma ExampleSession(rex: Attributes, mimi: Attributes, fido: Attributes)
    ensures var s1 := InsertPet(map[], Pet(7, rex));
      var s2 := InsertPet(s1.store, Pet(7, mimi));
      var s3 := ReplacePet(s2.store, 5, Pet(7, fido));
      && s1.value == Pet(0, rex)
      && s2.value == Pet(1, mimi)
      && s3.value == Pet(5, fido)
      && GetById(s3.store, 0) == Some(Pet(0, rex))
      && GetById(s3.store, 5) == Some(Pet(5, fido))
      && GetById(s3.store, 99) == None
  {
    var s1 := InsertPet(map[], Pet(7, rex));
    assert NextId(map[]) == 0;
    assert s1.store == map[0 := Pet(0, rex)];
    assert NextId(s1.store) == 1;
  }
}
