/** The in-memory pet store of `PetController`: a hash map from `Long` ids to pets and
    the four request handlers that read and change it, each written as a pure
    transition that takes the store and returns the new store with the handler's reply. */
module PetController {
  import opened Wrappers
  import opened JavaLong

  /** Every field of a pet other than its id. The store never looks inside them. */
  type Attributes = map<string, string>

  datatype Pet = Pet(id: Long, attributes: Attributes)

  /** The controller's `pets` field; a fresh controller starts with `map[]`. */
  type Store = map<Long, Pet>

  /** Every pet is stored under its own id. Nothing in the controller enforces this;
      `InsertPet` keeps it and `UpdatePet` can break it. */
  ghost predicate KeysMatchIds(store: Store)
  {
    forall k :: k in store ==> store[k].id == k
  }

  /** Storing a pet under its own id keeps every pet stored under its own id. */
  lemma StoringUnderOwnIdKeepsKeysMatchIds(store: Store, pet: Pet)
    ensures KeysMatchIds(store) ==> KeysMatchIds(store[pet.id := pet])
  {
    if KeysMatchIds(store) {
      var after := store[pet.id := pet];
      forall k | k in after
        ensures after[k].id == k
      {
        if k != pet.id {
          assert after[k] == store[k];
        }
      }
    }
  }

  /** What a handler that changes the store hands back: the new store and its return value. */
  datatype Reply<+T> = Reply(store: Store, value: T)

  /** The argument of `HashMap.get(Object)`: the map compares it with its keys by
      `equals`, and a `Long` key equals only another `Long` of the same value. */
  datatype Key = LongKey(number: Long) | StringKey(text: string)

  /** `HashMap.get`: the pet stored under a key equal to `key`, or `None` (null). */
  function Lookup(store: Store, key: Key): (r: Option<Pet>)
    ensures r.Some? <==> key.LongKey? && key.number in store
    ensures r.Some? ==> r.value == store[key.number]
  {
    match key
    case LongKey(n) => if n in store then Some(store[n]) else None
    case StringKey(_) => None
  }

  /** A greatest element of a finite non-empty set of ids. */
  lemma {:induction false} GreatestOf(ids: set<Long>) returns (m: Long)
    requires ids != {}
    ensures m in ids && forall k :: k in ids ==> k <= m
  {
    var x :| x in ids;
    if ids == {x} {
      m := x;
    } else {
      var rest := ids - {x};
      var below := GreatestOf(rest);
      m := if x <= below then below else x;
      forall k | k in ids
        ensures k <= m
      {
        if k != x {
          assert k in rest;
        }
      }
    }
  }

  /** Every finite non-empty set of ids has a greatest element. */
  lemma HasGreatest(ids: set<Long>)
    requires ids != {}
    ensures exists m :: m in ids && forall k :: k in ids ==> k <= m
  {
    var m := GreatestOf(ids);
  }

  /** The largest stored id, or -1 for an empty store: the `highestId` of `insertPet`. */
  function HighestId(store: Store): (h: Long)
    ensures |store| == 0 ==> h == -1
    ensures |store| != 0 ==> h in store && forall k :: k in store ==> k <= h
  {
    if |store| == 0 then -1
    else
      assert store.Keys != {} by {
        var k :| k in store;
        assert k in store.Keys;
      }
      HasGreatest(store.Keys);
      var m :| m in store && forall k :: k in store ==> k <= m;
      m
  }

  /** GET /pets: every stored pet, one per key, in an order nobody promises.
      `order` records which key each element was read from. */
  method ListPets(store: Store) returns (pets: seq<Pet>, ghost order: seq<Long>)
    ensures |pets| == |order| == |store|
    ensures forall i :: 0 <= i < |order| ==> order[i] in store && pets[i] == store[order[i]]
    ensures forall i, j :: 0 <= i < j < |order| ==> order[i] != order[j]
    ensures forall k :: k in store ==> k in order
    ensures forall p :: p in pets <==> p in store.Values
  {
    pets, order := [], [];
    var rest := store.Keys;
    while rest != {}
      invariant rest <= store.Keys
      invariant |pets| == |order|
      invariant |order| + |rest| == |store.Keys|
      invariant forall i :: 0 <= i < |order| ==> order[i] in store && order[i] !in rest
      invariant forall i :: 0 <= i < |order| ==> pets[i] == store[order[i]]
      invariant forall i, j :: 0 <= i < j < |order| ==> order[i] != order[j]
      invariant forall k :: k in store ==> k in rest || k in order
      decreases rest
    {
      var k :| k in rest;
      pets, order := pets + [store[k]], order + [k];
      rest := rest - {k};
    }
    assert |store| == |store.Keys|;
    forall p | p in store.Values
      ensures p in pets
    {
      var k :| k in store && store[k] == p;
      var i :| 0 <= i < |order| && order[i] == k;
      assert pets[i] == p;
    }
  }

  /** GET /pets/{id} as written: the id arrives as a `String` and is looked up in a map
      whose keys are all `Long`s, so no stored pet is ever found. */
  function GetPet(store: Store, id: string): (r: Option<Pet>)
    ensures r == None
  {
    Lookup(store, StringKey(id))
  }

  /** PUT /pets/{id}: puts `pet` under `id` as it came, then reads `id` back. The
      pet's own `id` field is left alone, so it may now differ from its key. */
  function UpdatePet(store: Store, id: Long, pet: Pet): (r: Reply<Option<Pet>>)
    ensures r.value == Some(pet)
    ensures r.store.Keys == store.Keys + {id}
    ensures r.store[id] == pet
    ensures forall k :: k in store && k != id ==> r.store[k] == store[k]
    ensures |r.store| == if id in store then |store| else |store| + 1
  {
    var after := store[id := pet];
    Reply(after, Lookup(after, LongKey(id)))
  }

  /** The id `insertPet` hands out: one past the highest stored id in `long` arithmetic,
      so 0 for an empty store, the maximum plus one while that fits, and
      `Long.MIN_VALUE` once `Long.MAX_VALUE` is a stored id. */
  function NextId(store: Store): (id: Long)
    ensures |store| == 0 ==> id == 0
    ensures LONG_MAX !in store ==> forall k :: k in store ==> k < id
    ensures LONG_MAX !in store && |store| != 0 ==> id - 1 in store
    ensures LONG_MAX in store ==> id == LONG_MIN
  {
    var highest := HighestId(store);
    assert LONG_MAX !in store ==> highest < LONG_MAX;
    Add(highest, 1)
  }

  /** POST /pets: writes `NextId` into the pet and stores it under that id. Unless
      `Long.MAX_VALUE` is already a key, that id is fresh, so nothing is overwritten. */
  function InsertPet(store: Store, pet: Pet): (r: Reply<Pet>)
    ensures r.value.id == NextId(store) && r.value.attributes == pet.attributes
    ensures r.store.Keys == store.Keys + {r.value.id}
    ensures r.store[r.value.id] == r.value
    ensures forall k :: k in store && k != r.value.id ==> r.store[k] == store[k]
    ensures LONG_MAX !in store ==> r.value.id !in store && |r.store| == |store| + 1
    ensures KeysMatchIds(store) ==> KeysMatchIds(r.store)
  {
    var stored := pet.(id := NextId(store));
    StoringUnderOwnIdKeepsKeysMatchIds(store, stored);
    Reply(store[stored.id := stored], stored)
  }
}
