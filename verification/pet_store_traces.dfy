/** Properties of runs of several handler calls on one store. */
module PetStoreTraces {
  import opened JavaLong
  import opened PetController

  /** Sends `pets` to POST /pets one after another, collecting the replies in order. */
  function InsertAll(store: Store, pets: seq<Pet>): (r: Reply<seq<Pet>>)
    ensures |r.value| == |pets|
    decreases |pets|
  {
    if pets == [] then Reply(store, [])
    else
      var before := InsertAll(store, pets[..|pets| - 1]);
      var last := InsertPet(before.store, pets[|pets| - 1]);
      Reply(last.store, before.value + [last.value])
  }

  /** A run of inserts is the run on all pets but the last, followed by the last insert. */
  lemma InsertAllLast(store: Store, pets: seq<Pet>)
    requires pets != []
    ensures var n := |pets| - 1;
      var before := InsertAll(store, pets[..n]);
      var last := InsertPet(before.store, pets[n]);
      InsertAll(store, pets) == Reply(last.store, before.value + [last.value])
  {
  }

  /** A non-empty sequence is its prefix followed by its last element. */
  lemma SplitLast(pets: seq<Pet>)
    requires pets != []
    ensures pets == pets[..|pets| - 1] + [pets[|pets| - 1]]
  {
  }

  /** The store holds exactly the ids 0 .. n-1. */
  ghost predicate HoldsIdsBelow(store: Store, n: nat)
  {
    && (forall k :: k in store ==> 0 <= k < n)
    && (forall i: Long :: 0 <= i < n ==> i in store)
  }

  /** On a store holding exactly the ids 0 .. n-1, the next insert is numbered n. */
  lemma InsertNumbersNext(store: Store, n: nat, pet: Pet)
    requires n <= LONG_MAX
    requires HoldsIdsBelow(store, n)
    ensures InsertPet(store, pet).value.id == n
  {
  }

  /** `r` is what a run of inserts of `pets` from an empty store should give: pet i is
      numbered i, keeps its other fields, and the store holds exactly those pets. */
  ghost predicate NumberedRun(r: Reply<seq<Pet>>, pets: seq<Pet>)
  {
    && |pets| <= LONG_MAX + 1
    && HoldsIdsBelow(r.store, |pets|)
    && |r.store| == |pets|
    && |r.value| == |pets|
    && (forall i :: 0 <= i < |pets| ==> r.value[i] == pets[i].(id := i))
    && (forall i :: 0 <= i < |pets| ==> r.value[i].id in r.store && r.store[r.value[i].id] == r.value[i])
  }

  /** One more insert extends a numbered run by one. */
  lemma InsertExtendsRun(before: Reply<seq<Pet>>, prefix: seq<Pet>, pet: Pet)
    requires |prefix| <= LONG_MAX
    requires NumberedRun(before, prefix)
    ensures var last := InsertPet(before.store, pet);
      NumberedRun(Reply(last.store, before.value + [last.value]), prefix + [pet])
  {
    var n := |prefix|;
    var last := InsertPet(before.store, pet);
    InsertNumbersNext(before.store, n, pet);
    var pets := prefix + [pet];
    var value := before.value + [last.value];
    forall i | 0 <= i < |pets|
      ensures value[i] == pets[i].(id := i)
      ensures value[i].id in last.store && last.store[value[i].id] == value[i]
    {
      if i < n {
        assert value[i] == before.value[i] && pets[i] == prefix[i];
      }
    }
  }

  /** Starting from an empty store, a run of inserts numbers the pets 0, 1, 2, ... in
      the order they arrive, keeps every other field, stores each under its number,
      and leaves exactly as many pets as were inserted. */
  lemma {:induction false} InsertsFromEmptyCountUp(pets: seq<Pet>)
    requires |pets| <= LONG_MAX + 1
    ensures NumberedRun(InsertAll(map[], pets), pets)
  {
    if pets != [] {
      var n := |pets| - 1;
      var prefix := pets[..n];
      InsertsFromEmptyCountUp(prefix);
      InsertExtendsRun(InsertAll(map[], prefix), prefix, pets[n]);
      InsertAllLast(map[], pets);
      SplitLast(pets);
    }
  }

  /** `updatePet` keeps every pet under its own id exactly when the sent pet already
      carries that id; otherwise the stored pet disagrees with its key. */
  lemma UpdatePetKeepsIdsIff(store: Store, id: Long, pet: Pet)
    requires KeysMatchIds(store)
    ensures KeysMatchIds(UpdatePet(store, id, pet).store) <==> pet.id == id
  {
  }
}
