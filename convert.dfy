/** `Helper::convertToArray`: a list of entities turned into the list of their
    `toArray()` results. It lives apart from the other helpers because it
    needs `toArray`, which itself needs `toSnakeCase`. */
module Conversion {
  import opened Values
  import opened Serialization

  /** `convertToArray($entities)`: every element that is an instance of the
      class `Entity` (`isEntity` says which entity objects are) is replaced by
      its `toArray()` under its own key; every other element is dropped. The
      source also calls itself on an element that is an array, but drops what
      that call returns, so nested arrays contribute nothing. */
  method ConvertToArray(entities: seq<Entry>, isEntity: Snapshot -> bool) returns (result: seq<Entry>)
    requires DistinctKeys(entities)
    ensures forall k :: k in KeysOf(result) ==> k in KeysOf(entities)
    ensures forall e {:trigger e in entities} :: e in entities ==> (e.key in KeysOf(result) <==> e.val.Ent? && isEntity(e.val.obj))
    ensures forall e {:trigger e in entities} :: e in entities && e.val.Ent? && isEntity(e.val.obj) ==>
      Get(result, e.key) == Arr(ArrayOf(e.val.obj, false))
    ensures DistinctKeys(result)
  {
    result := [];
    for i := 0 to |entities|
      invariant DistinctKeys(result)
      invariant forall k :: k in KeysOf(result) ==> k in KeysOf(entities[..i])
      invariant forall e {:trigger e in entities[..i]} :: e in entities[..i] ==> (e.key in KeysOf(result) <==> e.val.Ent? && isEntity(e.val.obj))
      invariant forall e {:trigger e in entities[..i]} :: e in entities[..i] && e.val.Ent? && isEntity(e.val.obj) ==>
        Get(result, e.key) == Arr(ArrayOf(e.val.obj, false))
    {
      var entity := entities[i];
      NewKey(entities, i);
      TakeOneMore(entities, i);
      assert KeysOf(entities[..i + 1]) == KeysOf(entities[..i]) + [entity.key];
      var wanted := entity.val.Ent? && isEntity(entity.val.obj);
      var next := result;
      if wanted {
        var row := Arr(ArrayOf(entity.val.obj, false));
        PutKeys(result, entity.key, row);
        PutDistinct(result, entity.key, row);
        next := Put(result, entity.key, row);
      }
      forall e {:trigger e in entities[..i + 1]} | e in entities[..i + 1]
        ensures e.key in KeysOf(next) <==> e.val.Ent? && isEntity(e.val.obj)
        ensures e.val.Ent? && isEntity(e.val.obj) ==> Get(next, e.key) == Arr(ArrayOf(e.val.obj, false))
      {
        if e in entities[..i] {
          assert e.key != entity.key;
        } else {
          assert e == entity;
        }
        if wanted {
          PutGet(result, entity.key, Arr(ArrayOf(entity.val.obj, false)), e.key);
        }
      }
      result := next;
    }
    assert entities[..|entities|] == entities;
  }

  /** In an array with distinct keys, an element's key is not among the keys
      of the elements before it. */
  lemma NewKey(entities: seq<Entry>, i: int)
    requires DistinctKeys(entities) && 0 <= i < |entities|
    ensures entities[i].key !in KeysOf(entities[..i])
    ensures forall e :: e in entities[..i] ==> e.key != entities[i].key
  {
    forall m | 0 <= m < i ensures KeysOf(entities[..i])[m] != entities[i].key {
      assert entities[..i][m] == entities[m];
      assert KeyAt(entities, m) != KeyAt(entities, i);
    }
  }
}
