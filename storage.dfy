/** An entity's storage collection: the stored records in order, at most one
    per key, with the lookup and the three changes the handlers make. Commit
    is immediate. */
module Storage {
  import opened Options
  import opened Linq

  /** No two stored records share a key (the table's primary key). */
  ghost predicate UniqueKeys<T, K>(rows: seq<T>, key: T -> K) {
    forall i, j :: 0 <= i < j < |rows| ==> key(rows[i]) != key(rows[j])
  }

  /** `FindAsync(id)` / `FirstOrDefault(x => x.Id.Equals(id))`: the first
      stored record with key `id`. */
  function Find<T, K(==)>(rows: seq<T>, key: T -> K, id: K): (r: Option<T>)
    ensures r.Some? ==> r.value in rows && key(r.value) == id
    ensures r.None? <==> forall i :: 0 <= i < |rows| ==> key(rows[i]) != id
  {
    if rows == [] then None
    else if key(rows[0]) == id then Some(rows[0])
    else Find(rows[1..], key, id)
  }

  /** The collection after `Remove` of the record with key `id`. */
  function Remove<T, K(==)>(rows: seq<T>, key: T -> K, id: K): (r: seq<T>)
    ensures |r| <= |rows|
    ensures forall i :: 0 <= i < |r| ==> r[i] in rows && key(r[i]) != id
    ensures forall i :: 0 <= i < |rows| && key(rows[i]) != id ==> rows[i] in r
  {
    Where(rows, (x: T) => key(x) != id)
  }

  /** The collection after `Update(entity)`: the record with the entity's key
      is replaced by it, in place. */
  function Replace<T, K(==)>(rows: seq<T>, key: T -> K, entity: T): (r: seq<T>)
    ensures |r| == |rows|
  {
    if rows == [] then []
    else [if key(rows[0]) == key(entity) then entity else rows[0]] + Replace(rows[1..], key, entity)
  }

  /** Replace leaves every record whose key differs from the entity's where it
      was and puts the entity in the place of the one that shares it. */
  lemma {:induction false} ReplaceAt<T, K>(rows: seq<T>, key: T -> K, entity: T, i: nat)
    requires i < |rows|
    ensures Replace(rows, key, entity)[i] == if key(rows[i]) == key(entity) then entity else rows[i]
  {
    if i > 0 {
      ReplaceAt(rows[1..], key, entity, i - 1);
    }
  }

  /** In a collection with unique keys, looking up the key of a stored
      record finds that record. */
  lemma {:induction false} FindStored<T, K>(rows: seq<T>, key: T -> K, i: nat)
    requires UniqueKeys(rows, key) && i < |rows|
    ensures Find(rows, key, key(rows[i])) == Some(rows[i])
  {
    if i > 0 {
      FindStored(rows[1..], key, i - 1);
    }
  }

  /** Adding a record whose key is not stored keeps the keys unique; its key
      then finds it, and every other key finds what it found before. */
  lemma {:induction false} FindAfterInsert<T, K>(rows: seq<T>, key: T -> K, entity: T, k: K)
    requires UniqueKeys(rows, key) && Find(rows, key, key(entity)).None?
    ensures UniqueKeys(rows + [entity], key)
    ensures Find(rows + [entity], key, k) == if k == key(entity) then Some(entity) else Find(rows, key, k)
  {
    if rows != [] {
      assert (rows + [entity])[1..] == rows[1..] + [entity];
      FindAfterInsert(rows[1..], key, entity, k);
    }
  }

  /** Replacing the record with the entity's key keeps the keys unique; that
      key then finds the entity, and every other key finds what it found
      before. */
  lemma {:induction false} FindAfterReplace<T, K>(rows: seq<T>, key: T -> K, entity: T, k: K)
    requires UniqueKeys(rows, key)
    ensures UniqueKeys(Replace(rows, key, entity), key)
    ensures Find(rows, key, key(entity)).Some? ==> Find(Replace(rows, key, entity), key, key(entity)) == Some(entity)
    ensures k != key(entity) ==> Find(Replace(rows, key, entity), key, k) == Find(rows, key, k)
  {
    var r := Replace(rows, key, entity);
    forall i | 0 <= i < |rows| ensures key(r[i]) == key(rows[i]) {
      ReplaceAt(rows, key, entity, i);
    }
    if rows != [] {
      FindAfterReplace(rows[1..], key, entity, k);
    }
  }

  /** Removing by key keeps the keys unique, and that key then finds
      nothing. */
  lemma {:induction false} RemoveKeepsUnique<T, K>(rows: seq<T>, key: T -> K, id: K)
    requires UniqueKeys(rows, key)
    ensures UniqueKeys(Remove(rows, key, id), key)
    ensures Find(Remove(rows, key, id), key, id).None?
  {
    if rows != [] {
      RemoveKeepsUnique(rows[1..], key, id);
      var tail := Remove(rows[1..], key, id);
      if key(rows[0]) != id {
        forall j | 0 <= j < |tail| ensures key(tail[j]) != key(rows[0]) {
          var m :| 0 <= m < |rows[1..]| && rows[1..][m] == tail[j];
          assert rows[m + 1] == tail[j];
        }
      }
    }
  }

  /** Removing by key leaves the lookup of every other key as it was. */
  lemma {:induction false} FindAfterRemove<T, K>(rows: seq<T>, key: T -> K, id: K, k: K)
    requires k != id
    ensures Find(Remove(rows, key, id), key, k) == Find(rows, key, k)
  {
    if rows != [] {
      FindAfterRemove(rows[1..], key, id, k);
    }
  }

  /** Removing a stored key takes exactly one record away; removing a key
      that is not stored takes none. */
  lemma {:induction false} RemoveCount<T, K>(rows: seq<T>, key: T -> K, id: K)
    requires UniqueKeys(rows, key)
    ensures |Remove(rows, key, id)| == if Find(rows, key, id).Some? then |rows| - 1 else |rows|
  {
    if rows != [] {
      if key(rows[0]) == id {
        assert forall j :: 0 <= j < |rows[1..]| ==> key(rows[1..][j]) != id;
        WhereAll(rows[1..], (x: T) => key(x) != id);
      } else {
        RemoveCount(rows[1..], key, id);
      }
    }
  }

  /** Where keeps everything when everything passes. */
  lemma {:induction false} WhereAll<T>(q: seq<T>, p: T -> bool)
    requires forall i :: 0 <= i < |q| ==> p(q[i])
    ensures Where(q, p) == q
  {
    if q != [] {
      WhereAll(q[1..], p);
    }
  }
}
