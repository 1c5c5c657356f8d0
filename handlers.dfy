/** The seven request handlers that every registered entity gets, over the
    entity's storage collection. A handler runs to completion before the
    next one starts, so each is a method on the store that reads, and may
    change, its records. */
module Handlers {
  import opened Options
  import opened Int32Arith
  import opened Text
  import opened Linq
  import opened PagedResults
  import opened QueryEngine
  import opened Storage

  /** What the handlers need to know about one entity type: its lower-cased
      route prefix, its `ToString()` text (used for the `Created` location),
      its `Id` property, the database order of its key type, and its
      properties. */
  datatype Binding<!T, !K> = Binding(
    route: string,
    display: T -> string,
    key: T -> K,
    keyOrder: K -> int,
    fields: seq<Field<T>>)

  /** `x => x.Id`, as a rank for `OrderBy`. */
  function KeyRank<T(!new), K>(b: Binding<T, K>): (r: T -> int)
    ensures forall x, y :: b.key(x) == b.key(y) ==> r(x) == r(y)
  {
    (x: T) => b.keyOrder(b.key(x))
  }

  /** The HTTP results the handlers produce. `StorageFailure` stands for the
      exception the database raises when a second record with a stored key
      is saved. */
  datatype Body<T> = NoBody | One(value: T) | Many(values: seq<T>) | Page(result: PagedResult<T>)
  datatype Response<T> = Ok(body: Body<T>) | Created(location: string, entity: T) | NotFound | StorageFailure

  /** The `Created` location of a new record. */
  function CreatedLocation<T, K>(b: Binding<T, K>, entity: T): (r: string)
    ensures IsPrefix("/" + b.route + "/", r)
    ensures r[|b.route| + 2..] == b.display(entity)
  {
    "/" + b.route + "/" + b.display(entity)
  }

  class Store<T(!new), K(==)> {
    const binding: Binding<T, K>
    var rows: seq<T>

    /** The primary key holds. */
    ghost predicate Valid()
      reads this
    {
      UniqueKeys(rows, binding.key)
    }

    constructor (binding: Binding<T, K>, rows: seq<T>)
      requires UniqueKeys(rows, binding.key)
      ensures Valid()
      ensures this.binding == binding && this.rows == rows
    {
      this.binding := binding;
      this.rows := rows;
    }

    /** `POST /{route}/create`: add and save the record, answer `Created` at
        its location. A record whose key is already stored is refused by the
        database and nothing is saved. */
    method HandleCreate(entity: T) returns (r: Response<T>)
      requires Valid()
      modifies this
      ensures Valid()
      ensures Find(old(rows), binding.key, binding.key(entity)).Some? ==>
        r == StorageFailure && rows == old(rows)
      ensures Find(old(rows), binding.key, binding.key(entity)).None? ==>
        && r == Created(CreatedLocation(binding, entity), entity)
        && rows == old(rows) + [entity]
        && Find(rows, binding.key, binding.key(entity)) == Some(entity)
      ensures forall k :: k != binding.key(entity) ==> Find(rows, binding.key, k) == Find(old(rows), binding.key, k)
    {
      if Find(rows, binding.key, binding.key(entity)).Some? {
        return StorageFailure;
      }
      forall k {
        FindAfterInsert(rows, binding.key, entity, k);
      }
      rows := rows + [entity];
      r := Created(CreatedLocation(binding, entity), entity);
    }

    /** `GET /{route}/get-all`: every stored record, in stored order. */
    method HandleGetAll() returns (r: Response<T>)
      ensures r.Ok? && r.body.Many?
      ensures |r.body.values| == |rows| && forall i :: 0 <= i < |rows| ==> r.body.values[i] == rows[i]
    {
      r := Ok(Many(rows));
    }

    /** `GET /{route}/get/{id}`: the record with key `id`, or `NotFound`. */
    method HandleGetById(id: K) returns (r: Response<T>)
      requires Valid()
      ensures r == NotFound <==> forall i :: 0 <= i < |rows| ==> binding.key(rows[i]) != id
      ensures r != NotFound ==> r.Ok? && r.body.One? && r.body.value in rows && binding.key(r.body.value) == id
      ensures forall i :: 0 <= i < |rows| && binding.key(rows[i]) == id ==> r == Ok(One(rows[i]))
    {
      var entity := Find(rows, binding.key, id);
      forall i | 0 <= i < |rows| && binding.key(rows[i]) == id ensures entity == Some(rows[i]) {
        FindStored(rows, binding.key, i);
      }
      r := if entity.Some? then Ok(One(entity.value)) else NotFound;
    }

    /** `PUT /{route}/update`: when a record with the body's key is stored,
        replace it by the body and answer it; otherwise `NotFound`. */
    method HandleUpdate(entity: T) returns (r: Response<T>)
      requires Valid()
      modifies this
      ensures Valid()
      ensures Find(old(rows), binding.key, binding.key(entity)).None? ==> r == NotFound && rows == old(rows)
      ensures Find(old(rows), binding.key, binding.key(entity)).Some? ==>
        && r == Ok(One(entity))
        && Find(rows, binding.key, binding.key(entity)) == Some(entity)
      ensures |rows| == |old(rows)|
      ensures forall i :: 0 <= i < |rows| ==>
        rows[i] == if binding.key(old(rows)[i]) == binding.key(entity) then entity else old(rows)[i]
      ensures forall k :: k != binding.key(entity) ==> Find(rows, binding.key, k) == Find(old(rows), binding.key, k)
    {
      var existEntity := Find(rows, binding.key, binding.key(entity));
      if existEntity.None? {
        return NotFound;
      }
      forall k {
        FindAfterReplace(rows, binding.key, entity, k);
      }
      forall i | 0 <= i < |rows| {
        ReplaceAt(rows, binding.key, entity, i);
      }
      rows := Replace(rows, binding.key, entity);
      r := Ok(One(entity));
    }

    /** `DELETE /{route}/delete/{id}`: remove the record with key `id`, or
        answer `NotFound`. */
    method HandleDeleteById(id: K) returns (r: Response<T>)
      requires Valid()
      modifies this
      ensures Valid()
      ensures Find(old(rows), binding.key, id).None? ==> r == NotFound && rows == old(rows)
      ensures Find(old(rows), binding.key, id).Some? ==>
        r == Ok(NoBody) && rows == Remove(old(rows), binding.key, id) && |rows| == |old(rows)| - 1
      ensures Find(rows, binding.key, id).None?
      ensures forall k :: k != id ==> Find(rows, binding.key, k) == Find(old(rows), binding.key, k)
    {
      r := DeleteKey(id);
    }

    /** `DELETE /{route}/delete`: the same, for the key of the record in the
        body; the stored record with that key is the one removed. */
    method HandleDelete(entity: T) returns (r: Response<T>)
      requires Valid()
      modifies this
      ensures Valid()
      ensures Find(old(rows), binding.key, binding.key(entity)).None? ==> r == NotFound && rows == old(rows)
      ensures Find(old(rows), binding.key, binding.key(entity)).Some? ==>
        && r == Ok(NoBody)
        && rows == Remove(old(rows), binding.key, binding.key(entity))
        && |rows| == |old(rows)| - 1
      ensures Find(rows, binding.key, binding.key(entity)).None?
      ensures forall k :: k != binding.key(entity) ==> Find(rows, binding.key, k) == Find(old(rows), binding.key, k)
    {
      r := DeleteKey(binding.key(entity));
    }

    /** Look the key up, and remove its record when there is one. */
    method DeleteKey(id: K) returns (r: Response<T>)
      requires Valid()
      modifies this
      ensures Valid()
      ensures Find(old(rows), binding.key, id).None? ==> r == NotFound && rows == old(rows)
      ensures Find(old(rows), binding.key, id).Some? ==>
        r == Ok(NoBody) && rows == Remove(old(rows), binding.key, id) && |rows| == |old(rows)| - 1
      ensures Find(rows, binding.key, id).None?
      ensures forall k :: k != id ==> Find(rows, binding.key, k) == Find(old(rows), binding.key, k)
    {
      var entity := Find(rows, binding.key, id);
      if entity.None? {
        return NotFound;
      }
      forall k | k != id {
        FindAfterRemove(rows, binding.key, id, k);
      }
      RemoveKeepsUnique(rows, binding.key, id);
      RemoveCount(rows, binding.key, id);
      rows := Remove(rows, binding.key, id);
      r := Ok(NoBody);
    }

    /** `GET /{route}/query`: search unless the text is missing or blank,
        order by key, paginate, and answer the page in its envelope. */
    method HandleQuery(search: Option<string>, orderBy: string := "asc", page: Int32 := 1, pageSize: Int32 := 20)
      returns (r: Response<T>)
      ensures r == Ok(Page(QueryPage(rows, binding.fields, KeyRank(binding), search, orderBy, page, pageSize)))
    {
      var query := rows;
      if !IsNullOrWhiteSpace(search) {
        query := ApplySearch(query, search.value, binding.fields);
      }
      query := ApplyOrdering(query, orderBy, KeyRank(binding));
      query := ApplyPagination(query, page, pageSize);
      r := Ok(Page(PagedResult(query, |query|, page, pageSize)));
    }
  }
}
