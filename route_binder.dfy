/** Type discovery and route binding: which entity types receive endpoints,
    under which prefix, and which of the seven routes each one gets. */
module RouteBinder {
  import opened Options
  import opened Linq
  import opened Text

  /** A type as the binder sees it, by its full name (`System.Guid`). */
  datatype TypeRef = TypeRef(fullName: string)

  /** An interface a type implements; a generic one lists its type
      arguments, so that `IEntity<Guid>` is
      `InterfaceRef("MiniApiGen.Base.Entity.IEntity", [TypeRef("System.Guid")])`. */
  datatype InterfaceRef = InterfaceRef(fullName: string, typeArgs: seq<TypeRef>)

  /** A type of the application: its simple name, whether it carries the
      `[ApiEntity]` attribute, and the interfaces it implements in order. */
  datatype EntityType = EntityType(name: string, isApiEntity: bool, interfaces: seq<InterfaceRef>)

  const EntityInterface: string := "MiniApiGen.Base.Entity.IEntity"

  /** `i.IsGenericType && i.GetGenericTypeDefinition() == typeof(IEntity<>)`:
      the generic definition is identified by its name and its arity, one. */
  predicate IsEntityInterface(i: InterfaceRef): (r: bool)
    ensures r ==> |i.typeArgs| > 0
  {
    |i.typeArgs| == 1 && i.fullName == EntityInterface
  }

  /** Position `k` holds the first `IEntity<>` interface of `ifs`. */
  ghost predicate FirstEntityInterfaceAt(ifs: seq<InterfaceRef>, k: int) {
    0 <= k < |ifs| && IsEntityInterface(ifs[k]) && forall j :: 0 <= j < k ==> !IsEntityInterface(ifs[j])
  }

  /** GetIdType: the key type of an entity whose `GetInterfaces()` are `ifs`,
      the first generic argument of the first `IEntity<>` among them, if any. */
  function GetIdType(ifs: seq<InterfaceRef>): (r: Option<TypeRef>)
    ensures r.None? <==> forall k :: 0 <= k < |ifs| ==> !IsEntityInterface(ifs[k])
    ensures r.Some? ==> exists k :: FirstEntityInterfaceAt(ifs, k) && r.value == ifs[k].typeArgs[0]
  {
    if ifs == [] then None
    else if IsEntityInterface(ifs[0]) then
      assert FirstEntityInterfaceAt(ifs, 0);
      Some(ifs[0].typeArgs[0])
    else
      var r := GetIdType(ifs[1..]);
      assert r.Some? ==> exists k :: FirstEntityInterfaceAt(ifs, k) && r.value == ifs[k].typeArgs[0] by {
        if r.Some? {
          var k :| FirstEntityInterfaceAt(ifs[1..], k) && r.value == ifs[1..][k].typeArgs[0];
          assert FirstEntityInterfaceAt(ifs, k + 1) by {
            forall j | 0 <= j < k + 1 ensures !IsEntityInterface(ifs[j]) {
              if j > 0 { assert ifs[j] == ifs[1..][j - 1]; }
            }
          }
        }
      }
      r
  }

  datatype HttpMethod = Get | Post | Put | Delete

  datatype Operation = Create | GetAll | GetById | Update | DeleteById | DeleteByBody | Query

  /** One entry of the application's endpoint table: the HTTP method, the
      route prefix and the operation, which together fix the path. */
  datatype Endpoint = Endpoint(verb: HttpMethod, prefix: string, op: Operation)
  {
    /** The path the endpoint answers on. */
    function Path(): string {
      PathOf(prefix, op)
    }
  }

  /** The operations that need the entity's key type. */
  predicate NeedsKey(op: Operation) {
    !(op == Create || op == GetAll)
  }

  function MethodOf(op: Operation): HttpMethod {
    match op
    case Create => Post
    case GetAll => Get
    case GetById => Get
    case Update => Put
    case DeleteById => Delete
    case DeleteByBody => Delete
    case Query => Get
  }

  function PathSuffix(op: Operation): string {
    match op
    case Create => "create"
    case GetAll => "get-all"
    case GetById => "get/{id}"
    case Update => "update"
    case DeleteById => "delete/{id}"
    case DeleteByBody => "delete"
    case Query => "query"
  }

  /** The route an operation is mapped to under a prefix. */
  function PathOf(route: string, op: Operation): string {
    "/" + route + "/" + PathSuffix(op)
  }

  function EndpointOf(route: string, op: Operation): Endpoint {
    Endpoint(MethodOf(op), route, op)
  }

  /** The lower-cased type name every route of `t` starts with. */
  function RoutePrefix(t: EntityType): (r: string)
    ensures |r| == |t.name|
    ensures forall i :: 0 <= i < |r| ==> !IsUpper(r[i])
    ensures ToLower(r) == r
  {
    ToLowerIdempotent(t.name);
    ToLower(t.name)
  }

  /** The endpoints one entity type contributes, in the order they are mapped. */
  function EntityEndpoints(t: EntityType): (r: seq<Endpoint>)
    ensures |r| == if GetIdType(t.interfaces).Some? then 7 else 2
    ensures forall i :: 0 <= i < |r| ==> r[i].prefix == RoutePrefix(t) && r[i].verb == MethodOf(r[i].op)
  {
    KeyFreeEndpoints(RoutePrefix(t)) + if GetIdType(t.interfaces).Some? then KeyedEndpoints(RoutePrefix(t)) else []
  }

  /** create and get-all, which every entity type receives. */
  function KeyFreeEndpoints(name: string): (r: seq<Endpoint>)
    ensures |r| == 2
    ensures forall i :: 0 <= i < |r| ==> r[i].prefix == name && r[i].verb == MethodOf(r[i].op)
  {
    [EndpointOf(name, Create), EndpointOf(name, GetAll)]
  }

  /** The five routes that need the entity's key type. */
  function KeyedEndpoints(name: string): (r: seq<Endpoint>)
    ensures |r| == 5
    ensures forall i :: 0 <= i < |r| ==> r[i].prefix == name && r[i].verb == MethodOf(r[i].op)
  {
    [EndpointOf(name, GetById), EndpointOf(name, Update), EndpointOf(name, DeleteById),
     EndpointOf(name, DeleteByBody), EndpointOf(name, Query)]
  }

  /** The endpoints of a sequence of entity types, type after type. */
  function EndpointsOf(ts: seq<EntityType>): (r: seq<Endpoint>)
    ensures 2 * |ts| <= |r| <= 7 * |ts|
  {
    if ts == [] then [] else EndpointsOf(ts[..|ts| - 1]) + EntityEndpoints(ts[|ts| - 1])
  }

  /** Every endpoint of the table is mapped with its operation's HTTP method. */
  lemma {:induction false} EndpointsOfVerbs(ts: seq<EntityType>)
    ensures forall i :: 0 <= i < |EndpointsOf(ts)| ==> EndpointsOf(ts)[i].verb == MethodOf(EndpointsOf(ts)[i].op)
  {
    if ts != [] {
      EndpointsOfVerbs(ts[..|ts| - 1]);
      var init, last := EndpointsOf(ts[..|ts| - 1]), EntityEndpoints(ts[|ts| - 1]);
      var all: seq<Endpoint> := init + last;
      assert EndpointsOf(ts) == all;
      forall i | 0 <= i < |all| ensures all[i].verb == MethodOf(all[i].op) {
        if i < |init| {
          assert all[i] == init[i];
        } else {
          assert all[i] == last[i - |init|];
        }
      }
    }
  }

  /** One iteration of the mapping loop keeps the table equal to the
      starting table followed by the endpoints of the types seen so far. */
  lemma MapStep(start: seq<Endpoint>, ts: seq<EntityType>, i: nat, before: seq<Endpoint>, after: seq<Endpoint>)
    requires i < |ts|
    requires before == start + EndpointsOf(ts[..i])
    requires after == before + EntityEndpoints(ts[i])
    ensures after == start + EndpointsOf(ts[..i + 1])
  {
    EndpointsOfPrefix(ts, i);
    assert start + (EndpointsOf(ts[..i]) + EntityEndpoints(ts[i])) == start + EndpointsOf(ts[..i]) + EntityEndpoints(ts[i]);
  }

  lemma EndpointsOfPrefix(ts: seq<EntityType>, i: nat)
    requires i < |ts|
    ensures EndpointsOf(ts[..i + 1]) == EndpointsOf(ts[..i]) + EntityEndpoints(ts[i])
  {
    assert ts[..i + 1][..i] == ts[..i];
  }

  /** The types that carry `[ApiEntity]`, in the order they are found. */
  function ApiEntityTypes(types: seq<EntityType>): (r: seq<EntityType>)
    ensures forall i :: 0 <= i < |r| ==> r[i] in types && r[i].isApiEntity
    ensures forall i :: 0 <= i < |types| && types[i].isApiEntity ==> types[i] in r
  {
    Where(types, (t: EntityType) => t.isApiEntity)
  }

  /** The endpoints of one entity: create and get-all always, the five
      key-dependent routes exactly when the type has a key type. */
  lemma EntityEndpointIff(t: EntityType, e: Endpoint)
    ensures e in EntityEndpoints(t) <==>
      e == EndpointOf(RoutePrefix(t), e.op) && (NeedsKey(e.op) ==> GetIdType(t.interfaces).Some?)
  {
  }

  lemma {:induction false} EndpointsOfIff(ts: seq<EntityType>, e: Endpoint)
    ensures e in EndpointsOf(ts) <==> exists t :: t in ts && e in EntityEndpoints(t)
  {
    if ts != [] {
      var init, last := ts[..|ts| - 1], ts[|ts| - 1];
      EndpointsOfIff(init, e);
      assert ts == init + [last];
      if e in EndpointsOf(init) {
        var t :| t in init && e in EntityEndpoints(t);
        assert t in ts;
      }
    }
  }

  /** The whole endpoint table that RegisterApis builds: an endpoint is in it
      exactly when some `[ApiEntity]` type lends it its lower-cased name and
      either the operation needs no key or the type has a key type. */
  lemma EndpointTableIff(types: seq<EntityType>, e: Endpoint)
    ensures e in EndpointsOf(ApiEntityTypes(types)) <==>
      exists t :: t in types && t.isApiEntity
        && e == EndpointOf(RoutePrefix(t), e.op) && (NeedsKey(e.op) ==> GetIdType(t.interfaces).Some?)
  {
    var api := ApiEntityTypes(types);
    EndpointsOfIff(api, e);
    if e in EndpointsOf(api) {
      var t :| t in api && e in EntityEndpoints(t);
      EntityEndpointIff(t, e);
    }
    if exists t :: t in types && t.isApiEntity
        && e == EndpointOf(RoutePrefix(t), e.op) && (NeedsKey(e.op) ==> GetIdType(t.interfaces).Some?) {
      var t :| t in types && t.isApiEntity
        && e == EndpointOf(RoutePrefix(t), e.op) && (NeedsKey(e.op) ==> GetIdType(t.interfaces).Some?);
      var k :| 0 <= k < |types| && types[k] == t;
      assert t in api;
      EntityEndpointIff(t, e);
    }
  }

  /** The (method, path) pairs the application answers on once RegisterApis
      has run over `types`. */
  function Routes(types: seq<EntityType>): (r: set<(HttpMethod, string)>)
    ensures forall m, p :: (m, p) in r ==> |p| > 0 && p[0] == '/'
    ensures (forall i :: 0 <= i < |types| ==> !types[i].isApiEntity) ==> r == {}
  {
    set e | e in EndpointsOf(ApiEntityTypes(types)) :: (e.verb, e.Path())
  }

  /** RegisterApis gives type `t` an endpoint for `op`. */
  predicate Binds(t: EntityType, op: Operation) {
    t.isApiEntity && (NeedsKey(op) ==> GetIdType(t.interfaces).Some?)
  }

  /** Every registered route comes from some `[ApiEntity]` type's
      lower-cased name and an operation that type is given. */
  lemma RoutesSound(types: seq<EntityType>, m: HttpMethod, p: string)
    requires (m, p) in Routes(types)
    ensures exists t, op :: t in types && Binds(t, op) && m == MethodOf(op) && p == PathOf(RoutePrefix(t), op)
  {
    var e :| e in EndpointsOf(ApiEntityTypes(types)) && (e.verb, e.Path()) == (m, p);
    EndpointTableIff(types, e);
    var t :| t in types && t.isApiEntity
      && e == EndpointOf(RoutePrefix(t), e.op) && (NeedsKey(e.op) ==> GetIdType(t.interfaces).Some?);
    assert Binds(t, e.op);
  }

  /** Every operation an `[ApiEntity]` type is given is registered under its
      lower-cased name. */
  lemma RoutesComplete(types: seq<EntityType>, t: EntityType, op: Operation)
    requires t in types && Binds(t, op)
    ensures (MethodOf(op), PathOf(RoutePrefix(t), op)) in Routes(types)
  {
    var e := EndpointOf(RoutePrefix(t), op);
    EndpointTableIff(types, e);
    assert (e.verb, e.Path()) == (MethodOf(op), PathOf(RoutePrefix(t), op));
  }

  /** The application's endpoint table, as `app.MapGet`/`MapPost`/... fill it. */
  class App {
    var endpoints: seq<Endpoint>

    constructor ()
      ensures endpoints == []
    {
      endpoints := [];
    }

    /** `app.MapGet`/`MapPost`/`MapPut`/`MapDelete`: adds one endpoint. */
    method Map(e: Endpoint)
      modifies this
      ensures endpoints == old(endpoints) + [e]
    {
      endpoints := endpoints + [e];
    }

    /** The body of RegisterApis's loop: maps create and get-all under the
        type's lower-cased name, then the five key-dependent routes when
        GetIdType finds a key type. */
    method MapEntity(entityType: EntityType)
      modifies this
      ensures endpoints == old(endpoints) + EntityEndpoints(entityType)
    {
      var name := ToLower(entityType.name);
      MapKeyFree(name);
      var idType := GetIdType(entityType.interfaces);
      if idType.Some? {
        MapKeyed(name);
      }
    }

    /** HandleCreate and HandleGetAll: the two endpoints every entity gets. */
    method MapKeyFree(name: string)
      modifies this
      ensures endpoints == old(endpoints) + KeyFreeEndpoints(name)
    {
      Map(EndpointOf(name, Create));
      Map(EndpointOf(name, GetAll));
    }

    /** HandleGetById, HandleUpdate, HandleDeleteById, HandleDelete and
        HandleQuery: the five endpoints that need a key type. */
    method MapKeyed(name: string)
      modifies this
      ensures endpoints == old(endpoints) + KeyedEndpoints(name)
    {
      Map(EndpointOf(name, GetById));
      Map(EndpointOf(name, Update));
      Map(EndpointOf(name, DeleteById));
      Map(EndpointOf(name, DeleteByBody));
      Map(EndpointOf(name, Query));
    }

    /** The `foreach` of RegisterApis: maps the entity types one after the other. */
    method MapEntities(entityTypes: seq<EntityType>)
      modifies this
      ensures endpoints == old(endpoints) + EndpointsOf(entityTypes)
    {
      for i := 0 to |entityTypes|
        invariant endpoints == old(endpoints) + EndpointsOf(entityTypes[..i])
      {
        ghost var before := endpoints;
        MapEntity(entityTypes[i]);
        MapStep(old(endpoints), entityTypes, i, before, endpoints);
      }
      assert entityTypes[..|entityTypes|] == entityTypes;
    }

    /** RegisterApis: selects the `[ApiEntity]` types and maps their endpoints. */
    method RegisterApis(types: seq<EntityType>)
      modifies this
      ensures endpoints == old(endpoints) + EndpointsOf(ApiEntityTypes(types))
    {
      var entityTypes := ApiEntityTypes(types);
      MapEntities(entityTypes);
    }
  }
}
