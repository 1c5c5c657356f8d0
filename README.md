# MiniApiGen endpoint engine in Dafny

MiniApiGen turns every class marked `[ApiEntity]` into a REST API. At start-up
`RegisterApis` looks at the application's types. For each `[ApiEntity]` type it
maps `create` and `get-all` under the type's lower-cased name. When the type
implements `IEntity<TKey>` it also maps `get/{id}`, `update`, `delete/{id}`,
`delete` and `query`. The handlers read and change the entity's table. The
query endpoint searches the `[Searchable]` string properties, orders by `Id`,
paginates, and answers a `PagedResult<T>` envelope. The only entity is `Book`.

The model has ten modules:

- `Options`: `Option<T>`, standing for C#'s `null`.
- `Int32Arith`: C# `int` with unchecked wrap-around.
- `Text`: ordinal `Contains`, ASCII `ToLower`, `IsNullOrWhiteSpace`.
- `Linq`: `Where`, an `OrderBy` that is stable by construction (not proved), and `Skip`/`Take` with LINQ-to-Objects clamping.
- `PagedResults`: the envelope and `TotalPages`.
- `RouteBinder`: type descriptors, `GetIdType`, the endpoint table, and an `App` class.
  `App.RegisterApis` fills the endpoint table with a loop.
- `QueryEngine`: field descriptors, `ApplySearch`, `ApplyOrdering`, `ApplyPagination`,
  and `QueryPage`, the whole query pipeline as a function.
  `ApplySearch` is a method, because it builds its list of `Contains` tests in a loop.
- `Storage`: a table as a sequence of records with unique keys.
  It has lookup, insert, replace and remove.
- `Handlers`: a `Store` class whose methods are the seven request handlers.
- `Books`: the `Book` entity, its field list, its binding, and scenarios over it.

Reflection is replaced by explicit descriptors:

- an `EntityType` lists the type's name, its `[ApiEntity]` mark and its interfaces;
- a `Field` lists a property's name, its string accessor (if it is a string) and its `[Searchable]` mark.

The expression tree `ApplySearch` builds becomes a sequence of string
accessors, folded with `||` as `Aggregate(Expression.OrElse)` folds them.

Three behaviours of the code are easy to misread:

- An `orderBy` other than `"asc"` or `"desc"` is not sorted at all, so the query keeps the stored order (`ApplyOrdering`, WebApplicationExtensions.cs:182-190).
- `TotalCount` is counted after `Skip`/`Take` have been applied (WebApplicationExtensions.cs:170-175), so it is the length of the page, not the number of matching records.
  For page 2 of size 10 over 25 books the envelope says 10 records and one page.
- `delete` by body removes the stored record that has the body's key (WebApplicationExtensions.cs:140-146).

## Model

| member | source | states |
|---|---|---|
| Int32Arith.SubWraps | src/MiniApiGen/Extensions/WebApplicationExtensions.cs:194 | `page - 1` in unchecked arithmetic: exact when it fits, otherwise congruent modulo 2^32 |
| Int32Arith.MulWraps | src/MiniApiGen/Extensions/WebApplicationExtensions.cs:194 | `(page - 1) * pageSize` in unchecked arithmetic: exact when it fits, otherwise congruent modulo 2^32 |
| Int32Arith.Wrap | src/MiniApiGen/Extensions/WebApplicationExtensions.cs:194 | the 32-bit result of unchecked arithmetic differs from the exact value by a multiple of 2^32, and is the exact value whenever that fits in an int |
| Text.Contains | src/MiniApiGen/Extensions/WebApplicationExtensions.cs:214-216 | a string contains only strings no longer than itself |
| Text.IsNullOrWhiteSpace | src/MiniApiGen/Extensions/WebApplicationExtensions.cs:164 | `null` and the empty string are blank; a string is not blank exactly when some character of it is not white space |
| Text.ContainsIff | src/MiniApiGen/Extensions/WebApplicationExtensions.cs:214-216 | `Contains(s, t)` holds exactly when `t` occurs in `s` at some position |
| Text.NotContainsWithoutFirstChar | src/MiniApiGen/Extensions/WebApplicationExtensions.cs:214-216 | a string lacking the first character of a non-empty `t` does not contain `t` |
| Text.ContainsEmpty | src/MiniApiGen/Extensions/WebApplicationExtensions.cs:214-216 | every string contains the empty string |
| Text.ToLower | src/MiniApiGen/Extensions/WebApplicationExtensions.cs:24 | the lower-cased name has the same length, and no upper-case letter; each upper-case ASCII letter becomes the letter 32 code points above it, and every other character is unchanged |
| Text.ToLowerIdempotent | src/MiniApiGen/Extensions/WebApplicationExtensions.cs:24 | lower-casing a lower-cased name changes nothing |
| Linq.Where | src/MiniApiGen/Extensions/WebApplicationExtensions.cs:228 | the filtered query keeps only elements that pass, and keeps every element that passes |
| Linq.WhereCount | src/MiniApiGen/Extensions/WebApplicationExtensions.cs:228 | a passing record is kept as often as it occurs in the query, a failing one never |
| Linq.WhereIsSubsequence | src/MiniApiGen/Extensions/WebApplicationExtensions.cs:228 | filtering keeps the surviving records in their original order |
| Linq.WhereCongruent | src/MiniApiGen/Extensions/WebApplicationExtensions.cs:225-228 | two predicates that agree on every record filter the same |
| Linq.Skip | src/MiniApiGen/Extensions/WebApplicationExtensions.cs:194 | `Skip(n)` is a suffix of the query: all of it for `n <= 0`, all but the first `n` records for `0 <= n <= length`, nothing for a larger `n` |
| Linq.Take | src/MiniApiGen/Extensions/WebApplicationExtensions.cs:194 | `Take(n)` is a prefix of the query: nothing for `n <= 0`, the first `n` records for `0 <= n <= length`, all of it for a larger `n` |
| Linq.SortBy | src/MiniApiGen/Extensions/WebApplicationExtensions.cs:185 | `OrderBy` gives a permutation of the query, in non-decreasing rank |
| PagedResults.CeilDiv | src/MiniApiGen/Filter/PagedResult.cs:9-10 | the quotient rounded towards positive infinity, characterised by bounds for either sign of the divisor |
| PagedResults.PagedResult.TotalPages | src/MiniApiGen/Filter/PagedResult.cs:9-11 | zero pages for page size 0; otherwise the least number of pages of that size that covers the count |
| PagedResults.TotalPagesFormula | src/MiniApiGen/Filter/PagedResult.cs:9-10 | for a positive page size and a non-negative count, `TotalPages == (TotalCount + PageSize - 1) / PageSize` |
| PagedResults.TotalPagesOfEmpty | src/MiniApiGen/Filter/PagedResult.cs:9-11 | no records give no pages, for every page size |
| PagedResults.TotalPagesPositive | src/MiniApiGen/Filter/PagedResult.cs:9-10 | when the page size and the count are positive, there is at least one page, `TotalPages * PageSize` covers the count, and one page fewer does not |
| PagedResults.TotalPagesMonotone | src/MiniApiGen/Filter/PagedResult.cs:9-10 | for a fixed positive page size, more records never give fewer pages |
| PagedResults.TotalPagesOfOnePage | src/MiniApiGen/Filter/PagedResult.cs:9-10 | a count no larger than the positive page size gives at most one page |
| PagedResults.TotalPagesIgnoresPageAndData | src/MiniApiGen/Filter/PagedResult.cs:5-11 | `TotalPages` depends on `TotalCount` and `PageSize` only |
| RouteBinder.IsEntityInterface | src/MiniApiGen/Extensions/WebApplicationExtensions.cs:102 | an interface recognised as `IEntity<>` has a type argument, so `GetGenericArguments().First()` finds one |
| RouteBinder.GetIdType | src/MiniApiGen/Extensions/WebApplicationExtensions.cs:99-104 | no key type exactly when no interface is `IEntity<>`; otherwise the generic argument of the first interface that is; proved by recursion over the interface list |
| RouteBinder.RoutePrefix | src/MiniApiGen/Extensions/WebApplicationExtensions.cs:24 | the route prefix has the type name's length, no upper-case letter, and is left unchanged by lower-casing it again |
| RouteBinder.KeyFreeEndpoints | src/MiniApiGen/Extensions/WebApplicationExtensions.cs:26-34 | two endpoints under the given prefix, each with its operation's HTTP method |
| RouteBinder.KeyedEndpoints | src/MiniApiGen/Extensions/WebApplicationExtensions.cs:39-62 | five endpoints under the given prefix, each with its operation's HTTP method |
| RouteBinder.EntityEndpoints | src/MiniApiGen/Extensions/WebApplicationExtensions.cs:24-63 | a type contributes seven endpoints when it has a key type and two otherwise, all under its route prefix and each with its operation's HTTP method |
| RouteBinder.EntityEndpointIff | src/MiniApiGen/Extensions/WebApplicationExtensions.cs:24-63 | a type gets create and get-all under its lower-cased name, and the five keyed routes exactly when it has a key type |
| RouteBinder.ApiEntityTypes | src/MiniApiGen/Extensions/WebApplicationExtensions.cs:18-20 | the selected types are exactly the `[ApiEntity]` types of the application |
| RouteBinder.EndpointsOf | src/MiniApiGen/Extensions/WebApplicationExtensions.cs:22-64 | each type contributes between two and seven endpoints |
| RouteBinder.EndpointsOfVerbs | src/MiniApiGen/Extensions/WebApplicationExtensions.cs:26-62 | every endpoint in the table is mapped with the HTTP method of its operation |
| RouteBinder.Routes | src/MiniApiGen/Extensions/WebApplicationExtensions.cs:18-64 | every registered path starts with `/`, and an application without `[ApiEntity]` types has no routes |
| RouteBinder.EndpointsOfIff | src/MiniApiGen/Extensions/WebApplicationExtensions.cs:22-64 | the table for a list of types holds exactly the endpoints of each type in it |
| RouteBinder.EndpointTableIff | src/MiniApiGen/Extensions/WebApplicationExtensions.cs:18-64 | an endpoint is registered exactly when an `[ApiEntity]` type gives it its name and has a key type if the operation needs one |
| RouteBinder.RoutesSound | src/MiniApiGen/Extensions/WebApplicationExtensions.cs:18-64 | every registered (method, path) pair comes from an `[ApiEntity]` type and an operation it is given |
| RouteBinder.RoutesComplete | src/MiniApiGen/Extensions/WebApplicationExtensions.cs:18-64 | every operation an `[ApiEntity]` type is given is registered under `/{name}/…` with its HTTP method |
| RouteBinder.App.Map | src/MiniApiGen/Extensions/WebApplicationExtensions.cs:72-155 | `MapGet`/`MapPost`/`MapPut`/`MapDelete` append exactly one endpoint to the table |
| RouteBinder.App.MapEntity | src/MiniApiGen/Extensions/WebApplicationExtensions.cs:24-63 | one iteration of the loop appends exactly the type's endpoints to the table |
| RouteBinder.App.MapKeyFree | src/MiniApiGen/Extensions/WebApplicationExtensions.cs:26-34 | appends `POST /{name}/create` and `GET /{name}/get-all` |
| RouteBinder.App.MapKeyed | src/MiniApiGen/Extensions/WebApplicationExtensions.cs:39-62 | appends the five keyed endpoints in mapping order |
| RouteBinder.App.MapEntities | src/MiniApiGen/Extensions/WebApplicationExtensions.cs:22-64 | the loop appends the endpoints of the types one type after another |
| RouteBinder.App.RegisterApis | src/MiniApiGen/Extensions/WebApplicationExtensions.cs:14-68 | the table grows by exactly the endpoints of the `[ApiEntity]` types, in discovery order |
| QueryEngine.SearchableProps | src/MiniApiGen/Extensions/WebApplicationExtensions.cs:199-200 | the selected properties are exactly the `[Searchable]` ones |
| QueryEngine.StringGetters | src/MiniApiGen/Extensions/WebApplicationExtensions.cs:208-218 | no `Contains` test is built exactly when no searchable property is a string |
| QueryEngine.OrAll | src/MiniApiGen/Extensions/WebApplicationExtensions.cs:225 | the `OrElse` fold fails when none of its `Contains` tests holds |
| QueryEngine.OrAllIff | src/MiniApiGen/Extensions/WebApplicationExtensions.cs:225-226 | the `OrElse` fold holds exactly when one of its `Contains` tests holds |
| QueryEngine.StringGettersIff | src/MiniApiGen/Extensions/WebApplicationExtensions.cs:208-218 | some built test holds exactly when some searchable string property contains the text |
| QueryEngine.SearchPredicateIff | src/MiniApiGen/Extensions/WebApplicationExtensions.cs:199-226 | the built predicate holds exactly when the record matches the search |
| QueryEngine.SearchPredicatesExist | src/MiniApiGen/Extensions/WebApplicationExtensions.cs:199-223 | a test is built exactly when some property is both searchable and a string |
| QueryEngine.Search | src/MiniApiGen/Extensions/WebApplicationExtensions.cs:197-229 | the search returns no more records than it is given, and only records it is given |
| QueryEngine.ApplySearch | src/MiniApiGen/Extensions/WebApplicationExtensions.cs:197-229 | the loop's result is the search: unchanged without searchable strings, otherwise the matching records |
| QueryEngine.SearchWithoutSearchableFields | src/MiniApiGen/Extensions/WebApplicationExtensions.cs:202-203 | with no searchable property the query is unchanged |
| QueryEngine.SearchKeepsExactlyMatches | src/MiniApiGen/Extensions/WebApplicationExtensions.cs:197-229 | when some property is a searchable string, a record is kept exactly when a searchable string property contains the text, and every kept record is a stored one |
| QueryEngine.SearchIsSubsequence | src/MiniApiGen/Extensions/WebApplicationExtensions.cs:197-229 | the search keeps records in their stored order |
| QueryEngine.ApplyOrdering | src/MiniApiGen/Extensions/WebApplicationExtensions.cs:182-190 | a permutation; `"asc"` non-decreasing and `"desc"` non-increasing by key; any other value keeps the order |
| QueryEngine.SkipCount | src/MiniApiGen/Extensions/WebApplicationExtensions.cs:194 | page 1 and page size 0 skip nothing; with page size 1 the skip is the page number minus one |
| QueryEngine.SkipCountExact | src/MiniApiGen/Extensions/WebApplicationExtensions.cs:194 | without overflow the skip count is `(page - 1) * pageSize` |
| QueryEngine.PageStart | src/MiniApiGen/Extensions/WebApplicationExtensions.cs:194 | the page starts at 0 for a skip count of 0 or less, at the skip count when it lies within the query, and at the end past it |
| QueryEngine.ApplyPagination | src/MiniApiGen/Extensions/WebApplicationExtensions.cs:192-195 | a contiguous window of the query that starts at the skip count clamped into the query (`PageStart`) and holds at most `pageSize` records |
| QueryEngine.PaginationElements | src/MiniApiGen/Extensions/WebApplicationExtensions.cs:192-195 | a page holds only records of the query |
| QueryEngine.PaginationWindow | src/MiniApiGen/Extensions/WebApplicationExtensions.cs:192-195 | for `p >= 1` and `s >= 0` and without overflow, page `p` of size `s` is the slice from `(p-1)*s` to `p*s`, clamped to the query |
| QueryEngine.PaginationSkipWrapsAround | src/MiniApiGen/Extensions/WebApplicationExtensions.cs:194 | page 1073741825 of size 4 wraps to a skip of 0 and answers the first page |
| QueryEngine.QueryPage | src/MiniApiGen/Extensions/WebApplicationExtensions.cs:162-178 | the envelope echoes page and page size, and counts exactly the records it carries, never more than the page size |
| QueryEngine.QueryEnvelope | src/MiniApiGen/Extensions/WebApplicationExtensions.cs:170-178 | the envelope echoes page and page size, counts the page it carries, holds at most `pageSize` stored records, and has at most one page |
| QueryEngine.QuerySearchSound | src/MiniApiGen/Extensions/WebApplicationExtensions.cs:164-170 | with a non-blank search and some searchable string property, every record of the page matches it |
| QueryEngine.QueryOrdered | src/MiniApiGen/Extensions/WebApplicationExtensions.cs:169-170 | `"asc"` pages are non-decreasing and `"desc"` pages non-increasing by key |
| QueryEngine.QueryUnrecognisedOrderKeepsStoredOrder | src/MiniApiGen/Extensions/WebApplicationExtensions.cs:162-175 | without a search and with another `orderBy`, the page is a slice of the records in stored order |
| Storage.Find | src/MiniApiGen/Extensions/WebApplicationExtensions.cs:94 | a lookup finds a stored record with the key, and finds nothing exactly when no record has it |
| Storage.Replace | src/MiniApiGen/Extensions/WebApplicationExtensions.cs:114 | replacing keeps the number of records |
| Storage.ReplaceAt | src/MiniApiGen/Extensions/WebApplicationExtensions.cs:114 | the record with the entity's key becomes the entity; every other record stays in place |
| Storage.Remove | src/MiniApiGen/Extensions/WebApplicationExtensions.cs:125-130 | removing a key keeps exactly the records with another key |
| Storage.FindStored | src/MiniApiGen/Extensions/WebApplicationExtensions.cs:94 | with unique keys, the key of a stored record finds that record |
| Storage.FindAfterInsert | src/MiniApiGen/Extensions/WebApplicationExtensions.cs:83-84 | adding a new key keeps keys unique, finds the new record, and leaves every other lookup as it was |
| Storage.FindAfterReplace | src/MiniApiGen/Extensions/WebApplicationExtensions.cs:114-115 | replacing keeps keys unique; when the entity's key was already stored it then finds the entity; every other lookup stays as it was |
| Storage.RemoveKeepsUnique | src/MiniApiGen/Extensions/WebApplicationExtensions.cs:129-130 | removing keeps keys unique and the removed key finds nothing |
| Storage.FindAfterRemove | src/MiniApiGen/Extensions/WebApplicationExtensions.cs:129-130 | removing one key leaves the lookup of every other key as it was |
| Storage.RemoveCount | src/MiniApiGen/Extensions/WebApplicationExtensions.cs:129-130 | removing a stored key takes away exactly one record, and removing an absent key takes away none |
| Handlers.KeyRank | src/MiniApiGen/Extensions/WebApplicationExtensions.cs:185-187 | `x => x.Id` as a rank: records with the same key get the same rank |
| Handlers.CreatedLocation | src/MiniApiGen/Extensions/WebApplicationExtensions.cs:85 | the location is `/{route}/` followed by the entity's text |
| Handlers.Store.HandleCreate | src/MiniApiGen/Extensions/WebApplicationExtensions.cs:79-87 | a new key is appended and answered `Created` at its location and found afterwards; a stored key fails with nothing saved; other lookups unchanged |
| Handlers.Store.HandleGetAll | src/MiniApiGen/Extensions/WebApplicationExtensions.cs:70-77 | answers every stored record, in stored order |
| Handlers.Store.HandleGetById | src/MiniApiGen/Extensions/WebApplicationExtensions.cs:89-97 | `NotFound` exactly when no record has the key; otherwise `Ok` with the stored record that has it; nothing changes |
| Handlers.Store.HandleUpdate | src/MiniApiGen/Extensions/WebApplicationExtensions.cs:106-118 | `NotFound` with nothing changed when the key is absent; otherwise the record with the key becomes the body, all others stay, and the body is answered |
| Handlers.Store.HandleDeleteById | src/MiniApiGen/Extensions/WebApplicationExtensions.cs:120-133 | `NotFound` with nothing changed when the key is absent; otherwise exactly that record is removed and `Ok` answered; other lookups unchanged |
| Handlers.Store.DeleteKey | src/MiniApiGen/Extensions/WebApplicationExtensions.cs:123-132 | `NotFound` with nothing changed when the key is absent; otherwise exactly the record with the key is removed and `Ok` answered; the key is then not found and other lookups are unchanged |
| Handlers.Store.HandleDelete | src/MiniApiGen/Extensions/WebApplicationExtensions.cs:135-150 | the same, for the key of the body |
| Handlers.Store.HandleQuery | src/MiniApiGen/Extensions/WebApplicationExtensions.cs:152-180 | answers the page that search, ordering by key and pagination give over the stored records |
| Books.BookRoutePrefix | src/MiniApiGen/Entities/Book.cs:6-9 | Book's routes are under `book` and its key type is `System.Guid` |
| Books.BookPaths | src/MiniApiGen/Extensions/WebApplicationExtensions.cs:72-155 | the seven paths of Book, written out |
| Books.BookRoutes | src/MiniApiGen/Entities/Book.cs:6-9 | in any application whose only `[ApiEntity]` type is Book, every operation is registered under `/book` with its HTTP method, and nothing else is |
| Books.BookRouteRegistered | src/MiniApiGen/Entities/Book.cs:6-9 | wherever Book is one of the types, each of its operations is registered under `/book` |
| Books.BookRouteOnly | src/MiniApiGen/Entities/Book.cs:6-9 | where Book is the only `[ApiEntity]` type, every registered route is one of Book's |
| Books.BookHasSearchableString | src/MiniApiGen/Entities/Book.cs:11-12 | Book has a searchable string property |
| Books.BookMatchesIff | src/MiniApiGen/Entities/Book.cs:11-16 | a book matches exactly when its title or its author contains the text |
| Books.BookMatchIgnoresOtherFields | src/MiniApiGen/Entities/Book.cs:9-18 | id, description, publisher and publication date never change whether a book matches |
| Books.BookSearch | src/MiniApiGen/Entities/Book.cs:11-17 | a search keeps exactly the books whose title or author contains the text |
| Books.DuneSearch | src/MiniApiGen/Entities/Book.cs:11-16 | searching "Dune" over Dune and The Hobbit keeps Dune alone |
| Books.DuneScenario | src/MiniApiGen/Extensions/WebApplicationExtensions.cs:152-180 | the query for "Dune" answers Dune alone, a count of 1 and one page |
| Books.PageTwoOfTwentyFive | src/MiniApiGen/Extensions/WebApplicationExtensions.cs:169-178 | page 2 of size 10 over 25 books carries the 11th to 20th by key, a count of 10 and one page |
| Books.SecondPageAscending | src/MiniApiGen/Extensions/WebApplicationExtensions.cs:162-178 | without a search, page 2 of size 10 over 25 records in ascending order is the 11th to the 20th sorted record, with a count of 10 |
| Books.SecondPageOfTen | src/MiniApiGen/Extensions/WebApplicationExtensions.cs:192-195 | page 2 of size 10 over 25 records is the 11th to the 20th |
| Books.TenRecordsFillOnePage | src/MiniApiGen/Filter/PagedResult.cs:9-10 | a count of 10 with page size 10 is one page |
| Books.BookLocation | src/MiniApiGen/Extensions/WebApplicationExtensions.cs:85 | a created book is located at `/book/MiniApiGen.Entities.Book` |
| Books.CreateThenGetById | src/MiniApiGen/Extensions/WebApplicationExtensions.cs:79-97 | a book created under a new key is answered by `get/{id}` |
| Books.DeleteThenGetById | src/MiniApiGen/Extensions/WebApplicationExtensions.cs:89-133 | after `delete/{id}` the key is not found, and no other book is lost |

## Left out

- Reflection, generic instantiation and expression trees: types and properties are explicit descriptors, and the `Contains` expressions are string accessors.
- HTTP: model binding, JSON serialisation and status codes are left out. A malformed id in the route is rejected before any handler runs, so it is not modelled. A handler's result is a `Response` value.
- async/await and concurrent requests: each handler is one sequential step on the store.
- Entity Framework change tracking: `AsNoTracking`, attaching a detached entity in `Remove(entity)`, and `SaveChangesAsync` are not modelled. A change commits when the handler returns.
- Handlers.Store.HandleCreate: the table's own primary-key check becomes a lookup before the insert, answered `StorageFailure`. The exception the database raises is not modelled.
- Handlers.Store.HandleCreate: a record whose `Guid` key is empty gets a fresh key from Entity Framework. The model stores the key it is given.
- QueryEngine.ApplyPagination: follows LINQ to Objects, which clamps a negative skip or take count to zero. A database provider may instead reject a negative `OFFSET` or `LIMIT`.
- PagedResults.PagedResult.TotalPages: uses exact integer ceiling division, not `Math.Ceiling` over a `double`. The two agree on all Int32 operands but one pair: `-2147483648 / -1`, whose ceiling does not fit the `int` cast. The page length is never negative there.
- Text.Contains: an ordinal search on characters. Culture rules and the database's translation to `LIKE`/`strpos` are left out.
- Handlers.Store.HandleGetAll, Handlers.Store.HandleCreate, Handlers.Store.HandleUpdate, QueryEngine.ApplyOrdering: the order of `rows` (append on create, replace in place on update, stored order for get-all and for an unrecognised `orderBy`) stands for an order the database does not guarantee. Those queries have no `ORDER BY` (WebApplicationExtensions.cs:74 and :169-170), and an `UPDATE` may move a row.
- Handlers.Store: entities are values (`T(!new)`), so aliasing between tracked entity objects and the table is not modelled.
- Text.IsWhite: covers only the ASCII whitespace characters, not the rest of Unicode's.
- Text.ToLower: folds ASCII letters only, not culture-specific case rules.
- Linq.SortBy: a stable insertion sort. The database's `ORDER BY` need not be stable, but keys are unique, so the order by key is fixed either way. That equivalence is not proved.
- RouteBinder.App.RegisterApis: two types whose names lower-case to the same prefix would collide in ASP.NET routing. The model just lists both.
- `Program.cs` (host, Swagger, database connection) and `AppDbContext.cs` (the EF context) are not part of this model. The store stands for the context's table.
