/** The query endpoint's pipeline: free-text search over the `[Searchable]`
    string properties, ordering by key, and the page window. The property
    metadata that reflection reads in the source is given here as an explicit
    list of field descriptors. */
module QueryEngine {
  import opened Options
  import opened Int32Arith
  import opened Text
  import opened Linq
  import opened PagedResults

  /** How a property is read: a string property with its getter, or a
      property of any other type, which search never reads. */
  datatype Accessor<!T> = StringProperty(get: T -> string) | OtherProperty

  /** A property of an entity type: its name, how it is read, and whether it
      carries `[Searchable]`. */
  datatype Field<!T> = Field(name: string, accessor: Accessor<T>, searchable: bool)

  /** `prop.PropertyType == typeof(string)`. */
  predicate IsString<T>(f: Field<T>) {
    f.accessor.StringProperty?
  }

  /** `f` takes part in search: it is `[Searchable]` and of type string. */
  predicate SearchesOn<T>(f: Field<T>) {
    f.searchable && IsString(f)
  }

  /** Some property of `fields` takes part in search. */
  ghost predicate HasSearchableString<T>(fields: seq<Field<T>>) {
    exists f :: f in fields && SearchesOn(f)
  }

  /** Some `[Searchable]` string property of `x` contains `search`. */
  ghost predicate Matches<T>(fields: seq<Field<T>>, search: string, x: T) {
    exists f :: f in fields && SearchesOn(f) && Contains(f.accessor.get(x), search)
  }

  /** What ApplySearch yields: the records with a matching searchable string
      property, or the whole query when there is no such property to test. */
  ghost function Search<T>(query: seq<T>, search: string, fields: seq<Field<T>>): (r: seq<T>)
    ensures |r| <= |query|
    ensures forall i :: 0 <= i < |r| ==> r[i] in query
  {
    if !HasSearchableString(fields) then query
    else Where(query, (x: T) => Matches(fields, search, x))
  }

  /** The properties that carry `[Searchable]`. */
  function SearchableProps<T>(fields: seq<Field<T>>): (r: seq<Field<T>>)
    ensures forall i :: 0 <= i < |r| ==> r[i] in fields && r[i].searchable
    ensures forall i :: 0 <= i < |fields| && fields[i].searchable ==> fields[i] in r
  {
    Where(fields, (f: Field<T>) => f.searchable)
  }

  /** The getters of the string properties of `props`, in order: the
      `Contains` calls the source collects in `searchExpressions`. */
  function StringGetters<T>(props: seq<Field<T>>): (r: seq<T -> string>)
    ensures |r| == 0 <==> forall f :: f in props ==> !IsString(f)
  {
    if props == [] then []
    else
      var init, last := props[..|props| - 1], props[|props| - 1];
      assert props == init + [last];
      StringGetters(init) + if IsString(last) then [last.accessor.get] else []
  }

  /** `searchExpressions.Aggregate(Expression.OrElse)` applied to `x`: the
      left-nested disjunction of the `Contains` tests. Aggregate demands a
      non-empty list. */
  function OrAll<T>(exprs: seq<T -> string>, x: T, search: string): (r: bool)
    requires |exprs| > 0
    ensures (forall j :: 0 <= j < |exprs| ==> !Contains(exprs[j](x), search)) ==> !r
  {
    if |exprs| == 1 then Contains(exprs[0](x), search)
    else OrAll(exprs[..|exprs| - 1], x, search) || Contains(exprs[|exprs| - 1](x), search)
  }

  lemma {:induction false} OrAllIff<T>(exprs: seq<T -> string>, x: T, search: string)
    requires |exprs| > 0
    ensures OrAll(exprs, x, search) <==> exists j :: 0 <= j < |exprs| && Contains(exprs[j](x), search)
  {
    if |exprs| > 1 {
      var init := exprs[..|exprs| - 1];
      OrAllIff(init, x, search);
      if OrAll(init, x, search) {
        var j :| 0 <= j < |init| && Contains(init[j](x), search);
        assert exprs[j] == init[j];
      }
      if exists j :: 0 <= j < |exprs| && Contains(exprs[j](x), search) {
        var j :| 0 <= j < |exprs| && Contains(exprs[j](x), search);
        if j < |init| {
          assert exprs[j] == init[j];
        }
      }
    }
  }

  lemma {:induction false} StringGettersIff<T>(props: seq<Field<T>>, x: T, search: string)
    ensures (exists j :: 0 <= j < |StringGetters(props)| && Contains(StringGetters(props)[j](x), search))
      <==> exists f :: f in props && IsString(f) && Contains(f.accessor.get(x), search)
  {
    if props != [] {
      var init, last := props[..|props| - 1], props[|props| - 1];
      assert props == init + [last];
      StringGettersIff(init, x, search);
      var gs, gi := StringGetters(props), StringGetters(init);
      assert gs == gi + if IsString(last) then [last.accessor.get] else [];
      if exists j :: 0 <= j < |gs| && Contains(gs[j](x), search) {
        var j :| 0 <= j < |gs| && Contains(gs[j](x), search);
        if j < |gi| {
          assert gs[j] == gi[j];
        } else {
          assert IsString(last) && Contains(last.accessor.get(x), search);
        }
      }
      if exists f :: f in props && IsString(f) && Contains(f.accessor.get(x), search) {
        var f :| f in props && IsString(f) && Contains(f.accessor.get(x), search);
        if f in init {
          var j :| 0 <= j < |gi| && Contains(gi[j](x), search);
          assert gs[j] == gi[j];
        } else {
          assert f == last;
          assert gs[|gs| - 1] == last.accessor.get;
        }
      }
    }
  }

  /** The disjunction ApplySearch builds holds of `x` exactly when `x`
      matches. */
  lemma SearchPredicateIff<T>(fields: seq<Field<T>>, x: T, search: string)
    requires |StringGetters(SearchableProps(fields))| > 0
    ensures OrAll(StringGetters(SearchableProps(fields)), x, search) <==> Matches(fields, search, x)
  {
    var props := SearchableProps(fields);
    OrAllIff(StringGetters(props), x, search);
    StringGettersIff(props, x, search);
    if exists f :: f in props && IsString(f) && Contains(f.accessor.get(x), search) {
      var f :| f in props && IsString(f) && Contains(f.accessor.get(x), search);
      assert f in fields && SearchesOn(f);
    }
    if Matches(fields, search, x) {
      var f :| f in fields && SearchesOn(f) && Contains(f.accessor.get(x), search);
      var k :| 0 <= k < |fields| && fields[k] == f;
      assert f in props;
    }
  }

  /** There is something to search on exactly when ApplySearch collects at
      least one `Contains` test. */
  lemma SearchPredicatesExist<T>(fields: seq<Field<T>>)
    ensures |StringGetters(SearchableProps(fields))| > 0 <==> HasSearchableString(fields)
  {
    var props := SearchableProps(fields);
    if HasSearchableString(fields) {
      var f :| f in fields && SearchesOn(f);
      var k :| 0 <= k < |fields| && fields[k] == f;
      assert f in props;
    }
  }

  /** Filtering by the collected tests is searching. */
  lemma FilterBySearchPredicates<T>(query: seq<T>, search: string, fields: seq<Field<T>>, exprs: seq<T -> string>)
    requires exprs == StringGetters(SearchableProps(fields)) && |exprs| > 0
    ensures Where(query, (x: T) => OrAll(exprs, x, search)) == Search(query, search, fields)
  {
    SearchPredicatesExist(fields);
    forall i | 0 <= i < |query|
      ensures OrAll(exprs, query[i], search) == Matches(fields, search, query[i])
    {
      SearchPredicateIff(fields, query[i], search);
    }
    WhereCongruent(query, (x: T) => OrAll(exprs, x, search), (x: T) => Matches(fields, search, x));
  }

  lemma StringGettersPrefix<T>(props: seq<Field<T>>, i: nat)
    requires i < |props|
    ensures StringGetters(props[..i + 1])
      == StringGetters(props[..i]) + if IsString(props[i]) then [props[i].accessor.get] else []
  {
    assert props[..i + 1][..i] == props[..i];
  }

  /** ApplySearch: filters the query by the OR of `Contains(search)` over the
      `[Searchable]` string properties, building the list of tests one
      property at a time. */
  method ApplySearch<T>(query: seq<T>, search: string, fields: seq<Field<T>>) returns (r: seq<T>)
    ensures r == Search(query, search, fields)
  {
    var searchableProps := SearchableProps(fields);
    SearchPredicatesExist(fields);
    if |searchableProps| == 0 {
      return query;
    }
    var searchExpressions: seq<T -> string> := [];
    for i := 0 to |searchableProps|
      invariant searchExpressions == StringGetters(searchableProps[..i])
    {
      var prop := searchableProps[i];
      StringGettersPrefix(searchableProps, i);
      if !IsString(prop) {
        continue;
      }
      searchExpressions := searchExpressions + [prop.accessor.get];
    }
    assert searchableProps[..|searchableProps|] == searchableProps;
    if |searchExpressions| == 0 {
      return query;
    }
    var exprs := searchExpressions;
    r := Where(query, (x: T) => OrAll(exprs, x, search));
    FilterBySearchPredicates(query, search, fields, exprs);
  }

  /** With no `[Searchable]` string property, search leaves the query as it is. */
  lemma SearchWithoutSearchableFields<T>(query: seq<T>, search: string, fields: seq<Field<T>>)
    requires forall f :: f in fields ==> !SearchesOn(f)
    ensures Search(query, search, fields) == query
  {
  }

  /** With something to search on, a record of the query is kept exactly when
      it matches, and nothing else is returned. */
  lemma SearchKeepsExactlyMatches<T>(query: seq<T>, search: string, fields: seq<Field<T>>)
    requires HasSearchableString(fields)
    ensures forall i :: 0 <= i < |query| ==> (query[i] in Search(query, search, fields) <==> Matches(fields, search, query[i]))
    ensures forall x :: x in Search(query, search, fields) ==> x in query && Matches(fields, search, x)
  {
    var r := Search(query, search, fields);
    forall x | x in r ensures x in query && Matches(fields, search, x) {
      var k :| 0 <= k < |r| && r[k] == x;
    }
  }

  /** Search keeps the records it keeps in their stored order. */
  lemma SearchIsSubsequence<T>(query: seq<T>, search: string, fields: seq<Field<T>>)
    ensures IsSubsequence(Search(query, search, fields), query)
  {
    if HasSearchableString(fields) {
      WhereIsSubsequence(query, (x: T) => Matches(fields, search, x));
    } else {
      SubsequenceOfSelf(query);
    }
  }

  /** `x => -rank(x)`: sorting by it is sorting by `rank` descending. */
  function Negated<T>(rank: T -> int): T -> int {
    (x: T) => -rank(x)
  }

  /** ApplyOrdering: `"asc"` sorts by key ascending, `"desc"` descending,
      and any other value leaves the order as it was. */
  function ApplyOrdering<T>(query: seq<T>, orderBy: string, rank: T -> int): (r: seq<T>)
    ensures multiset(r) == multiset(query)
    ensures orderBy == "asc" ==> forall i, j :: 0 <= i < j < |r| ==> rank(r[i]) <= rank(r[j])
    ensures orderBy == "desc" ==> forall i, j :: 0 <= i < j < |r| ==> rank(r[i]) >= rank(r[j])
    ensures orderBy != "asc" && orderBy != "desc" ==> r == query
  {
    if orderBy == "asc" then SortBy(query, rank)
    else if orderBy == "desc" then
      var r := SortBy(query, Negated(rank));
      assert forall i, j :: 0 <= i < j < |r| ==> Negated(rank)(r[i]) <= Negated(rank)(r[j]);
      r
    else query
  }

  /** The number of records page `page` skips: `(page - 1) * pageSize` in
      unchecked 32-bit arithmetic. */
  function SkipCount(page: Int32, pageSize: Int32): (r: Int32)
    ensures page == 1 || pageSize == 0 ==> r == 0
    ensures pageSize == 1 && page > -0x8000_0000 ==> r == page - 1
  {
    Mul(Sub(page, 1), pageSize)
  }

  /** Without overflow the skip count is the exact `(page - 1) * pageSize`. */
  lemma SkipCountExact(page: Int32, pageSize: Int32)
    requires page > -0x8000_0000 && InRange((page - 1) * pageSize)
    ensures SkipCount(page, pageSize) == (page - 1) * pageSize
  {
  }

  function Max(a: int, b: int): int {
    if a <= b then b else a
  }

  /** Where the page starts: the skip count, clamped to the query. */
  function PageStart<T>(query: seq<T>, page: Int32, pageSize: Int32): (lo: nat)
    ensures lo <= |query|
    ensures SkipCount(page, pageSize) <= 0 ==> lo == 0
    ensures 0 <= SkipCount(page, pageSize) <= |query| ==> lo == SkipCount(page, pageSize)
    ensures SkipCount(page, pageSize) >= |query| ==> lo == |query|
  {
    Min(Max(SkipCount(page, pageSize), 0), |query|)
  }

  /** ApplyPagination: the window of at most `pageSize` consecutive records
      that starts where the page starts. */
  function ApplyPagination<T>(query: seq<T>, page: Int32, pageSize: Int32): (r: seq<T>)
    ensures |r| == Min(Max(pageSize, 0), |query| - PageStart(query, page, pageSize))
    ensures r == query[PageStart(query, page, pageSize)..PageStart(query, page, pageSize) + |r|]
  {
    var skipped := Skip(query, SkipCount(page, pageSize));
    assert skipped == query[PageStart(query, page, pageSize)..];
    Take(skipped, pageSize)
  }

  /** A page holds records of the query only. */
  lemma PaginationElements<T>(query: seq<T>, page: Int32, pageSize: Int32)
    ensures forall i :: 0 <= i < |ApplyPagination(query, page, pageSize)| ==> ApplyPagination(query, page, pageSize)[i] in query
  {
    var r, lo := ApplyPagination(query, page, pageSize), PageStart(query, page, pageSize);
    forall i | 0 <= i < |r| ensures r[i] in query {
      assert r[i] == query[lo + i];
    }
  }

  function Min(a: int, b: int): int {
    if a <= b then a else b
  }

  /** For a page of at least one and a page size that is not negative, and
      no 32-bit overflow in the skip count `lo = (page - 1) * pageSize`, the
      page is the records at positions `lo` up to `lo + pageSize`, cut at the
      end of the query. */
  lemma PaginationWindow<T>(query: seq<T>, page: Int32, pageSize: Int32, lo: int)
    requires page >= 1 && pageSize >= 0
    requires lo == (page - 1) * pageSize && 0 <= lo && InRange(lo)
    ensures ApplyPagination(query, page, pageSize) == query[Min(lo, |query|)..Min(lo + pageSize, |query|)]
  {
    assert Sub(page, 1) == page - 1;
    assert SkipCount(page, pageSize) == lo;
  }

  /** The skip count is taken modulo 2^32: page 2^30 + 1 with page size 4
      skips nothing and returns the first four records. */
  lemma PaginationSkipWrapsAround<T>(query: seq<T>)
    ensures ApplyPagination(query, 0x4000_0001, 4) == Take(query, 4)
  {
    assert SkipCount(0x4000_0001, 4) == 0;
  }

  /** The whole query pipeline: search unless the search text is missing or
      blank, order, paginate, and wrap the page in its envelope. The count is
      taken from the paginated query, so it is the page's length. */
  ghost function QueryPage<T>(rows: seq<T>, fields: seq<Field<T>>, rank: T -> int,
                              search: Option<string>, orderBy: string, page: Int32, pageSize: Int32): (r: PagedResult<T>)
    ensures r.page == page && r.pageSize == pageSize
    ensures r.totalCount == |r.data| <= Max(pageSize, 0)
  {
    var paged := ApplyPagination(Ordered(rows, fields, rank, search, orderBy), page, pageSize);
    PagedResult(paged, |paged|, page, pageSize)
  }

  /** The records a query pages through: the stored ones, searched unless the
      search text is missing or blank, then ordered. */
  ghost function Ordered<T>(rows: seq<T>, fields: seq<Field<T>>, rank: T -> int,
                            search: Option<string>, orderBy: string): seq<T>
  {
    ApplyOrdering(if IsNullOrWhiteSpace(search) then rows else Search(rows, search.value, fields), orderBy, rank)
  }

  /** The envelope echoes the page and page size, counts exactly the records
      it carries, never more than the page size, and carries only stored
      records; hence a positive page size gives at most one page. */
  lemma QueryEnvelope<T>(rows: seq<T>, fields: seq<Field<T>>, rank: T -> int,
                         search: Option<string>, orderBy: string, page: Int32, pageSize: Int32)
    ensures var r := QueryPage(rows, fields, rank, search, orderBy, page, pageSize);
      && r.page == page && r.pageSize == pageSize
      && r.totalCount == |r.data|
      && |r.data| <= Max(pageSize, 0)
      && (forall i :: 0 <= i < |r.data| ==> r.data[i] in rows)
      && (pageSize > 0 ==> 0 <= r.TotalPages() <= 1)
  {
    var r := QueryPage(rows, fields, rank, search, orderBy, page, pageSize);
    var filtered := if IsNullOrWhiteSpace(search) then rows else Search(rows, search.value, fields);
    var ordered := ApplyOrdering(filtered, orderBy, rank);
    assert r.data == ApplyPagination(ordered, page, pageSize);
    PaginationElements(ordered, page, pageSize);
    forall i | 0 <= i < |r.data| ensures r.data[i] in rows {
      assert r.data[i] in multiset(ordered);
    }
    if pageSize > 0 {
      TotalPagesOfOnePage(r);
    }
  }

  /** A non-blank search over some searchable string property returns only
      records that match it. */
  lemma QuerySearchSound<T>(rows: seq<T>, fields: seq<Field<T>>, rank: T -> int,
                            search: Option<string>, orderBy: string, page: Int32, pageSize: Int32)
    requires !IsNullOrWhiteSpace(search) && HasSearchableString(fields)
    ensures var r := QueryPage(rows, fields, rank, search, orderBy, page, pageSize);
      forall i :: 0 <= i < |r.data| ==> Matches(fields, search.value, r.data[i])
  {
    var r := QueryPage(rows, fields, rank, search, orderBy, page, pageSize);
    var filtered := Search(rows, search.value, fields);
    var ordered := ApplyOrdering(filtered, orderBy, rank);
    assert r.data == ApplyPagination(ordered, page, pageSize);
    SearchKeepsExactlyMatches(rows, search.value, fields);
    PaginationElements(ordered, page, pageSize);
    forall i | 0 <= i < |r.data| ensures Matches(fields, search.value, r.data[i]) {
      assert r.data[i] in multiset(ordered);
    }
  }

  /** `"asc"` pages are in non-decreasing and `"desc"` pages in
      non-increasing key order. */
  lemma QueryOrdered<T>(rows: seq<T>, fields: seq<Field<T>>, rank: T -> int,
                        search: Option<string>, orderBy: string, page: Int32, pageSize: Int32)
    ensures var r := QueryPage(rows, fields, rank, search, orderBy, page, pageSize);
      && (orderBy == "asc" ==> forall i, j :: 0 <= i < j < |r.data| ==> rank(r.data[i]) <= rank(r.data[j]))
      && (orderBy == "desc" ==> forall i, j :: 0 <= i < j < |r.data| ==> rank(r.data[i]) >= rank(r.data[j]))
  {
    var r := QueryPage(rows, fields, rank, search, orderBy, page, pageSize);
    var ordered := Ordered(rows, fields, rank, search, orderBy);
    var lo := PageStart(ordered, page, pageSize);
    assert r.data == ApplyPagination(ordered, page, pageSize);
    assert forall i :: 0 <= i < |r.data| ==> r.data[i] == ordered[lo + i];
  }

  /** Without a search text, an unrecognised `orderBy` pages through the
      records in their stored order. */
  lemma QueryUnrecognisedOrderKeepsStoredOrder<T>(rows: seq<T>, fields: seq<Field<T>>, rank: T -> int,
                                                  orderBy: string, page: Int32, pageSize: Int32, lo: int)
    requires orderBy != "asc" && orderBy != "desc"
    requires page >= 1 && pageSize >= 0 && lo == (page - 1) * pageSize && 0 <= lo && InRange(lo)
    ensures QueryPage(rows, fields, rank, None, orderBy, page, pageSize).data
      == rows[Min(lo, |rows|)..Min(lo + pageSize, |rows|)]
  {
    PaginationWindow(rows, page, pageSize, lo);
  }
}
