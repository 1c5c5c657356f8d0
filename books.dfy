/** The one entity of the application: `Book`, an `[ApiEntity]` keyed by a
    `Guid`, whose `Title` and `Author` are `[Searchable]`. */
module Books {
  import opened Options
  import opened Int32Arith
  import opened Text
  import opened Linq
  import opened PagedResults
  import opened QueryEngine
  import opened Storage
  import opened RouteBinder
  import opened Handlers

  /** `System.Guid` as the database stores it: 128 bits, ordered as the
      unsigned number they spell. */
  newtype Guid = x: int | 0 <= x < 0x1_0000_0000_0000_0000_0000_0000_0000_0000

  /** `System.DateTime` as its tick count; no handler looks inside it. */
  datatype DateTime = DateTime(ticks: int)

  datatype Book = Book(
    id: Guid,
    title: string,
    description: string,
    author: string,
    publisher: string,
    publishedDate: DateTime)

  /** Book's public properties, in declaration order. */
  const BookFields: seq<Field<Book>> := [
    Field("Id", OtherProperty, false),
    Field("Title", StringProperty((b: Book) => b.title), true),
    Field("Description", StringProperty((b: Book) => b.description), false),
    Field("Author", StringProperty((b: Book) => b.author), true),
    Field("Publisher", StringProperty((b: Book) => b.publisher), false),
    Field("PublishedDate", OtherProperty, false)]

  /** `Book` as reflection sees it: marked `[ApiEntity]`, implementing
      `IEntity<Guid>`. */
  const BookType: EntityType := EntityType("Book", true, [InterfaceRef(EntityInterface, [TypeRef("System.Guid")])])

  /** Book does not override `ToString()`, so a record prints as its type's
      full name. */
  const BookTypeName: string := "MiniApiGen.Entities.Book"

  const BookBinding: Binding<Book, Guid> :=
    Binding("book", (b: Book) => BookTypeName, (b: Book) => b.id, (g: Guid) => g as int, BookFields)

  /** Book's routes are under `/book`, and its key type is `Guid`. */
  lemma BookRoutePrefix()
    ensures RoutePrefix(BookType) == BookBinding.route == "book"
    ensures GetIdType(BookType.interfaces) == Some(TypeRef("System.Guid"))
  {
  }

  /** Book's seven paths. */
  lemma BookPaths()
    ensures PathOf("book", Create) == "/book/create"
    ensures PathOf("book", GetAll) == "/book/get-all"
    ensures PathOf("book", GetById) == "/book/get/{id}"
    ensures PathOf("book", Update) == "/book/update"
    ensures PathOf("book", DeleteById) == "/book/delete/{id}"
    ensures PathOf("book", DeleteByBody) == "/book/delete"
    ensures PathOf("book", Query) == "/book/query"
  {
  }

  /** In an application whose only `[ApiEntity]` type is Book, registering
      the types gives Book an endpoint for every operation, under `/book`,
      and nothing else. */
  lemma BookRoutes(types: seq<EntityType>)
    requires BookType in types
    requires forall t :: t in types && t.isApiEntity ==> t == BookType
    ensures forall op :: (MethodOf(op), PathOf("book", op)) in Routes(types)
    ensures forall m, p :: (m, p) in Routes(types) ==> exists op :: m == MethodOf(op) && p == PathOf("book", op)
  {
    forall op ensures (MethodOf(op), PathOf("book", op)) in Routes(types) {
      BookRouteRegistered(types, op);
    }
    forall m, p | (m, p) in Routes(types) ensures exists op :: m == MethodOf(op) && p == PathOf("book", op) {
      BookRouteOnly(types, m, p);
    }
  }

  lemma BookRouteRegistered(types: seq<EntityType>, op: Operation)
    requires BookType in types
    ensures (MethodOf(op), PathOf("book", op)) in Routes(types)
  {
    BookRoutePrefix();
    RoutesComplete(types, BookType, op);
  }

  lemma BookRouteOnly(types: seq<EntityType>, m: HttpMethod, p: string)
    requires forall t :: t in types && t.isApiEntity ==> t == BookType
    requires (m, p) in Routes(types)
    ensures exists op :: m == MethodOf(op) && p == PathOf("book", op)
  {
    BookRoutePrefix();
    RoutesSound(types, m, p);
    var t, op :| t in types && Binds(t, op) && m == MethodOf(op) && p == PathOf(RoutePrefix(t), op);
    assert t == BookType;
  }

  /** Book has searchable string properties. */
  lemma BookHasSearchableString()
    ensures HasSearchableString(BookFields)
  {
    assert SearchesOn(BookFields[1]);
  }

  /** Title and Author are searched; nothing else is. */
  lemma BookMatchesIff(b: Book, search: string)
    ensures Matches(BookFields, search, b) <==> Contains(b.title, search) || Contains(b.author, search)
  {
    assert SearchesOn(BookFields[1]) && SearchesOn(BookFields[3]);
    if Matches(BookFields, search, b) {
      var f :| f in BookFields && SearchesOn(f) && Contains(f.accessor.get(b), search);
      assert f == BookFields[1] || f == BookFields[3];
    }
  }

  /** Id, Description, Publisher and PublishedDate never decide whether a
      book matches. */
  lemma BookMatchIgnoresOtherFields(b: Book, search: string, id: Guid, description: string, publisher: string, published: DateTime)
    ensures Matches(BookFields, search, b)
      == Matches(BookFields, search, b.(id := id, description := description, publisher := publisher, publishedDate := published))
  {
    BookMatchesIff(b, search);
    BookMatchesIff(b.(id := id, description := description, publisher := publisher, publishedDate := published), search);
  }

  /** A non-blank search keeps exactly the books whose title or author
      contains the text: description and publisher are ignored. */
  lemma BookSearch(rows: seq<Book>, search: string)
    ensures forall i :: 0 <= i < |rows| ==>
      (rows[i] in Search(rows, search, BookFields) <==> Contains(rows[i].title, search) || Contains(rows[i].author, search))
  {
    BookHasSearchableString();
    SearchKeepsExactlyMatches(rows, search, BookFields);
    forall i | 0 <= i < |rows| {
      BookMatchesIff(rows[i], search);
    }
  }

  lemma DuneMatches(dune: Book)
    requires dune.title == "Dune"
    ensures Matches(BookFields, "Dune", dune)
  {
    BookMatchesIff(dune, "Dune");
    assert IsPrefix("Dune", dune.title);
  }

  lemma HobbitDoesNotMatch(hobbit: Book)
    requires hobbit.title == "The Hobbit" && hobbit.author == "J.R.R. Tolkien"
    ensures !Matches(BookFields, "Dune", hobbit)
  {
    BookMatchesIff(hobbit, "Dune");
    NoDuneIn("The Hobbit");
    NoDuneIn("J.R.R. Tolkien");
  }

  /** Neither text holds a `D`, so neither contains "Dune". */
  lemma NoDuneIn(s: string)
    requires s == "The Hobbit" || s == "J.R.R. Tolkien"
    ensures !Contains(s, "Dune")
  {
    NotContainsWithoutFirstChar(s, "Dune");
  }

  /** The search for "Dune" among Dune and The Hobbit keeps Dune alone. */
  lemma DuneSearch(dune: Book, hobbit: Book)
    requires dune.title == "Dune"
    requires hobbit.title == "The Hobbit" && hobbit.author == "J.R.R. Tolkien"
    ensures Search([dune, hobbit], "Dune", BookFields) == [dune]
  {
    BookHasSearchableString();
    DuneMatches(dune);
    HobbitDoesNotMatch(hobbit);
    var p := (x: Book) => Matches(BookFields, "Dune", x);
    assert Where([hobbit], p) == [] by {
      assert [hobbit][1..] == [];
    }
    assert [dune, hobbit][1..] == [hobbit];
  }

  /** Ordering one record leaves it alone. */
  lemma OrderingOne<T>(x: T, orderBy: string, rank: T -> int)
    ensures ApplyOrdering([x], orderBy, rank) == [x]
  {
    var ordered := ApplyOrdering([x], orderBy, rank);
    assert |ordered| == |multiset(ordered)| == 1;
    assert ordered[0] in multiset([x]);
  }

  /** The first page of twenty holds one lone record. */
  lemma FirstPageOfOne<T>(x: T)
    ensures ApplyPagination([x], 1, 20) == [x]
  {
    assert SkipCount(1, 20) == 0;
  }

  /** Searching "Dune" among Dune and The Hobbit answers Dune alone. */
  lemma DuneScenario(dune: Book, hobbit: Book)
    requires dune.title == "Dune"
    requires hobbit.title == "The Hobbit" && hobbit.author == "J.R.R. Tolkien"
    ensures var r := QueryPage([dune, hobbit], BookFields, KeyRank(BookBinding), Some("Dune"), "asc", 1, 20);
      r.data == [dune] && r.totalCount == 1 && r.TotalPages() == 1
  {
    DuneSearch(dune, hobbit);
    assert !IsNullOrWhiteSpace(Some("Dune")) by {
      assert !IsWhite("Dune"[0]);
    }
    OrderingOne(dune, "asc", KeyRank(BookBinding));
    assert Ordered([dune, hobbit], BookFields, KeyRank(BookBinding), Some("Dune"), "asc") == [dune];
    FirstPageOfOne(dune);
  }

  /** Page 2 of size 10 over 25 books holds the 11th to 20th in key order,
      and the envelope counts the page: 10 records, one page. */
  lemma PageTwoOfTwentyFive(rows: seq<Book>)
    requires |rows| == 25
    ensures var r := QueryPage(rows, BookFields, KeyRank(BookBinding), None, "asc", 2, 10);
      && r.data == SortBy(rows, KeyRank(BookBinding))[10..20]
      && r.totalCount == 10 && r.TotalPages() == 1
  {
    SecondPageAscending(rows, BookFields, KeyRank(BookBinding));
    TenRecordsFillOnePage(QueryPage(rows, BookFields, KeyRank(BookBinding), None, "asc", 2, 10));
  }

  /** Without a search, page 2 of size 10 over 25 records in ascending order
      is the 11th to the 20th of the sorted records. */
  lemma SecondPageAscending<T>(rows: seq<T>, fields: seq<Field<T>>, rank: T -> int)
    requires |rows| == 25
    ensures var r := QueryPage(rows, fields, rank, None, "asc", 2, 10);
      r.data == SortBy(rows, rank)[10..20] && r.totalCount == 10 && r.pageSize == 10
  {
    var sorted := SortBy(rows, rank);
    assert Ordered(rows, fields, rank, None, "asc") == sorted;
    SecondPageOfTen(sorted);
  }

  /** Page 2 of size 10 over 25 records is the 11th to the 20th. */
  lemma SecondPageOfTen<T>(q: seq<T>)
    requires |q| == 25
    ensures ApplyPagination(q, 2, 10) == q[10..20]
  {
    PaginationWindow(q, 2, 10, 10);
  }

  lemma TenRecordsFillOnePage<T>(r: PagedResult<T>)
    requires r.totalCount == 10 && r.pageSize == 10
    ensures r.TotalPages() == 1
  {
    CeilingUnique(10, 10, r.TotalPages(), 1);
  }

  /** Where a created book is said to be. */
  lemma BookLocation(b: Book)
    ensures CreatedLocation(BookBinding, b) == "/book/MiniApiGen.Entities.Book"
  {
    assert "/" + "book" + "/" == "/book/";
    assert CreatedLocation(BookBinding, b) == "/book/" + BookTypeName;
    BookLocationText();
  }

  lemma BookLocationText()
    ensures "/book/" + BookTypeName == "/book/MiniApiGen.Entities.Book"
  {
  }

  /** A created book is found by its key, and its location is its type's
      name under `/book`. */
  method CreateThenGetById(store: Store<Book, Guid>, b: Book) returns (created: Response<Book>, got: Response<Book>)
    requires store.Valid() && store.binding == BookBinding
    requires forall i :: 0 <= i < |store.rows| ==> store.rows[i].id != b.id
    modifies store
    ensures created == Created("/book/MiniApiGen.Entities.Book", b)
    ensures got == Ok(One(b))
    ensures store.Valid() && store.rows == old(store.rows) + [b]
  {
    created := store.HandleCreate(b);
    BookLocation(b);
    got := store.HandleGetById(b.id);
  }

  /** A deleted book is no longer found, and no other book is lost. */
  method DeleteThenGetById(store: Store<Book, Guid>, id: Guid) returns (deleted: Response<Book>, got: Response<Book>)
    requires store.Valid() && store.binding == BookBinding
    modifies store
    ensures got == NotFound
    ensures deleted == Ok(NoBody) <==> exists i :: 0 <= i < |old(store.rows)| && old(store.rows)[i].id == id
    ensures forall k :: k != id ==> Find(store.rows, BookBinding.key, k) == Find(old(store.rows), BookBinding.key, k)
  {
    deleted := store.HandleDeleteById(id);
    got := store.HandleGetById(id);
  }
}
