/** The book service (src/modules/catalog/book.service.ts): a keyed table of
    book records with lookup, create, partial update, removal and the listing
    of one category's books. A record is its id and a map from attribute name
    to value; a patch is the set of own keys of the request body. */
module Books {
  import opened Wrappers
  import opened Pagination
  import opened Seqs
  import opened Decimal
  import opened Http

  /** A JavaScript value as a request body or a model instance can hold it. */
  datatype JsValue = Undefined | Null | Bool(b: bool) | Num(n: int) | Str(s: string)

  /** The `typeof` operator. */
  function TypeOf(v: JsValue): string {
    match v
    case Undefined => "undefined"
    case Null => "object"
    case Bool(_) => "boolean"
    case Num(_) => "number"
    case Str(_) => "string"
  }

  /** The `!==` operator on the values modelled here. */
  predicate StrictNotEqual(a: JsValue, b: JsValue) { a != b }

  /** The merge loop's guard compares the type NAME with the value undefined,
      so it holds of every value, undefined included. */
  lemma GuardNeverFilters(v: JsValue)
    ensures StrictNotEqual(Str(TypeOf(v)), Undefined)
  {
  }

  datatype Book = Book(id: nat, attrs: map<string, JsValue>)

  type Patch = map<string, JsValue>

  datatype Error = NotFound | ValidationFailed

  /** The message each error carries (boom's notFound and badData). */
  function Message(e: Error): (m: string)
    ensures m == "Book not found." <==> e == NotFound
    ensures m == "Validation failed." <==> e == ValidationFailed
  {
    match e
    case NotFound => "Book not found."
    case ValidationFailed => ValidationFailedMessage
  }

  function Status(e: Error): (s: nat)
    ensures s == NotFoundStatus <==> e == NotFound
    ensures s == UnprocessableStatus <==> e == ValidationFailed
  {
    match e
    case NotFound => NotFoundStatus
    case ValidationFailed => UnprocessableStatus
  }

  // ---- queries over the table ----

  predicate HasId(rows: seq<Book>, id: nat) {
    exists b :: b in rows && b.id == id
  }

  function IndexOf(rows: seq<Book>, id: nat): (r: Option<nat>)
    ensures r.Some? <==> HasId(rows, id)
    ensures r.Some? ==> r.value < |rows| && rows[r.value].id == id
  {
    LastIndexWhere(rows, (b: Book) => b.id == id)
  }

  /** The `where: { categoryId }` filter: the column is compared with the
      route parameter, a string; a number stored in the column matches the
      decimal text of that number, minus sign included, as the database's
      comparison casts the text to a number. */
  predicate InCategory(b: Book, categoryId: string)
    ensures InCategory(b, categoryId) ==> "categoryId" in b.attrs
    ensures InCategory(b, categoryId) ==> b.attrs["categoryId"].Str? || b.attrs["categoryId"].Num?
    ensures "categoryId" in b.attrs && b.attrs["categoryId"] == Str(categoryId) ==> InCategory(b, categoryId)
    ensures "categoryId" in b.attrs && b.attrs["categoryId"].Str? && InCategory(b, categoryId) ==>
              b.attrs["categoryId"] == Str(categoryId)
  {
    "categoryId" in b.attrs &&
    match b.attrs["categoryId"]
    case Str(s) => s == categoryId
    case Num(n) => ParseInt(categoryId) == Some(n)
    case _ => false
  }

  /** A book whose categoryId was stored as a number is listed under that
      number's decimal text. */
  lemma NumericCategoryMatches(b: Book, n: int)
    requires "categoryId" in b.attrs && b.attrs["categoryId"] == Num(n)
    ensures InCategory(b, IntToString(n))
  {
    ParseIntToString(n);
  }

  /** A negative number is listed under its text with the minus sign. */
  lemma NegativeCategoryMatches()
    ensures InCategory(Book(1, map["categoryId" := Num(-5)]), "-5")
  {
    NumericCategoryMatches(Book(1, map["categoryId" := Num(-5)]), -5);
    assert IntToString(-5) == "-" + NatToString(5) == "-5";
  }

  /** A book created with a numeric categoryId is listed under the route
      parameter that spells that number. */
  lemma NumericCategoryListed()
    ensures ByCategory([Book(1, map["categoryId" := Num(5)])], "5") == [Book(1, map["categoryId" := Num(5)])]
  {
    var b := Book(1, map["categoryId" := Num(5)]);
    NumericCategoryMatches(b, 5);
    assert IntToString(5) == NatToString(5) == "5";
    assert [b][..0] == [];
  }

  /** The books of one category, in table order. */
  function ByCategory(rows: seq<Book>, categoryId: string): (r: seq<Book>)
    ensures forall b :: b in r <==> b in rows && InCategory(b, categoryId)
    ensures |r| <= |rows|
  {
    Filter(rows, ListedUnder(categoryId))
  }

  /** The test a book listed under `categoryId` passes. */
  function ListedUnder(categoryId: string): Book -> bool {
    (b: Book) => InCategory(b, categoryId)
  }

  /** In a table without repeated ids, the listing has one entry per book of
      the category: its length is the number of such books. */
  lemma ByCategoryCount(rows: seq<Book>, categoryId: string)
    requires forall i, j :: 0 <= i < j < |rows| ==> rows[i].id != rows[j].id
    ensures |ByCategory(rows, categoryId)| == |set b | b in rows && InCategory(b, categoryId)|
  {
    FilterCount(rows, ListedUnder(categoryId));
    assert Satisfying(rows, ListedUnder(categoryId)) == set b | b in rows && InCategory(b, categoryId);
  }

  /** The `for...in` loop of `edit`: every own key of the patch is set on the
      record, whatever its value; keys absent from the patch keep their values. */
  method ApplyPatch(book: Book, patch: Patch) returns (edited: Book)
    ensures edited.id == book.id
    ensures edited.attrs.Keys == book.attrs.Keys + patch.Keys
    ensures forall key :: key in patch ==> edited.attrs[key] == patch[key]
    ensures forall key :: key in book.attrs && key !in patch ==> edited.attrs[key] == book.attrs[key]
    ensures edited == Book(book.id, book.attrs + patch)
  {
    edited := book;
    var pending := patch.Keys;
    while pending != {}
      invariant pending <= patch.Keys
      invariant edited.id == book.id
      invariant edited.attrs.Keys == book.attrs.Keys + (patch.Keys - pending)
      invariant forall key :: key in patch && key !in pending ==> edited.attrs[key] == patch[key]
      invariant forall key :: key in book.attrs && (key !in patch || key in pending) ==>
                  edited.attrs[key] == book.attrs[key]
      decreases pending
    {
      var key :| key in pending;
      if StrictNotEqual(Str(TypeOf(patch[key])), Undefined) {
        edited := edited.(attrs := edited.attrs[key := patch[key]]);
      }
      pending := pending - {key};
    }
    PatchedIsOverride(book, patch, edited);
  }

  /** The merge is map override: the patch wins on its keys. */
  lemma PatchedIsOverride(book: Book, patch: Patch, edited: Book)
    requires edited.id == book.id
    requires edited.attrs.Keys == book.attrs.Keys + patch.Keys
    requires forall key :: key in patch ==> edited.attrs[key] == patch[key]
    requires forall key :: key in book.attrs && key !in patch ==> edited.attrs[key] == book.attrs[key]
    ensures edited == Book(book.id, book.attrs + patch)
  {
  }

  /** In a table with distinct ids, a row with the id found at index k is that row. */
  lemma SameIdSameRow(rows: seq<Book>, b: Book, k: nat)
    requires forall i, j :: 0 <= i < j < |rows| ==> rows[i].id != rows[j].id
    requires b in rows && k < |rows| && rows[k].id == b.id
    ensures b == rows[k]
  {
    var i :| 0 <= i < |rows| && rows[i] == b;
    assert i == k;
  }

  /** The primary key a create body supplies under `id`: a natural number, or
      the decimal text of one. Any other value, or no `id`, leaves the key to
      the table's sequence. */
  function SuppliedId(data: map<string, JsValue>): (r: Option<nat>)
    ensures r.Some? ==> "id" in data
    ensures "id" in data && data["id"].Num? && data["id"].n >= 0 ==> r == Some(data["id"].n)
    ensures forall n: nat :: "id" in data && data["id"] == Str(NatToString(n)) ==> r == Some(n)
  {
    if "id" !in data then None
    else match data["id"]
      case Num(n) => if n >= 0 then Some(n) else None
      case Str(t) =>
        assert forall n: nat :: t == NatToString(n) ==> ParseNat(t) == n by {
          forall n: nat | t == NatToString(n) ensures ParseNat(t) == n { ParseNatToString(n); }
        }
        if |t| >= 1 && forall i :: 0 <= i < |t| ==> IsDigit(t[i]) then Some(ParseNat(t)) else None
      case _ => None
  }

  // ---- the service ----

  class BookService {
    var rows: seq<Book>
    /** The table's id sequence: the key the next body without an `id` gets.
        As with SQLite's AUTOINCREMENT key, it stays above every key ever
        stored, a supplied one included, and never moves back. */
    var nextId: nat
    /** Whether Model.validate and the table's constraints accept a record. */
    const accepts: map<string, JsValue> -> bool
    /** Whether the database lets a row be destroyed. */
    const canDestroy: Book -> bool

    ghost predicate Valid()
      reads this
    {
      && (forall i, j :: 0 <= i < j < |rows| ==> rows[i].id != rows[j].id)
      && (forall b :: b in rows ==> b.id < nextId)
      && (forall b :: b in rows ==> accepts(b.attrs))
    }

    constructor(accepts: map<string, JsValue> -> bool, canDestroy: Book -> bool)
      ensures Valid() && rows == [] && nextId == 1 && this.accepts == accepts && this.canDestroy == canDestroy
    {
      rows := [];
      nextId := 1;
      this.accepts := accepts;
      this.canDestroy := canDestroy;
    }

    /** The stored record with this id, or not-found. */
    method GetById(id: nat) returns (r: Result<Book, Error>)
      ensures r.Ok? <==> HasId(rows, id)
      ensures r.Ok? ==> r.value in rows && r.value.id == id
      ensures r.Err? ==> r.error == NotFound && Message(r.error) == "Book not found."
    {
      var found := IndexOf(rows, id);
      if found.None? {
        return Err(NotFound);
      }
      r := Ok(rows[found.value]);
    }

    /** Builds, validates and saves a new record under the key the body
        supplies, or else the sequence's next key; a rejected record or a
        taken key is "Validation failed." and leaves the table and the
        sequence as they were. The saved record is read back by its key. */
    method Create(data: map<string, JsValue>) returns (r: Result<Book, Error>)
      requires Valid()
      modifies this
      ensures Valid()
      ensures !accepts(data) ==> r == Err(ValidationFailed) && rows == old(rows) && nextId == old(nextId)
      ensures accepts(data) ==>
                var id := if SuppliedId(data).Some? then SuppliedId(data).value else old(nextId);
                if HasId(old(rows), id) then r == Err(ValidationFailed) && rows == old(rows) && nextId == old(nextId)
                else r == Ok(Book(id, data)) && rows == old(rows) + [r.value]
                     && nextId == if id < old(nextId) then old(nextId) else id + 1
      ensures accepts(data) && SuppliedId(data).None? ==> r == Ok(Book(old(nextId), data))
      ensures r.Ok? ==> HasId(rows, r.value.id)
    {
      if !accepts(data) {
        return Err(ValidationFailed);
      }
      var id := if SuppliedId(data).Some? then SuppliedId(data).value else nextId;
      if IndexOf(rows, id).Some? {
        return Err(ValidationFailed);
      }
      var created := Book(id, data);
      rows := rows + [created];
      if nextId <= id {
        nextId := id + 1;
      }
      r := GetById(created.id);
      assert rows[|rows| - 1] in rows;
    }

    /** Looks the record up (not-found before any change), merges the patch
        into it and saves it; a rejected save leaves the table as it was. */
    method Edit(id: nat, patch: Patch) returns (r: Result<Book, Error>)
      requires Valid()
      modifies this
      ensures Valid() && nextId == old(nextId)
      ensures !HasId(old(rows), id) ==> r == Err(NotFound) && rows == old(rows)
      ensures HasId(old(rows), id) ==>
                var k := IndexOf(old(rows), id).value;
                var edited := Book(id, old(rows)[k].attrs + patch);
                if accepts(edited.attrs) then r == Ok(edited) && rows == old(rows)[k := edited]
                else r == Err(ValidationFailed) && rows == old(rows)
    {
      var found := GetById(id);
      if found.Err? {
        return Err(found.error);
      }
      var k := IndexOf(rows, id).value;
      SameIdSameRow(rows, found.value, k);
      var edited := ApplyPatch(found.value, patch);
      assert edited == Book(id, old(rows)[k].attrs + patch);
      if !accepts(edited.attrs) {
        return Err(ValidationFailed);
      }
      rows := rows[k := edited];
      assert rows[k] in rows && rows[k].id == id;
      forall b | b in rows && b.id == id ensures b == edited {
        var i :| 0 <= i < |rows| && rows[i] == b;
        assert i == k;
      }
      r := GetById(edited.id);
      assert r.value in rows && r.value.id == id;
    }

    /** Destroys the record and returns it; unknown ids are not-found and a
        refused destroy is "Validation failed.", both leaving the table as it was. */
    method Remove(id: nat) returns (r: Result<Book, Error>)
      requires Valid()
      modifies this
      ensures Valid() && nextId == old(nextId)
      ensures !HasId(old(rows), id) ==> r == Err(NotFound) && rows == old(rows)
      ensures HasId(old(rows), id) ==>
                var k := IndexOf(old(rows), id).value;
                if canDestroy(old(rows)[k]) then r == Ok(old(rows)[k]) && rows == RemoveAt(old(rows), k)
                else r == Err(ValidationFailed) && rows == old(rows)
      ensures r.Ok? ==> !HasId(rows, id)
    {
      var found := GetById(id);
      if found.Err? {
        return Err(found.error);
      }
      var k := IndexOf(rows, id).value;
      SameIdSameRow(rows, found.value, k);
      if !canDestroy(found.value) {
        return Err(ValidationFailed);
      }
      var bookToRemove := found.value;
      rows := RemoveAt(rows, k);
      r := Ok(bookToRemove);
      forall b | b in rows ensures b.id != id {
        var i :| 0 <= i < |rows| && rows[i] == b;
        if i < k { assert b == old(rows)[i]; } else { assert b == old(rows)[i + 1]; }
      }
    }

    /** One page of the whole table. */
    function GetAll(page: Option<Positive>, pageSize: Option<Positive>): (p: Page<Book>)
      reads this
      ensures forall j :: 0 <= j < |p.items| ==> p.items[j] in rows
      ensures p.total == |rows|
    {
      Paginate(rows, page, pageSize)
    }

    /** One page of the books whose categoryId is the given one. */
    function GetAllByCategoryId(categoryId: string, page: Option<Positive>, pageSize: Option<Positive>): (p: Page<Book>)
      reads this
      ensures forall j :: 0 <= j < |p.items| ==> p.items[j] in rows && InCategory(p.items[j], categoryId)
      ensures p.total == |ByCategory(rows, categoryId)|
      ensures Valid() ==> p.total == |set b | b in rows && InCategory(b, categoryId)|
    {
      assert Valid() ==> |ByCategory(rows, categoryId)| == |set b | b in rows && InCategory(b, categoryId)| by {
        if Valid() { ByCategoryCount(rows, categoryId); }
      }
      Paginate(ByCategory(rows, categoryId), page, pageSize)
    }
  }

  /** A body that supplies its key is stored, and found, under that key; a
      second body with the same key is refused, and the next body without
      a key gets the key after the supplied one. */
  method SuppliedKeyScenario()
  {
    var service := new BookService(d => true, b => true);
    var created := service.Create(map["id" := Num(7)]);
    assert created == Ok(Book(7, map["id" := Num(7)]));
    var found := service.GetById(7);
    assert found == Ok(Book(7, map["id" := Num(7)]));
    assert service.nextId == 8;
    var again := service.Create(map["id" := Str("7"), "title" := Str("Dune")]);
    assert SuppliedId(map["id" := Str("7"), "title" := Str("Dune")]) == Some(7);
    assert again == Err(ValidationFailed);
    assert service.nextId == 8;
    assert SuppliedId(map["title" := Str("Dune")]).None?;
    var next := service.Create(map["title" := Str("Dune")]);
    assert next == Ok(Book(8, map["title" := Str("Dune")]));
  }
}
