/** The category table behind the catalog's category routes: create with
    unique name and SEO URL, read one category with its parent and children,
    patch fields or the parent link, and list a page of the table. */
module Categories {
  import opened Wrappers
  import opened Access
  import opened Pagination
  import opened Http
  import opened Seqs

  datatype Category = Category(id: nat, name: string, seoUrl: Option<string>, parentId: Option<nat>)

  /** A create body: the id is assigned by the table. */
  datatype CategoryInput = CategoryInput(name: string, seoUrl: Option<string>, parentId: Option<nat>)

  /** A PATCH body: a field that is None is left alone; a given parentId may be
      null (Some(None)), which clears the parent. */
  datatype CategoryPatch = CategoryPatch(
    name: Option<string>,
    seoUrl: Option<Option<string>>,
    parentId: Option<Option<nat>>)

  /** The detailed view of one category. */
  datatype Detail = Detail(category: Category, children: seq<Category>, parent: Option<Category>)

  datatype Error = Denied(reason: Denial) | NotFound | ValidationFailed

  /** The status a refused request answers with. */
  function Status(e: Error): (s: nat)
    ensures e.Denied? ==> s == DenialStatus(e.reason)
    ensures s == NotFoundStatus <==> e == NotFound
    ensures s == UnprocessableStatus <==> e == ValidationFailed
  {
    match e
    case Denied(d) => DenialStatus(d)
    case NotFound => NotFoundStatus
    case ValidationFailed => UnprocessableStatus
  }

  /** The message of a rejected create or patch; the other errors carry no
      fixed text. */
  function Message(e: Error): (m: Option<string>)
    ensures m.Some? <==> e == ValidationFailed
    ensures m.Some? ==> m.value == "Validation failed."
  {
    if e == ValidationFailed then Some(ValidationFailedMessage) else None
  }

  // ---- queries over the table ----

  function IndexOf(rows: seq<Category>, id: nat): (r: Option<nat>)
    ensures r.Some? ==> r.value < |rows| && rows[r.value].id == id
    ensures r.None? ==> forall c :: c in rows ==> c.id != id
  {
    LastIndexWhere(rows, (c: Category) => c.id == id)
  }

  predicate HasId(rows: seq<Category>, id: nat) {
    exists c :: c in rows && c.id == id
  }

  /** The categories whose parent is `parentId`, in table order. */
  function Children(rows: seq<Category>, parentId: nat): (kids: seq<Category>)
    ensures forall c :: c in kids <==> c in rows && c.parentId == Some(parentId)
    ensures |kids| <= |rows|
  {
    Filter(rows, ChildOf(parentId))
  }

  /** The test a child of `parentId` passes. */
  function ChildOf(parentId: nat): Category -> bool {
    (c: Category) => c.parentId == Some(parentId)
  }

  /** In a table without repeated ids, each child is listed once: the list's
      length is the number of categories with that parent. */
  lemma ChildrenCount(rows: seq<Category>, parentId: nat)
    requires forall i, j :: 0 <= i < j < |rows| ==> rows[i].id != rows[j].id
    ensures |Children(rows, parentId)| == |set c | c in rows && c.parentId == Some(parentId)|
  {
    FilterCount(rows, ChildOf(parentId));
    assert Satisfying(rows, ChildOf(parentId)) == set c | c in rows && c.parentId == Some(parentId);
  }

  /** The detailed view of category `id` in `rows`, or not-found. */
  function DetailOf(rows: seq<Category>, id: nat): (r: Result<Detail, Error>)
    ensures r.Err? <==> !HasId(rows, id)
    ensures r.Err? ==> r.error == NotFound
    ensures r.Ok? ==> r.value.category in rows && r.value.category.id == id
    ensures r.Ok? ==> r.value.children == Children(rows, id)
    ensures r.Ok? ==> match r.value.category.parentId
                      case None => r.value.parent == None
                      case Some(p) => (r.value.parent.Some? <==> HasId(rows, p)) &&
                                      (r.value.parent.Some? ==> r.value.parent.value in rows && r.value.parent.value.id == p)
  {
    match IndexOf(rows, id)
    case None => Err(NotFound)
    case Some(i) =>
      var c := rows[i];
      var parent := match c.parentId
                    case None => None
                    case Some(p) => match IndexOf(rows, p)
                                    case None => None
                                    case Some(j) => Some(rows[j]);
      Ok(Detail(c, Children(rows, id), parent))
  }

  /** Does `c` share its name, or its SEO URL when it has one, with another row? */
  predicate Clashes(rows: seq<Category>, c: Category)
    ensures !Clashes(rows, c) <==>
              forall x :: x in rows && x.id != c.id ==> x.name != c.name && (c.seoUrl.None? || x.seoUrl != c.seoUrl)
  {
    exists x :: x in rows && x.id != c.id && (x.name == c.name || (c.seoUrl.Some? && x.seoUrl == c.seoUrl))
  }

  /** The table's constraints: unique ids, names and SEO URLs, and every parent
      link naming a row of the table. */
  ghost predicate WellFormed(rows: seq<Category>) {
    && (forall i, j :: 0 <= i < j < |rows| ==> rows[i].id != rows[j].id)
    && (forall i, j :: 0 <= i < j < |rows| ==> rows[i].name != rows[j].name)
    && (forall i, j :: 0 <= i < j < |rows| && rows[i].seoUrl.Some? ==> rows[i].seoUrl != rows[j].seoUrl)
    && (forall c :: c in rows && c.parentId.Some? ==> HasId(rows, c.parentId.value))
  }

  /** The patched row: a supplied field replaces the old one, including a null
      parent; absent fields and the id stay. */
  function ApplyPatch(c: Category, patch: CategoryPatch): (d: Category)
    ensures d.id == c.id
    ensures d.name == if patch.name.Some? then patch.name.value else c.name
    ensures d.seoUrl == if patch.seoUrl.Some? then patch.seoUrl.value else c.seoUrl
    ensures d.parentId == if patch.parentId.Some? then patch.parentId.value else c.parentId
  {
    Category(
      c.id,
      match patch.name case None => c.name case Some(n) => n,
      match patch.seoUrl case None => c.seoUrl case Some(u) => u,
      match patch.parentId case None => c.parentId case Some(p) => p)
  }

  lemma {:induction false} ClashFreeAppend(rows: seq<Category>, c: Category)
    requires WellFormed(rows) && !Clashes(rows, c)
    requires forall x :: x in rows ==> x.id < c.id
    requires c.parentId.Some? ==> HasId(rows, c.parentId.value)
    ensures WellFormed(rows + [c])
  {
    var s := rows + [c];
    forall x | x in s && x.parentId.Some? ensures HasId(s, x.parentId.value) {
      if x in rows {
        var y :| y in rows && y.id == x.parentId.value;
        assert y in s;
      } else {
        var y :| y in rows && y.id == c.parentId.value;
        assert y in s;
      }
    }
    forall i, j | 0 <= i < j < |s| ensures s[i].id != s[j].id && s[i].name != s[j].name {
      if j == |rows| { assert s[i] in rows; }
    }
    forall i, j | 0 <= i < j < |s| && s[i].seoUrl.Some? ensures s[i].seoUrl != s[j].seoUrl {
      if j == |rows| { assert s[i] in rows; }
    }
  }

  lemma {:induction false} ClashFreeReplace(rows: seq<Category>, k: nat, c: Category)
    requires WellFormed(rows) && k < |rows| && rows[k].id == c.id && !Clashes(rows, c)
    requires c.parentId.Some? ==> HasId(rows, c.parentId.value)
    ensures WellFormed(rows[k := c])
  {
    var s := rows[k := c];
    forall x | x in rows ensures HasId(s, x.id) {
      var i :| 0 <= i < |rows| && rows[i] == x;
      assert s[i].id == x.id;
    }
    forall x | x in s && x.parentId.Some? ensures HasId(s, x.parentId.value) {
      var i :| 0 <= i < |s| && s[i] == x;
      if i != k {
        var y :| y in rows && y.id == x.parentId.value;
      } else {
        var y :| y in rows && y.id == c.parentId.value;
      }
    }
    forall i, j | 0 <= i < j < |s| ensures s[i].id != s[j].id && s[i].name != s[j].name {
      if i == k { assert s[j] in rows; } else if j == k { assert s[i] in rows; }
    }
    forall i, j | 0 <= i < j < |s| && s[i].seoUrl.Some? ensures s[i].seoUrl != s[j].seoUrl {
      if i == k { assert s[j] in rows; } else if j == k { assert s[i] in rows; }
    }
  }

  lemma {:induction false} NoChildren(rows: seq<Category>, parentId: nat)
    requires forall x :: x in rows ==> x.parentId != Some(parentId)
    ensures Children(rows, parentId) == []
  {
    if rows != [] {
      NoChildren(rows[..|rows| - 1], parentId);
    }
  }

  /** A row whose id exceeds every id of a well-formed table has no children
      once appended, and appears among its parent's children. */
  lemma {:induction false} AppendedRowFamily(rows: seq<Category>, c: Category)
    requires WellFormed(rows) && forall x :: x in rows ==> x.id < c.id
    requires c.parentId.Some? ==> HasId(rows, c.parentId.value)
    ensures Children(rows + [c], c.id) == []
    ensures c.parentId.Some? ==> c in Children(rows + [c], c.parentId.value)
  {
    var s := rows + [c];
    assert forall x :: x in s ==> x.parentId != Some(c.id);
    NoChildren(s, c.id);
  }

  // ---- the service ----

  class CategoryService {
    var rows: seq<Category>
    var nextId: nat

    ghost predicate Valid()
      reads this
    {
      WellFormed(rows) && forall c :: c in rows ==> c.id < nextId
    }

    constructor()
      ensures Valid() && rows == []
    {
      rows := [];
      nextId := 1;
    }

    /** POST: administrators only; a name or SEO URL already in the table, or a
        parent that is not in it, fails validation. The new row goes last and
        has no children. */
    method Create(who: Identity, input: CategoryInput) returns (r: Result<Category, Error>)
      requires Valid()
      modifies this
      ensures Valid()
      ensures RequireAdmin(who).Some? ==> r == Err(Denied(RequireAdmin(who).value))
      ensures var c := Category(old(nextId), input.name, input.seoUrl, input.parentId);
              RequireAdmin(who).None? ==>
                if Clashes(old(rows), c) || (input.parentId.Some? && !HasId(old(rows), input.parentId.value))
                then r == Err(ValidationFailed)
                else r == Ok(c) && rows == old(rows) + [c]
      ensures r.Err? ==> rows == old(rows)
      ensures nextId == old(nextId) + (if r.Ok? then 1 else 0)
      ensures r.Ok? ==> Children(rows, r.value.id) == []
      ensures r.Ok? && input.parentId.Some? ==> r.value in Children(rows, input.parentId.value)
    {
      var denied := RequireAdmin(who);
      if denied.Some? {
        return Err(Denied(denied.value));
      }
      var c := Category(nextId, input.name, input.seoUrl, input.parentId);
      if Clashes(rows, c) || (input.parentId.Some? && !HasId(rows, input.parentId.value)) {
        return Err(ValidationFailed);
      }
      ClashFreeAppend(rows, c);
      AppendedRowFamily(rows, c);
      rows := rows + [c];
      nextId := nextId + 1;
      r := Ok(c);
    }

    /** GET by id: the category with its children and its parent, or not-found. */
    function Get(id: nat): (r: Result<Detail, Error>)
      reads this
      ensures r.Err? <==> !HasId(rows, id)
      ensures r.Err? ==> r.error == NotFound && Status(r.error) == 404
      ensures r.Ok? ==> r.value.category in rows && r.value.category.id == id
      ensures r.Ok? ==> r.value.children == Children(rows, id)
      ensures r.Ok? && Valid() ==> |r.value.children| == |set c | c in rows && c.parentId == Some(id)|
    {
      assert Valid() ==> |Children(rows, id)| == |set c | c in rows && c.parentId == Some(id)| by {
        if Valid() { ChildrenCount(rows, id); }
      }
      DetailOf(rows, id)
    }

    /** PATCH: administrators only; unknown ids are not-found; a patch that makes
        the name or SEO URL collide with another row, or names a parent not in
        the table, fails validation. Otherwise the row is replaced in place. */
    method Patch(who: Identity, id: nat, patch: CategoryPatch) returns (r: Result<Category, Error>)
      requires Valid()
      modifies this
      ensures Valid() && nextId == old(nextId)
      ensures RequireAdmin(who).Some? ==> r == Err(Denied(RequireAdmin(who).value))
      ensures RequireAdmin(who).None? && !HasId(old(rows), id) ==> r == Err(NotFound)
      ensures RequireAdmin(who).None? && HasId(old(rows), id) ==>
                var k := IndexOf(old(rows), id).value;
                var c := ApplyPatch(old(rows)[k], patch);
                if Clashes(old(rows), c) || (c.parentId.Some? && !HasId(old(rows), c.parentId.value))
                then r == Err(ValidationFailed)
                else r == Ok(c) && rows == old(rows)[k := c]
      ensures r.Err? ==> rows == old(rows)
      ensures r.Ok? ==> Get(id).Ok? && Get(id).value.category == r.value
      ensures r.Ok? && patch.parentId == Some(None) ==> Get(id).value.parent == None
      ensures r.Ok? && patch.parentId.Some? && patch.parentId.value.Some? ==>
                Get(id).value.parent.Some? && Get(id).value.parent.value.id == patch.parentId.value.value
    {
      var denied := RequireAdmin(who);
      if denied.Some? {
        return Err(Denied(denied.value));
      }
      var found := IndexOf(rows, id);
      if found.None? {
        return Err(NotFound);
      }
      var k := found.value;
      var c := ApplyPatch(rows[k], patch);
      if Clashes(rows, c) || (c.parentId.Some? && !HasId(rows, c.parentId.value)) {
        return Err(ValidationFailed);
      }
      ClashFreeReplace(rows, k, c);
      rows := rows[k := c];
      r := Ok(c);
      assert rows[k] in rows;
    }

    /** GET the list: one page of the table in insertion order. */
    function List(page: Option<Positive>, pageSize: Option<Positive>): (p: Page<Category>)
      reads this
      ensures p.total == |rows| && p.itemsCount == |p.items|
      ensures forall j :: 0 <= j < |p.items| ==> p.items[j] in rows
    {
      Paginate(rows, page, pageSize)
    }
  }
}
