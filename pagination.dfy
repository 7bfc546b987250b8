/** The paginated listing the list endpoints answer with: one page of the
    rows in table order, with its counts. Page numbers start at 1; an absent
    page is 1 and an absent page size is 25. */
module Pagination {
  import opened Wrappers

  type Positive = n: nat | n >= 1 witness 1

  const DefaultPage: Positive := 1
  const DefaultPageSize: Positive := 25

  datatype Page<T> = Page(items: seq<T>, itemsCount: nat, page: nat, pageSize: nat, total: nat)

  function OrDefault(n: Option<Positive>, default: Positive): Positive {
    match n
    case None => default
    case Some(v) => v
  }

  function Min(a: int, b: int): int { if a <= b then a else b }

  /** How many rows come before page `page`. */
  function Offset(page: Positive, size: Positive): nat {
    (page - 1) * size
  }

  /** Page `page` of `rows` with pages of `pageSize` rows: the rows from
      offset (page - 1) * pageSize on, at most pageSize of them. */
  function Paginate<T>(rows: seq<T>, page: Option<Positive>, pageSize: Option<Positive>): (p: Page<T>)
    ensures p.page == OrDefault(page, DefaultPage) && p.pageSize == OrDefault(pageSize, DefaultPageSize)
    ensures p.itemsCount == |p.items| && p.total == |rows|
    ensures var offset := Offset(p.page, p.pageSize);
            |p.items| == if offset < |rows| then Min(p.pageSize, |rows| - offset) else 0
    ensures forall j :: 0 <= j < |p.items| ==> p.items[j] == rows[Offset(p.page, p.pageSize) + j]
  {
    var number := OrDefault(page, DefaultPage);
    var size := OrDefault(pageSize, DefaultPageSize);
    var start := Min(Offset(number, size), |rows|);
    var end := Min(start + size, |rows|);
    var items := rows[start..end];
    Page(items, |items|, number, size, |rows|)
  }

  /** Every row is on exactly one page: row i is item i % size of page i / size + 1. */
  lemma RowOnItsPage<T>(rows: seq<T>, size: Positive, i: nat)
    requires i < |rows|
    ensures var p := Paginate(rows, Some(i / size + 1), Some(size));
            i % size < |p.items| && p.items[i % size] == rows[i]
  {
    var q, r := i / size, i % size;
    assert i == q * size + r;
    assert q * size <= i;
    var p := Paginate(rows, Some(q + 1), Some(size));
    assert Offset(p.page, p.pageSize) == q * size;
  }

  /** Listing an empty table with no query: no items, page 1 of size 25, total 0. */
  lemma EmptyListing<T>()
    ensures Paginate<T>([], None, None) == Page([], 0, 1, 25, 0)
  {
  }

  /** Fifty rows, page 2 of size 10: rows 10 to 19, ten of them, total 50. */
  lemma SecondPageOfFifty<T>(rows: seq<T>)
    requires |rows| == 50
    ensures Paginate(rows, Some(2), Some(10)) == Page(rows[10..20], 10, 2, 10, 50)
  {
  }
}
