/** Listing a collection: filters, an order that leaves no ties, and pages cut out of it
    by limit and offset. */
module Listing {
  import opened Decimal
  import opened Seeding
  import opened Sets
  import opened Sorting
  import opened Wrappers

  const MAX_LIST_LIMIT := 1000

  /** The documents by `seq`, the position they were inserted at. */
  type Rows = map<int, Doc>

  datatype Filter = Filter(field: string, values: seq<string>)

  datatype Query = Query(page: nat, limit: nat, sort: Option<string>, desc: bool, filters: seq<Filter>) {
    ghost predicate Valid() { page >= 1 && 1 <= limit <= MAX_LIST_LIMIT }
  }

  /** What the listing takes from Postgres and from encoding/json: the containment test
      `body @> {field: value}`, the rank of a value in the order of jsonb, and how a
      query-string value reads as a JSON number, boolean or null, if it does. */
  datatype Engine = Engine(contains: (Doc, string, Json) -> bool, rank: Json -> int, typed: string -> Option<Json>)

  /** A value is looked for as a string, and as what else it reads as. */
  function ContainmentDocs(e: Engine, value: string): seq<Json> {
    [Str(value)] + match e.typed(value) case Some(v) => [v] case None => []
  }

  predicate MatchesValue(e: Engine, doc: Doc, field: string, value: string) {
    exists i :: 0 <= i < |ContainmentDocs(e, value)| && e.contains(doc, field, ContainmentDocs(e, value)[i])
  }

  /** The values of one filter are alternatives, the filters are all required; a filter
      without values asks for nothing. */
  predicate Satisfies(e: Engine, doc: Doc, filters: seq<Filter>) {
    forall i :: 0 <= i < |filters| && filters[i].values != [] ==>
      exists j :: 0 <= j < |filters[i].values| && MatchesValue(e, doc, filters[i].field, filters[i].values[j])
  }

  ghost function Matching(e: Engine, rows: Rows, filters: seq<Filter>): set<int> {
    set s | s in rows && Satisfies(e, rows[s], filters)
  }

  /** `body -> sort`: absent if the document has no such field. */
  function SortKey(e: Engine, rows: Rows, sort: string, s: int): Option<int> {
    if s in rows && sort in rows[s].body then Some(e.rank(rows[s].body[sort])) else None
  }

  /** By the sort field in either direction with absent values last, then by seq; without a
      sort field by seq alone, in either direction. */
  predicate RowLe(e: Engine, rows: Rows, q: Query, a: int, b: int) {
    match q.sort
    case None => if q.desc then a >= b else a <= b
    case Some(sort) =>
      match (SortKey(e, rows, sort, a), SortKey(e, rows, sort, b))
      case (Some(x), Some(y)) => if x == y then a <= b else if q.desc then x > y else x < y
      case (Some(_), None) => true
      case (None, Some(_)) => false
      case (None, None) => a <= b
  }

  ghost function Le(e: Engine, rows: Rows, q: Query): (int, int) -> bool {
    (a, b) => RowLe(e, rows, q, a, b)
  }

  lemma LeIsTotalOrder(e: Engine, rows: Rows, q: Query)
    ensures TotalOrder(Le(e, rows, q))
  {
  }

  /** The whole listing is the one sequence of the matching rows in this order. */
  ghost predicate IsListing(e: Engine, rows: Rows, q: Query, listing: seq<int>) {
    multiset(listing) == multiset(Matching(e, rows, q.filters)) && Ordered(listing, Le(e, rows, q))
  }

  lemma ListingIsDetermined(e: Engine, rows: Rows, q: Query, a: seq<int>, b: seq<int>)
    requires IsListing(e, rows, q, a) && IsListing(e, rows, q, b)
    ensures a == b
  {
    LeIsTotalOrder(e, rows, q);
    OrderedIsUnique(a, b, Le(e, rows, q));
  }

  datatype Answer = Answer(docs: seq<int>, total: nat) | OffsetError

  /** The offset is computed in 64 bits, and a negative one is an error. */
  function Offset(q: Query): int {
    Wrap64((q.page - 1) * q.limit)
  }

  /** The window count travels on the rows, so a page past the end counts again. */
  function Answered(listing: seq<int>, q: Query): Answer {
    var offset := Offset(q);
    if offset < 0 then OffsetError
    else if offset >= |listing| then Answer([], |listing|)
    else Answer(listing[offset..if offset + q.limit < |listing| then offset + q.limit else |listing|], |listing|)
  }

  /** What the caller means by a page. */
  function PageOf(listing: seq<int>, page: nat, limit: nat): seq<int>
    requires page >= 1
  {
    var from, to := (page - 1) * limit, page * limit;
    if from >= |listing| then []
    else if to <= |listing| then listing[from..to] else listing[from..]
  }

  lemma Product(page: nat, limit: nat)
    requires page >= 1
    ensures (page - 1) * limit >= 0 && page * limit == (page - 1) * limit + limit
  {
  }

  /** A page, one past the end included, is the slice it should be and reports the total
      exactly when its offset fits into 64 bits, or overflows to one past the end. */
  lemma PageIsTheSlice(listing: seq<int>, q: Query)
    requires q.Valid() && |listing| <= MAX_INT64
    ensures Answered(listing, q) == Answer(PageOf(listing, q.page, q.limit), |listing|)
            <==> (q.page - 1) * q.limit <= MAX_INT64 || Offset(q) >= |listing|
  {
    Product(q.page, q.limit);
    if (q.page - 1) * q.limit <= MAX_INT64 {
      assert Offset(q) == (q.page - 1) * q.limit;
    }
  }

  /** And it does overflow: this page number answers with the first page. */
  lemma OverflowedPageIsTheFirst(listing: seq<int>, q: Query)
    requires q.page == 0x2000_0000_0000_0001 && q.limit == 8 && listing != []
    ensures Answered(listing, q) == Answered(listing, q.(page := 1)) && PageOf(listing, 1, 8) != []
    ensures |listing| < 0x1_0000_0000_0000_0000 ==> PageOf(listing, q.page, q.limit) == []
  {
    assert Wrap64(0x1_0000_0000_0000_0000) == 0;
  }

  ghost function Pages(listing: seq<int>, limit: nat, count: nat): seq<int> {
    if count == 0 then [] else Pages(listing, limit, count - 1) + PageOf(listing, count, limit)
  }

  lemma {:induction false} PagesAreThePrefix(listing: seq<int>, limit: nat, count: nat)
    ensures Pages(listing, limit, count) == if count * limit <= |listing| then listing[..count * limit] else listing
  {
    if count > 0 {
      PagesAreThePrefix(listing, limit, count - 1);
      Product(count, limit);
    }
  }

  lemma PagesUpToTheEnd(total: nat, limit: nat)
    requires limit >= 1
    ensures ((total + limit - 1) / limit) * limit >= total
  {
  }

  /** No page up to the last has an offset past the end. */
  lemma OffsetsStayInside(total: nat, limit: nat, page: nat)
    requires limit >= 1 && 1 <= page <= (total + limit - 1) / limit
    ensures (page - 1) * limit <= total
  {
    var last := (total + limit - 1) / limit;
    assert last * limit <= total + limit - 1;
    assert (last - 1) * limit == last * limit - limit;
    assert (page - 1) * limit <= (last - 1) * limit;
  }

  /** For every filter that has values, the document holds in that field one of them, as the
      string it is or as the number, boolean or null it reads as. */
  ghost predicate Wanted(e: Engine, doc: Doc, filters: seq<Filter>) {
    forall f :: f in filters && f.values != [] ==>
      exists v :: v in f.values
        && (e.contains(doc, f.field, Str(v)) || (e.typed(v).Some? && e.contains(doc, f.field, e.typed(v).value)))
  }

  /** Why document `a` is listed before `b`: by seq, in the direction asked for; with a sort
      field, one that has it comes before one that has not in either direction, two that have
      it by its rank in the direction asked for, and of equals the older comes first. */
  ghost predicate Comes(e: Engine, rows: Rows, q: Query, a: int, b: int) {
    && a in rows && b in rows
    && match q.sort
       case None => if q.desc then a > b else a < b
       case Some(field) =>
         if field !in rows[a].body then field !in rows[b].body && a < b
         else if field !in rows[b].body then true
         else
           var x, y := e.rank(rows[a].body[field]), e.rank(rows[b].body[field]);
           (if q.desc then x > y else x < y) || (x == y && a < b)
  }

  lemma SatisfiesIsWanted(e: Engine, doc: Doc, filters: seq<Filter>)
    ensures Satisfies(e, doc, filters) <==> Wanted(e, doc, filters)
  {
    hide MatchesValue;
    forall f: Filter, v: string
      ensures MatchesValue(e, doc, f.field, v)
         <==> e.contains(doc, f.field, Str(v)) || (e.typed(v).Some? && e.contains(doc, f.field, e.typed(v).value))
    {
      MatchesEitherWay(e, doc, f.field, v);
    }
    if Satisfies(e, doc, filters) {
      forall f | f in filters && f.values != []
        ensures exists v :: v in f.values && MatchesValue(e, doc, f.field, v)
      {
        var i :| 0 <= i < |filters| && filters[i] == f;
        var j :| 0 <= j < |f.values| && MatchesValue(e, doc, f.field, f.values[j]);
        assert f.values[j] in f.values;
      }
    }
    if Wanted(e, doc, filters) {
      forall i | 0 <= i < |filters| && filters[i].values != []
        ensures exists j :: 0 <= j < |filters[i].values| && MatchesValue(e, doc, filters[i].field, filters[i].values[j])
      {
        var f := filters[i];
        assert f in filters;
        var v :| v in f.values && MatchesValue(e, doc, f.field, v);
        var j :| 0 <= j < |f.values| && f.values[j] == v;
      }
    }
  }

  lemma MatchesEitherWay(e: Engine, doc: Doc, field: string, value: string)
    ensures MatchesValue(e, doc, field, value)
       <==> e.contains(doc, field, Str(value)) || (e.typed(value).Some? && e.contains(doc, field, e.typed(value).value))
  {
    var docs := ContainmentDocs(e, value);
    assert docs[0] == Str(value) && (e.typed(value).Some? ==> docs[1] == e.typed(value).value);
  }

  lemma LeIsComing(e: Engine, rows: Rows, q: Query, a: int, b: int)
    requires a in rows && b in rows && a != b && RowLe(e, rows, q, a, b)
    ensures Comes(e, rows, q, a, b)
  {
  }

  /** The answers for the pages up to the last, put together, are every matching document
      exactly once, in order, each with the same total. */
  lemma PagesAreTheListing(e: Engine, rows: Rows, q: Query, listing: seq<int>)
    requires q.Valid() && IsListing(e, rows, q, listing) && |listing| <= MAX_INT64
    ensures var last := (|listing| + q.limit - 1) / q.limit;
            var all := Pages(listing, q.limit, last);
            && (forall page :: 1 <= page <= last ==>
                  Answered(listing, q.(page := page)) == Answer(PageOf(listing, page, q.limit), |listing|))
            && all == listing
            && (forall s :: s in all <==> s in rows && Wanted(e, rows[s], q.filters))
            && (forall i, j :: 0 <= i < j < |all| ==> all[i] != all[j] && Comes(e, rows, q, all[i], all[j]))
  {
    hide Wanted, Comes, Answered, PageOf, IsListing;
    var last := (|listing| + q.limit - 1) / q.limit;
    forall page | 1 <= page <= last
      ensures Answered(listing, q.(page := page)) == Answer(PageOf(listing, page, q.limit), |listing|)
    {
      OffsetsStayInside(|listing|, q.limit, page);
      PageIsTheSlice(listing, q.(page := page));
    }
    PagesUpToTheEnd(|listing|, q.limit);
    PagesAreThePrefix(listing, q.limit, last);
    ListingIs(e, rows, q, listing);
  }

  /** The whole listing in plain terms. */
  lemma ListingIs(e: Engine, rows: Rows, q: Query, listing: seq<int>)
    requires IsListing(e, rows, q, listing)
    ensures forall s :: s in listing <==> s in rows && Wanted(e, rows[s], q.filters)
    ensures forall i, j :: 0 <= i < j < |listing| ==> listing[i] != listing[j] && Comes(e, rows, q, listing[i], listing[j])
  {
    hide RowLe, Satisfies, Wanted, Comes, Ordered, TotalOrder;
    LeIsTotalOrder(e, rows, q);
    ListedOnce(listing, Matching(e, rows, q.filters));
    forall s | s in rows ensures Satisfies(e, rows[s], q.filters) <==> Wanted(e, rows[s], q.filters) {
      SatisfiesIsWanted(e, rows[s], q.filters);
    }
    forall i, j | 0 <= i < j < |listing| ensures Comes(e, rows, q, listing[i], listing[j]) {
      OrderedPairs(listing, Le(e, rows, q), i, j);
      assert listing[i] in listing && listing[j] in listing;
      LeIsComing(e, rows, q, listing[i], listing[j]);
    }
  }

  /** The statement and its counting fallback. */
  method ListDocuments(e: Engine, ghost rows: Rows, q: Query, listing: seq<int>) returns (answer: Answer)
    requires q.Valid() && IsListing(e, rows, q, listing)
    ensures answer == Answered(listing, q)
  {
    var offset := Wrap64((q.page - 1) * q.limit);
    if offset < 0 {
      return OffsetError;
    }
    var docs: seq<int> := [];
    var total := 0;
    var i: nat := offset;
    while i < |listing| && i < offset + q.limit
      invariant offset <= i <= offset + q.limit && |docs| == i - offset
      invariant i > offset ==> total == |listing| && i <= |listing| && docs == listing[offset..i]
    {
      assert listing[offset..i + 1] == listing[offset..i] + [listing[i]];
      docs := docs + [listing[i]];
      total := |listing|;
      i := i + 1;
    }
    if |docs| == 0 {
      total := |listing|;
    }
    answer := Answer(docs, total);
  }
}
