/**
  The listing rules of `GET /recipes`: the query it builds from the caller's
  authorization and the query parameters, what that query returns from the
  collection, the counter it reports and how each document is flattened.
 */
module Listing {
  import opened Values
  import opened Triggers

  /** The query parameters, each None when absent. `pageNumber` and `perPage`
      stand for the numbers their strings denote. */
  datatype ListParams = ListParams(
    category: Option<string>,
    orderByField: Option<string>,
    orderByDirection: Option<string>,
    pageNumber: Option<int>,
    perPage: Option<nat>)

  /** A query parameter in an `if (...)` test: present and not empty. */
  predicate Given(p: Option<string>) {
    p.Some? && p.value != ""
  }

  /** `where(field, "==", value)`. */
  datatype Filter = Where(field: string, value: Value)

  /** A query on `recipes`: its equality filters, its ordering, and the limit
      and offset the server applies (offset first, whatever the call order). */
  datatype Query = Query(
    filters: seq<Filter>,
    orderBy: Option<(string, Option<string>)>,
    limit: Option<nat>,
    offset: Option<nat>)

  /** The filter forced on callers who are not authorized. */
  const PublishedOnly := Where("isPublished", Bool(true))

  /** `(pageNumber - 1) * perPage`, applied when `pageNumber > 0` and `perPage`
      is given. */
  function PageOffset(p: ListParams): (r: Option<nat>)
    ensures r.Some? <==> p.pageNumber.Some? && p.pageNumber.value > 0 && p.perPage.Some?
    ensures r.Some? ==> r.value == (p.pageNumber.value - 1) * p.perPage.value
  {
    if p.pageNumber.Some? && p.pageNumber.value > 0 && p.perPage.Some? then
      var m: nat := p.pageNumber.value - 1;
      Some(m * p.perPage.value)
    else None
  }

  /** The query `GET /recipes` runs, as a specification. */
  function ListQuery(isAuth: bool, p: ListParams): Query {
    Query(
      (if isAuth then [] else [PublishedOnly])
        + (if Given(p.category) then [Where("category", Str(p.category.value))] else []),
      if Given(p.orderByField) then Some((p.orderByField.value, p.orderByDirection)) else None,
      p.perPage,
      PageOffset(p))
  }

  /** The handler's `collectionRef`, refined step by step. */
  method BuildListQuery(isAuth: bool, p: ListParams) returns (collectionRef: Query)
    ensures collectionRef == ListQuery(isAuth, p)
  {
    collectionRef := Query([], None, None, None);
    if !isAuth {
      collectionRef := collectionRef.(filters := collectionRef.filters + [PublishedOnly]);
    }
    if Given(p.category) {
      collectionRef := collectionRef.(filters := collectionRef.filters + [Where("category", Str(p.category.value))]);
    }
    if Given(p.orderByField) {
      collectionRef := collectionRef.(orderBy := Some((p.orderByField.value, p.orderByDirection)));
    }
    if p.perPage.Some? {
      collectionRef := collectionRef.(limit := Some(p.perPage.value));
    }
    if p.pageNumber.Some? && p.pageNumber.value > 0 && p.perPage.Some? {
      var pageNumberMultiplier: nat := p.pageNumber.value - 1;
      var offset := pageNumberMultiplier * p.perPage.value;
      collectionRef := collectionRef.(offset := Some(offset));
    }
  }

  /** The filters of the listing query: the published filter exactly for
      callers who are not authorized, the category filter exactly when a
      category is given, and nothing else. */
  lemma ListQueryFilters(isAuth: bool, p: ListParams)
    ensures PublishedOnly in ListQuery(isAuth, p).filters <==> !isAuth
    ensures Given(p.category) ==> Where("category", Str(p.category.value)) in ListQuery(isAuth, p).filters
    ensures !Given(p.category) ==> |ListQuery(isAuth, p).filters| == if isAuth then 0 else 1
    ensures forall f :: f in ListQuery(isAuth, p).filters ==>
      f == PublishedOnly || (Given(p.category) && f == Where("category", Str(p.category.value)))
    ensures ListQuery(isAuth, p).limit == p.perPage
  {
    var fs := ListQuery(isAuth, p).filters;
    if Given(p.category) {
      var c := Where("category", Str(p.category.value));
      assert c in fs by {
        assert fs[|fs| - 1] == c;
      }
    }
  }

  // ---------------------------------------------------------------------------
  // Running a query
  // ---------------------------------------------------------------------------

  /** A document with its id. */
  type Row = (string, Doc)

  /** Firestore equality: the field exists and holds exactly the value. */
  predicate Matches(d: Doc, f: Filter) {
    f.field in d && d[f.field] == f.value
  }

  predicate MatchesAll(d: Doc, fs: seq<Filter>) {
    forall i :: 0 <= i < |fs| ==> Matches(d, fs[i])
  }

  /** The rows that pass every filter, in their order. */
  function Filtered(rows: seq<Row>, fs: seq<Filter>): (r: seq<Row>)
    ensures forall x :: x in r <==> x in rows && MatchesAll(x.1, fs)
    ensures |r| <= |rows|
    decreases |rows|
  {
    if rows == [] then []
    else
      var rest := Filtered(rows[1..], fs);
      assert forall x :: x in rows <==> x == rows[0] || x in rows[1..];
      if MatchesAll(rows[0].1, fs) then [rows[0]] + rest else rest
  }

  /** Skips `offset` rows, then keeps at most `limit`. */
  function Window(rows: seq<Row>, offset: Option<nat>, limit: Option<nat>): seq<Row> {
    var start := if offset.Some? && offset.value <= |rows| then offset.value
      else if offset.Some? then |rows| else 0;
    var rest := rows[start..];
    if limit.Some? && limit.value < |rest| then rest[..limit.value] else rest
  }

  /** What the query returns when the collection, in the query's order, is
      `rows`; the ordering itself is the server's, given by `rows`. */
  function RunQuery(q: Query, rows: seq<Row>): seq<Row> {
    Window(Filtered(rows, q.filters), q.offset, q.limit)
  }

  /** The smaller of two naturals. */
  function Min(a: nat, b: nat): nat {
    if a <= b then a else b
  }

  /** Every row a query returns comes from the collection and passes its
      filters. */
  lemma {:induction false} RunQuerySound(q: Query, rows: seq<Row>, x: Row)
    requires x in RunQuery(q, rows)
    ensures x in rows && MatchesAll(x.1, q.filters)
  {
    var f := Filtered(rows, q.filters);
    var w := RunQuery(q, rows);
    var i :| 0 <= i < |w| && w[i] == x;
    var start := if q.offset.Some? && q.offset.value <= |f| then q.offset.value
      else if q.offset.Some? then |f| else 0;
    assert w[i] == f[start + i];
    assert f[start + i] in f;
  }

  /** A caller who is not authorized only ever gets published recipes. */
  lemma UnauthorizedSeesOnlyPublished(p: ListParams, rows: seq<Row>, x: Row)
    requires x in RunQuery(ListQuery(false, p), rows)
    ensures x in rows && Field(x.1, "isPublished") == Bool(true)
  {
    var q := ListQuery(false, p);
    RunQuerySound(q, rows, x);
    assert q.filters[0] == PublishedOnly;
  }

  /** With a category given, every result has exactly that category. */
  lemma CategoryFilterApplies(isAuth: bool, p: ListParams, rows: seq<Row>, x: Row)
    requires Given(p.category)
    requires x in RunQuery(ListQuery(isAuth, p), rows)
    ensures Field(x.1, "category") == Str(p.category.value)
  {
    var q := ListQuery(isAuth, p);
    RunQuerySound(q, rows, x);
    assert q.filters[|q.filters| - 1] == Where("category", Str(p.category.value));
  }

  /** An authorized caller without a category sees the whole collection,
      published or not, up to paging. */
  lemma AuthorizedUnfiltered(p: ListParams, rows: seq<Row>)
    requires !Given(p.category)
    ensures Filtered(rows, ListQuery(true, p).filters) == rows
  {
    FilterNone(rows, ListQuery(true, p).filters);
  }

  lemma {:induction false} FilterNone(rows: seq<Row>, fs: seq<Filter>)
    requires fs == []
    ensures Filtered(rows, fs) == rows
    decreases |rows|
  {
    if rows != [] {
      FilterNone(rows[1..], fs);
      assert [rows[0]] + rows[1..] == rows;
    }
  }

  /** Page `n` of size `k` (n > 0) is positions `(n-1)*k+1 .. n*k` (counting
      from 1) of the filtered collection, cut short at its end. */
  lemma Pagination(isAuth: bool, p: ListParams, rows: seq<Row>)
    requires p.pageNumber.Some? && p.pageNumber.value > 0 && p.perPage.Some?
    ensures var f := Filtered(rows, ListQuery(isAuth, p).filters);
      var n, k := p.pageNumber.value, p.perPage.value;
      var lo, hi := Min((n - 1) * k, |f|), Min(n * k, |f|);
      lo <= hi && RunQuery(ListQuery(isAuth, p), rows) == f[lo..hi]
  {
    var f := Filtered(rows, ListQuery(isAuth, p).filters);
    var n, k := p.pageNumber.value, p.perPage.value;
    var m: nat := n - 1;
    assert n * k == m * k + k;
    assert 0 <= m * k;
  }

  /** Without a page number, `perPage` keeps the first `perPage` results. */
  lemma FirstPageOnly(isAuth: bool, p: ListParams, rows: seq<Row>)
    requires p.perPage.Some?
    requires !(p.pageNumber.Some? && p.pageNumber.value > 0)
    ensures var f := Filtered(rows, ListQuery(isAuth, p).filters);
      RunQuery(ListQuery(isAuth, p), rows) == f[..Min(p.perPage.value, |f|)]
  {
  }

  /** Without `perPage` there is no paging at all. */
  lemma NoPaging(isAuth: bool, p: ListParams, rows: seq<Row>)
    requires p.perPage.None?
    ensures RunQuery(ListQuery(isAuth, p), rows) == Filtered(rows, ListQuery(isAuth, p).filters)
  {
  }

  // ---------------------------------------------------------------------------
  // The reported count and the flattened documents
  // ---------------------------------------------------------------------------

  /** `recipeCount`: the `all` counter for an authorized caller, `published`
      otherwise, and 0 when that counter document does not exist. */
  function RecipeCount(isAuth: bool, c: Counts): int {
    var count := if isAuth then c.all else c.published;
    if count.Some? then count.value else 0
  }

  /** When the counters agree with the collection, the reported count is the
      number of recipes for an authorized caller, and otherwise the number of
      those with a truthy `isPublished`. */
  lemma RecipeCountIsTrueCount(isAuth: bool, db: Db)
    requires CountsAgree(db)
    ensures RecipeCount(isAuth, db.counts) ==
      if isAuth then |db.recipes.Keys| else |PublishedIds(db.recipes)|
  {
  }

  /** The recipes an unauthorized listing can return: `isPublished` is exactly
      `true`. */
  ghost function StrictlyPublishedIds(recipes: map<string, Doc>): set<string> {
    set id | id in recipes && Matches(recipes[id], PublishedOnly)
  }

  /** The `published` counter tallies a truthy `isPublished` while the listing
      keeps only `isPublished == true`; the two agree when every stored
      `isPublished` is a boolean or falsy. */
  lemma PublishedCountMatchesListing(db: Db)
    requires CountsAgree(db)
    requires forall id :: id in db.recipes ==>
      Field(db.recipes[id], "isPublished").Bool? || !Truthy(Field(db.recipes[id], "isPublished"))
    ensures RecipeCount(false, db.counts) == |StrictlyPublishedIds(db.recipes)|
  {
    assert PublishedIds(db.recipes) == StrictlyPublishedIds(db.recipes);
  }

  /** The validator does not check `isPublished`, so a recipe can store the
      string "yes" there: it is counted as published, yet an unauthorized
      listing never returns it. */
  lemma TruthyCountedButNotListed(p: ListParams)
    ensures var db := Db(map["r" := map["isPublished" := Str("yes")]], Counts(Some(1), Some(1)));
      && CountsAgree(db)
      && RecipeCount(false, db.counts) == 1
      && RunQuery(ListQuery(false, p), RowsOf(db.recipes, ["r"])) == []
  {
    var recipes := map["r" := map["isPublished" := Str("yes")]];
    assert PublishedIds(recipes) == {"r"};
    var rows := RowsOf(recipes, ["r"]);
    var fs := ListQuery(false, p).filters;
    assert fs[0] == PublishedOnly;
    assert !MatchesAll(rows[0].1, fs);
    assert Filtered(rows, fs) == [];
  }

  /** One fetched document: `publishDate` replaced by its `_seconds` and the id
      added (overriding any `id` field); None for the TypeError thrown when
      `publishDate` is absent or null. */
  function FlattenDoc(id: string, data: Doc): (r: Option<Doc>)
    ensures r.None? <==> Field(data, "publishDate") == Undefined || Field(data, "publishDate") == Null
    ensures r.Some? ==> r.value.Keys == data.Keys + {"publishDate", "id"}
    ensures r.Some? ==> r.value["publishDate"] == Get(data["publishDate"], "_seconds")
    ensures r.Some? ==> r.value["id"] == Str(id)
    ensures r.Some? ==> forall k :: k in data && k != "publishDate" && k != "id" ==> r.value[k] == data[k]
  {
    var publishDate := Field(data, "publishDate");
    if publishDate == Undefined || publishDate == Null then None
    else Some(data["publishDate" := Get(publishDate, "_seconds")]["id" := Str(id)])
  }

  /** `docs.map(...)`: every document flattened, or None when one of them
      throws. */
  function FlattenAll(rows: seq<Row>): (r: Option<seq<Doc>>)
    ensures r.Some? <==> forall i :: 0 <= i < |rows| ==> FlattenDoc(rows[i].0, rows[i].1).Some?
    ensures r.Some? ==> |r.value| == |rows|
    ensures r.Some? ==> forall i :: 0 <= i < |rows| ==> r.value[i] == FlattenDoc(rows[i].0, rows[i].1).value
    decreases |rows|
  {
    if rows == [] then Some([])
    else
      var first := FlattenDoc(rows[0].0, rows[0].1);
      var rest := FlattenAll(rows[1..]);
      assert forall i :: 1 <= i < |rows| ==> rows[i] == rows[1..][i - 1];
      if first.Some? && rest.Some? then Some([first.value] + rest.value) else None
  }

  /** Every document a caller who is not authorized receives is published. */
  lemma UnauthorizedListingPublished(p: ListParams, rows: seq<Row>)
    requires FlattenAll(RunQuery(ListQuery(false, p), rows)).Some?
    ensures forall d :: d in FlattenAll(RunQuery(ListQuery(false, p), rows)).value ==>
      "isPublished" in d && d["isPublished"] == Bool(true)
  {
    var result := RunQuery(ListQuery(false, p), rows);
    var docs := FlattenAll(result).value;
    forall d | d in docs
      ensures "isPublished" in d && d["isPublished"] == Bool(true)
    {
      var i :| 0 <= i < |docs| && docs[i] == d;
      assert result[i] in result;
      UnauthorizedSeesOnlyPublished(p, rows, result[i]);
    }
  }

  // ---------------------------------------------------------------------------
  // The collection in a given order
  // ---------------------------------------------------------------------------

  /** `order` lists each id of the collection once. */
  predicate ListsKeys(order: seq<string>, recipes: map<string, Doc>) {
    && (forall i :: 0 <= i < |order| ==> order[i] in recipes)
    && (forall id :: id in recipes ==> id in order)
    && (forall i, j :: 0 <= i < j < |order| ==> order[i] != order[j])
  }

  /** The collection's documents in the order `order`. */
  function RowsOf(recipes: map<string, Doc>, order: seq<string>): (rows: seq<Row>)
    requires forall i :: 0 <= i < |order| ==> order[i] in recipes
    ensures |rows| == |order|
    ensures forall i :: 0 <= i < |order| ==> rows[i] == (order[i], recipes[order[i]])
    decreases |order|
  {
    if order == [] then [] else [(order[0], recipes[order[0]])] + RowsOf(recipes, order[1..])
  }
}
