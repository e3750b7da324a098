/** `SearchUserTable`: filters over the value tables, paging, and the reassembled rows. */
module Search {
  import opened Wrappers
  import opened Naming
  import opened Schema
  import opened Insertion
  import opened Operations
  import opened Readers
  import opened Paging

  /** One element of `filterFields`; a missing key is NULL. */
  datatype Filter = Filter(
    field: Option<string>,
    operation: Option<string>,
    value: Option<string>,
    values: seq<Option<string>>)

  /** `filters` is None when the payload has no `filterFields` array. */
  datatype Request = Request(pageNum: Option<int>, pageSize: Option<int>, filters: Option<seq<Filter>>)

  datatype Hit = Hit(row: RowId, data: map<string, Json>, total: nat)

  function Filters(req: Request): seq<Filter> {
    if req.filters.None? then [] else req.filters.value
  }

  function TextOf(value: Option<Value>): Option<string> {
    if value.Some? && value.value.TextValue? then Some(value.value.s) else None
  }

  /** SQL `a = b` as a condition. */
  predicate TextEquals(a: Option<string>, b: Option<string>) { a.Some? && a == b }

  function Operation(f: Filter): string { if f.operation.None? then "eq" else f.operation.value }

  predicate TextPasses(dl: Dialect, cell: Option<string>, f: Filter) {
    if Operation(f) == "eq" then TextEquals(cell, f.value)
    else if Operation(f) == "cn" then cell.Some? && f.value.Some? && dl.ilike(cell.value, "%" + f.value.value + "%")
    else if Operation(f) == "in" then exists v :: v in f.values && TextEquals(cell, v)
    else true
  }

  predicate EnumPasses(cell: Option<string>, f: Filter) {
    if Operation(f) == "eq" then TextEquals(cell, f.value)
    else if Operation(f) == "in" then exists v :: v in f.values && TextEquals(cell, v)
    else true
  }

  /** The column a filter names, in the LEFT JOIN; a missing field joins nothing. */
  predicate Names(db: Db, t: TableId, f: Filter, c: ColumnId) {
    && c in db.columns && db.columns[c].table == t
    && f.field.Some? && Lower(db.columns[c].name) == Lower(f.field.value)
  }

  /** The CASE over the column type for one joined column. */
  predicate ColumnPasses(dl: Dialect, db: Db, r: RowId, c: ColumnId, f: Filter)
    requires c in db.columns
  {
    var k := Key(r, c);
    match db.columns[c].ty
    case TextType => k in db.cells.text && TextPasses(dl, TextOf(db.cells.text[k]), f)
    case EnumType => k in db.cells.enums && EnumPasses(TextOf(db.cells.enums[k]), f)
    case BoolType => k in db.cells.bools && Cast(dl, BoolType, f.value) == Some(db.cells.bools[k])
    case _ => true
  }

  /** One filter: without a joined column the CASE falls through to TRUE. */
  ghost predicate FilterPasses(dl: Dialect, db: Db, t: TableId, r: RowId, f: Filter) {
    || (forall c :: !Names(db, t, f, c))
    || (exists c :: Names(db, t, f, c) && ColumnPasses(dl, db, r, c, f))
  }

  /** A row is kept when there is no filter or when some filter passes. */
  ghost predicate Kept(dl: Dialect, db: Db, t: TableId, r: RowId, filters: seq<Filter>) {
    filters == [] || exists f :: f in filters && FilterPasses(dl, db, t, r, f)
  }

  ghost function Filtered(dl: Dialect, db: Db, t: Option<TableId>, filters: seq<Filter>): set<RowId> {
    set r | r in db.rows && t.Some? && db.rows[r].table == t.value && Kept(dl, db, t.value, r, filters)
  }

  /** A bool filter whose value does not cast, on a column some row of the table has a cell in. */
  ghost predicate BadCast(dl: Dialect, db: Db, t: Option<TableId>, filters: seq<Filter>) {
    exists f, c, r :: && f in filters && t.Some? && Names(db, t.value, f, c) && db.columns[c].ty == BoolType
                      && Key(r, c) in db.cells.bools && Cast(dl, BoolType, f.value).None?
  }

  function CreatedAt(db: Db): map<RowId, Time> { map r | r in db.rows :: db.rows[r].createdAt }

  /** The order the query returned its filtered rows in: newest first, ties as it pleased. */
  ghost predicate IsOrder(dl: Dialect, db: Db, t: Option<TableId>, filters: seq<Filter>, order: seq<RowId>) {
    NewestFirst(order, Filtered(dl, db, t, filters), CreatedAt(db))
  }

  function Hits(dl: Dialect, db: Db, order: seq<RowId>): seq<Hit>
    requires Inv(db)
  {
    seq(|order|, i requires 0 <= i < |order| => Hit(order[i], RowJson(dl, db, order[i]), |order|))
  }

  /** The whole query; the total is `COUNT(*) OVER()` before LIMIT. */
  ghost function SearchTable(
    dl: Dialect, db: Db, t: Option<TableId>, req: Request, order: seq<RowId>): Result<seq<Hit>, Raised>
    requires Inv(db)
  {
    var size, number := PageSize(req.pageSize), PageNumber(req.pageNum);
    if !OffsetInRange(size, number) then Failure(OutOfRange)
    else if BadCast(dl, db, t, Filters(req)) then Failure(InvalidText("boolean"))
    else Success(Page(Hits(dl, db, order), size, number))
  }

  /** The answers to page 0, 1, ..., n - 1 of the same search, one after the other. */
  ghost function AllPages(dl: Dialect, db: Db, t: Option<TableId>, req: Request, order: seq<RowId>, n: nat): seq<Hit>
    requires Inv(db)
  {
    if n == 0 then []
    else
      var page := SearchTable(dl, db, t, req.(pageNum := Some(n - 1)), order);
      AllPages(dl, db, t, req, order, n - 1) + (if page.Success? then page.value else [])
  }

  lemma {:induction false} AllPagesArePages(
    dl: Dialect, db: Db, t: Option<TableId>, req: Request, order: seq<RowId>, n: nat)
    requires Inv(db) && !BadCast(dl, db, t, Filters(req))
    requires n > 0 ==> OffsetInRange(PageSize(req.pageSize), n - 1)
    ensures AllPages(dl, db, t, req, order, n) == Pages(Hits(dl, db, order), PageSize(req.pageSize), n)
  {
    hide Inv, BadCast, Page;
    if n > 0 {
      var size := PageSize(req.pageSize);
      assert size * (n - 1) == size * (n - 2) + size;
      AllPagesArePages(dl, db, t, req, order, n - 1);
      assert BadCast(dl, db, t, Filters(req.(pageNum := Some(n - 1)))) == BadCast(dl, db, t, Filters(req));
    }
  }

  /**
  For any filters and page size, pages 0, 1, 2, ... give the filtered rows newest first, each
  exactly once, and every hit carries the size of the filtered set. Asking for `n` pages with
  `size * n` at least that size gives all of them.
  */
  lemma PagesTileTheAnswer(dl: Dialect, db: Db, t: Option<TableId>, req: Request, order: seq<RowId>, n: nat)
    requires Inv(db) && IsOrder(dl, db, t, Filters(req), order) && !BadCast(dl, db, t, Filters(req))
    requires n > 0 ==> PageSize(req.pageSize) * (n - 1) <= 2147483647
    ensures var hits := AllPages(dl, db, t, req, order, n);
            var filtered := Filtered(dl, db, t, Filters(req));
            && |order| == |filtered|
            && |hits| == Min(PageSize(req.pageSize) * n, |filtered|)
            && (forall i :: 0 <= i < |hits| ==> hits[i] == Hit(order[i], RowJson(dl, db, order[i]), |filtered|))
            && (|hits| == |filtered| ==> forall r :: r in filtered <==> exists i :: 0 <= i < |hits| && hits[i].row == r)
            && (forall i, j :: 0 <= i < j < |hits| ==> hits[i].row != hits[j].row)
  {
    hide Inv, BadCast, Filtered, RowJson, SearchTable, AllPages, Hits;
    AllPagesArePages(dl, db, t, req, order, n);
    PagesTile(Hits(dl, db, order), PageSize(req.pageSize), n);
    var filtered := Filtered(dl, db, t, Filters(req));
    FilteredRowsExist(dl, db, t, Filters(req));
    assert PageSize(req.pageSize) * n >= 0;
    HitsPrefix(dl, db, order, filtered, CreatedAt(db), Min(PageSize(req.pageSize) * n, |Hits(dl, db, order)|));
  }

  /**
  A search fails exactly when its OFFSET is no int4, or when a filter on a bool column in which the
  table has a cell carries a text that is no boolean.
  */
  lemma SearchFailsExactly(dl: Dialect, db: Db, t: TableId, req: Request, order: seq<RowId>)
    requires Inv(db)
    ensures var offset := PageSize(req.pageSize) * PageNumber(req.pageNum);
            var answer := SearchTable(dl, db, Some(t), req, order);
            var noBoolean := exists f, c, r ::
              && f in Filters(req) && f.field.Some? && f.value.Some? && dl.castBool(f.value.value).None?
              && c in db.columns && db.columns[c].table == t && db.columns[c].ty == BoolType
              && Lower(db.columns[c].name) == Lower(f.field.value) && Key(r, c) in db.cells.bools;
            && (answer == Failure(OutOfRange) <==> offset > 2147483647)
            && (answer == Failure(InvalidText("boolean")) <==> offset <= 2147483647 && noBoolean)
            && (answer.Success? <==> offset <= 2147483647 && !noBoolean)
  {
    hide Inv, Page, Hits, Lower;
  }

  /** Without a table there are no rows and no columns to filter on. */
  lemma SearchOfNothing(dl: Dialect, db: Db, req: Request, order: seq<RowId>)
    requires Inv(db) && IsOrder(dl, db, None, Filters(req), order)
    requires PageSize(req.pageSize) * PageNumber(req.pageNum) <= 2147483647
    ensures SearchTable(dl, db, None, req, order) == Success([])
  {
    hide Inv, RowJson;
    DistinctCount(order, Filtered(dl, db, None, Filters(req)));
  }

  lemma FilteredRowsExist(dl: Dialect, db: Db, t: Option<TableId>, filters: seq<Filter>)
    ensures Filtered(dl, db, t, filters) <= CreatedAt(db).Keys
  {
  }

  /** The first `k` hits of an order of `ids`. */
  lemma HitsPrefix(dl: Dialect, db: Db, order: seq<RowId>, ids: set<RowId>, created: map<RowId, Time>, k: nat)
    requires Inv(db) && ids <= created.Keys && NewestFirst(order, ids, created) && k <= |Hits(dl, db, order)|
    ensures |order| == |ids| == |Hits(dl, db, order)|
    ensures var hits := Hits(dl, db, order)[..k];
            && (forall i :: 0 <= i < |hits| ==> hits[i] == Hit(order[i], RowJson(dl, db, order[i]), |ids|))
            && (|hits| == |ids| ==> forall r :: r in ids <==> exists i :: 0 <= i < |hits| && hits[i].row == r)
            && (forall i, j :: 0 <= i < j < |hits| ==> hits[i].row != hits[j].row)
  {
    hide Inv, RowJson;
    DistinctCount(order, ids);
    var hits := Hits(dl, db, order)[..k];
    forall i | 0 <= i < |hits| ensures hits[i] == Hit(order[i], RowJson(dl, db, order[i]), |ids|) {
    }
    if |hits| == |ids| {
      forall r | r in ids ensures exists i :: 0 <= i < |hits| && hits[i].row == r {
        var i :| 0 <= i < |order| && order[i] == r;
        assert hits[i].row == r;
      }
    }
  }

  // ---------- What the filters mean ----------

  /** A filter on an unknown, date, float or uuid column accepts every row. */
  lemma UnfilterableFieldKeepsEveryRow(dl: Dialect, db: Db, t: TableId, filters: seq<Filter>, f: Filter)
    requires f in filters
    requires (forall c :: !Names(db, t, f, c))
             || (exists c :: Names(db, t, f, c) && db.columns[c].ty in {DateType, FloatType, UuidType})
    ensures Filtered(dl, db, Some(t), filters) == RowsOf(db, t)
  {
    forall r | r in db.rows && db.rows[r].table == t ensures Kept(dl, db, t, r, filters) {
      assert FilterPasses(dl, db, t, r, f);
    }
  }

  /** The only column of the table a filter names. */
  ghost predicate NamesOnly(db: Db, t: TableId, f: Filter, c: ColumnId) {
    Names(db, t, f, c) && forall d :: Names(db, t, f, d) ==> d == c
  }

  /** The value an object has under a name, when it is a string. */
  function StringAt(o: map<string, Json>, n: string): Option<string> {
    if n in o && o[n].Str? then Some(o[n].s) else None
  }

  /**
  A filter on a text, enum or bool column asks about the row's object. On text and enum columns
  `eq` compares the string under the column's key, `in` looks it up in a list, `cn` on a text
  column matches it, and any other operation only wants the key; a bool filter compares the value.
  */
  lemma FilterReadsTheObject(dl: Dialect, db: Db, t: TableId, r: RowId, f: Filter, c: ColumnId)
    requires Inv(db) && r in db.rows && db.rows[r].table == t && NamesOnly(db, t, f, c)
    requires db.columns[c].name !in {"id", "created_at"}
    ensures var ty, o, n := db.columns[c].ty, RowJson(dl, db, r), db.columns[c].name;
            var s := StringAt(o, n);
            && (ty in {TextType, EnumType} && Operation(f) == "eq" ==>
                  (Kept(dl, db, t, r, [f]) <==> s.Some? && f.value == s))
            && (ty in {TextType, EnumType} && Operation(f) == "in" ==>
                  (Kept(dl, db, t, r, [f]) <==> s.Some? && s in f.values))
            && (ty == TextType && Operation(f) == "cn" ==>
                  (Kept(dl, db, t, r, [f]) <==>
                     s.Some? && f.value.Some? && dl.ilike(s.value, "%" + f.value.value + "%")))
            && (ty == TextType && Operation(f) !in {"eq", "in", "cn"} ==>
                  (Kept(dl, db, t, r, [f]) <==> n in o))
            && (ty == EnumType && Operation(f) !in {"eq", "in"} ==>
                  (Kept(dl, db, t, r, [f]) <==> n in o))
            && (ty == BoolType && f.value.Some? && dl.castBool(f.value.value).Some? ==>
                  (Kept(dl, db, t, r, [f]) <==> n in o && o[n] == Bool(dl.castBool(f.value.value).value)))
  {
    hide Inv, Merged;
    assert Kept(dl, db, t, r, [f]) <==> ColumnPasses(dl, db, r, c, f) by {
      assert Kept(dl, db, t, r, [f]) <==> FilterPasses(dl, db, t, r, f) by { assert [f][0] == f; }
    }
    var ty := db.columns[c].ty;
    ObjectHoldsCell(dl, db, r, c);
    CellTyped(db, ty, Key(r, c));
  }

  /** Several filters are alternatives, and no filter is no restriction. */
  lemma FiltersAreAlternatives(dl: Dialect, db: Db, t: TableId, filters: seq<Filter>, r: RowId)
    ensures filters == [] ==> Filtered(dl, db, Some(t), filters) == RowsOf(db, t)
    ensures filters != [] ==>
              (r in Filtered(dl, db, Some(t), filters) <==>
                 exists f :: f in filters && r in Filtered(dl, db, Some(t), [f]))
  {
    hide FilterPasses;
    if filters != [] {
      forall f ensures Kept(dl, db, t, r, [f]) <==> FilterPasses(dl, db, t, r, f) {
        assert [f][0] == f;
      }
    }
  }

  /** What a filter asks of the object under the key of a column; the default operation is `eq`. */
  ghost predicate HoldsOn(dl: Dialect, ty: ColumnType, o: map<string, Json>, n: string, f: Filter) {
    match ty
    case TextType =>
      if f.operation == None || f.operation == Some("eq") then f.value.Some? && StringAt(o, n) == f.value
      else if f.operation == Some("cn") then
        StringAt(o, n).Some? && f.value.Some? && dl.ilike(StringAt(o, n).value, "%" + f.value.value + "%")
      else if f.operation == Some("in") then StringAt(o, n).Some? && StringAt(o, n) in f.values
      else n in o
    case EnumType =>
      if f.operation == None || f.operation == Some("eq") then f.value.Some? && StringAt(o, n) == f.value
      else if f.operation == Some("in") then StringAt(o, n).Some? && StringAt(o, n) in f.values
      else n in o
    case BoolType =>
      && n in o
      && if f.value.None? then o[n] == Null
         else dl.castBool(f.value.value).Some? && o[n] == Bool(dl.castBool(f.value.value).value)
    case _ => true
  }

  /** The table has a column of the filter's field, in any case. */
  predicate HasField(db: Db, t: TableId, field: Option<string>, c: ColumnId) {
    && c in db.columns && db.columns[c].table == t
    && field.Some? && Lower(field.value) == Lower(db.columns[c].name)
  }

  /**
  Exactly which rows one filter keeps: all of them when no column has its field, and else those for
  which it holds on the row's object under the key of some such column.
  */
  lemma OneFilterExactly(dl: Dialect, db: Db, t: TableId, f: Filter, r: RowId)
    requires Inv(db) && r in db.rows && db.rows[r].table == t
    requires forall c :: HasField(db, t, f.field, c) ==> db.columns[c].name !in {"id", "created_at"}
    ensures r in Filtered(dl, db, Some(t), [f]) <==>
              || (forall c :: !HasField(db, t, f.field, c))
              || (exists c :: && HasField(db, t, f.field, c)
                              && HoldsOn(dl, db.columns[c].ty, RowJson(dl, db, r), db.columns[c].name, f))
  {
    hide Inv, RowJson, ColumnPasses, HoldsOn;
    assert Kept(dl, db, t, r, [f]) <==> FilterPasses(dl, db, t, r, f) by { assert [f][0] == f; }
    forall c ensures HasField(db, t, f.field, c) <==> Names(db, t, f, c) {
    }
    forall c | HasField(db, t, f.field, c)
      ensures ColumnPasses(dl, db, r, c, f)
              <==> HoldsOn(dl, db.columns[c].ty, RowJson(dl, db, r), db.columns[c].name, f)
    {
      ColumnReadsTheObject(dl, db, r, c, f);
    }
  }

  lemma ColumnReadsTheObject(dl: Dialect, db: Db, r: RowId, c: ColumnId, f: Filter)
    requires Inv(db) && r in db.rows && c in db.columns && db.columns[c].table == db.rows[r].table
    requires db.columns[c].name !in {"id", "created_at"}
    ensures ColumnPasses(dl, db, r, c, f) <==> HoldsOn(dl, db.columns[c].ty, RowJson(dl, db, r), db.columns[c].name, f)
  {
    hide Inv, RowJson;
    ObjectHoldsCell(dl, db, r, c);
    CellTyped(db, db.columns[c].ty, Key(r, c));
  }

  lemma CellTyped(db: Db, ty: ColumnType, k: Key)
    requires Inv(db)
    ensures k in db.cells.At(ty) && db.cells.At(ty)[k].Some? ==> Fits(db.cells.At(ty)[k].value, ty)
  {
    assert k in db.cells.At(ty) ==> CellOk(db, ty, k, db.cells.At(ty)[k]);
  }

  /** The row's object holds the cell of a column of its table under the column's name, and nothing else there. */
  lemma ObjectHoldsCell(dl: Dialect, db: Db, r: RowId, c: ColumnId)
    requires Inv(db) && r in db.rows && c in db.columns && db.columns[c].table == db.rows[r].table
    requires db.columns[c].name !in {"id", "created_at"}
    ensures var o, ty, n := RowJson(dl, db, r), db.columns[c].ty, db.columns[c].name;
            && (n in o <==> Key(r, c) in db.cells.At(ty))
            && (n in o ==> o[n] == Render(dl, db.cells.At(ty)[Key(r, c)]))
  {
    hide Merged, Render, Inv;
    MergedDescribes(dl, db, MERGE_ORDER, r);
    AllTypes();
    var n, ty := db.columns[c].name, db.columns[c].ty;
    if n in Merged(dl, db, MERGE_ORDER, r) {
      var tz, d :| tz in TypesIn(MERGE_ORDER) && InBucket(db, tz, r, d) && db.columns[d].name == n;
      NameDeterminesCell(db, r, c, tz, d);
    }
    if Key(r, c) in db.cells.At(ty) {
      assert InBucket(db, ty, r, c);
    }
  }

  lemma NameDeterminesCell(db: Db, r: RowId, c: ColumnId, ty: ColumnType, d: ColumnId)
    requires Inv(db) && r in db.rows && c in db.columns && db.columns[c].table == db.rows[r].table
    requires InBucket(db, ty, r, d) && db.columns[d].name == db.columns[c].name
    ensures d == c && ty == db.columns[c].ty
  {
    hide TablesOk, RowsOk;
    assert CellOk(db, ty, Key(r, d), db.cells.At(ty)[Key(r, d)]);
  }

  /** The newest row of a table, such as one just inserted, heads the first unfiltered page. */
  lemma NewestRowComesFirst(dl: Dialect, db: Db, t: TableId, r: RowId, req: Request, order: seq<RowId>)
    requires Inv(db) && r in db.rows && db.rows[r].table == t
    requires forall other <- db.rows :: other != r && db.rows[other].table == t ==>
             db.rows[other].createdAt < db.rows[r].createdAt
    requires PageNumber(req.pageNum) == 0 && Filters(req) == []
    requires IsOrder(dl, db, Some(t), [], order)
    ensures var page := SearchTable(dl, db, Some(t), req, order);
            page.Success? && page.value != [] && page.value[0] == Hit(r, RowJson(dl, db, r), |RowsOf(db, t)|)
  {
    hide Inv, RowJson;
    assert Filtered(dl, db, Some(t), []) == RowsOf(db, t);
    DistinctCount(order, RowsOf(db, t));
    assert r in RowsOf(db, t) && r in order;
    assert order[0] in RowsOf(db, t);
    assert !BadCast(dl, db, Some(t), []);
    assert PageSize(req.pageSize) * 0 == 0;
  }
}
