/**
`Handler.Search` (internal/handlers/tables/tables.go): the rows of a search page with their uuid
values resolved to labels, in two passes over the page with batched lookups in between.
*/
module SearchHandler {
  import opened Wrappers
  import opened Schema
  import opened Insertion
  import opened Isolation
  import opened Readers
  import opened Paging
  import opened Search
  import opened Labels

  /** A uuid column of the schema and its reference table. */
  datatype UuidColumn = UuidColumn(name: string, ref: Option<TableId>)

  /** A row of the page; `data` is None when it could not be decoded. */
  datatype PageRow = PageRow(data: Option<map<string, Json>>, total: nat)

  /** A value of the response: as read, or a uuid with its label if it has one. */
  datatype Content = Raw(v: Json) | Resolved(id: RowId, text: Option<string>)

  /** `uuid.Parse`. */
  type UuidParser = string -> Option<RowId>

  /** The uuid a row has under a name. */
  function UuidAt(parse: UuidParser, data: map<string, Json>, name: string): Option<RowId> {
    if name in data && data[name].Str? && data[name].s != "" then parse(data[name].s) else None
  }

  // ---------- First pass: which uuids are looked up where ----------

  ghost predicate RowAsks(
    parse: UuidParser, data: map<string, Json>, cols: seq<UuidColumn>, ref: Option<TableId>, u: RowId)
  {
    exists rc :: rc in cols && rc.ref == ref && UuidAt(parse, data, rc.name) == Some(u)
  }

  ghost predicate Asks(parse: UuidParser, rows: seq<PageRow>, cols: seq<UuidColumn>, ref: Option<TableId>, u: RowId) {
    exists row :: row in rows && row.data.Some? && RowAsks(parse, row.data.value, cols, ref, u)
  }

  /** The ids collected so far: per reference table, and those without one. */
  datatype Batches = Batches(byTable: map<TableId, seq<RowId>>, autoIds: seq<RowId>)

  predicate Collected(b: Batches, ref: Option<TableId>, u: RowId) {
    match ref
    case None => u in b.autoIds
    case Some(t) => t in b.byTable && u in b.byTable[t]
  }

  function IdsFor(b: Batches, t: TableId): seq<RowId> { if t in b.byTable then b.byTable[t] else [] }

  method CollectRow(parse: UuidParser, data: map<string, Json>, cols: seq<UuidColumn>, before: Batches)
    returns (b: Batches)
    ensures forall ref, u :: Collected(b, ref, u) <==> Collected(before, ref, u) || RowAsks(parse, data, cols, ref, u)
  {
    b := before;
    for j := 0 to |cols|
      invariant forall ref, u :: Collected(b, ref, u) <==>
                Collected(before, ref, u) || RowAsks(parse, data, cols[..j], ref, u)
    {
      ghost var sofar := b;
      assert cols[..j + 1] == cols[..j] + [cols[j]];
      var uid := UuidAt(parse, data, cols[j].name);
      if uid.Some? {
        match cols[j].ref
        case Some(t) => b := b.(byTable := b.byTable[t := IdsFor(b, t) + [uid.value]]);
        case None => b := b.(autoIds := b.autoIds + [uid.value]);
      }
      forall ref: Option<TableId>, u: RowId
        ensures Collected(b, ref, u) <==> Collected(before, ref, u) || RowAsks(parse, data, cols[..j + 1], ref, u)
      {
        assert Collected(b, ref, u) <==> Collected(sofar, ref, u) || (cols[j].ref == ref && uid == Some(u));
        OneMoreColumn(parse, data, cols, j, ref, u);
      }
    }
    assert cols[..|cols|] == cols;
  }

  lemma OneMoreColumn(
    parse: UuidParser, data: map<string, Json>, cols: seq<UuidColumn>, j: nat, ref: Option<TableId>, u: RowId)
    requires j < |cols|
    ensures RowAsks(parse, data, cols[..j + 1], ref, u)
            <==>
              || RowAsks(parse, data, cols[..j], ref, u)
              || (cols[j].ref == ref && UuidAt(parse, data, cols[j].name) == Some(u))
  {
    assert cols[..j + 1] == cols[..j] + [cols[j]];
    assert cols[j] in cols[..j + 1];
  }

  method CollectPage(parse: UuidParser, rows: seq<PageRow>, cols: seq<UuidColumn>) returns (b: Batches)
    ensures forall ref, u :: Collected(b, ref, u) <==> Asks(parse, rows, cols, ref, u)
  {
    b := Batches(map[], []);
    for i := 0 to |rows|
      invariant forall ref, u :: Collected(b, ref, u) <==> Asks(parse, rows[..i], cols, ref, u)
    {
      assert rows[..i + 1] == rows[..i] + [rows[i]];
      assert rows[i] in rows[..i + 1];
      if rows[i].data.Some? {
        b := CollectRow(parse, rows[i].data.value, cols, b);
      }
    }
    assert rows[..|rows|] == rows;
  }

  // ---------- The lookups ----------

  /** A lookup for reference table `ref` finds the row. */
  predicate Finds(db: Db, org: Org, ref: Option<TableId>, u: RowId) {
    OwnedRow(db, org, u) && (ref.None? || ref.value == db.rows[u].table)
  }

  /** Some lookup of the page finds the row. */
  ghost predicate Found(db: Db, org: Org, b: Batches, u: RowId) {
    exists ref :: Collected(b, ref, u) && Finds(db, org, ref, u)
  }

  /** The batched lookups, whatever order Go iterates `byTable` in. */
  method LookUp(db: Db, org: Org, b: Batches, sorted: seq<ColumnId>) returns (cache: map<RowId, string>)
    requires SortedLabelColumns(db, sorted)
    ensures forall u :: u in cache <==> Found(db, org, b, u)
    ensures forall u <- cache :: cache[u] == BatchText(GetRowLabelAuto(db, org, u))
  {
    cache := map[];
    var remaining := b.byTable.Keys;
    while remaining != {}
      invariant remaining <= b.byTable.Keys
      invariant forall u :: u in cache <==>
                  exists t :: t in b.byTable.Keys - remaining && Collected(b, Some(t), u) && Finds(db, org, Some(t), u)
      invariant forall u <- cache :: cache[u] == BatchText(GetRowLabelAuto(db, org, u))
      decreases remaining
    {
      var t :| t in remaining;
      ghost var sofar, done := cache, b.byTable.Keys - remaining;
      if b.byTable[t] != [] {
        var found := BatchGetRowLabels(db, org, t, b.byTable[t]);
        cache := cache + found;
      }
      remaining := remaining - {t};
      assert b.byTable.Keys - remaining == done + {t};
      forall u ensures u in cache <==> u in sofar || (Collected(b, Some(t), u) && Finds(db, org, Some(t), u)) {
      }
    }
    ghost var typed := cache;
    if |b.autoIds| > 0 {
      var found := BatchGetRowLabelsAuto(db, org, b.autoIds, sorted);
      cache := cache + found;
    }
    forall u ensures u in cache <==> Found(db, org, b, u) {
      assert u in cache <==> u in typed || (Collected(b, None, u) && Finds(db, org, None, u));
      if u in typed {
        var t :| t in b.byTable && Collected(b, Some(t), u) && Finds(db, org, Some(t), u);
      }
      if ref :| Collected(b, ref, u) && Finds(db, org, ref, u) {
        assert ref.Some? ==> ref == Some(ref.value);
      }
    }
  }

  // ---------- Second pass ----------

  /** A label is shown unless it is missing or empty. */
  function Shown(cache: map<RowId, string>, u: RowId): Option<string> {
    if u in cache && cache[u] != "" then Some(cache[u]) else None
  }

  predicate IsUuidName(cols: seq<UuidColumn>, n: string) { exists rc :: rc in cols && rc.name == n }

  function ContentAt(
    parse: UuidParser, cols: seq<UuidColumn>, cache: map<RowId, string>, data: map<string, Json>, n: string): Content
    requires n in data
  {
    var uid := UuidAt(parse, data, n);
    if IsUuidName(cols, n) && uid.Some? then Resolved(uid.value, Shown(cache, uid.value)) else Raw(data[n])
  }

  function ContentOf(
    parse: UuidParser, cols: seq<UuidColumn>, cache: map<RowId, string>, data: map<string, Json>): map<string, Content>
  {
    map n | n in data :: ContentAt(parse, cols, cache, data, n)
  }

  lemma OneMoreName(cols: seq<UuidColumn>, j: nat)
    requires j < |cols|
    ensures forall n :: IsUuidName(cols[..j + 1], n) <==> IsUuidName(cols[..j], n) || n == cols[j].name
  {
    assert cols[..j + 1] == cols[..j] + [cols[j]];
    assert cols[j] in cols[..j + 1];
    forall n ensures IsUuidName(cols[..j + 1], n) <==> IsUuidName(cols[..j], n) || n == cols[j].name {
      if rc :| rc in cols[..j] && rc.name == n { assert rc in cols[..j + 1]; }
    }
  }

  /** Resolving one more column touches that column's name only, and only if it still holds a uuid string. */
  lemma ContentOneMore(
    parse: UuidParser, cols: seq<UuidColumn>, cache: map<RowId, string>, data: map<string, Json>, j: nat)
    requires j < |cols|
    ensures var m, n := ContentOf(parse, cols[..j], cache, data), cols[j].name;
            ContentOf(parse, cols[..j + 1], cache, data) ==
              match UuidAt(parse, data, n)
              case None => m
              case Some(u) => m[n := Resolved(u, Shown(cache, u))]
  {
    hide UuidAt, Shown, IsUuidName;
    OneMoreName(cols, j);
    NameIsInData(parse, data, cols[j].name);
  }

  lemma NameIsInData(parse: UuidParser, data: map<string, Json>, n: string)
    ensures UuidAt(parse, data, n).Some? ==> n in data
  {
  }

  method ResolveRow(parse: UuidParser, cols: seq<UuidColumn>, cache: map<RowId, string>, data: map<string, Json>)
    returns (m: map<string, Content>)
    ensures m == ContentOf(parse, cols, cache, data)
  {
    m := map n | n in data :: Raw(data[n]);
    assert m == ContentOf(parse, cols[..0], cache, data);
    for j := 0 to |cols|
      invariant m == ContentOf(parse, cols[..j], cache, data)
    {
      var n := cols[j].name;
      ContentOneMore(parse, cols, cache, data, j);
      if n in m && m[n].Raw? && m[n].v.Str? && m[n].v.s != "" {
        var uid := parse(m[n].v.s);
        if uid.Some? {
          m := m[n := Resolved(uid.value, Shown(cache, uid.value))];
        }
      }
    }
    assert cols[..|cols|] == cols;
  }

  /** The labels the page's lookups leave in the cache. */
  ghost predicate CacheOf(
    db: Db, org: Org, parse: UuidParser, cols: seq<UuidColumn>, rows: seq<PageRow>, cache: map<RowId, string>)
  {
    && (forall u :: u in cache <==> exists ref :: Asks(parse, rows, cols, ref, u) && Finds(db, org, ref, u))
    && (forall u <- cache :: cache[u] == BatchText(GetRowLabelAuto(db, org, u)))
  }

  /** The handler, from the schema and the page to the response. */
  method Respond(db: Db, org: Org, parse: UuidParser, cols: seq<UuidColumn>, rows: seq<PageRow>, sorted: seq<ColumnId>)
    returns (contents: seq<map<string, Content>>, totalCount: nat, ghost cache: map<RowId, string>)
    requires SortedLabelColumns(db, sorted)
    ensures CacheOf(db, org, parse, cols, rows, cache)
    ensures |contents| == |rows|
    ensures forall i :: 0 <= i < |rows| ==>
              contents[i] == if rows[i].data.None? then map[] else ContentOf(parse, cols, cache, rows[i].data.value)
    ensures totalCount == if rows == [] then 0 else rows[0].total
  {
    var batches := CollectPage(parse, rows, cols);
    var labels := LookUp(db, org, batches, sorted);
    cache := labels;
    contents, totalCount := [], 0;
    for i := 0 to |rows|
      invariant |contents| == i
      invariant forall j :: 0 <= j < i ==>
                  contents[j] == if rows[j].data.None? then map[] else ContentOf(parse, cols, cache, rows[j].data.value)
      invariant totalCount == if i == 0 then 0 else rows[0].total
    {
      if i == 0 { totalCount := rows[i].total; }
      if rows[i].data.None? {
        contents := contents + [map[]];
      } else {
        var m := ResolveRow(parse, cols, labels, rows[i].data.value);
        contents := contents + [m];
      }
    }
  }

  /** The label the page's lookups give a row: that of any lookup that finds it. */
  ghost function PageLabel(
    db: Db, org: Org, parse: UuidParser, cols: seq<UuidColumn>, rows: seq<PageRow>, u: RowId): Option<string>
  {
    if exists ref :: Asks(parse, rows, cols, ref, u) && Finds(db, org, ref, u) then
      var text := BatchText(GetRowLabelAuto(db, org, u));
      if text == "" then None else Some(text)
    else None
  }

  lemma CacheShowsPageLabels(
    db: Db, org: Org, parse: UuidParser, cols: seq<UuidColumn>, rows: seq<PageRow>, cache: map<RowId, string>, u: RowId)
    requires CacheOf(db, org, parse, cols, rows, cache)
    ensures Shown(cache, u) == PageLabel(db, org, parse, cols, rows, u)
  {
    hide Asks, Finds;
  }

  // ---------- Batched against one by one ----------

  /** The one-row query for a cell: GetRowLabel for a reference table, GetRowLabelAuto without one. */
  function SingleLabel(db: Db, org: Org, ref: Option<TableId>, u: RowId): Option<string> {
    match ref
    case None => GetRowLabelAuto(db, org, u)
    case Some(t) => GetRowLabel(db, org, t, u)
  }

  /** What the cell's own batched lookup would show: a NULL label shows as the text `null`. */
  function OwnLabel(db: Db, org: Org, ref: Option<TableId>, u: RowId): Option<string> {
    if !Finds(db, org, ref, u) then None
    else
      var text := BatchText(SingleLabel(db, org, ref, u));
      if text == "" then None else Some(text)
  }

  /** The label as a caller of the one-row methods shows it: their string, unless it is empty. */
  function SingleShown(db: Db, org: Org, ref: Option<TableId>, u: RowId): Option<string> {
    var text := SingleText(SingleLabel(db, org, ref, u));
    if text == "" then None else Some(text)
  }

  /**
  A batched lookup shows what the one-row method would, exactly unless it finds the row and the
  row's label is NULL: then it shows the text `null` where the one-row method shows nothing.
  */
  lemma OwnLabelExactly(db: Db, org: Org, ref: Option<TableId>, u: RowId)
    ensures OwnLabel(db, org, ref, u) == SingleShown(db, org, ref, u)
            <==> SingleLabel(db, org, ref, u).Some? || !Finds(db, org, ref, u)
    ensures SingleLabel(db, org, ref, u).None? && Finds(db, org, ref, u)
            ==> OwnLabel(db, org, ref, u) == Some("null") && SingleShown(db, org, ref, u) == None
  {
  }

  /** A row found in a table without a text or enum column is shown with the label `null`. */
  lemma UnlabelledTableShowsNull(db: Db, org: Org, ref: Option<TableId>, u: RowId)
    requires Finds(db, org, ref, u)
    requires forall c <- db.columns :: db.columns[c].table == db.rows[u].table ==>
             db.columns[c].ty !in {TextType, EnumType}
    ensures OwnLabel(db, org, ref, u) == Some("null") && SingleShown(db, org, ref, u) == None
  {
    hide LabelColumn;
    LabelColumnExactly(db, db.rows[u].table);
    OwnLabelExactly(db, org, ref, u);
  }

  /**
  The shared cache shows a cell what its own lookup would, exactly unless its own lookup misses a
  row that another cell of the page finds, and that row's label is one that is shown.
  */
  lemma CacheAgreesExactly(
    db: Db, org: Org, parse: UuidParser, cols: seq<UuidColumn>, rows: seq<PageRow>, cache: map<RowId, string>,
    ref: Option<TableId>, u: RowId)
    requires CacheOf(db, org, parse, cols, rows, cache) && Asks(parse, rows, cols, ref, u)
    ensures Shown(cache, u) == OwnLabel(db, org, ref, u) <==>
              || Finds(db, org, ref, u)
              || (forall other :: Asks(parse, rows, cols, other, u) ==> !Finds(db, org, other, u))
              || GetRowLabelAuto(db, org, u) == Some("")
  {
    if Finds(db, org, ref, u) {
      assert u in cache;
      if ref.Some? { TypedAndAutoAgree(db, org, ref.value, u); }
    }
  }

  /** A row's label is the string its object has under the name of its table's label column. */
  lemma LabelIsPartOfTheObject(dl: Dialect, db: Db, org: Org, r: RowId, c: ColumnId)
    requires Inv(db) && OwnedRow(db, org, r) && LabelColumn(db, db.rows[r].table) == Some(c)
    requires c in db.columns && db.columns[c].name !in {"id", "created_at"}
    ensures GetRowLabelAuto(db, org, r) == StringAt(RowJson(dl, db, r), db.columns[c].name)
  {
    hide Inv, RowJson, LabelColumn;
    LabelColumnExactly(db, db.rows[r].table);
    ObjectHoldsCell(dl, db, r, c);
    var ty, other := db.columns[c].ty, if db.columns[c].ty == TextType then EnumType else TextType;
    CellTyped(db, ty, Key(r, c));
    assert Key(r, c) !in db.cells.At(other) by {
      if Key(r, c) in db.cells.At(other) { CellHasColumnType(db, other, Key(r, c)); }
    }
  }

  lemma CellHasColumnType(db: Db, ty: ColumnType, k: Key)
    requires Inv(db) && k in db.cells.At(ty)
    ensures k.col in db.columns && db.columns[k.col].ty == ty
  {
    assert CellOk(db, ty, k, db.cells.At(ty)[k]);
  }

  /** The uuid columns of a table, as GetUserTableSchema lists them. */
  ghost predicate IsSchemaOf(db: Db, t: TableId, cols: seq<UuidColumn>) {
    forall rc :: rc in cols <==>
      exists c :: c in db.columns && db.columns[c].table == t && db.columns[c].ty == UuidType
                  && rc == UuidColumn(db.columns[c].name, db.columns[c].refTable)
  }

  /** Every uuid column of the table with a reference table is an enforced reference. */
  ghost predicate ReferencesEnforced(db: Db, t: TableId) {
    forall c <- db.columns :: db.columns[c].table == t && db.columns[c].ty == UuidType && db.columns[c].refTable.Some?
                              ==> db.columns[c].isReference
  }

  /**
  In a sound store, when every reference column is enforced, each uuid cell on a page is shown
  with the label that its own one-row lookup gives, whatever else is on the page.
  */
  lemma CellsShownAsLookedUp(
    dl: Dialect, db: Db, org: Org, t: TableId, parse: UuidParser, cols: seq<UuidColumn>, rows: seq<PageRow>,
    cache: map<RowId, string>, r: RowId, c: ColumnId, u: RowId, total: nat)
    requires Inv(db) && ReferencesEnforced(db, t) && IsSchemaOf(db, t, cols)
    requires parse(dl.showUuid(u)) == Some(u) && dl.showUuid(u) != ""
    requires CacheOf(db, org, parse, cols, rows, cache)
    requires r in db.rows && db.rows[r].table == t && PageRow(Some(RowJson(dl, db, r)), total) in rows
    requires c in db.columns && db.columns[c].table == t && db.columns[c].ty == UuidType
    requires db.columns[c].name !in {"id", "created_at"}
    requires Key(r, c) in db.cells.uuids && db.cells.uuids[Key(r, c)] == Some(UuidValue(u))
    ensures var content, n := ContentOf(parse, cols, cache, RowJson(dl, db, r)), db.columns[c].name;
            n in content && content[n] == Resolved(u, OwnLabel(db, org, db.columns[c].refTable, u))
  {
    hide Inv, RowJson;
    var data, n, ref := RowJson(dl, db, r), db.columns[c].name, db.columns[c].refTable;
    ObjectHoldsCell(dl, db, r, c);
    assert db.cells.At(UuidType) == db.cells.uuids;
    assert UuidAt(parse, data, n) == Some(u);
    var rc := UuidColumn(n, ref);
    assert rc in cols;
    assert RowAsks(parse, data, cols, ref, u);
    assert Asks(parse, rows, cols, ref, u) by { assert PageRow(Some(data), total).data.value == data; }
    ReferenceTargetTable(db, t, r, c, u);
    CacheAgreesExactly(db, org, parse, cols, rows, cache, ref, u);
  }

  lemma ReferenceTargetTable(db: Db, t: TableId, r: RowId, c: ColumnId, u: RowId)
    requires Inv(db) && ReferencesEnforced(db, t)
    requires c in db.columns && db.columns[c].table == t && db.columns[c].ty == UuidType
    requires Key(r, c) in db.cells.uuids && db.cells.uuids[Key(r, c)] == Some(UuidValue(u))
    ensures u in db.rows && (db.columns[c].refTable.Some? ==> db.rows[u].table == db.columns[c].refTable.value)
  {
    assert CellOk(db, UuidType, Key(r, c), db.cells.At(UuidType)[Key(r, c)]);
  }

  // ---------- The endpoint ----------

  /**
  The schema is looked up with the global fallback and the rows without it, yet they come from the
  same table: when the search resolves a table the schema is that table's, and otherwise there are
  no rows.
  */
  lemma SchemaIsOfTheSearchedTable(
    dl: Dialect, db: Db, org: Org, name: string, searched: Option<TableId>, described: Option<TableId>,
    filters: seq<Filter>)
    requires TablesOk(db)
    requires Picks(Candidates(db, org, name, false), searched) && Picks(Candidates(db, org, name, true), described)
    ensures searched.Some? ==> described == searched
    ensures searched.None? ==> Filtered(dl, db, searched, filters) == {}
  {
    if searched.Some? {
      assert searched.value in Candidates(db, org, name, true);
      ResolutionIsUnambiguous(db, org, name, true, searched.value, described.value);
    }
  }

  /** The decoded rows of a page. */
  function PageRows(page: seq<Hit>): seq<PageRow> {
    seq(|page|, i requires 0 <= i < |page| => PageRow(Some(page[i].data), page[i].total))
  }

  /** The cell of row `r` in uuid column `c` of table `t` holds `u`, under a name the metadata leaves alone. */
  predicate HoldsUuid(db: Db, t: TableId, r: RowId, c: ColumnId, u: RowId) {
    && c in db.columns && db.columns[c].table == t && db.columns[c].ty == UuidType
    && db.columns[c].name !in {"id", "created_at"}
    && Key(r, c) in db.cells.uuids && db.cells.uuids[Key(r, c)] == Some(UuidValue(u))
  }

  /** `uuid.Parse` reads what the database writes for a uuid. */
  ghost predicate ParsesUuids(dl: Dialect, parse: UuidParser) {
    forall u: RowId :: parse(dl.showUuid(u)) == Some(u) && dl.showUuid(u) != ""
  }

  /** Every hit of a page is a row of the table, with its object and the filtered count. */
  lemma PageHolds(dl: Dialect, db: Db, t: TableId, req: Request, order: seq<RowId>, page: seq<Hit>, i: nat)
    requires Inv(db) && IsOrder(dl, db, Some(t), Filters(req), order)
    requires SearchTable(dl, db, Some(t), req, order) == Success(page) && i < |page|
    ensures page[i].row in db.rows && db.rows[page[i].row].table == t
    ensures page[i].data == RowJson(dl, db, page[i].row) && page[i].total == |Filtered(dl, db, Some(t), Filters(req))|
  {
    hide Inv, RowJson, Kept, BadCast;
    DistinctCount(order, Filtered(dl, db, Some(t), Filters(req)));
    var size, number := PageSize(req.pageSize), PageNumber(req.pageNum);
    assert page[i] == Hits(dl, db, order)[size * number + i];
    assert order[size * number + i] in Filtered(dl, db, Some(t), Filters(req));
  }

  /** The cell of column `c` in the response shows `u` with the label of its own lookup. */
  ghost predicate ShowsOwnLabel(db: Db, org: Org, content: map<string, Content>, c: ColumnId, u: RowId) {
    && c in db.columns && db.columns[c].name in content
    && content[db.columns[c].name] == Resolved(u, OwnLabel(db, org, db.columns[c].refTable, u))
  }

  /**
  What the response holds under `n` for an object `data` of the page: under a uuid column's name a
  uuid is shown with the label the page's lookups give it; all else, a NULL uuid cell included, is as
  in the object.
  */
  ghost predicate ShowsKey(
    db: Db, org: Org, parse: UuidParser, cols: seq<UuidColumn>, rows: seq<PageRow>, data: map<string, Json>,
    content: map<string, Content>, n: string)
  {
    && n in data && n in content
    && var uuid := if IsUuidName(cols, n) && data[n].Str? && data[n].s != "" then parse(data[n].s) else None;
       content[n] ==
         if uuid.Some? then Resolved(uuid.value, PageLabel(db, org, parse, cols, rows, uuid.value)) else Raw(data[n])
  }

  lemma ContentShowsKey(
    db: Db, org: Org, parse: UuidParser, cols: seq<UuidColumn>, rows: seq<PageRow>, cache: map<RowId, string>,
    data: map<string, Json>, n: string)
    requires CacheOf(db, org, parse, cols, rows, cache) && n in data
    ensures ShowsKey(db, org, parse, cols, rows, data, ContentOf(parse, cols, cache, data), n)
  {
    hide CacheOf, Shown, PageLabel, IsUuidName;
    if UuidAt(parse, data, n).Some? {
      CacheShowsPageLabels(db, org, parse, cols, rows, cache, UuidAt(parse, data, n).value);
    }
  }

  /** The name `id` always holds the row's own id, so a uuid column of that name shows the row itself. */
  lemma IdIsTheRow(dl: Dialect, db: Db, parse: UuidParser, r: RowId)
    requires Inv(db) && r in db.rows && ParsesUuids(dl, parse)
    ensures UuidAt(parse, RowJson(dl, db, r), "id") == Some(r)
  {
    hide Inv, Merged;
  }

  /**
  The search endpoint for a table the org has resolved: every key of every row of the page, with
  uuids labelled as the page's lookups label them. With enforced references a uuid cell has its own
  lookup's label, and a uuid column named `id` always shows the row's id. The total is the size of
  the filtered set.
  */
  method HandleSearch(
    dl: Dialect, db: Db, org: Org, t: TableId, req: Request, ghost order: seq<RowId>, page: seq<Hit>,
    parse: UuidParser, cols: seq<UuidColumn>, sorted: seq<ColumnId>)
    returns (contents: seq<map<string, Content>>, totalCount: nat)
    requires Inv(db) && ParsesUuids(dl, parse)
    requires IsOrder(dl, db, Some(t), Filters(req), order) && SearchTable(dl, db, Some(t), req, order) == Success(page)
    requires IsSchemaOf(db, t, cols) && SortedLabelColumns(db, sorted)
    ensures |contents| == |page|
    ensures forall i :: 0 <= i < |page| ==> contents[i].Keys == RowJson(dl, db, page[i].row).Keys
    ensures forall i, n :: 0 <= i < |page| && n in contents[i] ==>
              ShowsKey(db, org, parse, cols, PageRows(page), RowJson(dl, db, page[i].row), contents[i], n)
    ensures ReferencesEnforced(db, t) ==>
              forall i, c: ColumnId, u: RowId :: 0 <= i < |page| && HoldsUuid(db, t, page[i].row, c, u) ==>
                ShowsOwnLabel(db, org, contents[i], c, u)
    ensures forall i :: 0 <= i < |page| && IsUuidName(cols, "id") ==>
              && "id" in contents[i]
              && contents[i]["id"]
                 == Resolved(page[i].row, PageLabel(db, org, parse, cols, PageRows(page), page[i].row))
    ensures totalCount == if page == [] then 0 else |Filtered(dl, db, Some(t), Filters(req))|
  {
    hide Inv, RowJson, IsOrder, SearchTable, CacheOf, IsSchemaOf, ReferencesEnforced, SortedLabelColumns;
    hide ShowsKey, PageLabel, HoldsUuid, ShowsOwnLabel, IsUuidName, UuidAt, ParsesUuids, Filtered;
    var rows := PageRows(page);
    ghost var cache;
    contents, totalCount, cache := Respond(db, org, parse, cols, rows, sorted);
    forall i | 0 <= i < |page|
      ensures page[i].row in db.rows && db.rows[page[i].row].table == t
      ensures page[i].data == RowJson(dl, db, page[i].row) && page[i].total == |Filtered(dl, db, Some(t), Filters(req))|
    {
      PageHolds(dl, db, t, req, order, page, i);
    }
    forall i, n | 0 <= i < |page| && n in contents[i]
      ensures ShowsKey(db, org, parse, cols, rows, RowJson(dl, db, page[i].row), contents[i], n)
    {
      ContentShowsKey(db, org, parse, cols, rows, cache, page[i].data, n);
    }
    forall i | 0 <= i < |page| && IsUuidName(cols, "id")
      ensures "id" in contents[i]
      ensures contents[i]["id"] == Resolved(page[i].row, PageLabel(db, org, parse, cols, rows, page[i].row))
    {
      IdIsTheRow(dl, db, parse, page[i].row);
      IdIsShown(db, org, parse, cols, rows, cache, page[i].data, page[i].row);
    }
    forall i, c: ColumnId, u: RowId | ReferencesEnforced(db, t) && 0 <= i < |page|
           && HoldsUuid(db, t, page[i].row, c, u)
      ensures ShowsOwnLabel(db, org, contents[i], c, u)
    {
      assert rows[i] == PageRow(Some(RowJson(dl, db, page[i].row)), page[i].total);
      CellIsShown(dl, db, org, t, parse, cols, rows, cache, page[i].row, c, u, page[i].total);
    }
  }

  lemma IdIsShown(
    db: Db, org: Org, parse: UuidParser, cols: seq<UuidColumn>, rows: seq<PageRow>, cache: map<RowId, string>,
    data: map<string, Json>, r: RowId)
    requires CacheOf(db, org, parse, cols, rows, cache) && IsUuidName(cols, "id")
             && UuidAt(parse, data, "id") == Some(r)
    ensures "id" in data
    ensures ContentOf(parse, cols, cache, data)["id"] == Resolved(r, PageLabel(db, org, parse, cols, rows, r))
  {
    hide CacheOf, PageLabel, IsUuidName;
    ContentShowsKey(db, org, parse, cols, rows, cache, data, "id");
  }

  lemma CellIsShown(
    dl: Dialect, db: Db, org: Org, t: TableId, parse: UuidParser, cols: seq<UuidColumn>, rows: seq<PageRow>,
    cache: map<RowId, string>, r: RowId, c: ColumnId, u: RowId, total: nat)
    requires Inv(db) && ReferencesEnforced(db, t) && IsSchemaOf(db, t, cols) && ParsesUuids(dl, parse)
    requires CacheOf(db, org, parse, cols, rows, cache)
    requires r in db.rows && db.rows[r].table == t && PageRow(Some(RowJson(dl, db, r)), total) in rows
    requires HoldsUuid(db, t, r, c, u)
    ensures ShowsOwnLabel(db, org, ContentOf(parse, cols, cache, RowJson(dl, db, r)), c, u)
  {
    hide Inv, RowJson, CacheOf, IsSchemaOf, ReferencesEnforced, ContentOf;
    CellsShownAsLookedUp(dl, db, org, t, parse, cols, rows, cache, r, c, u, total);
  }
}
