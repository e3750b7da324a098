/**
A run after which the search handler labels a cell that its own lookup does not label: table `a` has
a uuid column `p` that names table `b` without being enforced, and a uuid column `q` without a table.
A row of `a` has the id of a row of `c` under both. The lookup for `q` finds that row, and the cache
is shared.
*/
module SharedCache {
  import opened Wrappers
  import opened Naming
  import opened Schema
  import opened Insertion
  import opened Operations
  import opened Readers
  import opened Search
  import opened Paging
  import opened Labels
  import opened SearchHandler

  const A: TableId := 0
  const B: TableId := 1
  const C: TableId := 2
  const N: ColumnId := 0
  const P: ColumnId := 1
  const Q: ColumnId := 2

  function Plain(name: string, ty: string, table: string): ColumnInput {
    ColumnInput(name, ty, false, false, [], false, table, false)
  }

  function NamedRow(): Payload { Object(map["n" := Str("hi")]) }

  function PointingRow(dl: Dialect): Payload { Object(map["p" := Str(dl.showUuid(0)), "q" := Str(dl.showUuid(0))]) }

  function SchemaCalls(org: Org): seq<Call> {
    [CreateTable(org, "a", 0), CreateTable(org, "b", 0), CreateTable(org, "c", 0),
     AddColumn(org, "c", Plain("n", "text", ""), Some(C), None),
     AddColumn(org, "a", Plain("p", "uuid", "b"), Some(A), Some(B)),
     AddColumn(org, "a", Plain("q", "uuid", ""), Some(A), None)]
  }

  function FirstInsertion(org: Org): Call { InsertRow(org, "c", NamedRow(), Some(C), 0, 0) }

  function SecondInsertion(dl: Dialect, org: Org): Call { InsertRow(org, "a", PointingRow(dl), Some(A), 1, 0) }

  function Calls(dl: Dialect, org: Org): seq<Call> {
    SchemaCalls(org) + [FirstInsertion(org)] + [SecondInsertion(dl, org)]
  }

  // ---------- The tables and columns ----------

  function OwnTable(org: Org, name: string): Table { Table(Some(org), name, name, 0) }

  function Tables(org: Org): map<TableId, Table> {
    map[A := OwnTable(org, "a"), B := OwnTable(org, "b"), C := OwnTable(org, "c")]
  }

  function PlainColumn(t: TableId, name: string, ty: ColumnType, ref: Option<TableId>): Column {
    Column(t, name, ty, false, false, None, false, ref, false)
  }

  const COLUMN_N: Column := PlainColumn(C, "n", TextType, None)
  const COLUMN_P: Column := PlainColumn(A, "p", UuidType, Some(B))
  const COLUMN_Q: Column := PlainColumn(A, "q", UuidType, None)

  function WithColumns(org: Org, columns: seq<Column>): Db {
    EMPTY.(tables := Tables(org), nextTable := 3,
           columns := map c: ColumnId | c < |columns| :: columns[c], nextColumn := |columns|)
  }

  lemma OneLetter(c: char)
    requires 'a' <= c <= 'z'
    ensures Lower([c]) == Slug([c]) == ColumnName([c]) == [c]
  {
    assert Lower([c]) == [c];
    assert Collapse([c], SlugChar, '-', false) == [c] + Collapse([], SlugChar, '-', false);
    assert Collapse([c], ColumnChar, '_', false) == [c] + Collapse([], ColumnChar, '_', false);
    assert TrimLeft([c], '-') == [c] == TrimRight([c], '-');
    assert TrimLeft([c], '_') == [c] == TrimRight([c], '_');
  }

  lemma {:induction false} RunOneMore(dl: Dialect, db: Db, calls: seq<Call>, call: Call)
    ensures Run(dl, db, calls + [call]) == Apply(dl, Run(dl, db, calls), call)
    decreases |calls|
  {
    hide Apply;
    if calls == [] {
      assert [call][1..] == [];
    } else {
      RunOneMore(dl, Apply(dl, db, calls[0]), calls[1..], call);
      assert (calls + [call])[1..] == calls[1..] + [call];
    }
  }

  lemma TableStep(dl: Dialect, db: Db, org: Org, letter: char)
    requires Inv(db) && 'a' <= letter <= 'z' && forall t <- db.tables :: db.tables[t].slug != [letter]
    ensures Apply(dl, db, CreateTable(org, [letter], 0)) == WithTable(db, OwnTable(org, [letter]))
  {
    OneLetter(letter);
    CreateNeverHitsNameIndex(db, org, [letter], 0);
  }

  lemma TablesAreCreated(dl: Dialect, org: Org)
    ensures Run(dl, EMPTY, SchemaCalls(org)[..3]) == WithColumns(org, [])
  {
    hide Apply, Run, Inv;
    var one := WithTable(EMPTY, OwnTable(org, "a"));
    var two := WithTable(one, OwnTable(org, "b"));
    var calls := SchemaCalls(org);
    assert Run(dl, EMPTY, []) == EMPTY by { RunsNothing(dl, EMPTY); }
    Step(dl, EMPTY, calls, 0, EMPTY);
    ReachableStatesAreSound(dl, calls[..0]);
    TableStep(dl, EMPTY, org, 'a');
    Step(dl, EMPTY, calls, 1, one);
    ReachableStatesAreSound(dl, calls[..1]);
    TableStep(dl, one, org, 'b');
    Step(dl, EMPTY, calls, 2, two);
    ReachableStatesAreSound(dl, calls[..2]);
    TableStep(dl, two, org, 'c');
  }

  lemma RunsNothing(dl: Dialect, db: Db)
    ensures Run(dl, db, []) == db
  {
  }

  lemma Step(dl: Dialect, db: Db, calls: seq<Call>, k: nat, db': Db)
    requires k < |calls| && Run(dl, db, calls[..k]) == db'
    ensures Run(dl, db, calls[..k + 1]) == Apply(dl, db', calls[k])
  {
    assert calls[..k + 1] == calls[..k] + [calls[k]];
    RunOneMore(dl, db, calls[..k], calls[k]);
  }

  lemma FindsTable(db: Db, org: Org, t: TableId, letter: char)
    requires TablesOk(db) && 'a' <= letter <= 'z' && t in db.tables && db.tables[t] == OwnTable(org, [letter])
    ensures Candidates(db, org, [letter], true) == {t}
  {
    OneLetter(letter);
    OwnTableIsFound(db, org, t, [letter], true);
  }

  lemma ColumnsAreAdded(dl: Dialect, org: Org)
    ensures Run(dl, EMPTY, SchemaCalls(org)) == WithColumns(org, [COLUMN_N, COLUMN_P, COLUMN_Q])
  {
    hide Apply, Run, Inv, AddNamedColumn, Candidates;
    var calls := SchemaCalls(org);
    TablesAreCreated(dl, org);
    Step(dl, EMPTY, calls, 3, WithColumns(org, []));
    ColumnStep(dl, org, [], calls[3], COLUMN_N, 'n', 'c');
    Step(dl, EMPTY, calls, 4, WithColumns(org, [COLUMN_N]));
    ColumnStep(dl, org, [COLUMN_N], calls[4], COLUMN_P, 'p', 'a');
    Step(dl, EMPTY, calls, 5, WithColumns(org, [COLUMN_N, COLUMN_P]));
    ColumnStep(dl, org, [COLUMN_N, COLUMN_P], calls[5], COLUMN_Q, 'q', 'a');
    assert calls[..6] == calls;
  }

  lemma ColumnStep(dl: Dialect, org: Org, columns: seq<Column>, call: Call, col: Column, letter: char, table: char)
    requires 'a' <= letter <= 'z' && 'a' <= table <= 'z' && col.table in Tables(org)
    requires Tables(org)[col.table] == OwnTable(org, [table])
    requires forall d <- columns :: d.name != [letter]
    requires col == PlainColumn(col.table, [letter], col.ty, col.refTable) && col.ty in {TextType, UuidType}
    requires var ty, ref := if col.ty == TextType then "text" else "uuid", if col.refTable == Some(B) then "b" else "";
             call == AddColumn(org, [table], Plain([letter], ty, ref), Some(col.table), col.refTable)
    requires col.refTable.Some? ==> col.refTable == Some(B)
    ensures Apply(dl, WithColumns(org, columns), call) == WithColumns(org, columns + [col])
  {
    hide Candidates, Picks, AddNamedColumn, WithColumns, OwnTable, PlainColumn, Tables;
    TablesAreFound(org, columns, col.table, table);
    TablesAreFound(org, columns, B, 'b') by { assert Tables(org)[B] == OwnTable(org, "b") by { TableB(org); } }
    ColumnIsNew(org, columns, call.input, col, letter);
  }

  lemma TableB(org: Org)
    ensures B in Tables(org) && Tables(org)[B] == OwnTable(org, "b")
  {
  }

  lemma ColumnIsNew(org: Org, columns: seq<Column>, input: ColumnInput, col: Column, letter: char)
    requires 'a' <= letter <= 'z' && forall d <- columns :: d.name != [letter]
    requires col == PlainColumn(col.table, [letter], col.ty, col.refTable) && col.ty in {TextType, UuidType}
    requires input == Plain([letter], if col.ty == TextType then "text" else "uuid", input.referenceTable)
    ensures AddNamedColumn(WithColumns(org, columns), input, Some(col.table), col.refTable)
            == Success(WithColumns(org, columns + [col]))
  {
    OneLetter(letter);
    ColumnAppended(org, columns, col);
    assert forall c :: !HasName(WithColumns(org, columns), col.table, [letter], c);
  }

  lemma TablesAreFound(org: Org, columns: seq<Column>, t: TableId, letter: char)
    requires 'a' <= letter <= 'z' && t in Tables(org) && Tables(org)[t] == OwnTable(org, [letter])
    ensures Picks(Candidates(WithColumns(org, columns), org, [letter], true), Some(t))
  {
    hide Candidates;
    var db := WithColumns(org, columns);
    assert TablesOk(db) by { OneLetter('a'); OneLetter('b'); OneLetter('c'); }
    FindsTable(db, org, t, letter);
  }

  lemma ColumnAppended(org: Org, columns: seq<Column>, col: Column)
    ensures WithColumn(WithColumns(org, columns), col) == WithColumns(org, columns + [col])
  {
  }

  // ---------- The rows ----------

  const COLUMNS: seq<Column> := [COLUMN_N, COLUMN_P, COLUMN_Q]

  ghost function WithNamed(dl: Dialect, org: Org): Db { Inserted(dl, WithColumns(org, COLUMNS), C, 0, 0, NamedRow()) }

  ghost function WithBoth(dl: Dialect, org: Org): Db { Inserted(dl, WithNamed(dl, org), A, 1, 0, PointingRow(dl)) }

  lemma NamedRowAccepted(dl: Dialect, org: Org)
    requires Inv(WithColumns(org, COLUMNS))
    ensures Accepts(dl, WithColumns(org, COLUMNS), Some(C), 0, 0, NamedRow())
  {
    hide Inv, Placed;
    var db := WithColumns(org, COLUMNS);
    var db1 := WithRow(db, C, 0, 0);
    assert HasName(db1, C, "n", N) && CellFor(dl, db1, 0, N, Str("hi")) == Success(Some(TextValue("hi")));
    assert KeysAccepted(dl, db1, C, 0, NamedRow().fields);
    RequiredCheckExactly(dl, db, C, 0, 0, NamedRow());
  }

  lemma PointingRowAccepted(dl: Dialect, org: Org)
    requires Inv(WithNamed(dl, org)) && dl.castUuid(dl.showUuid(0)) == Some(0)
    ensures Accepts(dl, WithNamed(dl, org), Some(A), 1, 0, PointingRow(dl))
  {
    hide Inv, Placed;
    var db := WithNamed(dl, org);
    var db1 := WithRow(db, A, 1, 0);
    assert db1.columns == WithColumns(org, COLUMNS).columns;
    assert HasName(db1, A, "p", P) && HasName(db1, A, "q", Q);
    assert CellFor(dl, db1, 1, P, Str(dl.showUuid(0))) == Success(Some(UuidValue(0)));
    assert CellFor(dl, db1, 1, Q, Str(dl.showUuid(0))) == Success(Some(UuidValue(0)));
    RequiredCheckExactly(dl, db, A, 1, 0, PointingRow(dl));
  }

  lemma RowsAreInserted(dl: Dialect, org: Org)
    requires dl.castUuid(dl.showUuid(0)) == Some(0)
    ensures Run(dl, EMPTY, Calls(dl, org)) == WithBoth(dl, org)
    ensures Inv(WithNamed(dl, org)) && Accepts(dl, WithNamed(dl, org), Some(A), 1, 0, PointingRow(dl))
    ensures Accepts(dl, WithColumns(org, COLUMNS), Some(C), 0, 0, NamedRow()) && Inv(WithColumns(org, COLUMNS))
  {
    hide Run, Inv, Accepts, Candidates, Inserted, WithColumns;
    var calls := SchemaCalls(org);
    ColumnsAreAdded(dl, org);
    ReachableStatesAreSound(dl, calls);
    NamedRowAccepted(dl, org);
    TablesAreFound(org, COLUMNS, C, 'c');
    var first, second := FirstInsertion(org), SecondInsertion(dl, org);
    RunOneMore(dl, EMPTY, calls, first);
    assert WithColumns(org, COLUMNS).issued == {} by { NothingIssued(org); }
    ReachableStatesAreSound(dl, calls + [first]);
    PointingRowAccepted(dl, org);
    SameTables(dl, org);
    TablesAreFound(org, COLUMNS, A, 'a');
    RunOneMore(dl, EMPTY, calls + [first], second);
  }

  lemma NothingIssued(org: Org)
    ensures WithColumns(org, COLUMNS).issued == {}
  {
  }

  lemma SameTables(dl: Dialect, org: Org)
    ensures WithNamed(dl, org).issued == {0}
    ensures Candidates(WithNamed(dl, org), org, "a", true) == Candidates(WithColumns(org, COLUMNS), org, "a", true)
  {
    hide Placed;
  }

  /** What the run leaves behind. */
  ghost predicate Final(db: Db, org: Org) {
    && db.tables == Tables(org) && db.columns == map[N := COLUMN_N, P := COLUMN_P, Q := COLUMN_Q]
    && db.rows == map[0 := Row(C, 0), 1 := Row(A, 0)]
    && Key(0, N) in db.cells.text && db.cells.text[Key(0, N)] == Some(TextValue("hi"))
    && Key(1, P) in db.cells.uuids && db.cells.uuids[Key(1, P)] == Some(UuidValue(0))
    && Key(1, Q) in db.cells.uuids && db.cells.uuids[Key(1, Q)] == Some(UuidValue(0))
  }

  lemma FinalRecords(dl: Dialect, org: Org)
    ensures var db := WithBoth(dl, org);
            && db.tables == Tables(org) && db.columns == map[N := COLUMN_N, P := COLUMN_P, Q := COLUMN_Q]
            && db.rows == map[0 := Row(C, 0), 1 := Row(A, 0)]
  {
    hide Placed;
  }

  lemma RunEndsFinal(dl: Dialect, org: Org)
    requires dl.castUuid(dl.showUuid(0)) == Some(0)
    ensures Inv(Run(dl, EMPTY, Calls(dl, org))) && Final(Run(dl, EMPTY, Calls(dl, org)), org)
  {
    hide Run, Inv, Accepts, Inserted, WithColumns, Apply, Placed;
    RowsAreInserted(dl, org);
    ReachableStatesAreSound(dl, Calls(dl, org));
    SameRecords(dl, org);
    NothingIssued(org);
    SameTables(dl, org);
    FinalRecords(dl, org);
    StoredForColumn(dl, WithColumns(org, COLUMNS), C, 0, 0, NamedRow(), N, TextType);
    assert WithNamed(dl, org).cells.At(TextType)[Key(0, N)] == Some(TextValue("hi"));
    OtherRowsKeepCells(dl, WithNamed(dl, org), A, 1, 0, PointingRow(dl), TextType, Key(0, N));
    assert WithBoth(dl, org).cells.At(TextType) == WithBoth(dl, org).cells.text;
    PointerStored(dl, org, P);
    PointerStored(dl, org, Q);
  }

  lemma PointerStored(dl: Dialect, org: Org, c: ColumnId)
    requires Inv(WithNamed(dl, org)) && Accepts(dl, WithNamed(dl, org), Some(A), 1, 0, PointingRow(dl)) && c in {P, Q}
    requires dl.castUuid(dl.showUuid(0)) == Some(0)
    ensures Key(1, c) in WithBoth(dl, org).cells.uuids && WithBoth(dl, org).cells.uuids[Key(1, c)] == Some(UuidValue(0))
  {
    hide Inv, Accepts, Inserted, Placed;
    SameRecords(dl, org);
    SameTables(dl, org);
    StoredForColumn(dl, WithNamed(dl, org), A, 1, 0, PointingRow(dl), c, UuidType);
    assert WithBoth(dl, org).cells.At(UuidType) == WithBoth(dl, org).cells.uuids;
  }

  lemma SameRecords(dl: Dialect, org: Org)
    ensures WithNamed(dl, org).columns == WithColumns(org, COLUMNS).columns
            == map[N := COLUMN_N, P := COLUMN_P, Q := COLUMN_Q]
  {
    hide Placed;
  }

  lemma OtherRowsKeepCells(
    dl: Dialect, db: Db, t: TableId, r: RowId, now: Time, payload: Payload, ty: ColumnType, k: Key)
    requires payload.Object? && k.row != r && k in db.cells.At(ty)
    ensures var cells := Inserted(dl, db, t, r, now, payload).cells.At(ty);
            k in cells && cells[k] == db.cells.At(ty)[k]
  {
    hide Placed, NewCells;
    OtherRowsGetNothing(dl, WithRow(db, t, r, now), t, r, payload.fields, ty);
    PlacedAt(dl, WithRow(db, t, r, now), t, r, payload.fields, payload.fields.Keys, ty);
  }

  lemma OtherRowsGetNothing(dl: Dialect, db: Db, t: TableId, r: RowId, fields: map<string, Json>, ty: ColumnType)
    ensures forall k <- NewCells(dl, db, t, r, fields, fields.Keys, ty) :: k.row == r
  {
  }

  // ---------- The page ----------

  const UUID_COLUMNS: seq<UuidColumn> := [UuidColumn("p", Some(B)), UuidColumn("q", None)]

  /** A search without filters or page parameters. */
  const ALL: Request := Request(None, None, None)

  lemma OnlyHit(dl: Dialect, db: Db, org: Org)
    requires Inv(db) && Final(db, org)
    ensures IsOrder(dl, db, Some(A), [], [1])
    ensures SearchTable(dl, db, Some(A), ALL, [1]) == Success([Hit(1, RowJson(dl, db, 1), 1)])
  {
    hide Inv, RowJson, BadCast, Kept, Final;
    assert db.rows == map[0 := Row(C, 0), 1 := Row(A, 0)] by { FinalRows(db, org); }
    assert Filtered(dl, db, Some(A), []) == {1} by { KeptWithoutFilters(dl, db, A, 1); }
    assert !BadCast(dl, db, Some(A), []) by { NoBadCast(dl, db, A); }
    var hits := Hits(dl, db, [1]);
    assert hits == [Hit(1, RowJson(dl, db, 1), 1)];
    assert Filters(ALL) == [] && PageSize(None) * 0 == 0;
    assert Page(hits, 10, 0) == hits;
  }

  lemma FinalRows(db: Db, org: Org)
    requires Final(db, org)
    ensures db.rows == map[0 := Row(C, 0), 1 := Row(A, 0)]
  {
  }

  lemma KeptWithoutFilters(dl: Dialect, db: Db, t: TableId, r: RowId)
    ensures Kept(dl, db, t, r, [])
  {
  }

  lemma NoBadCast(dl: Dialect, db: Db, t: TableId)
    ensures !BadCast(dl, db, Some(t), [])
  {
  }

  lemma IsTheSchema(db: Db, org: Org)
    requires Final(db, org)
    ensures IsSchemaOf(db, A, UUID_COLUMNS)
  {
    assert db.columns[P] == COLUMN_P && db.columns[Q] == COLUMN_Q;
    var p, q := UuidColumn("p", Some(B)), UuidColumn("q", None);
    assert forall c <- db.columns :: db.columns[c].table == A ==> c == P || c == Q;
    forall rc ensures rc in UUID_COLUMNS <==>
        exists c :: c in db.columns && db.columns[c].table == A && db.columns[c].ty == UuidType
                    && rc == UuidColumn(db.columns[c].name, db.columns[c].refTable)
    {
      assert UUID_COLUMNS == [p, q];
      assert rc in UUID_COLUMNS <==> rc == p || rc == q;
    }
  }

  lemma LabelIsHi(db: Db, org: Org)
    requires Final(db, org)
    ensures GetRowLabelAuto(db, org, 0) == Some("hi") && Finds(db, org, None, 0)
            && OwnLabel(db, org, Some(B), 0) == None
  {
    hide LabelColumn;
    LabelColumnExactly(db, C);
    assert IsLabelColumn(db, C, N);
  }

  lemma BothAsk(dl: Dialect, db: Db, org: Org, parse: UuidParser)
    requires Inv(db) && Final(db, org)
    requires parse(dl.showUuid(0)) == Some(0) && dl.showUuid(0) != ""
    ensures var data := RowJson(dl, db, 1);
            UuidAt(parse, data, "p") == Some(0) && RowAsks(parse, data, UUID_COLUMNS, None, 0)
  {
    hide Inv, RowJson;
    ObjectHoldsCell(dl, db, 1, P);
    ObjectHoldsCell(dl, db, 1, Q);
    assert db.cells.At(UuidType) == db.cells.uuids;
    assert UUID_COLUMNS[1] == UuidColumn("q", None);
  }

  /**
  In a state reached from the empty store, the first page of table `a` holds one row. The handler's
  cache shows its cell `p` the label `hi`, and the lookup for `p` alone finds no row to label.
  */
  lemma CacheCanDisagree(dl: Dialect, org: Org, parse: UuidParser, cache: map<RowId, string>)
    requires dl.castUuid(dl.showUuid(0)) == Some(0) && parse(dl.showUuid(0)) == Some(0) && dl.showUuid(0) != ""
    ensures Inv(Run(dl, EMPTY, Calls(dl, org)))
    ensures var db := Run(dl, EMPTY, Calls(dl, org));
            var data := RowJson(dl, db, 1);
            var page := [Hit(1, data, 1)];
            && IsOrder(dl, db, Some(A), [], [1]) && SearchTable(dl, db, Some(A), ALL, [1]) == Success(page)
            && IsSchemaOf(db, A, UUID_COLUMNS) && UuidAt(parse, data, "p") == Some(0)
            && OwnLabel(db, org, Some(B), 0) == None
            && PageLabel(db, org, parse, UUID_COLUMNS, PageRows(page), 0) == Some("hi")
            && (CacheOf(db, org, parse, UUID_COLUMNS, PageRows(page), cache) ==> Shown(cache, 0) == Some("hi"))
  {
    hide Inv, Run, RowJson, Final, IsOrder, SearchTable, IsSchemaOf, OwnLabel, RowAsks, GetRowLabelAuto;
    hide CacheOf, PageLabel;
    var db := Run(dl, EMPTY, Calls(dl, org));
    RunEndsFinal(dl, org);
    OnlyHit(dl, db, org);
    IsTheSchema(db, org);
    LabelIsHi(db, org);
    BothAsk(dl, db, org, parse);
    var rows := PageRows([Hit(1, RowJson(dl, db, 1), 1)]);
    assert rows[0].data.value == RowJson(dl, db, 1);
    AskedAndFound(db, org, parse, rows);
    if CacheOf(db, org, parse, UUID_COLUMNS, rows, cache) {
      CacheShowsPageLabels(db, org, parse, UUID_COLUMNS, rows, cache, 0);
    }
  }

  lemma AskedAndFound(db: Db, org: Org, parse: UuidParser, rows: seq<PageRow>)
    requires Asks(parse, rows, UUID_COLUMNS, None, 0) && Finds(db, org, None, 0)
             && GetRowLabelAuto(db, org, 0) == Some("hi")
    ensures PageLabel(db, org, parse, UUID_COLUMNS, rows, 0) == Some("hi")
  {
    hide Asks, Finds, GetRowLabelAuto;
  }
}
