/**
One org's calls leave everything stored for another's tables as it is. A reference into those tables
can still refuse a delete there (Outcomes).
*/
module Isolation {
  import opened Wrappers
  import opened Naming
  import opened Schema
  import opened Insertion
  import opened Operations

  /** Everything stored for the tables an org owns. */
  datatype OrgView = OrgView(
    tables: map<TableId, Table>,
    columns: map<ColumnId, Column>,
    rows: map<RowId, Row>,
    cells: Buckets)

  predicate Owns(db: Db, org: Org, t: TableId) { t in db.tables && db.tables[t].org == Some(org) }

  function OwnedCells(db: Db, org: Org, b: Bucket): Bucket {
    map k | k in b && k.row in db.rows && Owns(db, org, db.rows[k.row].table) :: b[k]
  }

  function View(db: Db, org: Org): OrgView {
    OrgView(
      map t | t in db.tables && Owns(db, org, t) :: db.tables[t],
      map c | c in db.columns && Owns(db, org, db.columns[c].table) :: db.columns[c],
      map r | r in db.rows && Owns(db, org, db.rows[r].table) :: db.rows[r],
      db.cells.Map((ty, b) => OwnedCells(db, org, b)))
  }

  /** The view only depends on the org's tables and on their columns, rows and cells. */
  ghost predicate SameForOrg(db: Db, db': Db, org: Org) {
    SameRecordsForOrg(db, db', org) && SameCellsForOrg(db, db', org)
  }

  ghost predicate SameRecordsForOrg(db: Db, db': Db, org: Org) {
    && (forall t :: Owns(db, org, t) <==> Owns(db', org, t))
    && (forall t :: Owns(db, org, t) ==> db'.tables[t] == db.tables[t])
    && (forall c :: OwnedColumn(db, org, c) <==> OwnedColumn(db', org, c))
    && (forall c :: OwnedColumn(db, org, c) ==> db'.columns[c] == db.columns[c])
    && (forall r :: OwnedRow(db, org, r) <==> OwnedRow(db', org, r))
    && (forall r :: OwnedRow(db, org, r) ==> db'.rows[r] == db.rows[r])
  }

  ghost predicate SameCellsForOrg(db: Db, db': Db, org: Org) {
    && (forall ty, k: Key :: OwnedRow(db, org, k.row) ==> (k in db.cells.At(ty) <==> k in db'.cells.At(ty)))
    && (forall ty, k: Key :: OwnedRow(db, org, k.row) && k in db.cells.At(ty) ==>
          db'.cells.At(ty)[k] == db.cells.At(ty)[k])
  }

  predicate OwnedColumn(db: Db, org: Org, c: ColumnId) { c in db.columns && Owns(db, org, db.columns[c].table) }

  predicate OwnedRow(db: Db, org: Org, r: RowId) { r in db.rows && Owns(db, org, db.rows[r].table) }

  lemma SameForOrgSameView(db: Db, db': Db, org: Org)
    requires SameForOrg(db, db', org)
    ensures View(db', org) == View(db, org)
  {
    hide SameCellsForOrg;
    var v, v' := View(db, org), View(db', org);
    assert v.tables == v'.tables;
    assert v.columns == v'.columns by { assert forall c :: c in v.columns <==> OwnedColumn(db, org, c); }
    assert v.rows == v'.rows by { assert forall r :: r in v.rows <==> OwnedRow(db, org, r); }
    forall ty ensures v.cells.At(ty) == v'.cells.At(ty) {
      SameCells(db, db', org, ty);
    }
    BucketsEqual(v.cells, v'.cells);
  }

  lemma SameCells(db: Db, db': Db, org: Org, ty: ColumnType)
    requires SameForOrg(db, db', org)
    ensures OwnedCells(db, org, db.cells.At(ty)) == OwnedCells(db', org, db'.cells.At(ty))
  {
    var a, b := OwnedCells(db, org, db.cells.At(ty)), OwnedCells(db', org, db'.cells.At(ty));
    forall k ensures k in a <==> k in b {
      assert OwnedRow(db, org, k.row) <==> OwnedRow(db', org, k.row);
    }
  }

  /** A cascade from tables, columns and rows outside the org's tables stays outside them. */
  lemma PruneElsewhere(db: Db, tables: set<TableId>, columns: set<ColumnId>, rows: set<RowId>, org: Org)
    requires Inv(db)
    requires forall t <- tables :: !Owns(db, org, t)
    requires forall c <- columns :: !OwnedColumn(db, org, c)
    requires forall r <- rows :: !OwnedRow(db, org, r)
    ensures SameForOrg(db, Prune(db, tables, columns, rows), org)
  {
    hide Prune, SameRecordsForOrg, SameCellsForOrg, CellsOk;
    PrunedRecordsElsewhere(db, tables, columns, rows, org);
    PrunedCellsElsewhere(db, tables, columns, rows, org);
  }

  lemma PrunedRecordsElsewhere(db: Db, tables: set<TableId>, columns: set<ColumnId>, rows: set<RowId>, org: Org)
    requires forall t <- tables :: !Owns(db, org, t)
    requires forall c <- columns :: !OwnedColumn(db, org, c)
    requires forall r <- rows :: !OwnedRow(db, org, r)
    ensures SameRecordsForOrg(db, Prune(db, tables, columns, rows), org)
  {
    var db' := Prune(db, tables, columns, rows);
    assert forall t :: Owns(db, org, t) ==> t !in tables;
    assert forall t :: Owns(db, org, t) <==> Owns(db', org, t);
  }

  lemma PrunedCellsElsewhere(db: Db, tables: set<TableId>, columns: set<ColumnId>, rows: set<RowId>, org: Org)
    requires CellsOk(db)
    requires forall c <- columns :: !OwnedColumn(db, org, c)
    requires forall r <- rows :: !OwnedRow(db, org, r)
    ensures SameCellsForOrg(db, Prune(db, tables, columns, rows), org)
  {
    var db' := Prune(db, tables, columns, rows);
    forall ty, k: Key | OwnedRow(db, org, k.row)
      ensures k in db.cells.At(ty) <==> k in db'.cells.At(ty)
      ensures k in db.cells.At(ty) ==> db'.cells.At(ty)[k] == db.cells.At(ty)[k]
    {
      if k in db.cells.At(ty) {
        assert CellOk(db, ty, k, db.cells.At(ty)[k]);
      }
    }
  }

  lemma TableElsewhere(db: Db, table: Table, org: Org)
    requires Inv(db) && table.org != Some(org)
    ensures SameForOrg(db, WithTable(db, table), org)
  {
  }

  lemma ColumnElsewhere(db: Db, col: Column, org: Org)
    requires Inv(db) && !Owns(db, org, col.table)
    ensures SameForOrg(db, WithColumn(db, col), org)
  {
  }

  lemma InsertElsewhere(dl: Dialect, db: Db, t: TableId, r: RowId, now: Time, payload: Payload, org: Org)
    requires Inv(db) && r !in db.issued && payload.Object? && !Owns(db, org, t)
    ensures SameForOrg(db, Inserted(dl, db, t, r, now, payload), org)
  {
    hide Placed;
    var db' := Inserted(dl, db, t, r, now, payload);
    forall ty, k: Key | OwnedRow(db, org, k.row)
      ensures k in db.cells.At(ty) <==> k in db'.cells.At(ty)
      ensures k in db.cells.At(ty) ==> db'.cells.At(ty)[k] == db.cells.At(ty)[k]
    {
      PlacedAt(dl, WithRow(db, t, r, now), t, r, payload.fields, payload.fields.Keys, ty);
    }
  }

  /** A table picked for one caller is never another org's table. */
  lemma PicksAreNotForeign(db: Db, caller: Org, name: string, orGlobal: bool, t: TableId, org: Org)
    requires t in Candidates(db, caller, name, orGlobal) && caller != org
    ensures !Owns(db, org, t)
  {
  }

  /** One call by anybody else leaves the org's tables, columns, rows and cells as they are. */
  lemma CallIsolation(dl: Dialect, db: Db, call: Call, org: Org)
    requires Inv(db) && CallerOf(call) != Some(org)
    ensures View(Apply(dl, db, call), org) == View(db, org)
  {
    hide View, Inserted, SameForOrg, Prune, Inv, Candidates, WithTable, WithColumn;
    if Possible(db, call) && Outcome(dl, db, call).Success? {
      var db' := Outcome(dl, db, call).value;
      if db' != db {
        match call {
        case CreateTable(caller, name, now) => TableElsewhere(db, Table(Some(caller), name, Slug(name), now), org);
        case AddColumn(caller, table, input, pick, ref) =>
          PicksAreNotForeign(db, caller, table, true, pick.value, org);
          ColumnElsewhere(db, NewColumn(input, pick.value, ParseType(input.ty).value, ref), org);
        case RemoveColumn(caller, table, column, pick) =>
          if pick.Some? { PicksAreNotForeign(db, caller, table, true, pick.value, org); }
          PruneElsewhere(db, {}, NamedColumns(db, pick, column), {}, org);
        case InsertRow(caller, table, payload, pick, row, now) =>
          PicksAreNotForeign(db, caller, table, true, pick.value, org);
          InsertElsewhere(dl, db, pick.value, row, now, payload, org);
        case DeleteRow(caller, table, row, pick) =>
          PicksAreNotForeign(db, caller, table, false, pick.value, org);
          PruneElsewhere(db, {}, {}, {row}, org);
        case DeleteTable(caller, table, pick) =>
          PicksAreNotForeign(db, caller, table, false, pick.value, org);
          PruneElsewhere(db, {pick.value}, ColumnsOf(db, pick.value), RowsOf(db, pick.value), org);
        case SeedTable(name, slug, now) => TableElsewhere(db, Table(None, name, slug, now), org);
        case SeedColumn(definition) => ColumnElsewhere(db, definition, org);
        case SeedRow(t, payload, row, now) => InsertElsewhere(dl, db, t, row, now, payload, org);
        }
        SameForOrgSameView(db, db', org);
      }
    }
  }

  /** Noninterference over whole runs: calls that are not the org's own never change its view. */
  lemma {:induction false} RunIsolation(dl: Dialect, db: Db, calls: seq<Call>, org: Org)
    requires Inv(db) && forall call <- calls :: CallerOf(call) != Some(org)
    ensures View(Run(dl, db, calls), org) == View(db, org)
    decreases |calls|
  {
    hide Inv, Possible, Outcome, View, Apply;
    if calls != [] {
      CallIsolation(dl, db, calls[0], org);
      ApplyKeepsInv(dl, db, calls[0]);
      RunIsolation(dl, Apply(dl, db, calls[0]), calls[1..], org);
    }
  }
}
