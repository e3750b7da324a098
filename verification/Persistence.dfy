/** What stays true of a stored cell, and of a whole row, through every later call. */
module Persistence {
  import opened Wrappers
  import opened Naming
  import opened Schema
  import opened Insertion
  import opened Operations

  /**
  `db'` is a later state than `db`: ids are never reused, a record that is still there is
  unchanged, and a cell whose row and column are both still there is still there, unchanged.
  */
  ghost predicate Later(db: Db, db': Db) {
    LaterRecords(db, db') && LaterCells(db, db')
  }

  ghost predicate LaterRecords(db: Db, db': Db) {
    && db.issued <= db'.issued && db.nextColumn <= db'.nextColumn
    && (forall r <- db'.rows :: r in db.issued ==> r in db.rows && db'.rows[r] == db.rows[r])
    && (forall c <- db'.columns :: c < db.nextColumn ==> c in db.columns && db'.columns[c] == db.columns[c])
  }

  ghost predicate Survives(db: Db, db': Db, k: Key) {
    k.row in db'.rows && k.col in db'.columns && k.row in db.issued && k.col < db.nextColumn
  }

  ghost predicate LaterCells(db: Db, db': Db) {
    && (forall ty, k: Key :: Survives(db, db', k) ==> (k in db'.cells.At(ty) <==> k in db.cells.At(ty)))
    && (forall ty, k: Key :: Survives(db, db', k) && k in db.cells.At(ty) ==> db'.cells.At(ty)[k] == db.cells.At(ty)[k])
  }

  lemma LaterTransitive(a: Db, b: Db, c: Db)
    requires Later(a, b) && Later(b, c)
    ensures Later(a, c)
  {
    forall k: Key | Survives(a, c, k) ensures Survives(a, b, k) && Survives(b, c, k) {
    }
  }

  lemma PruneIsLater(db: Db, tables: set<TableId>, columns: set<ColumnId>, rows: set<RowId>)
    requires Inv(db)
    ensures Later(db, Prune(db, tables, columns, rows))
  {
    hide TablesOk, CellsOk;
  }

  lemma InsertIsLater(dl: Dialect, db: Db, t: TableId, r: RowId, now: Time, payload: Payload)
    requires Inv(db) && r !in db.issued && payload.Object?
    ensures Later(db, Inserted(dl, db, t, r, now, payload))
  {
    hide Placed, TablesOk, CellsOk;
    var db' := Inserted(dl, db, t, r, now, payload);
    forall ty, k: Key | Survives(db, db', k)
      ensures k in db'.cells.At(ty) <==> k in db.cells.At(ty)
      ensures k in db.cells.At(ty) ==> db'.cells.At(ty)[k] == db.cells.At(ty)[k]
    {
      PlacedAt(dl, WithRow(db, t, r, now), t, r, payload.fields, payload.fields.Keys, ty);
    }
  }

  lemma ApplyIsLater(dl: Dialect, db: Db, call: Call)
    requires Inv(db)
    ensures Later(db, Apply(dl, db, call))
  {
    hide Inserted, Prune, TablesOk, CellsOk, Candidates, TableReferenced, RowReferenced, Later;
    if Possible(db, call) && Outcome(dl, db, call).Success? {
      match call {
        case RemoveColumn(_, _, column, pick) =>
          PruneIsLater(db, {}, NamedColumns(db, pick, column), {});
        case InsertRow(_, _, payload, pick, row, now) => InsertIsLater(dl, db, pick.value, row, now, payload);
        case SeedRow(t, payload, row, now) => InsertIsLater(dl, db, t, row, now, payload);
        case DeleteRow(_, _, row, _) => PruneIsLater(db, {}, {}, {row});
        case DeleteTable(_, _, pick) =>
          if pick.Some? { PruneIsLater(db, {pick.value}, ColumnsOf(db, pick.value), RowsOf(db, pick.value)); }
        case CreateTable(org, name, now) => SchemaChangeIsLater(db, Apply(dl, db, call));
        case AddColumn(_, _, _, _, _) => SchemaChangeIsLater(db, Apply(dl, db, call));
        case SeedTable(_, _, _) => SchemaChangeIsLater(db, Apply(dl, db, call));
        case SeedColumn(_) => SchemaChangeIsLater(db, Apply(dl, db, call));
      }
    }
    SchemaChangeIsLater(db, db);
  }

  lemma SchemaChangeIsLater(db: Db, db': Db)
    requires RowsOk(db) && ColumnsOk(db)
    requires db'.rows == db.rows && db'.cells == db.cells && db'.issued == db.issued && db'.nextColumn >= db.nextColumn
    requires forall c <- db'.columns :: c < db.nextColumn ==> c in db.columns && db'.columns[c] == db.columns[c]
    ensures Later(db, db')
  {
  }

  lemma LaterReflexive(db: Db)
    requires Inv(db)
    ensures Later(db, db)
  {
    hide TablesOk, CellsOk;
  }

  lemma {:induction false} RunIsLater(dl: Dialect, db: Db, calls: seq<Call>)
    requires Inv(db)
    ensures Later(db, Run(dl, db, calls))
    decreases |calls|
  {
    hide Inv, Apply, Later;
    if calls == [] {
      LaterReflexive(db);
    } else {
      ApplyKeepsInv(dl, db, calls[0]);
      ApplyIsLater(dl, db, calls[0]);
      RunIsLater(dl, Apply(dl, db, calls[0]), calls[1..]);
      LaterTransitive(db, Apply(dl, db, calls[0]), Run(dl, db, calls));
    }
  }

  ghost predicate HoldsNonNull(db: Db, r: RowId, c: ColumnId) {
    && c in db.columns
    && Key(r, c) in db.cells.At(db.columns[c].ty)
    && db.cells.At(db.columns[c].ty)[Key(r, c)].Some?
  }

  /**
  Every column that was required when a row was inserted holds a non-null value in it, in every
  later state of every run, for as long as the row and the column are both there.
  */
  lemma RequiredForever(
    dl: Dialect, db: Db, t: TableId, r: RowId, now: Time, payload: Payload, calls: seq<Call>, c: ColumnId)
    requires Inv(db) && r !in db.issued && Accepts(dl, db, Some(t), r, now, payload)
    requires c in db.columns && db.columns[c].table == t && db.columns[c].required
    ensures var db' := Run(dl, Inserted(dl, db, t, r, now, payload), calls);
            r in db'.rows && c in db'.columns ==> HoldsNonNull(db', r, c)
  {
    hide Inv, KeysAccepted, MissesRequired, Run, Placed, LaterCells;
    var inserted := Inserted(dl, db, t, r, now, payload);
    assert inserted.columns == db.columns && inserted.nextColumn == db.nextColumn;
    InsertKeepsInv(dl, db, t, r, now, payload);
    RequiredColumnsStored(dl, db, t, r, now, payload, c);
    CellsNeverChange(dl, inserted, calls, db.columns[c].ty, Key(r, c));
    RunIsLater(dl, inserted, calls);
    ColumnIdsAreOld(db, c);
  }

  lemma ColumnIdsAreOld(db: Db, c: ColumnId)
    requires Inv(db) && c in db.columns
    ensures c < db.nextColumn
  {
  }

  /** No call ever changes the value of a stored cell: it only goes when its row or its column goes. */
  lemma CellsNeverChange(dl: Dialect, db: Db, calls: seq<Call>, ty: ColumnType, k: Key)
    requires Inv(db) && k in db.cells.At(ty)
    ensures var db' := Run(dl, db, calls);
            && (k in db'.cells.At(ty) <==> k.row in db'.rows && k.col in db'.columns)
            && (k in db'.cells.At(ty) ==> db'.cells.At(ty)[k] == db.cells.At(ty)[k])
  {
    hide Run;
    var db' := Run(dl, db, calls);
    RunIsLater(dl, db, calls);
    RunKeepsInv(dl, db, calls);
    assert CellOk(db, ty, k, db.cells.At(ty)[k]);
    if k in db'.cells.At(ty) {
      assert CellOk(db', ty, k, db'.cells.At(ty)[k]);
    }
    if k.row in db'.rows && k.col in db'.columns {
      assert Survives(db, db', k);
    }
  }

  /**
  In every state of every run from the empty store a non-null enum cell holds one of its column's
  labels, and a non-null cell of an enforced reference column names a live row of the reference
  table, outside its own table when the column asks for that.
  */
  lemma ReachableCellsAreSound(dl: Dialect, calls: seq<Call>, ty: ColumnType, k: Key)
    requires k in Run(dl, EMPTY, calls).cells.At(ty)
    ensures var db := Run(dl, EMPTY, calls);
            && k.row in db.rows && k.col in db.columns
            && var col := db.columns[k.col];
               col.ty == ty && col.table == db.rows[k.row].table
    ensures var db := Run(dl, EMPTY, calls);
            forall tz :: k in db.cells.At(tz) ==> tz == ty
    ensures var db := Run(dl, EMPTY, calls);
            db.cells.At(ty)[k].Some? ==>
              var col, v := db.columns[k.col], db.cells.At(ty)[k].value;
              && (ty == TextType || ty == EnumType ==> v.TextValue?) && (ty == FloatType ==> v.FloatValue?)
              && (ty == DateType ==> v.DateValue?) && (ty == BoolType ==> v.BoolValue?)
              && (ty == EnumType ==> col.allowed.Some? && v.TextValue? && v.s in col.allowed.value)
              && (ty == UuidType ==> v.UuidValue? && v.u in db.rows)
              && (ty == UuidType && col.isReference && col.refTable.Some? ==> db.rows[v.u].table == col.refTable.value)
              && (ty == UuidType && col.isReference && col.requireDifferent ==>
                    db.rows[v.u].table != db.rows[k.row].table)
  {
    hide Run;
    var db := Run(dl, EMPTY, calls);
    ReachableStatesAreSound(dl, calls);
    assert CellOk(db, ty, k, db.cells.At(ty)[k]);
    forall tz | k in db.cells.At(tz) ensures tz == ty {
      OneBucketPerCell(db, k, ty, tz);
    }
  }

  /**
  In every reachable state the tables of an org differ in slug and in lowered name, the columns of a
  table differ in name, every column belongs to a table and refers to a table that is there, only
  enum columns have labels and only uuid columns are references, and every row belongs to a table.
  */
  lemma ReachableRecordsAreSound(dl: Dialect, calls: seq<Call>)
    ensures var db := Run(dl, EMPTY, calls);
            && (forall t <- db.tables, u <- db.tables ::
                  db.tables[t].org.Some? && db.tables[t].org == db.tables[u].org ==>
                  db.tables[t].slug == db.tables[u].slug || Lower(db.tables[t].name) == Lower(db.tables[u].name) ==>
                    t == u)
            && (forall t :: t in db.tables && db.tables[t].org.Some? ==> db.tables[t].slug == Slug(db.tables[t].name))
            && (forall c <- db.columns, d <- db.columns :: db.columns[c].table == db.columns[d].table ==>
                  db.columns[c].name == db.columns[d].name ==> c == d)
            && (forall c <- db.columns ::
                  var col := db.columns[c];
                  && col.table in db.tables && (col.refTable.Some? ==> col.refTable.value in db.tables)
                  && (col.allowed.Some? <==> col.ty == EnumType) && (col.isReference ==> col.ty == UuidType))
            && (forall r <- db.rows :: db.rows[r].table in db.tables)
  {
    hide Run, Slug, Lower;
    var db := Run(dl, EMPTY, calls);
    ReachableStatesAreSound(dl, calls);
    forall t, u | t in db.tables && u in db.tables && db.tables[t].org.Some? && db.tables[t].org == db.tables[u].org
                  && Lower(db.tables[t].name) == Lower(db.tables[u].name)
      ensures t == u
    {
      SlugIsStable(db.tables[t].name);
      SlugIsStable(db.tables[u].name);
    }
    assert forall c <- db.columns :: ColumnOk(db, db.columns[c]);
  }
}
