/**
The store as the database runs it: one mutable map for each stored table, one method for each
statement. A statement that raises puts the tables back as they were. Every method is proved
against the state machine of Operations.
*/
module Store {
  import opened Wrappers
  import opened Naming
  import opened Schema
  import opened Insertion
  import opened Operations
  import opened Readers

  /** One more key: its record joins the value table of its column's type, the others are as before. */
  lemma PlaceOneMore(
    dl: Dialect, db: Db, t: TableId, r: RowId, fields: map<string, Json>, done: set<string>, name: string, c: ColumnId)
    requires ColumnsOk(db) && HasName(db, t, name, c) && name in fields && CellFor(dl, db, r, c, fields[name]).Success?
    ensures Placed(dl, db, t, r, fields, done + {name})
            == Placed(dl, db, t, r, fields, done)
                 .Put(db.columns[c].ty, Key(r, c), CellFor(dl, db, r, c, fields[name]).value)
  {
    hide Placed, NewCells, CellFor, ColumnsOk;
    var before, after := Placed(dl, db, t, r, fields, done), Placed(dl, db, t, r, fields, done + {name});
    var value := CellFor(dl, db, r, c, fields[name]).value;
    forall ty ensures after.At(ty) == before.Put(db.columns[c].ty, Key(r, c), value).At(ty) {
      PlacedAt(dl, db, t, r, fields, done, ty);
      PlacedAt(dl, db, t, r, fields, done + {name}, ty);
      NewCellsOneMore(dl, db, t, r, fields, done, name, c, ty);
    }
    BucketsEqual(after, before.Put(db.columns[c].ty, Key(r, c), value));
  }

  lemma NewCellsOneMore(
    dl: Dialect, db: Db, t: TableId, r: RowId, fields: map<string, Json>, done: set<string>, name: string,
    c: ColumnId, ty: ColumnType)
    requires ColumnsOk(db) && HasName(db, t, name, c) && name in fields && CellFor(dl, db, r, c, fields[name]).Success?
    ensures var before := NewCells(dl, db, t, r, fields, done, ty);
            NewCells(dl, db, t, r, fields, done + {name}, ty) ==
              if ty == db.columns[c].ty then before[Key(r, c) := CellFor(dl, db, r, c, fields[name]).value]
              else before
  {
    hide CellFor, ColumnsOk;
    assert forall d :: HasName(db, t, name, d) ==> d == c by { NameIsUnique(db, t, name, c); }
    forall d ensures Receives(dl, db, t, r, fields, done + {name}, ty, d)
                     <==> Receives(dl, db, t, r, fields, done, ty, d) || (d == c && ty == db.columns[c].ty) {
      assert HasName(db, t, name, d) ==> d == c;
    }
  }

  lemma NameIsUnique(db: Db, t: TableId, name: string, c: ColumnId)
    requires ColumnsOk(db) && HasName(db, t, name, c)
    ensures forall d :: HasName(db, t, name, d) ==> d == c
  {
  }

  lemma NothingPlaced(dl: Dialect, db: Db, t: TableId, r: RowId, fields: map<string, Json>)
    ensures Placed(dl, db, t, r, fields, {}) == db.cells
  {
    hide Placed, NewCells;
    forall ty ensures Placed(dl, db, t, r, fields, {}).At(ty) == db.cells.At(ty) {
      PlacedAt(dl, db, t, r, fields, {}, ty);
      NoNewCells(dl, db, t, r, fields, ty);
    }
    BucketsEqual(Placed(dl, db, t, r, fields, {}), db.cells);
  }

  lemma NoNewCells(dl: Dialect, db: Db, t: TableId, r: RowId, fields: map<string, Json>, ty: ColumnType)
    ensures NewCells(dl, db, t, r, fields, {}, ty) == map[]
  {
    hide CellFor;
  }

  /** Key `name` has been stored in the cell of its column `c`. */
  ghost predicate KeyStored(dl: Dialect, db: Db, t: TableId, r: RowId, name: string, v: Json, c: ColumnId, db': Db) {
    && HasName(db, t, name, c)
    && CellFor(dl, db, r, c, v).Success?
    && db' == db.(cells := db.cells.Put(db.columns[c].ty, Key(r, c), CellFor(dl, db, r, c, v).value))
  }

  class Store {
    const dl: Dialect
    var tables: map<TableId, Table>
    var columns: map<ColumnId, Column>
    var rows: map<RowId, Row>
    var text: Bucket
    var float: Bucket
    var date: Bucket
    var bools: Bucket
    var enums: Bucket
    var uuids: Bucket
    var nextTable: TableId
    var nextColumn: ColumnId
    /** Every row id the generator has returned; it only serves to say that ids are fresh. */
    var issued: set<RowId>

    function State(): Db
      reads this
    {
      Db(tables, columns, rows, Buckets(text, float, date, bools, enums, uuids), nextTable, nextColumn, issued)
    }

    constructor (dl: Dialect)
      ensures this.dl == dl && State() == EMPTY && Inv(State())
    {
      this.dl := dl;
      tables, columns, rows := map[], map[], map[];
      text, float, date, bools, enums, uuids := map[], map[], map[], map[], map[], map[];
      nextTable, nextColumn, issued := 0, 0, {};
      new;
      ReachableStatesAreSound(dl, []);
    }

    /** Puts every table back: what the database does when a statement raises. */
    method Rollback(db: Db)
      modifies this
      ensures State() == db
    {
      SetCells(db.cells);
      tables, columns, rows := db.tables, db.columns, db.rows;
      nextTable, nextColumn, issued := db.nextTable, db.nextColumn, db.issued;
    }

    method SetCells(cells: Buckets)
      modifies this
      ensures State() == old(State()).(cells := cells)
    {
      text, float, date := cells.text, cells.float, cells.date;
      bools, enums, uuids := cells.bools, cells.enums, cells.uuids;
    }

    /** INSERT INTO the value table of the column's type. */
    method InsertValue(ty: ColumnType, k: Key, value: Option<Value>)
      modifies this
      ensures State() == old(State()).(cells := old(State()).cells.Put(ty, k, value))
    {
      match ty {
        case TextType => text := text[k := value];
        case DateType => date := date[k := value];
        case BoolType => bools := bools[k := value];
        case FloatType => float := float[k := value];
        case EnumType => enums := enums[k := value];
        case UuidType => uuids := uuids[k := value];
      }
    }

    /** The loop body of `app.insert_row`: look the column up, check NULL, cast, fire the triggers, store. */
    method StoreKey(t: TableId, r: RowId, name: string, v: Json) returns (raised: Option<Raised>)
      requires ColumnsOk(State())
      modifies this
      ensures raised.Some? ==> State() == old(State()) && KeyRaises(dl, old(State()), t, r, name, v, raised.value)
      ensures raised.None? ==> exists c :: KeyStored(dl, old(State()), t, r, name, v, c, State())
    {
      var named := set c | c in columns && HasName(State(), t, name, c);
      if named == {} {
        assert forall c :: HasName(State(), t, name, c) ==> c in named;
        return Some(UnknownColumn(name));
      }
      var c :| c in named;
      var col := columns[c];
      var unwrapped := Unwrap(v);
      if col.required && unwrapped.None? {
        return Some(RequiredColumnNull(col.name));
      }
      var cast := Cast(dl, col.ty, unwrapped);
      if cast.None? {
        return Some(InvalidText(col.name));
      }
      raised := CellError(State(), r, c, col, cast.value);
      if raised.None? {
        InsertValue(col.ty, Key(r, c), cast.value);
        assert KeyStored(dl, old(State()), t, r, name, v, c, State());
      }
    }

    /** The key loop of `app.insert_row`. The keys come in whatever order `jsonb_each` yields them. */
    method StoreKeys(t: TableId, r: RowId, fields: map<string, Json>) returns (raised: Option<Raised>)
      requires ColumnsOk(State())
      modifies this
      ensures raised.Some? ==>
                exists name :: name in fields && KeyRaises(dl, old(State()), t, r, name, fields[name], raised.value)
      ensures raised.None? ==>
                && KeysAccepted(dl, old(State()), t, r, fields)
                && State() == old(State()).(cells := Placed(dl, old(State()), t, r, fields, fields.Keys))
    {
      hide ColumnsOk, Placed, CellFor, HasName, KeyRaises;
      ghost var db := State();
      NothingPlaced(dl, db, t, r, fields);
      var remaining := fields.Keys;
      assert fields.Keys - remaining == {};
      while remaining != {}
        invariant remaining <= fields.Keys
        invariant State() == db.(cells := Placed(dl, db, t, r, fields, fields.Keys - remaining))
        invariant forall name, e :: name in fields.Keys - remaining ==> !KeyRaises(dl, db, t, r, name, fields[name], e)
        decreases remaining
      {
        var name :| name in remaining;
        ghost var before := State();
        SameSchemaSameChecks(dl, db, before, t, r, name, fields[name]);
        raised := StoreKey(t, r, name, fields[name]);
        if raised.Some? {
          return;
        }
        ghost var c :| KeyStored(dl, before, t, r, name, fields[name], c, State());
        KeyStoredPlacesOneMore(dl, db, before, t, r, fields, fields.Keys - remaining, name, c, State());
        assert fields.Keys - (remaining - {name}) == fields.Keys - remaining + {name};
        remaining := remaining - {name};
      }
      assert fields.Keys - remaining == fields.Keys;
      return None;
    }

    /** `app.insert_row`. */
    method InsertRow(t: Option<TableId>, payload: Payload, r: RowId, now: Time) returns (result: Result<RowId, Raised>)
      requires Inv(State()) && r !in issued
      modifies this
      ensures result.Success? <==> Accepts(dl, old(State()), t, r, now, payload)
      ensures result.Success? <==>
                && t.Some? && t.value in old(tables)
                && payload.Object? && Insertable(dl, old(State()), t.value, r, payload.fields)
      ensures result.Success? ==> result.value == r && State() == Inserted(dl, old(State()), t.value, r, now, payload)
      ensures result.Failure? ==>
                State() == old(State()) && InsertRaises(dl, old(State()), t, r, now, payload, result.error)
    {
      hide Inv, Placed, CellFor, HasName, KeyRaises, Insertable;
      var db := State();
      if t.Some? && t.value in tables {
        AcceptedExactly(dl, db, t.value, r, now, payload);
      }
      if t.None? {
        return Failure(NotNullViolation);
      }
      if t.value !in tables {
        return Failure(ForeignKeyViolation);
      }
      if payload.NotAnObject? {
        return Failure(PayloadNotAnObject);
      }
      rows, issued := rows[r := Row(t.value, now)], issued + {r};
      SchemaStillOk(db, t.value, r, now);
      var raised := StoreKeys(t.value, r, payload.fields);
      if raised.Some? {
        Rollback(db);
        return Failure(raised.value);
      }
      if exists c ::
          c in columns && columns[c].table == t.value && columns[c].required && !Stored(State().cells, Key(r, c))
      {
        Rollback(db);
        return Failure(MissingRequiredColumns);
      }
      return Success(r);
    }

    /** The `table_id` subquery: any candidate, or NULL. */
    method ResolveTable(org: Org, name: string, orGlobal: bool) returns (pick: Option<TableId>)
      ensures Picks(Candidates(State(), org, name, orGlobal), pick)
    {
      var candidates := Candidates(State(), org, name, orGlobal);
      if candidates == {} {
        return None;
      }
      var t :| t in candidates;
      return Some(t);
    }

    /** `app.row_to_json`: seven assignments to `result`, the last one NULL for a row that is not there. */
    method RowToJson(r: RowId) returns (result: map<string, Json>)
      requires Inv(State())
      ensures result == RowJson(dl, State(), r)
    {
      hide Inv, Aggregate;
      result := map[];
      result := result + Aggregate(dl, State(), TextType, r);
      result := result + Aggregate(dl, State(), FloatType, r);
      result := result + Aggregate(dl, State(), DateType, r);
      result := result + Aggregate(dl, State(), BoolType, r);
      result := result + Aggregate(dl, State(), EnumType, r);
      result := result + Aggregate(dl, State(), UuidType, r);
      SixMerges(dl, State(), r);
      if r in rows {
        result := result + Metadata(dl, State(), r);
      } else {
        result := map[];
      }
    }

    method CreateUserTable(org: Org, name: string, now: Time) returns (created: bool, t: TableId)
      requires Inv(State())
      modifies this
      ensures State() == Apply(dl, old(State()), CreateTable(org, name, now)) && Inv(State())
      ensures created <==> !SlugTaken(old(State()), org, Slug(name))
      ensures !created ==> State() == old(State())
      ensures t in tables && tables[t].org == Some(org) && tables[t].slug == Slug(name)
    {
      hide Inv, Apply;
      ghost var db := State();
      CreateApplies(dl, db, org, name, now);
      var same := set u | u in tables && tables[u].org == Some(org) && tables[u].slug == Slug(name);
      if same == {} {
        assert forall u :: u in db.tables && db.tables[u].org == Some(org) && db.tables[u].slug == Slug(name) ==>
          u in same;
        created, t := true, nextTable;
        tables, nextTable := tables[nextTable := Table(Some(org), name, Slug(name), now)], nextTable + 1;
      } else {
        var u :| u in same;
        assert SlugTaken(db, org, Slug(name));
        created, t := false, u;
      }
    }

    method AddUserTableColumn(org: Org, table: string, input: ColumnInput)
      returns (result: Result<(bool, ColumnId), Raised>, ghost call: Call)
      requires Inv(State())
      modifies this
      ensures call.AddColumn? && call.org == org && call.table == table && call.input == input
      ensures Possible(old(State()), call) && State() == Apply(dl, old(State()), call) && Inv(State())
      ensures result.Failure? ==> Outcome(dl, old(State()), call) == Failure(result.error)
      ensures result.Success? ==>
                && Outcome(dl, old(State()), call).Success? && call.pick.Some?
                && HasName(State(), call.pick.value, ColumnName(input.name), result.value.1)
                && (result.value.0 <==> result.value.1 !in old(columns))
      ensures result.Success? && result.value.0 ==>
                && ParseType(input.ty).Some?
                && columns == old(columns)[
                     result.value.1 := NewColumn(input, call.pick.value, ParseType(input.ty).value, call.refPick)]
    {
      hide Inv, Candidates, AddNamedColumn, ColumnName;
      ghost var db := State();
      var pick := ResolveTable(org, table, true);
      var refPick: Option<TableId> := None;
      if input.referenceTable != "" {
        refPick := ResolveTable(org, input.referenceTable, true);
      }
      call := AddColumn(org, table, input, pick, refPick);
      ApplyKeepsInv(dl, db, call);
      result := AddColumnTo(input, pick, refPick);
    }

    /** The `ins` part of the statement and the row it reports. */
    method AddColumnTo(input: ColumnInput, pick: Option<TableId>, refPick: Option<TableId>)
      returns (result: Result<(bool, ColumnId), Raised>)
      requires Inv(State())
      modifies this
      ensures result.Failure? ==>
                && AddNamedColumn(old(State()), input, pick, refPick) == Failure(result.error)
                && State() == old(State())
      ensures result.Success? ==>
                && AddNamedColumn(old(State()), input, pick, refPick) == Success(State()) && pick.Some?
                && HasName(State(), pick.value, ColumnName(input.name), result.value.1)
                && (result.value.0 <==> result.value.1 !in old(columns))
      ensures result.Success? && result.value.0 ==>
                && ParseType(input.ty).Some?
                && columns == old(columns)[
                     result.value.1 := NewColumn(input, pick.value, ParseType(input.ty).value, refPick)]
    {
      FreshColumnId(State());
      hide Inv, ColumnName, NamedColumns;
      ghost var db := State();
      var ty := ParseType(input.ty);
      if ty.None? {
        return Failure(InvalidText(input.ty));
      }
      if pick.None? {
        return Failure(NotNullViolation);
      }
      if ty.value != UuidType && input.isReference {
        return Failure(CheckViolation);
      }
      var named := NamedColumns(State(), pick, input.name);
      NamedColumnsExactly(db, pick.value, input.name);
      if named != {} {
        var c :| c in named;
        return Success((false, c));
      }
      var id := InsertColumn(NewColumn(input, pick.value, ty.value, refPick));
      return Success((true, id));
    }

    method InsertColumn(col: Column) returns (id: ColumnId)
      modifies this
      ensures id == old(nextColumn) && State() == WithColumn(old(State()), col)
    {
      id := nextColumn;
      columns, nextColumn := columns[id := col], id + 1;
    }

    method InsertUserTableRow(org: Org, table: string, payload: Payload, r: RowId, now: Time)
      returns (result: Result<map<string, Json>, Raised>, ghost call: Call)
      requires Inv(State()) && r !in issued
      modifies this
      ensures call.InsertRow? && call.org == org && call.table == table
      ensures call.payload == payload && call.row == r && call.now == now
      ensures Possible(old(State()), call) && State() == Apply(dl, old(State()), call) && Inv(State())
      ensures result.Success? <==> Accepts(dl, old(State()), call.pick, r, now, payload)
      ensures result.Success? <==>
                && call.pick.Some? && call.pick.value in old(tables)
                && payload.Object? && Insertable(dl, old(State()), call.pick.value, r, payload.fields)
      ensures result.Success? ==> result.value == RowJson(dl, State(), r)
      ensures result.Failure? ==>
                State() == old(State()) && InsertRaises(dl, old(State()), call.pick, r, now, payload, result.error)
    {
      hide Inv, Accepts, InsertRaises, Inserted, Candidates, Insertable;
      ghost var db := State();
      var pick := ResolveTable(org, table, true);
      call := Call.InsertRow(org, table, payload, pick, r, now);
      ApplyKeepsInv(dl, db, call);
      var inserted := InsertRow(pick, payload, r, now);
      if inserted.Failure? {
        return Failure(inserted.error), call;
      }
      var data := RowToJson(r);
      return Success(data), call;
    }

    /** DELETE with its cascades, then the RESTRICT keys: the whole statement or nothing. */
    method DeleteCascading(dropTables: set<TableId>, dropColumns: set<ColumnId>, dropRows: set<RowId>)
      returns (raised: Option<Raised>)
      modifies this
      ensures raised.None? ==> Restricted(old(State()), dropTables, dropColumns, dropRows) == Success(State())
      ensures raised.Some? ==>
                && Restricted(old(State()), dropTables, dropColumns, dropRows) == Failure(raised.value)
                && State() == old(State())
    {
      var db := State();
      tables, columns, rows := tables - dropTables, columns - dropColumns, rows - dropRows;
      SetCells(db.cells.Map((ty, b) => PruneBucket(b, dropColumns, dropRows)));
      assert State() == Prune(db, dropTables, dropColumns, dropRows);
      if (exists c :: c in columns && columns[c].refTable.Some? && columns[c].refTable.value in dropTables)
         || (exists k :: k in uuids && uuids[k].Some? && uuids[k].value.UuidValue? && uuids[k].value.u in dropRows) {
        Rollback(db);
        return Some(ForeignKeyViolation);
      }
      return None;
    }

    method DeleteUserTable(org: Org, table: string) returns (result: Result<bool, Raised>, ghost call: Call)
      requires Inv(State())
      modifies this
      ensures call.DeleteTable? && call.org == org && call.table == table
      ensures Possible(old(State()), call) && State() == Apply(dl, old(State()), call) && Inv(State())
      ensures result.Failure? ==> Outcome(dl, old(State()), call) == Failure(result.error)
      ensures result.Success? ==> Outcome(dl, old(State()), call).Success? && (result.value <==> call.pick.Some?)
    {
      hide Inv, Restricted;
      ghost var db := State();
      var pick := ResolveTable(org, table, false);
      call := DeleteTable(org, table, pick);
      ApplyKeepsInv(dl, db, call);
      if pick.None? {
        return Success(false), call;
      }
      var raised := DeleteCascading({pick.value}, ColumnsOf(State(), pick.value), RowsOf(State(), pick.value));
      result := if raised.Some? then Failure(raised.value) else Success(true);
    }

    method DeleteUserTableRow(org: Org, table: string, r: RowId)
      returns (result: Result<bool, Raised>, ghost call: Call)
      requires Inv(State())
      modifies this
      ensures call.DeleteRow? && call.org == org && call.table == table && call.row == r
      ensures Possible(old(State()), call) && State() == Apply(dl, old(State()), call) && Inv(State())
      ensures result.Failure? ==> Outcome(dl, old(State()), call) == Failure(result.error)
      ensures result.Success? ==>
                && Outcome(dl, old(State()), call).Success?
                && (result.value <==> r in old(rows) && Some(old(rows)[r].table) == call.pick)
    {
      hide Inv, Restricted;
      ghost var db := State();
      var pick := ResolveTable(org, table, false);
      call := DeleteRow(org, table, r, pick);
      ApplyKeepsInv(dl, db, call);
      if pick.None? || r !in rows || rows[r].table != pick.value {
        return Success(false), call;
      }
      var raised := DeleteCascading({}, {}, {r});
      result := if raised.Some? then Failure(raised.value) else Success(true);
    }

    method RemoveUserTableColumn(org: Org, table: string, column: string)
      returns (removed: Option<Column>, ghost call: Call)
      requires Inv(State())
      modifies this
      ensures call.RemoveColumn? && call.org == org && call.table == table && call.column == column
      ensures Possible(old(State()), call) && State() == Apply(dl, old(State()), call) && Inv(State())
      ensures Outcome(dl, old(State()), call).Success?
      ensures removed.Some? <==> NamedColumns(old(State()), call.pick, column) != {}
      ensures removed.Some? ==>
                exists c :: c in NamedColumns(old(State()), call.pick, column) && removed.value == old(columns)[c]
    {
      hide Inv, Apply, Restricted, Candidates;
      ghost var db := State();
      var pick := ResolveTable(org, table, true);
      call := RemoveColumn(org, table, column, pick);
      DropColumnApplies(dl, db, call);
      var target := NamedColumns(State(), pick, column);
      removed := None;
      if target != {} {
        var c :| c in target;
        removed := Some(columns[c]);
      }
      var raised := DeleteCascading({}, target, {});
    }
  }

  lemma CreateApplies(dl: Dialect, db: Db, org: Org, name: string, now: Time)
    requires Inv(db)
    ensures Create(db, org, name, now) == Success(Apply(dl, db, CreateTable(org, name, now)))
    ensures Inv(Apply(dl, db, CreateTable(org, name, now)))
  {
    CreateKeepsInv(db, org, name, now);
    assert Outcome(dl, db, CreateTable(org, name, now)) == Create(db, org, name, now);
  }

  /** Removing columns cannot fail: nothing refers to a column but its own cells. */
  lemma DropColumnApplies(dl: Dialect, db: Db, call: Call)
    requires Inv(db) && call.RemoveColumn? && Possible(db, call)
    ensures Outcome(dl, db, call).Success? && Outcome(dl, db, call) == DropColumn(db, call.pick, call.column)
    ensures Apply(dl, db, call) == Outcome(dl, db, call).value && Inv(Apply(dl, db, call))
  {
    hide Inv;
    ApplyKeepsInv(dl, db, call);
  }

  lemma FreshColumnId(db: Db)
    requires Inv(db)
    ensures db.nextColumn !in db.columns
  {
  }

  lemma NamedColumnsExactly(db: Db, t: TableId, column: string)
    ensures forall c :: HasName(db, t, ColumnName(column), c) <==> c in NamedColumns(db, Some(t), column)
  {
    hide ColumnName;
  }

  lemma SixMerges(dl: Dialect, db: Db, r: RowId)
    requires Inv(db)
    ensures Merged(dl, db, MERGE_ORDER, r)
            == map[] + Aggregate(dl, db, TextType, r) + Aggregate(dl, db, FloatType, r) + Aggregate(dl, db, DateType, r)
               + Aggregate(dl, db, BoolType, r) + Aggregate(dl, db, EnumType, r) + Aggregate(dl, db, UuidType, r)
  {
    hide Inv, Aggregate, Merged;
    assert [] + [TextType] == [TextType] && [TextType] + [FloatType] == [TextType, FloatType];
    assert [TextType, FloatType] + [DateType] == [TextType, FloatType, DateType];
    assert [TextType, FloatType, DateType] + [BoolType] == [TextType, FloatType, DateType, BoolType];
    assert [TextType, FloatType, DateType, BoolType] + [EnumType]
      == [TextType, FloatType, DateType, BoolType, EnumType];
    assert [TextType, FloatType, DateType, BoolType, EnumType] + [UuidType] == MERGE_ORDER;
    MergedSnoc(dl, db, [], TextType, r);
    MergedSnoc(dl, db, [TextType], FloatType, r);
    MergedSnoc(dl, db, [TextType, FloatType], DateType, r);
    MergedSnoc(dl, db, [TextType, FloatType, DateType], BoolType, r);
    MergedSnoc(dl, db, [TextType, FloatType, DateType, BoolType], EnumType, r);
    MergedSnoc(dl, db, [TextType, FloatType, DateType, BoolType, EnumType], UuidType, r);
  }

  lemma MergedSnoc(dl: Dialect, db: Db, order: seq<ColumnType>, ty: ColumnType, r: RowId)
    requires Inv(db)
    ensures Merged(dl, db, order + [ty], r) == Merged(dl, db, order, r) + Aggregate(dl, db, ty, r)
    ensures Merged(dl, db, [], r) == map[]
  {
    hide Inv, Aggregate;
    assert (order + [ty])[..|order|] == order;
  }

  lemma SchemaStillOk(db: Db, t: TableId, r: RowId, now: Time)
    requires Inv(db)
    ensures ColumnsOk(WithRow(db, t, r, now))
  {
  }

  /** Storing cells changes no later check: the loop only reads columns and rows. */
  lemma SameSchemaSameChecks(dl: Dialect, db: Db, db': Db, t: TableId, r: RowId, name: string, v: Json)
    requires db'.columns == db.columns && db'.rows == db.rows && db'.tables == db.tables
             && db'.nextColumn == db.nextColumn
    ensures ColumnsOk(db) ==> ColumnsOk(db')
    ensures forall c :: HasName(db', t, name, c) <==> HasName(db, t, name, c)
    ensures forall c :: c in db.columns ==> CellFor(dl, db', r, c, v) == CellFor(dl, db, r, c, v)
    ensures forall e :: KeyRaises(dl, db', t, r, name, v, e) <==> KeyRaises(dl, db, t, r, name, v, e)
  {
    hide CellFor, ColumnsOk, KeyRaises;
    assert ColumnsOk(db) ==> ColumnsOk(db') by { if ColumnsOk(db) { SchemaOkAlike(db, db'); } }
    forall c | c in db.columns ensures CellFor(dl, db', r, c, v) == CellFor(dl, db, r, c, v) {
      SameCellCheck(dl, db, db', r, c, v);
    }
    forall e ensures KeyRaises(dl, db', t, r, name, v, e) <==> KeyRaises(dl, db, t, r, name, v, e) {
      if KeyRaises(dl, db', t, r, name, v, e) { RaisesAlike(dl, db', db, t, r, name, v, e); }
      if KeyRaises(dl, db, t, r, name, v, e) { RaisesAlike(dl, db, db', t, r, name, v, e); }
    }
  }

  lemma SchemaOkAlike(db: Db, db': Db)
    requires ColumnsOk(db) && db'.columns == db.columns && db'.tables == db.tables && db'.nextColumn == db.nextColumn
    ensures ColumnsOk(db')
  {
  }

  lemma SameCellCheck(dl: Dialect, db: Db, db': Db, r: RowId, c: ColumnId, v: Json)
    requires db'.columns == db.columns && db'.rows == db.rows && c in db.columns
    ensures CellFor(dl, db', r, c, v) == CellFor(dl, db, r, c, v)
  {
  }

  lemma RaisesAlike(dl: Dialect, db: Db, db': Db, t: TableId, r: RowId, name: string, v: Json, e: Raised)
    requires db'.columns == db.columns && KeyRaises(dl, db, t, r, name, v, e)
    requires forall c :: c in db.columns ==> CellFor(dl, db', r, c, v) == CellFor(dl, db, r, c, v)
    ensures KeyRaises(dl, db', t, r, name, v, e)
  {
    hide CellFor;
    if c :| HasName(db, t, name, c) && CellFor(dl, db, r, c, v) == Failure(e) {
      assert HasName(db', t, name, c);
    } else {
      assert forall c :: HasName(db', t, name, c) ==> HasName(db, t, name, c);
    }
  }

  lemma NothingRaisedFor(dl: Dialect, db: Db, t: TableId, r: RowId, name: string, v: Json, c: ColumnId)
    requires ColumnsOk(db) && HasName(db, t, name, c) && CellFor(dl, db, r, c, v).Success?
    ensures forall e :: !KeyRaises(dl, db, t, r, name, v, e)
  {
    hide CellFor;
    assert forall d :: HasName(db, t, name, d) ==> d == c;
  }

  lemma KeyStoredPlacesOneMore(
    dl: Dialect, db: Db, before: Db, t: TableId, r: RowId, fields: map<string, Json>, done: set<string>, name: string,
    c: ColumnId, after: Db)
    requires ColumnsOk(db) && name in fields
    requires before == db.(cells := Placed(dl, db, t, r, fields, done))
    requires KeyStored(dl, before, t, r, name, fields[name], c, after)
    ensures after == db.(cells := Placed(dl, db, t, r, fields, done + {name}))
    ensures forall e :: !KeyRaises(dl, db, t, r, name, fields[name], e)
  {
    hide ColumnsOk, Placed, CellFor, KeyRaises;
    SameSchemaSameChecks(dl, db, before, t, r, name, fields[name]);
    PlaceOneMore(dl, db, t, r, fields, done, name, c);
    NothingRaisedFor(dl, db, t, r, name, fields[name], c);
  }
}
