/**
The statements that change the store (database/queries/user_tables.sql) as one state machine.
A call carries the choices the database makes for it: the record a `LIMIT 1` returned, the
generated row id, the time. A call that raises leaves the state as it was.
*/
module Operations {
  import opened Wrappers
  import opened Naming
  import opened Schema
  import opened Insertion

  datatype ColumnInput = ColumnInput(
    name: string,
    ty: string,
    required: bool,
    indexed: bool,
    enumValues: seq<string>,
    isReference: bool,
    referenceTable: string,
    requireDifferent: bool)

  datatype Call =
    | CreateTable(org: Org, name: string, now: Time)
    | AddColumn(org: Org, table: string, input: ColumnInput, pick: Option<TableId>, refPick: Option<TableId>)
    | RemoveColumn(org: Org, table: string, column: string, pick: Option<TableId>)
    | InsertRow(org: Org, table: string, payload: Payload, pick: Option<TableId>, row: RowId, now: Time)
    | DeleteRow(org: Org, table: string, row: RowId, pick: Option<TableId>)
    | DeleteTable(org: Org, table: string, pick: Option<TableId>)
    // The migrations' own statements, which only touch tables without an org.
    | SeedTable(name: string, slug: string, now: Time)
    | SeedColumn(definition: Column)
    | SeedRow(t: TableId, payload: Payload, row: RowId, now: Time)

  function CallerOf(call: Call): Option<Org> {
    match call
    case SeedTable(_, _, _) => None
    case SeedColumn(_) => None
    case SeedRow(_, _, _, _) => None
    case _ => Some(call.org)
  }

  function ParseType(s: string): Option<ColumnType> {
    if s == "text" then Some(TextType)
    else if s == "float" then Some(FloatType)
    else if s == "date" then Some(DateType)
    else if s == "bool" then Some(BoolType)
    else if s == "enum" then Some(EnumType)
    else if s == "uuid" then Some(UuidType)
    else None
  }

  // ---------- CreateUserTable ----------

  ghost predicate SlugTaken(db: Db, org: Org, slug: string) {
    exists t :: t in db.tables && db.tables[t].org == Some(org) && db.tables[t].slug == slug
  }

  /** The second unique index of 020_org_scoping, on (org_id, lower(name)). */
  ghost predicate LowerNameTaken(db: Db, org: Org, name: string) {
    exists t :: t in db.tables && db.tables[t].org == Some(org) && Lower(db.tables[t].name) == Lower(name)
  }

  function WithTable(db: Db, table: Table): Db {
    db.(tables := db.tables[db.nextTable := table], nextTable := db.nextTable + 1)
  }

  ghost function Create(db: Db, org: Org, name: string, now: Time): Result<Db, Raised> {
    if SlugTaken(db, org, Slug(name)) then Success(db)
    else if LowerNameTaken(db, org, name) then Failure(UniqueViolation)
    else Success(WithTable(db, Table(Some(org), name, Slug(name), now)))
  }

  // ---------- AddUserTableColumn ----------

  function WithColumn(db: Db, col: Column): Db {
    db.(columns := db.columns[db.nextColumn := col], nextColumn := db.nextColumn + 1)
  }

  function NewColumn(input: ColumnInput, t: TableId, ty: ColumnType, ref: Option<TableId>): (col: Column)
    ensures col.table == t && col.ty == ty && col.refTable == ref
    ensures col.required == input.required && col.indexed == input.indexed
    ensures col.isReference == input.isReference && col.requireDifferent == input.requireDifferent
    ensures col.allowed == if ty == EnumType then Some(input.enumValues) else None
    ensures col.name == ColumnName(input.name)
    ensures ColumnName(col.name) == col.name
  {
    ColumnNameIsStable(input.name);
    Column(t, ColumnName(input.name), ty, input.required, input.indexed,
           if ty == EnumType then Some(input.enumValues) else None,
           input.isReference, ref, input.requireDifferent)
  }

  /** NOT NULL, the two CHECKs, then ON CONFLICT (table_id, name) DO NOTHING. */
  ghost function AddNamedColumn(
    db: Db, input: ColumnInput, pick: Option<TableId>, ref: Option<TableId>): Result<Db, Raised>
  {
    match ParseType(input.ty)
    case None => Failure(InvalidText(input.ty))
    case Some(ty) =>
      if pick.None? then Failure(NotNullViolation)
      else if ty != UuidType && input.isReference then Failure(CheckViolation)
      else if exists c :: HasName(db, pick.value, ColumnName(input.name), c) then Success(db)
      else Success(WithColumn(db, NewColumn(input, pick.value, ty, ref)))
  }

  // ---------- Deletes ----------

  /** What is left of the store after deleting some tables, columns and rows, and all their cells. */
  function Prune(db: Db, tables: set<TableId>, columns: set<ColumnId>, rows: set<RowId>): Db {
    db.(tables := db.tables - tables,
        columns := db.columns - columns,
        rows := db.rows - rows,
        cells := db.cells.Map((ty, b) => PruneBucket(b, columns, rows)))
  }

  function PruneBucket(b: Bucket, columns: set<ColumnId>, rows: set<RowId>): Bucket {
    map k | k in b && k.row !in rows && k.col !in columns :: b[k]
  }

  /** The RESTRICT key of `app.columns.reference_table_id`, once the cascades have run. */
  ghost predicate TableReferenced(db: Db, tables: set<TableId>) {
    exists c :: c in db.columns && db.columns[c].refTable.Some? && db.columns[c].refTable.value in tables
  }

  /** The RESTRICT key of `app.values_uuid.value`, once the cascades have run. */
  ghost predicate RowReferenced(db: Db, rows: set<RowId>) {
    exists k :: k in db.cells.uuids && db.cells.uuids[k].Some? && db.cells.uuids[k].value.UuidValue?
                && db.cells.uuids[k].value.u in rows
  }

  ghost function Restricted(
    db: Db, tables: set<TableId>, columns: set<ColumnId>, rows: set<RowId>): Result<Db, Raised>
  {
    var pruned := Prune(db, tables, columns, rows);
    if TableReferenced(pruned, tables) || RowReferenced(pruned, rows) then Failure(ForeignKeyViolation)
    else Success(pruned)
  }

  function ColumnsOf(db: Db, t: TableId): set<ColumnId> { set c | c in db.columns && db.columns[c].table == t }

  function RowsOf(db: Db, t: TableId): set<RowId> { set r | r in db.rows && db.rows[r].table == t }

  ghost function DropTable(db: Db, pick: Option<TableId>): Result<Db, Raised> {
    match pick
    case None => Success(db)
    case Some(t) => Restricted(db, {t}, ColumnsOf(db, t), RowsOf(db, t))
  }

  ghost function DropRow(db: Db, pick: Option<TableId>, r: RowId): Result<Db, Raised> {
    if pick.Some? && r in db.rows && db.rows[r].table == pick.value then Restricted(db, {}, {}, {r})
    else Success(db)
  }

  /** The columns `RemoveUserTableColumn` targets: at most one, by UNIQUE (table_id, name). */
  function NamedColumns(db: Db, pick: Option<TableId>, column: string): set<ColumnId> {
    set c | c in db.columns && pick.Some? && HasName(db, pick.value, ColumnName(column), c)
  }

  ghost function DropColumn(db: Db, pick: Option<TableId>, column: string): Result<Db, Raised> {
    Restricted(db, {}, NamedColumns(db, pick, column), {})
  }

  // ---------- The state machine ----------

  ghost function Insert(
    dl: Dialect, db: Db, pick: Option<TableId>, row: RowId, now: Time, payload: Payload): Result<Db, Raised>
  {
    if Accepts(dl, db, pick, row, now, payload) then Success(Inserted(dl, db, pick.value, row, now, payload))
    else
      AcceptedIffNothingRaised(dl, db, pick, row, now, payload);
      Failure(var e :| InsertRaises(dl, db, pick, row, now, payload, e); e)
  }

  ghost predicate IsGlobal(db: Db, t: TableId) { t in db.tables && db.tables[t].org.None? }

  /** The choices a call carries are ones the database could have made. */
  ghost predicate Possible(db: Db, call: Call) {
    match call
    case CreateTable(_, _, _) => true
    case AddColumn(org, table, input, pick, refPick) =>
      && Picks(Candidates(db, org, table, true), pick)
      && (if input.referenceTable == "" then refPick.None?
          else Picks(Candidates(db, org, input.referenceTable, true), refPick))
    case RemoveColumn(org, table, _, pick) => Picks(Candidates(db, org, table, true), pick)
    case InsertRow(org, table, _, pick, row, _) => Picks(Candidates(db, org, table, true), pick) && row !in db.issued
    case DeleteRow(org, table, _, pick) => Picks(Candidates(db, org, table, false), pick)
    case DeleteTable(org, table, pick) => Picks(Candidates(db, org, table, false), pick)
    case SeedTable(_, _, _) => true
    case SeedColumn(column) =>
      && IsGlobal(db, column.table) && ColumnOk(db, column)
      && forall c :: !HasName(db, column.table, column.name, c)
    case SeedRow(t, _, row, _) => IsGlobal(db, t) && row !in db.issued
  }

  ghost function Outcome(dl: Dialect, db: Db, call: Call): Result<Db, Raised> {
    match call
    case CreateTable(org, name, now) => Create(db, org, name, now)
    case AddColumn(_, _, input, pick, refPick) => AddNamedColumn(db, input, pick, refPick)
    case RemoveColumn(_, _, column, pick) => DropColumn(db, pick, column)
    case InsertRow(_, _, payload, pick, row, now) => Insert(dl, db, pick, row, now, payload)
    case DeleteRow(_, _, row, pick) => DropRow(db, pick, row)
    case DeleteTable(_, _, pick) => DropTable(db, pick)
    case SeedTable(name, slug, now) => Success(WithTable(db, Table(None, name, slug, now)))
    case SeedColumn(column) => Success(WithColumn(db, column))
    case SeedRow(t, payload, row, now) => Insert(dl, db, Some(t), row, now, payload)
  }

  /** One step: an impossible choice or an exception changes nothing. */
  ghost function Apply(dl: Dialect, db: Db, call: Call): Db {
    if Possible(db, call) && Outcome(dl, db, call).Success? then Outcome(dl, db, call).value else db
  }

  /** A run of calls, in order. */
  ghost function Run(dl: Dialect, db: Db, calls: seq<Call>): Db
    decreases |calls|
  {
    if calls == [] then db else Run(dl, Apply(dl, db, calls[0]), calls[1..])
  }

  // ---------- Every state of every run satisfies the constraints ----------

  lemma CreateNeverHitsNameIndex(db: Db, org: Org, name: string, now: Time)
    requires TablesOk(db)
    ensures LowerNameTaken(db, org, name) ==> SlugTaken(db, org, Slug(name))
    ensures Create(db, org, name, now).Success?
  {
    if LowerNameTaken(db, org, name) {
      var t :| t in db.tables && db.tables[t].org == Some(org) && Lower(db.tables[t].name) == Lower(name);
      SlugIsStable(name);
      SlugIsStable(db.tables[t].name);
      assert db.tables[t].slug == Slug(name);
    }
  }

  /** After creating a table, any name with the same slug finds it again and changes nothing. */
  lemma RecreatingFindsTheTable(db: Db, org: Org, name: string, again: string, now: Time, later: Time)
    requires TablesOk(db) && Slug(again) == Slug(name)
    ensures var db' := Create(db, org, name, now).value;
            && Create(db, org, name, now).Success?
            && Create(db', org, again, later) == Success(db')
            && SlugTaken(db', org, Slug(again))
  {
    CreateNeverHitsNameIndex(db, org, name, now);
    var db' := Create(db, org, name, now).value;
    if !SlugTaken(db, org, Slug(name)) {
      assert db'.tables[db.nextTable].slug == Slug(again);
    }
  }

  /**
  A table created under a free slug is stored under exactly the given name, and the org finds it, and
  it alone, by the name and by the slug in any case.
  */
  lemma CreatedTableIsFound(db: Db, org: Org, name: string, again: string, now: Time, orGlobal: bool)
    requires TablesOk(db) && !SlugTaken(db, org, Slug(name))
    requires Lower(again) == Lower(name) || Lower(again) == Slug(name)
    ensures Create(db, org, name, now).Success?
    ensures var db' := Create(db, org, name, now).value;
            && db.nextTable !in db.tables
            && db' == db.(tables := db.tables[db.nextTable := Table(Some(org), name, Slug(name), now)],
                          nextTable := db.nextTable + 1)
            && Candidates(db', org, again, orGlobal) == {db.nextTable}
  {
    CreateNeverHitsNameIndex(db, org, name, now);
    var db' := Create(db, org, name, now).value;
    OwnTableIsFound(db', org, db.nextTable, again, orGlobal);
  }

  /**
  Adding a column fails on a type that is none of the six, without a table, and for a reference that
  is no uuid column; it finds the column of the normalised name, or stores one as it was asked for.
  */
  lemma AddColumnExactly(db: Db, input: ColumnInput, pick: Option<TableId>, ref: Option<TableId>)
    requires ColumnsOk(db)
    ensures var known := input.ty in {"text", "float", "date", "bool", "enum", "uuid"};
            var reference := input.isReference && input.ty != "uuid";
            var added := AddNamedColumn(db, input, pick, ref);
            && (added == Failure(InvalidText(input.ty)) <==> !known)
            && (added == Failure(NotNullViolation) <==> known && pick == None)
            && (added == Failure(CheckViolation) <==> known && pick != None && reference)
            && (added.Success? <==> known && pick != None && !reference)
            && (added.Success? ==> AddedOrFound(db, added.value, input, pick.value, ref))
  {
    hide ColumnName, AddedOrFound, ColumnsOk;
    if AddNamedColumn(db, input, pick, ref).Success? { IsAddedOrFound(db, input, pick.value, ref); }
  }

  lemma IsAddedOrFound(db: Db, input: ColumnInput, t: TableId, ref: Option<TableId>)
    requires ColumnsOk(db) && AddNamedColumn(db, input, Some(t), ref).Success?
    ensures AddedOrFound(db, AddNamedColumn(db, input, Some(t), ref).value, input, t, ref)
  {
    assert db.nextColumn !in db.columns;
    hide ColumnName, ColumnsOk;
    NewColumnIsAsAsked(input, t, ParseType(input.ty).value, ref);
    hide AsAsked, NewColumn, ParseType;
    if c :| c in db.columns && db.columns[c].table == t && db.columns[c].name == ColumnName(input.name) {
      assert HasName(db, t, ColumnName(input.name), c);
    }
  }

  lemma NewColumnIsAsAsked(input: ColumnInput, t: TableId, ty: ColumnType, ref: Option<TableId>)
    requires ParseType(input.ty) == Some(ty)
    ensures AsAsked(NewColumn(input, t, ty, ref), input, t, ref)
  {
  }

  /** A column of that name was there and nothing changes, or there is one more. */
  ghost predicate AddedOrFound(db: Db, db': Db, input: ColumnInput, t: TableId, ref: Option<TableId>) {
    if exists c :: c in db.columns && db.columns[c].table == t && db.columns[c].name == ColumnName(input.name) then
      db' == db
    else
      && db.nextColumn !in db.columns && db.nextColumn in db'.columns
      && db' == db.(columns := db.columns[db.nextColumn := db'.columns[db.nextColumn]], nextColumn := db.nextColumn + 1)
      && AsAsked(db'.columns[db.nextColumn], input, t, ref)
  }

  predicate AsAsked(col: Column, input: ColumnInput, t: TableId, ref: Option<TableId>) {
    && col.table == t && col.name == ColumnName(input.name) && col.refTable == ref
    && (match col.ty
        case TextType => input.ty == "text"
        case FloatType => input.ty == "float"
        case DateType => input.ty == "date"
        case BoolType => input.ty == "bool"
        case EnumType => input.ty == "enum"
        case UuidType => input.ty == "uuid")
    && col.allowed == (if input.ty == "enum" then Some(input.enumValues) else None)
    && col.required == input.required && col.indexed == input.indexed
    && col.isReference == input.isReference && col.requireDifferent == input.requireDifferent
  }

  /** An org's own table of that slug or name, in any case. */
  ghost predicate Called(db: Db, t: TableId, owner: Option<Org>, name: string) {
    && t in db.tables && db.tables[t].org == owner
    && (db.tables[t].slug == Lower(name) || Lower(db.tables[t].name) == Lower(name))
  }

  /** An own table wins, a global one is used without any own, and only without both there is none. */
  ghost predicate ResolvesToOwnOrGlobal(db: Db, org: Org, name: string, pick: Option<TableId>) {
    match pick
    case Some(t) =>
      || Called(db, t, Some(org), name)
      || (Called(db, t, None, name) && forall own :: !Called(db, own, Some(org), name))
    case None => forall t :: !Called(db, t, Some(org), name) && !Called(db, t, None, name)
  }

  ghost predicate ResolvesToOwn(db: Db, org: Org, name: string, pick: Option<TableId>) {
    match pick
    case Some(t) => Called(db, t, Some(org), name)
    case None => forall t :: !Called(db, t, Some(org), name)
  }

  /** Which table each statement works on: only the deletes of tables and rows and the search do without global ones. */
  lemma PicksExactly(db: Db, org: Org, name: string, pick: Option<TableId>)
    ensures Picks(Candidates(db, org, name, true), pick) <==> ResolvesToOwnOrGlobal(db, org, name, pick)
    ensures Picks(Candidates(db, org, name, false), pick) <==> ResolvesToOwn(db, org, name, pick)
  {
    assert forall t: TableId :: t in OwnMatches(db, org, name) <==> Called(db, t, Some(org), name);
    assert OwnMatches(db, org, name) == {} ==>
        forall t: TableId :: t in Candidates(db, org, name, true) <==> Called(db, t, None, name);
  }

  lemma StatementsResolve(db: Db, call: Call)
    requires CallerOf(call).Some? && !call.CreateTable?
    ensures Possible(db, call) <==>
              && (match call
                  case AddColumn(org, table, _, pick, _) => ResolvesToOwnOrGlobal(db, org, table, pick)
                  case RemoveColumn(org, table, _, pick) => ResolvesToOwnOrGlobal(db, org, table, pick)
                  case InsertRow(org, table, _, pick, row, _) =>
                    ResolvesToOwnOrGlobal(db, org, table, pick) && row !in db.issued
                  case DeleteRow(org, table, _, pick) => ResolvesToOwn(db, org, table, pick)
                  case DeleteTable(org, table, pick) => ResolvesToOwn(db, org, table, pick)
                  case _ => true)
              && (call.AddColumn? ==>
                    if call.input.referenceTable == "" then call.refPick == None
                    else ResolvesToOwnOrGlobal(db, call.org, call.input.referenceTable, call.refPick))
  {
    hide Picks, Candidates, ResolvesToOwn, ResolvesToOwnOrGlobal;
    PicksExactly(db, call.org, call.table, call.pick);
    if call.AddColumn? { PicksExactly(db, call.org, call.input.referenceTable, call.refPick); }
  }

  lemma CreateKeepsInv(db: Db, org: Org, name: string, now: Time)
    requires Inv(db)
    ensures Inv(Create(db, org, name, now).value) && Create(db, org, name, now).Success?
  {
    CreateNeverHitsNameIndex(db, org, name, now);
    if !SlugTaken(db, org, Slug(name)) {
      AddingTableKeepsInv(db, Table(Some(org), name, Slug(name), now));
    }
  }

  lemma AddingTableKeepsInv(db: Db, table: Table)
    requires Inv(db)
    requires table.org.Some? ==> table.slug == Slug(table.name) && !SlugTaken(db, table.org.value, table.slug)
    ensures Inv(WithTable(db, table))
  {
    var db' := WithTable(db, table);
    forall ty, k | k in db'.cells.At(ty) ensures CellOk(db', ty, k, db'.cells.At(ty)[k]) {
      CellOkWhenGrowing(db, db', ty, k, db.cells.At(ty)[k]);
    }
  }

  lemma AddingColumnKeepsInv(db: Db, col: Column)
    requires Inv(db) && ColumnOk(db, col) && forall c :: !HasName(db, col.table, col.name, c)
    ensures Inv(WithColumn(db, col))
  {
    var db' := WithColumn(db, col);
    assert ColumnsOk(db') by {
      forall c <- db.columns ensures !(db.columns[c].table == col.table && db.columns[c].name == col.name) {
        assert !HasName(db, col.table, col.name, c);
      }
    }
    forall ty, k | k in db'.cells.At(ty) ensures CellOk(db', ty, k, db'.cells.At(ty)[k]) {
      CellOkWhenGrowing(db, db', ty, k, db.cells.At(ty)[k]);
    }
  }

  /** A delete that passes both RESTRICT keys leaves no dangling reference of any kind. */
  lemma PruneKeepsInv(db: Db, tables: set<TableId>, columns: set<ColumnId>, rows: set<RowId>)
    requires Inv(db)
    requires forall c <- db.columns :: db.columns[c].table in tables ==> c in columns
    requires forall r <- db.rows :: db.rows[r].table in tables ==> r in rows
    requires Restricted(db, tables, columns, rows).Success?
    ensures Inv(Prune(db, tables, columns, rows))
  {
    var db' := Prune(db, tables, columns, rows);
    assert TablesOk(db') by { hide ColumnsOk, CellsOk; }
    assert ColumnsOk(db') by { hide TablesOk, CellsOk, RowReferenced; }
    assert CellsOk(db') by { PruneKeepsCellsOk(db, tables, columns, rows); }
  }

  lemma PruneKeepsCellsOk(db: Db, tables: set<TableId>, columns: set<ColumnId>, rows: set<RowId>)
    requires CellsOk(db) && !RowReferenced(Prune(db, tables, columns, rows), rows)
    ensures CellsOk(Prune(db, tables, columns, rows))
  {
    var db' := Prune(db, tables, columns, rows);
    forall ty, k | k in db'.cells.At(ty) ensures CellOk(db', ty, k, db'.cells.At(ty)[k]) {
      assert CellOk(db, ty, k, db.cells.At(ty)[k]);
      if ty == UuidType {
        assert k in db'.cells.uuids;
      }
    }
  }

  lemma OutcomeKeepsInv(dl: Dialect, db: Db, call: Call)
    requires Inv(db) && Possible(db, call) && Outcome(dl, db, call).Success?
    ensures Inv(Outcome(dl, db, call).value)
  {
    hide TablesOk, ColumnsOk, RowsOk, CellsOk, Inserted, Prune, KeysAccepted, MissesRequired;
    match call
    case CreateTable(org, name, now) => CreateKeepsInv(db, org, name, now);
    case AddColumn(org, table, input, pick, refPick) => AddColumnKeepsInv(db, call);
    case RemoveColumn(_, _, column, pick) => PruneKeepsInv(db, {}, NamedColumns(db, pick, column), {});
    case InsertRow(_, _, payload, pick, row, now) => InsertKeepsInv(dl, db, pick.value, row, now, payload);
    case DeleteRow(_, _, row, pick) =>
      if pick.Some? && row in db.rows && db.rows[row].table == pick.value { PruneKeepsInv(db, {}, {}, {row}); }
    case DeleteTable(_, _, pick) =>
      if pick.Some? { PruneKeepsInv(db, {pick.value}, ColumnsOf(db, pick.value), RowsOf(db, pick.value)); }
    case SeedTable(name, slug, now) => AddingTableKeepsInv(db, Table(None, name, slug, now));
    case SeedColumn(column) => AddingColumnKeepsInv(db, column);
    case SeedRow(t, payload, row, now) => InsertKeepsInv(dl, db, t, row, now, payload);
  }

  lemma AddColumnKeepsInv(db: Db, call: Call)
    requires Inv(db) && call.AddColumn? && Possible(db, call)
    requires AddNamedColumn(db, call.input, call.pick, call.refPick).Success?
    ensures Inv(AddNamedColumn(db, call.input, call.pick, call.refPick).value)
  {
    hide TablesOk, ColumnsOk, RowsOk, CellsOk;
    var ty := ParseType(call.input.ty).value;
    var col := NewColumn(call.input, call.pick.value, ty, call.refPick);
    if forall c :: !HasName(db, col.table, col.name, c) {
      AddingColumnKeepsInv(db, col);
    }
  }

  lemma ApplyKeepsInv(dl: Dialect, db: Db, call: Call)
    requires Inv(db)
    ensures Inv(Apply(dl, db, call))
  {
    hide Inv, Possible, Outcome;
    if Possible(db, call) && Outcome(dl, db, call).Success? {
      OutcomeKeepsInv(dl, db, call);
    }
  }

  lemma {:induction false} RunKeepsInv(dl: Dialect, db: Db, calls: seq<Call>)
    requires Inv(db)
    ensures Inv(Run(dl, db, calls))
    decreases |calls|
  {
    hide Inv, Apply;
    if calls != [] {
      ApplyKeepsInv(dl, db, calls[0]);
      RunKeepsInv(dl, Apply(dl, db, calls[0]), calls[1..]);
    }
  }

  /** Safety over whole runs: every state reached from the empty store satisfies every constraint. */
  lemma ReachableStatesAreSound(dl: Dialect, calls: seq<Call>)
    ensures Inv(Run(dl, EMPTY, calls))
  {
    RunKeepsInv(dl, EMPTY, calls);
  }
}
