/**
`app.insert_row` and the two row triggers (database/schema/007, 008 and 012) as a specification:
which payloads are accepted and which cells they leave. The loop itself is Store.InsertRow.
*/
module Insertion {
  import opened Wrappers
  import opened Schema

  /** A jsonb value; numbers and compound values are only ever read through their text. */
  datatype Json = Null | Bool(b: bool) | Number(text: string) | Str(s: string) | Compound(text: string)

  datatype Payload = Object(fields: map<string, Json>) | NotAnObject

  /** The text casts of the database, as partial functions, and its output functions. */
  datatype Dialect = Dialect(
    castFloat: string -> Option<Float>,
    castDate: string -> Option<int>,
    castBool: string -> Option<bool>,
    castUuid: string -> Option<RowId>,
    showFloat: Float -> Json,
    showDate: int -> string,
    showUuid: RowId -> string,
    showTime: Time -> string,
    ilike: (string, string) -> bool)

  datatype Raised =
    | NotNullViolation
    | UniqueViolation
    | CheckViolation
    | ForeignKeyViolation
    | PayloadNotAnObject
    | UnknownColumn(name: string)
    | RequiredColumnNull(name: string)
    | InvalidText(name: string)
    | NotEnumTyped(column: ColumnId)
    | NotInEnum(column: ColumnId)
    | WrongReferenceTable
    | SameReferenceTable
    | MissingRequiredColumns
    | OutOfRange

  /** `value #>> '{}'`: JSON null is SQL NULL, a string loses its quotes. */
  function Unwrap(v: Json): Option<string> {
    match v
    case Null => None
    case Bool(b) => Some(if b then "true" else "false")
    case Number(text) => Some(text)
    case Str(s) => Some(s)
    case Compound(text) => Some(text)
  }

  /** The cast to a column type: `None` is a cast error, `Some(None)` the cast of NULL. */
  function Cast(dl: Dialect, ty: ColumnType, text: Option<string>): Option<Option<Value>> {
    if text.None? then Some(None)
    else
      match ty
      case TextType => Some(Some(TextValue(text.value)))
      case EnumType => Some(Some(TextValue(text.value)))
      case FloatType =>
        (match dl.castFloat(text.value) case None => None case Some(f) => Some(Some(FloatValue(f))))
      case DateType =>
        (match dl.castDate(text.value) case None => None case Some(d) => Some(Some(DateValue(d))))
      case BoolType =>
        (match dl.castBool(text.value) case None => None case Some(b) => Some(Some(BoolValue(b))))
      case UuidType =>
        (match dl.castUuid(text.value) case None => None case Some(u) => Some(Some(UuidValue(u))))
  }

  /** Trigger `app.enforce_enum` on `app.values_enum`. */
  function EnforceEnum(c: ColumnId, col: Column, value: Option<Value>): Option<Raised> {
    if col.allowed.None? then Some(NotEnumTyped(c))
    else if value.Some? && !(value.value.TextValue? && value.value.s in col.allowed.value) then Some(NotInEnum(c))
    else None
  }

  /** The table of a row, NULL when there is no such row. */
  function TableOfRow(db: Db, r: RowId): Option<TableId> {
    if r in db.rows then Some(db.rows[r].table) else None
  }

  /** SQL `a <> b` and `a = b` in a condition: NULL counts as false. */
  predicate SqlDiffers(a: Option<TableId>, b: Option<TableId>) { a.Some? && b.Some? && a != b }

  predicate SqlEquals(a: Option<TableId>, b: Option<TableId>) { a.Some? && b.Some? && a == b }

  /** Trigger `app.enforce_uuid_reference`, which lets a missing target through. */
  function EnforceUuidReference(db: Db, r: RowId, col: Column, value: Option<Value>): Option<Raised> {
    if value.None? || !value.value.UuidValue? then None
    else if col.ty != UuidType || !col.isReference then None
    else
      var source := TableOfRow(db, r);
      var target := TableOfRow(db, value.value.u);
      if col.refTable.Some? && SqlDiffers(target, col.refTable) then Some(WrongReferenceTable)
      else if col.requireDifferent && SqlEquals(source, target) then Some(SameReferenceTable)
      else None
  }

  /** The foreign key of `app.values_uuid.value`, checked after the trigger. */
  function UuidForeignKey(db: Db, value: Option<Value>): Option<Raised> {
    if value.Some? && value.value.UuidValue? && value.value.u !in db.rows then Some(ForeignKeyViolation) else None
  }

  /** Everything that can stop one record of a value table. */
  function CellError(db: Db, r: RowId, c: ColumnId, col: Column, value: Option<Value>): Option<Raised> {
    match col.ty
    case EnumType => EnforceEnum(c, col, value)
    case UuidType =>
      var trigger := EnforceUuidReference(db, r, col, value);
      if trigger.Some? then trigger else UuidForeignKey(db, value)
    case _ => None
  }

  /** The loop body for one key whose column is `c`: the value to store or the exception. */
  function CellFor(dl: Dialect, db: Db, r: RowId, c: ColumnId, v: Json): Result<Option<Value>, Raised>
    requires c in db.columns
  {
    var col := db.columns[c];
    var text := Unwrap(v);
    if col.required && text.None? then Failure(RequiredColumnNull(col.name))
    else
      match Cast(dl, col.ty, text)
      case None => Failure(InvalidText(col.name))
      case Some(value) =>
        match CellError(db, r, c, col, value)
        case Some(e) => Failure(e)
        case None => Success(value)
  }

  predicate HasName(db: Db, t: TableId, name: string, c: ColumnId) {
    c in db.columns && db.columns[c].table == t && db.columns[c].name == name
  }

  /** One iteration of the key loop raises `e`. */
  ghost predicate KeyRaises(dl: Dialect, db: Db, t: TableId, r: RowId, name: string, v: Json, e: Raised) {
    || (e == UnknownColumn(name) && forall c :: !HasName(db, t, name, c))
    || (exists c :: HasName(db, t, name, c) && CellFor(dl, db, r, c, v) == Failure(e))
  }

  /** The state in which the loop runs: the new row exists, without cells. */
  function WithRow(db: Db, t: TableId, r: RowId, now: Time): Db {
    db.(rows := db.rows[r := Row(t, now)], issued := db.issued + {r})
  }

  /** Column `c` receives a record in the value table of type `ty` from one of the keys `done`. */
  predicate Receives(
    dl: Dialect, db: Db, t: TableId, r: RowId, fields: map<string, Json>, done: set<string>, ty: ColumnType,
    c: ColumnId)
  {
    && c in db.columns
    && db.columns[c].table == t && db.columns[c].ty == ty
    && db.columns[c].name in done && db.columns[c].name in fields
    && CellFor(dl, db, r, c, fields[db.columns[c].name]).Success?
  }

  function RowKeys(db: Db, r: RowId): (keys: set<Key>)
    ensures forall k :: k in keys <==> k.row == r && k.col in db.columns
  {
    set c | c in db.columns :: Key(r, c)
  }

  /** The records the keys `done` put into the value table of type `ty`. */
  function NewCells(
    dl: Dialect, db: Db, t: TableId, r: RowId, fields: map<string, Json>, done: set<string>, ty: ColumnType): Bucket
  {
    map k | k in RowKeys(db, r) && Receives(dl, db, t, r, fields, done, ty, k.col)
      :: CellFor(dl, db, r, k.col, fields[db.columns[k.col].name]).value
  }

  function Placed(dl: Dialect, db: Db, t: TableId, r: RowId, fields: map<string, Json>, done: set<string>): Buckets {
    db.cells.Map((ty, b) => b + NewCells(dl, db, t, r, fields, done, ty))
  }

  /** The final pass over the required columns; `app.values_float` is not looked at. */
  ghost predicate MissesRequired(db: Db, cells: Buckets, t: TableId, r: RowId) {
    exists c :: c in db.columns && db.columns[c].table == t && db.columns[c].required && !Stored(cells, Key(r, c))
  }

  predicate Stored(cells: Buckets, k: Key) {
    k in cells.text || k in cells.date || k in cells.bools || k in cells.enums || k in cells.uuids
  }

  ghost predicate KeysAccepted(dl: Dialect, db: Db, t: TableId, r: RowId, fields: map<string, Json>) {
    forall name, e :: name in fields ==> !KeyRaises(dl, db, t, r, name, fields[name], e)
  }

  /** `insert_row(t, payload)` with fresh row id `r` may raise `e`. */
  ghost predicate InsertRaises(
    dl: Dialect, db: Db, t: Option<TableId>, r: RowId, now: Time, payload: Payload, e: Raised)
  {
    if t.None? then e == NotNullViolation
    else if t.value !in db.tables then e == ForeignKeyViolation
    else if payload.NotAnObject? then e == PayloadNotAnObject
    else
      var db1 := WithRow(db, t.value, r, now);
      || (exists name :: name in payload.fields && KeyRaises(dl, db1, t.value, r, name, payload.fields[name], e))
      || (&& KeysAccepted(dl, db1, t.value, r, payload.fields)
          && MissesRequired(db1, Placed(dl, db1, t.value, r, payload.fields, payload.fields.Keys), t.value, r)
          && e == MissingRequiredColumns)
  }

  ghost predicate Accepts(dl: Dialect, db: Db, t: Option<TableId>, r: RowId, now: Time, payload: Payload) {
    && t.Some? && t.value in db.tables && payload.Object?
    && var db1 := WithRow(db, t.value, r, now);
       && KeysAccepted(dl, db1, t.value, r, payload.fields)
       && !MissesRequired(db1, Placed(dl, db1, t.value, r, payload.fields, payload.fields.Keys), t.value, r)
  }

  /** The state after an accepted insertion. */
  function Inserted(dl: Dialect, db: Db, t: TableId, r: RowId, now: Time, payload: Payload): Db
    requires payload.Object?
  {
    var db1 := WithRow(db, t, r, now);
    db1.(cells := Placed(dl, db1, t, r, payload.fields, payload.fields.Keys))
  }

  // ---------- What the specification means ----------

  /** An insertion is accepted exactly when no exception is raised. */
  lemma AcceptedIffNothingRaised(dl: Dialect, db: Db, t: Option<TableId>, r: RowId, now: Time, payload: Payload)
    ensures Accepts(dl, db, t, r, now, payload) <==> !exists e :: InsertRaises(dl, db, t, r, now, payload, e)
  {
    if t.None? {
      assert InsertRaises(dl, db, t, r, now, payload, NotNullViolation);
    } else if t.value !in db.tables {
      assert InsertRaises(dl, db, t, r, now, payload, ForeignKeyViolation);
    } else if payload.NotAnObject? {
      assert InsertRaises(dl, db, t, r, now, payload, PayloadNotAnObject);
    } else {
      var db1 := WithRow(db, t.value, r, now);
      if !KeysAccepted(dl, db1, t.value, r, payload.fields) {
        var name, e :| name in payload.fields && KeyRaises(dl, db1, t.value, r, name, payload.fields[name], e);
        assert InsertRaises(dl, db, t, r, now, payload, e);
      } else if MissesRequired(db1, Placed(dl, db1, t.value, r, payload.fields, payload.fields.Keys), t.value, r) {
        assert InsertRaises(dl, db, t, r, now, payload, MissingRequiredColumns);
      }
    }
  }

  /** In an accepted payload every key names a column of the table and its value passes all checks. */
  lemma AcceptedKey(dl: Dialect, db: Db, t: TableId, r: RowId, fields: map<string, Json>, name: string)
    returns (c: ColumnId)
    requires KeysAccepted(dl, db, t, r, fields) && name in fields
    ensures HasName(db, t, name, c) && CellFor(dl, db, r, c, fields[name]).Success?
  {
    if forall d :: !HasName(db, t, name, d) {
      assert KeyRaises(dl, db, t, r, name, fields[name], UnknownColumn(name));
    }
    c :| HasName(db, t, name, c);
    if CellFor(dl, db, r, c, fields[name]).Failure? {
      assert KeyRaises(dl, db, t, r, name, fields[name], CellFor(dl, db, r, c, fields[name]).error);
    }
  }

  /** Conversely a column of the table with a key of that name has a storable value. */
  lemma AcceptedColumn(dl: Dialect, db: Db, t: TableId, r: RowId, fields: map<string, Json>, c: ColumnId)
    requires KeysAccepted(dl, db, t, r, fields)
    requires c in db.columns && db.columns[c].table == t && db.columns[c].name in fields
    ensures CellFor(dl, db, r, c, fields[db.columns[c].name]).Success?
  {
    var name := db.columns[c].name;
    if CellFor(dl, db, r, c, fields[name]).Failure? {
      assert HasName(db, t, name, c);
      assert KeyRaises(dl, db, t, r, name, fields[name], CellFor(dl, db, r, c, fields[name]).error);
    }
  }

  lemma PlacedAt(
    dl: Dialect, db: Db, t: TableId, r: RowId, fields: map<string, Json>, done: set<string>, ty: ColumnType)
    ensures Placed(dl, db, t, r, fields, done).At(ty) == db.cells.At(ty) + NewCells(dl, db, t, r, fields, done, ty)
  {
    hide NewCells;
  }

  /** What an accepted insertion stores for a column of the table. */
  lemma StoredForColumn(
    dl: Dialect, db: Db, t: TableId, r: RowId, now: Time, payload: Payload, c: ColumnId, ty: ColumnType)
    requires Inv(db) && r !in db.issued && Accepts(dl, db, Some(t), r, now, payload)
    requires c in db.columns && db.columns[c].table == t
    ensures var db' := Inserted(dl, db, t, r, now, payload);
            var db1 := WithRow(db, t, r, now);
            && (Key(r, c) in db'.cells.At(ty) <==> ty == db.columns[c].ty && db.columns[c].name in payload.fields)
            && (Key(r, c) in db'.cells.At(ty) ==>
                  CellFor(dl, db1, r, c, payload.fields[db.columns[c].name]) == Success(db'.cells.At(ty)[Key(r, c)]))
  {
    hide Placed, MissesRequired;
    var db1 := WithRow(db, t, r, now);
    PlacedAt(dl, db1, t, r, payload.fields, payload.fields.Keys, ty);
    UnissuedRowHasNoCells(db, r);
    if db.columns[c].name in payload.fields {
      AcceptedColumn(dl, db1, t, r, payload.fields, c);
    }
  }

  /** Every required column holds a non-null value right after an accepted insertion. */
  lemma RequiredColumnsStored(dl: Dialect, db: Db, t: TableId, r: RowId, now: Time, payload: Payload, c: ColumnId)
    requires Inv(db) && r !in db.issued && Accepts(dl, db, Some(t), r, now, payload)
    requires c in db.columns && db.columns[c].table == t && db.columns[c].required
    ensures var bucket := Inserted(dl, db, t, r, now, payload).cells.At(db.columns[c].ty);
            Key(r, c) in bucket && bucket[Key(r, c)].Some?
  {
    hide Placed, NewCells, KeysAccepted;
    var db' := Inserted(dl, db, t, r, now, payload);
    assert Stored(db'.cells, Key(r, c));
    StoredTypes(db'.cells, Key(r, c));
    var ty :| Key(r, c) in db'.cells.At(ty);
    StoredForColumn(dl, db, t, r, now, payload, c, ty);
  }

  lemma StoredTypes(cells: Buckets, k: Key)
    ensures Stored(cells, k) <==> exists ty :: ty != FloatType && k in cells.At(ty)
  {
    if Stored(cells, k) {
      var ty := if k in cells.text then TextType else if k in cells.date then DateType
                else if k in cells.bools then BoolType else if k in cells.enums then EnumType else UuidType;
      assert ty != FloatType && k in cells.At(ty);
    }
  }

  /**
  The exact effect of the final required check on a payload whose keys are all fine: every
  required column must be among the keys, and none may be a float column.
  */
  lemma RequiredCheckExactly(dl: Dialect, db: Db, t: TableId, r: RowId, now: Time, payload: Payload)
    requires Inv(db) && r !in db.issued && t in db.tables && payload.Object?
    requires KeysAccepted(dl, WithRow(db, t, r, now), t, r, payload.fields)
    ensures Accepts(dl, db, Some(t), r, now, payload) <==>
            forall c :: c in db.columns && db.columns[c].table == t && db.columns[c].required
                        ==> db.columns[c].name in payload.fields && db.columns[c].ty != FloatType
  {
    hide KeysAccepted, CellFor, NewCells, Placed, Stored;
    var db1 := WithRow(db, t, r, now);
    var cells := Placed(dl, db1, t, r, payload.fields, payload.fields.Keys);
    assert Accepts(dl, db, Some(t), r, now, payload) <==> !MissesRequired(db1, cells, t, r);
    forall c | c in db.columns && db.columns[c].table == t
      ensures Stored(cells, Key(r, c)) <==> db.columns[c].name in payload.fields && db.columns[c].ty != FloatType
    {
      StoredExactly(dl, db, t, r, now, payload.fields, c);
    }
  }

  lemma StoredExactly(dl: Dialect, db: Db, t: TableId, r: RowId, now: Time, fields: map<string, Json>, c: ColumnId)
    requires Inv(db) && r !in db.issued
    requires KeysAccepted(dl, WithRow(db, t, r, now), t, r, fields)
    requires c in db.columns && db.columns[c].table == t
    ensures Stored(Placed(dl, WithRow(db, t, r, now), t, r, fields, fields.Keys), Key(r, c))
            <==> db.columns[c].name in fields && db.columns[c].ty != FloatType
  {
    var cells := Placed(dl, WithRow(db, t, r, now), t, r, fields, fields.Keys);
    PlacedExactly(dl, db, t, r, now, fields, c);
    StoredTypes(cells, Key(r, c));
    assert Key(r, c) in cells.At(db.columns[c].ty) <==> db.columns[c].name in fields;
  }

  lemma PlacedExactly(dl: Dialect, db: Db, t: TableId, r: RowId, now: Time, fields: map<string, Json>, c: ColumnId)
    requires Inv(db) && r !in db.issued
    requires KeysAccepted(dl, WithRow(db, t, r, now), t, r, fields)
    requires c in db.columns && db.columns[c].table == t
    ensures var cells := Placed(dl, WithRow(db, t, r, now), t, r, fields, fields.Keys);
            forall ty :: Key(r, c) in cells.At(ty) <==> ty == db.columns[c].ty && db.columns[c].name in fields
  {
    hide Placed;
    var db1 := WithRow(db, t, r, now);
    UnissuedRowHasNoCells(db, r);
    if db.columns[c].name in fields {
      AcceptedColumn(dl, db1, t, r, fields, c);
    }
    forall ty ensures Key(r, c) in Placed(dl, db1, t, r, fields, fields.Keys).At(ty)
                      <==> ty == db.columns[c].ty && db.columns[c].name in fields {
      PlacedAt(dl, db1, t, r, fields, fields.Keys, ty);
    }
  }

  // ---------- What is accepted, in terms of the columns and the payload ----------

  /** The database reads the text as a value of the type. */
  predicate Casts(dl: Dialect, ty: ColumnType, text: string) {
    match ty
    case FloatType => dl.castFloat(text).Some?
    case DateType => dl.castDate(text).Some?
    case BoolType => dl.castBool(text).Some?
    case UuidType => dl.castUuid(text).Some?
    case _ => true
  }

  /** Row `u` is there, counting the new row `r` of table `t`, and its table is `target`. */
  predicate RowIn(db: Db, t: TableId, r: RowId, u: RowId, target: TableId) {
    if u == r then target == t else u in db.rows && db.rows[u].table == target
  }

  /** The id of a row that column `col` of table `t` may hold. */
  ghost predicate MayRefer(db: Db, t: TableId, r: RowId, col: Column, u: RowId) {
    exists target ::
      && RowIn(db, t, r, u, target)
      && (col.isReference && col.refTable.Some? ==> target == col.refTable.value)
      && (col.isReference && col.requireDifferent ==> target != t)
  }

  /** The value may go into column `col` of the new row `r` of table `t`. */
  ghost predicate MayHold(dl: Dialect, db: Db, t: TableId, r: RowId, col: Column, v: Json) {
    match Unwrap(v)
    case None => !col.required
    case Some(text) =>
      && Casts(dl, col.ty, text)
      && (col.ty == EnumType ==> col.allowed.Some? && text in col.allowed.value)
      && (col.ty == UuidType ==> MayRefer(db, t, r, col, dl.castUuid(text).value))
  }

  ghost predicate KeysMayGo(dl: Dialect, db: Db, t: TableId, r: RowId, fields: map<string, Json>) {
    && (forall name <- fields :: exists c :: c in db.columns && db.columns[c].table == t && db.columns[c].name == name)
    && (forall c <- db.columns :: db.columns[c].table == t && db.columns[c].name in fields ==>
          MayHold(dl, db, t, r, db.columns[c], fields[db.columns[c].name]))
  }

  /**
  The keys name columns of the table, the values may go there, and the required columns are among
  the keys and are no float columns.
  */
  ghost predicate Insertable(dl: Dialect, db: Db, t: TableId, r: RowId, fields: map<string, Json>) {
    && KeysMayGo(dl, db, t, r, fields)
    && (forall c <- db.columns :: db.columns[c].table == t && db.columns[c].required ==>
          db.columns[c].name in fields && db.columns[c].ty != FloatType)
  }

  /** A value passes the null check, the cast, the triggers and the foreign key exactly when it may go there. */
  lemma StorableExactly(dl: Dialect, db: Db, t: TableId, r: RowId, now: Time, c: ColumnId, v: Json)
    requires ColumnsOk(db) && r !in db.rows && c in db.columns && db.columns[c].table == t
    ensures CellFor(dl, WithRow(db, t, r, now), r, c, v).Success? <==> MayHold(dl, db, t, r, db.columns[c], v)
  {
    var col := db.columns[c];
    assert ColumnOk(db, col);
    if Unwrap(v).Some? && col.ty == UuidType && dl.castUuid(Unwrap(v).value).Some? {
      var u := dl.castUuid(Unwrap(v).value).value;
      MayReferExactly(db, t, r, col, u);
    }
  }

  lemma MayReferExactly(db: Db, t: TableId, r: RowId, col: Column, u: RowId)
    requires r !in db.rows
    ensures MayRefer(db, t, r, col, u) <==>
              && (u == r || u in db.rows)
              && var target := if u == r then t else db.rows[u].table;
                 && (col.isReference && col.refTable.Some? ==> target == col.refTable.value)
                 && (col.isReference && col.requireDifferent ==> target != t)
  {
    if u == r {
      assert RowIn(db, t, r, u, t);
    } else if u in db.rows {
      assert RowIn(db, t, r, u, db.rows[u].table);
    }
  }

  /** Exactly which payloads a table takes. */
  lemma AcceptedExactly(dl: Dialect, db: Db, t: TableId, r: RowId, now: Time, payload: Payload)
    requires Inv(db) && r !in db.issued && t in db.tables
    ensures Accepts(dl, db, Some(t), r, now, payload) <==> payload.Object? && Insertable(dl, db, t, r, payload.fields)
  {
    hide KeysMayGo, KeysAccepted, Placed, MissesRequired, TablesOk, CellsOk;
    if payload.Object? {
      KeysAcceptedMayGo(dl, db, t, r, now, payload.fields);
      if KeysMayGo(dl, db, t, r, payload.fields) {
        RequiredCheckExactly(dl, db, t, r, now, payload);
      }
    }
  }

  lemma NamedAlike(db: Db, db': Db, t: TableId, fields: map<string, Json>)
    requires db'.columns == db.columns
    ensures (forall name <- fields :: exists c :: HasName(db', t, name, c)) <==>
            forall name <- fields ::
              exists c :: c in db.columns && db.columns[c].table == t && db.columns[c].name == name
  {
    forall name <- fields
      ensures (exists c :: HasName(db', t, name, c)) <==>
              exists c :: c in db.columns && db.columns[c].table == t && db.columns[c].name == name
    {
      if c :| c in db.columns && db.columns[c].table == t && db.columns[c].name == name {
        assert HasName(db', t, name, c);
      }
    }
  }

  lemma KeysAcceptedExactly(dl: Dialect, db: Db, t: TableId, r: RowId, fields: map<string, Json>)
    ensures KeysAccepted(dl, db, t, r, fields) <==>
              && (forall name <- fields :: exists c :: HasName(db, t, name, c))
              && (forall c <- db.columns :: db.columns[c].table == t && db.columns[c].name in fields ==>
                    CellFor(dl, db, r, c, fields[db.columns[c].name]).Success?)
  {
    hide CellFor;
    if KeysAccepted(dl, db, t, r, fields) {
      forall name <- fields ensures exists c :: HasName(db, t, name, c) {
        var c := AcceptedKey(dl, db, t, r, fields, name);
      }
      forall c <- db.columns | db.columns[c].table == t && db.columns[c].name in fields
        ensures CellFor(dl, db, r, c, fields[db.columns[c].name]).Success?
      {
        AcceptedColumn(dl, db, t, r, fields, c);
      }
    }
  }

  /** Exactly which exception a value raises under the name of column `c`. */
  lemma RefusalExactly(dl: Dialect, db: Db, t: TableId, r: RowId, now: Time, c: ColumnId, v: Json, e: Raised)
    requires ColumnsOk(db) && r !in db.rows && c in db.columns && db.columns[c].table == t
    ensures KeyRaises(dl, WithRow(db, t, r, now), t, r, db.columns[c].name, v, e)
            <==> Refuses(dl, db, t, r, c, db.columns[c], v, e)
  {
    hide CellFor, Refuses;
    var db1 := WithRow(db, t, r, now);
    assert forall d :: HasName(db1, t, db.columns[c].name, d) ==> d == c;
    assert HasName(db1, t, db.columns[c].name, c);
    CellForRefuses(dl, db, t, r, now, c, v, e);
  }

  lemma CellForRefuses(dl: Dialect, db: Db, t: TableId, r: RowId, now: Time, c: ColumnId, v: Json, e: Raised)
    requires ColumnsOk(db) && r !in db.rows && c in db.columns && db.columns[c].table == t
    ensures CellFor(dl, WithRow(db, t, r, now), r, c, v) == Failure(e)
            <==> Refuses(dl, db, t, r, c, db.columns[c], v, e)
  {
    assert db.columns[c].allowed.Some? <==> db.columns[c].ty == EnumType;
    hide ColumnsOk, CellError, ReferenceRaises, Casts, Cast;
    if Unwrap(v).Some? {
      var text, db1 := Unwrap(v).value, WithRow(db, t, r, now);
      CastsExactly(dl, db.columns[c].ty, text);
      if Casts(dl, db.columns[c].ty, text) {
        CellErrorExactly(dl, db, t, r, now, c, text, e);
        hide CellFor, Refuses;
        CastTextRefuses(dl, db, db1, t, r, c, v, text, e);
      }
    }
  }

  lemma CastTextRefuses(
    dl: Dialect, db: Db, db1: Db, t: TableId, r: RowId, c: ColumnId, v: Json, text: string, e: Raised)
    requires c in db.columns && db1.columns == db.columns && Unwrap(v) == Some(text)
    requires var col, cast := db.columns[c], Cast(dl, db.columns[c].ty, Some(text));
             && Casts(dl, col.ty, text) && cast.Some? && (col.allowed.Some? <==> col.ty == EnumType)
             && (CellError(db1, r, c, col, cast.value) == Some(e) <==>
                   if col.ty == EnumType then text !in col.allowed.value && e == NotInEnum(c)
                   else col.ty == UuidType && ReferenceRaises(db, t, r, col, dl.castUuid(text).value, e))
    ensures CellFor(dl, db1, r, c, v) == Failure(e) <==> Refuses(dl, db, t, r, c, db.columns[c], v, e)
  {
    hide CellError, ReferenceRaises, Casts, Cast, Unwrap;
  }

  lemma CastsExactly(dl: Dialect, ty: ColumnType, text: string)
    ensures Casts(dl, ty, text) <==> Cast(dl, ty, Some(text)).Some?
  {
  }

  lemma CellErrorExactly(dl: Dialect, db: Db, t: TableId, r: RowId, now: Time, c: ColumnId, text: string, e: Raised)
    requires r !in db.rows && c in db.columns && Casts(dl, db.columns[c].ty, text)
    requires db.columns[c].allowed.Some? <==> db.columns[c].ty == EnumType
    ensures var col, cast := db.columns[c], Cast(dl, db.columns[c].ty, Some(text));
            && cast.Some?
            && (CellError(WithRow(db, t, r, now), r, c, col, cast.value) == Some(e) <==>
                  if col.ty == EnumType then text !in col.allowed.value && e == NotInEnum(c)
                  else col.ty == UuidType && ReferenceRaises(db, t, r, col, dl.castUuid(text).value, e))
  {
    if db.columns[c].ty == UuidType {
      ReferenceRaisesExactly(db, t, r, now, c, dl.castUuid(text).value, e);
      hide CellError, ReferenceRaises;
    }
  }

  lemma ReferenceRaisesExactly(db: Db, t: TableId, r: RowId, now: Time, c: ColumnId, u: RowId, e: Raised)
    requires r !in db.rows && c in db.columns && db.columns[c].ty == UuidType
    ensures CellError(WithRow(db, t, r, now), r, c, db.columns[c], Some(UuidValue(u))) == Some(e)
            <==> ReferenceRaises(db, t, r, db.columns[c], u, e)
  {
  }

  /** NULL where it is not allowed, a text that does not cast, no label, a bad reference. */
  ghost predicate Refuses(dl: Dialect, db: Db, t: TableId, r: RowId, c: ColumnId, col: Column, v: Json, e: Raised) {
    match Unwrap(v)
    case None => col.required && e == RequiredColumnNull(col.name)
    case Some(text) =>
      if !Casts(dl, col.ty, text) then e == InvalidText(col.name)
      else if col.ty == EnumType then col.allowed.Some? && text !in col.allowed.value && e == NotInEnum(c)
      else col.ty == UuidType && ReferenceRaises(db, t, r, col, dl.castUuid(text).value, e)
  }

  /** A row of a wrong table, a row of the same table where that is not allowed, no such row. */
  ghost predicate ReferenceRaises(db: Db, t: TableId, r: RowId, col: Column, u: RowId, e: Raised) {
    if u != r && u !in db.rows then e == ForeignKeyViolation
    else
      var target := if u == r then t else db.rows[u].table;
      if col.isReference && col.refTable.Some? && target != col.refTable.value then e == WrongReferenceTable
      else col.isReference && col.requireDifferent && target == t && e == SameReferenceTable
  }

  /** The payload names a column that the table does not have. */
  ghost predicate NamesNoColumn(db: Db, t: TableId, fields: map<string, Json>, e: Raised) {
    exists name :: name in fields && e == UnknownColumn(name) && forall c :: !HasName(db, t, name, c)
  }

  /** A value of the payload is refused by its column. */
  ghost predicate ColumnRefuses(dl: Dialect, db: Db, t: TableId, r: RowId, fields: map<string, Json>, e: Raised) {
    exists c :: && c in db.columns && db.columns[c].table == t && db.columns[c].name in fields
                && Refuses(dl, db, t, r, c, db.columns[c], fields[db.columns[c].name], e)
  }

  ghost predicate LacksRequired(db: Db, t: TableId, fields: map<string, Json>) {
    exists c :: && c in db.columns && db.columns[c].table == t && db.columns[c].required
                && (db.columns[c].name !in fields || db.columns[c].ty == FloatType)
  }

  /** Exactly which exceptions an insertion may raise; which of several depends on the order of the keys. */
  lemma FailsExactly(
    dl: Dialect, db: Db, t: Option<TableId>, r: RowId, now: Time, payload: Payload, e: Raised)
    requires Inv(db) && r !in db.issued
    ensures InsertRaises(dl, db, t, r, now, payload, e) <==>
              if t.None? then e == NotNullViolation
              else if t.value !in db.tables then e == ForeignKeyViolation
              else if payload.NotAnObject? then e == PayloadNotAnObject
              else
                || NamesNoColumn(db, t.value, payload.fields, e)
                || ColumnRefuses(dl, db, t.value, r, payload.fields, e)
                || (&& KeysMayGo(dl, db, t.value, r, payload.fields) && LacksRequired(db, t.value, payload.fields)
                    && e == MissingRequiredColumns)
  {
    hide KeyRaises, KeysMayGo, KeysAccepted, MissesRequired, Placed, NamesNoColumn, ColumnRefuses, TablesOk, CellsOk;
    if t.Some? && t.value in db.tables && payload.Object? {
      var db1, fields := WithRow(db, t.value, r, now), payload.fields;
      SomeKeyRaisesExactly(dl, db, t.value, r, now, fields, e);
      KeysAcceptedMayGo(dl, db, t.value, r, now, fields);
      if KeysMayGo(dl, db, t.value, r, fields) {
        RequiredCheckExactly(dl, db, t.value, r, now, payload);
      }
    }
  }

  lemma SomeKeyRaisesExactly(
    dl: Dialect, db: Db, t: TableId, r: RowId, now: Time, fields: map<string, Json>, e: Raised)
    requires ColumnsOk(db) && r !in db.rows
    ensures (exists name :: name in fields && KeyRaises(dl, WithRow(db, t, r, now), t, r, name, fields[name], e))
            <==> NamesNoColumn(db, t, fields, e) || ColumnRefuses(dl, db, t, r, fields, e)
  {
    hide ColumnsOk, KeyRaises, NamesNoColumn, ColumnRefuses;
    var db1 := WithRow(db, t, r, now);
    if name :| name in fields && KeyRaises(dl, db1, t, r, name, fields[name], e) {
      KeyThatRaises(dl, db, t, r, now, fields, name, e);
    }
    if ColumnRefuses(dl, db, t, r, fields, e) {
      var c := ColumnThatRefuses(dl, db, t, r, fields, e);
      RefusalExactly(dl, db, t, r, now, c, fields[db.columns[c].name], e);
    }
    if NamesNoColumn(db, t, fields, e) {
      var name := NameOfNoColumn(dl, db, t, r, now, fields, e);
    }
  }

  lemma KeyThatRaises(
    dl: Dialect, db: Db, t: TableId, r: RowId, now: Time, fields: map<string, Json>, name: string, e: Raised)
    requires ColumnsOk(db) && r !in db.rows
    requires name in fields && KeyRaises(dl, WithRow(db, t, r, now), t, r, name, fields[name], e)
    ensures NamesNoColumn(db, t, fields, e) || ColumnRefuses(dl, db, t, r, fields, e)
  {
    hide ColumnsOk, CellFor, Refuses;
    var db1 := WithRow(db, t, r, now);
    if c :| HasName(db, t, name, c) {
      RefusalExactly(dl, db, t, r, now, c, fields[name], e);
      assert Refuses(dl, db, t, r, c, db.columns[c], fields[db.columns[c].name], e);
    } else {
      assert forall c :: HasName(db1, t, name, c) ==> HasName(db, t, name, c);
      assert e == UnknownColumn(name);
    }
  }

  lemma ColumnThatRefuses(dl: Dialect, db: Db, t: TableId, r: RowId, fields: map<string, Json>, e: Raised)
    returns (c: ColumnId)
    requires ColumnRefuses(dl, db, t, r, fields, e)
    ensures c in db.columns && db.columns[c].table == t && db.columns[c].name in fields
    ensures Refuses(dl, db, t, r, c, db.columns[c], fields[db.columns[c].name], e)
  {
    hide Refuses;
    c :| && c in db.columns && db.columns[c].table == t && db.columns[c].name in fields
         && Refuses(dl, db, t, r, c, db.columns[c], fields[db.columns[c].name], e);
  }

  lemma NameOfNoColumn(dl: Dialect, db: Db, t: TableId, r: RowId, now: Time, fields: map<string, Json>, e: Raised)
    returns (name: string)
    requires NamesNoColumn(db, t, fields, e)
    ensures name in fields && KeyRaises(dl, WithRow(db, t, r, now), t, r, name, fields[name], e)
  {
    hide CellFor;
    name :| name in fields && e == UnknownColumn(name) && forall c :: !HasName(db, t, name, c);
    assert forall c :: HasName(WithRow(db, t, r, now), t, name, c) ==> HasName(db, t, name, c);
  }

  lemma KeysAcceptedMayGo(dl: Dialect, db: Db, t: TableId, r: RowId, now: Time, fields: map<string, Json>)
    requires ColumnsOk(db) && r !in db.rows
    ensures KeysAccepted(dl, WithRow(db, t, r, now), t, r, fields) <==> KeysMayGo(dl, db, t, r, fields)
  {
    hide CellFor, MayHold;
    var db1 := WithRow(db, t, r, now);
    forall c | c in db.columns && db.columns[c].table == t && db.columns[c].name in fields
      ensures CellFor(dl, db1, r, c, fields[db.columns[c].name]).Success? <==>
              MayHold(dl, db, t, r, db.columns[c], fields[db.columns[c].name])
    {
      StorableExactly(dl, db, t, r, now, c, fields[db.columns[c].name]);
    }
    hide ColumnsOk;
    KeysAcceptedExactly(dl, db1, t, r, fields);
    NamedAlike(db, db1, t, fields);
  }

  /** A table with a required float column accepts no row at all. */
  lemma RequiredFloatRejectsEveryRow(
    dl: Dialect, db: Db, t: TableId, r: RowId, now: Time, payload: Payload, c: ColumnId)
    requires Inv(db) && r !in db.issued
    requires c in db.columns && db.columns[c].table == t && db.columns[c].required && db.columns[c].ty == FloatType
    ensures !Accepts(dl, db, Some(t), r, now, payload)
  {
    if Accepts(dl, db, Some(t), r, now, payload) {
      RequiredCheckExactly(dl, db, t, r, now, payload);
    }
  }

  /** An accepted insertion keeps every constraint of the store. */
  lemma InsertKeepsInv(dl: Dialect, db: Db, t: TableId, r: RowId, now: Time, payload: Payload)
    requires Inv(db) && r !in db.issued && Accepts(dl, db, Some(t), r, now, payload)
    ensures Inv(Inserted(dl, db, t, r, now, payload))
  {
    hide KeysAccepted, MissesRequired, NewCells, Placed, TablesOk, CellOk;
    var db' := Inserted(dl, db, t, r, now, payload);
    assert TablesOk(db') by { hide CellsOk, ColumnsOk, Accepts; TablesDependOnTables(db, db'); }
    forall ty, k | k in db'.cells.At(ty) ensures CellOk(db', ty, k, db'.cells.At(ty)[k]) {
      InsertedCellOk(dl, db, t, r, now, payload, ty, k);
    }
  }

  lemma TablesDependOnTables(db: Db, db': Db)
    requires TablesOk(db) && db'.tables == db.tables && db'.nextTable == db.nextTable
    ensures TablesOk(db')
  {
  }

  lemma InsertedCellOk(dl: Dialect, db: Db, t: TableId, r: RowId, now: Time, payload: Payload, ty: ColumnType, k: Key)
    requires Inv(db) && r !in db.issued && Accepts(dl, db, Some(t), r, now, payload)
    requires k in Inserted(dl, db, t, r, now, payload).cells.At(ty)
    ensures var db' := Inserted(dl, db, t, r, now, payload);
            CellOk(db', ty, k, db'.cells.At(ty)[k])
  {
    hide KeysAccepted, MissesRequired, Placed, NewCells, CellOk;
    var db1 := WithRow(db, t, r, now);
    var db' := Inserted(dl, db, t, r, now, payload);
    var added := NewCells(dl, db1, t, r, payload.fields, payload.fields.Keys, ty);
    PlacedAt(dl, db1, t, r, payload.fields, payload.fields.Keys, ty);
    if k in added {
      NewCellOk(dl, db1, t, r, payload.fields, ty, k);
    } else {
      OldCellOk(db, db1, ty, k);
    }
    SameSchemaSameCells(db1, db', ty, k, db'.cells.At(ty)[k]);
  }

  lemma OldCellOk(db: Db, db': Db, ty: ColumnType, k: Key)
    requires CellsOk(db) && k in db.cells.At(ty)
    requires db'.columns == db.columns && forall r <- db.rows :: r in db'.rows && db'.rows[r] == db.rows[r]
    ensures CellOk(db', ty, k, db.cells.At(ty)[k])
  {
    CellOkWhenGrowing(db, db', ty, k, db.cells.At(ty)[k]);
  }

  lemma SameSchemaSameCells(db: Db, db': Db, ty: ColumnType, k: Key, value: Option<Value>)
    requires CellOk(db, ty, k, value) && db'.columns == db.columns && db'.rows == db.rows
    ensures CellOk(db', ty, k, value)
  {
  }

  /** A new cell passed the cast, the triggers and the foreign keys. */
  lemma NewCellOk(dl: Dialect, db: Db, t: TableId, r: RowId, fields: map<string, Json>, ty: ColumnType, k: Key)
    requires ColumnsOk(db) && r in db.rows && db.rows[r].table == t
    requires k in NewCells(dl, db, t, r, fields, fields.Keys, ty)
    ensures CellOk(db, ty, k, NewCells(dl, db, t, r, fields, fields.Keys, ty)[k])
  {
    StoredValueOk(dl, db, r, k.col, fields[db.columns[k.col].name]);
  }

  lemma StoredValueOk(dl: Dialect, db: Db, r: RowId, c: ColumnId, v: Json)
    requires c in db.columns && r in db.rows && ColumnOk(db, db.columns[c])
    requires CellFor(dl, db, r, c, v).Success?
    ensures var value := CellFor(dl, db, r, c, v).value;
            value.Some? ==>
              && Fits(value.value, db.columns[c].ty)
              && EnumOk(db.columns[c], value.value)
              && ReferenceOk(db, r, db.columns[c], value.value)
  {
  }
}
