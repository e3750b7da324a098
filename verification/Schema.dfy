/**
The tables behind the user-defined tables (database/schema/006 and 020): `app.tables`,
`app.columns`, `app.rows` and the six value tables, with the constraints that every stored
state satisfies.
*/
module Schema {
  import opened Wrappers
  import opened Naming

  type Org = nat
  type TableId = nat
  type ColumnId = nat
  type RowId = nat
  type Time = int

  datatype ColumnType = TextType | FloatType | DateType | BoolType | EnumType | UuidType

  datatype Table = Table(org: Option<Org>, name: string, slug: string, createdAt: Time)

  datatype Column = Column(
    table: TableId,
    name: string,
    ty: ColumnType,
    required: bool,
    indexed: bool,
    allowed: Option<seq<string>>,
    isReference: bool,
    refTable: Option<TableId>,
    requireDifferent: bool)

  datatype Row = Row(table: TableId, createdAt: Time)

  datatype Float = Finite(r: real) | Infinite(negative: bool) | NotANumber

  /** A non-null stored value; text and enum columns both hold text. */
  datatype Value =
    | TextValue(s: string)
    | FloatValue(f: Float)
    | DateValue(day: int)
    | BoolValue(b: bool)
    | UuidValue(u: RowId)

  /** The primary key of every value table. */
  datatype Key = Key(row: RowId, col: ColumnId)

  /** One value table: `None` is SQL NULL, an absent key is an absent record. */
  type Bucket = map<Key, Option<Value>>

  datatype Buckets = Buckets(text: Bucket, float: Bucket, date: Bucket, bools: Bucket, enums: Bucket, uuids: Bucket) {
    function At(ty: ColumnType): Bucket {
      match ty
      case TextType => text
      case FloatType => float
      case DateType => date
      case BoolType => bools
      case EnumType => enums
      case UuidType => uuids
    }

    function Map(f: (ColumnType, Bucket) -> Bucket): (r: Buckets)
      ensures forall ty :: r.At(ty) == f(ty, At(ty))
    {
      Buckets(f(TextType, text), f(FloatType, float), f(DateType, date),
              f(BoolType, bools), f(EnumType, enums), f(UuidType, uuids))
    }

    function Put(ty: ColumnType, k: Key, v: Option<Value>): Buckets {
      Map((t, b) => if t == ty then b[k := v] else b)
    }
  }

  lemma BucketsEqual(a: Buckets, b: Buckets)
    requires forall ty :: a.At(ty) == b.At(ty)
    ensures a == b
  {
    assert a.At(TextType) == b.At(TextType) && a.At(FloatType) == b.At(FloatType) && a.At(DateType) == b.At(DateType);
    assert a.At(BoolType) == b.At(BoolType) && a.At(EnumType) == b.At(EnumType) && a.At(UuidType) == b.At(UuidType);
  }

  /** `issued` holds every row id ever generated; a random UUID never repeats one. */
  datatype Db = Db(
    tables: map<TableId, Table>,
    columns: map<ColumnId, Column>,
    rows: map<RowId, Row>,
    cells: Buckets,
    nextTable: TableId,
    nextColumn: ColumnId,
    issued: set<RowId>)

  const EMPTY: Db := Db(map[], map[], map[], Buckets(map[], map[], map[], map[], map[], map[]), 0, 0, {})

  // ---------- Constraints that hold in every stored state ----------

  ghost predicate TablesOk(db: Db) {
    && (forall t <- db.tables :: t < db.nextTable)
    && (forall t <- db.tables :: db.tables[t].org.Some? ==> db.tables[t].slug == Slug(db.tables[t].name))
    && (forall t <- db.tables, u <- db.tables ::
          db.tables[t].org.Some? && db.tables[t].org == db.tables[u].org && db.tables[t].slug == db.tables[u].slug
          ==> t == u)
  }

  ghost predicate ColumnOk(db: Db, col: Column) {
    && col.table in db.tables
    && (col.refTable.Some? ==> col.refTable.value in db.tables)
    && (col.allowed.Some? <==> col.ty == EnumType)
    && (col.isReference ==> col.ty == UuidType)
  }

  ghost predicate ColumnsOk(db: Db) {
    && (forall c <- db.columns :: c < db.nextColumn && ColumnOk(db, db.columns[c]))
    && (forall c <- db.columns, d <- db.columns ::
          db.columns[c].table == db.columns[d].table && db.columns[c].name == db.columns[d].name ==> c == d)
  }

  ghost predicate RowsOk(db: Db) {
    forall r <- db.rows :: r in db.issued && db.rows[r].table in db.tables
  }

  predicate Fits(v: Value, ty: ColumnType) {
    match ty
    case TextType => v.TextValue?
    case FloatType => v.FloatValue?
    case DateType => v.DateValue?
    case BoolType => v.BoolValue?
    case EnumType => v.TextValue?
    case UuidType => v.UuidValue?
  }

  /** An enum value is one of the column's labels. */
  ghost predicate EnumOk(col: Column, v: Value) {
    col.ty == EnumType ==> col.allowed.Some? && v.TextValue? && v.s in col.allowed.value
  }

  /** A uuid value names a live row; in a reference column, one of the right table. */
  ghost predicate ReferenceOk(db: Db, r: RowId, col: Column, v: Value) {
    col.ty == UuidType ==>
      && v.UuidValue?
      && v.u in db.rows
      && (col.isReference && col.refTable.Some? ==> db.rows[v.u].table == col.refTable.value)
      && (col.isReference && col.requireDifferent && r in db.rows ==> db.rows[v.u].table != db.rows[r].table)
  }

  ghost predicate CellOk(db: Db, ty: ColumnType, k: Key, value: Option<Value>) {
    && k.row in db.rows
    && k.col in db.columns
    && db.rows[k.row].table == db.columns[k.col].table
    && db.columns[k.col].ty == ty
    && (value.Some? ==>
          && Fits(value.value, ty)
          && EnumOk(db.columns[k.col], value.value)
          && ReferenceOk(db, k.row, db.columns[k.col], value.value))
  }

  ghost predicate CellsOk(db: Db) {
    forall ty, k | k in db.cells.At(ty) :: CellOk(db, ty, k, db.cells.At(ty)[k])
  }

  ghost predicate Inv(db: Db) {
    TablesOk(db) && ColumnsOk(db) && RowsOk(db) && CellsOk(db)
  }

  /** No (row, column) pair is stored in two value tables. */
  lemma OneBucketPerCell(db: Db, k: Key, ty: ColumnType, tz: ColumnType)
    requires Inv(db)
    requires k in db.cells.At(ty) && k in db.cells.At(tz)
    ensures ty == tz
  {
    assert CellOk(db, ty, k, db.cells.At(ty)[k]);
  }

  /** Rows and columns that stay as they are keep their cells sound, whatever is added beside them. */
  lemma CellOkWhenGrowing(db: Db, db': Db, ty: ColumnType, k: Key, value: Option<Value>)
    requires CellOk(db, ty, k, value)
    requires forall r <- db.rows :: r in db'.rows && db'.rows[r] == db.rows[r]
    requires k.col in db'.columns && db'.columns[k.col] == db.columns[k.col]
    ensures CellOk(db', ty, k, value)
  {
  }

  /** A row id that was never issued has no cells. */
  lemma UnissuedRowHasNoCells(db: Db, r: RowId)
    requires Inv(db) && r !in db.issued
    ensures forall ty, c :: Key(r, c) !in db.cells.At(ty)
  {
    forall ty, c ensures Key(r, c) !in db.cells.At(ty) {
      assert Key(r, c) in db.cells.At(ty) ==> CellOk(db, ty, Key(r, c), db.cells.At(ty)[Key(r, c)]);
    }
  }

  // ---------- Resolving a table by slug or by name ----------

  predicate Matches(t: Table, name: string) {
    t.slug == Lower(name) || Lower(t.name) == Lower(name)
  }

  function OwnMatches(db: Db, org: Org, name: string): set<TableId> {
    set t | t in db.tables && db.tables[t].org == Some(org) && Matches(db.tables[t], name)
  }

  /**
  The records the `ORDER BY own first LIMIT 1` subqueries may return: the org's own matches,
  and only without any of those, and where the query allows it, the global ones.
  */
  function Candidates(db: Db, org: Org, name: string, orGlobal: bool): set<TableId> {
    var own := OwnMatches(db, org, name);
    if own != {} || !orGlobal then own
    else set t | t in db.tables && db.tables[t].org == None && Matches(db.tables[t], name)
  }

  /** `LIMIT 1` returns any one of the candidates, or NULL without candidates. */
  ghost predicate Picks(candidates: set<TableId>, pick: Option<TableId>) {
    match pick
    case None => candidates == {}
    case Some(t) => t in candidates
  }

  /**
  Among the tables an org owns at most one matches a given string, so `LIMIT 1` has no choice:
  a slug match and a name match of the same string are the same table.
  */
  lemma ResolutionIsUnambiguous(db: Db, org: Org, name: string, orGlobal: bool, t: TableId, u: TableId)
    requires TablesOk(db)
    requires t in Candidates(db, org, name, orGlobal) && u in Candidates(db, org, name, orGlobal)
    requires db.tables[t].org == Some(org)
    ensures t == u
  {
    assert t in OwnMatches(db, org, name);
    SlugOfMatch(db.tables[t], name);
    SlugOfMatch(db.tables[u], name);
  }

  /** A table with a normalised slug matches exactly the strings with that slug, on either side. */
  lemma SlugOfMatch(t: Table, name: string)
    requires t.slug == Slug(t.name) && Matches(t, name)
    ensures t.slug == Slug(name)
  {
    SlugIsStable(t.name);
    SlugIsStable(name);
  }

  /** An org finds its own table by its name and by its slug, in any case, and finds nothing else by them. */
  lemma OwnTableIsFound(db: Db, org: Org, t: TableId, name: string, orGlobal: bool)
    requires TablesOk(db) && t in db.tables && db.tables[t].org == Some(org)
    requires Lower(name) == Lower(db.tables[t].name) || Lower(name) == db.tables[t].slug
    ensures Candidates(db, org, name, orGlobal) == {t}
  {
    assert t in OwnMatches(db, org, name);
    forall u <- OwnMatches(db, org, name) ensures u == t {
      assert u in Candidates(db, org, name, orGlobal);
      ResolutionIsUnambiguous(db, org, name, orGlobal, u, t);
    }
  }
}
