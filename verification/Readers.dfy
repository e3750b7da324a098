/**
The two readers that put a row back together: `app.row_to_json` (018_search_tables) and
`app.rows_json` (019_rows_json_fix), and what they say about insertion and column removal.
*/
module Readers {
  import opened Wrappers
  import opened Schema
  import opened Insertion
  import opened Operations

  /** `to_jsonb` of a stored value. */
  function Render(dl: Dialect, value: Option<Value>): Json {
    match value
    case None => Null
    case Some(TextValue(s)) => Str(s)
    case Some(FloatValue(f)) => dl.showFloat(f)
    case Some(DateValue(day)) => Str(dl.showDate(day))
    case Some(BoolValue(b)) => Bool(b)
    case Some(UuidValue(u)) => Str(dl.showUuid(u))
  }

  predicate InBucket(db: Db, ty: ColumnType, r: RowId, c: ColumnId) {
    c in db.columns && Key(r, c) in db.cells.At(ty)
  }

  /** `jsonb_object_agg(c.name, v.value)` over one value table joined with the columns. */
  function Aggregate(dl: Dialect, db: Db, ty: ColumnType, r: RowId): map<string, Json>
    requires Inv(db)
  {
    SameNameSameColumn(db, r);
    map c | c in db.columns && InBucket(db, ty, r, c) :: db.columns[c].name := Render(dl, db.cells.At(ty)[Key(r, c)])
  }

  lemma SameNameSameColumn(db: Db, r: RowId)
    requires Inv(db)
    ensures forall ty, tz, c, d ::
              InBucket(db, ty, r, c) && InBucket(db, tz, r, d) && db.columns[c].name == db.columns[d].name
              ==> c == d && ty == tz
  {
    forall ty, tz, c, d | InBucket(db, ty, r, c) && InBucket(db, tz, r, d) && db.columns[c].name == db.columns[d].name
      ensures c == d && ty == tz
    {
      assert CellOk(db, ty, Key(r, c), db.cells.At(ty)[Key(r, c)]);
      assert CellOk(db, tz, Key(r, d), db.cells.At(tz)[Key(r, d)]);
    }
  }

  /** The successive `result || aggregate` steps, over the value tables in a given order. */
  function Merged(dl: Dialect, db: Db, order: seq<ColumnType>, r: RowId): map<string, Json>
    requires Inv(db)
  {
    if order == [] then map[]
    else Merged(dl, db, order[..|order| - 1], r) + Aggregate(dl, db, order[|order| - 1], r)
  }

  function Metadata(dl: Dialect, db: Db, r: RowId): map<string, Json>
    requires r in db.rows
  {
    map["id" := Str(dl.showUuid(r)), "created_at" := Str(dl.showTime(db.rows[r].createdAt))]
  }

  const MERGE_ORDER: seq<ColumnType> := [TextType, FloatType, DateType, BoolType, EnumType, UuidType]

  /** What `row_to_json` returns: the merge of the six tables, then the metadata over it. */
  function RowJson(dl: Dialect, db: Db, r: RowId): map<string, Json>
    requires Inv(db)
  {
    if r in db.rows then Merged(dl, db, MERGE_ORDER, r) + Metadata(dl, db, r) else map[]
  }

  /** What `rows_json` returns for one row: five tables, no floats, no metadata. */
  function RowsJsonData(dl: Dialect, db: Db, r: RowId): map<string, Json>
    requires Inv(db)
  {
    Merged(dl, db, [TextType, DateType, BoolType, EnumType, UuidType], r)
  }

  /** The row as an object: one entry for each of its cells, whatever table it is stored in. */
  ghost predicate Describes(dl: Dialect, db: Db, types: set<ColumnType>, r: RowId, o: map<string, Json>) {
    && (forall ty, c :: ty in types && InBucket(db, ty, r, c)
          ==> db.columns[c].name in o && o[db.columns[c].name] == Render(dl, db.cells.At(ty)[Key(r, c)]))
    && (forall n <- o :: exists ty, c :: ty in types && InBucket(db, ty, r, c) && db.columns[c].name == n)
  }

  lemma DescribedOnce(dl: Dialect, db: Db, types: set<ColumnType>, r: RowId, o: map<string, Json>, p: map<string, Json>)
    requires Describes(dl, db, types, r, o) && Describes(dl, db, types, r, p)
    ensures o == p
  {
    forall n | n in o || n in p ensures n in o && n in p && o[n] == p[n] {
      var ty, c :| ty in types && InBucket(db, ty, r, c) && db.columns[c].name == n;
    }
  }

  function TypesIn(order: seq<ColumnType>): set<ColumnType> { set ty | ty in order }

  lemma {:induction false} MergedDescribes(dl: Dialect, db: Db, order: seq<ColumnType>, r: RowId)
    requires Inv(db)
    ensures Describes(dl, db, TypesIn(order), r, Merged(dl, db, order, r))
  {
    hide Inv, Aggregate, Describes;
    if order == [] {
      NothingDescribed(dl, db, r);
    } else {
      var init, last := order[..|order| - 1], order[|order| - 1];
      MergedDescribes(dl, db, init, r);
      assert order == init + [last];
      assert TypesIn(order) == TypesIn(init) + {last};
      MergeStep(dl, db, TypesIn(init), last, r, Merged(dl, db, init, r));
    }
  }

  lemma NothingDescribed(dl: Dialect, db: Db, r: RowId)
    ensures Describes(dl, db, TypesIn([]), r, map[])
  {
  }

  lemma AggregateDescribes(dl: Dialect, db: Db, ty: ColumnType, r: RowId)
    requires Inv(db)
    ensures Describes(dl, db, {ty}, r, Aggregate(dl, db, ty, r))
  {
    hide Inv, Render;
    SameNameSameColumn(db, r);
  }

  lemma MergeStep(dl: Dialect, db: Db, types: set<ColumnType>, last: ColumnType, r: RowId, o: map<string, Json>)
    requires Inv(db) && Describes(dl, db, types, r, o)
    ensures Describes(dl, db, types + {last}, r, o + Aggregate(dl, db, last, r))
  {
    hide Inv, Render, Aggregate;
    AggregateDescribes(dl, db, last, r);
    var a := Aggregate(dl, db, last, r);
    forall ty, c | ty in types + {last} && InBucket(db, ty, r, c)
      ensures var n := db.columns[c].name;
              n in o + a && (o + a)[n] == Render(dl, db.cells.At(ty)[Key(r, c)])
    {
      SameNameSameColumn(db, r);
    }
  }

  /** The order in which the value tables are merged does not matter, nor does merging one twice. */
  lemma MergeOrderIrrelevant(dl: Dialect, db: Db, a: seq<ColumnType>, b: seq<ColumnType>, r: RowId)
    requires Inv(db) && forall ty :: ty in a <==> ty in b
    ensures Merged(dl, db, a, r) == Merged(dl, db, b, r)
  {
    hide Inv;
    MergedDescribes(dl, db, a, r);
    MergedDescribes(dl, db, b, r);
    assert TypesIn(a) == TypesIn(b);
    DescribedOnce(dl, db, TypesIn(a), r, Merged(dl, db, a, r), Merged(dl, db, b, r));
  }

  // ---------- The object depends on the row's own cells only ----------

  /** In both states row `r` has the same cells, under the same column names. */
  ghost predicate SameRow(db: Db, db': Db, r: RowId) {
    forall ty, c :: InBucket(db, ty, r, c) || InBucket(db', ty, r, c) ==> SameCell(db, db', ty, r, c)
  }

  ghost predicate SameCell(db: Db, db': Db, ty: ColumnType, r: RowId, c: ColumnId) {
    && InBucket(db, ty, r, c) && InBucket(db', ty, r, c)
    && db.columns[c].name == db'.columns[c].name
    && db.cells.At(ty)[Key(r, c)] == db'.cells.At(ty)[Key(r, c)]
  }

  lemma SameRowSameMerge(dl: Dialect, db: Db, db': Db, order: seq<ColumnType>, r: RowId)
    requires Inv(db) && Inv(db') && SameRow(db, db', r)
    ensures Merged(dl, db', order, r) == Merged(dl, db, order, r)
  {
    hide Inv, Merged;
    MergedDescribes(dl, db, order, r);
    MergedDescribes(dl, db', order, r);
    SameRowSameObject(dl, db, db', TypesIn(order), r, Merged(dl, db, order, r));
    DescribedOnce(dl, db', TypesIn(order), r, Merged(dl, db, order, r), Merged(dl, db', order, r));
  }

  lemma SameRowSameObject(dl: Dialect, db: Db, db': Db, types: set<ColumnType>, r: RowId, o: map<string, Json>)
    requires SameRow(db, db', r) && Describes(dl, db, types, r, o)
    ensures Describes(dl, db', types, r, o)
  {
    hide Render;
    forall ty, c | ty in types && InBucket(db', ty, r, c)
      ensures db'.columns[c].name in o && o[db'.columns[c].name] == Render(dl, db'.cells.At(ty)[Key(r, c)])
    {
      assert SameCell(db, db', ty, r, c);
    }
    forall n <- o ensures exists ty, c :: ty in types && InBucket(db', ty, r, c) && db'.columns[c].name == n {
      var ty, c :| ty in types && InBucket(db, ty, r, c) && db.columns[c].name == n;
      assert SameCell(db, db', ty, r, c);
    }
  }

  // ---------- Insert, then read ----------

  /** An accepted insertion leaves every other row's object as it was. */
  lemma InsertKeepsOtherRows(dl: Dialect, db: Db, t: TableId, r: RowId, now: Time, payload: Payload, other: RowId)
    requires Inv(db) && r !in db.issued && Accepts(dl, db, Some(t), r, now, payload) && other != r
    ensures Inv(Inserted(dl, db, t, r, now, payload))
    ensures RowJson(dl, Inserted(dl, db, t, r, now, payload), other) == RowJson(dl, db, other)
  {
    hide Inv, KeysAccepted, MissesRequired, Placed, Merged;
    var db' := Inserted(dl, db, t, r, now, payload);
    InsertKeepsInv(dl, db, t, r, now, payload);
    forall ty, c | InBucket(db, ty, other, c) || InBucket(db', ty, other, c) ensures SameCell(db, db', ty, other, c) {
      PlacedAt(dl, WithRow(db, t, r, now), t, r, payload.fields, payload.fields.Keys, ty);
    }
    SameRowSameMerge(dl, db, db', MERGE_ORDER, other);
    assert other in db.rows <==> other in db'.rows;
  }

  /** The value an accepted key is read back with: its text, cast to the column type and rendered. */
  function ReadAs(dl: Dialect, ty: ColumnType, v: Json): Json {
    match Cast(dl, ty, Unwrap(v))
    case Some(value) => Render(dl, value)
    case None => Null
  }

  lemma NewRowMerged(dl: Dialect, db: Db, t: TableId, r: RowId, now: Time, payload: Payload)
    returns (data: map<string, Json>)
    requires Inv(db) && r !in db.issued && Accepts(dl, db, Some(t), r, now, payload)
    ensures Inv(Inserted(dl, db, t, r, now, payload))
    ensures data == Merged(dl, Inserted(dl, db, t, r, now, payload), MERGE_ORDER, r)
    ensures data.Keys == payload.fields.Keys
    ensures forall c :: c in db.columns && db.columns[c].table == t && db.columns[c].name in payload.fields
                        ==> data[db.columns[c].name] == ReadAs(dl, db.columns[c].ty, payload.fields[db.columns[c].name])
  {
    hide Inv, KeysAccepted, MissesRequired, Placed, Merged, Inserted, CellFor, Render, Cast;
    var db' := Inserted(dl, db, t, r, now, payload);
    InsertKeepsInv(dl, db, t, r, now, payload);
    data := Merged(dl, db', MERGE_ORDER, r);
    assert db'.columns == db.columns by { ColumnsUntouched(dl, db, t, r, now, payload); }
    MergedDescribes(dl, db', MERGE_ORDER, r);
    forall c | c in db.columns && db.columns[c].table == t && db.columns[c].name in payload.fields
      ensures db.columns[c].name in data
      ensures data[db.columns[c].name] == ReadAs(dl, db.columns[c].ty, payload.fields[db.columns[c].name])
    {
      var ty := db.columns[c].ty;
      StoredForColumn(dl, db, t, r, now, payload, c, ty);
      assert InBucket(db', ty, r, c) && ty in TypesIn(MERGE_ORDER);
      CellForCasts(dl, WithRow(db, t, r, now), r, c, payload.fields[db.columns[c].name]);
    }
    forall n <- payload.fields ensures n in data {
      var c := AcceptedKey(dl, WithRow(db, t, r, now), t, r, payload.fields, n);
    }
    forall n <- data ensures n in payload.fields {
      var ty, c :| ty in TypesIn(MERGE_ORDER) && InBucket(db', ty, r, c) && db'.columns[c].name == n;
      NewRowCellColumn(dl, db, t, r, now, payload, ty, c);
      StoredForColumn(dl, db, t, r, now, payload, c, ty);
    }
  }

  lemma ColumnsUntouched(dl: Dialect, db: Db, t: TableId, r: RowId, now: Time, payload: Payload)
    requires payload.Object?
    ensures Inserted(dl, db, t, r, now, payload).columns == db.columns
    ensures Inserted(dl, db, t, r, now, payload).rows == db.rows[r := Row(t, now)]
  {
  }

  lemma CellForCasts(dl: Dialect, db: Db, r: RowId, c: ColumnId, v: Json)
    requires c in db.columns && CellFor(dl, db, r, c, v).Success?
    ensures Cast(dl, db.columns[c].ty, Unwrap(v)) == Some(CellFor(dl, db, r, c, v).value)
  {
  }

  lemma NewRowCellColumn(
    dl: Dialect, db: Db, t: TableId, r: RowId, now: Time, payload: Payload, ty: ColumnType, c: ColumnId)
    requires payload.Object? && Inv(Inserted(dl, db, t, r, now, payload))
    requires InBucket(Inserted(dl, db, t, r, now, payload), ty, r, c)
    ensures c in db.columns && db.columns[c].table == t
  {
    hide Placed;
    var db' := Inserted(dl, db, t, r, now, payload);
    assert CellOk(db', ty, Key(r, c), db'.cells.At(ty)[Key(r, c)]);
  }

  /**
  Read-back: after an accepted insertion `row_to_json` returns the supplied keys with their
  typed values plus `id` and `created_at`, which win over user columns of those names.
  */
  lemma ReadBack(dl: Dialect, db: Db, t: TableId, r: RowId, now: Time, payload: Payload)
    requires Inv(db) && r !in db.issued && Accepts(dl, db, Some(t), r, now, payload)
    ensures Inv(Inserted(dl, db, t, r, now, payload))
    ensures var o := RowJson(dl, Inserted(dl, db, t, r, now, payload), r);
            && o.Keys == payload.fields.Keys + {"id", "created_at"}
            && o["id"] == Str(dl.showUuid(r)) && o["created_at"] == Str(dl.showTime(now))
            && forall c :: c in db.columns && db.columns[c].table == t && db.columns[c].name in payload.fields
                           && db.columns[c].name !in {"id", "created_at"}
                 ==> o[db.columns[c].name] == ReadAs(dl, db.columns[c].ty, payload.fields[db.columns[c].name])
  {
    hide Inv, KeysAccepted, MissesRequired, Placed, Merged, Cast, Render, ReadAs, Inserted;
    ColumnsUntouched(dl, db, t, r, now, payload);
    var data := NewRowMerged(dl, db, t, r, now, payload);
  }

  /**
  Text comes back as it went in, null as null in every type, and a bool, date, number or uuid as
  it was sent, when the casts read what the output functions write.
  */
  lemma ReadAsEach(dl: Dialect, s: string, ty: ColumnType, b: bool, f: Float, number: string, day: int, u: RowId)
    requires dl.castBool("true") == Some(true) && dl.castBool("false") == Some(false)
    requires dl.castFloat(number) == Some(f) && dl.showFloat(f) == Number(number)
    requires dl.castDate(dl.showDate(day)) == Some(day) && dl.castUuid(dl.showUuid(u)) == Some(u)
    ensures ReadAs(dl, TextType, Str(s)) == ReadAs(dl, EnumType, Str(s)) == Str(s)
    ensures ReadAs(dl, ty, Null) == Null
    ensures ReadAs(dl, BoolType, Bool(b)) == Bool(b)
    ensures ReadAs(dl, FloatType, Number(number)) == Number(number)
    ensures ReadAs(dl, DateType, Str(dl.showDate(day))) == Str(dl.showDate(day))
    ensures ReadAs(dl, UuidType, Str(dl.showUuid(u))) == Str(dl.showUuid(u))
  {
    assert Unwrap(Bool(b)) == Some(if b then "true" else "false");
  }

  /** Each type renders what its own cast makes of the text, and a value of any other kind reads as its text. */
  lemma ReadAsCasts(dl: Dialect, s: string)
    ensures forall ty <- {TextType, EnumType} :: ReadAs(dl, ty, Number(s)) == ReadAs(dl, ty, Compound(s)) == Str(s)
    ensures forall v <- [Str(s), Number(s), Compound(s)] ::
              && (dl.castFloat(s).Some? ==> ReadAs(dl, FloatType, v) == dl.showFloat(dl.castFloat(s).value))
              && (dl.castDate(s).Some? ==> ReadAs(dl, DateType, v) == Str(dl.showDate(dl.castDate(s).value)))
              && (dl.castBool(s).Some? ==> ReadAs(dl, BoolType, v) == Bool(dl.castBool(s).value))
              && (dl.castUuid(s).Some? ==> ReadAs(dl, UuidType, v) == Str(dl.showUuid(dl.castUuid(s).value)))
  {
    forall v <- [Str(s), Number(s), Compound(s)] ensures Unwrap(v) == Some(s) {
    }
  }

  // ---------- The two readers ----------

  /** Name `n` is a float column the row has a cell in. */
  ghost predicate FloatKey(db: Db, r: RowId, n: string) {
    exists c :: InBucket(db, FloatType, r, c) && db.columns[c].name == n
  }

  /** `rows_json` is `row_to_json` without the float keys and without what the metadata sets. */
  lemma ReadersAgree(dl: Dialect, db: Db, r: RowId, n: string)
    requires Inv(db) && r in db.rows && n !in {"id", "created_at"}
    ensures n in RowsJsonData(dl, db, r) <==> n in RowJson(dl, db, r) && !FloatKey(db, r, n)
    ensures n in RowsJsonData(dl, db, r) ==> RowsJsonData(dl, db, r)[n] == RowJson(dl, db, r)[n]
  {
    hide Inv, Merged, Render, InBucket;
    var five := [TextType, DateType, BoolType, EnumType, UuidType];
    AllTypes();
    if ty, c :| InBucket(db, ty, r, c) && CellName(db, ty, r, c) == n {
      MergedAt(dl, db, five, r, ty, c);
      MergedAt(dl, db, MERGE_ORDER, r, ty, c);
      FloatKeyExactly(db, ty, r, c);
    } else {
      NotMerged(dl, db, five, r, n);
      NotMerged(dl, db, MERGE_ORDER, r, n);
    }
  }

  function CellName(db: Db, ty: ColumnType, r: RowId, c: ColumnId): string
    requires InBucket(db, ty, r, c)
  {
    db.columns[c].name
  }

  /** A cell is in the merge exactly when its value table is merged. */
  lemma MergedAt(dl: Dialect, db: Db, order: seq<ColumnType>, r: RowId, ty: ColumnType, c: ColumnId)
    requires Inv(db) && InBucket(db, ty, r, c)
    ensures var n := CellName(db, ty, r, c);
            && (n in Merged(dl, db, order, r) <==> ty in TypesIn(order))
            && (n in Merged(dl, db, order, r) ==> Merged(dl, db, order, r)[n] == Render(dl, db.cells.At(ty)[Key(r, c)]))
  {
    hide Inv, Merged, Render;
    MergedDescribes(dl, db, order, r);
    SameNameSameColumn(db, r);
  }

  lemma NotMerged(dl: Dialect, db: Db, order: seq<ColumnType>, r: RowId, n: string)
    requires Inv(db) && forall ty, c :: InBucket(db, ty, r, c) ==> CellName(db, ty, r, c) != n
    ensures n !in Merged(dl, db, order, r)
  {
    hide Inv, Merged, Render;
    MergedDescribes(dl, db, order, r);
  }

  lemma FloatKeyExactly(db: Db, ty: ColumnType, r: RowId, c: ColumnId)
    requires Inv(db) && InBucket(db, ty, r, c)
    ensures FloatKey(db, r, CellName(db, ty, r, c)) <==> ty == FloatType
  {
    hide Inv;
    SameNameSameColumn(db, r);
  }

  lemma AllTypes()
    ensures forall ty :: ty in TypesIn(MERGE_ORDER)
    ensures forall ty :: ty in TypesIn([TextType, DateType, BoolType, EnumType, UuidType]) <==> ty != FloatType
  {
    assert MERGE_ORDER[0] == TextType && MERGE_ORDER[1] == FloatType && MERGE_ORDER[2] == DateType;
    assert MERGE_ORDER[3] == BoolType && MERGE_ORDER[4] == EnumType && MERGE_ORDER[5] == UuidType;
    forall ty ensures ty in MERGE_ORDER {
      match ty case TextType => case FloatType => case DateType => case BoolType => case EnumType => case UuidType =>
    }
    var five := [TextType, DateType, BoolType, EnumType, UuidType];
    assert five[0] == TextType && five[1] == DateType && five[2] == BoolType && five[3] == EnumType
      && five[4] == UuidType;
  }
}
