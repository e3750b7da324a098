/** Exactly what the three deletes do, and what another org's calls do to the rows an org reads. */
module Deletes {
  import opened Wrappers
  import opened Naming
  import opened Schema
  import opened Insertion
  import opened Operations
  import opened Isolation
  import opened Readers

  // ---------- RemoveUserTableColumn ----------

  lemma RemovalPrunesOneColumn(db: Db, t: TableId, column: string, c: ColumnId)
    requires Inv(db) && HasName(db, t, ColumnName(column), c)
    ensures DropColumn(db, Some(t), column) == Success(Prune(db, {}, {c}, {}))
    ensures Inv(Prune(db, {}, {c}, {}))
  {
    hide TablesOk, RowsOk, CellsOk;
    assert NamedColumns(db, Some(t), column) == {c};
    PruneKeepsInv(db, {}, {c}, {});
  }

  /**
  Removing a column always succeeds. It deletes that column and its cells: the key goes from the
  object of every row of the table, and nothing else changes in any table, row or object.
  */
  lemma ColumnRemovalIsExact(dl: Dialect, db: Db, t: TableId, column: string, c: ColumnId, r: RowId)
    requires Inv(db) && HasName(db, t, ColumnName(column), c) && r in db.rows
    ensures DropColumn(db, Some(t), column).Success?
    ensures var db' := DropColumn(db, Some(t), column).value;
            && Inv(db') && db'.tables == db.tables && db'.rows == db.rows && db'.columns == db.columns - {c}
            && Merged(dl, db', MERGE_ORDER, r) ==
                 if db.rows[r].table == t then Merged(dl, db, MERGE_ORDER, r) - {ColumnName(column)}
                 else Merged(dl, db, MERGE_ORDER, r)
  {
    hide Inv, Merged;
    RemovalPrunesOneColumn(db, t, column, c);
    var db' := Prune(db, {}, {c}, {});
    var o := Merged(dl, db, MERGE_ORDER, r);
    MergedDescribes(dl, db, MERGE_ORDER, r);
    if db.rows[r].table == t {
      MergedDescribes(dl, db', MERGE_ORDER, r);
      WithoutColumn(dl, db, t, ColumnName(column), c, r, TypesIn(MERGE_ORDER), o);
      DescribedOnce(dl, db', TypesIn(MERGE_ORDER), r, o - {ColumnName(column)}, Merged(dl, db', MERGE_ORDER, r));
    } else {
      KeptRowIsSame(db, {}, {c}, {}, r);
      SameRowSameMerge(dl, db, db', MERGE_ORDER, r);
    }
  }

  /** Without a table, or a column of that name, nothing is removed. */
  lemma NothingToRemove(db: Db, pick: Option<TableId>, column: string)
    requires pick.Some? ==> forall c :: !HasName(db, pick.value, ColumnName(column), c)
    ensures DropColumn(db, pick, column) == Success(db)
  {
    assert NamedColumns(db, pick, column) == {};
    var pruned := Prune(db, {}, {}, {});
    forall ty ensures pruned.cells.At(ty) == db.cells.At(ty) {
    }
    BucketsEqual(pruned.cells, db.cells);
    assert pruned.tables == db.tables && pruned.columns == db.columns && pruned.rows == db.rows;
  }

  lemma WithoutColumn(
    dl: Dialect, db: Db, t: TableId, name: string, c: ColumnId, r: RowId, types: set<ColumnType>, o: map<string, Json>)
    requires Inv(db) && HasName(db, t, name, c) && r in db.rows && db.rows[r].table == t
    requires Describes(dl, db, types, r, o)
    ensures Describes(dl, Prune(db, {}, {c}, {}), types, r, o - {name})
  {
    hide Inv, Render, InBucket, Prune;
    var db' := Prune(db, {}, {c}, {});
    OtherColumnsOfRow(db, t, name, c, r);
    forall n <- o - {name} ensures exists ty, d :: ty in types && InBucket(db', ty, r, d) && db'.columns[d].name == n {
      var ty, d :| ty in types && InBucket(db, ty, r, d) && db.columns[d].name == n;
      assert InBucket(db', ty, r, d);
    }
  }

  lemma OtherColumnsOfRow(db: Db, t: TableId, name: string, c: ColumnId, r: RowId)
    requires Inv(db) && HasName(db, t, name, c) && r in db.rows && db.rows[r].table == t
    ensures var db' := Prune(db, {}, {c}, {});
            && db'.columns == db.columns - {c}
            && forall ty, d :: && (InBucket(db', ty, r, d) <==> InBucket(db, ty, r, d) && d != c)
                               && (InBucket(db, ty, r, d) ==>
                                     Key(r, d) in db.cells.At(ty) && d in db.columns
                                       && (d != c <==> db.columns[d].name != name))
                               && (InBucket(db', ty, r, d) ==>
                                     Key(r, d) in db'.cells.At(ty)
                                       && db'.cells.At(ty)[Key(r, d)] == db.cells.At(ty)[Key(r, d)])
  {
    forall ty, d | InBucket(db, ty, r, d) ensures d != c <==> db.columns[d].name != name {
      assert CellOk(db, ty, Key(r, d), db.cells.At(ty)[Key(r, d)]);
    }
  }

  // ---------- DeleteUserTableRow and DeleteUserTable ----------

  /** The cell of `source` in column `c` refers to row `r`. */
  ghost predicate PointedAtFrom(db: Db, r: RowId, source: RowId, c: ColumnId) {
    Key(source, c) in db.cells.uuids && db.cells.uuids[Key(source, c)] == Some(UuidValue(r))
  }

  /** Deleting a row succeeds exactly when no other row refers to it. */
  lemma RowDeletionExactly(db: Db, t: TableId, r: RowId)
    requires Inv(db) && r in db.rows && db.rows[r].table == t
    ensures DropRow(db, Some(t), r).Success? <==> !exists source, c :: source != r && PointedAtFrom(db, r, source, c)
    ensures DropRow(db, Some(t), r).Success? ==> DropRow(db, Some(t), r).value == Prune(db, {}, {}, {r})
  {
    hide Inv;
    var pruned := Prune(db, {}, {}, {r});
    if RowReferenced(pruned, {r}) {
      var k :| k in pruned.cells.uuids && pruned.cells.uuids[k] == Some(UuidValue(r));
      assert PointedAtFrom(db, r, k.row, k.col);
    }
    if source, c :| source != r && PointedAtFrom(db, r, source, c) {
      assert Key(source, c) in pruned.cells.uuids;
    }
  }

  /**
  Deleting a table succeeds exactly when no other table has a column that refers to it or a row
  that refers to one of its rows. The same-table invariant makes the references inside the table
  go with it.
  */
  lemma TableDeletionExactly(db: Db, t: TableId)
    requires Inv(db) && t in db.tables
    ensures DropTable(db, Some(t)).Success? <==>
              && (!exists c :: c in db.columns && db.columns[c].table != t && db.columns[c].refTable == Some(t))
              && (!exists r, source, c :: r in db.rows && db.rows[r].table == t && source in db.rows
                                          && db.rows[source].table != t && PointedAtFrom(db, r, source, c))
  {
    hide TablesOk, ColumnsOk, RowsOk;
    var columns, rows := ColumnsOf(db, t), RowsOf(db, t);
    var pruned := Prune(db, {t}, columns, rows);
    if TableReferenced(pruned, {t}) {
      var c :| c in pruned.columns && pruned.columns[c].refTable == Some(t);
      assert c in db.columns && db.columns[c].table != t;
    }
    if c :| c in db.columns && db.columns[c].table != t && db.columns[c].refTable == Some(t) {
      assert c in pruned.columns;
    }
    if RowReferenced(pruned, rows) {
      var k :| k in pruned.cells.uuids && pruned.cells.uuids[k].Some? && pruned.cells.uuids[k].value.UuidValue?
               && pruned.cells.uuids[k].value.u in rows;
      assert CellOk(db, UuidType, k, db.cells.At(UuidType)[k]);
      assert PointedAtFrom(db, pruned.cells.uuids[k].value.u, k.row, k.col);
    }
    if r, source, c :| r in db.rows && db.rows[r].table == t && source in db.rows
                       && db.rows[source].table != t && PointedAtFrom(db, r, source, c) {
      assert CellOk(db, UuidType, Key(source, c), db.cells.At(UuidType)[Key(source, c)]);
      assert Key(source, c) in pruned.cells.uuids;
    }
  }

  /** What is left has exactly the tables, columns and rows that were not deleted, and the cells of those. */
  ghost predicate LeftAfter(db: Db, db': Db, tables: set<TableId>, columns: set<ColumnId>, rows: set<RowId>) {
    && db'.tables.Keys == db.tables.Keys - tables && (forall t <- db'.tables :: db'.tables[t] == db.tables[t])
    && db'.columns.Keys == db.columns.Keys - columns && (forall c <- db'.columns :: db'.columns[c] == db.columns[c])
    && db'.rows.Keys == db.rows.Keys - rows && (forall r <- db'.rows :: db'.rows[r] == db.rows[r])
    && (forall ty, k: Key ::
          k in db'.cells.At(ty) <==> k in db.cells.At(ty) && k.row in db'.rows && k.col in db'.columns)
    && (forall ty, k: Key :: k in db'.cells.At(ty) ==>
          k in db.cells.At(ty) && db'.cells.At(ty)[k] == db.cells.At(ty)[k])
    && db'.nextTable == db.nextTable && db'.nextColumn == db.nextColumn && db'.issued == db.issued
  }

  lemma PruneLeaves(db: Db, tables: set<TableId>, columns: set<ColumnId>, rows: set<RowId>)
    requires Inv(db)
    ensures LeftAfter(db, Prune(db, tables, columns, rows), tables, columns, rows)
  {
    hide TablesOk, ColumnsOk, RowsOk;
    var db' := Prune(db, tables, columns, rows);
    forall ty, k: Key | k in db.cells.At(ty) ensures k.row in db.rows && k.col in db.columns {
      assert CellOk(db, ty, k, db.cells.At(ty)[k]);
    }
  }

  /** A table that is deleted goes with its columns, its rows and their cells, and nothing else goes. */
  lemma TableDeletionLeaves(db: Db, t: TableId)
    requires Inv(db) && DropTable(db, Some(t)).Success?
    ensures LeftAfter(db, DropTable(db, Some(t)).value, {t},
                      set c | c in db.columns && db.columns[c].table == t,
                      set r | r in db.rows && db.rows[r].table == t)
  {
    hide Inv, LeftAfter, Prune;
    PruneLeaves(db, {t}, ColumnsOf(db, t), RowsOf(db, t));
    assert ColumnsOf(db, t) == set c | c in db.columns && db.columns[c].table == t;
    assert RowsOf(db, t) == set r | r in db.rows && db.rows[r].table == t;
  }

  /** A row that is deleted goes with its cells, and only if it is a row of the named table. */
  lemma RowDeletionLeaves(db: Db, pick: Option<TableId>, r: RowId)
    requires Inv(db) && DropRow(db, pick, r).Success?
    ensures var there := r in db.rows && pick == Some(db.rows[r].table);
            && (there ==> LeftAfter(db, DropRow(db, pick, r).value, {}, {}, {r}))
            && (!there ==> DropRow(db, pick, r).value == db)
  {
    hide Inv, LeftAfter, Prune;
    PruneLeaves(db, {}, {}, {r});
  }

  /**
  A table or row deletion that goes through leaves every other row there, with its object as it
  was: all rows of the other tables, or all rows but the deleted one.
  */
  lemma DeletionKeepsOtherObjects(dl: Dialect, db: Db, t: TableId, r: RowId, other: RowId)
    requires Inv(db) && other in db.rows
    ensures DropTable(db, Some(t)).Success? && db.rows[other].table != t ==>
              var db' := DropTable(db, Some(t)).value;
              Inv(db') && other in db'.rows && RowJson(dl, db', other) == RowJson(dl, db, other)
    ensures DropRow(db, Some(t), r).Success? && other != r ==>
              var db' := DropRow(db, Some(t), r).value;
              Inv(db') && other in db'.rows && RowJson(dl, db', other) == RowJson(dl, db, other)
  {
    hide Inv, RowJson, Prune;
    if DropTable(db, Some(t)).Success? && db.rows[other].table != t {
      PruneKeepsInv(db, {t}, ColumnsOf(db, t), RowsOf(db, t));
      PruneKeepsObject(dl, db, {t}, ColumnsOf(db, t), RowsOf(db, t), other);
    }
    if DropRow(db, Some(t), r).Success? && DropRow(db, Some(t), r).value != db && other != r {
      PruneKeepsInv(db, {}, {}, {r});
      PruneKeepsObject(dl, db, {}, {}, {r}, other);
    }
  }

  lemma PruneKeepsObject(dl: Dialect, db: Db, tables: set<TableId>, columns: set<ColumnId>, rows: set<RowId>, r: RowId)
    requires Inv(db) && Inv(Prune(db, tables, columns, rows)) && r in db.rows && r !in rows
    requires forall c <- columns :: c in db.columns ==> db.columns[c].table != db.rows[r].table
    ensures r in Prune(db, tables, columns, rows).rows
    ensures RowJson(dl, Prune(db, tables, columns, rows), r) == RowJson(dl, db, r)
  {
    hide Inv, Merged;
    var db' := Prune(db, tables, columns, rows);
    KeptRowIsSame(db, tables, columns, rows, r);
    SameRowSameMerge(dl, db, db', MERGE_ORDER, r);
  }

  lemma KeptRowIsSame(db: Db, tables: set<TableId>, columns: set<ColumnId>, rows: set<RowId>, r: RowId)
    requires Inv(db) && r in db.rows && r !in rows
    requires forall c <- columns :: c in db.columns ==> db.columns[c].table != db.rows[r].table
    ensures SameRow(db, Prune(db, tables, columns, rows), r)
  {
    var db' := Prune(db, tables, columns, rows);
    forall ty, c | InBucket(db, ty, r, c) || InBucket(db', ty, r, c) ensures SameCell(db, db', ty, r, c) {
      assert CellOk(db, ty, Key(r, c), db.cells.At(ty)[Key(r, c)]);
    }
  }

  // ---------- GetRowData ----------

  /** The row's object when its table belongs to the org. */
  function GetRowData(dl: Dialect, db: Db, org: Org, r: RowId): Option<map<string, Json>>
    requires Inv(db)
  {
    if OwnedRow(db, org, r) then Some(RowJson(dl, db, r)) else None
  }

  /** An org gets the object of each of its own rows, with its id, and nothing for any other id. */
  lemma GetRowDataExactly(dl: Dialect, db: Db, org: Org, r: RowId)
    requires Inv(db)
    ensures var data := GetRowData(dl, db, org, r);
            var own := r in db.rows && db.tables[db.rows[r].table].org == Some(org);
            && (own ==>
                  data == Some(RowJson(dl, db, r)) && "id" in data.value && data.value["id"] == Str(dl.showUuid(r)))
            && (!own ==> data == None)
  {
    hide TablesOk, ColumnsOk, CellsOk, Merged;
  }

  /** Whatever other orgs call, an org finds the same rows with the same contents. */
  lemma OthersNeverChangeWhatAnOrgReads(dl: Dialect, db: Db, calls: seq<Call>, org: Org, r: RowId)
    requires Inv(db) && forall call <- calls :: CallerOf(call) != Some(org)
    ensures Inv(Run(dl, db, calls))
    ensures GetRowData(dl, Run(dl, db, calls), org, r) == GetRowData(dl, db, org, r)
  {
    hide Inv, Run, Merged, View;
    var db' := Run(dl, db, calls);
    RunKeepsInv(dl, db, calls);
    RunIsolation(dl, db, calls, org);
    SameViewSameRow(db, db', org, r);
    if OwnedRow(db, org, r) {
      SameRowSameMerge(dl, db, db', MERGE_ORDER, r);
    }
  }

  lemma SameViewSameRow(db: Db, db': Db, org: Org, r: RowId)
    requires Inv(db) && Inv(db') && View(db', org) == View(db, org)
    ensures OwnedRow(db, org, r) <==> OwnedRow(db', org, r)
    ensures OwnedRow(db, org, r) ==> db'.rows[r] == db.rows[r] && SameRow(db, db', r)
  {
    hide Inv;
    assert OwnedRow(db, org, r) <==> r in View(db, org).rows;
    assert OwnedRow(db', org, r) <==> r in View(db', org).rows;
    if OwnedRow(db, org, r) {
      forall ty, c | InBucket(db, ty, r, c) || InBucket(db', ty, r, c) ensures SameCell(db, db', ty, r, c) {
        assert Key(r, c) in View(db, org).cells.At(ty) && View(db, org).cells.At(ty) == View(db', org).cells.At(ty);
        ColumnInView(db, org, ty, r, c);
        ColumnInView(db', org, ty, r, c);
      }
    }
  }

  lemma ColumnInView(db: Db, org: Org, ty: ColumnType, r: RowId, c: ColumnId)
    requires Inv(db) && OwnedRow(db, org, r) && Key(r, c) in db.cells.At(ty)
    ensures c in View(db, org).columns && View(db, org).columns[c] == db.columns[c]
    ensures Key(r, c) in View(db, org).cells.At(ty)
            && View(db, org).cells.At(ty)[Key(r, c)] == db.cells.At(ty)[Key(r, c)]
  {
    assert CellOk(db, ty, Key(r, c), db.cells.At(ty)[Key(r, c)]);
  }
}
