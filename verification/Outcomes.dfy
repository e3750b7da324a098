/**
What other orgs' calls can change for an org: not its data, but whether one of its deletes is refused
because of a reference from outside.
*/
module Outcomes {
  import opened Wrappers
  import opened Schema
  import opened Insertion
  import opened Operations
  import opened Isolation
  import opened Readers
  import opened Deletes

  predicate IsDelete(call: Call) { call.DeleteRow? || call.DeleteTable? }

  /** The call has something to delete; otherwise it succeeds and changes nothing. */
  predicate HasTarget(db: Db, call: Call)
    requires IsDelete(call)
  {
    match call
    case DeleteRow(_, _, r, pick) => pick.Some? && r in db.rows && db.rows[r].table == pick.value
    case DeleteTable(_, _, pick) => pick.Some?
  }

  /** A row outside the org's tables refers to the row, or to a row of the table, or a column outside to the table. */
  ghost predicate HeldFromOutside(db: Db, call: Call)
    requires IsDelete(call)
  {
    match call
    case DeleteRow(org, _, r, _) => exists source, c :: !OwnedRow(db, org, source) && PointedAtFrom(db, r, source, c)
    case DeleteTable(org, _, pick) =>
      || (exists c :: c in db.columns && !OwnedColumn(db, org, c) && pick.Some? && db.columns[c].refTable == pick)
      || (exists r, source, c :: && r in db.rows && pick == Some(db.rows[r].table)
                                 && !OwnedRow(db, org, source) && PointedAtFrom(db, r, source, c))
  }

  /** The same from another row or another table of the org itself. */
  ghost predicate HeldFromInside(db: Db, call: Call)
    requires IsDelete(call)
  {
    match call
    case DeleteRow(org, _, r, _) =>
      exists source, c :: source != r && OwnedRow(db, org, source) && PointedAtFrom(db, r, source, c)
    case DeleteTable(org, _, pick) =>
      || (exists c :: && OwnedColumn(db, org, c) && Some(db.columns[c].table) != pick && pick.Some?
                      && db.columns[c].refTable == pick)
      || (exists r, source, c :: && r in db.rows && pick == Some(db.rows[r].table) && OwnedRow(db, org, source)
                                 && db.rows[source].table != db.rows[r].table && PointedAtFrom(db, r, source, c))
  }

  /** A delete is refused exactly when its target is held from outside the org or from inside. */
  lemma DeleteOutcomeExactly(dl: Dialect, db: Db, call: Call)
    requires Inv(db) && IsDelete(call) && Possible(db, call)
    ensures Outcome(dl, db, call).Success? <==>
              !HasTarget(db, call) || (!HeldFromOutside(db, call) && !HeldFromInside(db, call))
    ensures Outcome(dl, db, call).Failure? ==> Outcome(dl, db, call).error == ForeignKeyViolation
  {
    hide Inv, PointedAtFrom, TableReferenced, RowReferenced, Prune;
    match call
    case DeleteRow(org, name, r, pick) =>
      if HasTarget(db, call) { RowDeletionExactly(db, pick.value, r); }
    case DeleteTable(org, name, pick) =>
      if pick.Some? {
        TableDeletionExactly(db, pick.value);
        forall source, c, r | PointedAtFrom(db, r, source, c) ensures source in db.rows {
          SourceIsThere(db, r, source, c);
        }
      }
  }

  lemma SourceIsThere(db: Db, r: RowId, source: RowId, c: ColumnId)
    requires Inv(db) && PointedAtFrom(db, r, source, c)
    ensures source in db.rows && r in db.rows
  {
    assert CellOk(db, UuidType, Key(source, c), db.cells.At(UuidType)[Key(source, c)]);
  }

  // ---------- What an org sees decides the rest ----------

  lemma SameViewSameForOrg(db: Db, db': Db, org: Org)
    requires View(db', org) == View(db, org)
    ensures SameForOrg(db, db', org)
  {
    var v, v' := View(db, org), View(db', org);
    assert forall t: TableId :: Owns(db, org, t) <==> t in v.tables;
    assert forall c: ColumnId :: OwnedColumn(db, org, c) <==> c in v.columns;
    assert forall r: RowId :: OwnedRow(db, org, r) <==> r in v.rows;
    assert forall t: TableId :: Owns(db', org, t) <==> t in v'.tables;
    assert forall c: ColumnId :: OwnedColumn(db', org, c) <==> c in v'.columns;
    assert forall r: RowId :: OwnedRow(db', org, r) <==> r in v'.rows;
    forall ty, k: Key | OwnedRow(db, org, k.row)
      ensures k in db.cells.At(ty) <==> k in db'.cells.At(ty)
      ensures k in db.cells.At(ty) ==> db'.cells.At(ty)[k] == db.cells.At(ty)[k]
    {
      assert v.cells.At(ty) == v'.cells.At(ty);
      assert k in v.cells.At(ty) <==> k in db.cells.At(ty);
      assert k in v'.cells.At(ty) <==> k in db'.cells.At(ty);
    }
  }

  lemma SameResolution(db: Db, db': Db, org: Org, name: string)
    requires SameRecordsForOrg(db, db', org)
    ensures Candidates(db', org, name, false) == Candidates(db, org, name, false)
  {
    assert forall t: TableId :: t in OwnMatches(db, org, name) ==> Owns(db, org, t);
    assert forall t: TableId :: t in OwnMatches(db', org, name) ==> Owns(db', org, t);
  }

  lemma SameTarget(db: Db, db': Db, org: Org, call: Call)
    requires SameRecordsForOrg(db, db', org) && IsDelete(call) && call.org == org
    ensures Possible(db', call) <==> Possible(db, call)
    ensures Possible(db, call) ==> (HasTarget(db', call) <==> HasTarget(db, call))
    ensures Possible(db, call) && call.DeleteRow? && HasTarget(db, call) ==> OwnedRow(db, org, call.row)
    ensures Possible(db, call) && call.DeleteTable? && HasTarget(db, call) ==> Owns(db, org, call.pick.value)
  {
    hide Candidates;
    SameResolution(db, db', org, call.table);
    if Possible(db, call) && call.pick.Some? { CandidatesAreOwned(db, org, call.table, call.pick.value); }
    if call.DeleteRow? { assert OwnedRow(db, org, call.row) <==> OwnedRow(db', org, call.row); }
  }

  lemma CandidatesAreOwned(db: Db, org: Org, name: string, t: TableId)
    requires t in Candidates(db, org, name, false)
    ensures Owns(db, org, t)
  {
  }

  lemma SamePointer(db: Db, db': Db, org: Org, r: RowId, source: RowId, c: ColumnId)
    requires SameForOrg(db, db', org) && OwnedRow(db, org, source)
    ensures PointedAtFrom(db', r, source, c) <==> PointedAtFrom(db, r, source, c)
  {
    assert db.cells.At(UuidType) == db.cells.uuids && db'.cells.At(UuidType) == db'.cells.uuids;
    assert Key(source, c).row == source;
  }

  lemma SameInside(db: Db, db': Db, org: Org, call: Call)
    requires SameForOrg(db, db', org) && IsDelete(call) && call.org == org
    requires Possible(db, call) && HasTarget(db, call) && HeldFromInside(db, call)
    ensures HeldFromInside(db', call)
  {
    hide Possible, PointedAtFrom, SameCellsForOrg;
    SameTarget(db, db', org, call);
    match call
    case DeleteRow(_, _, r, _) =>
      var source, c :| source != r && OwnedRow(db, org, source) && PointedAtFrom(db, r, source, c);
      SamePointer(db, db', org, r, source, c);
    case DeleteTable(_, _, pick) =>
      if r, source, c :| && r in db.rows && pick == Some(db.rows[r].table) && OwnedRow(db, org, source)
                         && db.rows[source].table != db.rows[r].table && PointedAtFrom(db, r, source, c)
      {
        SamePointer(db, db', org, r, source, c);
        assert OwnedRow(db, org, r);
      }
  }

  lemma SameForOrgSymmetric(db: Db, db': Db, org: Org)
    requires SameForOrg(db, db', org)
    ensures SameForOrg(db', db, org)
  {
  }

  lemma SameInsideExactly(db: Db, db': Db, org: Org, call: Call)
    requires SameForOrg(db, db', org) && IsDelete(call) && call.org == org && Possible(db, call) && HasTarget(db, call)
    ensures HeldFromInside(db', call) <==> HeldFromInside(db, call)
  {
    hide HeldFromInside, Possible, SameForOrg, HasTarget;
    SameForOrgSymmetric(db, db', org);
    assert SameRecordsForOrg(db, db', org) by { RecordsOf(db, db', org); }
    SameTarget(db, db', org, call);
    if HeldFromInside(db, call) { SameInside(db, db', org, call); }
    if HeldFromInside(db', call) { SameInside(db', db, org, call); }
  }

  lemma RecordsOf(db: Db, db': Db, org: Org)
    requires SameForOrg(db, db', org)
    ensures SameRecordsForOrg(db, db', org)
  {
  }

  // ---------- Over runs of others' calls ----------

  /**
  Outcome noninterference: after any run of calls that are not the org's own, a delete of the org
  resolves to the same target. If it would have gone through before, it is now refused exactly when
  its target is now held from outside; if it would have been refused before, it now goes through
  exactly when the target was not held from inside and is no longer held from outside.
  */
  lemma OthersChangeADeleteExactly(dl: Dialect, db: Db, calls: seq<Call>, org: Org, call: Call)
    requires Inv(db) && forall other <- calls :: CallerOf(other) != Some(org)
    requires IsDelete(call) && call.org == org && Possible(db, call)
    ensures var db' := Run(dl, db, calls);
            && Possible(db', call) && (HasTarget(db', call) <==> HasTarget(db, call))
            && (Outcome(dl, db, call).Success? ==>
                  (Outcome(dl, db', call).Failure? <==> HasTarget(db, call) && HeldFromOutside(db', call)))
            && (Outcome(dl, db, call).Failure? ==>
                  (Outcome(dl, db', call).Success? <==> !HeldFromOutside(db', call) && !HeldFromInside(db, call)))
  {
    hide Inv, Run, View, Possible, Outcome, HasTarget, HeldFromOutside, HeldFromInside, SameForOrg;
    var db' := Run(dl, db, calls);
    RunKeepsInv(dl, db, calls);
    RunIsolation(dl, db, calls, org);
    SameViewSameForOrg(db, db', org);
    RecordsOf(db, db', org);
    SameTarget(db, db', org, call);
    DeleteOutcomeExactly(dl, db, call);
    DeleteOutcomeExactly(dl, db', call);
    if HasTarget(db, call) { SameInsideExactly(db, db', org, call); }
  }

  /** When the delete goes through both before and after, the org is left with the same data. */
  lemma OthersNeverChangeWhatADeleteLeaves(dl: Dialect, db: Db, calls: seq<Call>, org: Org, call: Call)
    requires Inv(db) && forall other <- calls :: CallerOf(other) != Some(org)
    requires IsDelete(call) && call.org == org && Possible(db, call)
    requires Outcome(dl, db, call).Success? && Outcome(dl, Run(dl, db, calls), call).Success?
    ensures View(Outcome(dl, Run(dl, db, calls), call).value, org) == View(Outcome(dl, db, call).value, org)
  {
    hide Inv, Run, View, Possible, Prune, HasTarget, SameForOrg, TableReferenced, RowReferenced;
    var db' := Run(dl, db, calls);
    RunIsolation(dl, db, calls, org);
    SameViewSameForOrg(db, db', org);
    RecordsOf(db, db', org);
    SameTarget(db, db', org, call);
    if HasTarget(db, call) {
      TargetsAreOwned(db, db', org, call);
      var tables, columns, rows := DeletedTables(call), DeletedColumns(db, call), DeletedRows(db, call);
      SamePruned(db, db', org, tables, columns, rows);
      SameForOrgSameView(Prune(db, tables, columns, rows), Prune(db', tables, columns, rows), org);
      DeleteLeaves(dl, db, call);
      DeleteLeaves(dl, db', call);
    } else {
      NothingDeleted(dl, db, call);
      NothingDeleted(dl, db', call);
    }
  }

  function DeletedTables(call: Call): set<TableId> {
    if call.DeleteTable? && call.pick.Some? then {call.pick.value} else {}
  }

  function DeletedColumns(db: Db, call: Call): set<ColumnId> {
    if call.DeleteTable? && call.pick.Some? then ColumnsOf(db, call.pick.value) else {}
  }

  function DeletedRows(db: Db, call: Call): set<RowId> {
    if call.DeleteTable? && call.pick.Some? then RowsOf(db, call.pick.value)
    else if call.DeleteRow? then {call.row}
    else {}
  }

  lemma DeleteLeaves(dl: Dialect, db: Db, call: Call)
    requires IsDelete(call) && HasTarget(db, call) && Outcome(dl, db, call).Success?
    ensures Outcome(dl, db, call).value
            == Prune(db, DeletedTables(call), DeletedColumns(db, call), DeletedRows(db, call))
  {
    hide Prune, TableReferenced, RowReferenced;
  }

  lemma NothingDeleted(dl: Dialect, db: Db, call: Call)
    requires IsDelete(call) && !HasTarget(db, call)
    ensures Outcome(dl, db, call) == Success(db)
  {
  }

  lemma TargetsAreOwned(db: Db, db': Db, org: Org, call: Call)
    requires SameRecordsForOrg(db, db', org) && IsDelete(call) && call.org == org && Possible(db, call)
             && HasTarget(db, call)
    ensures DeletedColumns(db', call) == DeletedColumns(db, call) && DeletedRows(db', call) == DeletedRows(db, call)
  {
    hide Possible;
    SameTarget(db, db', org, call);
    if call.DeleteTable? {
      var t := call.pick.value;
      assert forall c: ColumnId :: c in ColumnsOf(db, t) ==> OwnedColumn(db, org, c);
      assert forall c: ColumnId :: c in ColumnsOf(db', t) ==> OwnedColumn(db', org, c);
      assert forall r: RowId :: r in RowsOf(db, t) ==> OwnedRow(db, org, r);
      assert forall r: RowId :: r in RowsOf(db', t) ==> OwnedRow(db', org, r);
    }
  }

  lemma SamePruned(db: Db, db': Db, org: Org, tables: set<TableId>, columns: set<ColumnId>, rows: set<RowId>)
    requires SameForOrg(db, db', org)
    ensures SameForOrg(Prune(db, tables, columns, rows), Prune(db', tables, columns, rows), org)
  {
    var a, b := Prune(db, tables, columns, rows), Prune(db', tables, columns, rows);
    OwnedAfterPrune(db, org, tables, columns, rows);
    OwnedAfterPrune(db', org, tables, columns, rows);
  }

  lemma OwnedAfterPrune(db: Db, org: Org, tables: set<TableId>, columns: set<ColumnId>, rows: set<RowId>)
    ensures var a := Prune(db, tables, columns, rows);
            && (forall t: TableId :: Owns(a, org, t) <==> Owns(db, org, t) && t !in tables)
            && (forall c: ColumnId :: OwnedColumn(a, org, c) <==>
                  OwnedColumn(db, org, c) && c !in columns && db.columns[c].table !in tables)
            && (forall r: RowId :: OwnedRow(a, org, r) <==>
                  OwnedRow(db, org, r) && r !in rows && db.rows[r].table !in tables)
            && (forall t: TableId :: Owns(a, org, t) ==> a.tables[t] == db.tables[t])
            && (forall c: ColumnId :: OwnedColumn(a, org, c) ==> a.columns[c] == db.columns[c])
            && (forall r: RowId :: OwnedRow(a, org, r) ==> a.rows[r] == db.rows[r])
  {
  }

  /**
  Such holds exist: a row that anybody else inserts with the id of an org's row in a uuid column
  keeps the org from deleting that row.
  */
  lemma AReferenceFromOutsideHolds(
    dl: Dialect, db: Db, org: Org, call: Call, u: TableId, source: RowId, now: Time, payload: Payload, c: ColumnId)
    requires Inv(db) && call.DeleteRow? && call.org == org && Possible(db, call) && HasTarget(db, call)
    requires source !in db.issued && Accepts(dl, db, Some(u), source, now, payload) && !Owns(db, org, u)
    requires c in db.columns && db.columns[c].table == u && db.columns[c].ty == UuidType
             && db.columns[c].name in payload.fields
    requires Cast(dl, UuidType, Unwrap(payload.fields[db.columns[c].name])) == Some(Some(UuidValue(call.row)))
    ensures Outcome(dl, Inserted(dl, db, u, source, now, payload), call) == Failure(ForeignKeyViolation)
  {
    hide Inv, KeysAccepted, MissesRequired, Placed, Possible, Candidates, SameForOrg, HeldFromInside, Outcome, Cast;
    var db' := Inserted(dl, db, u, source, now, payload);
    InsertKeepsInv(dl, db, u, source, now, payload);
    InsertElsewhere(dl, db, u, source, now, payload, org);
    RecordsOf(db, db', org);
    SameTarget(db, db', org, call);
    StoredForColumn(dl, db, u, source, now, payload, c, UuidType);
    CellForCasts(dl, WithRow(db, u, source, now), source, c, payload.fields[db.columns[c].name]);
    assert PointedAtFrom(db', call.row, source, c);
    assert !OwnedRow(db', org, source) by { assert db'.rows[source].table == u; }
    DeleteOutcomeExactly(dl, db', call);
  }
}
