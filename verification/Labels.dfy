/**
The label queries (database/queries/user_tables.sql) and the repository methods over them
(internal/repo/user_tables.go): which column labels a table's rows, one row at a time and in
batches.
*/
module Labels {
  import opened Wrappers
  import opened Naming
  import opened Schema
  import opened Isolation

  // ---------- The label column ----------

  predicate LabelCandidate(db: Db, t: TableId, c: ColumnId) {
    c in db.columns && db.columns[c].table == t && db.columns[c].ty in {TextType, EnumType}
  }

  function TitleRank(db: Db, c: ColumnId): int
    requires c in db.columns
  {
    if Lower(db.columns[c].name) == "title" then 0 else 1
  }

  function IndexRank(db: Db, c: ColumnId): int
    requires c in db.columns
  {
    if db.columns[c].indexed then 0 else 1
  }

  /** `c` comes no later than `d` in ORDER BY title rank, index rank, id. */
  predicate NotAfter(db: Db, c: ColumnId, d: ColumnId)
    requires c in db.columns && d in db.columns
  {
    || TitleRank(db, c) < TitleRank(db, d)
    || (TitleRank(db, c) == TitleRank(db, d) && IndexRank(db, c) < IndexRank(db, d))
    || (TitleRank(db, c) == TitleRank(db, d) && IndexRank(db, c) == IndexRank(db, d) && c <= d)
  }

  predicate IsLabelColumn(db: Db, t: TableId, c: ColumnId) {
    LabelCandidate(db, t, c) && forall d <- db.columns :: LabelCandidate(db, t, d) ==> NotAfter(db, c, d)
  }

  /** `label_col`: ORDER BY ... LIMIT 1 over the text and enum columns of one table. */
  function LabelColumn(db: Db, t: TableId): Option<ColumnId> {
    if exists c <- db.columns :: IsLabelColumn(db, t, c) then
      var c :| c in db.columns && IsLabelColumn(db, t, c);
      Some(c)
    else None
  }

  lemma LabelColumnExactly(db: Db, t: TableId)
    ensures LabelColumn(db, t).None? <==> forall c: ColumnId :: !LabelCandidate(db, t, c)
    ensures forall c: ColumnId :: LabelColumn(db, t) == Some(c) <==> IsLabelColumn(db, t, c)
  {
    var candidates := set c | c in db.columns && LabelCandidate(db, t, c);
    assert forall c: ColumnId :: LabelCandidate(db, t, c) ==> c in candidates;
    if candidates != {} {
      var c := FirstColumn(db, candidates);
      assert IsLabelColumn(db, t, c);
    }
  }

  lemma {:induction false} FirstColumn(db: Db, columns: set<ColumnId>) returns (c: ColumnId)
    requires columns != {} && columns <= db.columns.Keys
    ensures c in columns && forall d <- columns :: NotAfter(db, c, d)
    decreases |columns|
  {
    c :| c in columns;
    if columns != {c} {
      var d := FirstColumn(db, columns - {c});
      var rest := columns - {c};
      if NotAfter(db, c, d) {
        forall e <- columns ensures NotAfter(db, c, e) {
          if e != c { assert e in rest; }
        }
      } else {
        forall e <- columns ensures NotAfter(db, d, e) {
          if e != c { assert e in rest; }
        }
        c := d;
      }
    }
  }

  /** A text or enum column of the table. */
  predicate IsTextual(db: Db, t: TableId, c: ColumnId) {
    c in db.columns && db.columns[c].table == t && (db.columns[c].ty == TextType || db.columns[c].ty == EnumType)
  }

  /**
  Of the textual columns of the table `c` is the one called `title` if there is one, then an indexed
  one if there is one, then the one with the smallest id.
  */
  ghost predicate LabelsTable(db: Db, t: TableId, c: ColumnId) {
    && IsTextual(db, t, c)
    && forall d <- db.columns :: IsTextual(db, t, d) ==>
         var name, other := Lower(db.columns[c].name), Lower(db.columns[d].name);
         && (other == "title" ==> name == "title")
         && ((other == "title" <==> name == "title") ==>
               && (db.columns[d].indexed ==> db.columns[c].indexed)
               && ((db.columns[d].indexed <==> db.columns[c].indexed) ==> c <= d))
  }

  /** The label column in terms of names, flags and ids. */
  lemma LabelColumnMeans(db: Db, t: TableId)
    ensures forall c: ColumnId :: LabelColumn(db, t) == Some(c) <==> LabelsTable(db, t, c)
    ensures LabelColumn(db, t).None? <==> forall c: ColumnId :: !IsTextual(db, t, c)
    ensures (exists c: ColumnId :: IsTextual(db, t, c) && Lower(db.columns[c].name) == "title") ==>
              LabelColumn(db, t).Some? && Lower(db.columns[LabelColumn(db, t).value].name) == "title"
  {
    hide LabelColumn;
    LabelColumnExactly(db, t);
    forall c: ColumnId ensures IsTextual(db, t, c) <==> LabelCandidate(db, t, c) {
    }
    forall c: ColumnId ensures IsLabelColumn(db, t, c) <==> LabelsTable(db, t, c) {
      if c in db.columns {
        forall d <- db.columns | IsTextual(db, t, d) ensures NotAfter(db, c, d) <==>
          var name, other := Lower(db.columns[c].name), Lower(db.columns[d].name);
          && (other == "title" ==> name == "title")
          && ((other == "title" <==> name == "title") ==>
                && (db.columns[d].indexed ==> db.columns[c].indexed)
                && ((db.columns[d].indexed <==> db.columns[c].indexed) ==> c <= d))
        {
        }
      }
    }
  }

  // ---------- SELECT DISTINCT ON (table_id) ... ORDER BY table_id, title desc, indexed desc, id ----------

  predicate TitleFirst(db: Db, c: ColumnId)
    requires c in db.columns
  {
    Lower(db.columns[c].name) == "title"
  }

  /** The batch query's sort key: booleans descending, that is, true first. */
  predicate BatchBefore(db: Db, c: ColumnId, d: ColumnId)
    requires c in db.columns && d in db.columns
  {
    var a, b := db.columns[c], db.columns[d];
    if a.table != b.table then a.table < b.table
    else if TitleFirst(db, c) != TitleFirst(db, d) then TitleFirst(db, c)
    else if a.indexed != b.indexed then a.indexed
    else c < d
  }

  /** The text and enum columns of all tables, sorted by that key. */
  ghost predicate SortedLabelColumns(db: Db, sorted: seq<ColumnId>) {
    && (forall i :: 0 <= i < |sorted| ==> sorted[i] in db.columns && db.columns[sorted[i]].ty in {TextType, EnumType})
    && (forall c <- db.columns :: db.columns[c].ty in {TextType, EnumType} ==> c in sorted)
    && (forall i, j :: 0 <= i < j < |sorted| ==> BatchBefore(db, sorted[i], sorted[j]))
  }

  /** Every store has its label columns in that order. */
  lemma SortedLabelColumnsExist(db: Db) returns (sorted: seq<ColumnId>)
    ensures SortedLabelColumns(db, sorted)
  {
    var columns := set c | c in db.columns && db.columns[c].ty in {TextType, EnumType};
    sorted := Sorted(db, columns);
    assert forall i :: 0 <= i < |sorted| ==> sorted[i] in columns;
    assert forall c <- columns :: c in sorted;
    hide BatchBefore;
  }

  lemma {:induction false} Sorted(db: Db, columns: set<ColumnId>) returns (sorted: seq<ColumnId>)
    requires columns <= db.columns.Keys
    ensures forall c :: c in sorted <==> c in columns
    ensures forall i, j :: 0 <= i < j < |sorted| ==>
              sorted[i] in columns && sorted[j] in columns && BatchBefore(db, sorted[i], sorted[j])
    decreases |columns|
  {
    hide BatchBefore;
    if columns == {} {
      sorted := [];
    } else {
      var c := FirstInBatch(db, columns);
      var rest := Sorted(db, columns - {c});
      sorted := [c] + rest;
      forall i, j | 0 <= i < j < |sorted|
        ensures sorted[i] in columns && sorted[j] in columns && BatchBefore(db, sorted[i], sorted[j])
      {
        assert sorted[j] == rest[j - 1] && rest[j - 1] in rest;
      }
    }
  }

  lemma {:induction false} FirstInBatch(db: Db, columns: set<ColumnId>) returns (c: ColumnId)
    requires columns != {} && columns <= db.columns.Keys
    ensures c in columns && forall d <- columns :: d != c ==> BatchBefore(db, c, d)
    decreases |columns|
  {
    c :| c in columns;
    if columns != {c} {
      var d := FirstInBatch(db, columns - {c});
      var rest := columns - {c};
      assert forall e <- columns :: e != c ==> e in rest;
      if !BatchBefore(db, c, d) {
        c := d;
      }
    }
  }

  /** DISTINCT ON keeps the first column of each table. */
  function DistinctOn(db: Db, sorted: seq<ColumnId>): map<TableId, ColumnId>
    requires forall i :: 0 <= i < |sorted| ==> sorted[i] in db.columns
  {
    if sorted == [] then map[]
    else DistinctOn(db, sorted[1..])[db.columns[sorted[0]].table := sorted[0]]
  }

  lemma {:induction false} DistinctOnKeepsFirst(db: Db, sorted: seq<ColumnId>, t: TableId)
    requires forall i :: 0 <= i < |sorted| ==> sorted[i] in db.columns
    ensures t in DistinctOn(db, sorted) <==> exists i :: 0 <= i < |sorted| && db.columns[sorted[i]].table == t
    ensures t in DistinctOn(db, sorted) ==>
              exists i :: && 0 <= i < |sorted| && sorted[i] == DistinctOn(db, sorted)[t]
                          && db.columns[sorted[i]].table == t
                          && forall j :: 0 <= j < i ==> db.columns[sorted[j]].table != t
  {
    if sorted != [] {
      DistinctOnKeepsFirst(db, sorted[1..], t);
      if db.columns[sorted[0]].table == t {
        assert sorted[0] == DistinctOn(db, sorted)[t];
      } else if t in DistinctOn(db, sorted[1..]) {
        var i :| && 0 <= i < |sorted[1..]| && sorted[1..][i] == DistinctOn(db, sorted)[t]
                 && db.columns[sorted[1..][i]].table == t
                 && forall j :: 0 <= j < i ==> db.columns[sorted[1..][j]].table != t;
        assert sorted[i + 1] == sorted[1..][i];
        forall j | 0 <= j < i + 1 ensures db.columns[sorted[j]].table != t {
          if j > 0 { assert sorted[j] == sorted[1..][j - 1]; }
        }
      } else {
        forall i | 0 <= i < |sorted| ensures db.columns[sorted[i]].table != t {
          if i > 0 { assert sorted[i] == sorted[1..][i - 1]; }
        }
      }
    }
  }

  /** Within one table the two sort keys give the same order. */
  lemma SortKeysAgree(db: Db, c: ColumnId, d: ColumnId)
    requires c in db.columns && d in db.columns && db.columns[c].table == db.columns[d].table
    ensures NotAfter(db, c, d) <==> c == d || BatchBefore(db, c, d)
  {
  }

  /** DISTINCT ON per table picks the same label column as ORDER BY with LIMIT 1. */
  lemma DistinctOnAgrees(db: Db, sorted: seq<ColumnId>, t: TableId)
    requires SortedLabelColumns(db, sorted)
    ensures t in DistinctOn(db, sorted) <==> LabelColumn(db, t).Some?
    ensures t in DistinctOn(db, sorted) ==> LabelColumn(db, t) == Some(DistinctOn(db, sorted)[t])
    ensures t in DistinctOn(db, sorted) <==> exists c: ColumnId :: IsTextual(db, t, c)
    ensures t in DistinctOn(db, sorted) ==> LabelsTable(db, t, DistinctOn(db, sorted)[t])
  {
    LabelColumnMeans(db, t);
    hide LabelsTable, Lower;
    hide NotAfter, BatchBefore, DistinctOn, LabelColumn;
    DistinctOnKeepsFirst(db, sorted, t);
    LabelColumnExactly(db, t);
    if t in DistinctOn(db, sorted) {
      var c := DistinctOn(db, sorted)[t];
      var i :| 0 <= i < |sorted| && sorted[i] == c && db.columns[sorted[i]].table == t
               && forall j :: 0 <= j < i ==> db.columns[sorted[j]].table != t;
      forall d | LabelCandidate(db, t, d) ensures NotAfter(db, c, d) {
        var j :| 0 <= j < |sorted| && sorted[j] == d;
        SortKeysAgree(db, c, d);
      }
      assert IsLabelColumn(db, t, c);
    } else {
      assert forall c: ColumnId :: LabelCandidate(db, t, c) ==> c in sorted;
    }
  }

  // ---------- One row ----------

  function TextCell(b: Bucket, k: Key): Option<string> {
    if k in b && b[k].Some? && b[k].value.TextValue? then Some(b[k].value.s) else None
  }

  /** `COALESCE(vt.value, ve.value)` for a row and a label column, either of which may be NULL. */
  function LabelCells(db: Db, r: RowId, c: Option<ColumnId>): Option<string> {
    if c.None? then None
    else if TextCell(db.cells.text, Key(r, c.value)).Some? then TextCell(db.cells.text, Key(r, c.value))
    else TextCell(db.cells.enums, Key(r, c.value))
  }

  /** GetRowLabel: both subqueries require the row to be in the named table and the table to be the org's. */
  function GetRowLabel(db: Db, org: Org, t: TableId, r: RowId): Option<string> {
    if r in db.rows && db.rows[r].table == t && Owns(db, org, t) then LabelCells(db, r, LabelColumn(db, t)) else None
  }

  /** GetRowLabelAuto: the table is the row's own. */
  function GetRowLabelAuto(db: Db, org: Org, r: RowId): Option<string> {
    if OwnedRow(db, org, r) then LabelCells(db, r, LabelColumn(db, db.rows[r].table)) else None
  }

  // ---------- Batches ----------

  datatype Labelled = Labelled(row: RowId, text: Option<string>)

  /** One input id of BatchGetRowLabels, joined with the rows of the table. */
  function BatchRow(db: Db, org: Org, t: TableId, r: RowId): seq<Labelled> {
    if r in db.rows && db.rows[r].table == t && Owns(db, org, t) then
      [Labelled(r, LabelCells(db, r, LabelColumn(db, t)))]
    else []
  }

  /** BatchGetRowLabels: a repeated id gives repeated records. */
  function BatchRows(db: Db, org: Org, t: TableId, ids: seq<RowId>): seq<Labelled> {
    if ids == [] then [] else BatchRow(db, org, t, ids[0]) + BatchRows(db, org, t, ids[1..])
  }

  /** One input id of BatchGetRowLabelsAuto, LEFT JOINed with its table's entry of the DISTINCT ON. */
  function BatchRowAuto(db: Db, org: Org, r: RowId, labels: map<TableId, ColumnId>): seq<Labelled> {
    if OwnedRow(db, org, r) then
      var t := db.rows[r].table;
      [Labelled(r, LabelCells(db, r, if t in labels then Some(labels[t]) else None))]
    else []
  }

  function BatchRowsAuto(db: Db, org: Org, ids: seq<RowId>, labels: map<TableId, ColumnId>): seq<Labelled> {
    if ids == [] then [] else BatchRowAuto(db, org, ids[0], labels) + BatchRowsAuto(db, org, ids[1..], labels)
  }

  /** `toString` of the generated `pgtype.Text`: NULL marshals to the JSON text `null`. */
  function BatchText(text: Option<string>): string {
    match text
    case None => "null"
    case Some(s) => s
  }

  /** `toString` of the one-row queries' untyped result: nil becomes the empty string. */
  function SingleText(text: Option<string>): string {
    match text
    case None => ""
    case Some(s) => s
  }

  /** The loop of the batch methods that fills the result map. */
  method CollectLabels(records: seq<Labelled>) returns (out: map<RowId, string>)
    ensures forall x <- records :: x.row in out
    ensures forall r <- out :: exists x :: x in records && x.row == r && out[r] == BatchText(x.text)
  {
    out := map[];
    for k := 0 to |records|
      invariant forall x <- records[..k] :: x.row in out
      invariant forall r <- out :: exists x :: x in records && x.row == r && out[r] == BatchText(x.text)
    {
      assert records[..k + 1] == records[..k] + [records[k]];
      out := out[records[k].row := BatchText(records[k].text)];
    }
    assert records[..|records|] == records;
  }

  /** The records are the listed rows of the org's table, with their labels. */
  lemma {:induction false} BatchRowsExactly(db: Db, org: Org, t: TableId, ids: seq<RowId>, x: Labelled)
    ensures x in BatchRows(db, org, t, ids) <==>
              && x.row in ids && x.row in db.rows && db.rows[x.row].table == t && Owns(db, org, t)
              && x.text == GetRowLabel(db, org, t, x.row)
  {
    if ids != [] {
      BatchRowsExactly(db, org, t, ids[1..], x);
      assert x.row in ids <==> x.row == ids[0] || x.row in ids[1..];
    }
  }

  lemma {:induction false} BatchRowsAutoExactly(db: Db, org: Org, ids: seq<RowId>, sorted: seq<ColumnId>, x: Labelled)
    requires SortedLabelColumns(db, sorted)
    ensures x in BatchRowsAuto(db, org, ids, DistinctOn(db, sorted)) <==>
              x.row in ids && OwnedRow(db, org, x.row) && x.text == GetRowLabelAuto(db, org, x.row)
  {
    if ids != [] {
      BatchRowsAutoExactly(db, org, ids[1..], sorted, x);
      assert x.row in ids <==> x.row == ids[0] || x.row in ids[1..];
      if OwnedRow(db, org, ids[0]) {
        DistinctOnAgrees(db, sorted, db.rows[ids[0]].table);
      }
    }
  }

  /** The typed and the auto query agree on the rows of the named table. */
  lemma TypedAndAutoAgree(db: Db, org: Org, t: TableId, r: RowId)
    requires r in db.rows && db.rows[r].table == t
    ensures GetRowLabel(db, org, t, r) == GetRowLabelAuto(db, org, r)
  {
  }

  // ---------- The repository methods ----------

  /**
  BatchGetRowLabels: for every id list, repeated ids included, the map holds exactly the listed
  rows of the org's table, each with the label the one-row query gives it.
  */
  method BatchGetRowLabels(db: Db, org: Org, t: TableId, ids: seq<RowId>) returns (out: map<RowId, string>)
    ensures forall r :: r in out <==> r in ids && r in db.rows && db.rows[r].table == t && Owns(db, org, t)
    ensures forall r <- out :: out[r] == BatchText(GetRowLabel(db, org, t, r))
  {
    var records := BatchRows(db, org, t, ids);
    forall x { BatchRowsExactly(db, org, t, ids, x); }
    out := CollectLabels(records);
    forall r <- ids | r in db.rows && db.rows[r].table == t && Owns(db, org, t) ensures r in out {
      assert Labelled(r, GetRowLabel(db, org, t, r)) in records;
    }
  }

  /** BatchGetRowLabelsAuto: the same over all the org's tables, against the auto one-row query. */
  method BatchGetRowLabelsAuto(db: Db, org: Org, ids: seq<RowId>, sorted: seq<ColumnId>)
    returns (out: map<RowId, string>)
    requires SortedLabelColumns(db, sorted)
    ensures forall r :: r in out <==> r in ids && OwnedRow(db, org, r)
    ensures forall r <- out :: out[r] == BatchText(GetRowLabelAuto(db, org, r))
  {
    var records := BatchRowsAuto(db, org, ids, DistinctOn(db, sorted));
    forall x { BatchRowsAutoExactly(db, org, ids, sorted, x); }
    out := CollectLabels(records);
    forall r <- ids | OwnedRow(db, org, r) ensures r in out {
      assert Labelled(r, GetRowLabelAuto(db, org, r)) in records;
    }
  }
}
