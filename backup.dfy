/**
 * The backup tool (backup.go): choosing the tables to back up with the
 * comma-separated include and exclude lists, inferring each table's
 * primary-key, update-time and create-time columns, and recording a fresh
 * checkpoint row and a schema snapshot per chosen table. The table list and
 * the `describe` rows are parameters; the snapshot files and the checkpoint
 * rows are returned instead of written.
 */
module Backup {
  import opened Strings
  import opened Schema

  // ---------------------------------------------------------------------
  // Table selection
  // ---------------------------------------------------------------------

  /** The tool's list test: ","+t+"," occurs in ","+list+",". */
  predicate InList(list: string, t: string)
  {
    Contains("," + list + ",", "," + t + ",")
  }

  /** For a name without a comma, the list test is exact membership among the comma-separated items. */
  lemma InListIff(list: string, t: string)
    requires ',' !in t
    ensures InList(list, t) <==> t in Split(list, ',')
  {
    assert "," + list + "," == [','] + list + [','];
    assert "," + t + "," == [','] + t + [','];
    DelimitedContains(list, t, ',');
  }

  /** A table is backed up unless a non-empty include list leaves it out or a non-empty exclude list names it. */
  predicate Selected(t: string, includeList: string, excludeList: string)
  {
    (includeList == "" || InList(includeList, t)) && !(excludeList != "" && InList(excludeList, t))
  }

  /** The tables a run backs up, in the order the table list gives them. */
  function Kept(tables: seq<string>, includeList: string, excludeList: string): seq<string>
  {
    if |tables| == 0 then []
    else
      var last := tables[|tables| - 1];
      Kept(tables[..|tables| - 1], includeList, excludeList) + (if Selected(last, includeList, excludeList) then [last] else [])
  }

  /** For comma-free names, selection is list membership, and the exclude list wins over the include list. */
  lemma SelectedIff(t: string, includeList: string, excludeList: string)
    requires ',' !in t
    ensures Selected(t, includeList, excludeList) <==>
            (includeList == "" || t in Split(includeList, ',')) && !(excludeList != "" && t in Split(excludeList, ','))
  {
    InListIff(includeList, t);
    InListIff(excludeList, t);
  }

  /** With no include and no exclude list every table is backed up. */
  lemma {:induction false} KeptAll(tables: seq<string>)
    ensures Kept(tables, "", "") == tables
  {
    if |tables| > 0 {
      KeptAll(tables[..|tables| - 1]);
      assert tables == tables[..|tables| - 1] + [tables[|tables| - 1]];
    }
  }

  /** A table is backed up exactly when it is listed and selected. */
  lemma {:induction false} KeptMembers(tables: seq<string>, includeList: string, excludeList: string, t: string)
    ensures t in Kept(tables, includeList, excludeList) <==> t in tables && Selected(t, includeList, excludeList)
  {
    if |tables| > 0 {
      var init := tables[..|tables| - 1];
      KeptMembers(init, includeList, excludeList, t);
      assert tables == init + [tables[|tables| - 1]];
    }
  }

  /** Selection keeps the order of the table list: it distributes over concatenation. */
  lemma {:induction false} KeptAppend(a: seq<string>, b: seq<string>, includeList: string, excludeList: string)
    ensures Kept(a + b, includeList, excludeList) == Kept(a, includeList, excludeList) + Kept(b, includeList, excludeList)
  {
    if |b| > 0 {
      var init := b[..|b| - 1];
      assert (a + b)[..|a + b| - 1] == a + init;
      assert (a + b)[|a + b| - 1] == b[|b| - 1];
      KeptAppend(a, init, includeList, excludeList);
    } else {
      assert a + b == a;
    }
  }

  // ---------------------------------------------------------------------
  // Role inference
  // ---------------------------------------------------------------------

  const PkeyField := "pkey_field"
  const UpdateField := "update_field"
  const CreateField := "create_field"

  /**
   * table_field: scans the `describe` rows once, each role's entry taking the
   * name of every column that qualifies for it, so the last one wins.
   */
  method TableField(scheme: seq<Column>) returns (result: map<string, string>)
    ensures result.Keys == {PkeyField, UpdateField, CreateField}
    ensures result[PkeyField] == LastWithRole(scheme, PrimaryKey)
    ensures result[UpdateField] == LastWithRole(scheme, UpdateTime)
    ensures result[CreateField] == LastWithRole(scheme, CreateTime)
  {
    result := map[PkeyField := "", UpdateField := "", CreateField := ""];
    for i := 0 to |scheme|
      invariant result.Keys == {PkeyField, UpdateField, CreateField}
      invariant result[PkeyField] == LastWithRole(scheme[..i], PrimaryKey)
      invariant result[UpdateField] == LastWithRole(scheme[..i], UpdateTime)
      invariant result[CreateField] == LastWithRole(scheme[..i], CreateTime)
    {
      var f := scheme[i];
      LastWithRoleStep(scheme, i, PrimaryKey);
      LastWithRoleStep(scheme, i, UpdateTime);
      LastWithRoleStep(scheme, i, CreateTime);
      if f.key == "PRI" {
        result := result[PkeyField := f.field];
      }
      if f.colType == "timestamp" && Contains(f.extra, "CURRENT_TIMESTAMP") {
        result := result[UpdateField := f.field];
      }
      if f.colType == "timestamp" && f.defaultValue == "CURRENT_TIMESTAMP" {
        result := result[CreateField := f.field];
      }
    }
    assert scheme[..|scheme|] == scheme;
  }

  /**
   * A timestamp column defaulting to CURRENT_TIMESTAMP and refreshed on update
   * qualifies for both timestamp roles: when it is the last column, it is both
   * the update-time and the create-time column.
   */
  lemma SharedTimestamp(cols: seq<Column>, before: string, after: string)
    requires |cols| > 0
    requires cols[|cols| - 1].colType == "timestamp"
    requires cols[|cols| - 1].defaultValue == "CURRENT_TIMESTAMP"
    requires cols[|cols| - 1].extra == before + "CURRENT_TIMESTAMP" + after
    ensures LastWithRole(cols, UpdateTime) == cols[|cols| - 1].field
    ensures LastWithRole(cols, CreateTime) == cols[|cols| - 1].field
  {
    var c := cols[|cols| - 1];
    assert c.extra[|before|..|before| + |"CURRENT_TIMESTAMP"|] == "CURRENT_TIMESTAMP";
    assert OccursAt(c.extra, "CURRENT_TIMESTAMP", |before|);
  }

  // ---------------------------------------------------------------------
  // The backup run
  // ---------------------------------------------------------------------

  /** A row of the control table, with the columns the backup tool fills in. */
  datatype Checkpoint = Checkpoint(
    kind: string,
    tableName: string,
    pkeyField: string,
    createField: string,
    updateField: string,
    latestId: string,
    recordCount: string)

  /** A schema snapshot file: its name and the `describe` rows it holds. */
  datatype SnapshotFile = SnapshotFile(name: string, columns: seq<Column>)

  /**
   * What the run leaves for a backed-up table: the snapshot save_scheme
   * writes, and the checkpoint row main inserts, a backup record with no
   * progress yet that names the table's role columns.
   */
  predicate Recorded(snapshot: SnapshotFile, record: Checkpoint, table: string, scheme: seq<Column>)
  {
    snapshot == SnapshotFile("scheme." + table + ".json", scheme) &&
    record.kind == "backup" && record.tableName == table &&
    record.latestId == "-1" && record.recordCount == "0" &&
    record.pkeyField == LastWithRole(scheme, PrimaryKey) &&
    record.createField == LastWithRole(scheme, CreateTime) &&
    record.updateField == LastWithRole(scheme, UpdateTime)
  }

  /**
   * main: for every table in the list that the include and exclude lists
   * select, in order, saves its schema snapshot and inserts a new checkpoint
   * row carrying its role columns.
   */
  method BackupTables(tables: seq<string>, includeList: string, excludeList: string, describe: string -> seq<Column>)
    returns (snapshots: seq<SnapshotFile>, records: seq<Checkpoint>)
    ensures |snapshots| == |records| == |Kept(tables, includeList, excludeList)|
    ensures forall k :: 0 <= k < |records| ==>
              var t := Kept(tables, includeList, excludeList)[k];
              Recorded(snapshots[k], records[k], t, describe(t))
  {
    snapshots, records := [], [];
    for i := 0 to |tables|
      invariant |snapshots| == |records| == |Kept(tables[..i], includeList, excludeList)|
      invariant forall k :: 0 <= k < |records| ==>
                  var t := Kept(tables[..i], includeList, excludeList)[k];
                  Recorded(snapshots[k], records[k], t, describe(t))
    {
      var table := tables[i];
      assert tables[..i + 1][..i] == tables[..i];
      if includeList != "" && !Contains("," + includeList + ",", "," + table + ",") {
        continue;
      }
      if excludeList != "" && Contains("," + excludeList + ",", "," + table + ",") {
        continue;
      }
      var scheme := describe(table);
      snapshots := snapshots + [SnapshotFile("scheme." + table + ".json", scheme)];
      var fields := TableField(scheme);
      records := records + [Checkpoint("backup", table, fields[PkeyField], fields[CreateField],
                                       fields[UpdateField], "-1", "0")];
    }
    assert tables[..|tables|] == tables;
  }
}
