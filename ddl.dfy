/**
 * The schema-reconciling half of the restore tool (restore.go): rendering a
 * snapshot column as a column definition, synthesising CREATE TABLE for a
 * table the target does not have, and the additive ALTER TABLE statements
 * that bring an existing target table up to the snapshot. Statements are
 * returned instead of executed.
 */
module Ddl {
  import opened Strings
  import opened Schema
  import opened Seqs

  /** _field_type: the base type, the raw type up to its first '(' ("varchar(20)" -> "varchar"). */
  function FieldType(t: string): (r: string)
    ensures r <= t
    ensures '(' !in r
    ensures '(' in t ==> |r| < |t| && t[|r|] == '('
    ensures '(' !in t ==> r == t
  {
    var i := IndexOf(t, '(');
    if i == -1 then t else t[..i]
  }

  /** Taking the base type of a base type changes nothing. */
  lemma FieldTypeIdempotent(t: string)
    ensures FieldType(FieldType(t)) == FieldType(t)
  {
  }

  /** _field_null: the nullability clause for a `describe` "Null" value. */
  function FieldNull(nullSpec: string): (r: string)
    ensures r == " NOT NULL" <==> nullSpec == "NO"
    ensures r == " NULL" <==> nullSpec != "NO"
  {
    if nullSpec == "NO" then " NOT NULL" else " NULL"
  }

  /** The two classes of the `field_type` table. */
  datatype TypeClass = TextLike | TimeLike

  /** The `field_type` table: base type to class; base types not listed are neither. */
  const TypeClasses: map<string, TypeClass> := map[
    "char" := TextLike,
    "varchar" := TextLike,
    "binary" := TextLike,
    "varbinary" := TextLike,
    "blob" := TextLike,
    "text" := TextLike,
    "enum" := TextLike,
    "set" := TextLike,
    "date" := TimeLike,
    "time" := TimeLike,
    "datetime" := TimeLike,
    "timestamp" := TimeLike,
    "year" := TimeLike
  ]

  predicate IsDigit(ch: char)
  {
    '0' <= ch <= '9'
  }

  /** The regular expression "[0-9]" matches somewhere in `s`. */
  function HasDigit(s: string): (b: bool)
    ensures b <==> exists i :: 0 <= i < |s| && IsDigit(s[i])
  {
    if |s| == 0 then false
    else
      assert forall i :: 1 <= i < |s| ==> s[i] == s[1..][i - 1];
      IsDigit(s[0]) || HasDigit(s[1..])
  }

  /**
   * _field_default: no clause for an empty default; otherwise " DEFAULT "
   * followed by the value, single-quoted for text-like types and for
   * time-like types whose value holds a digit (a literal date or time),
   * bare for the rest (keywords such as CURRENT_TIMESTAMP, numbers).
   */
  function FieldDefault(baseType: string, value: string): (r: string)
    ensures r == "" <==> value == ""
    ensures value != "" ==> " DEFAULT " <= r
  {
    if value == "" then ""
    else if baseType in TypeClasses then
      match TypeClasses[baseType]
      case TextLike => " DEFAULT '" + value + "'"
      case TimeLike =>
        if HasDigit(value) then " DEFAULT '" + value + "'" else " DEFAULT " + value
    else " DEFAULT " + value
  }

  /** A default of a text-like base type is always a quoted literal. */
  lemma TextDefaultsQuoted(baseType: string, value: string)
    requires baseType in {"char", "varchar", "binary", "varbinary", "blob", "text", "enum", "set"}
    requires value != ""
    ensures FieldDefault(baseType, value) == " DEFAULT '" + value + "'"
  {
  }

  /** A default of a time-like base type is quoted exactly when it holds a digit, bare otherwise. */
  lemma TimeDefaultsQuotedIffDigit(baseType: string, value: string)
    requires baseType in {"date", "time", "datetime", "timestamp", "year"}
    requires value != ""
    ensures FieldDefault(baseType, value) == " DEFAULT '" + value + "'" <==>
            exists i :: 0 <= i < |value| && IsDigit(value[i])
    ensures FieldDefault(baseType, value) != " DEFAULT '" + value + "'" ==>
            FieldDefault(baseType, value) == " DEFAULT " + value
  {
    if !HasDigit(value) {
      var quoted := " DEFAULT '" + value + "'";
      var bare := " DEFAULT " + value;
      assert quoted[9] == '\'';
      if |value| > 0 {
        assert bare[9] == value[0];
        assert quoted[|quoted| - 1] == '\'';
        assert bare[|bare| - 1] == value[|value| - 1];
        assert |quoted| == |bare| + 2;
      }
    }
  }

  /** A default of any other base type is rendered bare. */
  lemma OtherDefaultsBare(baseType: string, value: string)
    requires baseType !in {"char", "varchar", "binary", "varbinary", "blob", "text", "enum", "set",
                           "date", "time", "datetime", "timestamp", "year"}
    requires value != ""
    ensures FieldDefault(baseType, value) == " DEFAULT " + value
  {
  }

  /** A text column of type varchar(20) defaulting to abc gets the quoted literal. */
  lemma TextDefaultExample()
    ensures FieldDefault(FieldType("varchar(20)"), "abc") == " DEFAULT '" + "abc" + "'"
  {
    var t := "varchar(20)";
    assert t == ['v', 'a', 'r', 'c', 'h', 'a', 'r', '(', '2', '0', ')'];
    assert t[..7] == ['v', 'a', 'r', 'c', 'h', 'a', 'r'];
    IndexOfIs(t, '(', 7);
    TextDefaultsQuoted("varchar", "abc");
  }

  /** A timestamp column defaulting to the CURRENT_TIMESTAMP keyword gets it bare. */
  lemma TimeKeywordDefaultExample()
    ensures FieldDefault(FieldType("timestamp"), "CURRENT_TIMESTAMP") == " DEFAULT " + "CURRENT_TIMESTAMP"
  {
    TimestampIsTimeLike();
    SentinelHasNoDigit();
  }

  lemma SentinelHasNoDigit()
    ensures !HasDigit("CURRENT_TIMESTAMP")
  {
    var v := "CURRENT_TIMESTAMP";
    assert v == ['C', 'U', 'R', 'R', 'E', 'N', 'T', '_', 'T', 'I', 'M', 'E', 'S', 'T', 'A', 'M', 'P'];
    assert forall i :: 0 <= i < |v| ==> !IsDigit(v[i]);
  }

  /** A timestamp column defaulting to a literal date and time gets it quoted. */
  lemma TimeLiteralDefaultExample()
    ensures FieldDefault(FieldType("timestamp"), "2024-01-01 00:00:00") == " DEFAULT '" + "2024-01-01 00:00:00" + "'"
  {
    assert IsDigit("2024-01-01 00:00:00"[0]);
    TimestampIsTimeLike();
  }

  /** "timestamp" is its own base type and is time-like. */
  lemma TimestampIsTimeLike()
    ensures FieldType("timestamp") == "timestamp"
    ensures "timestamp" in TypeClasses && TypeClasses["timestamp"] == TimeLike
  {
    var t := "timestamp";
    assert t == ['t', 'i', 'm', 'e', 's', 't', 'a', 'm', 'p'];
    assert '(' !in t;
  }

  /** The text a column contributes to CREATE TABLE and to ALTER TABLE ADD/CHANGE. */
  function ColumnDefinition(c: Column): string
  {
    var baseType := FieldType(c.colType);
    var nullClause := FieldNull(c.nullSpec);
    var defaultClause := FieldDefault(baseType, c.defaultValue);
    "`" + c.field + "` " + c.colType + nullClause + " " + c.extra + " " + defaultClause
  }

  /** What one column contributes to the column list of CREATE TABLE. */
  function ColumnFragment(c: Column): string
  {
    " " + ColumnDefinition(c) + ","
  }

  /** The column list of CREATE TABLE: one fragment per column, in snapshot order. */
  function ColumnsClause(cols: seq<Column>): string
  {
    if |cols| == 0 then ""
    else ColumnsClause(cols[..|cols| - 1]) + ColumnFragment(cols[|cols| - 1])
  }

  function PrimaryKeyClause(key: string): string
  {
    if key == "" then "" else " PRIMARY KEY(`" + key + "`)"
  }

  const TableOptions := ") ENGINE=InnoDB DEFAULT CHARSET=utf8"

  function CreateHeader(table: string): string
  {
    "CREATE TABLE " + table + "("
  }

  /** The CREATE TABLE statement restore issues for a table it does not have. */
  function CreateStatement(table: string, cols: seq<Column>): string
  {
    CreateHeader(table) + ColumnsClause(cols) + PrimaryKeyClause(LastWithRole(cols, PrimaryKey)) + TableOptions
  }

  /** create_table, with the statement returned instead of executed. */
  method CreateTable(table: string, rows: seq<Column>) returns (sql: string)
    ensures sql == CreateStatement(table, rows)
  {
    var key := "";
    sql := CreateHeader(table);
    for i := 0 to |rows|
      invariant key == LastWithRole(rows[..i], PrimaryKey)
      invariant sql == CreateHeader(table) + ColumnsClause(rows[..i])
    {
      var field := rows[i];
      if field.key == "PRI" {
        key := field.field;
      }
      LastWithRoleStep(rows, i, PrimaryKey);
      CreateStep(table, rows, i, sql);
      sql := sql + " " + ColumnDefinition(field) + ",";
    }
    assert rows[..|rows|] == rows;
    ghost var columns := sql;
    if key != "" {
      ConcatAssoc(sql, " PRIMARY KEY(`", key);
      ConcatAssoc(sql, " PRIMARY KEY(`" + key, "`)");
      sql := sql + " PRIMARY KEY(`" + key + "`)";
    }
    assert sql == columns + PrimaryKeyClause(key);
    sql := sql + ") ENGINE=InnoDB DEFAULT CHARSET=utf8";
  }

  /** One iteration of create_table's loop extends the statement by the next column's fragment. */
  lemma CreateStep(table: string, rows: seq<Column>, i: int, sql: string)
    requires 0 <= i < |rows|
    requires sql == CreateHeader(table) + ColumnsClause(rows[..i])
    ensures sql + " " + ColumnDefinition(rows[i]) + "," == CreateHeader(table) + ColumnsClause(rows[..i + 1])
  {
    assert rows[..i + 1][..i] == rows[..i];
    ConcatAssoc(sql, " ", ColumnDefinition(rows[i]));
    ConcatAssoc(sql, " " + ColumnDefinition(rows[i]), ",");
    ConcatAssoc(CreateHeader(table), ColumnsClause(rows[..i]), ColumnFragment(rows[i]));
  }

  /** The column list of a concatenation is the concatenation of the column lists. */
  lemma {:induction false} ColumnsClauseAppend(a: seq<Column>, b: seq<Column>)
    ensures ColumnsClause(a + b) == ColumnsClause(a) + ColumnsClause(b)
    decreases |b|
  {
    if |b| > 0 {
      var b' := b[..|b| - 1];
      assert (a + b)[..|a + b| - 1] == a + b';
      assert (a + b)[|a + b| - 1] == b[|b| - 1];
      ColumnsClauseAppend(a, b');
      ConcatAssoc(ColumnsClause(a), ColumnsClause(b'), ColumnFragment(b[|b| - 1]));
    } else {
      assert a + b == a;
    }
  }

  /**
   * Column `i` of the snapshot appears in CREATE TABLE after the definitions of
   * the columns before it and before those of the columns after it.
   */
  lemma ColumnsClauseAt(cols: seq<Column>, i: int)
    requires 0 <= i < |cols|
    ensures ColumnsClause(cols) == ColumnsClause(cols[..i]) + ColumnFragment(cols[i]) + ColumnsClause(cols[i + 1..])
  {
    ColumnsClauseSplit(cols, i + 1);
    ColumnsClauseSnoc(cols, i);
  }

  lemma ColumnsClauseSplit(cols: seq<Column>, k: int)
    requires 0 <= k <= |cols|
    ensures ColumnsClause(cols) == ColumnsClause(cols[..k]) + ColumnsClause(cols[k..])
  {
    SplitAt(cols, k);
    ColumnsClauseAppend(cols[..k], cols[k..]);
  }

  lemma ColumnsClauseSnoc(cols: seq<Column>, i: int)
    requires 0 <= i < |cols|
    ensures ColumnsClause(cols[..i + 1]) == ColumnsClause(cols[..i]) + ColumnFragment(cols[i])
  {
    assert cols[..i + 1][..i] == cols[..i];
  }

  /**
   * For columns with names, CREATE TABLE has a PRIMARY KEY clause exactly when
   * some column has key "PRI", and the clause names the last such column.
   */
  lemma CreatePrimaryKey(cols: seq<Column>)
    requires forall i :: 0 <= i < |cols| ==> cols[i].field != ""
    ensures (forall i :: 0 <= i < |cols| ==> cols[i].key != "PRI") ==>
            PrimaryKeyClause(LastWithRole(cols, PrimaryKey)) == ""
    ensures forall i :: 0 <= i < |cols| && cols[i].key == "PRI" &&
                        (forall j :: i < j < |cols| ==> cols[j].key != "PRI")
                        ==> PrimaryKeyClause(LastWithRole(cols, PrimaryKey)) == " PRIMARY KEY(`" + cols[i].field + "`)"
  {
    LastWithRoleSpec(cols, PrimaryKey);
  }

  /**
   * Without a PRI column nothing follows the last column fragment, so its
   * trailing comma runs into the closing parenthesis: the statement ends in
   * ",) ENGINE=...", a column list MySQL rejects.
   */
  lemma CreateWithoutKeyEndsInComma(table: string, cols: seq<Column>)
    requires |cols| > 0
    requires forall i :: 0 <= i < |cols| ==> cols[i].key != "PRI"
    ensures CreateStatement(table, cols) ==
            CreateHeader(table) + ColumnsClause(cols[..|cols| - 1]) + " " + ColumnDefinition(cols[|cols| - 1])
            + ",)" + " ENGINE=InnoDB DEFAULT CHARSET=utf8"
  {
    LastWithRoleSpec(cols, PrimaryKey);
    var last := cols[|cols| - 1];
    assert ColumnsClause(cols) == ColumnsClause(cols[..|cols| - 1]) + ColumnFragment(last);
    TrailingComma(CreateHeader(table), ColumnsClause(cols[..|cols| - 1]), ColumnDefinition(last));
  }

  lemma TrailingComma(header: string, init: string, def: string)
    ensures header + (init + (" " + def + ",")) + PrimaryKeyClause("") + TableOptions ==
            header + init + " " + def + ",)" + " ENGINE=InnoDB DEFAULT CHARSET=utf8"
  {
    assert ",)" + " ENGINE=InnoDB DEFAULT CHARSET=utf8" == "," + TableOptions;
  }

  /**
   * A time-class keyword default with a precision, such as CURRENT_TIMESTAMP(6),
   * holds a digit, so it is quoted like a literal and becomes a string default.
   */
  lemma KeywordWithPrecisionQuoted(baseType: string, keyword: string, d: char)
    requires baseType in {"date", "time", "datetime", "timestamp", "year"}
    requires IsDigit(d)
    ensures var v := keyword + "(" + [d] + ")";
            FieldDefault(baseType, v) == " DEFAULT '" + v + "'"
  {
    var v := keyword + "(" + [d] + ")";
    assert v[|keyword| + 1] == d;
    TimeDefaultsQuotedIffDigit(baseType, v);
  }

  /** The snapshot column and the live column disagree on type, nullability or default. */
  predicate Differs(snap: Column, live: Column)
  {
    snap.colType != live.colType || snap.nullSpec != live.nullSpec || snap.defaultValue != live.defaultValue
  }

  function AddColumn(table: string, c: Column): string
  {
    "ALTER TABLE " + table + " ADD " + ColumnDefinition(c) + ";"
  }

  function ChangeColumn(table: string, live: Column, c: Column): string
  {
    "ALTER TABLE " + table + " CHANGE `" + live.field + "` " + ColumnDefinition(c) + ";"
  }

  /** The statement (if any) that one snapshot column calls for against the live schema. */
  function ColumnStatements(table: string, c: Column, live: map<string, Column>): seq<string>
  {
    if c.field !in live then [AddColumn(table, c)]
    else if Differs(c, live[c.field]) then [ChangeColumn(table, live[c.field], c)]
    else []
  }

  /** The statements alter_table issues, snapshot column by snapshot column. */
  function AlterStatements(table: string, snapshot: seq<Column>, live: map<string, Column>): seq<string>
  {
    if |snapshot| == 0 then []
    else AlterStatements(table, snapshot[..|snapshot| - 1], live)
         + ColumnStatements(table, snapshot[|snapshot| - 1], live)
  }

  /** alter_table, with the statements returned instead of executed. */
  method AlterTable(table: string, snapshot: seq<Column>, live: map<string, Column>) returns (stmts: seq<string>)
    ensures stmts == AlterStatements(table, snapshot, live)
  {
    stmts := [];
    for i := 0 to |snapshot|
      invariant stmts == AlterStatements(table, snapshot[..i], live)
    {
      var newField := snapshot[i];
      assert snapshot[..i + 1][..i] == snapshot[..i];
      if newField.field !in live {
        var sql := "ALTER TABLE " + table + " ADD " + ColumnDefinition(newField) + ";";
        stmts := stmts + [sql];
        continue;
      }
      var oldField := live[newField.field];
      if newField.colType != oldField.colType || newField.nullSpec != oldField.nullSpec
         || newField.defaultValue != oldField.defaultValue {
        var sql := "ALTER TABLE " + table + " CHANGE `" + oldField.field + "` " + ColumnDefinition(newField) + ";";
        stmts := stmts + [sql];
      }
    }
    assert snapshot[..|snapshot|] == snapshot;
  }

  /** Every snapshot column is present in the live schema with the same type, nullability and default. */
  predicate InSync(snapshot: seq<Column>, live: map<string, Column>)
  {
    forall i :: 0 <= i < |snapshot| ==> snapshot[i].field in live && !Differs(snapshot[i], live[snapshot[i].field])
  }

  /** alter_table issues no statement exactly when the live table is in sync with the snapshot. */
  lemma {:induction false} AlterEmptyIff(table: string, snapshot: seq<Column>, live: map<string, Column>)
    ensures AlterStatements(table, snapshot, live) == [] <==> InSync(snapshot, live)
  {
    if |snapshot| > 0 {
      var init := snapshot[..|snapshot| - 1];
      AlterEmptyIff(table, init, live);
      assert forall i :: 0 <= i < |init| ==> init[i] == snapshot[i];
    }
  }

  /**
   * Every statement alter_table issues is the ADD of a snapshot column missing
   * from the live schema or the CHANGE of one that differs from it: nothing is
   * dropped and nothing is issued for live-only columns.
   */
  lemma {:induction false} AlterSound(table: string, snapshot: seq<Column>, live: map<string, Column>)
    ensures forall s :: s in AlterStatements(table, snapshot, live) ==>
              exists i :: 0 <= i < |snapshot| &&
                ((snapshot[i].field !in live && s == AddColumn(table, snapshot[i])) ||
                 (snapshot[i].field in live && Differs(snapshot[i], live[snapshot[i].field]) &&
                  s == ChangeColumn(table, live[snapshot[i].field], snapshot[i])))
  {
    if |snapshot| > 0 {
      var init := snapshot[..|snapshot| - 1];
      AlterSound(table, init, live);
      assert forall i :: 0 <= i < |init| ==> init[i] == snapshot[i];
    }
  }

  /** Every snapshot column that is missing from the live schema, or differs from it, gets its statement. */
  lemma {:induction false} AlterComplete(table: string, snapshot: seq<Column>, live: map<string, Column>, i: int)
    requires 0 <= i < |snapshot|
    ensures snapshot[i].field !in live ==> AddColumn(table, snapshot[i]) in AlterStatements(table, snapshot, live)
    ensures snapshot[i].field in live && Differs(snapshot[i], live[snapshot[i].field]) ==>
            ChangeColumn(table, live[snapshot[i].field], snapshot[i]) in AlterStatements(table, snapshot, live)
  {
    var init := snapshot[..|snapshot| - 1];
    if i < |snapshot| - 1 {
      AlterComplete(table, init, live, i);
      assert init[i] == snapshot[i];
    }
  }

  /** `s` adds a column to `table`. */
  predicate IsAdd(table: string, s: string)
  {
    "ALTER TABLE " + table + " ADD " <= s
  }

  /** `s` changes a column of `table`. */
  predicate IsChange(table: string, s: string)
  {
    "ALTER TABLE " + table + " CHANGE `" <= s
  }

  /** The number of ADD statements and of CHANGE statements among `stmts`. */
  function CountAdds(table: string, stmts: seq<string>): nat
  {
    if |stmts| == 0 then 0
    else CountAdds(table, stmts[..|stmts| - 1]) + (if IsAdd(table, stmts[|stmts| - 1]) then 1 else 0)
  }

  function CountChanges(table: string, stmts: seq<string>): nat
  {
    if |stmts| == 0 then 0
    else CountChanges(table, stmts[..|stmts| - 1]) + (if IsChange(table, stmts[|stmts| - 1]) then 1 else 0)
  }

  /** The number of snapshot columns missing from the live schema. */
  function Missing(snapshot: seq<Column>, live: map<string, Column>): nat
  {
    if |snapshot| == 0 then 0
    else Missing(snapshot[..|snapshot| - 1], live) + (if snapshot[|snapshot| - 1].field !in live then 1 else 0)
  }

  /** The number of snapshot columns present in the live schema but differing from it. */
  function Drifted(snapshot: seq<Column>, live: map<string, Column>): nat
  {
    if |snapshot| == 0 then 0
    else
      var c := snapshot[|snapshot| - 1];
      Drifted(snapshot[..|snapshot| - 1], live) + (if c.field in live && Differs(c, live[c.field]) then 1 else 0)
  }

  /** An ADD statement is an ADD and not a CHANGE; a CHANGE statement is a CHANGE and not an ADD. */
  lemma StatementKinds(table: string, live: Column, c: Column)
    ensures IsAdd(table, AddColumn(table, c)) && !IsChange(table, AddColumn(table, c))
    ensures IsChange(table, ChangeColumn(table, live, c)) && !IsAdd(table, ChangeColumn(table, live, c))
  {
    var head := "ALTER TABLE " + table;
    PrefixOfAppend(head + " ADD ", ColumnDefinition(c), ";");
    PrefixOfAppend(head + " CHANGE `", live.field + "` " + ColumnDefinition(c), ";");
    ConcatAssoc(head + " CHANGE `", live.field + "` ", ColumnDefinition(c));
    ConcatAssoc(head + " CHANGE `", live.field, "` ");
    PrefixesDiverge(head, " ADD ", " CHANGE `", AddColumn(table, c), 1);
    PrefixesDiverge(head, " CHANGE `", " ADD ", ChangeColumn(table, live, c), 1);
  }

  /**
   * alter_table issues exactly one ADD per snapshot column missing from the
   * live schema and exactly one CHANGE per snapshot column that differs from it.
   */
  lemma {:induction false} AlterCounts(table: string, snapshot: seq<Column>, live: map<string, Column>)
    ensures CountAdds(table, AlterStatements(table, snapshot, live)) == Missing(snapshot, live)
    ensures CountChanges(table, AlterStatements(table, snapshot, live)) == Drifted(snapshot, live)
  {
    if |snapshot| > 0 {
      var init := snapshot[..|snapshot| - 1];
      var c := snapshot[|snapshot| - 1];
      var before := AlterStatements(table, init, live);
      AlterCounts(table, init, live);
      if c.field !in live {
        StatementKinds(table, c, c);
        assert (before + [AddColumn(table, c)])[..|before|] == before;
      } else if Differs(c, live[c.field]) {
        StatementKinds(table, live[c.field], c);
        assert (before + [ChangeColumn(table, live[c.field], c)])[..|before|] == before;
      } else {
        assert before + [] == before;
      }
    }
  }

  /** Field names are pairwise distinct, as in any real table. */
  predicate DistinctFields(cols: seq<Column>)
  {
    forall i, j :: 0 <= i < j < |cols| ==> cols[i].field != cols[j].field
  }

  /** The live schema as table_scheme returns it: `describe` rows keyed by field name. */
  function LiveSchema(cols: seq<Column>): map<string, Column>
  {
    if |cols| == 0 then map[]
    else LiveSchema(cols[..|cols| - 1])[cols[|cols| - 1].field := cols[|cols| - 1]]
  }

  lemma {:induction false} LiveSchemaAt(cols: seq<Column>, i: int)
    requires DistinctFields(cols)
    requires 0 <= i < |cols|
    ensures cols[i].field in LiveSchema(cols) && LiveSchema(cols)[cols[i].field] == cols[i]
  {
    var init := cols[..|cols| - 1];
    if i < |cols| - 1 {
      assert init[i] == cols[i];
      assert DistinctFields(init);
      LiveSchemaAt(init, i);
    }
  }

  /**
   * Reconciling a live table whose columns match the snapshot in name, type,
   * nullability and default issues no statement, whatever their key and extra:
   * in particular an identical schema needs no ALTER.
   */
  lemma AlterNoDrift(table: string, snapshot: seq<Column>, liveCols: seq<Column>)
    requires |snapshot| == |liveCols| && DistinctFields(liveCols)
    requires forall i :: 0 <= i < |snapshot| ==>
               snapshot[i].field == liveCols[i].field && !Differs(snapshot[i], liveCols[i])
    ensures AlterStatements(table, snapshot, LiveSchema(liveCols)) == []
  {
    forall i | 0 <= i < |snapshot|
      ensures snapshot[i].field in LiveSchema(liveCols) && !Differs(snapshot[i], LiveSchema(liveCols)[snapshot[i].field])
    {
      LiveSchemaAt(liveCols, i);
    }
    AlterEmptyIff(table, snapshot, LiveSchema(liveCols));
  }

  /** Columns that exist only in the live table have no effect on the statements. */
  lemma {:induction false} AlterIgnoresLiveOnly(table: string, snapshot: seq<Column>, live: map<string, Column>,
                                                name: string, extra: Column)
    requires forall i :: 0 <= i < |snapshot| ==> snapshot[i].field != name
    ensures AlterStatements(table, snapshot, live[name := extra]) == AlterStatements(table, snapshot, live)
  {
    if |snapshot| > 0 {
      var init := snapshot[..|snapshot| - 1];
      assert forall i :: 0 <= i < |init| ==> init[i] == snapshot[i];
      AlterIgnoresLiveOnly(table, init, live, name, extra);
    }
  }
}
