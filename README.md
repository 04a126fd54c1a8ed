# mysync: backup and restore core, in Dafny

mysync is a pair of command-line tools that copy MySQL tables between a
source database and a backup target.

- **backup.go.** For every table of the source that the comma-separated
  `include` and `exclude` lists select, the backup tool:
  - saves a JSON snapshot of the table's `describe` rows;
  - infers the table's primary-key, update-time and create-time columns;
  - inserts a checkpoint row into the control table.
- **restore.go.** The restore tool refuses to run against a source database.
  Otherwise it works through the `backup.<table>.<stamp>.json` change logs in
  order. For each log it:
  - creates the table from its schema snapshot if the target lacks it;
  - otherwise issues additive `ALTER TABLE` statements (ADD for new columns,
    CHANGE for columns whose type, nullability or default changed);
  - replays the log's tab-separated `insert`/`update` lines as row writes;
  - renames the log with a `.ok` suffix.

The model is split into seven modules:

| module | file | contents |
|---|---|---|
| `Wrappers` | `wrappers.dfy` | `Option` and `Result` |
| `Strings` | `strings.dfy` | the parts of Go's `strings` package the tools use: `Index`, `Contains`, `Split`, `Replace(…, 1)`; `Join`, which neither tool calls, is defined only to state the round trips of `Split` |
| `Seqs` | `seqs.dfy` | generic facts about sequence concatenation and indexing that the proofs use |
| `Schema` | `schema.dfy` | the `describe` column record and the "last column that plays a role" rule |
| `Ddl` | `ddl.dfy` | column rendering, `create_table`, `alter_table` |
| `Replay` | `replay.dfy` | restore's file routing in `main` and `restore_data` |
| `Backup` | `backup.dfy` | backup's table filter, `table_field` and the checkpoint row |

Effects are returned as values instead of performed:

- SQL statements;
- row writes;
- renames;
- snapshot files;
- checkpoint rows.

The loops of the source are methods with loop invariants. Each is proved equal to a recursive specification function. The lemmas state the tools' rules about those functions.

## Model

| member | source | states |
|---|---|---|
| Strings.IndexOf | restore.go:178 | the result is -1 exactly when the character is absent, and is otherwise its first position |
| Strings.Find | restore.go:56 | `strings.Index` on substrings: -1 exactly when the pattern does not occur, otherwise the first occurrence |
| Strings.SplitLength | restore.go:47-48 | a split has one more piece than the string has separators |
| Strings.JoinSplit | restore.go:47 | joining the pieces of a split with the separator gives the string back |
| Strings.SplitJoin | restore.go:47 | splitting a join of separator-free pieces gives the pieces back |
| Strings.DelimitedContains | backup.go:31 | `sep+t+sep` occurs in `sep+list+sep` exactly when `t` is one of the list's items |
| Schema.LastWithRoleStep | backup.go:129-140 | extending the scanned prefix by a qualifying column makes that column the answer, otherwise keeps the old answer |
| Schema.LastWithRoleSpec | backup.go:129-140 | "" when no column qualifies; otherwise the qualifying column that no later column supersedes |
| Ddl.FieldType | restore.go:177-184 | the result is a prefix of the type with no '('; it stops exactly at the first '(' and is the whole type when there is none |
| Ddl.FieldTypeIdempotent | restore.go:177-184 | normalising a normalised type changes nothing |
| Ddl.FieldNull | restore.go:169-175 | " NOT NULL" exactly for "NO", " NULL" for every other value |
| Ddl.HasDigit | restore.go:194-198 | true exactly when some character of the value is an ASCII digit |
| Ddl.FieldDefault | restore.go:186-212 | "" exactly when the default is empty; otherwise the clause starts with " DEFAULT " |
| Ddl.TextDefaultsQuoted | restore.go:123-131 | every text-class base type renders a non-empty default as a quoted literal |
| Ddl.TimeDefaultsQuotedIffDigit | restore.go:132-136 | a time-class default is quoted exactly when it holds a digit, and is bare otherwise |
| Ddl.OtherDefaultsBare | restore.go:203-208 | any base type outside the class table renders its default bare |
| Ddl.TextDefaultExample | restore.go:146-148 | varchar(20) with default abc renders " DEFAULT 'abc'" |
| Ddl.TimeKeywordDefaultExample | restore.go:193-202 | a timestamp defaulting to CURRENT_TIMESTAMP renders the keyword bare |
| Ddl.KeywordWithPrecisionQuoted | restore.go:193-199 | a time-class keyword default with a precision digit, such as CURRENT_TIMESTAMP(6), is quoted like a literal |
| Ddl.TimeLiteralDefaultExample | restore.go:193-199 | a timestamp defaulting to a literal date renders it quoted |
| Ddl.CreateTable | restore.go:142-162 | the statement built by the loop equals the header, one fragment per snapshot column, the optional key clause and the table options |
| Ddl.CreateStep | restore.go:144-156 | one loop iteration appends exactly the next column's fragment |
| Ddl.ColumnsClauseAppend | restore.go:144-156 | the column list of a concatenation is the concatenation of the column lists |
| Ddl.ColumnsClauseAt | restore.go:144-156 | column i's definition sits after those of the columns before it and before those of the columns after it |
| Ddl.CreateWithoutKeyEndsInComma | restore.go:154-162 | with no PRI column the last fragment's comma is followed directly by ")", so the statement ends ",) ENGINE=..." |
| Ddl.CreatePrimaryKey | restore.go:150-160 | no PRI column gives no PRIMARY KEY clause; otherwise the clause names the last PRI column |
| Ddl.AlterTable | restore.go:214-246 | the statements issued by the loop equal the column-by-column ADD/CHANGE specification |
| Ddl.AlterEmptyIff | restore.go:218-245 | no statement is issued exactly when every snapshot column is live with the same type, nullability and default |
| Ddl.AlterSound | restore.go:218-245 | every statement is the ADD of a missing column or the CHANGE of a differing one; nothing is dropped |
| Ddl.AlterComplete | restore.go:220-244 | every missing column gets its ADD and every differing column its CHANGE |
| Ddl.StatementKinds | restore.go:225-240 | an ADD statement is never mistaken for a CHANGE and vice versa |
| Ddl.AlterCounts | restore.go:218-245 | the number of ADDs equals the number of missing columns; the number of CHANGEs equals the number of differing columns |
| Ddl.LiveSchemaAt | restore.go:257-270 | the live schema map keys each `describe` row by its field name |
| Ddl.AlterNoDrift | restore.go:235 | a live table matching the snapshot in names, types, nullability and defaults (whatever its key and extra) gets no statement |
| Ddl.AlterIgnoresLiveOnly | restore.go:218 | columns present only in the live table do not affect the statements |
| Replay.BackupTable | restore.go:47-52 | an accepted name yields a table name without '.' |
| Replay.BackupTableAccepts | restore.go:47-50 | a name is accepted exactly when it holds three dots |
| Replay.BackupTableOfName | restore.go:47-52 | a name made of four dot-free parts parses back to its second part |
| Replay.BackupTableParsed | restore.go:47-52 | every accepted name is four dot-free parts joined by dots, with the table second |
| Replay.SchemeFileOfBackup | restore.go:56 | for a name starting with "backup", only that prefix becomes "scheme" |
| Replay.ConsumedNotRediscovered | restore.go:118 | a file renamed with ".ok" no longer matches backup.*.json |
| Replay.LineWrite | restore.go:93-114 | a line fails for missing fields exactly when it has fewer than three tabs; every write targets the file's table |
| Replay.LineWriteOfEntry | restore.go:93-114 | a line of four tab-free fields inserts or updates (filtered by field 1) with the decoded payload, or aborts on another op |
| Replay.LineWriteOp | restore.go:102-114 | a line that replays as an insert has op "insert"; one that replays as an update has op "update" |
| Replay.CountsAppend | restore.go:102-111 | insert and update counts add up over concatenation |
| Replay.ReplayComplete | restore.go:82-116 | a file replays without abort exactly when every line does |
| Replay.ReplayWrites | restore.go:82-116 | a complete replay issues exactly one write per line, in order |
| Replay.ReplayStopsAtFirstFault | restore.go:82-116 | an aborted replay wrote each line before the first failing one and aborts with that line's fault |
| Replay.ReplayCounts | restore.go:102-111 | after a complete replay, the counters equal the numbers of insert and update lines, which together are all the lines |
| Replay.ReplayStep | restore.go:82-116 | the line at i either aborts the rest of the replay or prepends its write |
| Replay.RestoreData | restore.go:72-121 | the loop's writes, fault and counters are those of the specification; the file is renamed with ".ok" exactly when no line aborts |
| Replay.RestoreFile | restore.go:45-67 | one loop iteration: a misnamed file aborts; otherwise create or alter by whether the table is known, then replay |
| Replay.RestoreStep | restore.go:45-68 | the runs so far, followed by the remaining files, make up the whole restore |
| Replay.Restore | restore.go:23-69 | a source database aborts with nothing done; otherwise runs and fault are those of the file-by-file specification |
| Replay.FirstSightCons | restore.go:55-57 | after a first run, a later first sight is a first sight with that run's table known |
| Replay.RoutedConsAt | restore.go:45-62 | the routing facts of a later run carry over when a first run is put in front |
| Replay.RoutedCons | restore.go:45-62 | a correctly routed first file in front of routed later files gives a routed run |
| Replay.RestoreRouted | restore.go:45-62 | every run handles its own file, and creates its table exactly on the table's first sight |
| Replay.RestoreReplayed | restore.go:67 | every run carries its own file's replay, counters and rename |
| Replay.RestoreCompletes | restore.go:45-68 | the run ends without fault exactly when every file was handled and renamed; every run but the last is renamed |
| Replay.RestoreStopsAt | restore.go:45-113 | an early stop is at the first misnamed file or at the last run, whose replay aborted |
| Replay.CreatedOnce | restore.go:55-61 | a table is created at most once, and never when the target already had it |
| Backup.InListIff | backup.go:31-35 | for a comma-free name, the list test is exact membership among the comma-separated items |
| Backup.SelectedIff | backup.go:31-37 | selection is include-list membership (or no include list) and not exclude-list membership, so exclude wins |
| Backup.KeptAll | backup.go:30-37 | with empty include and exclude lists every table is backed up, in order |
| Backup.KeptMembers | backup.go:30-37 | a table is backed up exactly when it is listed and selected |
| Backup.KeptAppend | backup.go:30-37 | selection preserves the order of the table list |
| Backup.TableField | backup.go:127-144 | the result has exactly the three role keys, each naming the last column that qualifies for the role, or "" |
| Backup.SharedTimestamp | backup.go:134-140 | a timestamp column defaulting to and refreshed with CURRENT_TIMESTAMP is both update and create column when last |
| Backup.BackupTables | backup.go:29-54 | one snapshot "scheme.<table>.json" and one checkpoint row per selected table, in order; each row has type backup, latest_id -1, record_count 0 and the inferred role columns |

## Left out

- Database access is not modelled: `SHOW TABLES`, `describe`, `sql_execute`, and the control-table lookup and insert. The table list, `describe` rows and the "is a source database" check are parameters; statements and rows are returned.
- File system access is not modelled: the glob enumeration, `os.Open`, `ReadLine`, `os.Rename`, `load_scheme` and `save_scheme`.
  - The list of backup files and each file's lines are parameters, in glob order.
  - Lines longer than the reader's buffer are not modelled.
  - The rename and the snapshot are returned as values.
- JSON decoding is an `Option`-returning oracle. A payload that does not decode is written as an empty row; a partial decode on a type error is not modelled.
- `Replay.FileStep` returns the schema step (create or alter, with the snapshot file name) but does not feed the snapshot's contents to `Ddl`. `load_scheme` is file I/O. `Ddl.CreateTable` and `Ddl.AlterTable` take the decoded snapshot directly.
- A missing or undecodable snapshot file, which aborts in `load_scheme`, is not modelled.
- Logging, environment loading, `init` and `model/Init.go` are not modelled. `model/Init.go` is a control-table bootstrap with no logic.
- `regexp.Compile("[0-9]")` is modelled by `Ddl.HasDigit` (some ASCII digit); the compile error branch cannot occur for this constant pattern.
- The `default:` branch of the switch in `_field_default` is unreachable: the class table only holds "text" and "time". The model has no such branch.
- Backup.InListIff, Backup.SelectedIff: stated for table names without a comma. For a name holding a comma the substring test can match across items, and the model keeps that test as written in `Backup.Selected`.
- Restore aborts (`log.Fatal`, and the index panic on a line with fewer than four fields) are modelled as a `Fault` result that stops the run, not as a process exit.
- The checkpoint row is a `Checkpoint` datatype, not a Go `map[string]string`.

Where the documentation of the tools and the code differ, the model follows the code:

- A change-log line whose payload does not decode is still written, with an empty row. The decode error is only logged.
- A line with fewer than four tab-separated fields aborts the run. The code reads field 3 before it looks at the operation.
- An update uses field 1 verbatim as the WHERE filter.
- Each backup run inserts a new checkpoint row; it never updates an existing one.
- The create-time column may be the same column as the update-time column.
- The backup tool saves its snapshot as "scheme.<table>.json". The restore tool looks for the snapshot named after the backup file, "scheme.<table>.<stamp>.json".
- The PRIMARY KEY clause depends on the key column's name being non-empty. A composite primary key yields a clause naming only the last key column.
- A snapshot without a PRI column yields a CREATE TABLE whose column list ends in ",)", which MySQL rejects. Each column fragment at restore.go:154 ends in a comma, and only the PRIMARY KEY clause at restore.go:158-160 would follow it (`Ddl.CreateWithoutKeyEndsInComma`).
- A time-class default such as CURRENT_TIMESTAMP(6) holds a digit, so restore.go:198 quotes it and the column gets the string default 'CURRENT_TIMESTAMP(6)' instead of the keyword (`Ddl.KeywordWithPrecisionQuoted`).
