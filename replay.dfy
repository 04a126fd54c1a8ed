/**
 * The replaying half of the restore tool (restore.go): turning the names of
 * the backup files into per-table schema steps (create the table the first
 * time it is seen, reconcile it afterwards), and replaying one change-log
 * file line by line into row writes. Reading files, decoding JSON, writing
 * rows and renaming files are effects of the environment: file contents and
 * the JSON decoder are parameters, and the writes, schema steps and renames
 * are returned as values.
 */
module Replay {
  import opened Wrappers
  import opened Strings
  import opened Seqs

  /** Why a restore run aborts (log.Fatal in the tool). */
  datatype Fault =
    | SourceDatabase
    | BadBackupName(file: string)
    | MissingFields(line: string)
    | UnsupportedOp(op: string)

  // ---------------------------------------------------------------------
  // Backup file names
  // ---------------------------------------------------------------------

  /**
   * The table a backup file name designates: the name must split on '.' into
   * exactly four parts (backup.<table>.<stamp>.json), and the table is the
   * second one.
   */
  function BackupTable(file: string): (r: Option<string>)
    ensures r.Some? ==> '.' !in r.value
  {
    var parts := Split(file, '.');
    if |parts| != 4 then None else Some(parts[1])
  }

  /** A backup file name is accepted exactly when it holds three dots. */
  lemma BackupTableAccepts(file: string)
    ensures BackupTable(file).Some? <==> multiset(file)['.'] == 3
  {
    SplitLength(file, '.');
  }

  /** Naming a file from four dot-free parts and parsing it gives back the table. */
  lemma BackupTableOfName(prefix: string, table: string, stamp: string, ext: string)
    requires '.' !in prefix && '.' !in table && '.' !in stamp && '.' !in ext
    ensures BackupTable(Join([prefix, table, stamp, ext], '.')) == Some(table)
  {
    SplitJoin([prefix, table, stamp, ext], '.');
  }

  /** Every accepted name is four dot-free parts joined by dots, the table second. */
  lemma BackupTableParsed(file: string, table: string)
    requires BackupTable(file) == Some(table)
    ensures exists prefix, stamp, ext ::
              '.' !in prefix && '.' !in stamp && '.' !in ext &&
              file == Join([prefix, table, stamp, ext], '.')
  {
    var parts := Split(file, '.');
    JoinSplit(file, '.');
    assert parts == [parts[0], table, parts[2], parts[3]];
  }

  /** The schema snapshot paired with a backup file: its first "backup" replaced by "scheme". */
  function SchemeFile(file: string): string
  {
    ReplaceFirst(file, "backup", "scheme")
  }

  /** For a name that starts with "backup", only that prefix changes. */
  lemma SchemeFileOfBackup(rest: string)
    ensures SchemeFile("backup" + rest) == "scheme" + rest
  {
    var s := "backup" + rest;
    assert "backup" <= s;
    assert Find(s, "backup") == 0;
    assert s[6..] == rest;
  }

  /** A name matched by the glob backup.*.json ('*' matching no '/'). */
  predicate MatchesBackupGlob(file: string)
  {
    |file| >= 12 && file[..7] == "backup." && file[|file| - 5..] == ".json"
    && '/' !in file[7..|file| - 5]
  }

  /** A file renamed with the ".ok" suffix after its replay is not matched again. */
  lemma ConsumedNotRediscovered(file: string)
    ensures !MatchesBackupGlob(file + ".ok")
  {
    var f := file + ".ok";
    assert f[|f| - 3] == '.';
    assert ".json"[2] == 's';
    if |f| >= 12 {
      assert f[|f| - 5..][2] == f[|f| - 3];
    }
  }

  // ---------------------------------------------------------------------
  // Change-log lines
  // ---------------------------------------------------------------------

  /** A row write issued against the restore target. */
  datatype Write =
    | Insert(table: string, row: map<string, string>)
    | Update(table: string, filter: string, row: map<string, string>)

  /** The payload a line writes: the decoded JSON object, or nothing when it does not decode. */
  function Payload(decoded: Option<map<string, string>>): map<string, string>
  {
    match decoded
    case Some(row) => row
    case None => map[]
  }

  /**
   * The write one change-log line asks for: fields are tab-separated, the
   * payload is field 3 (read before the operation is looked at), "insert"
   * inserts it, "update" updates with field 1 as the filter, any other
   * operation aborts.
   */
  function LineWrite(table: string, line: string, decode: string -> Option<map<string, string>>): (r: Result<Write, Fault>)
    ensures r == Failure(MissingFields(line)) <==> multiset(line)['\t'] < 3
    ensures r.Success? ==> r.value.table == table
  {
    SplitLength(line, '\t');
    var data := Split(line, '\t');
    if |data| < 4 then Failure(MissingFields(line))
    else
      var row := Payload(decode(data[3]));
      if data[0] == "insert" then Success(Insert(table, row))
      else if data[0] == "update" then Success(Update(table, data[1], row))
      else Failure(UnsupportedOp(data[0]))
  }

  /** The operation field of a line. */
  function Op(line: string): string
  {
    Split(line, '\t')[0]
  }

  /** A line written from its four tab-free fields replays as its operation says. */
  lemma LineWriteOfEntry(table: string, op: string, key: string, stamp: string, payload: string,
                         decode: string -> Option<map<string, string>>)
    requires '\t' !in op && '\t' !in key && '\t' !in stamp && '\t' !in payload
    ensures var r := LineWrite(table, Join([op, key, stamp, payload], '\t'), decode);
            if op == "insert" then r == Success(Insert(table, Payload(decode(payload))))
            else if op == "update" then r == Success(Update(table, key, Payload(decode(payload))))
            else r == Failure(UnsupportedOp(op))
  {
    SplitJoin([op, key, stamp, payload], '\t');
  }

  /** A line that replays names its operation: inserts come from "insert" lines, updates from "update" lines. */
  lemma LineWriteOp(table: string, line: string, decode: string -> Option<map<string, string>>)
    requires LineWrite(table, line, decode).Success?
    ensures LineWrite(table, line, decode).value.Insert? <==> Op(line) == "insert"
    ensures LineWrite(table, line, decode).value.Update? <==> Op(line) == "update"
  {
  }

  // ---------------------------------------------------------------------
  // Replaying one file
  // ---------------------------------------------------------------------

  /** The writes a file's lines issue before the first line that aborts, and that abort. */
  datatype Replayed = Replayed(writes: seq<Write>, fault: Option<Fault>)

  function ReplayLines(table: string, lines: seq<string>, decode: string -> Option<map<string, string>>): Replayed
  {
    if |lines| == 0 then Replayed([], None)
    else
      match LineWrite(table, lines[0], decode)
      case Failure(f) => Replayed([], Some(f))
      case Success(w) =>
        var rest := ReplayLines(table, lines[1..], decode);
        Replayed([w] + rest.writes, rest.fault)
  }

  function Inserts(ws: seq<Write>): nat
  {
    if |ws| == 0 then 0 else (if ws[0].Insert? then 1 else 0) + Inserts(ws[1..])
  }

  function Updates(ws: seq<Write>): nat
  {
    if |ws| == 0 then 0 else (if ws[0].Update? then 1 else 0) + Updates(ws[1..])
  }

  /** The number of lines whose operation field is `op`. */
  function CountOp(lines: seq<string>, op: string): nat
  {
    if |lines| == 0 then 0 else (if Op(lines[0]) == op then 1 else 0) + CountOp(lines[1..], op)
  }

  lemma {:induction false} CountsAppend(a: seq<Write>, b: seq<Write>)
    ensures Inserts(a + b) == Inserts(a) + Inserts(b)
    ensures Updates(a + b) == Updates(a) + Updates(b)
  {
    if |a| == 0 {
      assert a + b == b;
    } else {
      assert (a + b)[0] == a[0];
      assert (a + b)[1..] == a[1..] + b;
      CountsAppend(a[1..], b);
    }
  }

  /** A file replays without abort exactly when every line does. */
  lemma {:induction false} ReplayComplete(table: string, lines: seq<string>, decode: string -> Option<map<string, string>>)
    ensures ReplayLines(table, lines, decode).fault.None? <==>
            forall k :: 0 <= k < |lines| ==> LineWrite(table, lines[k], decode).Success?
  {
    if |lines| > 0 {
      ReplayComplete(table, lines[1..], decode);
      TailAt(lines);
      if LineWrite(table, lines[0], decode).Success? {
        assert ReplayLines(table, lines, decode).fault == ReplayLines(table, lines[1..], decode).fault;
      }
    }
  }

  /** A file that replays without abort issues one write per line, in order. */
  lemma {:induction false} ReplayWrites(table: string, lines: seq<string>, decode: string -> Option<map<string, string>>)
    requires ReplayLines(table, lines, decode).fault.None?
    ensures |ReplayLines(table, lines, decode).writes| == |lines|
    ensures forall k :: 0 <= k < |lines| ==>
              LineWrite(table, lines[k], decode) == Success(ReplayLines(table, lines, decode).writes[k])
  {
    if |lines| > 0 {
      var w := LineWrite(table, lines[0], decode).value;
      var rest := ReplayLines(table, lines[1..], decode).writes;
      ReplayWrites(table, lines[1..], decode);
      assert ReplayLines(table, lines, decode).writes == [w] + rest;
      ConsAt(w, rest);
      TailAt(lines);
    }
  }

  /**
   * A file that aborts has replayed the lines before the first failing one,
   * one write each, and aborts with that line's fault.
   */
  lemma {:induction false} ReplayStopsAtFirstFault(table: string, lines: seq<string>,
                                                  decode: string -> Option<map<string, string>>)
    requires ReplayLines(table, lines, decode).fault.Some?
    ensures var r := ReplayLines(table, lines, decode);
            var i := |r.writes|;
            i < |lines| &&
            LineWrite(table, lines[i], decode) == Failure(r.fault.value) &&
            forall k :: 0 <= k < i ==> LineWrite(table, lines[k], decode) == Success(r.writes[k])
  {
    var w := LineWrite(table, lines[0], decode);
    if w.Success? {
      var rest := ReplayLines(table, lines[1..], decode);
      ReplayStopsAtFirstFault(table, lines[1..], decode);
      assert ReplayLines(table, lines, decode) == Replayed([w.value] + rest.writes, rest.fault);
      ConsAt(w.value, rest.writes);
      TailAt(lines);
    }
  }

  /**
   * When a file replays to the end, its insert and update counts are the
   * numbers of "insert" and "update" lines, which together are all its lines.
   */
  lemma {:induction false} ReplayCounts(table: string, lines: seq<string>, decode: string -> Option<map<string, string>>)
    requires ReplayLines(table, lines, decode).fault.None?
    ensures Inserts(ReplayLines(table, lines, decode).writes) == CountOp(lines, "insert")
    ensures Updates(ReplayLines(table, lines, decode).writes) == CountOp(lines, "update")
    ensures CountOp(lines, "insert") + CountOp(lines, "update") == |lines|
  {
    if |lines| > 0 {
      LineWriteOp(table, lines[0], decode);
      ReplayCounts(table, lines[1..], decode);
    }
  }

  /** One step of the replay loop: the line at `i` either aborts the file or adds its write. */
  lemma ReplayStep(table: string, lines: seq<string>, i: int, decode: string -> Option<map<string, string>>)
    requires 0 <= i < |lines|
    ensures var r := ReplayLines(table, lines[i..], decode);
            var rest := ReplayLines(table, lines[i + 1..], decode);
            match LineWrite(table, lines[i], decode)
            case Failure(f) => r == Replayed([], Some(f))
            case Success(w) => r == Replayed([w] + rest.writes, rest.fault)
  {
    assert lines[i..][0] == lines[i];
    assert lines[i..][1..] == lines[i + 1..];
  }

  /**
   * restore_data: replays the lines of `dataFile` against `table`, counting
   * inserts and updates, and renames the file with ".ok" once every line is
   * replayed; a line that aborts stops the replay with nothing renamed.
   */
  method RestoreData(table: string, dataFile: string, lines: seq<string>,
                     decode: string -> Option<map<string, string>>)
    returns (writes: seq<Write>, inserts: nat, updates: nat, renamed: Option<string>, fault: Option<Fault>)
    ensures writes == ReplayLines(table, lines, decode).writes
    ensures fault == ReplayLines(table, lines, decode).fault
    ensures inserts == Inserts(writes) && updates == Updates(writes)
    ensures renamed == if fault.None? then Some(dataFile + ".ok") else None
  {
    writes, inserts, updates := [], 0, 0;
    for i := 0 to |lines|
      invariant ReplayLines(table, lines, decode) ==
                Replayed(writes + ReplayLines(table, lines[i..], decode).writes,
                         ReplayLines(table, lines[i..], decode).fault)
      invariant inserts == Inserts(writes) && updates == Updates(writes)
    {
      ReplayStep(table, lines, i, decode);
      var action := LineWrite(table, lines[i], decode);
      if action.Failure? {
        return writes, inserts, updates, None, Some(action.error);
      }
      var w := action.value;
      if w.Insert? {
        inserts := inserts + 1;
      } else {
        updates := updates + 1;
      }
      CountsAppend(writes, [w]);
      ConcatAssoc(writes, [w], ReplayLines(table, lines[i + 1..], decode).writes);
      writes := writes + [w];
    }
    assert lines[|lines|..] == [];
    assert writes + [] == writes;
    renamed, fault := Some(dataFile + ".ok"), None;
  }

  // ---------------------------------------------------------------------
  // The restore run
  // ---------------------------------------------------------------------

  /** How a table's schema is brought up to its snapshot before its data is replayed. */
  datatype SchemaStep = CreateFrom(scheme: string) | AlterFrom(scheme: string)

  /** What the run did for one backup file. */
  datatype FileRun = FileRun(
    file: string,
    table: string,
    schema: SchemaStep,
    writes: seq<Write>,
    inserts: nat,
    updates: nat,
    renamed: Option<string>)

  /** The outcome of replaying a table's backup file, as restore_data produces it. */
  function ReplayOf(contents: string -> seq<string>, decode: string -> Option<map<string, string>>): (string, string) -> Replayed
  {
    (table, file) => ReplayLines(table, contents(file), decode)
  }

  /**
   * What main does for one backup file, given the tables it knows and how a
   * file replays: nothing when the name does not parse; otherwise the table
   * is created from the paired snapshot when it is not known and reconciled
   * with it when it is, and the file is replayed (and renamed when the replay
   * completes).
   */
  function FileStep(file: string, known: set<string>, replay: (string, string) -> Replayed): Option<FileRun>
  {
    match BackupTable(file)
    case None => None
    case Some(table) =>
      var r := replay(table, file);
      var scheme := SchemeFile(file);
      Some(FileRun(file, table,
                   if table in known then AlterFrom(scheme) else CreateFrom(scheme),
                   r.writes, Inserts(r.writes), Updates(r.writes),
                   if r.fault.None? then Some(file + ".ok") else None))
  }

  /** The runs a restore performs, and the fault that stopped it, if any. */
  datatype Outcome = Outcome(runs: seq<FileRun>, fault: Option<Fault>)

  /**
   * The files handled in order until one is misnamed or fails to replay;
   * a table a file creates is known to the files after it.
   */
  function RestoreFiles(files: seq<string>, known: set<string>, replay: (string, string) -> Replayed): Outcome
  {
    if |files| == 0 then Outcome([], None)
    else
      match FileStep(files[0], known, replay)
      case None => Outcome([], Some(BadBackupName(files[0])))
      case Some(run) =>
        if run.renamed.None? then
          Outcome([run], replay(run.table, files[0]).fault)
        else
          var rest := RestoreFiles(files[1..], known + {run.table}, replay);
          Outcome([run] + rest.runs, rest.fault)
  }

  /** A run handles `file`: it names the table the file name designates and takes the paired snapshot. */
  predicate RunFor(run: FileRun, file: string)
  {
    run.file == file && BackupTable(file) == Some(run.table) && run.schema.scheme == SchemeFile(file)
  }

  /** Run `k` is the first sight of its table: the target did not have it and no earlier run handled it. */
  predicate FirstSight(runs: seq<FileRun>, k: int, tables: set<string>)
    requires 0 <= k < |runs|
  {
    runs[k].table !in tables && forall j :: 0 <= j < k ==> runs[j].table != runs[k].table
  }

  /**
   * Run `k` handled file `k`, and it creates its table exactly when that is
   * the table's first sight.
   */
  predicate Routed(runs: seq<FileRun>, files: seq<string>, tables: set<string>)
  {
    |runs| <= |files| &&
    forall k :: 0 <= k < |runs| ==>
      RunFor(runs[k], files[k]) && (runs[k].schema.CreateFrom? <==> FirstSight(runs, k, tables))
  }

  /** A run carries its file's replay: the writes, their counts, and the rename on completion. */
  predicate ReplayedFile(run: FileRun, r: Replayed)
  {
    run.writes == r.writes && run.inserts == Inserts(r.writes) && run.updates == Updates(r.writes) &&
    run.renamed == (if r.fault.None? then Some(run.file + ".ok") else None)
  }

  /** Behind a first run, first sight is first sight among the later runs with the first run's table known. */
  lemma FirstSightCons(run: FileRun, rest: seq<FileRun>, k: int, known: set<string>)
    requires 1 <= k <= |rest|
    ensures FirstSight([run] + rest, k, known) <==> FirstSight(rest, k - 1, known + {run.table})
  {
    var all := [run] + rest;
    assert all[0] == run && all[k] == rest[k - 1];
    assert forall j :: 1 <= j < k ==> all[j] == rest[j - 1];
    if FirstSight(rest, k - 1, known + {run.table}) {
      forall j | 0 <= j < k ensures all[j].table != all[k].table {
        if j > 0 {
          assert all[j] == rest[j - 1];
        }
      }
    }
    if FirstSight(all, k, known) {
      assert all[0].table != all[k].table;
      forall j | 0 <= j < k - 1 ensures rest[j].table != rest[k - 1].table {
        assert all[j + 1] == rest[j];
      }
    }
  }

  /** The routing facts of run `k` behind a first run are those of run `k - 1` of the later runs. */
  lemma RoutedConsAt(run: FileRun, rest: seq<FileRun>, files: seq<string>, known: set<string>, k: int)
    requires 1 <= k <= |rest| && |rest| < |files|
    requires RunFor(rest[k - 1], files[1..][k - 1])
    requires rest[k - 1].schema.CreateFrom? <==> FirstSight(rest, k - 1, known + {run.table})
    ensures RunFor(([run] + rest)[k], files[k])
    ensures ([run] + rest)[k].schema.CreateFrom? <==> FirstSight([run] + rest, k, known)
  {
    assert ([run] + rest)[k] == rest[k - 1];
    assert files[1..][k - 1] == files[k];
    FirstSightCons(run, rest, k, known);
  }

  /** Routing the first file in front of routed later files, whose known tables include the first's. */
  lemma RoutedCons(run: FileRun, rest: seq<FileRun>, files: seq<string>, known: set<string>)
    requires |files| > 0 && Routed(rest, files[1..], known + {run.table})
    requires RunFor(run, files[0])
    requires run.schema.CreateFrom? <==> run.table !in known
    ensures Routed([run] + rest, files, known)
  {
    var all := [run] + rest;
    forall k | 0 <= k < |all|
      ensures RunFor(all[k], files[k]) && (all[k].schema.CreateFrom? <==> FirstSight(all, k, known))
    {
      if k == 0 {
        assert all[0] == run;
      } else {
        RoutedConsAt(run, rest, files, known, k);
      }
    }
  }

  /** Every run of a restore follows the routing rule: create on first sight, reconcile afterwards. */
  lemma {:induction false} RestoreRouted(files: seq<string>, known: set<string>, replay: (string, string) -> Replayed)
    ensures Routed(RestoreFiles(files, known, replay).runs, files, known)
  {
    if |files| > 0 {
      var step := FileStep(files[0], known, replay);
      if step.Some? && step.value.renamed.Some? {
        RestoreRouted(files[1..], known + {step.value.table}, replay);
        RoutedCons(step.value, RestoreFiles(files[1..], known + {step.value.table}, replay).runs, files, known);
      }
    }
  }

  /** Every run of a restore carries its own file's replay. */
  lemma {:induction false} RestoreReplayed(files: seq<string>, known: set<string>, replay: (string, string) -> Replayed)
    ensures var runs := RestoreFiles(files, known, replay).runs;
            |runs| <= |files| &&
            forall k :: 0 <= k < |runs| ==> ReplayedFile(runs[k], replay(runs[k].table, files[k]))
  {
    if |files| > 0 {
      var step := FileStep(files[0], known, replay);
      if step.Some? && step.value.renamed.Some? {
        RestoreReplayed(files[1..], known + {step.value.table}, replay);
        ConsAt(step.value, RestoreFiles(files[1..], known + {step.value.table}, replay).runs);
        TailAt(files);
      }
    }
  }

  /**
   * A restore stops only at a fault: it runs to the end exactly when every
   * file is renamed, and every run but the last is renamed.
   */
  lemma {:induction false} RestoreCompletes(files: seq<string>, known: set<string>, replay: (string, string) -> Replayed)
    ensures var o := RestoreFiles(files, known, replay);
            o.fault.None? <==> |o.runs| == |files| && forall k :: 0 <= k < |o.runs| ==> o.runs[k].renamed.Some?
    ensures var o := RestoreFiles(files, known, replay);
            forall k :: 0 <= k < |o.runs| - 1 ==> o.runs[k].renamed.Some?
  {
    if |files| > 0 {
      var step := FileStep(files[0], known, replay);
      if step.None? {
        assert RestoreFiles(files, known, replay) == Outcome([], Some(BadBackupName(files[0])));
      } else if step.value.renamed.None? {
        assert RestoreFiles(files, known, replay) ==
               Outcome([step.value], replay(step.value.table, files[0]).fault);
        assert replay(step.value.table, files[0]).fault.Some?;
        assert RestoreFiles(files, known, replay).runs[0].renamed.None?;
      } else {
        RestoreCompletes(files[1..], known + {step.value.table}, replay);
        var tail := RestoreFiles(files[1..], known + {step.value.table}, replay);
        assert RestoreFiles(files, known, replay) == Outcome([step.value] + tail.runs, tail.fault);
        ConsAt(step.value, tail.runs);
        var all := [step.value] + tail.runs;
        if forall k :: 0 <= k < |all| ==> all[k].renamed.Some? {
          forall k | 0 <= k < |tail.runs| ensures tail.runs[k].renamed.Some? {
            assert all[k + 1] == tail.runs[k];
          }
        }
      }
    }
  }

  /**
   * A restore that stops early stops at a misnamed file (the first file it has
   * no run for) or at the file of its last run, whose replay aborted.
   */
  lemma {:induction false} RestoreStopsAt(files: seq<string>, known: set<string>, replay: (string, string) -> Replayed)
    requires RestoreFiles(files, known, replay).fault.Some?
    ensures var o := RestoreFiles(files, known, replay);
            var n := |o.runs|;
            (n < |files| && BackupTable(files[n]).None? && o.fault == Some(BadBackupName(files[n])))
            || (0 < n <= |files| && o.fault == replay(o.runs[n - 1].table, files[n - 1]).fault)
  {
    var step := FileStep(files[0], known, replay);
    if step.Some? && step.value.renamed.Some? {
      var known' := known + {step.value.table};
      RestoreStopsAt(files[1..], known', replay);
      RestoreRouted(files[1..], known', replay);
      var rest := RestoreFiles(files[1..], known', replay).runs;
      ConsAt(step.value, rest);
      TailAt(files);
    }
  }

  /**
   * Under the routing rule a table is created at most once in a run, and a
   * table the target already had is never created.
   */
  lemma CreatedOnce(runs: seq<FileRun>, files: seq<string>, tables: set<string>)
    requires Routed(runs, files, tables)
    ensures forall j, k :: 0 <= j < k < |runs| && runs[j].table == runs[k].table ==> runs[k].schema.AlterFrom?
    ensures forall k :: 0 <= k < |runs| && runs[k].table in tables ==> runs[k].schema.AlterFrom?
  {
  }

  /**
   * One iteration of main's loop: parses the table from the file name (a
   * misnamed file aborts), creates the table when it is not among `known`
   * or reconciles it otherwise, and replays the file.
   */
  method RestoreFile(file: string, known: set<string>,
                     contents: string -> seq<string>, decode: string -> Option<map<string, string>>)
    returns (run: Option<FileRun>, fault: Option<Fault>)
    ensures run == FileStep(file, known, ReplayOf(contents, decode))
    ensures run.None? ==> fault == Some(BadBackupName(file))
    ensures run.Some? ==> fault == ReplayLines(run.value.table, contents(file), decode).fault
  {
    var parts := Split(file, '.');
    if |parts| != 4 {
      return None, Some(BadBackupName(file));
    }
    var table := parts[1];
    var schema: SchemaStep;
    if table !in known {
      schema := CreateFrom(ReplaceFirst(file, "backup", "scheme"));
    } else {
      schema := AlterFrom(ReplaceFirst(file, "backup", "scheme"));
    }
    var writes, inserts, updates, renamed, dataFault := RestoreData(table, file, contents(file), decode);
    run := Some(FileRun(file, table, schema, writes, inserts, updates, renamed));
    fault := dataFault;
  }

  /** The loop so far, followed by the rest of the files, is the whole restore. */
  lemma RestoreStep(files: seq<string>, i: int, known: set<string>, runs: seq<FileRun>, whole: Outcome,
                    run: FileRun, replay: (string, string) -> Replayed)
    requires 0 <= i < |files|
    requires whole == Outcome(runs + RestoreFiles(files[i..], known, replay).runs,
                              RestoreFiles(files[i..], known, replay).fault)
    requires FileStep(files[i], known, replay) == Some(run)
    ensures run.renamed.None? ==> whole == Outcome(runs + [run], replay(run.table, files[i]).fault)
    ensures run.renamed.Some? ==>
              whole == Outcome((runs + [run]) + RestoreFiles(files[i + 1..], known + {run.table}, replay).runs,
                               RestoreFiles(files[i + 1..], known + {run.table}, replay).fault)
  {
    assert files[i..][0] == files[i];
    assert files[i..][1..] == files[i + 1..];
    ConcatAssoc(runs, [run], RestoreFiles(files[i + 1..], known + {run.table}, replay).runs);
  }

  /**
   * main: refuses to run against a source database; otherwise, for each backup
   * file in turn, parses its table, creates the table if it is not known yet
   * (and from then on knows it) or reconciles it otherwise, and replays the
   * file. A misnamed file or a line that aborts stops the run.
   */
  method Restore(isSource: bool, files: seq<string>, tables: set<string>,
                 contents: string -> seq<string>, decode: string -> Option<map<string, string>>)
    returns (runs: seq<FileRun>, fault: Option<Fault>)
    ensures isSource ==> runs == [] && fault == Some(SourceDatabase)
    ensures !isSource ==> Outcome(runs, fault) == RestoreFiles(files, tables, ReplayOf(contents, decode))
  {
    runs := [];
    if isSource {
      return runs, Some(SourceDatabase);
    }
    ghost var replay := ReplayOf(contents, decode);
    ghost var whole := RestoreFiles(files, tables, replay);
    var known := tables;
    for i := 0 to |files|
      invariant whole == Outcome(runs + RestoreFiles(files[i..], known, replay).runs,
                                 RestoreFiles(files[i..], known, replay).fault)
    {
      var run, fileFault := RestoreFile(files[i], known, contents, decode);
      if run.None? {
        assert files[i..][0] == files[i];
        assert runs + [] == runs;
        return runs, fileFault;
      }
      RestoreStep(files, i, known, runs, whole, run.value, replay);
      if run.value.schema.CreateFrom? {
        known := known + {run.value.table};
      } else {
        assert known + {run.value.table} == known;
      }
      runs := runs + [run.value];
      if fileFault.Some? {
        return runs, fileFault;
      }
    }
    assert files[|files|..] == [];
    assert runs + [] == runs;
    fault := None;
  }
}
