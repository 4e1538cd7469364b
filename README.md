# MaestroDatabase storage engine in Dafny

This project models the storage engine `MDB` of MaestroDatabase and proves properties of
it. `MDB` is a small record store: named tables of rows, each table with an optional schema
and a one-slot rollback snapshot, and each table saved to its own file after every change.
The repository has two copies of the engine, and both are modelled:

- `GuiEngine.Database` models the desktop copy (`maestrodatabase_gui.py`, class `MDB`). It
  saves a `{"schema", "rows"}` document, reads that shape and the legacy bare row list,
  and infers a schema from a legacy file's first row.
- `TerminalEngine.Database` models the console copy (`maestrodatabase_terminal.py`, class
  `MDB`). It adds `select` and saves and reads a bare row list. It never persists schemas.

Layout, one module per file:

| file | module | what it holds |
|---|---|---|
| values.dfy | `Values` | values, kinds, records as ordered dicts, `record.get`, `record[k] = v`, Python `==` |
| results.dfy | `Results` | `Option`, `Outcome`, `Result` and the engine's errors |
| schemas.dfy | `Schemas` | columns, schemas and `_validate_record` |
| rows.dfy | `Rows` | the filter shared by select, update and delete; the duplicate-key check; the update and duplicate-scan loops |
| paths.dfy | `Paths` | `_path` as `posixpath.join` |
| storage.dfy | `Storage` | parsed JSON documents, files and the `Disk` class |
| codec.dfy | `Codec` | the desktop file format and legacy schema inference |
| csv.dfy | `Csv` | the decisions `export_csv` makes around `csv.DictWriter` |
| gui_engine.dfy | `GuiEngine` | the desktop `MDB` class |
| terminal_engine.dfy | `TerminalEngine` | the console `MDB` class |

Modelling choices:

- **State.** Each engine is a class. Its fields are `tables`, `schemas` and `transactions`,
  and every operation updates them in place. The disk is a separate `Disk` object. It maps
  path strings to files, and the engine writes it through its `disk` reference. Methods
  that do not save (`LoadTable`, `BeginTransaction`, `Rollback`) do not list the disk in
  their `modifies` clause.
- **Records and schemas are ordered.** They are sequences of fields and columns, because
  Python dicts keep insertion order and the engine relies on it in four places:
  - which invalid column is reported first;
  - where an updated key sits (an existing key keeps its place, a new one goes last);
  - the order of an inferred schema;
  - the CSV header.
- **Absent reads as None.** `Get` models `record.get(col)`: an absent column reads as
  `Null`. So a condition `col == None` matches rows that lack the column, and two records
  that both lack the key column count as duplicates.
- **Records are dicts.** Nothing in the types forces a record's field names to be
  distinct. The lemmas that depend on it require `IsDict`. A field list that repeats a
  column has no counterpart in the source, because every record there is a Python dict or
  the result of `json.load`.
- **Python equality.** `PyEq` models `==` on values. `True == 1` and `False == 0` hold, and
  every other pair compares structurally.
- **Bools and int columns.** Python's `bool` is a subclass of `int`. So a Bool passes an
  int column check, and a Bool in a legacy first row infers an int column. The model
  follows the code here.
- **Snapshots are values.** `begin_transaction` takes a deep copy. Rows are values in the
  model, so later changes to the table never reach the snapshot.
- **Outside inputs.** The clock reading of `backup_table` is a `stamp` parameter. The
  engine's folder and extension are constants of the class.

Behaviour of the code that a reader may not expect, modelled as the code has it:

- A Bool is accepted by an `int` column and inferred as `int`, because Python's `bool` is a
  subclass of `int`.
- `drop_table` leaves a pending snapshot in place. A later `rollback` brings the rows back,
  without a schema and without a file (`GuiEngine.DropThenRollback`). A later `commit`
  empties the slot and then fails with KeyError in `_save`. The desktop `_save` looks the
  rows up before it opens the file, so nothing is written. The console `_save` opens the
  file first, so it leaves an empty file behind, and a later `load_table` finds that file
  and fails to parse it (`TerminalEngine.CommitAfterDrop`).
- The desktop `load_table` always sets a schema entry (an empty one for an empty legacy
  list). The console `load_table` never touches schemas.
- The console copy writes a bare row list, not the `{"schema", "rows"}` object.
- `rollback` and `commit` with no snapshot do nothing. Only the console copy prints a
  notice.
- `key_column` is used only when it is truthy, so `""` skips the duplicate check.
- `select` and `delete` take their conditions as keyword arguments. A condition named
  `self` or `table_name` therefore makes the call raise TypeError before anything happens.
  The desktop window deletes a row by passing the row's own columns as conditions, so a
  table with a column `table_name` cannot have rows deleted through it. `update` takes a
  plain dict and is not affected.
- A `"bool"` schema entry in a saved file is read back as an untyped column.
- The engine class has no `listTables` operation.

## Model

| member | source | states |
|---|---|---|
| `Values.Has` | maestrodatabase_gui.py:30 | `col in record`: the record has a field with that name |
| `Values.Get` | maestrodatabase_gui.py:92 | `record.get(col)`: the column's value, or None when the record lacks the column; what it reads after an assignment is stated by `Values.Set` |
| `Values.IsInstance` | maestrodatabase_gui.py:32 | `isinstance(value, type)` for the modelled types; a Bool is an instance of int |
| `Values.PyEq` | maestrodatabase_gui.py:92 | Python `==` on values: `True == 1` and `False == 0`, otherwise same kind and same value; shown to be an equivalence by `Values.PyEqIsEquivalence` |
| `Values.Matches` | maestrodatabase_gui.py:101 | `all(record.get(k) == v for k, v in conditions.items())`: every condition holds of the record; empty conditions match every record (`Rows.EmptyConditionsMatchAll`) |
| `Values.Set` | maestrodatabase_gui.py:102-103 | after `record[col] = v`, `col` reads `v`, every other column reads as before, and the column set gains exactly `col` |
| `Values.SetKeepsOrder` | maestrodatabase_gui.py:103 | assigning an existing column keeps the key order; a new column is appended last |
| `Values.ApplyUpdates` | maestrodatabase_gui.py:102-103 | after the update loop the row has its old columns plus the update columns, and a column not in the updates keeps its value |
| `Values.UpdatedValue` | maestrodatabase_gui.py:102-103 | with a dict of updates, every update column ends up holding the value the updates give it |
| `Values.PyEqIsEquivalence` | maestrodatabase_gui.py:92 | the `==` used to compare key values and conditions is reflexive, symmetric and transitive |
| `Schemas.Conforms` | maestrodatabase_gui.py:30-32 | a declared column is satisfied when the record has it and the column is untyped, the value is None, or the value is an instance of the declared type |
| `Schemas.Violation` | maestrodatabase_gui.py:30-33 | the error for a column that is not satisfied: missing column if the record lacks it, otherwise wrong type |
| `Schemas.Validate` | maestrodatabase_gui.py:25-33 | a record passes iff every declared column is present and its value is None, or the column is untyped, or the value has the declared type; a failure names the first bad column in declaration order, as missing or as wrongly typed |
| `Schemas.ExtraColumnsTolerated` | maestrodatabase_gui.py:29-33 | appending undeclared columns to a record never changes the validation verdict |
| `Rows.Select` | maestrodatabase_terminal.py:90-93 | the rows matching every condition, in table order, never more than the table holds; its meaning is stated by `Rows.SelectMembers`, `Rows.SelectIsSubseq` and `Rows.SelectUnique` |
| `Rows.Keep` | maestrodatabase_gui.py:111-113 | the rows failing some condition, in table order, never more than the table holds; its meaning is stated by `Rows.KeepMembers`, `Rows.KeepIsSubseq` and `Rows.SelectKeepPartition` |
| `Rows.UpdateRows` | maestrodatabase_gui.py:100-103 | each matching row with every update assigned, every other row as it was; its effect is stated by `Rows.UpdateRowsEffect` |
| `Rows.NamesParameter` | maestrodatabase_terminal.py:88 | `**conditions` binding: a condition named `self` or `table_name` collides with a parameter of `select` or `delete`, and the call raises TypeError |
| `Rows.ChecksKey` | maestrodatabase_gui.py:90 | `if key_column:`: the duplicate check runs only for a given, non-empty key column |
| `Rows.KeyTaken` | maestrodatabase_gui.py:91-92 | some existing row's `get(key)` equals the record's `get(key)`, an absent key reading as None |
| `Rows.SelectMembers` | maestrodatabase_terminal.py:88-94 | a row is selected iff it is in the table and every condition `record.get(k) == v` holds |
| `Rows.SelectIsSubseq` | maestrodatabase_terminal.py:90-93 | the selected rows keep the table order |
| `Rows.SelectUnique` | maestrodatabase_terminal.py:88-94 | an order-preserving choice of matching rows as large as the selection is the selection itself, so select returns exactly the matching rows in table order |
| `Rows.SelectAppend` | maestrodatabase_terminal.py:91-93 | selecting from two row lists joined is joining their selections |
| `Rows.EmptyConditionsMatchAll` | maestrodatabase_gui.py:111-113 | empty conditions select every row and delete every row |
| `Rows.KeepMembers` | maestrodatabase_gui.py:111-113 | a row survives delete iff it is in the table and fails some condition |
| `Rows.KeepIsSubseq` | maestrodatabase_gui.py:111-113 | the surviving rows keep their original order |
| `Rows.KeepAppend` | maestrodatabase_gui.py:111-113 | delete on two row lists joined is joining what survives of each |
| `Rows.SelectKeepPartition` | maestrodatabase_gui.py:110-114 | matching and surviving rows together are the table, as a multiset, so the deleted count equals the number of matching rows |
| `Rows.UpdateNothingMatched` | maestrodatabase_gui.py:97-106 | an update whose conditions match no row leaves the rows unchanged |
| `Rows.UpdateRowsEffect` | maestrodatabase_gui.py:100-104 | update keeps the row count; a non-matching row is unchanged; in a matching row every update column holds its new value and every other column keeps its value |
| `Rows.FindDuplicate` | maestrodatabase_gui.py:90-93 | the scan reports a duplicate iff some existing row's `get(key)` equals the new record's `get(key)` |
| `Rows.InsertKeepsKeyUnique` | maestrodatabase_gui.py:90-94 | appending a record that passed the duplicate check keeps the key column free of equal values |
| `Rows.SecondInsertCollides` | maestrodatabase_gui.py:90-93 | once a record is in the table, another record with an equal key value is reported as a duplicate |
| `Rows.UpdateScan` | maestrodatabase_gui.py:99-104 | the update loop produces the updated rows and counts exactly the matching rows |
| `Paths.Join` | maestrodatabase_gui.py:19 | `os.path.join(folder, name + extension)` as `posixpath.join`: a second part starting with '/' replaces the first, otherwise a '/' is put between them unless the first already ends with one |
| `Paths.RelativePathString` | maestrodatabase_gui.py:18-19 | for a table name not starting with '/', the path string is the folder string, a '/' if the folder lacks one, and then the name; this is a fact about strings, not about where the file lands (see "## Left out") |
| `Paths.AbsoluteEscapesFolder` | maestrodatabase_gui.py:18-19 | documents the first branch of `Paths.Join`: for a table name starting with '/', the path string is the name alone and the folder is ignored |
| `Paths.TablePathInjective` | maestrodatabase_gui.py:18-19 | two different non-empty table names not starting with '/' never get the same path string (they may still name the same file, see "## Left out") |
| `Codec.KindName` | maestrodatabase_gui.py:122 | `v.__name__ if v else None`: the type name stored for a column, None for an untyped one |
| `Codec.EncodeSchema` | maestrodatabase_gui.py:122 | the stored schema: column name to type name, in declaration order |
| `Codec.Encode` | maestrodatabase_gui.py:121-124 | the document `_save` writes: the stored schema and the rows; it is undone by `Codec.Decode` as `Codec.RoundTrip` states |
| `Codec.ParseKind` | maestrodatabase_gui.py:65-69 | the type read back for a stored name: "int", "float" and "str" are recognised, anything else is untyped |
| `Codec.DecodeSchema` | maestrodatabase_gui.py:63-69 | the schema read back from the stored one, column by column in stored order |
| `Codec.InferKind` | maestrodatabase_gui.py:55-58 | the type inferred from a first-row value: int (Bool included), float, str, otherwise untyped |
| `Codec.Infer` | maestrodatabase_gui.py:52-59 | one column per field of the legacy file's first row, in order; it admits that row (`Codec.InferAdmitsFirstRow`) |
| `Codec.Decode` | maestrodatabase_gui.py:49-73 | a list becomes the rows with a schema inferred from its first row (empty for an empty list); an object gives its "schema" and "rows", each empty when missing; anything else is unsupported |
| `Codec.Degrade` | maestrodatabase_gui.py:62-69 | what a schema becomes after `_save` and `load_table`: bool columns read back untyped, every other column unchanged (`Codec.RoundTrip`) |
| `Codec.DecodeFailsOnlyOnScalars` | maestrodatabase_gui.py:49-73 | documents the case split of `Codec.Decode`: a parsed file loads unless it is neither a list nor an object, and then fails as unsupported |
| `Codec.RoundTrip` | maestrodatabase_gui.py:119-124 | loading what `_save` wrote gives the rows back exactly, and the schema with bool columns untyped |
| `Codec.ExactRoundTrip` | maestrodatabase_gui.py:62-71 | a schema over int, float, str and untyped columns round-trips exactly together with the rows |
| `Codec.SecondRoundTripExact` | maestrodatabase_gui.py:62-71 | after one save and load, further save and load cycles change nothing |
| `Codec.InferAdmitsFirstRow` | maestrodatabase_gui.py:52-59 | the schema inferred from a legacy file's first row accepts that row |
| `Codec.LegacyMigrates` | maestrodatabase_gui.py:49-61 | a legacy list always loads, and saving and reloading the loaded state reproduces it exactly |
| `Csv.Fits` | maestrodatabase_gui.py:142-144 | a row fits the header when every key of the row is a header column, so `DictWriter` writes it without raising |
| `Csv.FirstStray` | maestrodatabase_gui.py:142-144 | finds the first row holding a key outside the header; every row before it fits the header |
| `Csv.Export` | maestrodatabase_gui.py:139-144 | the header is the first row's keys; the file holds a prefix of the rows, at least the first; the export passes iff all rows fit the header, and otherwise stops at the first row that does not |
| `GuiEngine.Database.constructor` | maestrodatabase_gui.py:10-16 | a new engine has no tables, schemas or snapshots |
| `GuiEngine.Database.Save` | maestrodatabase_gui.py:119-126 | the table's file becomes the encoded schema and rows; a name with no rows fails with KeyError and writes nothing |
| `GuiEngine.Database.CreateTable` | maestrodatabase_gui.py:36-42 | a live name fails and nothing changes; otherwise an empty table is added, the schema is bound only if non-empty, snapshots are kept, and the file is written |
| `GuiEngine.Database.LoadTable` | maestrodatabase_gui.py:44-75 | a missing file, an unparsable file or an unsupported shape fails and changes nothing; otherwise rows and schema are replaced by the decoded ones and snapshots are kept |
| `GuiEngine.Database.DropTable` | maestrodatabase_gui.py:77-84 | an unknown name fails; otherwise the rows, the schema and the file are removed and the snapshot is kept |
| `GuiEngine.Database.Insert` | maestrodatabase_gui.py:87-95 | fails, in this order, on an unknown table, a record failing validation, or a duplicate key (only for a truthy key column), changing nothing; otherwise appends the record after all prior rows and saves |
| `GuiEngine.Database.Update` | maestrodatabase_gui.py:97-106 | returns the number of matching rows, replaces the rows by the updated rows, and saves; an unknown table fails and changes nothing |
| `GuiEngine.Database.Delete` | maestrodatabase_gui.py:108-116 | a condition named `self` or `table_name` fails first and changes nothing; an unknown table fails and changes nothing; otherwise keeps exactly the non-matching rows in order, returns the number of matching rows, and saves |
| `GuiEngine.Database.BackupTable` | maestrodatabase_gui.py:128-135 | writes the table's saved document to its path plus ".backup." plus the stamp, and changes nothing else |
| `GuiEngine.Database.ExportCsv` | maestrodatabase_gui.py:137-144 | an unknown table fails; an empty table writes nothing; otherwise the CSV file is what `Csv.Export` gives |
| `GuiEngine.Database.BeginTransaction` | maestrodatabase_gui.py:147-149 | for a live table the slot holds a copy of its rows, replacing any earlier snapshot; rows and schemas are unchanged |
| `GuiEngine.Database.Rollback` | maestrodatabase_gui.py:151-153 | with a snapshot, the snapshot becomes the rows and the slot is emptied, without saving; without one nothing changes |
| `GuiEngine.Database.Commit` | maestrodatabase_gui.py:155-158 | with a snapshot, the slot is emptied and the table saved (KeyError if it was dropped); without one nothing changes |
| `GuiEngine.SaveThenLoad` | maestrodatabase_gui.py:62-71 | saving then loading a table leaves its rows as they were and its schema with bool columns untyped |
| `GuiEngine.RollbackUndoesWrites` | maestrodatabase_gui.py:147-153 | begin, insert, delete, rollback restores rows and schemas exactly; a second rollback is a no-op |
| `GuiEngine.DropThenRollback` | maestrodatabase_gui.py:151-153 | rolling back after dropping a table inside a transaction restores its rows, without its schema or file |
| `TerminalEngine.Database.constructor` | maestrodatabase_terminal.py:9-15 | a new engine has no tables, schemas or snapshots |
| `TerminalEngine.Database.Save` | maestrodatabase_terminal.py:121-124 | the table's file becomes its bare row list; for a name with no rows the file is first emptied, or created empty, and then the save fails with KeyError |
| `TerminalEngine.Database.CreateTable` | maestrodatabase_terminal.py:42-49 | a live name fails and nothing changes; otherwise an empty table, the schema bound only if non-empty, an empty list written |
| `TerminalEngine.Database.LoadTable` | maestrodatabase_terminal.py:51-58 | a missing file fails and changes nothing; a file that is not JSON (an empty file or a CSV export) fails to parse and changes nothing; a stored row list replaces the rows, leaving schemas and snapshots untouched |
| `TerminalEngine.Database.DropTable` | maestrodatabase_terminal.py:60-68 | an unknown name fails; otherwise rows, schema entry and file are removed, the snapshot kept |
| `TerminalEngine.Database.Insert` | maestrodatabase_terminal.py:73-85 | same checks and order of errors as the desktop copy; on success the record is the last row and the list is saved |
| `TerminalEngine.Database.Select` | maestrodatabase_terminal.py:88-94 | a condition named `self` or `table_name` fails first; an unknown table fails; otherwise returns exactly the matching rows in table order (see `Rows.SelectUnique`); nothing changes |
| `TerminalEngine.Database.Update` | maestrodatabase_terminal.py:96-105 | an unknown table fails; otherwise the rows are replaced by the updated rows and the bare list is saved; no count is returned |
| `TerminalEngine.Database.Delete` | maestrodatabase_terminal.py:107-116 | a condition named `self` or `table_name` fails first and changes nothing; an unknown table fails and changes nothing; otherwise keeps exactly the non-matching rows in order, and the table shrinks by the number of matching rows |
| `TerminalEngine.Database.BackupTable` | maestrodatabase_terminal.py:126-131 | writes the row list to the table's path plus ".backup." plus the stamp |
| `TerminalEngine.Database.ExportCsv` | maestrodatabase_terminal.py:133-142 | an empty table writes nothing; otherwise the CSV file is what `Csv.Export` gives |
| `TerminalEngine.Database.BeginTransaction` | maestrodatabase_terminal.py:147-150 | for a live table the slot holds a copy of its rows, replacing any earlier one |
| `TerminalEngine.Database.Rollback` | maestrodatabase_terminal.py:152-157 | with a snapshot, it becomes the rows and the slot empties; otherwise nothing changes |
| `TerminalEngine.Database.Commit` | maestrodatabase_terminal.py:159-165 | with a snapshot, the slot empties and the list is saved; if the table was dropped, the save leaves an empty file at its path and fails with KeyError; with no snapshot nothing changes |
| `TerminalEngine.SaveThenLoad` | maestrodatabase_terminal.py:51-58 | saving then loading a table gives back the same rows and leaves schemas and snapshots untouched |
| `TerminalEngine.CommitAfterDrop` | maestrodatabase_terminal.py:159-165 | begin, drop, commit: the commit fails with KeyError but leaves an empty file at the table's path, so a later load fails to parse it instead of finding no file |
| `TerminalEngine.InsertThenSelect` | maestrodatabase_terminal.py:83-94 | after a successful insert, a select returns the earlier selection plus the new record if it matches; after a failed insert, the same selection; conditions naming a parameter fail both times |

## Left out

- The Tkinter window class `MDBGUI`, the console REPL `interactive_demo`, the Flask API in `maestrodatabase_api.py`, and the viewers `mdb_airport_web_dynamic.py` and `dataviewer.py`. These are clients of the engine and are not part of this model.
- File I/O. JSON text, indentation, UTF-8 encoding and `os.makedirs` are not modelled. A file holds the value `json.load` would return, an abstract CSV export (header plus rows), or nothing (the empty file an interrupted console `_save` leaves). Any other unparsable content is not modelled. A write always succeeds in the model. In the source, a failing `open` raises after the in-memory change has been made, for example because of a missing subfolder (`create_table("x/y")` without `data/x`), permissions or an invalid name. In that case the table stays registered (or changed) in memory while its file is missing or stale.
- Path aliasing. The disk is keyed by path string. Two different strings can name the same file, through `.`, `..` or repeated `/` segments, symlinks, or a case-insensitive file system (`data/t.mdb` and `data/./t.mdb`). A relative name with `..` can also land outside the data folder (`data/../x.mdb`). The model treats different strings as different files, so, for example, loading `./t` after creating `t` fails in the model but succeeds in the source.
- CSV rendering. Quoting, line endings and the empty cell written for a missing column are not modelled.
- The clock. The `backup_table` time stamp is a parameter.
- The `print` notices of the console copy, and the texts of the exceptions.
- Float values are opaque bit patterns compared by bits. Python's numeric `==` across kinds and signs of zero is not modelled. `1 == 1.0`, `True == 1.0` and `-0.0 == 0.0` are true in Python but false under `PyEq`. `nan == nan` is false in Python but true under `PyEq`. So key checks and conditions involving floats may disagree with the source.
- Row values are JSON scalars only. Nested lists or objects in a row are not modelled.
- Rows that are not objects, and object files with odd members. The model's `Json` type cannot represent these documents, so what the source does with them is not captured:
  - A desktop legacy list whose first element is not an object. The source stores the list as the table and then crashes with AttributeError while inferring the schema (maestrodatabase_gui.py:51-54). The table is replaced and the schema is left as it was.
  - A desktop legacy list whose later elements are not objects. The source loads it, taking the schema from the first row.
  - A desktop object whose `"schema"` member is not an object. The source crashes in `.items()` (maestrodatabase_gui.py:63-65) before changing anything.
  - A desktop object whose `"rows"` member is not a list. The source does not crash: it sets the schema and stores that value as the table (maestrodatabase_gui.py:70-71).
  - The console `load_table` stores any of these verbatim, without crashing (maestrodatabase_terminal.py:55).
- A schema type is one of int, float, str, bool or none. Other Python types used as schema types are not modelled.
- Aliasing. `insert` stores the caller's dict itself, and `select` returns the table's own dicts. Later changes made through those references reach the table. The model treats rows as values. For the same reason, a dict inserted twice and then updated is updated once per copy in the model.
- TerminalEngine.Database.LoadTable: a file holding JSON that is not a list is stored verbatim as the table by the source. The model refuses it with `NotARowList` instead, because a table that is not a row list has no meaning in the model.
