/** The storage engine of the console application (`MDB` in maestrodatabase_terminal.py):
    the same registry of tables, schemas and rollback snapshots, plus `select`, saving each
    table as a bare list of rows and never persisting its schema. */
module TerminalEngine {
  import opened Values
  import opened Results
  import opened Schemas
  import opened Storage
  import Rows
  import Paths
  import Csv

  class Database {
    const folder: string
    const extension: string
    const disk: Disk
    var tables: map<string, seq<Record>>
    var schemas: map<string, Schema>
    var transactions: map<string, seq<Record>>

    /** A schema is only ever bound to a live table. */
    ghost predicate Valid()
      reads this
    {
      schemas.Keys <= tables.Keys
    }

    /** `os.makedirs(folder)` is not modelled: the disk is given. */
    constructor (folder: string, extension: string, disk: Disk)
      ensures Valid()
      ensures this.folder == folder && this.extension == extension && this.disk == disk
      ensures tables == map[] && schemas == map[] && transactions == map[]
    {
      this.folder := folder;
      this.extension := extension;
      this.disk := disk;
      tables := map[];
      schemas := map[];
      transactions := map[];
    }

    /** `_path`: the table's file. */
    function Path(name: string): string
    {
      Paths.Join(folder, name + extension)
    }

    /** `self.schemas.get(name, {})`: validation is skipped for a table without a schema,
        which is the same as validating against no columns. */
    function SchemaOf(name: string): Schema
      reads this
    {
      if name in schemas then schemas[name] else []
    }

    /** `_save`: the table's file holds just its row list. The file is opened for writing
        before the rows are looked up, so a name with no rows leaves an empty file behind
        and then raises KeyError. */
    method Save(name: string) returns (o: Outcome)
      modifies disk
      ensures name !in tables ==>
        o == Fail(UnknownTable(name)) && disk.files == old(disk.files)[Path(name) := EmptyFile]
      ensures name in tables ==>
        o == Pass && disk.files == old(disk.files)[Path(name) := JsonFile(JList(tables[name]))]
    {
      if name !in tables {
        disk.files := disk.files[Path(name) := EmptyFile];
        return Fail(UnknownTable(name));
      }
      disk.files := disk.files[Path(name) := JsonFile(JList(tables[name]))];
      o := Pass;
    }

    /** `create_table`: a live name is refused; otherwise the table starts empty, the
        schema is bound only when it declares at least one column, and the (empty) row list
        is written. */
    method CreateTable(name: string, schema: Schema) returns (o: Outcome)
      requires Valid()
      modifies this, disk
      ensures Valid()
      ensures name in old(tables) ==>
        o == Fail(TableExists(name)) && unchanged(this) && disk.files == old(disk.files)
      ensures name !in old(tables) ==>
        && o == Pass
        && tables == old(tables)[name := []]
        && schemas == (if schema != [] then old(schemas)[name := schema] else old(schemas))
        && transactions == old(transactions)
        && disk.files == old(disk.files)[Path(name) := JsonFile(JList([]))]
    {
      if name in tables {
        return Fail(TableExists(name));
      }
      tables := tables[name := []];
      if schema != [] {
        schemas := schemas[name := schema];
      }
      o := Save(name);
    }

    /** `load_table`: the stored row list replaces the table's rows; schemas and snapshots
        are not touched. A missing file raises and changes nothing. */
    method LoadTable(name: string) returns (o: Outcome)
      requires Valid()
      modifies this
      ensures Valid()
      ensures o.Fail? ==> unchanged(this)
      ensures Path(name) !in disk.files ==> o == Fail(NoSavedTable(name))
      ensures Path(name) in disk.files && !disk.files[Path(name)].JsonFile? ==>
        o == Fail(MalformedJson(name))
      ensures Path(name) in disk.files && disk.files[Path(name)].JsonFile? && disk.files[Path(name)].doc.JList? ==>
        && o == Pass
        && tables == old(tables)[name := disk.files[Path(name)].doc.items]
        && schemas == old(schemas) && transactions == old(transactions)
      ensures Path(name) in disk.files && disk.files[Path(name)].JsonFile? && !disk.files[Path(name)].doc.JList? ==>
        o == Fail(NotARowList(name))
    {
      var path := Path(name);
      if path !in disk.files {
        return Fail(NoSavedTable(name));
      }
      var file := disk.files[path];
      if !file.JsonFile? {
        return Fail(MalformedJson(name));
      }
      if !file.doc.JList? {
        return Fail(NotARowList(name));
      }
      tables := tables[name := file.doc.items];
      o := Pass;
    }

    /** `drop_table`: the table's rows, schema and file go; a pending snapshot stays. */
    method DropTable(name: string) returns (o: Outcome)
      requires Valid()
      modifies this, disk
      ensures Valid()
      ensures name !in old(tables) ==>
        o == Fail(NoSuchTable(name)) && unchanged(this) && disk.files == old(disk.files)
      ensures name in old(tables) ==>
        && o == Pass
        && tables == old(tables) - {name}
        && schemas == old(schemas) - {name}
        && transactions == old(transactions)
        && disk.files == old(disk.files) - {Path(name)}
    {
      if name !in tables {
        return Fail(NoSuchTable(name));
      }
      tables := tables - {name};
      schemas := schemas - {name};
      disk.files := disk.files - {Path(name)};
      o := Pass;
    }

    /** `insert`: the table must be live, the record must pass validation, and with a key
        column no existing row may hold an equal key value; then the record becomes the
        last row and the file is written. */
    method Insert(name: string, record: Record, keyColumn: Option<string>) returns (o: Outcome)
      requires Valid()
      modifies this, disk
      ensures Valid()
      ensures schemas == old(schemas) && transactions == old(transactions)
      ensures o.Fail? ==> unchanged(this) && disk.files == old(disk.files)
      ensures name !in old(tables) ==> o == Fail(NoSuchTable(name))
      ensures name in old(tables) && Validate(old(SchemaOf(name)), record).Fail? ==>
        o == Validate(old(SchemaOf(name)), record)
      ensures
        && name in old(tables) && Validate(old(SchemaOf(name)), record).Pass?
        && Rows.ChecksKey(keyColumn) && Rows.KeyTaken(old(tables[name]), record, keyColumn.value)
        ==> o == Fail(DuplicateEntry(keyColumn.value, Get(record, keyColumn.value)))
      ensures o.Pass? <==>
        && name in old(tables)
        && Validate(old(SchemaOf(name)), record).Pass?
        && !(Rows.ChecksKey(keyColumn) && Rows.KeyTaken(old(tables[name]), record, keyColumn.value))
      ensures o.Pass? ==>
        && tables == old(tables)[name := old(tables[name]) + [record]]
        && schemas == old(schemas) && transactions == old(transactions)
        && disk.files == old(disk.files)[Path(name) := JsonFile(JList(tables[name]))]
    {
      if name !in tables {
        return Fail(NoSuchTable(name));
      }
      var checked := Validate(SchemaOf(name), record);
      if checked.Fail? {
        return checked;
      }
      if Rows.ChecksKey(keyColumn) {
        var dup := Rows.FindDuplicate(tables[name], record, keyColumn.value);
        if dup {
          return Fail(DuplicateEntry(keyColumn.value, Get(record, keyColumn.value)));
        }
      }
      tables := tables[name := tables[name] + [record]];
      o := Save(name);
    }

    /** `select`: the rows matching every condition, collected in table order; empty
        conditions give every row. A condition named `self` or `table_name` is refused
        before anything else. Nothing changes. */
    method Select(name: string, conds: Record) returns (r: Result<seq<Record>>)
      ensures Rows.NamesParameter(conds) ==> r == Failure(ParameterClash)
      ensures !Rows.NamesParameter(conds) && name !in tables ==> r == Failure(NoSuchTable(name))
      ensures !Rows.NamesParameter(conds) && name in tables ==>
        r == Success(Rows.Select(tables[name], conds))
    {
      if Rows.NamesParameter(conds) {
        return Failure(ParameterClash);
      }
      if name !in tables {
        return Failure(NoSuchTable(name));
      }
      var rows := tables[name];
      var results := [];
      var i := 0;
      while i < |rows|
        invariant 0 <= i <= |rows|
        invariant results == Rows.Select(rows[..i], conds)
      {
        Rows.SelectAppend(rows[..i], [rows[i]], conds);
        assert rows[..i + 1] == rows[..i] + [rows[i]];
        if Matches(rows[i], conds) {
          results := results + [rows[i]];
        }
        i := i + 1;
      }
      assert rows[..i] == rows;
      r := Success(results);
    }

    /** `update`: every row matching all conditions gets every update column set; the row
        count does not change and the file is written once. Nothing is returned. */
    method Update(name: string, conds: Record, updates: Record) returns (o: Outcome)
      requires Valid()
      modifies this, disk
      ensures Valid()
      ensures name !in old(tables) ==>
        o == Fail(NoSuchTable(name)) && unchanged(this) && disk.files == old(disk.files)
      ensures name in old(tables) ==>
        && o == Pass
        && tables == old(tables)[name := Rows.UpdateRows(old(tables[name]), conds, updates)]
        && schemas == old(schemas) && transactions == old(transactions)
        && disk.files == old(disk.files)[Path(name) := JsonFile(JList(tables[name]))]
    {
      if name !in tables {
        return Fail(NoSuchTable(name));
      }
      var updated, count := Rows.UpdateScan(tables[name], conds, updates);
      tables := tables[name := updated];
      o := Save(name);
    }

    /** `delete`: a condition named `self` or `table_name` is refused before anything else.
        Otherwise only the rows failing some condition stay, in their order, so the table
        shrinks by the number of matching rows; the file is written. */
    method Delete(name: string, conds: Record) returns (o: Outcome)
      requires Valid()
      modifies this, disk
      ensures Valid()
      ensures schemas == old(schemas) && transactions == old(transactions)
      ensures Rows.NamesParameter(conds) ==>
        o == Fail(ParameterClash) && unchanged(this) && disk.files == old(disk.files)
      ensures !Rows.NamesParameter(conds) && name !in old(tables) ==>
        o == Fail(NoSuchTable(name)) && unchanged(this) && disk.files == old(disk.files)
      ensures !Rows.NamesParameter(conds) && name in old(tables) ==>
        && o == Pass
        && tables == old(tables)[name := Rows.Keep(old(tables[name]), conds)]
        && |tables[name]| == |old(tables[name])| - |Rows.Select(old(tables[name]), conds)|
        && schemas == old(schemas) && transactions == old(transactions)
        && disk.files == old(disk.files)[Path(name) := JsonFile(JList(tables[name]))]
    {
      if Rows.NamesParameter(conds) {
        return Fail(ParameterClash);
      }
      if name !in tables {
        return Fail(NoSuchTable(name));
      }
      Rows.SelectKeepPartition(tables[name], conds);
      tables := tables[name := Rows.Keep(tables[name], conds)];
      o := Save(name);
    }

    /** `backup_table`: the row list is written to the table's path followed by ".backup."
        and the time stamp (the clock reading is a parameter). */
    method BackupTable(name: string, stamp: string) returns (o: Outcome)
      modifies disk
      ensures name !in tables ==> o == Fail(NoSuchTable(name)) && disk.files == old(disk.files)
      ensures name in tables ==>
        && o == Pass
        && disk.files == old(disk.files)[Path(name) + ".backup." + stamp := JsonFile(JList(tables[name]))]
    {
      if name !in tables {
        return Fail(NoSuchTable(name));
      }
      disk.files := disk.files[Path(name) + ".backup." + stamp := JsonFile(JList(tables[name]))];
      o := Pass;
    }

    /** `export_csv`: an empty table writes nothing; otherwise the file gets the first
        row's keys as header and the rows under it (see Csv.Export). */
    method ExportCsv(name: string, filePath: string) returns (o: Outcome)
      modifies disk
      ensures name !in tables ==> o == Fail(NoSuchTable(name)) && disk.files == old(disk.files)
      ensures name in tables && tables[name] == [] ==> o == Pass && disk.files == old(disk.files)
      ensures name in tables && tables[name] != [] ==>
        && disk.files == old(disk.files)[filePath := Csv.Export(tables[name]).0]
        && o == Csv.Export(tables[name]).1
    {
      if name !in tables {
        return Fail(NoSuchTable(name));
      }
      if tables[name] == [] {
        return Pass;
      }
      var written := Csv.Export(tables[name]);
      disk.files := disk.files[filePath := written.0];
      o := written.1;
    }

    /** `begin_transaction`: a copy of the live table's rows fills its snapshot slot,
        replacing any earlier snapshot. */
    method BeginTransaction(name: string) returns (o: Outcome)
      requires Valid()
      modifies this
      ensures Valid()
      ensures name !in old(tables) ==> o == Fail(NoSuchTable(name)) && unchanged(this)
      ensures name in old(tables) ==>
        && o == Pass
        && transactions == old(transactions)[name := old(tables[name])]
        && tables == old(tables) && schemas == old(schemas)
    {
      if name !in tables {
        return Fail(NoSuchTable(name));
      }
      transactions := transactions[name := tables[name]];
      o := Pass;
    }

    /** `rollback`: a pending snapshot becomes the table's rows and leaves the slot, without
        saving; with none nothing changes (the source only prints a notice). */
    method Rollback(name: string)
      requires Valid()
      modifies this
      ensures Valid()
      ensures name !in old(transactions) ==> unchanged(this)
      ensures name in old(transactions) ==>
        && tables == old(tables)[name := old(transactions[name])]
        && transactions == old(transactions) - {name}
        && schemas == old(schemas)
    {
      if name in transactions {
        tables := tables[name := transactions[name]];
        transactions := transactions - {name};
      }
    }

    /** `commit`: a pending snapshot is discarded and the table saved. For a dropped table
        the slot is still emptied, and the save leaves an empty file and raises KeyError.
        With no snapshot nothing changes. */
    method Commit(name: string) returns (o: Outcome)
      requires Valid()
      modifies this, disk
      ensures Valid()
      ensures name !in old(transactions) ==>
        o == Pass && unchanged(this) && disk.files == old(disk.files)
      ensures name in old(transactions) ==>
        && transactions == old(transactions) - {name}
        && tables == old(tables) && schemas == old(schemas)
        && (name in tables ==>
              o == Pass && disk.files == old(disk.files)[Path(name) := JsonFile(JList(tables[name]))])
        && (name !in tables ==>
              o == Fail(UnknownTable(name)) && disk.files == old(disk.files)[Path(name) := EmptyFile])
    {
      if name !in transactions {
        return Pass;
      }
      transactions := transactions - {name};
      o := Save(name);
    }
  }

  /** Saving a table and loading it back gives the same rows; the schema stays in memory
      only, untouched by the load. */
  method SaveThenLoad(db: Database, name: string)
    requires db.Valid() && name in db.tables
    modifies db, db.disk
    ensures db.Valid()
    ensures db.tables == old(db.tables) && db.schemas == old(db.schemas)
    ensures db.transactions == old(db.transactions)
  {
    var saved := db.Save(name);
    var loaded := db.LoadTable(name);
  }

  /** Select after insert: the new record is the last row selected by any conditions it
      matches, and the rows selected before are still selected, in the same order. */
  method InsertThenSelect(db: Database, name: string, record: Record, conds: Record)
    returns (before: Result<seq<Record>>, inserted: Outcome, after: Result<seq<Record>>)
    requires db.Valid() && name in db.tables
    modifies db, db.disk
    ensures db.Valid()
    ensures Rows.NamesParameter(conds) ==> before == after == Failure(ParameterClash)
    ensures !Rows.NamesParameter(conds) ==> before.Success?
    ensures !Rows.NamesParameter(conds) && inserted.Pass? ==>
      after == Success(before.value + (if Matches(record, conds) then [record] else []))
    ensures inserted.Fail? ==> after == before
  {
    before := db.Select(name, conds);
    inserted := db.Insert(name, record, None);
    after := db.Select(name, conds);
    if !Rows.NamesParameter(conds) && inserted.Pass? {
      Rows.SelectAppend(old(db.tables[name]), [record], conds);
      assert Rows.Select([record], conds) == (if Matches(record, conds) then [record] else []);
    }
  }

  /** Committing a transaction whose table was dropped fails, but it leaves an empty file
      at the table's path, so a later load finds a file it cannot parse instead of no file. */
  method CommitAfterDrop(db: Database, name: string)
    returns (committed: Outcome, loaded: Outcome)
    requires db.Valid() && name in db.tables
    modifies db, db.disk
    ensures db.Valid()
    ensures committed == Fail(UnknownTable(name))
    ensures db.Path(name) in db.disk.files && db.disk.files[db.Path(name)] == EmptyFile
    ensures loaded == Fail(MalformedJson(name))
    ensures name !in db.tables && name !in db.transactions
  {
    var begun := db.BeginTransaction(name);
    var dropped := db.DropTable(name);
    committed := db.Commit(name);
    loaded := db.LoadTable(name);
  }
}
