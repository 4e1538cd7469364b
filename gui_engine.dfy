/** The storage engine of the desktop application (`MDB` in maestrodatabase_gui.py):
    an in-memory registry of named tables, their optional schemas and a one-slot rollback
    snapshot per table, saved after every change as a {"schema", "rows"} document. */
module GuiEngine {
  import opened Values
  import opened Results
  import opened Schemas
  import opened Storage
  import Rows
  import Codec
  import Paths
  import Csv

  class Database {
    const folder: string
    const extension: string
    const disk: Disk
    var tables: map<string, seq<Record>>
    var schemas: map<string, Schema>
    var transactions: map<string, seq<Record>>

    /** A schema is only ever bound to a live table. (A snapshot may outlive its table:
        `drop_table` leaves it in place.) */
    ghost predicate Valid()
      reads this
    {
      schemas.Keys <= tables.Keys
    }

    /** `os.makedirs(folder)` is not modelled: the disk is given. */
    constructor (folder: string, extension: string, disk: Disk)
      ensures Valid()
      ensures this.folder == folder && this.extension == extension && this.disk == disk
      ensures tables == map[] && schemas == map[] && transactions == map[]
    {
      this.folder := folder;
      this.extension := extension;
      this.disk := disk;
      tables := map[];
      schemas := map[];
      transactions := map[];
    }

    /** `_path`: the table's file. */
    function Path(name: string): string
    {
      Paths.Join(folder, name + extension)
    }

    /** `self.schemas.get(name, {})` */
    function SchemaOf(name: string): Schema
      reads this
    {
      if name in schemas then schemas[name] else []
    }

    /** The document `_save` writes for a live table. */
    function Persisted(name: string): Json
      reads this
      requires name in tables
    {
      Codec.Encode(SchemaOf(name), tables[name])
    }

    /** `_save`: write the table's file; a name with no rows raises KeyError before
        anything is written. */
    method Save(name: string) returns (o: Outcome)
      modifies disk
      ensures name !in tables ==> o == Fail(UnknownTable(name)) && disk.files == old(disk.files)
      ensures name in tables ==>
        o == Pass && disk.files == old(disk.files)[Path(name) := JsonFile(Persisted(name))]
    {
      if name !in tables {
        return Fail(UnknownTable(name));
      }
      disk.files := disk.files[Path(name) := JsonFile(Persisted(name))];
      o := Pass;
    }

    /** `create_table`: a live name is refused; otherwise the table starts empty, the
        schema is bound only when it declares at least one column, and the file is written. */
    method CreateTable(name: string, schema: Schema) returns (o: Outcome)
      requires Valid()
      modifies this, disk
      ensures Valid()
      ensures name in old(tables) ==>
        o == Fail(TableExists(name)) && unchanged(this) && disk.files == old(disk.files)
      ensures name !in old(tables) ==>
        && o == Pass
        && tables == old(tables)[name := []]
        && schemas == (if schema != [] then old(schemas)[name := schema] else old(schemas))
        && transactions == old(transactions)
        && disk.files == old(disk.files)[Path(name) := JsonFile(Codec.Encode(schema, []))]
    {
      if name in tables {
        return Fail(TableExists(name));
      }
      tables := tables[name := []];
      if schema != [] {
        schemas := schemas[name := schema];
      }
      o := Save(name);
    }

    /** `load_table`: read the table's file. A missing file raises FileNotFoundError, an
        unparsable one a JSON error, a document of another shape "Unsupported"; all three
        leave memory as it was. Otherwise the rows and the schema are replaced. Loading
        does not need the table to be live and does not touch its snapshot. */
    method LoadTable(name: string) returns (o: Outcome)
      requires Valid()
      modifies this
      ensures Valid()
      ensures o.Fail? ==> unchanged(this)
      ensures Path(name) !in disk.files ==> o == Fail(NoSavedTable(name))
      ensures Path(name) in disk.files && !disk.files[Path(name)].JsonFile? ==>
        o == Fail(MalformedJson(name))
      ensures Path(name) in disk.files && disk.files[Path(name)].JsonFile? ==>
        match Codec.Decode(disk.files[Path(name)].doc)
        case Failure(e) => o == Fail(e)
        case Success(l) =>
          && o == Pass
          && tables == old(tables)[name := l.rows]
          && schemas == old(schemas)[name := l.schema]
          && transactions == old(transactions)
    {
      var path := Path(name);
      if path !in disk.files {
        return Fail(NoSavedTable(name));
      }
      var file := disk.files[path];
      if !file.JsonFile? {
        return Fail(MalformedJson(name));
      }
      var decoded := Codec.Decode(file.doc);
      if decoded.Failure? {
        return Fail(decoded.error);
      }
      tables := tables[name := decoded.value.rows];
      schemas := schemas[name := decoded.value.schema];
      o := Pass;
    }

    /** `drop_table`: the table's rows, schema and file go; a pending snapshot stays. */
    method DropTable(name: string) returns (o: Outcome)
      requires Valid()
      modifies this, disk
      ensures Valid()
      ensures name !in old(tables) ==>
        o == Fail(NoSuchTable(name)) && unchanged(this) && disk.files == old(disk.files)
      ensures name in old(tables) ==>
        && o == Pass
        && tables == old(tables) - {name}
        && schemas == old(schemas) - {name}
        && transactions == old(transactions)
        && disk.files == old(disk.files) - {Path(name)}
    {
      if name !in tables {
        return Fail(NoSuchTable(name));
      }
      tables := tables - {name};
      schemas := schemas - {name};
      disk.files := disk.files - {Path(name)};
      o := Pass;
    }

    /** `insert`: the table must be live, the record must pass validation, and with a key
        column no existing row may hold an equal key value; then the record is appended
        after all existing rows and the file is written. Errors are raised in that order. */
    method Insert(name: string, record: Record, keyColumn: Option<string>) returns (o: Outcome)
      requires Valid()
      modifies this, disk
      ensures Valid()
      ensures schemas == old(schemas) && transactions == old(transactions)
      ensures o.Fail? ==> unchanged(this) && disk.files == old(disk.files)
      ensures name !in old(tables) ==> o == Fail(NoSuchTable(name))
      ensures name in old(tables) && Validate(old(SchemaOf(name)), record).Fail? ==>
        o == Validate(old(SchemaOf(name)), record)
      ensures
        && name in old(tables) && Validate(old(SchemaOf(name)), record).Pass?
        && Rows.ChecksKey(keyColumn) && Rows.KeyTaken(old(tables[name]), record, keyColumn.value)
        ==> o == Fail(DuplicateEntry(keyColumn.value, Get(record, keyColumn.value)))
      ensures o.Pass? <==>
        && name in old(tables)
        && Validate(old(SchemaOf(name)), record).Pass?
        && !(Rows.ChecksKey(keyColumn) && Rows.KeyTaken(old(tables[name]), record, keyColumn.value))
      ensures o.Pass? ==>
        && tables == old(tables)[name := old(tables[name]) + [record]]
        && schemas == old(schemas) && transactions == old(transactions)
        && disk.files == old(disk.files)[Path(name) := JsonFile(Persisted(name))]
    {
      if name !in tables {
        return Fail(NoSuchTable(name));
      }
      var checked := Validate(SchemaOf(name), record);
      if checked.Fail? {
        return checked;
      }
      if Rows.ChecksKey(keyColumn) {
        var dup := Rows.FindDuplicate(tables[name], record, keyColumn.value);
        if dup {
          return Fail(DuplicateEntry(keyColumn.value, Get(record, keyColumn.value)));
        }
      }
      tables := tables[name := tables[name] + [record]];
      o := Save(name);
    }

    /** `update`: every row matching all conditions gets every update column set; the
        number of matching rows is returned and the file is written once. */
    method Update(name: string, conds: Record, updates: Record) returns (r: Result<nat>)
      requires Valid()
      modifies this, disk
      ensures Valid()
      ensures name !in old(tables) ==>
        r == Failure(NoSuchTable(name)) && unchanged(this) && disk.files == old(disk.files)
      ensures name in old(tables) ==>
        && r == Success(|Rows.Select(old(tables[name]), conds)|)
        && tables == old(tables)[name := Rows.UpdateRows(old(tables[name]), conds, updates)]
        && schemas == old(schemas) && transactions == old(transactions)
        && disk.files == old(disk.files)[Path(name) := JsonFile(Persisted(name))]
    {
      if name !in tables {
        return Failure(NoSuchTable(name));
      }
      var updated, count := Rows.UpdateScan(tables[name], conds, updates);
      tables := tables[name := updated];
      var saved := Save(name);
      r := Success(count);
    }

    /** `delete`: a condition named `self` or `table_name` is refused before anything else.
        Otherwise only the rows failing some condition stay, in their order; the number of
        rows removed (old length minus new length) is returned and the file is written. */
    method Delete(name: string, conds: Record) returns (r: Result<nat>)
      requires Valid()
      modifies this, disk
      ensures Valid()
      ensures schemas == old(schemas) && transactions == old(transactions)
      ensures Rows.NamesParameter(conds) ==>
        r == Failure(ParameterClash) && unchanged(this) && disk.files == old(disk.files)
      ensures !Rows.NamesParameter(conds) && name !in old(tables) ==>
        r == Failure(NoSuchTable(name)) && unchanged(this) && disk.files == old(disk.files)
      ensures !Rows.NamesParameter(conds) && name in old(tables) ==>
        && r == Success(|Rows.Select(old(tables[name]), conds)|)
        && tables == old(tables)[name := Rows.Keep(old(tables[name]), conds)]
        && schemas == old(schemas) && transactions == old(transactions)
        && disk.files == old(disk.files)[Path(name) := JsonFile(Persisted(name))]
    {
      if Rows.NamesParameter(conds) {
        return Failure(ParameterClash);
      }
      if name !in tables {
        return Failure(NoSuchTable(name));
      }
      var originalLen := |tables[name]|;
      Rows.SelectKeepPartition(tables[name], conds);
      tables := tables[name := Rows.Keep(tables[name], conds)];
      var deleted := originalLen - |tables[name]|;
      var saved := Save(name);
      r := Success(deleted);
    }

    /** `backup_table`: the saved document of the table is written to the table's path
        followed by ".backup." and the time stamp (the clock reading is a parameter). */
    method BackupTable(name: string, stamp: string) returns (o: Outcome)
      modifies disk
      ensures name !in tables ==> o == Fail(NoSuchTable(name)) && disk.files == old(disk.files)
      ensures name in tables ==>
        && o == Pass
        && disk.files == old(disk.files)[Path(name) + ".backup." + stamp := JsonFile(Persisted(name))]
    {
      if name !in tables {
        return Fail(NoSuchTable(name));
      }
      disk.files := disk.files[Path(name) + ".backup." + stamp := JsonFile(Persisted(name))];
      o := Pass;
    }

    /** `export_csv`: an empty table writes nothing; otherwise the file gets the first
        row's keys as header and the rows under it (see Csv.Export). */
    method ExportCsv(name: string, filePath: string) returns (o: Outcome)
      modifies disk
      ensures name !in tables ==> o == Fail(NoSuchTable(name)) && disk.files == old(disk.files)
      ensures name in tables && tables[name] == [] ==> o == Pass && disk.files == old(disk.files)
      ensures name in tables && tables[name] != [] ==>
        && disk.files == old(disk.files)[filePath := Csv.Export(tables[name]).0]
        && o == Csv.Export(tables[name]).1
    {
      if name !in tables {
        return Fail(NoSuchTable(name));
      }
      if tables[name] == [] {
        return Pass;
      }
      var written := Csv.Export(tables[name]);
      disk.files := disk.files[filePath := written.0];
      o := written.1;
    }

    /** `begin_transaction`: a copy of the live table's rows fills its snapshot slot,
        replacing any earlier snapshot. Rows are values, so later changes to the table
        never reach the copy (the deep copy). */
    method BeginTransaction(name: string) returns (o: Outcome)
      requires Valid()
      modifies this
      ensures Valid()
      ensures name !in old(tables) ==> o == Fail(NoSuchTable(name)) && unchanged(this)
      ensures name in old(tables) ==>
        && o == Pass
        && transactions == old(transactions)[name := old(tables[name])]
        && tables == old(tables) && schemas == old(schemas)
    {
      if name !in tables {
        return Fail(NoSuchTable(name));
      }
      transactions := transactions[name := tables[name]];
      o := Pass;
    }

    /** `rollback`: a pending snapshot becomes the table's rows and leaves the slot; the
        file is not written. Without a snapshot nothing happens. */
    method Rollback(name: string)
      requires Valid()
      modifies this
      ensures Valid()
      ensures name !in old(transactions) ==> unchanged(this)
      ensures name in old(transactions) ==>
        && tables == old(tables)[name := old(transactions[name])]
        && transactions == old(transactions) - {name}
        && schemas == old(schemas)
    {
      if name in transactions {
        tables := tables[name := transactions[name]];
        transactions := transactions - {name};
      }
    }

    /** `commit`: a pending snapshot is discarded and the table saved. If the table was
        dropped meanwhile, the slot is still emptied and the save raises KeyError. Without
        a snapshot nothing happens. */
    method Commit(name: string) returns (o: Outcome)
      requires Valid()
      modifies this, disk
      ensures Valid()
      ensures name !in old(transactions) ==>
        o == Pass && unchanged(this) && disk.files == old(disk.files)
      ensures name in old(transactions) ==>
        && transactions == old(transactions) - {name}
        && tables == old(tables) && schemas == old(schemas)
        && (name in tables ==>
              o == Pass && disk.files == old(disk.files)[Path(name) := JsonFile(Persisted(name))])
        && (name !in tables ==> o == Fail(UnknownTable(name)) && disk.files == old(disk.files))
    {
      if name !in transactions {
        return Pass;
      }
      transactions := transactions - {name};
      o := Save(name);
    }
  }

  /** Saving a table and loading it back restores its rows exactly and its schema with
      bool columns untyped; the snapshot slot is not involved. */
  method SaveThenLoad(db: Database, name: string)
    requires db.Valid() && name in db.tables
    modifies db, db.disk
    ensures db.Valid()
    ensures db.tables == old(db.tables) && db.transactions == old(db.transactions)
    ensures db.schemas == old(db.schemas)[name := Codec.Degrade(old(db.SchemaOf(name)))]
  {
    var saved := db.Save(name);
    Codec.RoundTrip(db.SchemaOf(name), db.tables[name]);
    var loaded := db.LoadTable(name);
  }

  /** Writes made inside a transaction are undone by rollback, and a second rollback is a
      no-op. The file is left as the last write made it: rollback does not save. */
  method RollbackUndoesWrites(db: Database, name: string, record: Record, conds: Record)
    requires db.Valid() && name in db.tables
    modifies db, db.disk
    ensures db.Valid()
    ensures db.tables == old(db.tables) && db.schemas == old(db.schemas)
    ensures db.transactions == old(db.transactions) - {name}
  {
    ghost var before := db.tables[name];
    var begun := db.BeginTransaction(name);
    assert db.transactions[name] == before;
    var inserted := db.Insert(name, record, None);
    assert db.transactions[name] == before && name in db.tables;
    var deleted := db.Delete(name, conds);
    assert db.transactions[name] == before;
    db.Rollback(name);
    assert db.tables == old(db.tables);
    db.Rollback(name);
  }

  /** Dropping a table inside a transaction and then rolling back brings its rows back,
      but not its schema and not its file. */
  method DropThenRollback(db: Database, name: string)
    requires db.Valid() && name in db.tables
    modifies db, db.disk
    ensures db.Valid()
    ensures name in db.tables && db.tables[name] == old(db.tables[name])
    ensures name !in db.schemas && name !in db.transactions
    ensures db.Path(name) !in db.disk.files
  {
    var begun := db.BeginTransaction(name);
    var dropped := db.DropTable(name);
    db.Rollback(name);
  }
}
