/** The disk as the engine sees it: files keyed by path, each holding either a JSON
    document (as `json.load` would return it), a CSV export or nothing at all. Text encoding, indentation
    and the bytes on disk are not modelled. */
module Storage {
  import opened Values
  import opened Results

  /** The top-level shapes a table file can hold after parsing:
      a bare list of row objects (the legacy and the terminal format), an object of which
      only the "schema" and "rows" members are read (None when the member is missing),
      or any other JSON value. */
  datatype Json =
    | JList(items: seq<Record>)
    | JObject(schema: Option<Record>, rows: Option<seq<Record>>)
    | JScalar(v: Value)

  /** A CSV export is its header and the rows written under it. An empty file is what
      `open(path, "w")` leaves when the write that should follow raises. */
  datatype File =
    | JsonFile(doc: Json)
    | CsvFile(header: seq<string>, rows: seq<Record>)
    | EmptyFile

  /** The data directory and everything else the engine writes to. */
  class Disk {
    var files: map<string, File>

    constructor (files: map<string, File>)
      ensures this.files == files
    {
      this.files := files;
    }
  }
}
