/** Outcomes of engine operations. Each Python exception the engine raises becomes an
    `Error` value returned to the caller. */
module Results {
  import opened Values

  datatype Option<T> = None | Some(value: T) {
    function GetOr(default: T): T
    {
      match this
      case Some(v) => v
      case None => default
    }
  }

  datatype Error =
    | TableExists(table: string)            // create_table on a live name (ValueError)
    | NoSuchTable(table: string)            // _check_table_exists (ValueError)
    | MissingColumn(col: string)            // _validate_record, declared column absent (ValueError)
    | WrongType(col: string, expected: Kind) // _validate_record, wrong value type (TypeError)
    | DuplicateEntry(col: string, val: Value) // insert with key_column (ValueError)
    | UnsupportedFormat                     // load_table on a JSON document of another shape
    | NoSavedTable(table: string)           // load_table without a file (FileNotFoundError)
    | MalformedJson(table: string)          // load_table on a file json.load cannot parse
    | NotARowList(table: string)            // terminal load_table on a file that is not a row list
    | UnknownTable(table: string)           // _save of a name with no rows (KeyError)
    | StrayField                            // csv.DictWriter: a row has a field outside the header
    | ParameterClash                        // select/delete: a condition named `self` or `table_name` (TypeError)

  datatype Outcome = Pass | Fail(error: Error)

  datatype Result<T> = Success(value: T) | Failure(error: Error)
}
