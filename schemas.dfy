/** Table schemas and record validation (`MDB._validate_record`). */
module Schemas {
  import opened Values
  import opened Results

  /** One declared column; a schema is a dict from column name to declared type, kept in
      insertion order because validation walks it in that order. */
  datatype Column = Column(name: string, kind: Kind)

  type Schema = seq<Column>

  /** The check one declared column makes: the column is present, and its value is None,
      or the declared type is None, or the value is an instance of the declared type. */
  predicate Conforms(record: Record, c: Column)
  {
    && Has(record, c.name)
    && (c.kind == KAny || Get(record, c.name) == Null || IsInstance(Get(record, c.name), c.kind))
  }

  /** The exception raised for a column that does not conform. */
  function Violation(record: Record, c: Column): Error
  {
    if !Has(record, c.name) then MissingColumn(c.name) else WrongType(c.name, c.kind)
  }

  /** `_validate_record` against one schema: the record passes exactly when every declared
      column conforms, and a failing record is reported by the first column, in declaration
      order, that does not. Undeclared columns in the record are never looked at. */
  function Validate(schema: Schema, record: Record): (o: Outcome)
    ensures o.Pass? <==> forall i :: 0 <= i < |schema| ==> Conforms(record, schema[i])
    ensures o.Fail? ==>
      exists i :: 0 <= i < |schema|
        && !Conforms(record, schema[i])
        && (forall j :: 0 <= j < i ==> Conforms(record, schema[j]))
        && o.error == Violation(record, schema[i])
  {
    if schema == [] then Pass
    else if !Conforms(record, schema[0]) then Fail(Violation(record, schema[0]))
    else
      var rest := Validate(schema[1..], record);
      assert forall i :: 1 <= i < |schema| ==> schema[i] == schema[1..][i - 1];
      rest
  }

  /** Is the column name declared? */
  predicate Declares(schema: Schema, col: string)
  {
    exists i :: 0 <= i < |schema| && schema[i].name == col
  }

  /** Extra, undeclared columns never change the verdict: a record with more columns
      appended validates exactly as the record without them. */
  lemma {:induction false} ExtraColumnsTolerated(schema: Schema, record: Record, extra: Record)
    requires forall i :: 0 <= i < |extra| ==> !Declares(schema, extra[i].col)
    ensures Validate(schema, record + extra) == Validate(schema, record)
  {
    if schema != [] {
      var c := schema[0];
      GetConcat(record, extra, c.name);
      if Has(extra, c.name) {
        var k := IndexOf(extra, c.name);
        assert false;
      }
      assert Conforms(record + extra, c) == Conforms(record, c);
      ExtraColumnsTolerated(schema[1..], record, extra);
    }
  }
}
