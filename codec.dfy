/** The table file format of the desktop engine: what `_save` writes (an object with
    "schema" and "rows") and how `load_table` reads back both that shape and the legacy
    bare row list. */
module Codec {
  import opened Values
  import opened Results
  import opened Schemas
  import opened Storage

  /** `v.__name__ if v else None`: the type name written for a declared kind. */
  function KindName(k: Kind): Value
  {
    match k
    case KInt => Str("int")
    case KFloat => Str("float")
    case KStr => Str("str")
    case KBool => Str("bool")
    case KAny => Null
  }

  /** The kind read back for a stored type name: only "int", "float" and "str" are
      recognised, everything else (including "bool" and null) reads as no type. */
  function ParseKind(v: Value): Kind
  {
    if v == Str("int") then KInt
    else if v == Str("float") then KFloat
    else if v == Str("str") then KStr
    else KAny
  }

  /** The schema as it is stored: column name to type name, in declaration order. */
  function EncodeSchema(schema: Schema): Record
  {
    seq(|schema|, i requires 0 <= i < |schema| => Field(schema[i].name, KindName(schema[i].kind)))
  }

  function DecodeSchema(stored: Record): Schema
  {
    seq(|stored|, i requires 0 <= i < |stored| => Column(stored[i].col, ParseKind(stored[i].val)))
  }

  /** The document `_save` (and `backup_table`) writes for a table. */
  function Encode(schema: Schema, rows: seq<Record>): Json
  {
    JObject(Some(EncodeSchema(schema)), Some(rows))
  }

  /** The kind inferred from a value of a legacy file's first row. A Bool is an int in
      Python, so it infers int. */
  function InferKind(v: Value): Kind
  {
    if v.Int? || v.Bool? then KInt
    else if v.Float? then KFloat
    else if v.Str? then KStr
    else KAny
  }

  /** The schema inferred from a legacy file's first row: one column per field, in order. */
  function Infer(first: Record): Schema
  {
    seq(|first|, i requires 0 <= i < |first| => Column(first[i].col, InferKind(first[i].val)))
  }

  /** What a successful load puts in memory. */
  datatype Loaded = Loaded(schema: Schema, rows: seq<Record>)

  /** `load_table` once the file is parsed: a list is taken verbatim as the rows with a
      schema inferred from its first row (empty for an empty list), an object gives its
      "schema" (default empty) and "rows" (default empty), and any other shape is refused. */
  function Decode(doc: Json): Result<Loaded>
  {
    match doc
    case JList(rows) => Success(Loaded(if rows == [] then [] else Infer(rows[0]), rows))
    case JObject(schema, rows) => Success(Loaded(DecodeSchema(schema.GetOr([])), rows.GetOr([])))
    case JScalar(_) => Failure(UnsupportedFormat)
  }

  /** What a schema becomes after a save and a load: bool columns lose their type. */
  function Degrade(schema: Schema): Schema
  {
    seq(|schema|, i requires 0 <= i < |schema| =>
      Column(schema[i].name, if schema[i].kind == KBool then KAny else schema[i].kind))
  }

  /** Loading only fails on a document that is neither a list nor an object. */
  lemma DecodeFailsOnlyOnScalars(doc: Json)
    ensures Decode(doc).Failure? <==> doc.JScalar?
    ensures Decode(doc).Failure? ==> Decode(doc).error == UnsupportedFormat
  {
  }

  /** Save then load gives back the rows exactly and the schema with bool columns untyped. */
  lemma RoundTrip(schema: Schema, rows: seq<Record>)
    ensures Decode(Encode(schema, rows)) == Success(Loaded(Degrade(schema), rows))
  {
    var stored := EncodeSchema(schema);
    assert DecodeSchema(stored) == Degrade(schema) by {
      forall i | 0 <= i < |schema|
        ensures DecodeSchema(stored)[i] == Degrade(schema)[i]
      {
        assert ParseKind(KindName(schema[i].kind)) ==
          (if schema[i].kind == KBool then KAny else schema[i].kind);
      }
    }
  }

  /** A schema over int, float, str and untyped columns round-trips exactly. */
  lemma ExactRoundTrip(schema: Schema, rows: seq<Record>)
    requires forall i :: 0 <= i < |schema| ==> schema[i].kind != KBool
    ensures Decode(Encode(schema, rows)) == Success(Loaded(schema, rows))
  {
    RoundTrip(schema, rows);
    assert Degrade(schema) == schema;
  }

  /** After one save and load the state is stable: saving and loading it again changes nothing. */
  lemma SecondRoundTripExact(schema: Schema, rows: seq<Record>)
    ensures Decode(Encode(Degrade(schema), rows)) == Success(Loaded(Degrade(schema), rows))
  {
    ExactRoundTrip(Degrade(schema), rows);
  }

  /** The inferred schema always admits the row it was inferred from. */
  lemma InferAdmitsFirstRow(first: Record)
    requires IsDict(first)
    ensures Validate(Infer(first), first) == Pass
  {
    var schema := Infer(first);
    forall i | 0 <= i < |schema|
      ensures Conforms(first, schema[i])
    {
      GetAt(first, i);
    }
  }

  /** A legacy file migrates cleanly: once loaded, saving and loading again reproduces the
      loaded state exactly (inference never yields a bool column). */
  lemma LegacyMigrates(rows: seq<Record>)
    ensures Decode(JList(rows)).Success?
    ensures Decode(Encode(Decode(JList(rows)).value.schema, rows)) == Decode(JList(rows))
  {
    var l := Decode(JList(rows)).value;
    forall i | 0 <= i < |l.schema|
      ensures l.schema[i].kind != KBool
    {
    }
    ExactRoundTrip(l.schema, rows);
  }
}
