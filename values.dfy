/** Column values, records and the two pieces of Python semantics the engine leans on:
    `record.get(col)` answering None for an absent column, and `==` treating
    True and 1 (False and 0) as equal. */
module Values {

  /** The JSON scalars a row can hold after `json.load`. Floats are opaque: the model only
      ever compares two of them for identity and never does arithmetic on them. */
  datatype Value =
    | Int(i: int)
    | Float(bits: int)
    | Str(s: string)
    | Bool(b: bool)
    | Null

  /** The value kinds a schema can declare; `KAny` stands for a column whose declared type
      is None, which switches the type check off. */
  datatype Kind = KInt | KFloat | KStr | KBool | KAny

  /** `isinstance(v, dtype)` for the declared kinds. In Python `bool` is a subclass of `int`,
      so a Bool is an instance of int (but an Int is not an instance of bool). */
  predicate IsInstance(v: Value, k: Kind)
  {
    match k
    case KInt => v.Int? || v.Bool?
    case KFloat => v.Float?
    case KStr => v.Str?
    case KBool => v.Bool?
    case KAny => true
  }

  /** One column of a row. A record is a Python dict: its fields in insertion order. */
  datatype Field = Field(col: string, val: Value)

  type Record = seq<Field>

  /** The column names of a record, in order (`record.keys()`). */
  function Cols(r: Record): (cs: seq<string>)
    ensures |cs| == |r|
    ensures forall i :: 0 <= i < |r| ==> cs[i] == r[i].col
  {
    if r == [] then [] else [r[0].col] + Cols(r[1..])
  }

  /** `col in record` */
  predicate Has(r: Record, col: string)
  {
    r != [] && (r[0].col == col || Has(r[1..], col))
  }

  /** A dict never holds the same key twice. */
  predicate IsDict(r: Record)
  {
    forall i, j :: 0 <= i < j < |r| ==> r[i].col != r[j].col
  }

  /** `record.get(col)`: the column's value, or None when the column is absent. */
  function Get(r: Record, col: string): Value
  {
    if r == [] then Null
    else if r[0].col == col then r[0].val
    else Get(r[1..], col)
  }

  /** `record[col] = v`: an existing column keeps its place and takes the new value,
      a new column goes last. */
  function Set(r: Record, col: string, v: Value): (r': Record)
    ensures Get(r', col) == v
    ensures forall d :: d != col ==> Get(r', d) == Get(r, d)
    ensures forall d :: Has(r', d) <==> d == col || Has(r, d)
  {
    if r == [] then [Field(col, v)]
    else if r[0].col == col then [Field(col, v)] + r[1..]
    else
      var rest := Set(r[1..], col, v);
      assert ([r[0]] + rest)[1..] == rest;
      [r[0]] + rest
  }

  /** Assigning to an existing column keeps the column order; a new column goes last. */
  lemma {:induction false} SetKeepsOrder(r: Record, col: string, v: Value)
    ensures Has(r, col) ==> Cols(Set(r, col, v)) == Cols(r)
    ensures !Has(r, col) ==> Cols(Set(r, col, v)) == Cols(r) + [col]
  {
    if r != [] && r[0].col != col {
      var rest := Set(r[1..], col, v);
      assert ([r[0]] + rest)[1..] == rest;
      SetKeepsOrder(r[1..], col, v);
    } else if r != [] {
      assert ([Field(col, v)] + r[1..])[1..] == r[1..];
    }
  }

  /** `for uk, uv in updates.items(): record[uk] = uv` */
  function ApplyUpdates(r: Record, updates: Record): (r': Record)
    ensures forall d :: Has(r', d) <==> Has(r, d) || Has(updates, d)
    ensures forall d :: !Has(updates, d) ==> Get(r', d) == Get(r, d)
    decreases |updates|
  {
    if updates == [] then r
    else ApplyUpdates(Set(r, updates[0].col, updates[0].val), updates[1..])
  }

  /** The integer a numeric value stands for; True is 1 and False is 0. */
  function AsInt(v: Value): int
    requires v.Int? || v.Bool?
  {
    if v.Int? then v.i else if v.b then 1 else 0
  }

  /** Python's `==` on two values: Int and Bool compare as numbers, everything else
      compares structurally. */
  predicate PyEq(a: Value, b: Value)
  {
    if (a.Int? || a.Bool?) && (b.Int? || b.Bool?) then AsInt(a) == AsInt(b) else a == b
  }

  /** `all(record.get(k) == v for k, v in conditions.items())` */
  predicate Matches(r: Record, conds: Record)
  {
    forall i :: 0 <= i < |conds| ==> PyEq(Get(r, conds[i].col), conds[i].val)
  }

  /** In a dict the first key does not occur again further on. */
  lemma {:induction false} DictTailLacksHead(r: Record)
    requires IsDict(r) && r != []
    ensures !Has(r[1..], r[0].col)
  {
    if Has(r[1..], r[0].col) {
      var k := IndexOf(r[1..], r[0].col);
      assert false;
    }
  }

  /** The position of a column that a record has. */
  function IndexOf(r: Record, col: string): (k: nat)
    requires Has(r, col)
    ensures k < |r| && r[k].col == col
  {
    if r[0].col == col then 0 else 1 + IndexOf(r[1..], col)
  }

  /** In a dict, looking up the column stored at position i gives the value stored there. */
  lemma {:induction false} GetAt(r: Record, i: nat)
    requires IsDict(r) && i < |r|
    ensures Has(r, r[i].col) && Get(r, r[i].col) == r[i].val
  {
    if i > 0 {
      assert r[1..][i - 1] == r[i];
      GetAt(r[1..], i - 1);
    }
  }

  /** Reading a column from two records written one after the other: the first one wins. */
  lemma {:induction false} GetConcat(a: Record, b: Record, col: string)
    ensures Has(a + b, col) <==> Has(a, col) || Has(b, col)
    ensures Get(a + b, col) == if Has(a, col) then Get(a, col) else Get(b, col)
  {
    if a == [] {
      assert a + b == b;
    } else {
      assert (a + b)[1..] == a[1..] + b;
      GetConcat(a[1..], b, col);
    }
  }

  /** Applying a dict of updates leaves every updated column holding its new value. */
  lemma {:induction false} UpdatedValue(r: Record, updates: Record, col: string)
    requires IsDict(updates) && Has(updates, col)
    ensures Get(ApplyUpdates(r, updates), col) == Get(updates, col)
    decreases |updates|
  {
    var r1 := Set(r, updates[0].col, updates[0].val);
    if updates[0].col == col {
      DictTailLacksHead(updates);
    } else {
      assert Has(updates[1..], col);
      UpdatedValue(r1, updates[1..], col);
    }
  }

  /** Python's `==` on values is an equivalence, so "equal key" is a well-behaved relation. */
  lemma PyEqIsEquivalence(a: Value, b: Value, c: Value)
    ensures PyEq(a, a)
    ensures PyEq(a, b) ==> PyEq(b, a)
    ensures PyEq(a, b) && PyEq(b, c) ==> PyEq(a, c)
  {
  }
}
