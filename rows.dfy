/** What the engine's linear scans do to a table's row list: the equality-conjunction
    filter shared by select, update and delete, and the duplicate-key check of insert. */
module Rows {
  import opened Values
  import opened Results

  /** The rows matching every condition, in table order (what `select` returns). */
  function Select(rows: seq<Record>, conds: Record): (sel: seq<Record>)
    ensures |sel| <= |rows|
  {
    if rows == [] then []
    else (if Matches(rows[0], conds) then [rows[0]] else []) + Select(rows[1..], conds)
  }

  /** The rows failing some condition, in table order (what `delete` keeps). */
  function Keep(rows: seq<Record>, conds: Record): (kept: seq<Record>)
    ensures |kept| <= |rows|
  {
    if rows == [] then []
    else (if Matches(rows[0], conds) then [] else [rows[0]]) + Keep(rows[1..], conds)
  }

  /** Every matching row with the updates applied, every other row as it was. */
  function UpdateRows(rows: seq<Record>, conds: Record, updates: Record): seq<Record>
  {
    seq(|rows|, i requires 0 <= i < |rows| =>
      if Matches(rows[i], conds) then ApplyUpdates(rows[i], updates) else rows[i])
  }

  /** s keeps some of the elements of t, in the order t has them. */
  predicate IsSubseq(s: seq<Record>, t: seq<Record>)
  {
    if t == [] then s == []
    else IsSubseq(s, t[1..]) || (s != [] && s[0] == t[0] && IsSubseq(s[1..], t[1..]))
  }

  lemma {:induction false} SelectAppend(a: seq<Record>, b: seq<Record>, conds: Record)
    ensures Select(a + b, conds) == Select(a, conds) + Select(b, conds)
  {
    if a == [] {
      assert a + b == b;
    } else {
      assert (a + b)[1..] == a[1..] + b;
      SelectAppend(a[1..], b, conds);
    }
  }

  lemma {:induction false} KeepAppend(a: seq<Record>, b: seq<Record>, conds: Record)
    ensures Keep(a + b, conds) == Keep(a, conds) + Keep(b, conds)
  {
    if a == [] {
      assert a + b == b;
    } else {
      assert (a + b)[1..] == a[1..] + b;
      KeepAppend(a[1..], b, conds);
    }
  }

  /** A row is selected exactly when it is in the table and matches every condition. */
  lemma {:induction false} SelectMembers(rows: seq<Record>, conds: Record)
    ensures forall r :: r in Select(rows, conds) <==> r in rows && Matches(r, conds)
  {
    if rows != [] {
      SelectMembers(rows[1..], conds);
      assert rows == [rows[0]] + rows[1..];
    }
  }

  /** A row is kept by delete exactly when it is in the table and fails some condition. */
  lemma {:induction false} KeepMembers(rows: seq<Record>, conds: Record)
    ensures forall r :: r in Keep(rows, conds) <==> r in rows && !Matches(r, conds)
  {
    if rows != [] {
      KeepMembers(rows[1..], conds);
      assert rows == [rows[0]] + rows[1..];
    }
  }

  /** Select and Keep split the table: together they hold every row exactly once, so
      delete removes as many rows as select would return. */
  lemma {:induction false} SelectKeepPartition(rows: seq<Record>, conds: Record)
    ensures multiset(Select(rows, conds)) + multiset(Keep(rows, conds)) == multiset(rows)
    ensures |Select(rows, conds)| + |Keep(rows, conds)| == |rows|
  {
    if rows != [] {
      SelectKeepPartition(rows[1..], conds);
      assert rows == [rows[0]] + rows[1..];
    }
  }

  /** Empty conditions select every row and delete every row. */
  lemma {:induction false} EmptyConditionsMatchAll(rows: seq<Record>)
    ensures Select(rows, []) == rows
    ensures Keep(rows, []) == []
  {
    if rows != [] {
      EmptyConditionsMatchAll(rows[1..]);
      assert rows == [rows[0]] + rows[1..];
    }
  }

  lemma {:induction false} SelectIsSubseq(rows: seq<Record>, conds: Record)
    ensures IsSubseq(Select(rows, conds), rows)
  {
    if rows != [] {
      SelectIsSubseq(rows[1..], conds);
      if Matches(rows[0], conds) {
        assert ([rows[0]] + Select(rows[1..], conds))[1..] == Select(rows[1..], conds);
      } else {
        assert [] + Select(rows[1..], conds) == Select(rows[1..], conds);
      }
    }
  }

  lemma {:induction false} KeepIsSubseq(rows: seq<Record>, conds: Record)
    ensures IsSubseq(Keep(rows, conds), rows)
  {
    if rows != [] {
      KeepIsSubseq(rows[1..], conds);
      if Matches(rows[0], conds) {
        assert [] + Keep(rows[1..], conds) == Keep(rows[1..], conds);
      } else {
        assert ([rows[0]] + Keep(rows[1..], conds))[1..] == Keep(rows[1..], conds);
      }
    }
  }

  /** An order-preserving choice of rows that all match has at most as many rows as select. */
  lemma {:induction false} MatchingSubseqBound(s: seq<Record>, rows: seq<Record>, conds: Record)
    requires IsSubseq(s, rows)
    requires forall i :: 0 <= i < |s| ==> Matches(s[i], conds)
    ensures |s| <= |Select(rows, conds)|
  {
    if rows != [] {
      if IsSubseq(s, rows[1..]) {
        MatchingSubseqBound(s, rows[1..], conds);
      } else {
        MatchingSubseqBound(s[1..], rows[1..], conds);
      }
    }
  }

  /** Select is the one and only order-preserving choice of matching rows of full size:
      "exactly the matching rows, in table order". */
  lemma {:induction false} SelectUnique(s: seq<Record>, rows: seq<Record>, conds: Record)
    requires IsSubseq(s, rows)
    requires forall i :: 0 <= i < |s| ==> Matches(s[i], conds)
    requires |s| == |Select(rows, conds)|
    ensures s == Select(rows, conds)
  {
    if rows != [] {
      if s != [] && s[0] == rows[0] && IsSubseq(s[1..], rows[1..]) {
        MatchingSubseqBound(s[1..], rows[1..], conds);
        assert Matches(rows[0], conds);
        SelectUnique(s[1..], rows[1..], conds);
        assert s == [s[0]] + s[1..];
      } else {
        assert IsSubseq(s, rows[1..]);
        MatchingSubseqBound(s, rows[1..], conds);
        SelectUnique(s, rows[1..], conds);
      }
    }
  }

  /** Updating with conditions that match nothing leaves the table as it was. */
  lemma UpdateNothingMatched(rows: seq<Record>, conds: Record, updates: Record)
    requires Select(rows, conds) == []
    ensures UpdateRows(rows, conds, updates) == rows
  {
    SelectMembers(rows, conds);
  }

  /** Updates with a dict: each matching row afterwards holds every updated column with
      its new value and every other column as before; other rows are untouched. */
  lemma UpdateRowsEffect(rows: seq<Record>, conds: Record, updates: Record, i: nat, col: string)
    requires IsDict(updates) && i < |rows|
    ensures |UpdateRows(rows, conds, updates)| == |rows|
    ensures !Matches(rows[i], conds) ==> UpdateRows(rows, conds, updates)[i] == rows[i]
    ensures Matches(rows[i], conds) && Has(updates, col) ==>
      Get(UpdateRows(rows, conds, updates)[i], col) == Get(updates, col)
    ensures Matches(rows[i], conds) && !Has(updates, col) ==>
      Get(UpdateRows(rows, conds, updates)[i], col) == Get(rows[i], col)
  {
    if Has(updates, col) {
      UpdatedValue(rows[i], updates, col);
    }
  }

  /** `select` and `delete` take their conditions as keyword arguments (`**conditions`), so
      a condition named like one of their own parameters makes the call raise TypeError
      ("got multiple values for argument") before the method body runs. */
  predicate NamesParameter(conds: Record)
  {
    Has(conds, "self") || Has(conds, "table_name")
  }

  /** `if key_column:` — the duplicate check runs only for a non-empty column name. */
  predicate ChecksKey(keyColumn: Option<string>)
  {
    keyColumn.Some? && keyColumn.value != ""
  }

  /** `existing.get(key) == record.get(key)` for some existing row. An absent key reads as
      None, so a record lacking the key collides with any row lacking it too. */
  predicate KeyTaken(rows: seq<Record>, record: Record, key: string)
  {
    exists i :: 0 <= i < |rows| && PyEq(Get(rows[i], key), Get(record, key))
  }

  /** No two rows share a key value. */
  predicate KeyUnique(rows: seq<Record>, key: string)
  {
    forall i, j :: 0 <= i < j < |rows| ==> !PyEq(Get(rows[i], key), Get(rows[j], key))
  }

  /** Appending only records that pass the duplicate check keeps the key column unique. */
  lemma InsertKeepsKeyUnique(rows: seq<Record>, record: Record, key: string)
    requires KeyUnique(rows, key) && !KeyTaken(rows, record, key)
    ensures KeyUnique(rows + [record], key)
  {
    var rows' := rows + [record];
    forall i, j | 0 <= i < j < |rows'|
      ensures !PyEq(Get(rows'[i], key), Get(rows'[j], key))
    {
      if j == |rows| {
        assert rows'[i] == rows[i];
      } else {
        assert rows'[i] == rows[i] && rows'[j] == rows[j];
      }
    }
  }

  /** Once a record is in the table, a second record with an equal key value is refused. */
  lemma SecondInsertCollides(rows: seq<Record>, first: Record, second: Record, key: string)
    requires PyEq(Get(first, key), Get(second, key))
    ensures KeyTaken(rows + [first], second, key)
  {
    assert (rows + [first])[|rows|] == first;
  }

  /** The duplicate scan of `insert`: walk the rows, stop at the first row whose key
      value equals the new record's. */
  method FindDuplicate(rows: seq<Record>, record: Record, key: string) returns (dup: bool)
    ensures dup <==> KeyTaken(rows, record, key)
  {
    var target := Get(record, key);
    var i := 0;
    while i < |rows|
      invariant 0 <= i <= |rows|
      invariant forall j :: 0 <= j < i ==> !PyEq(Get(rows[j], key), target)
    {
      if PyEq(Get(rows[i], key), target) {
        return true;
      }
      i := i + 1;
    }
    return false;
  }

  /** The loop of `update`: every row matching the conditions gets every update column
      assigned, and the matching rows are counted. */
  method UpdateScan(rows: seq<Record>, conds: Record, updates: Record)
    returns (updated: seq<Record>, count: nat)
    ensures updated == UpdateRows(rows, conds, updates)
    ensures count == |Select(rows, conds)|
  {
    updated := rows;
    count := 0;
    var i := 0;
    while i < |rows|
      invariant 0 <= i <= |rows| && |updated| == |rows|
      invariant forall j :: 0 <= j < i ==> updated[j] == UpdateRows(rows, conds, updates)[j]
      invariant forall j :: i <= j < |rows| ==> updated[j] == rows[j]
      invariant count == |Select(rows[..i], conds)|
    {
      SelectAppend(rows[..i], [rows[i]], conds);
      assert rows[..i + 1] == rows[..i] + [rows[i]];
      if Matches(rows[i], conds) {
        updated := updated[i := ApplyUpdates(rows[i], updates)];
        count := count + 1;
      }
      i := i + 1;
    }
    assert rows[..i] == rows;
  }
}
