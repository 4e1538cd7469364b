/** The decisions `export_csv` makes around `csv.DictWriter`: the header is the first
    row's keys, every row is written under it, and a row holding a key outside the header
    makes DictWriter raise, leaving the header and the rows before it in the file. */
module Csv {
  import opened Values
  import opened Results
  import opened Storage

  /** Every key of the row is a header column. */
  predicate Fits(row: Record, header: seq<string>)
  {
    forall i :: 0 <= i < |row| ==> row[i].col in header
  }

  /** The index of the first row that does not fit under the header (|rows| if none). */
  function FirstStray(rows: seq<Record>, header: seq<string>): (k: nat)
    ensures k <= |rows|
    ensures forall j :: 0 <= j < k ==> Fits(rows[j], header)
    ensures k < |rows| ==> !Fits(rows[k], header)
  {
    if rows == [] then 0
    else if !Fits(rows[0], header) then 0
    else
      var k := FirstStray(rows[1..], header);
      assert forall j :: 1 <= j < k + 1 ==> rows[j] == rows[1..][j - 1];
      1 + k
  }

  /** The file written for a non-empty table and whether the export completed. The header
      comes from the first row, which always fits it, so at least that row is written. */
  function Export(rows: seq<Record>): (r: (File, Outcome))
    requires rows != []
    ensures r.0.CsvFile? && r.0.header == Cols(rows[0])
    ensures 1 <= |r.0.rows| <= |rows| && r.0.rows == rows[..|r.0.rows|]
    ensures forall j :: 0 <= j < |r.0.rows| ==> Fits(rows[j], Cols(rows[0]))
    ensures r.1 == Pass <==> r.0.rows == rows
    ensures r.1 != Pass ==> r.1 == Fail(StrayField) && |r.0.rows| < |rows| && !Fits(rows[|r.0.rows|], Cols(rows[0]))
  {
    var header := Cols(rows[0]);
    assert Fits(rows[0], header);
    var k := FirstStray(rows, header);
    (CsvFile(header, rows[..k]), if k == |rows| then Pass else Fail(StrayField))
  }
}
