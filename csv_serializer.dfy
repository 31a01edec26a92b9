/** `CsvSerializer.Deserialize` and `CreateArray`: row 0 is the header, every
    later row becomes one record, and the first exception escapes. */
module CsvSerializer {
  import opened Wrappers
  import opened CsvValues
  import opened CsvBinder
  import CsvScanner

  /** One record per data row, in order, the first failing row giving the
      error. */
  function BindRows(shape: Shape, table: map<string, nat>, rows: seq<CsvScanner.Row>): (r: Result<seq<seq<Value>>, CsvError>)
    ensures r.Success? <==> forall i :: 0 <= i < |rows| ==> Bind(shape, table, rows[i]).Success?
    ensures r.Success? ==>
              |r.value| == |rows| &&
              forall i :: 0 <= i < |rows| ==> r.value[i] == Bind(shape, table, rows[i]).value
  {
    if rows == [] then Success([])
    else
      match Bind(shape, table, rows[0])
      case Failure(e) => Failure(e)
      case Success(v) =>
        var rest := BindRows(shape, table, rows[1..]);
        assert forall i :: 1 <= i < |rows| ==> rows[1..][i - 1] == rows[i];
        if rest.Failure? then
          var i :| 0 <= i < |rows[1..]| && Bind(shape, table, rows[1..][i]).Failure?;
          assert Bind(shape, table, rows[i + 1]).Failure?;
          Failure(rest.error)
        else
          Success([v] + rest.value)
  }

  /** Once the first `i` rows bind, a failing row `i` decides the result. */
  lemma {:induction false} BindRowsFirstFailure(shape: Shape, table: map<string, nat>, rows: seq<CsvScanner.Row>, i: nat)
    requires i < |rows| && Bind(shape, table, rows[i]).Failure?
    requires forall j :: 0 <= j < i ==> Bind(shape, table, rows[j]).Success?
    ensures BindRows(shape, table, rows) == Failure(Bind(shape, table, rows[i]).error)
  {
    if i > 0 {
      assert Bind(shape, table, rows[0]).Success?;
      assert forall j :: 0 <= j < i - 1 ==> rows[1..][j] == rows[j + 1];
      BindRowsFirstFailure(shape, table, rows[1..], i - 1);
    }
  }

  /** The records of a parsed table: none without a header row, a header
      index error when two headers collide, the error of the first data row
      that fails to bind, otherwise record `i - 1` built from row `i`. */
  function Decode(shape: Shape, rows: seq<CsvScanner.Row>): (r: Result<seq<seq<Value>>, CsvError>)
    ensures rows == [] ==> r == Failure(NoHeaderRow)
    ensures rows != [] && HeaderIndex(rows[0]).Failure? ==> r == Failure(HeaderIndex(rows[0]).error)
    ensures r.Success? <==>
              rows != [] && HeaderIndex(rows[0]).Success? &&
              forall i :: 1 <= i < |rows| ==> Bind(shape, HeaderIndex(rows[0]).value, rows[i]).Success?
    ensures forall i :: 1 <= i < |rows| && HeaderIndex(rows[0]).Success? &&
                        Bind(shape, HeaderIndex(rows[0]).value, rows[i]).Failure? &&
                        (forall j :: 1 <= j < i ==> Bind(shape, HeaderIndex(rows[0]).value, rows[j]).Success?) ==>
                          r == Failure(Bind(shape, HeaderIndex(rows[0]).value, rows[i]).error)
    ensures r.Success? ==>
              |rows| >= 1 && HeaderIndex(rows[0]).Success? && |r.value| == |rows| - 1 &&
              forall i :: 1 <= i < |rows| ==>
                Bind(shape, HeaderIndex(rows[0]).value, rows[i]).Success? &&
                r.value[i - 1] == Bind(shape, HeaderIndex(rows[0]).value, rows[i]).value
    ensures r.Success? ==> forall i :: 0 <= i < |r.value| ==> |r.value[i]| == |shape|
  {
    if rows == [] then Failure(NoHeaderRow)
    else
      match HeaderIndex(rows[0])
      case Failure(e) => Failure(e)
      case Success(table) =>
        var r := BindRows(shape, table, rows[1..]);
        DataRows(shape, table, rows);
        assert forall i :: 1 <= i < |rows| && Bind(shape, table, rows[i]).Failure? &&
                           (forall j :: 1 <= j < i ==> Bind(shape, table, rows[j]).Success?) ==>
                             r == Failure(Bind(shape, table, rows[i]).error) by {
          forall i | 1 <= i < |rows| && Bind(shape, table, rows[i]).Failure? &&
                     (forall j :: 1 <= j < i ==> Bind(shape, table, rows[j]).Success?)
          {
            DataRowsFirstFailure(shape, table, rows, i);
          }
        }
        r
  }

  /** The data rows of a table, seen from row 1 on: they bind iff each row
      does, and record `i - 1` is row `i`'s. */
  lemma DataRows(shape: Shape, table: map<string, nat>, rows: seq<CsvScanner.Row>)
    requires rows != []
    ensures var r := BindRows(shape, table, rows[1..]);
            (r.Success? <==> forall i :: 1 <= i < |rows| ==> Bind(shape, table, rows[i]).Success?) &&
            (r.Success? ==> |r.value| == |rows| - 1 &&
                            forall i :: 1 <= i < |rows| ==> r.value[i - 1] == Bind(shape, table, rows[i]).value)
  {
    assert forall i :: 1 <= i < |rows| ==> rows[1..][i - 1] == rows[i];
  }

  /** Among the data rows, the first one that fails to bind decides. */
  lemma DataRowsFirstFailure(shape: Shape, table: map<string, nat>, rows: seq<CsvScanner.Row>, i: nat)
    requires 1 <= i < |rows| && Bind(shape, table, rows[i]).Failure?
    requires forall j :: 1 <= j < i ==> Bind(shape, table, rows[j]).Success?
    ensures BindRows(shape, table, rows[1..]) == Failure(Bind(shape, table, rows[i]).error)
  {
    var data := rows[1..];
    assert data[i - 1] == rows[i];
    forall j | 0 <= j < i - 1
      ensures Bind(shape, table, data[j]).Success?
    {
      assert data[j] == rows[j + 1];
    }
    BindRowsFirstFailure(shape, table, data, i - 1);
  }

  /** `CreateArray`: an array with one slot per data row, filled in order. */
  method CreateArray(shape: Shape, rows: seq<CsvScanner.Row>) returns (r: Result<seq<seq<Value>>, CsvError>)
    ensures r == Decode(shape, rows)
  {
    if |rows| == 0 {
      return Failure(NoHeaderRow);
    }
    var index := HeaderTable(rows[0]);
    if index.Failure? {
      return Failure(index.error);
    }
    r := FillArray(shape, index.value, rows[1..]);
  }

  /** The loop of `CreateArray`: one record per data row into a fresh array,
      the first failing row ending it. */
  method FillArray(shape: Shape, table: map<string, nat>, data: seq<CsvScanner.Row>) returns (r: Result<seq<seq<Value>>, CsvError>)
    ensures r == BindRows(shape, table, data)
  {
    var arrayValue := new seq<Value>[|data|];
    for i := 0 to |data|
      invariant forall j :: 0 <= j < i ==>
                  Bind(shape, table, data[j]).Success? && arrayValue[j] == Bind(shape, table, data[j]).value
    {
      var rowData := Create(shape, table, data[i]);
      if rowData.Failure? {
        BindRowsFirstFailure(shape, table, data, i);
        return Failure(rowData.error);
      }
      arrayValue[i] := rowData.value;
    }
    r := Success(arrayValue[..]);
    BindRowsAll(shape, table, data, arrayValue[..]);
  }

  /** Rows that all bind give exactly their records. */
  lemma BindRowsAll(shape: Shape, table: map<string, nat>, rows: seq<CsvScanner.Row>, records: seq<seq<Value>>)
    requires |records| == |rows|
    requires forall j :: 0 <= j < |rows| ==>
               Bind(shape, table, rows[j]).Success? && records[j] == Bind(shape, table, rows[j]).value
    ensures BindRows(shape, table, rows) == Success(records)
  {
    var r := BindRows(shape, table, rows);
    assert r.Success?;
    assert r.value == records;
  }

  /** The records of a CSV text. */
  function Records(shape: Shape, text: string): Result<seq<seq<Value>>, CsvError> {
    Decode(shape, CsvScanner.Parse(text))
  }

  /** `Deserialize`: parse the text, then build the array. */
  method Deserialize(shape: Shape, text: string) returns (r: Result<seq<seq<Value>>, CsvError>)
    ensures r == Records(shape, text)
  {
    var rows := CsvScanner.ParseCsv(text);
    r := CreateArray(shape, rows);
  }

  /** A shape of `string` fields named exactly by the header row. */
  predicate TextShapeOf(shape: Shape, header: seq<string>) {
    |shape| == |header| && forall i :: 0 <= i < |shape| ==> shape[i] == Field(header[i], Text)
  }

  /** A table of non-empty, backslash-free cells whose header names do not
      collide, written out with every field quoted, reads back as one record
      per data row holding exactly that row's cells. */
  lemma TextTableRoundTrip(shape: Shape, header: seq<string>, data: seq<CsvScanner.Row>, style: CsvScanner.QuoteStyle)
    requires |header| > 0 && CsvScanner.NoBackslash(header) && Distinct(header, |header|)
    requires TextShapeOf(shape, header)
    requires forall r :: 0 <= r < |data| ==> |data[r]| == |header| && CsvScanner.NoBackslash(data[r])
    requires forall r, c :: 0 <= r < |data| && 0 <= c < |header| ==> data[r][c] != []
    ensures Records(shape, CsvScanner.Encode([header] + data, style)).Success?
    ensures var recs := Records(shape, CsvScanner.Encode([header] + data, style)).value;
      |recs| == |data| &&
      forall r, c :: 0 <= r < |data| && 0 <= c < |header| ==> recs[r][c] == Str(data[r][c])
  {
    var rows := [header] + data;
    CsvScanner.EncodeRoundTrip(rows, style);
    HeaderIndexMeaning(header);
    var table := HeaderIndex(header).value;
    assert rows[0] == header && rows[1..] == data;
    forall r, c | 0 <= r < |data| && 0 <= c < |header|
      ensures BindField(shape[c], table, data[r]) == Success(Str(data[r][c]))
    {
      assert header[c] in table && table[header[c]] == c;
    }
    forall r | 0 <= r < |data|
      ensures Bind(shape, table, data[r]).Success?
      ensures forall c :: 0 <= c < |header| ==> Bind(shape, table, data[r]).value[c] == Str(data[r][c])
    {
    }
    assert forall i :: 1 <= i < |rows| ==> rows[i] == data[i - 1];
  }
}
