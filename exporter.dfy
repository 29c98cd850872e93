/**
 * The exporter (dict2csv.py): project every record of a stored dictionary
 * onto a fixed seven-column row and append the rows to a CSV file.
 *
 * The columns are Title, Year, Tags, Group, URL, Venue and Notes; only
 * Title, Year and URL are taken from the record.
 */
module Exporter {
  import opened Results
  import opened OrderedDicts
  import opened Stores

  /** One CSV row, before `csv.writer` quotes it. */
  type Row = seq<string>

  const Width: nat := 7
  const TitleColumn: nat := 0
  const YearColumn: nat := 1
  const UrlColumn: nat := 4

  datatype Error =
      /** `ref_entry[field]` raised `KeyError` for the record with this key. */
    | MissingField(id: Key, field: Field)
      /** The stored dictionary could not be unpickled. */
    | StoreUnreadable

  /** The URL column: the `url` field if there is one, else the `URL` field, else empty. */
  function UrlOf(rec: Record): string {
    if "url" in rec then rec["url"] else if "URL" in rec then rec["URL"] else ""
  }

  /** The row of a record that has a title and a year. */
  function RowOf(rec: Record): Row
    requires "title" in rec && "year" in rec
  {
    [rec["title"], rec["year"], "", "", UrlOf(rec), "", ""]
  }

  /** The rows for the first `n` records in iteration order, or the first `KeyError`. */
  function RowsUpTo(d: Dict, n: nat): Result<seq<Row>, Error>
    requires n <= |d.keys|
  {
    if n == 0 then Ok([])
    else
      match RowsUpTo(d, n - 1)
      case Err(e) => Err(e)
      case Ok(rows) =>
        var id := d.keys[n - 1];
        var rec := d.entries[id];
        if "title" !in rec then Err(MissingField(id, "title"))
        else if "year" !in rec then Err(MissingField(id, "year"))
        else Ok(rows + [RowOf(rec)])
  }

  /** `dict2rows(d)`. */
  function Rows(d: Dict): Result<seq<Row>, Error> {
    RowsUpTo(d, |d.keys|)
  }

  /** Record `id` lacks a title or a year. */
  predicate Incomplete(d: Dict, id: Key)
    requires id in d.entries
  {
    "title" !in d.entries[id] || "year" !in d.entries[id]
  }

  /** `dict2rows`: one fresh seven-cell row per record, filled by index and appended. */
  method Dict2Rows(d: Dict) returns (r: Result<seq<Row>, Error>)
    ensures r == Rows(d)
  {
    var rows: seq<Row> := [];
    var i := 0;
    while i < |d.keys|
      invariant i <= |d.keys|
      invariant RowsUpTo(d, i) == Ok(rows)
    {
      var id := d.keys[i];
      var rec := d.entries[id];
      var row := new string[Width](_ => "");
      if "title" !in rec {
        RowsErrSticks(d, i + 1, |d.keys|);
        return Err(MissingField(id, "title"));
      }
      row[TitleColumn] := rec["title"];
      if "year" !in rec {
        RowsErrSticks(d, i + 1, |d.keys|);
        return Err(MissingField(id, "year"));
      }
      row[YearColumn] := rec["year"];
      if "url" in rec {
        row[UrlColumn] := rec["url"];
      } else if "URL" in rec {
        row[UrlColumn] := rec["URL"];
      }
      assert row[..] == RowOf(rec) by {
        assert forall c :: 0 <= c < Width ==> row[c] == RowOf(rec)[c];
      }
      assert RowsUpTo(d, i + 1) == Ok(rows + [RowOf(rec)]);
      rows := rows + [row[..]];
      i := i + 1;
    }
    r := Ok(rows);
  }

  /** Once one record has raised, no later record is projected. */
  lemma {:induction false} RowsErrSticks(d: Dict, i: nat, n: nat)
    requires i <= n <= |d.keys|
    requires RowsUpTo(d, i).Err?
    ensures RowsUpTo(d, n) == RowsUpTo(d, i)
    decreases n
  {
    if i < n {
      RowsErrSticks(d, i, n - 1);
    }
  }

  /**
   * Projecting succeeds exactly when every record has a title and a year;
   * otherwise the error names the first record in iteration order that lacks
   * one, and the title is looked up before the year.
   */
  lemma {:induction false} RowsUpToFails(d: Dict, n: nat)
    requires n <= |d.keys|
    ensures RowsUpTo(d, n).Ok? <==> forall i :: 0 <= i < n ==> !Incomplete(d, d.keys[i])
    ensures RowsUpTo(d, n).Err? ==>
              exists i :: 0 <= i < n && Incomplete(d, d.keys[i])
                && (forall j :: 0 <= j < i ==> !Incomplete(d, d.keys[j]))
                && RowsUpTo(d, n).error == MissingField(d.keys[i], if "title" !in d.entries[d.keys[i]] then "title" else "year")
    decreases n
  {
    if n > 0 {
      RowsUpToFails(d, n - 1);
      if RowsUpTo(d, n - 1).Err? {
        RowsErrSticks(d, n - 1, n);
      }
    }
  }

  /**
   * There is one row per record, in iteration order, and row `i` holds the
   * title, the year and the resolved URL of record `i` in columns 0, 1 and
   * 4 of its seven, and empty strings in the other four.
   */
  lemma {:induction false} RowsUpToAt(d: Dict, n: nat, i: nat)
    requires i < n <= |d.keys|
    requires RowsUpTo(d, n).Ok?
    ensures |RowsUpTo(d, n).value| == n
    ensures var rec := d.entries[d.keys[i]]; var row := RowsUpTo(d, n).value[i];
            && "title" in rec && "year" in rec
            && |row| == Width
            && row[TitleColumn] == rec["title"]
            && row[YearColumn] == rec["year"]
            && row[UrlColumn] == UrlOf(rec)
            && row[2] == "" && row[3] == "" && row[5] == "" && row[6] == ""
    decreases n
  {
    if i < n - 1 {
      RowsUpToAt(d, n - 1, i);
    } else if n > 1 {
      RowsUpToAt(d, n - 1, 0);
    }
  }

  /** `dict2rows` succeeds exactly when every record has a title and a year. */
  lemma RowsSucceed(d: Dict)
    ensures Rows(d).Ok? <==> forall i :: 0 <= i < |d.keys| ==> !Incomplete(d, d.keys[i])
  {
    RowsUpToFails(d, |d.keys|);
  }

  /** Row `i` of `dict2rows(d)` is the projection of the `i`-th record in iteration order. */
  lemma RowsAt(d: Dict, i: nat)
    requires Rows(d).Ok? && i < |d.keys|
    ensures |Rows(d).value| == |d.keys|
    ensures var rec := d.entries[d.keys[i]];
            && "title" in rec && "year" in rec
            && Rows(d).value[i] == [rec["title"], rec["year"], "", "", UrlOf(rec), "", ""]
  {
    RowsUpToAt(d, |d.keys|, i);
  }

  /** A store holding one entry with a title and a year and no URL exports as one row. */
  lemma OneEntryExport()
    ensures var rec := map["title" := "Foo", "year" := "2020"];
            Exported(Loaded(OrderedMap(["id1"], map["id1" := rec]))) == Ok([["Foo", "2020", "", "", "", "", ""]])
  {
    var rec := map["title" := "Foo", "year" := "2020"];
    var d: Dict := OrderedMap(["id1"], map["id1" := rec]);
    assert RowsUpTo(d, 0) == Ok([]);
    assert d.keys[0] == "id1" && d.entries["id1"] == rec;
    assert "title" in rec && "year" in rec && "url" !in rec && "URL" !in rec;
    assert RowsUpTo(d, 1) == Ok([] + [RowOf(rec)]);
    assert [] + [RowOf(rec)] == [RowOf(rec)];
  }

  /**
   * The URL column of row `i` is record `i`'s `url` field if it has one, else
   * its `URL` field if it has one, else empty: `url` wins when both are present.
   */
  lemma UrlResolution(d: Dict, i: nat)
    requires Rows(d).Ok? && i < |d.keys|
    ensures |Rows(d).value| == |d.keys| && |Rows(d).value[i]| == Width
    ensures var rec := d.entries[d.keys[i]]; var url := Rows(d).value[i][UrlColumn];
            && ("url" in rec ==> url == rec["url"])
            && ("url" !in rec && "URL" in rec ==> url == rec["URL"])
            && ("url" !in rec && "URL" !in rec ==> url == "")
  {
    RowsAt(d, i);
  }

  /** A CSV file opened for appending, seen as the sequence of rows it holds. */
  class CsvFile {
    var rows: seq<Row>

    constructor (rows: seq<Row>)
      ensures this.rows == rows
    {
      this.rows := rows;
    }

    /** `writer.writerow(row)` for each row in order: the file only grows at its end. */
    method WriteRows(newRows: seq<Row>)
      modifies this
      ensures rows == old(rows) + newRows
    {
      var i := 0;
      while i < |newRows|
        invariant i <= |newRows|
        invariant rows == old(rows) + newRows[..i]
      {
        rows := rows + [newRows[i]];
        i := i + 1;
      }
    }
  }

  /** The rows `dict2csv` appends, or the error it raises first. */
  function Exported(stored: Stored): Result<seq<Row>, Error> {
    match stored
    case Absent => Err(StoreUnreadable)
    case Loaded(d) => Rows(d)
  }

  /**
   * `dict2csv`: read the store (a failure is fatal here), project it, and
   * append the rows to the file; on any error the file is left as it was.
   */
  method Dict2Csv(stored: Stored, out: CsvFile) returns (r: Result<seq<Row>, Error>)
    modifies out
    ensures r == Exported(stored)
    ensures r.Ok? ==> out.rows == old(out.rows) + r.value
    ensures r.Err? ==> out.rows == old(out.rows)
  {
    if stored.Absent? {
      return Err(StoreUnreadable);
    }
    r := Dict2Rows(stored.store);
    if r.Ok? {
      out.WriteRows(r.value);
    }
  }
}
