/**
 * The CSV side, app/parser_csv.py: the `,`-separated number normaliser,
 * the item/sub-item parser driven by the `control` column, and the
 * import/export parser that renames repeated headers. Opening a file and
 * splitting it into fields is not part of the model: a parser receives a
 * `CsvReader` that yields the lines of the file at a path, each already
 * split at the delimiter.
 */
module ParserCsv {
  import opened Wrappers
  import opened Numbers
  import opened Text
  import opened Records

  /**
   * The lines of the file at a path, each split at the delimiter (a blank
   * line is an empty list); `None` when there is no file at the path.
   */
  type CsvReader = (string, string) -> Option<seq<seq<string>>>

  /**
   * A line as `csv.DictReader` yields it: column name to field, and `None`
   * for a column the line is too short to fill.
   */
  type DictRow = map<string, Option<string>>

  /** `str(value)`: a missing field prints as `None`. */
  function PyStr(value: Option<string>): string
  {
    if value.Some? then value.value else "None"
  }

  /** `parse_str_to_number`: thousands separators are commas; anything that is not an integer gives 0. */
  function ParseStrToNumber(value: Option<string>): int
  {
    Normalize(PyStr(value), ',')
  }

  /** In the files a comma groups the thousands: `1,000` is a thousand. */
  lemma CommaSeparatedExample()
    ensures ParseStrToNumber(Some("1,000")) == 1000
  {
    assert RemoveAll("1,000", ',') == "1000";
    assert DigitsValue("1000") == 1000 by {
      assert "1000"[..3] == "100" && "100"[..2] == "10" && "10"[..1] == "1";
    }
  }

  /** A dot is not removed here, so `1.000` is not an integer and counts as 0. */
  lemma DotSeparatedExample()
    ensures ParseStrToNumber(Some("1.000")) == 0
  {
    RemoveAllUnchanged("1.000", ',');
    assert !IsDigit("1.000"[1]);
  }

  /** A field the line is too short to fill prints as `None` and counts as 0. */
  lemma MissingFieldExample()
    ensures ParseStrToNumber(None) == 0
  {
    var none := "None";
    assert ',' !in none && !IsDigit(none[0]);
    RemoveAllUnchanged(none, ',');
  }

  /**
   * `dict(zip(keys, values))`: the first `min(|keys|, |values|)` pairs, a
   * later pair replacing an earlier one with the same key.
   */
  function Zip<V>(keys: seq<string>, values: seq<V>): map<string, V>
    decreases |keys| + |values|
  {
    if |keys| == 0 || |values| == 0 then map[]
    else if |keys| > |values| then Zip(keys[..|values|], values)
    else if |values| > |keys| then Zip(keys, values[..|keys|])
    else Zip(keys[..|keys| - 1], values[..|values| - 1])[keys[|keys| - 1] := values[|values| - 1]]
  }

  /** The fields of a line under `n` columns: the line's own fields, then `None` for each column it lacks. */
  function Pad(line: seq<string>, n: nat): (r: seq<Option<string>>)
    ensures |r| == n
  {
    if n == 0 then [] else Pad(line, n - 1) + [if n - 1 < |line| then Some(line[n - 1]) else None]
  }

  /** The data lines under `header` as `csv.DictReader` yields them: blank lines are skipped. */
  function DictRowsUnder(header: seq<string>, lines: seq<seq<string>>): seq<DictRow>
  {
    if lines == [] then []
    else
      var last := lines[|lines| - 1];
      DictRowsUnder(header, lines[..|lines| - 1]) + (if last == [] then [] else [Zip(header, Pad(last, |header|))])
  }

  /** `read_csv_file`: the first line names the columns, every later non-blank line is a row. */
  function ReadCsvFile(read: CsvReader, path: string, delimiter: string): Result<seq<DictRow>, Error>
  {
    match read(path, delimiter)
    case None => Err(FileNotFoundError(path))
    case Some(lines) => Ok(if lines == [] then [] else DictRowsUnder(lines[0], lines[1..]))
  }

  /** Every row `csv.DictReader` yields has exactly the columns the header names. */
  lemma {:induction false} DictRowsColumns(header: seq<string>, lines: seq<seq<string>>)
    ensures forall row :: row in DictRowsUnder(header, lines) ==> forall k :: k in row <==> k in header
  {
    if lines != [] {
      var last := lines[|lines| - 1];
      DictRowsColumns(header, lines[..|lines| - 1]);
      if last != [] {
        ZipKeys(header, Pad(last, |header|));
      }
    }
  }

  /**
   * `read_csv_file`: a missing file raises; otherwise every
   * row has exactly the columns of the first line.
   */
  lemma ReadCsvFileColumns(read: CsvReader, path: string, delimiter: string)
    ensures read(path, delimiter).None? ==> ReadCsvFile(read, path, delimiter) == Err(FileNotFoundError(path))
    ensures read(path, delimiter).Some? ==> ReadCsvFile(read, path, delimiter).Ok?
    ensures read(path, delimiter).Some? && read(path, delimiter).value != [] ==>
      forall row :: row in ReadCsvFile(read, path, delimiter).value ==>
        forall k :: k in row <==> k in read(path, delimiter).value[0]
  {
    if read(path, delimiter).Some? && read(path, delimiter).value != [] {
      var lines := read(path, delimiter).value;
      DictRowsColumns(lines[0], lines[1..]);
    }
  }

  /** A `control` value that starts an item: upper case, or empty. */
  predicate IsItemControl(control: string)
  {
    IsUpper(control) || control == ""
  }

  predicate IsItemCsvRow(row: DictRow)
  {
    "control" in row && row["control"].Some? && IsItemControl(row["control"].value)
  }

  /** A `control` value that is not an item's and holds an underscore (`vi_1`, `sub_`). */
  predicate IsSubItemCsvRow(row: DictRow)
  {
    "control" in row && row["control"].Some? && !IsItemControl(row["control"].value) && '_' in row["control"].value
  }

  /**
   * `row[key].strip()` and then `parse_str_to_number(row[f"{year}"])`, as a
   * name and a quantity: a missing column raises `KeyError`, and stripping a
   * missing field raises `AttributeError`.
   */
  function Entry(row: DictRow, key: string, year: int): (r: Result<SubItem, Error>)
    ensures r.Ok? <==> key in row && row[key].Some? && IntToString(year) in row
    ensures r.Ok? ==> r.value == SubItem(Strip(row[key].value), ParseStrToNumber(row[IntToString(year)]))
  {
    if key !in row then Err(KeyError(key))
    else if row[key].None? then Err(AttributeError)
    else if IntToString(year) !in row then Err(KeyError(IntToString(year)))
    else Ok(SubItem(Strip(row[key].value), ParseStrToNumber(row[IntToString(year)])))
  }

  /** One iteration of the row loop of `general_csv`. */
  function GeneralStep(results: seq<Record>, row: DictRow, year: int, key: string): Result<seq<Record>, Error>
  {
    if "control" !in row then Err(KeyError("control"))
    else match row["control"]
      case None => Err(AttributeError)
      case Some(control) =>
        if IsItemControl(control) then
          match Entry(row, key, year)
          case Err(e) => Err(e)
          case Ok(e) => Ok(results + [Item(e.name, e.quantity, year, [], map[])])
        else if '_' in control && |results| > 0 then
          match Entry(row, key, year)
          case Err(e) => Err(e)
          case Ok(e) => AppendSubItem(results, e)
        else Ok(results)
  }

  /**
   * An item row appends one record without metadata and changes no earlier
   * one; a sub-item row extends the last record, or is skipped while there
   * is none; any other row succeeds and changes nothing. A missing
   * `control` column raises `KeyError`, a missing `control` field
   * `AttributeError`, and an item or sub-item row whose fields cannot be
   * read raises what `Entry` raises.
   */
  lemma GeneralStepEffect(results: seq<Record>, row: DictRow, year: int, key: string)
    ensures var r := GeneralStep(results, row, year, key);
      && ("control" !in row ==> r == Err(KeyError("control")))
      && ("control" in row && row["control"].None? ==> r == Err(AttributeError))
      && (r.Ok? ==> |r.value| == |results| + (if IsItemCsvRow(row) then 1 else 0))
      && (IsItemCsvRow(row) ==> (r.Ok? <==> Entry(row, key, year).Ok?))
      && (IsItemCsvRow(row) && Entry(row, key, year).Err? ==> r == Err(Entry(row, key, year).error))
      && (r.Ok? && IsItemCsvRow(row) ==>
            var e := Entry(row, key, year).value;
            r.value[..|results|] == results && r.value[|results|] == Item(e.name, e.quantity, year, [], map[]))
      && (IsSubItemCsvRow(row) && |results| > 0 && Entry(row, key, year).Ok? ==>
            r == AppendSubItem(results, Entry(row, key, year).value))
      && (IsSubItemCsvRow(row) && |results| > 0 && Entry(row, key, year).Err? ==>
            r == Err(Entry(row, key, year).error))
      && (IsSubItemCsvRow(row) && |results| == 0 ==> r == Ok(results))
      && ("control" in row && row["control"].Some? && !IsItemCsvRow(row) && !IsSubItemCsvRow(row) ==> r == Ok(results))
  {
  }

  /** The row loop of `general_csv` over `rows`: the first row that raises ends it. */
  function GeneralRows(rows: seq<DictRow>, year: int, key: string): Result<seq<Record>, Error>
  {
    if rows == [] then Ok([])
    else match GeneralRows(rows[..|rows| - 1], year, key)
      case Err(e) => Err(e)
      case Ok(results) => GeneralStep(results, rows[|rows| - 1], year, key)
  }

  /** Once a row has raised, the rows after it are never looked at. */
  lemma {:induction false} GeneralErrorPersists(rows: seq<DictRow>, i: nat, year: int, key: string)
    requires i <= |rows| && GeneralRows(rows[..i], year, key).Err?
    ensures GeneralRows(rows, year, key) == GeneralRows(rows[..i], year, key)
    decreases |rows|
  {
    if i < |rows| {
      assert rows[..|rows| - 1][..i] == rows[..i];
      GeneralErrorPersists(rows[..|rows| - 1], i, year, key);
    } else {
      assert rows[..i] == rows;
    }
  }

  /** What `general_csv` returns. */
  function GeneralCsvRecords(read: CsvReader, path: string, year: int, key: string, delimiter: string): Result<seq<Record>, Error>
  {
    match ReadCsvFile(read, path, delimiter)
    case Err(e) => Err(e)
    case Ok(rows) => GeneralRows(rows, year, key)
  }

  /**
   * `general_csv`: reads the file's rows and walks them, appending item
   * records and extending the last record with sub-items.
   */
  method GeneralCsv(read: CsvReader, path: string, year: int, key: string, delimiter: string)
    returns (r: Result<seq<Record>, Error>)
    ensures r == GeneralCsvRecords(read, path, year, key, delimiter)
    ensures read(path, delimiter).None? ==> r == Err(FileNotFoundError(path))
  {
    var reader := ReadCsvFile(read, path, delimiter);
    if reader.Err? {
      return Err(reader.error);
    }
    r := GeneralLoop(reader.value, year, key);
  }

  /** The row loop of `general_csv`. */
  method GeneralLoop(rows: seq<DictRow>, year: int, key: string) returns (r: Result<seq<Record>, Error>)
    ensures r == GeneralRows(rows, year, key)
  {
    var results: seq<Record> := [];
    var i := 0;
    while i < |rows|
      invariant 0 <= i <= |rows|
      invariant GeneralRows(rows[..i], year, key) == Ok(results)
    {
      var row := rows[i];
      assert rows[..i + 1][..i] == rows[..i];
      if "control" !in row {
        GeneralErrorPersists(rows, i + 1, year, key);
        return Err(KeyError("control"));
      }
      if row["control"].None? {
        GeneralErrorPersists(rows, i + 1, year, key);
        return Err(AttributeError);
      }
      var control := row["control"].value;
      if IsUpper(control) || control == "" {
        var entry := Entry(row, key, year);
        if entry.Err? {
          GeneralErrorPersists(rows, i + 1, year, key);
          return Err(entry.error);
        }
        results := results + [Item(entry.value.name, entry.value.quantity, year, [], map[])];
      } else if '_' in control && |results| > 0 {
        var entry := Entry(row, key, year);
        if entry.Err? {
          GeneralErrorPersists(rows, i + 1, year, key);
          return Err(entry.error);
        }
        var appended := AppendSubItem(results, entry.value);
        if appended.Err? {
          GeneralErrorPersists(rows, i + 1, year, key);
          return appended;
        }
        results := appended.value;
      }
      i := i + 1;
    }
    assert rows[..i] == rows;
    return Ok(results);
  }

  /** The rows of `rows` that start item records, counted. */
  function CountItemCsvRows(rows: seq<DictRow>): nat
  {
    if rows == [] then 0 else CountItemCsvRows(rows[..|rows| - 1]) + (if IsItemCsvRow(rows[|rows| - 1]) then 1 else 0)
  }

  /** One top-level record per item row. */
  lemma {:induction false} GeneralRecordCount(rows: seq<DictRow>, year: int, key: string)
    requires GeneralRows(rows, year, key).Ok?
    ensures |GeneralRows(rows, year, key).value| == CountItemCsvRows(rows)
  {
    if rows != [] {
      GeneralRecordCount(rows[..|rows| - 1], year, key);
      GeneralStepEffect(GeneralRows(rows[..|rows| - 1], year, key).value, rows[|rows| - 1], year, key);
    }
  }

  /**
   * The sub-items the sub-item rows of `rows` denote, in row order, leaving
   * out those that come before the first item row.
   */
  function CsvSubItemsOfRows(rows: seq<DictRow>, year: int, key: string): seq<SubItem>
  {
    if rows == [] then []
    else
      var prefix, last := rows[..|rows| - 1], rows[|rows| - 1];
      CsvSubItemsOfRows(prefix, year, key)
      + (if IsSubItemCsvRow(last) && CountItemCsvRows(prefix) > 0 && Entry(last, key, year).Ok?
         then [Entry(last, key, year).value] else [])
  }

  /**
   * Every sub-item row after the first item row contributes its sub-item,
   * in row order, and the earlier ones are skipped.
   */
  lemma {:induction false} GeneralSubItemsInRowOrder(rows: seq<DictRow>, year: int, key: string)
    requires GeneralRows(rows, year, key).Ok?
    ensures AllSubItems(GeneralRows(rows, year, key).value) == CsvSubItemsOfRows(rows, year, key)
  {
    if rows != [] {
      var prefix, row := rows[..|rows| - 1], rows[|rows| - 1];
      GeneralSubItemsInRowOrder(prefix, year, key);
      GeneralRecordCount(prefix, year, key);
      var results := GeneralRows(prefix, year, key).value;
      GeneralStepEffect(results, row, year, key);
      var r := GeneralStep(results, row, year, key).value;
      if IsItemCsvRow(row) {
        assert r == results + [r[|results|]];
      }
    }
  }

  /** `general_csv` merges no metadata: every record is an item record with none. */
  lemma {:induction false} GeneralRecordsWithoutMetadata(rows: seq<DictRow>, year: int, key: string)
    requires GeneralRows(rows, year, key).Ok?
    ensures AllItemsWith(GeneralRows(rows, year, key).value, map[])
  {
    if rows != [] {
      var prefix, row := rows[..|rows| - 1], rows[|rows| - 1];
      GeneralRecordsWithoutMetadata(prefix, year, key);
      var results := GeneralRows(prefix, year, key).value;
      var control := row["control"].value;
      if IsItemControl(control) {
        var e := Entry(row, key, year).value;
        AllItemsWithAppend(results, Item(e.name, e.quantity, year, [], map[]), map[]);
      } else if '_' in control && |results| > 0 {
        AppendSubItemKeepsItems(results, Entry(row, key, year).value, map[]);
      }
    }
  }

  /** As served, every record of a successful `general_csv` has exactly the item fields. */
  lemma GeneralCsvNoMetadata(read: CsvReader, path: string, year: int, key: string, delimiter: string)
    requires GeneralCsvRecords(read, path, year, key, delimiter).Ok?
    ensures var records := GeneralCsvRecords(read, path, year, key, delimiter).value;
      forall rec :: rec in records ==> AsObject(rec).Keys == ItemKeys
  {
    var rows := ReadCsvFile(read, path, delimiter).value;
    GeneralRecordsWithoutMetadata(rows, year, key);
    ItemObjects(GeneralRows(rows, year, key).value, map[]);
  }

  /** `header_counts[header]` of a `defaultdict(int)`: 0 for a name not seen yet. */
  function CountOf(counts: map<string, nat>, header: string): nat
  {
    if header in counts then counts[header] else 0
  }

  /** How often `header` occurs in `headers`. */
  function Occurrences(headers: seq<string>, header: string): nat
  {
    if headers == [] then 0
    else Occurrences(headers[..|headers| - 1], header) + (if headers[|headers| - 1] == header then 1 else 0)
  }

  /** The name given to the `k`-th occurrence of `header`. */
  function Renamed(header: string, k: nat): string
  {
    if k > 1 then header + "_" + NatToString(k) else header
  }

  /** The headers renamed by their running count, position by position. */
  function UniqueHeaderNames(headers: seq<string>): (unique: seq<string>)
    ensures |unique| == |headers|
  {
    if headers == [] then []
    else UniqueHeaderNames(headers[..|headers| - 1]) + [Renamed(headers[|headers| - 1], Occurrences(headers, headers[|headers| - 1]))]
  }

  /** The header loop of `import_export_csv`, with `header_counts` as a map. */
  method DisambiguateHeaders(headers: seq<string>) returns (unique: seq<string>)
    ensures unique == UniqueHeaderNames(headers)
  {
    var counts: map<string, nat> := map[];
    unique := [];
    for i := 0 to |headers|
      invariant unique == UniqueHeaderNames(headers[..i])
      invariant forall h :: CountOf(counts, h) == Occurrences(headers[..i], h)
    {
      var header := headers[i];
      assert headers[..i + 1][..i] == headers[..i];
      counts := counts[header := CountOf(counts, header) + 1];
      unique := unique + [if counts[header] > 1 then header + "_" + NatToString(counts[header]) else header];
    }
    assert headers[..|headers|] == headers;
  }

  /** A name occurs in a list exactly when it is counted there. */
  lemma {:induction false} OccurrencesPositive(headers: seq<string>, header: string)
    ensures Occurrences(headers, header) > 0 <==> header in headers
  {
    if headers != [] {
      var prefix := headers[..|headers| - 1];
      OccurrencesPositive(prefix, header);
      assert headers == prefix + [headers[|headers| - 1]];
    }
  }

  /** A longer prefix counts a name at least as often. */
  lemma {:induction false} OccurrencesGrow(headers: seq<string>, m: nat, n: nat, header: string)
    requires m <= n <= |headers|
    ensures Occurrences(headers[..m], header) <= Occurrences(headers[..n], header)
    decreases n - m
  {
    if m < n {
      OccurrencesGrow(headers, m, n - 1, header);
      assert headers[..n][..n - 1] == headers[..n - 1];
    }
  }

  /** Position `i` is renamed by the count of its name up to and including `i`. */
  lemma {:induction false} UniqueHeaderNameAt(headers: seq<string>, i: nat)
    requires i < |headers|
    ensures UniqueHeaderNames(headers)[i] == Renamed(headers[i], Occurrences(headers[..i + 1], headers[i]))
    decreases |headers|
  {
    if i == |headers| - 1 {
      assert headers[..i + 1] == headers;
    } else {
      var prefix := headers[..|headers| - 1];
      UniqueHeaderNameAt(prefix, i);
      assert prefix[..i + 1] == headers[..i + 1];
      assert UniqueHeaderNames(headers)[i] == UniqueHeaderNames(prefix)[i];
    }
  }

  /** The count of a name up to and including position `i` is one more than before `i`. */
  lemma OccurrencesAt(headers: seq<string>, i: nat)
    requires i < |headers|
    ensures Occurrences(headers[..i + 1], headers[i]) == Occurrences(headers[..i], headers[i]) + 1
  {
    assert headers[..i + 1][..i] == headers[..i];
  }

  /**
   * Position `i` keeps its name when it is the name's first occurrence and
   * becomes `name_k` when it is the name's `k`-th, `k` counted from the
   * start of the line up to and including `i`.
   */
  lemma UniqueHeaderNamesAt(headers: seq<string>, i: nat)
    requires i < |headers|
    ensures var k := Occurrences(headers[..i + 1], headers[i]);
      && k >= 1
      && (k == 1 <==> headers[i] !in headers[..i])
      && UniqueHeaderNames(headers)[i] == Renamed(headers[i], k)
      && (k == 1 ==> UniqueHeaderNames(headers)[i] == headers[i])
      && (k > 1 ==> UniqueHeaderNames(headers)[i] == headers[i] + "_" + NatToString(k))
  {
    OccurrencesAt(headers, i);
    OccurrencesPositive(headers[..i], headers[i]);
    UniqueHeaderNameAt(headers, i);
  }

  /** The text before the first underscore. */
  function BaseName(s: string): string
  {
    if s == [] || s[0] == '_' then [] else [s[0]] + BaseName(s[1..])
  }

  /** A renamed header still starts with its name, up to the first underscore. */
  lemma {:induction false} RenamedBase(header: string, k: nat)
    requires '_' !in header
    ensures BaseName(Renamed(header, k)) == header
  {
    var s := Renamed(header, k);
    if header != [] {
      assert s[1..] == Renamed(header[1..], k);
      assert '_' !in header[1..];
      RenamedBase(header[1..], k);
      assert s == [header[0]] + s[1..];
    }
  }

  /** Two different counts never give a name the same new name. */
  lemma RenamedDistinct(header: string, k1: nat, k2: nat)
    requires 1 <= k1 < k2
    ensures Renamed(header, k1) != Renamed(header, k2)
  {
    var s1, s2 := Renamed(header, k1), Renamed(header, k2);
    assert s2[|header| + 1..] == NatToString(k2);
    if k1 > 1 {
      assert s1[|header| + 1..] == NatToString(k1);
      NatToStringValue(k1);
      NatToStringValue(k2);
    }
  }

  /** Two positions of a line without underscores in its headers get different names. */
  lemma UniqueHeaderNamesDiffer(headers: seq<string>, i: nat, j: nat)
    requires forall i :: 0 <= i < |headers| ==> '_' !in headers[i]
    requires i < j < |headers|
    ensures UniqueHeaderNames(headers)[i] != UniqueHeaderNames(headers)[j]
  {
    var hi, hj := headers[i], headers[j];
    var ki, kj := Occurrences(headers[..i + 1], hi), Occurrences(headers[..j + 1], hj);
    UniqueHeaderNameAt(headers, i);
    UniqueHeaderNameAt(headers, j);
    if hi == hj {
      OccurrencesAt(headers, i);
      OccurrencesAt(headers, j);
      OccurrencesGrow(headers, i + 1, j, hj);
      RenamedDistinct(hi, ki, kj);
    } else {
      RenamedBase(hi, ki);
      RenamedBase(hj, kj);
    }
  }

  /**
   * When no header holds an underscore, the renamed headers are pairwise
   * distinct, so every column of a line can be looked up by its new name.
   */
  lemma UniqueHeaderNamesDistinct(headers: seq<string>)
    requires forall i :: 0 <= i < |headers| ==> '_' !in headers[i]
    ensures forall i, j :: 0 <= i < j < |headers| ==> UniqueHeaderNames(headers)[i] != UniqueHeaderNames(headers)[j]
  {
    forall i, j | 0 <= i < j < |headers|
      ensures UniqueHeaderNames(headers)[i] != UniqueHeaderNames(headers)[j]
    {
      UniqueHeaderNamesDiffer(headers, i, j);
    }
  }

  /** The rows of `lines` zipped with `headers`, in order. */
  function ZipAll(headers: seq<string>, lines: seq<seq<string>>): (rows: seq<map<string, string>>)
    ensures |rows| == |lines|
  {
    if lines == [] then [] else ZipAll(headers, lines[..|lines| - 1]) + [Zip(headers, lines[|lines| - 1])]
  }

  /** The zip loop of `import_export_csv`. */
  method ZipRows(headers: seq<string>, lines: seq<seq<string>>) returns (rows: seq<map<string, string>>)
    ensures rows == ZipAll(headers, lines)
  {
    rows := [];
    for i := 0 to |lines|
      invariant rows == ZipAll(headers, lines[..i])
    {
      assert lines[..i + 1][..i] == lines[..i];
      rows := rows + [Zip(headers, lines[i])];
    }
    assert lines[..|lines|] == lines;
  }

  /**
   * One record of `import_export_csv`: `country` from `País`, `quantity`
   * and `amount` by a plain `int` of the `{year}` and `{year}_2` columns.
   * A missing column raises `KeyError` and a field that is not an integer
   * raises `ValueError`, in the order the fields are read.
   */
  function BilateralCsvRecord(row: map<string, string>, year: int): (r: Result<Record, Error>)
    ensures r.Ok? <==>
      && "País" in row && IntToString(year) in row && IntToString(year) + "_2" in row
      && ParseInt(row[IntToString(year)]).Some? && ParseInt(row[IntToString(year) + "_2"]).Some?
    ensures r.Ok? ==> r.value == Bilateral(row["País"], ParseInt(row[IntToString(year)]).value,
                                           ParseInt(row[IntToString(year) + "_2"]).value, year, map[])
  {
    var quantityColumn, amountColumn := IntToString(year), IntToString(year) + "_2";
    if "País" !in row then Err(KeyError("País"))
    else if quantityColumn !in row then Err(KeyError(quantityColumn))
    else match ParseInt(row[quantityColumn])
      case None => Err(ValueError(row[quantityColumn]))
      case Some(quantity) =>
        if amountColumn !in row then Err(KeyError(amountColumn))
        else match ParseInt(row[amountColumn])
          case None => Err(ValueError(row[amountColumn]))
          case Some(amount) => Ok(Bilateral(row["País"], quantity, amount, year, map[]))
  }

  /** The record loop of `import_export_csv` over `rows`: the first row that raises ends it. */
  function BilateralCsvRows(rows: seq<map<string, string>>, year: int): Result<seq<Record>, Error>
  {
    if rows == [] then Ok([])
    else match BilateralCsvRows(rows[..|rows| - 1], year)
      case Err(e) => Err(e)
      case Ok(results) =>
        match BilateralCsvRecord(rows[|rows| - 1], year)
        case Err(e) => Err(e)
        case Ok(record) => Ok(results + [record])
  }

  lemma {:induction false} BilateralCsvErrorPersists(rows: seq<map<string, string>>, i: nat, year: int)
    requires i <= |rows| && BilateralCsvRows(rows[..i], year).Err?
    ensures BilateralCsvRows(rows, year) == BilateralCsvRows(rows[..i], year)
    decreases |rows|
  {
    if i < |rows| {
      assert rows[..|rows| - 1][..i] == rows[..i];
      BilateralCsvErrorPersists(rows[..|rows| - 1], i, year);
    } else {
      assert rows[..i] == rows;
    }
  }

  /** The record loop of `import_export_csv`. */
  method BilateralCsvLoop(rows: seq<map<string, string>>, year: int) returns (r: Result<seq<Record>, Error>)
    ensures r == BilateralCsvRows(rows, year)
  {
    var results: seq<Record> := [];
    for i := 0 to |rows|
      invariant BilateralCsvRows(rows[..i], year) == Ok(results)
    {
      assert rows[..i + 1][..i] == rows[..i];
      var item := BilateralCsvRecord(rows[i], year);
      if item.Err? {
        BilateralCsvErrorPersists(rows, i + 1, year);
        return Err(item.error);
      }
      results := results + [item.value];
    }
    assert rows[..|rows|] == rows;
    return Ok(results);
  }

  /** What `import_export_csv` returns. */
  function ImportExportCsvRecords(read: CsvReader, path: string, year: int, delimiter: string): Result<seq<Record>, Error>
  {
    match read(path, delimiter)
    case None => Err(FileNotFoundError(path))
    case Some(lines) =>
      if lines == [] then Err(StopIteration)
      else BilateralCsvRows(ZipAll(UniqueHeaderNames(lines[0]), lines[1..]), year)
  }

  /**
   * `import_export_csv`: renames the repeated headers of the first line,
   * zips every later line with them and builds one record per line.
   */
  method ImportExportCsv(read: CsvReader, path: string, year: int, delimiter: string)
    returns (r: Result<seq<Record>, Error>)
    ensures r == ImportExportCsvRecords(read, path, year, delimiter)
    ensures read(path, delimiter).None? ==> r == Err(FileNotFoundError(path))
    ensures read(path, delimiter) == Some([]) ==> r == Err(StopIteration)
  {
    var lines := read(path, delimiter);
    if lines.None? {
      return Err(FileNotFoundError(path));
    }
    if lines.value == [] {
      return Err(StopIteration);
    }
    var unique := DisambiguateHeaders(lines.value[0]);
    var rows := ZipRows(unique, lines.value[1..]);
    r := BilateralCsvLoop(rows, year);
  }

  /** `zip` stops at the shorter side. */
  lemma ZipTruncates<V>(keys: seq<string>, values: seq<V>, n: nat)
    requires n == if |keys| < |values| then |keys| else |values|
    ensures Zip(keys, values) == Zip(keys[..n], values[..n])
  {
    assert keys[..n][..n] == keys[..n] && values[..n][..n] == values[..n];
    if |keys| > |values| {
      assert values[..n] == values;
    } else if |values| > |keys| {
      assert keys[..n] == keys;
    } else {
      assert keys[..n] == keys && values[..n] == values;
    }
  }

  /** With as many keys as values, the keys of the dictionary are the keys given. */
  lemma {:induction false} ZipKeys<V>(keys: seq<string>, values: seq<V>)
    requires |keys| == |values|
    ensures forall k :: k in Zip(keys, values) <==> k in keys
  {
    if |keys| > 0 {
      var n := |keys| - 1;
      ZipKeys(keys[..n], values[..n]);
      assert keys == keys[..n] + [keys[n]];
    }
  }

  /** With as many keys as values, a key that does not occur again later maps to its own value. */
  lemma {:induction false} ZipAt<V>(keys: seq<string>, values: seq<V>, i: nat)
    requires |keys| == |values| && i < |keys| && keys[i] !in keys[i + 1..]
    ensures keys[i] in Zip(keys, values) && Zip(keys, values)[keys[i]] == values[i]
  {
    var n := |keys| - 1;
    if i < n {
      assert keys[i + 1..] == keys[..n][i + 1..] + [keys[n]];
      ZipAt(keys[..n], values[..n], i);
    }
  }

  /**
   * When the keys are pairwise distinct, every column the line reaches can
   * be looked up by its key.
   */
  lemma ZipColumn<V>(keys: seq<string>, values: seq<V>, i: nat)
    requires forall i, j :: 0 <= i < j < |keys| ==> keys[i] != keys[j]
    requires i < |keys| && i < |values|
    ensures keys[i] in Zip(keys, values) && Zip(keys, values)[keys[i]] == values[i]
  {
    var n := if |keys| < |values| then |keys| else |values|;
    ZipTruncates(keys, values, n);
    assert keys[..n][i + 1..] == keys[i + 1..n];
    ZipAt(keys[..n], values[..n], i);
  }

  /** The `i`-th zipped row comes from the `i`-th line. */
  lemma {:induction false} ZipAllAt(headers: seq<string>, lines: seq<seq<string>>, i: nat)
    requires i < |lines|
    ensures ZipAll(headers, lines)[i] == Zip(headers, lines[i])
  {
    if i < |lines| - 1 {
      ZipAllAt(headers, lines[..|lines| - 1], i);
    }
  }

  /**
   * When no header of the first line holds an underscore, every field of a
   * later line can be read back under its header's new name.
   */
  lemma ImportExportColumn(headers: seq<string>, line: seq<string>, p: nat)
    requires forall i :: 0 <= i < |headers| ==> '_' !in headers[i]
    requires p < |headers| && p < |line|
    ensures var unique := UniqueHeaderNames(headers);
      unique[p] in Zip(unique, line) && Zip(unique, line)[unique[p]] == line[p]
  {
    var unique := UniqueHeaderNames(headers);
    UniqueHeaderNamesDistinct(headers);
    assert p < |unique|;
    ZipColumn(unique, line, p);
  }

  /**
   * The layout of the import and export files: a year heads two columns,
   * quantity first and then amount. The first of them is read as `{year}`
   * and the second as `{year}_2`.
   */
  lemma ImportExportYearColumns(headers: seq<string>, line: seq<string>, year: int, p: nat, q: nat)
    requires forall i :: 0 <= i < |headers| ==> '_' !in headers[i]
    requires p < q < |headers| && q < |line|
    requires headers[p] == IntToString(year) && headers[q] == IntToString(year)
    requires Occurrences(headers[..q], IntToString(year)) == 1
    ensures var row := Zip(UniqueHeaderNames(headers), line);
      && IntToString(year) in row && row[IntToString(year)] == line[p]
      && IntToString(year) + "_2" in row && row[IntToString(year) + "_2"] == line[q]
  {
    var y := IntToString(year);
    OccurrencesAt(headers, p);
    OccurrencesAt(headers, q);
    OccurrencesGrow(headers, p + 1, q, y);
    var unique := UniqueHeaderNames(headers);
    UniqueHeaderNameAt(headers, p);
    UniqueHeaderNameAt(headers, q);
    assert unique[p] == y;
    assert Occurrences(headers[..q + 1], y) == 2;
    assert unique[q] == y + "_" + NatToString(2);
    assert NatToString(2) == "2";
    assert y + "_" + "2" == y + "_2";
    ImportExportColumn(headers, line, p);
    ImportExportColumn(headers, line, q);
  }

  /** Position `i` of a padded line is the line's own field, or `None` past its end. */
  lemma {:induction false} PadAt(line: seq<string>, n: nat, i: nat)
    requires i < n
    ensures Pad(line, n)[i] == if i < |line| then Some(line[i]) else None
  {
    if i < n - 1 {
      PadAt(line, n - 1, i);
    }
  }

  /**
   * Under a header line with distinct names, a row of `csv.DictReader` has
   * every column: the line's field where the line reaches it, `None` where
   * it is too short.
   */
  lemma DictRowColumn(header: seq<string>, line: seq<string>, p: nat)
    requires forall i, j :: 0 <= i < j < |header| ==> header[i] != header[j]
    requires p < |header|
    ensures var row := Zip(header, Pad(line, |header|));
      header[p] in row && row[header[p]] == if p < |line| then Some(line[p]) else None
  {
    ZipColumn(header, Pad(line, |header|), p);
    PadAt(line, |header|, p);
  }

  /** The record loop succeeds exactly when every row gives a record. */
  lemma {:induction false} BilateralCsvRowsOk(rows: seq<map<string, string>>, year: int)
    ensures BilateralCsvRows(rows, year).Ok? <==> forall i :: 0 <= i < |rows| ==> BilateralCsvRecord(rows[i], year).Ok?
  {
    if rows != [] {
      var prefix := rows[..|rows| - 1];
      var last := rows[|rows| - 1];
      BilateralCsvRowsOk(prefix, year);
      var allOk := forall i :: 0 <= i < |rows| ==> BilateralCsvRecord(rows[i], year).Ok?;
      var prefixOk := forall i :: 0 <= i < |prefix| ==> BilateralCsvRecord(prefix[i], year).Ok?;
      assert allOk <==> prefixOk && BilateralCsvRecord(last, year).Ok? by {
        assert forall i :: 0 <= i < |prefix| ==> prefix[i] == rows[i];
      }
    }
  }

  /** A successful record loop gives one record per row. */
  lemma {:induction false} BilateralCsvRowsLength(rows: seq<map<string, string>>, year: int)
    requires BilateralCsvRows(rows, year).Ok?
    ensures |BilateralCsvRows(rows, year).value| == |rows|
  {
    if rows != [] {
      BilateralCsvRowsLength(rows[..|rows| - 1], year);
    }
  }

  /** The `i`-th record of a successful record loop is the one built from the `i`-th row. */
  lemma {:induction false} BilateralCsvRowsAt(rows: seq<map<string, string>>, i: nat, year: int)
    requires BilateralCsvRows(rows, year).Ok? && i < |rows|
    ensures |BilateralCsvRows(rows, year).value| == |rows|
    ensures BilateralCsvRecord(rows[i], year) == Ok(BilateralCsvRows(rows, year).value[i])
    decreases |rows|
  {
    var prefix := rows[..|rows| - 1];
    var p := BilateralCsvRows(prefix, year);
    BilateralCsvRowsLength(rows, year);
    BilateralCsvRowsLength(prefix, year);
    if i < |prefix| {
      BilateralCsvRowsAt(prefix, i, year);
      assert rows[i] == prefix[i];
      assert BilateralCsvRows(rows, year).value[i] == p.value[i];
    }
  }

  /**
   * Once the file has a first line, the parse succeeds exactly when every
   * later line gives a record, and then gives one record per later line, in
   * order, each built from that line zipped with the renamed headers. Blank
   * lines are not skipped: they zip to an empty row.
   */
  lemma ImportExportCsvOneRecordPerLine(read: CsvReader, path: string, year: int, delimiter: string)
    requires read(path, delimiter).Some? && read(path, delimiter).value != []
    ensures var lines := read(path, delimiter).value;
      var unique := UniqueHeaderNames(lines[0]);
      var r := ImportExportCsvRecords(read, path, year, delimiter);
      && (r.Ok? <==> forall i :: 1 <= i < |lines| ==> BilateralCsvRecord(Zip(unique, lines[i]), year).Ok?)
      && (r.Ok? ==> |r.value| == |lines| - 1 && forall i :: 1 <= i < |lines| ==>
            BilateralCsvRecord(Zip(unique, lines[i]), year) == Ok(r.value[i - 1]))
  {
    var lines := read(path, delimiter).value;
    var unique := UniqueHeaderNames(lines[0]);
    var rows := ZipAll(unique, lines[1..]);
    forall i | 0 <= i < |rows| ensures rows[i] == Zip(unique, lines[i + 1]) {
      ZipAllAt(unique, lines[1..], i);
    }
    BilateralCsvRowsOk(rows, year);
    assert (forall i :: 1 <= i < |lines| ==> BilateralCsvRecord(Zip(unique, lines[i]), year).Ok?)
       <==> (forall i :: 0 <= i < |rows| ==> BilateralCsvRecord(rows[i], year).Ok?) by {
      forall i | 1 <= i < |lines| ensures rows[i - 1] == Zip(unique, lines[i]) { }
    }
    if BilateralCsvRows(rows, year).Ok? {
      BilateralCsvRowsLength(rows, year);
      forall i | 1 <= i < |lines|
        ensures BilateralCsvRecord(Zip(unique, lines[i]), year) == Ok(BilateralCsvRows(rows, year).value[i - 1])
      {
        BilateralCsvRowsAt(rows, i - 1, year);
      }
    }
  }

  /** Every record of a successful record loop is a per-country record without metadata. */
  lemma {:induction false} BilateralCsvRowsWithoutMetadata(rows: seq<map<string, string>>, year: int)
    requires BilateralCsvRows(rows, year).Ok?
    ensures AllBilateralWith(BilateralCsvRows(rows, year).value, map[])
  {
    if rows != [] {
      var prefix := rows[..|rows| - 1];
      BilateralCsvRowsWithoutMetadata(prefix, year);
      AllBilateralWithAppend(BilateralCsvRows(prefix, year).value, BilateralCsvRecord(rows[|rows| - 1], year).value, map[]);
    }
  }

  /**
   * `import_export_csv` merges no metadata: as served, every record of a
   * successful parse has exactly the per-country fields.
   */
  lemma ImportExportCsvNoMetadata(read: CsvReader, path: string, year: int, delimiter: string)
    requires ImportExportCsvRecords(read, path, year, delimiter).Ok?
    ensures var records := ImportExportCsvRecords(read, path, year, delimiter).value;
      forall rec :: rec in records ==> AsObject(rec).Keys == BilateralKeys
  {
    var lines := read(path, delimiter).value;
    var rows := ZipAll(UniqueHeaderNames(lines[0]), lines[1..]);
    BilateralCsvRowsWithoutMetadata(rows, year);
    BilateralObjects(BilateralCsvRows(rows, year).value, map[]);
  }
}
