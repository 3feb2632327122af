/**
 * The HTML side of app/scraping.py: the page addresses, the `.`-separated
 * number normaliser, and the two table parsers. BeautifulSoup is not part
 * of the model: a parser receives a `Locate` function that stands for
 * `soup.find("table", {"class": "tb_base tb_dados"})` and yields the table's
 * bodies, each a list of rows of cells with their classes and trimmed text.
 */
module Scraping {
  import opened Wrappers
  import opened Numbers
  import opened Records

  /** A `<td>`: its `class` attribute (empty when it has none) and its text, already trimmed. */
  datatype Cell = Cell(classes: seq<string>, text: string)

  type Row = seq<Cell>

  /** The located table, as its `<tbody>` elements. */
  datatype Table = Table(bodies: seq<seq<Row>>)

  /** The table lookup on the page text; `None` when the page has no `tb_base tb_dados` table. */
  type Locate = string -> Option<Table>

  /** An entry of `SCRAPER_TARGETS`: one page, or one page per category. */
  datatype Target = Page(url: string) | ByCategory(pages: map<string, string>)

  const Site := "http://vitibrasil.cnpuv.embrapa.br/index.php?"

  const ScraperTargets: map<string, Target> := map[
    "processamento" := ByCategory(map[
      "viniferas" := Site + "subopcao=subopt_01&opcao=opt_03",
      "americanas-e-hibridas" := Site + "subopcao=subopt_02&opcao=opt_03",
      "uva-de-mesa" := Site + "subopcao=subopt_03&opcao=opt_03",
      "sem-classificacao" := Site + "subopcao=subopt_04&opcao=opt_03"]),
    "importacao" := ByCategory(map[
      "vinhos-de-mesa" := Site + "subopcao=subopt_01&opcao=opt_05",
      "espumantes" := Site + "subopcao=subopt_02&opcao=opt_05",
      "uvas-frescas" := Site + "subopcao=subopt_03&opcao=opt_05",
      "uvas-passas" := Site + "subopcao=subopt_04&opcao=opt_05",
      "suco-de-uva" := Site + "subopcao=subopt_05&opcao=opt_05"]),
    "exportacao" := ByCategory(map[
      "vinhos-de-mesa" := Site + "subopcao=subopt_01&opcao=opt_06",
      "espumantes" := Site + "subopcao=subopt_02&opcao=opt_06",
      "uvas-frescas" := Site + "subopcao=subopt_03&opcao=opt_06",
      "suco-de-uva" := Site + "subopcao=subopt_04&opcao=opt_06"]),
    "producao" := Page(Site + "opcao=opt_02"),
    "comercializacao" := Page(Site + "opcao=opt_04")]

  /** `SCRAPER_TARGETS[group][category]`, with the `KeyError` of an unknown group or category. */
  function CategoryUrl(group: string, category: string): Result<string, Error>
  {
    if group !in ScraperTargets then Err(KeyError(group))
    else match ScraperTargets[group]
      case ByCategory(pages) => if category in pages then Ok(pages[category]) else Err(KeyError(category))
      case Page(_) => Err(TypeError)
  }

  /** `parse_str_to_number`: thousands separators are dots; anything that is not an integer gives 0. */
  function ParseStrToNumber(s: string): int
  {
    Normalize(s, '.')
  }

  /** `if not html_content`: content that is absent or empty. */
  predicate HasText(content: Option<string>)
  {
    content.Some? && content.value != ""
  }

  predicate FirstClassIs(cell: Cell, name: string)
  {
    |cell.classes| > 0 && cell.classes[0] == name
  }

  /** A row that starts a new item record. */
  predicate IsItemRow(cells: Row)
  {
    |cells| > 0 && FirstClassIs(cells[0], "tb_item")
  }

  /** A row that adds a sub-item to the last item record. */
  predicate IsSubItemRow(cells: Row)
  {
    |cells| > 1 && FirstClassIs(cells[0], "tb_subitem") && FirstClassIs(cells[1], "tb_subitem")
  }

  /** The sub-item a sub-item row denotes. */
  function SubItemOf(cells: Row): SubItem
    requires |cells| > 1
  {
    SubItem(cells[0].text, ParseStrToNumber(cells[1].text))
  }

  /** One iteration of the row loop of `parse_html_table`. */
  function HtmlStep(results: seq<Record>, cells: Row, year: int, metadata: Metadata): Result<seq<Record>, Error>
  {
    if |cells| == 0 then Err(IndexError)
    else if |cells[0].classes| == 0 then Err(TypeError)
    else if cells[0].classes[0] == "tb_item" then
      if |cells| < 2 then Err(IndexError)
      else Ok(results + [Item(cells[0].text, ParseStrToNumber(cells[1].text), year, [], metadata)])
    else if cells[0].classes[0] == "tb_subitem" then
      if |cells| < 2 then Err(IndexError)
      else if |cells[1].classes| == 0 then Err(TypeError)
      else if cells[1].classes[0] == "tb_subitem" then AppendSubItem(results, SubItemOf(cells))
      else Ok(results)
    else Ok(results)
  }

  /**
   * An item row appends one record and changes no earlier one; a sub-item
   * row leaves the number of records alone and extends the last one; any
   * other row succeeds and changes nothing. Short rows and cells without a
   * class raise, as does a sub-item row before any item row.
   */
  lemma HtmlStepEffect(results: seq<Record>, cells: Row, year: int, metadata: Metadata)
    ensures var r := HtmlStep(results, cells, year, metadata);
      && (|cells| == 0 ==> r == Err(IndexError))
      && (|cells| > 0 && |cells[0].classes| == 0 ==> r == Err(TypeError))
      && (IsItemRow(cells) && |cells| < 2 ==> r == Err(IndexError))
      && (|cells| == 1 && FirstClassIs(cells[0], "tb_subitem") ==> r == Err(IndexError))
      && (|cells| > 1 && FirstClassIs(cells[0], "tb_subitem") && |cells[1].classes| == 0 ==> r == Err(TypeError))
      && (r.Ok? ==> |r.value| == |results| + (if IsItemRow(cells) then 1 else 0))
      && (r.Ok? && IsItemRow(cells) ==>
            r.value[..|results|] == results
            && r.value[|results|] == Item(cells[0].text, ParseStrToNumber(cells[1].text), year, [], metadata))
      && (IsSubItemRow(cells) ==> r == AppendSubItem(results, SubItemOf(cells)))
      && (|cells| > 0 && |cells[0].classes| > 0 && cells[0].classes[0] != "tb_item"
          && !(cells[0].classes[0] == "tb_subitem" && (|cells| < 2 || |cells[1].classes| == 0 || cells[1].classes[0] == "tb_subitem"))
          ==> r == Ok(results))
  {
  }

  /** An item row with a second cell appends its record. */
  lemma HtmlStepItem(results: seq<Record>, cells: Row, year: int, metadata: Metadata)
    requires IsItemRow(cells) && |cells| >= 2
    ensures HtmlStep(results, cells, year, metadata)
      == Ok(results + [Item(cells[0].text, ParseStrToNumber(cells[1].text), year, [], metadata)])
  {
  }

  /** A sub-item row extends the last record. */
  lemma HtmlStepSubItem(results: seq<Record>, cells: Row, year: int, metadata: Metadata)
    requires IsSubItemRow(cells)
    ensures HtmlStep(results, cells, year, metadata) == AppendSubItem(results, SubItemOf(cells))
  {
  }

  /** The row loop of `parse_html_table` over `rows`: the first row that raises ends it. */
  function HtmlRows(rows: seq<Row>, year: int, metadata: Metadata): Result<seq<Record>, Error>
  {
    if rows == [] then Ok([])
    else match HtmlRows(rows[..|rows| - 1], year, metadata)
      case Err(e) => Err(e)
      case Ok(results) => HtmlStep(results, rows[|rows| - 1], year, metadata)
  }

  /** Once a row has raised, the rows after it are never looked at. */
  lemma {:induction false} HtmlErrorPersists(rows: seq<Row>, i: nat, year: int, metadata: Metadata)
    requires i <= |rows| && HtmlRows(rows[..i], year, metadata).Err?
    ensures HtmlRows(rows, year, metadata) == HtmlRows(rows[..i], year, metadata)
    decreases |rows|
  {
    if i < |rows| {
      assert rows[..|rows| - 1][..i] == rows[..i];
      HtmlErrorPersists(rows[..|rows| - 1], i, year, metadata);
    } else {
      assert rows[..i] == rows;
    }
  }

  /** What `parse_html_table` returns. */
  function HtmlTableRecords(year: int, htmlContent: Option<string>, metadata: Metadata, locate: Locate): Result<seq<Record>, Error>
  {
    if !HasText(htmlContent) then Ok([])
    else match locate(htmlContent.value)
      case None => Ok([])
      case Some(table) =>
        if |table.bodies| == 0 then Err(IndexError)
        else HtmlRows(table.bodies[0], year, metadata)
  }

  /**
   * `parse_html_table`: walks the rows of the table's first body, appending
   * item records and extending the last record with sub-items.
   */
  method ParseHtmlTable(year: int, htmlContent: Option<string>, metadata: Metadata, locate: Locate)
    returns (r: Result<seq<Record>, Error>)
    ensures r == HtmlTableRecords(year, htmlContent, metadata, locate)
    ensures !HasText(htmlContent) ==> r == Ok([])
    ensures HasText(htmlContent) && locate(htmlContent.value).None? ==> r == Ok([])
  {
    if htmlContent.None? || htmlContent.value == "" {
      return Ok([]);
    }
    var table := locate(htmlContent.value);
    if table.None? {
      return Ok([]);
    }
    if |table.value.bodies| == 0 {
      return Err(IndexError);
    }
    r := HtmlLoop(table.value.bodies[0], year, metadata);
  }

  /** The row loop of `parse_html_table`. */
  method HtmlLoop(rows: seq<Row>, year: int, metadata: Metadata) returns (r: Result<seq<Record>, Error>)
    ensures r == HtmlRows(rows, year, metadata)
  {
    var results: seq<Record> := [];
    var i := 0;
    while i < |rows|
      invariant 0 <= i <= |rows|
      invariant HtmlRows(rows[..i], year, metadata) == Ok(results)
    {
      var cells := rows[i];
      assert rows[..i + 1][..i] == rows[..i];
      if |cells| == 0 {
        HtmlErrorPersists(rows, i + 1, year, metadata);
        return Err(IndexError);
      }
      if |cells[0].classes| == 0 {
        HtmlErrorPersists(rows, i + 1, year, metadata);
        return Err(TypeError);
      }
      if cells[0].classes[0] == "tb_item" {
        if |cells| < 2 {
          HtmlErrorPersists(rows, i + 1, year, metadata);
          return Err(IndexError);
        }
        var item := Item(cells[0].text, ParseStrToNumber(cells[1].text), year, [], metadata);
        results := results + [item];
      }
      if cells[0].classes[0] == "tb_subitem" {
        if |cells| < 2 {
          HtmlErrorPersists(rows, i + 1, year, metadata);
          return Err(IndexError);
        }
        if |cells[1].classes| == 0 {
          HtmlErrorPersists(rows, i + 1, year, metadata);
          return Err(TypeError);
        }
        if cells[1].classes[0] == "tb_subitem" {
          var sub := SubItem(cells[0].text, ParseStrToNumber(cells[1].text));
          var appended := AppendSubItem(results, sub);
          if appended.Err? {
            HtmlErrorPersists(rows, i + 1, year, metadata);
            return appended;
          }
          results := appended.value;
        }
      }
      i := i + 1;
    }
    assert rows[..i] == rows;
    return Ok(results);
  }

  /** The rows of `rows` that start item records, counted. */
  function CountItemRows(rows: seq<Row>): nat
  {
    if rows == [] then 0 else CountItemRows(rows[..|rows| - 1]) + (if IsItemRow(rows[|rows| - 1]) then 1 else 0)
  }

  /** The sub-items the sub-item rows of `rows` denote, in row order. */
  function SubItemsOfRows(rows: seq<Row>): seq<SubItem>
  {
    if rows == [] then []
    else SubItemsOfRows(rows[..|rows| - 1]) + (if IsSubItemRow(rows[|rows| - 1]) then [SubItemOf(rows[|rows| - 1])] else [])
  }

  /** One top-level record per item row. */
  lemma {:induction false} HtmlRecordCount(rows: seq<Row>, year: int, metadata: Metadata)
    requires HtmlRows(rows, year, metadata).Ok?
    ensures |HtmlRows(rows, year, metadata).value| == CountItemRows(rows)
  {
    if rows != [] {
      HtmlRecordCount(rows[..|rows| - 1], year, metadata);
      HtmlStepEffect(HtmlRows(rows[..|rows| - 1], year, metadata).value, rows[|rows| - 1], year, metadata);
    }
  }

  /**
   * Every sub-item row contributes its sub-item, and in row order: the
   * records' sub-item lists, read one after the other, are exactly the
   * sub-item rows of the table.
   */
  lemma {:induction false} HtmlSubItemsInRowOrder(rows: seq<Row>, year: int, metadata: Metadata)
    requires HtmlRows(rows, year, metadata).Ok?
    ensures AllSubItems(HtmlRows(rows, year, metadata).value) == SubItemsOfRows(rows)
  {
    if rows != [] {
      var prefix := rows[..|rows| - 1];
      var cells := rows[|rows| - 1];
      HtmlSubItemsInRowOrder(prefix, year, metadata);
      var results := HtmlRows(prefix, year, metadata).value;
      HtmlStepEffect(results, cells, year, metadata);
      var r := HtmlStep(results, cells, year, metadata);
      if IsItemRow(cells) {
        var item := r.value[|results|];
        assert r.value == results + [item];
        assert (results + [item])[..|results|] == results;
        assert SubsOf(item) == [];
      }
    }
  }

  /** Every record of a successful parse is an item record carrying the metadata. */
  lemma {:induction false} HtmlRecordsCarryMetadata(rows: seq<Row>, year: int, metadata: Metadata)
    requires HtmlRows(rows, year, metadata).Ok?
    ensures AllItemsWith(HtmlRows(rows, year, metadata).value, metadata)
  {
    if rows != [] {
      var prefix, cells := rows[..|rows| - 1], rows[|rows| - 1];
      HtmlRecordsCarryMetadata(prefix, year, metadata);
      var results := HtmlRows(prefix, year, metadata).value;
      if IsItemRow(cells) {
        AllItemsWithAppend(results, Item(cells[0].text, ParseStrToNumber(cells[1].text), year, [], metadata), metadata);
      } else if IsSubItemRow(cells) {
        AppendSubItemKeepsItems(results, SubItemOf(cells), metadata);
      }
    }
  }

  /**
   * As served, every record of a successful `parse_html_table` has exactly
   * the item fields and the metadata keys, and every metadata entry with its
   * value.
   */
  lemma HtmlTableMetadata(year: int, htmlContent: Option<string>, metadata: Metadata, locate: Locate)
    requires HtmlTableRecords(year, htmlContent, metadata, locate).Ok?
    ensures var records := HtmlTableRecords(year, htmlContent, metadata, locate).value;
      && AllItemsWith(records, metadata)
      && forall rec :: rec in records ==>
           AsObject(rec).Keys == ItemKeys + metadata.Keys && forall k :: k in metadata ==> AsObject(rec)[k] == Str(metadata[k])
  {
    if HasText(htmlContent) && locate(htmlContent.value).Some? {
      HtmlRecordsCarryMetadata(locate(htmlContent.value).value.bodies[0], year, metadata);
    }
    ItemObjects(HtmlTableRecords(year, htmlContent, metadata, locate).value, metadata);
  }

  /** A sub-item row before any item row has no record to go to: the parse raises. */
  lemma OrphanSubItemRaises(rows: seq<Row>, cells: Row, year: int, metadata: Metadata)
    requires CountItemRows(rows) == 0 && IsSubItemRow(cells)
    ensures HtmlRows(rows + [cells], year, metadata).Err?
  {
    assert (rows + [cells])[..|rows|] == rows;
    if HtmlRows(rows, year, metadata).Ok? {
      HtmlRecordCount(rows, year, metadata);
      HtmlStepEffect(HtmlRows(rows, year, metadata).value, cells, year, metadata);
    }
  }

  /** One iteration of `parse_import_export_table`: a record from the first three cells of a row. */
  function BilateralRow(cells: Row, year: int, metadata: Metadata): (r: Result<Record, Error>)
    ensures r.Ok? <==> |cells| >= 3
  {
    if |cells| < 3 then Err(IndexError)
    else Ok(Bilateral(cells[0].text, ParseStrToNumber(cells[1].text), ParseStrToNumber(cells[2].text), year, metadata))
  }

  /** The loop of `parse_import_export_table` over `rows`: the first short row raises. */
  function BilateralRows(rows: seq<Row>, year: int, metadata: Metadata): Result<seq<Record>, Error>
  {
    if rows == [] then Ok([])
    else match BilateralRows(rows[..|rows| - 1], year, metadata)
      case Err(e) => Err(e)
      case Ok(results) =>
        match BilateralRow(rows[|rows| - 1], year, metadata)
        case Err(e) => Err(e)
        case Ok(record) => Ok(results + [record])
  }

  /** What `parse_import_export_table` returns. */
  function ImportExportTableRecords(year: int, htmlContent: Option<string>, metadata: Metadata, locate: Locate): Result<seq<Record>, Error>
  {
    if !HasText(htmlContent) then Ok([])
    else match locate(htmlContent.value)
      case None => Ok([])
      case Some(table) =>
        if |table.bodies| == 0 then Err(IndexError)
        else BilateralRows(table.bodies[0], year, metadata)
  }

  /**
   * `parse_import_export_table`: one record per row of the table's first
   * body, in row order, each with `country`, `quantity`, `amount`, `year`
   * and the metadata; a row of fewer than three cells raises.
   */
  method ParseImportExportTable(year: int, htmlContent: Option<string>, metadata: Metadata, locate: Locate)
    returns (r: Result<seq<Record>, Error>)
    ensures r == ImportExportTableRecords(year, htmlContent, metadata, locate)
    ensures !HasText(htmlContent) ==> r == Ok([])
    ensures HasText(htmlContent) && locate(htmlContent.value).None? ==> r == Ok([])
  {
    if htmlContent.None? || htmlContent.value == "" {
      return Ok([]);
    }
    var table := locate(htmlContent.value);
    if table.None? {
      return Ok([]);
    }
    if |table.value.bodies| == 0 {
      return Err(IndexError);
    }
    r := BilateralLoop(table.value.bodies[0], year, metadata);
  }

  /** The row loop of `parse_import_export_table`. */
  method BilateralLoop(rows: seq<Row>, year: int, metadata: Metadata) returns (r: Result<seq<Record>, Error>)
    ensures r == BilateralRows(rows, year, metadata)
  {
    var results: seq<Record> := [];
    var i := 0;
    while i < |rows|
      invariant 0 <= i <= |rows|
      invariant BilateralRows(rows[..i], year, metadata) == Ok(results)
    {
      var cells := rows[i];
      assert rows[..i + 1][..i] == rows[..i];
      if |cells| < 3 {
        BilateralErrorPersists(rows, i + 1, year, metadata);
        return Err(IndexError);
      }
      var item := Bilateral(cells[0].text, ParseStrToNumber(cells[1].text), ParseStrToNumber(cells[2].text), year, metadata);
      results := results + [item];
      i := i + 1;
    }
    assert rows[..i] == rows;
    return Ok(results);
  }

  lemma {:induction false} BilateralErrorPersists(rows: seq<Row>, i: nat, year: int, metadata: Metadata)
    requires i <= |rows| && BilateralRows(rows[..i], year, metadata).Err?
    ensures BilateralRows(rows, year, metadata) == BilateralRows(rows[..i], year, metadata)
    decreases |rows|
  {
    if i < |rows| {
      assert rows[..|rows| - 1][..i] == rows[..i];
      BilateralErrorPersists(rows[..|rows| - 1], i, year, metadata);
    } else {
      assert rows[..i] == rows;
    }
  }

  /** The row loop succeeds exactly when every row has at least three cells. */
  lemma {:induction false} BilateralRowsOk(rows: seq<Row>, year: int, metadata: Metadata)
    ensures BilateralRows(rows, year, metadata).Ok? <==> forall i :: 0 <= i < |rows| ==> |rows[i]| >= 3
  {
    if rows != [] {
      var prefix := rows[..|rows| - 1];
      BilateralRowsOk(prefix, year, metadata);
      assert forall i :: 0 <= i < |prefix| ==> prefix[i] == rows[i];
    }
  }

  /** A successful row loop gives one record per row. */
  lemma {:induction false} BilateralRowsLength(rows: seq<Row>, year: int, metadata: Metadata)
    requires BilateralRows(rows, year, metadata).Ok?
    ensures |BilateralRows(rows, year, metadata).value| == |rows|
  {
    if rows != [] {
      BilateralRowsLength(rows[..|rows| - 1], year, metadata);
    }
  }

  /** The `i`-th record of a successful row loop is the one built from the `i`-th row. */
  lemma {:induction false} BilateralRowsAt(rows: seq<Row>, i: nat, year: int, metadata: Metadata)
    requires BilateralRows(rows, year, metadata).Ok? && i < |rows|
    ensures |BilateralRows(rows, year, metadata).value| == |rows|
    ensures BilateralRow(rows[i], year, metadata) == Ok(BilateralRows(rows, year, metadata).value[i])
    decreases |rows|
  {
    var prefix, last := rows[..|rows| - 1], rows[|rows| - 1];
    var p := BilateralRows(prefix, year, metadata);
    BilateralRowsLength(rows, year, metadata);
    BilateralRowsLength(prefix, year, metadata);
    if i < |prefix| {
      BilateralRowsAt(prefix, i, year, metadata);
      assert rows[i] == prefix[i];
      assert BilateralRows(rows, year, metadata).value[i] == p.value[i];
    }
  }

  /** Every record of a successful row loop is a per-country record carrying the metadata. */
  lemma {:induction false} BilateralRowsCarryMetadata(rows: seq<Row>, year: int, metadata: Metadata)
    requires BilateralRows(rows, year, metadata).Ok?
    ensures AllBilateralWith(BilateralRows(rows, year, metadata).value, metadata)
  {
    if rows != [] {
      var prefix := rows[..|rows| - 1];
      BilateralRowsCarryMetadata(prefix, year, metadata);
      AllBilateralWithAppend(BilateralRows(prefix, year, metadata).value,
                             BilateralRow(rows[|rows| - 1], year, metadata).value, metadata);
    }
  }

  /**
   * As served, every record of a successful `parse_import_export_table` has
   * exactly the per-country fields and the metadata keys, and every
   * metadata entry with its value.
   */
  lemma ImportExportTableMetadata(year: int, htmlContent: Option<string>, metadata: Metadata, locate: Locate)
    requires ImportExportTableRecords(year, htmlContent, metadata, locate).Ok?
    ensures var records := ImportExportTableRecords(year, htmlContent, metadata, locate).value;
      && AllBilateralWith(records, metadata)
      && forall rec :: rec in records ==>
           AsObject(rec).Keys == BilateralKeys + metadata.Keys && forall k :: k in metadata ==> AsObject(rec)[k] == Str(metadata[k])
  {
    if HasText(htmlContent) && locate(htmlContent.value).Some? {
      BilateralRowsCarryMetadata(locate(htmlContent.value).value.bodies[0], year, metadata);
    }
    BilateralObjects(ImportExportTableRecords(year, htmlContent, metadata, locate).value, metadata);
  }

  /**
   * Whenever the table has a body, the parse succeeds exactly when every row
   * has at least three cells, and then gives one record per row, in row
   * order, each from that row's cells and carrying the metadata.
   */
  lemma ImportExportOneRecordPerRow(year: int, htmlContent: Option<string>, metadata: Metadata, locate: Locate)
    requires HasText(htmlContent) && locate(htmlContent.value).Some?
    requires |locate(htmlContent.value).value.bodies| > 0
    ensures var rows: seq<Row> := locate(htmlContent.value).value.bodies[0];
      var r := ImportExportTableRecords(year, htmlContent, metadata, locate);
      && (r.Ok? <==> forall i :: 0 <= i < |rows| ==> |rows[i]| >= 3)
      && (r.Ok? ==> |r.value| == |rows| && forall i :: 0 <= i < |rows| ==>
            r.value[i] == Bilateral(rows[i][0].text, ParseStrToNumber(rows[i][1].text),
                                          ParseStrToNumber(rows[i][2].text), year, metadata))
  {
    var rows: seq<Row> := locate(htmlContent.value).value.bodies[0];
    BilateralRowsOk(rows, year, metadata);
    if BilateralRows(rows, year, metadata).Ok? {
      BilateralRowsLength(rows, year, metadata);
      forall i | 0 <= i < |rows|
        ensures BilateralRow(rows[i], year, metadata) == Ok(BilateralRows(rows, year, metadata).value[i])
      {
        BilateralRowsAt(rows, i, year, metadata);
      }
    }
  }

  /** A lone digit is itself. */
  lemma OneExample()
    ensures ParseStrToNumber("1") == 1
  {
  }

  /** On the site a dot groups the thousands: `1.000` is a thousand. */
  lemma DotSeparatedExample()
    ensures ParseStrToNumber("1.000") == 1000
  {
    assert RemoveAll("1.000", '.') == "1000";
    assert DigitsValue("1000") == 1000 by {
      assert "1000"[..3] == "100" && "100"[..2] == "10" && "10"[..1] == "1";
    }
  }

  /** The site prints `-` for no quantity; it counts as 0, as does an empty cell. */
  lemma DashExample()
    ensures ParseStrToNumber("-") == 0 && ParseStrToNumber("") == 0
  {
    NormalizeNonNumeric("-", '.');
    NormalizeNonNumeric("", '.');
  }

  /**
   * An item row followed by two sub-item rows (TINTAS, then Bacarina and
   * Bailey on the production page): one record holding both sub-items, in
   * row order.
   */
  lemma ItemWithSubItems(item: Row, first: Row, second: Row, year: int, metadata: Metadata)
    requires IsItemRow(item) && |item| >= 2 && IsSubItemRow(first) && IsSubItemRow(second)
    requires "sub_items" !in metadata
    ensures HtmlRows([item, first, second], year, metadata)
      == Ok([Item(item[0].text, ParseStrToNumber(item[1].text), year, [SubItemOf(first), SubItemOf(second)], metadata)])
  {
    var rows := [item, first, second];
    var record := Item(item[0].text, ParseStrToNumber(item[1].text), year, [], metadata);
    var once := record.(subItems := [SubItemOf(first)]);
    assert HtmlRows(rows[..1], year, metadata) == Ok([record]) by {
      assert rows[..1][..0] == [];
      HtmlStepItem([], item, year, metadata);
      assert [] + [record] == [record];
    }
    assert HtmlRows(rows[..2], year, metadata) == Ok([once]) by {
      assert rows[..2][..1] == rows[..1];
      HtmlStepSubItem([record], first, year, metadata);
      AppendSubItemToItem([record], SubItemOf(first));
      assert [] + [SubItemOf(first)] == [SubItemOf(first)];
    }
    assert rows[..2] == rows[..|rows| - 1];
    HtmlStepSubItem([once], second, year, metadata);
    AppendSubItemToItem([once], SubItemOf(second));
    assert [SubItemOf(first)] + [SubItemOf(second)] == [SubItemOf(first), SubItemOf(second)];
  }
}
