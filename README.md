# embrapa-api in Dafny

A model of the data layer of embrapa-api. This service publishes the viticulture statistics of
Embrapa's Vitibrasil site (production, commercialization, processing, import and export of
grapes and wine) as lists of JSON records.

For each dataset and year, a service asks the site for the page. When the page has text, the
service parses its `tb_base tb_dados` table. Otherwise it falls back to a CSV copy of the data on
disk. There are two record shapes:

- **Item records** `{item, quantity, year, sub_items}`: production, commercialization and
  processing.
- **Per-country records** `{country, quantity, amount, year}`: import and export.

The modules follow the repository's files:

- `Wrappers`: `Option` and `Result`.
- `Numbers` (both `parse_str_to_number`s): `int()` on decimal literals, `f"{n}"`, the separator-stripping normaliser, the thousands-grouped form the site prints.
- `Text` (`str.strip`, `str.isupper`): the Python string methods the CSV parser calls.
- `Records` (the record dictionaries): records as data plus merged metadata; `AsObject` is the dictionary Python holds after `item.update(metadata)`; the in-place `results[-1]["sub_items"].append(...)`; the Python exceptions.
- `Scraping` (app/scraping.py): `SCRAPER_TARGETS`, the `.` normaliser, `parse_html_table`, `parse_import_export_table`.
- `ParserCsv` (app/parser_csv.py): the `,` normaliser, `csv.DictReader` rows, `general_csv`, `import_export_csv`.
- `Services` (app/services.py): the five dataset services and their fallback policy.

How the Python code maps onto Dafny:

- **Exceptions.** A Python exception that escapes a parser becomes `Err(...)`, named after the
  exception: `IndexError`, `TypeError`, `AttributeError`, `KeyError`, `ValueError`,
  `FileNotFoundError`, or `StopIteration`.
- **Parsers.** Each parser is an imperative method whose loop keeps the source's `results` list.
  Each method is proved equal to a recursive specification function over the prefix of rows
  already read, e.g. `HtmlRows` or `GeneralRows`. The properties are lemmas about those
  functions.
- **Services.** A service is a conditional and a few calls, so it is a pure function over the
  parsers' specification functions.
- **Outside world.** The HTTP request, BeautifulSoup and file reading are parameters:
  - a `Fetch` function gives the page text;
  - a `Locate` function gives the table as rows of cells, each cell with its classes and trimmed
    text;
  - a `CsvReader` gives the lines of a file already split at the delimiter.

Three behaviours of the code are easy to miss:

- **Orphan sub-item row.** In `parse_html_table`, a sub-item row before any item row raises
  `IndexError` (`results[-1]` on an empty list). It is not silently dropped
  (`Scraping.OrphanSubItemRaises`). Only `general_csv` skips such rows.
- **Processing metadata.** `processing_data` does not pass its metadata to `parse_html_table`.
  Processing records never carry `category` (`Services.ProcessingWithoutCategory`).
- **CSV fallback metadata.** `import_export_csv` takes no metadata. Import and export records
  read from the CSV fallback carry no `category`, unlike those read from the page
  (`Services.ImportCategoryOnPageOnly`).

## Model

| member | source | states |
|---|---|---|
| Numbers.ParseInt | app/parser_csv.py:78 | `int()` on text: a value exactly for an optional sign followed by at least one digit (`IsIntLiteral`), `None` where `int` raises `ValueError`; the round trip is `Numbers.ParseIntRoundTrip` |
| Numbers.NatToString | app/parser_csv.py:38 | `f"{n}"` of a natural number is a non-empty string of digits with no leading zero unless it is `"0"`; its value is `Numbers.NatToStringValue` |
| Numbers.IntToString | app/services.py:7 | `f"{year}"` of any integer, as the URLs and the CSV column names use it; `int()` reads it back (`Numbers.ParseIntRoundTrip`) |
| Numbers.RemoveAll | app/scraping.py:49 | `str.replace(sep, "")`; stated by `Numbers.RemoveAllRemoves`, `Numbers.RemoveAllUnchanged` and `Numbers.NormalizeIgnoresSeparators` |
| Numbers.Normalize | app/scraping.py:46-51 | the shared normaliser: drop the separator, `int()` the rest, 0 where it raises; stated by `Numbers.NormalizeGrouped` and `Numbers.NormalizeNonNumeric` |
| Numbers.ParseIntRoundTrip | app/scraping.py:49 | `int()` of the decimal rendering of any integer gives that integer back |
| Numbers.ParseIntNeedsADigit | app/scraping.py:49-51 | text with no digit is never an integer literal, so `int()` raises on it |
| Numbers.RemoveAllRemoves | app/scraping.py:49 | after `replace(".", "")` no separator is left |
| Numbers.RemoveAllUnchanged | app/scraping.py:49 | text without the separator is left as it is by the replace |
| Numbers.NormalizeGrouped | app/scraping.py:46-51 | a number written with thousands separators, as the site prints it, normalises back to that number, for any separator that is neither a digit nor a sign |
| Numbers.NormalizeIgnoresSeparators | app/parser_csv.py:13 | removing the separators first never changes the normalised value |
| Numbers.NormalizeNonNumeric | app/scraping.py:50-51 | text without a digit (`-`, empty) normalises to 0 instead of raising |
| Text.Strip | app/parser_csv.py:37 | `strip()` gives the slice of the text between its leading and its trailing whitespace: everything before and after the slice is whitespace, neither end of the result is, and text without whitespace at its ends is kept whole |
| Text.IsUpper | app/parser_csv.py:34 | `str.isupper()`: some upper-case letter and no lower-case one (ASCII and Latin-1) |
| Records.Fields | app/scraping.py:73-78 | an item record has exactly `item`, `quantity`, `year`, `sub_items`; a per-country record exactly `country`, `quantity`, `amount`, `year` |
| Records.Overlay | app/scraping.py:79 | `update(metadata)` adds every metadata key, a metadata value replaces a field of the same name, every other field is kept |
| Records.ObjectOf | app/scraping.py:73-80 | the served object has the record's fields plus the metadata keys, every metadata value, and each field the metadata does not name as built |
| Records.AppendSubItem | app/scraping.py:86-91 | `IndexError` on an empty list; success exactly when the last record is an item whose list metadata did not replace; then only the last record changes, by `sub` at the end of its list, and the sub-items read in order gain `sub` at the end |
| Records.AppendSubItemObject | app/scraping.py:86 | in terms of the served objects: the append succeeds exactly when the last object's `sub_items` is a list, and only that list changes |
| Records.AppendSubItemToItem | app/scraping.py:86-91 | appending to an item record whose metadata has no `sub_items` key extends its list and keeps every earlier record |
| Records.AppendSubItemKeepsItems | app/scraping.py:86-91 | an append keeps every record an item record with the same metadata |
| Records.ItemObjects | app/scraping.py:73-80 | served item records carrying some metadata have exactly the item fields plus its keys, with its values |
| Records.BilateralObjects | app/scraping.py:115-121 | served per-country records carrying some metadata have exactly the per-country fields plus its keys, with its values |
| Scraping.CategoryUrl | app/scraping.py:7-29 | `SCRAPER_TARGETS[group][category]`, `KeyError` for an unknown group or category; which categories have a page is stated by `Services.ProcessingCategoriesAreTargets` and its import and export twins |
| Scraping.ParseStrToNumber | app/scraping.py:46-51 | `parse_str_to_number` with `.` as the separator; stated by `Scraping.OneExample`, `Scraping.DotSeparatedExample`, `Scraping.DashExample` and, for every integer, `Numbers.NormalizeGrouped` |
| Scraping.HasText | app/scraping.py:56 | `if not html_content`: absent or empty content; the `[]` it gives is stated by `Scraping.ParseHtmlTable` and `Scraping.ParseImportExportTable`, the fallback it selects by `Services.ProductionFallback` |
| Scraping.HtmlStep | app/scraping.py:70-91 | one iteration of the row loop of `parse_html_table`; its effect is `Scraping.HtmlStepEffect` |
| Scraping.HtmlStepEffect | app/scraping.py:69-91 | one row, every branch: an empty row, and an item or `tb_subitem` row with one cell, raise `IndexError`; a first cell, or a second cell after `tb_subitem`, without a class raises `TypeError`; an item row appends exactly one record and changes none before it; a sub-item row is an append to the last record; any other row succeeds and changes nothing |
| Scraping.HtmlStepItem | app/scraping.py:72-80 | an item row appends `{item: first cell, quantity: normalised second cell, year, sub_items: []}` with the metadata |
| Scraping.HtmlStepSubItem | app/scraping.py:82-91 | a row whose first two cells are `tb_subitem` appends `{name, quantity}` to the last record |
| Scraping.HtmlErrorPersists | app/scraping.py:69-91 | once a row raises, later rows are never looked at |
| Scraping.ParseHtmlTable | app/scraping.py:54-93 | the method returns what `HtmlTableRecords` specifies; `[]` for absent or empty content and for a page without the table |
| Scraping.HtmlLoop | app/scraping.py:66-93 | the row loop, with its in-place append to the last record, computes `HtmlRows` |
| Scraping.HtmlRecordCount | app/scraping.py:69-80 | a successful parse has one top-level record per item row |
| Scraping.HtmlSubItemsInRowOrder | app/scraping.py:82-91 | the records' sub-item lists, read one after another, are exactly the sub-item rows' `{name, quantity}`, in row order |
| Scraping.HtmlRecordsCarryMetadata | app/scraping.py:79-80 | every record of a successful row loop is an item record carrying exactly the metadata |
| Scraping.HtmlTableMetadata | app/scraping.py:54-93 | every served record of a successful parse has the item fields plus the metadata keys, with the metadata values |
| Scraping.OrphanSubItemRaises | app/scraping.py:86 | a sub-item row before any item row makes the parse raise |
| Scraping.ItemWithSubItems | app/scraping.py:69-91 | an item row followed by two sub-item rows (TINTAS, then Bacarina and Bailey) gives one record holding both sub-items in that order |
| Scraping.OneExample | tests/test_scraping.py:4-5 | `"1"` normalises to 1 |
| Scraping.DotSeparatedExample | tests/test_scraping.py:8-9 | `"1.000"` normalises to 1000 |
| Scraping.DashExample | tests/test_scraping.py:12-13 | `"-"` and the empty text normalise to 0 |
| Scraping.BilateralRow | app/scraping.py:113-121 | a row gives a record exactly when it has at least three cells |
| Scraping.ParseImportExportTable | app/scraping.py:96-124 | the method returns what `ImportExportTableRecords` specifies; `[]` for absent or empty content and for a page without the table |
| Scraping.BilateralLoop | app/scraping.py:109-124 | the row loop computes `BilateralRows` |
| Scraping.BilateralErrorPersists | app/scraping.py:112-122 | once a row raises, later rows are never looked at |
| Scraping.BilateralRowsOk | app/scraping.py:112-120 | the row loop succeeds exactly when every row has at least three cells |
| Scraping.BilateralRowsLength | app/scraping.py:112-122 | a successful row loop gives one record per row |
| Scraping.BilateralRowsAt | app/scraping.py:112-122 | the i-th record is the one built from the i-th row |
| Scraping.BilateralRowsCarryMetadata | app/scraping.py:121 | every record is a per-country record carrying exactly the metadata |
| Scraping.ImportExportTableMetadata | app/scraping.py:96-124 | every served record of a successful parse has the per-country fields plus the metadata keys, with the metadata values |
| Scraping.ImportExportOneRecordPerRow | app/scraping.py:96-124 | with a table body, the parse succeeds exactly when every row has three cells, and then gives one record per row, in order, each from that row's cells |
| ParserCsv.PyStr | app/parser_csv.py:13 | `str(value)` of a field, with a missing field printing as `None`; stated by `ParserCsv.MissingFieldExample` |
| ParserCsv.ParseStrToNumber | app/parser_csv.py:10-15 | `parse_str_to_number` on `str(value)` with `,` as the separator; stated by the three examples below and `Numbers.NormalizeGrouped` |
| ParserCsv.CommaSeparatedExample | app/parser_csv.py:13 | `"1,000"` normalises to 1000 |
| ParserCsv.DotSeparatedExample | app/parser_csv.py:13-15 | `"1.000"` is not an integer once only commas are removed, and counts as 0 |
| ParserCsv.MissingFieldExample | app/parser_csv.py:13 | a missing field is `str(None)`, `"None"`, and counts as 0 |
| ParserCsv.ReadCsvFile | app/parser_csv.py:18-21 | `read_csv_file`: `FileNotFoundError` for a missing file, otherwise the `csv.DictReader` rows; stated by `ParserCsv.ReadCsvFileColumns` |
| ParserCsv.ReadCsvFileColumns | app/parser_csv.py:18-21 | a missing file raises `FileNotFoundError`, any other succeeds, and every row has exactly the columns of the first line |
| ParserCsv.DictRowsUnder | app/parser_csv.py:21 | the rows `csv.DictReader` yields under a header, blank lines skipped; stated by `ParserCsv.DictRowsColumns` and `ParserCsv.PadAt` |
| ParserCsv.DictRowsColumns | app/parser_csv.py:21 | every row `csv.DictReader` yields has exactly the columns the header names |
| ParserCsv.Pad | app/parser_csv.py:21 | a line under `n` columns has `n` fields |
| ParserCsv.PadAt | app/parser_csv.py:21 | each column holds the line's own field, or `None` past the line's end |
| ParserCsv.DictRowColumn | app/parser_csv.py:21 | under distinct column names a row has every column, holding the field or `None` |
| ParserCsv.Entry | app/parser_csv.py:37-38 | a sub-item exactly when the key column exists and has a field and the `{year}` column exists; it is then the stripped key field and the normalised `{year}` field |
| ParserCsv.GeneralStep | app/parser_csv.py:34-49 | one iteration of the row loop of `general_csv`; its effect is `ParserCsv.GeneralStepEffect` |
| ParserCsv.GeneralStepEffect | app/parser_csv.py:33-49 | one row, every branch: a missing `control` column raises `KeyError`, a missing `control` field `AttributeError`; an item row (`isupper()` or empty) appends exactly one record with no metadata, and raises exactly when its fields cannot be read; a sub-item row appends to the last record, raises what reading its fields raises, or is skipped when there is no record; any other row succeeds and changes nothing |
| ParserCsv.GeneralErrorPersists | app/parser_csv.py:33-49 | once a row raises, later rows are never looked at |
| ParserCsv.GeneralCsv | app/parser_csv.py:24-50 | the method returns what `GeneralCsvRecords` specifies; a missing file raises `FileNotFoundError` |
| ParserCsv.GeneralLoop | app/parser_csv.py:31-50 | the row loop, with its in-place append to the last record, computes `GeneralRows` |
| ParserCsv.GeneralRecordCount | app/parser_csv.py:33-42 | one top-level record per item row |
| ParserCsv.GeneralSubItemsInRowOrder | app/parser_csv.py:43-49 | the records' sub-items, read in order, are the sub-item rows after the first item row, in row order |
| ParserCsv.GeneralRecordsWithoutMetadata | app/parser_csv.py:35-42 | every record is an item record with no metadata |
| ParserCsv.GeneralCsvNoMetadata | app/parser_csv.py:24-50 | every served record has exactly the item fields |
| ParserCsv.UniqueHeaderNames | app/parser_csv.py:63-70 | one new name per header |
| ParserCsv.DisambiguateHeaders | app/parser_csv.py:63-70 | the loop over `header_counts` computes `UniqueHeaderNames` |
| ParserCsv.OccurrencesPositive | app/parser_csv.py:67 | a name's count is positive exactly when the name occurs |
| ParserCsv.UniqueHeaderNamesAt | app/parser_csv.py:66-70 | a header's first occurrence keeps its name; its k-th, for k of at least 2, becomes `name_k` |
| ParserCsv.Renamed | app/parser_csv.py:69 | the f-string `{header}_{count}` for a repeated header, the header itself for its first occurrence; stated by `ParserCsv.UniqueHeaderNamesAt` and `ParserCsv.RenamedDistinct` |
| ParserCsv.RenamedDistinct | app/parser_csv.py:69 | two different occurrences of a name get different new names |
| ParserCsv.UniqueHeaderNamesDistinct | app/parser_csv.py:63-70 | when no header holds `_`, the new names are pairwise distinct |
| ParserCsv.Zip | app/parser_csv.py:73 | `dict(zip(keys, values))`; stated by `ParserCsv.ZipTruncates`, `ZipKeys`, `ZipAt` and `ZipColumn` |
| ParserCsv.ZipAll | app/parser_csv.py:72-73 | one row per data line |
| ParserCsv.ZipRows | app/parser_csv.py:72-73 | the zip loop computes `ZipAll` |
| ParserCsv.ZipTruncates | app/parser_csv.py:73 | `zip` keeps only the first `min(len)` pairs |
| ParserCsv.ZipKeys | app/parser_csv.py:73 | with as many fields as names, the row's keys are the names |
| ParserCsv.ZipAt | app/parser_csv.py:73 | a name that does not occur again later maps to its own field |
| ParserCsv.ZipColumn | app/parser_csv.py:73 | with distinct names, every column the line reaches can be looked up by its name |
| ParserCsv.ZipAllAt | app/parser_csv.py:72-73 | the i-th row comes from the i-th line |
| ParserCsv.ImportExportColumn | app/parser_csv.py:63-73 | when no header holds `_`, every field can be read back under its header's new name |
| ParserCsv.ImportExportYearColumns | app/parser_csv.py:63-79 | when the year heads two columns, and the year's header occurs only once before the second, the first is read as `{year}` (quantity) and the second as `{year}_2` (amount) |
| ParserCsv.BilateralCsvRecord | app/parser_csv.py:76-81 | a record exactly when `País`, `{year}` and `{year}_2` exist and both numbers are integer literals: country, plain `int` quantity and amount, the year, no metadata |
| ParserCsv.BilateralCsvErrorPersists | app/parser_csv.py:75-82 | once a row raises, later rows are never looked at |
| ParserCsv.BilateralCsvLoop | app/parser_csv.py:75-84 | the record loop computes `BilateralCsvRows` |
| ParserCsv.BilateralCsvRowsOk | app/parser_csv.py:75-82 | the record loop succeeds exactly when every row gives a record |
| ParserCsv.BilateralCsvRowsLength | app/parser_csv.py:75-82 | one record per row |
| ParserCsv.BilateralCsvRowsAt | app/parser_csv.py:75-82 | the i-th record is the one built from the i-th row |
| ParserCsv.BilateralCsvRowsWithoutMetadata | app/parser_csv.py:76-82 | every record is a per-country record with no metadata |
| ParserCsv.ImportExportCsv | app/parser_csv.py:53-84 | the method returns what `ImportExportCsvRecords` specifies; `FileNotFoundError` for a missing file, `StopIteration` for an empty one |
| ParserCsv.ImportExportCsvOneRecordPerLine | app/parser_csv.py:53-84 | the parse succeeds exactly when every later line gives a record, and then gives one record per later line, in order, each from that line zipped with the renamed headers |
| ParserCsv.ImportExportCsvNoMetadata | app/parser_csv.py:53-84 | every served record has exactly the per-country fields |
| Services.YearUrl | app/services.py:7 | the f-string `{target}&ano={year}`; stated by `Services.UrlEndsWithYear` |
| Services.ProcessingDelimiter | app/services.py:47 | `;` for `viniferas`, a tab otherwise; stated by `Services.ProcessingFallback` |
| Services.ImportDelimiter | app/services.py:65 | `;` for `suco-de-uva`, a tab otherwise; stated by `Services.ImportExportFallback` |
| Services.ProductionData | app/services.py:5-17 | `production_data`; its routing is `Services.ProductionFallback` |
| Services.CommercializationData | app/services.py:20-32 | `commercialization_data`; its routing is `Services.CommercializationFallback` |
| Services.ProcessingData | app/services.py:35-48 | `processing_data`; its routing and errors are `Services.ProcessingFallback`, its records `Services.ProcessingWithoutCategory` |
| Services.ImportData | app/services.py:51-66 | `import_data`; its routing and errors are `Services.ImportExportFallback`, its records `Services.ImportCategoryOnPageOnly` |
| Services.ExportData | app/services.py:69-84 | `export_data`; its routing and errors are `Services.ImportExportFallback`, its records `Services.ExportCategoryOnPageOnly` |
| Services.UrlEndsWithYear | app/services.py:6-8 | the page asked for is the target followed by `&ano=` and the year, which reads back as the year |
| Services.ProductionFallback | app/services.py:5-17 | page text: the table parser's result, whatever the file holds; no text: `general_csv` on `producao.csv` with `produto` and `;`, whatever the page's table |
| Services.CommercializationFallback | app/services.py:20-32 | the same, on `comercializacao.csv` with `Produto` |
| Services.ProcessingFallback | app/services.py:35-48 | `KeyError` without a category or with an unknown one; page text: the table parser without metadata; no text: `general_csv` on `processamento-{category}.csv` with `cultivar`, split at `;` exactly for `viniferas` |
| Services.ImportExportFallback | app/services.py:51-84 | `KeyError` without a category or with an unknown one; page text: the per-country parser with the metadata; no text: `import_export_csv` of the category's file, `;` exactly for `suco-de-uva` on import, always a tab on export |
| Services.FetchOnlyAtPage | app/services.py:36-39 | the result depends on the fetch only at the category's page for the year |
| Services.ProcessingCategoriesAreTargets | app/routers.py:90-92 | the processing endpoint's categories are exactly those with a page |
| Services.ImportCategoriesAreTargets | app/routers.py:112-114 | the import endpoint's categories are exactly those with a page |
| Services.ExportCategoriesAreTargets | app/routers.py:134 | the export endpoint's categories are exactly those with a page |
| Services.ProcessingWithoutCategory | app/services.py:41 | processing records, from the page or the file, have exactly the item fields and never `category` |
| Services.ImportCategoryOnPageOnly | app/services.py:57-66 | import records from the page carry the metadata and its `category`; those from the file have exactly the per-country fields |
| Services.ExportCategoryOnPageOnly | app/services.py:75-84 | the same for export |

## Left out

- **The HTTP request.** `get_data`'s request (`requests.get`, its timeout, `raise_for_status`
  and the UTF-8 decoding) is the `Fetch` parameter. A failed request is `None`.
- **BeautifulSoup.** `soup.find`, `find_all` and `get_text(strip=True)` are the `Locate`
  parameter, which yields cells with their text already trimmed.
  - A cell with no `class` attribute and a cell whose `class` is empty both count as having no
    class, and give `TypeError`. In Python the second gives `IndexError`.
- **Files and the csv module.** Opening files, the file encoding, and the csv module's
  tokenising and quoting are the `CsvReader` parameter. It yields each line split at the
  delimiter; a blank line is an empty list.
  - The reader only says whether the file could be read. So any `OSError` from `open` (no
    permission, a directory at the path) is modelled as the missing file's `FileNotFoundError`.
  - `csv.DictReader`'s `restkey` entry for over-long lines is left out. It is keyed by `None`,
    which no lookup by column name reaches.
- **Logging.** Logging calls are left out.
- **Python `int()` edge cases.** Only an optional sign followed by ASCII digits is modelled.
  Surrounding whitespace, `_` digit separators and non-ASCII digits are left out. So `int(" 12 ")`
  is 12 in Python and 0 (or `ValueError` in `import_export_csv`) here.
- **`str.isupper()`.** Upper- and lower-case letters are classified for ASCII and Latin-1 only.
  `str.strip()` uses Python's full whitespace set.
- **Record shape.** Metadata values are strings, which is what every caller passes. JSON key
  order is not modelled; records compare as dictionaries.
- **The web layer.** app/routers.py, app/main.py, app/models.py and the auth module (FastAPI
  routing, query validation, tokens) are not part of this model. Only the router's lists of
  categories appear, as `Services.ProcessingCategories`, `ImportCategories` and
  `ExportCategories`.
- **The real fixture pages.** The HTML files the tests read are not part of this model.
  `Scraping.ItemWithSubItems` proves the TINTAS / Bacarina / Bailey outcome for any item row
  followed by two sub-item rows, not for the fixture's exact text.
- **ParserCsv.GeneralStepEffect: evaluation order.** In a CSV sub-item row, the model reads the
  row's fields before appending to the last record. Python looks up `results[-1]["sub_items"]`
  first. In `general_csv` that lookup cannot fail, since every record is an item record without
  metadata (`ParserCsv.GeneralRecordsWithoutMetadata`), so the results agree.
