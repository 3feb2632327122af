/**
 * app/services.py: one function per dataset. Each asks the statistics site
 * for the year's page and parses its table; when the request yields no
 * text it falls back to the dataset's CSV file. The request itself
 * (`scraping.get_data`) is not part of the model: a service receives a
 * `Fetch` function standing for it.
 */
module Services {
  import opened Wrappers
  import opened Numbers
  import opened Records
  import opened Scraping
  import opened ParserCsv

  /** `scraping.get_data(url)`: the page text, or `None` when the request failed. */
  type Fetch = string -> Option<string>

  /** Where the fallback CSV files live. */
  const FilesDir := "/Users/marianna/pos-fiap/projeto/files/"

  /** `f"{page}&ano={year}"`: the page of one year. */
  function YearUrl(page: string, year: int): string
  {
    page + "&ano=" + IntToString(year)
  }

  /** The fallback delimiter of `processing_data`. */
  function ProcessingDelimiter(category: string): string
  {
    if category == "viniferas" then ";" else "\t"
  }

  /** The fallback delimiter of `import_data`. */
  function ImportDelimiter(category: string): string
  {
    if category == "suco-de-uva" then ";" else "\t"
  }

  /** `production_data`. */
  function ProductionData(year: int, fetch: Fetch, locate: Locate, read: CsvReader): Result<seq<Record>, Error>
  {
    var content := fetch(YearUrl(ScraperTargets["producao"].url, year));
    if HasText(content) then HtmlTableRecords(year, content, map[], locate)
    else GeneralCsvRecords(read, FilesDir + "producao.csv", year, "produto", ";")
  }

  /** `commercialization_data`. */
  function CommercializationData(year: int, fetch: Fetch, locate: Locate, read: CsvReader): Result<seq<Record>, Error>
  {
    var content := fetch(YearUrl(ScraperTargets["comercializacao"].url, year));
    if HasText(content) then HtmlTableRecords(year, content, map[], locate)
    else GeneralCsvRecords(read, FilesDir + "comercializacao.csv", year, "Produto", ";")
  }

  /**
   * `processing_data`: the category comes from the metadata, but the
   * metadata is not handed on to the table parser.
   */
  function ProcessingData(year: int, metadata: Metadata, fetch: Fetch, locate: Locate, read: CsvReader)
    : Result<seq<Record>, Error>
  {
    if "category" !in metadata then Err(KeyError("category"))
    else
      var category := metadata["category"];
      match CategoryUrl("processamento", category)
      case Err(e) => Err(e)
      case Ok(page) =>
        var content := fetch(YearUrl(page, year));
        if HasText(content) then HtmlTableRecords(year, content, map[], locate)
        else GeneralCsvRecords(read, FilesDir + "processamento-" + category + ".csv", year, "cultivar",
                               ProcessingDelimiter(category))
  }

  /** `import_data`: the metadata is merged into every record of the page. */
  function ImportData(year: int, metadata: Metadata, fetch: Fetch, locate: Locate, read: CsvReader)
    : Result<seq<Record>, Error>
  {
    if "category" !in metadata then Err(KeyError("category"))
    else
      var category := metadata["category"];
      match CategoryUrl("importacao", category)
      case Err(e) => Err(e)
      case Ok(page) =>
        var content := fetch(YearUrl(page, year));
        if HasText(content) then ImportExportTableRecords(year, content, metadata, locate)
        else ImportExportCsvRecords(read, FilesDir + "importacao-" + category + ".csv", year, ImportDelimiter(category))
  }

  /** `export_data`: as `import_data`, with the tab as the only fallback delimiter. */
  function ExportData(year: int, metadata: Metadata, fetch: Fetch, locate: Locate, read: CsvReader)
    : Result<seq<Record>, Error>
  {
    if "category" !in metadata then Err(KeyError("category"))
    else
      var category := metadata["category"];
      match CategoryUrl("exportacao", category)
      case Err(e) => Err(e)
      case Ok(page) =>
        var content := fetch(YearUrl(page, year));
        if HasText(content) then ImportExportTableRecords(year, content, metadata, locate)
        else ImportExportCsvRecords(read, FilesDir + "exportacao-" + category + ".csv", year, "\t")
  }

  /** The page a categorised service asks for, once its category is known. */
  function CategoryPage(group: string, year: int, metadata: Metadata): Option<string>
  {
    if "category" in metadata && CategoryUrl(group, metadata["category"]).Ok? then
      Some(YearUrl(CategoryUrl(group, metadata["category"]).value, year))
    else None
  }

  /**
   * Every page a service asks for is its dataset's entry of the targets
   * followed by `&ano=` and the year, and the year can be read back from
   * the end of the address.
   */
  lemma UrlEndsWithYear(page: string, year: int)
    ensures var url := YearUrl(page, year);
      && url[..|page| + 5] == page + "&ano="
      && ParseInt(url[|page| + 5..]) == Some(year)
  {
    var url := YearUrl(page, year);
    assert url[|page| + 5..] == IntToString(year);
    ParseIntRoundTrip(year);
  }

  /**
   * Page first: when the page has text the result is the table parser's and
   * no file is read; otherwise it is `general_csv`'s on `producao.csv` with
   * the `produto` column and the table is never looked at.
   */
  lemma ProductionFallback(year: int, fetch: Fetch, locate: Locate, locate': Locate, read: CsvReader, read': CsvReader)
    ensures var content := fetch(YearUrl(Site + "opcao=opt_02", year));
      && (HasText(content) ==>
            && ProductionData(year, fetch, locate, read) == HtmlTableRecords(year, content, map[], locate)
            && ProductionData(year, fetch, locate, read') == ProductionData(year, fetch, locate, read))
      && (!HasText(content) ==>
            && ProductionData(year, fetch, locate, read) == GeneralCsvRecords(read, FilesDir + "producao.csv", year, "produto", ";")
            && ProductionData(year, fetch, locate', read) == ProductionData(year, fetch, locate, read))
  {
  }

  /** As `ProductionFallback`, on `comercializacao.csv` with the `Produto` column. */
  lemma CommercializationFallback(year: int, fetch: Fetch, locate: Locate, locate': Locate, read: CsvReader, read': CsvReader)
    ensures var content := fetch(YearUrl(Site + "opcao=opt_04", year));
      && (HasText(content) ==>
            && CommercializationData(year, fetch, locate, read) == HtmlTableRecords(year, content, map[], locate)
            && CommercializationData(year, fetch, locate, read') == CommercializationData(year, fetch, locate, read))
      && (!HasText(content) ==>
            && CommercializationData(year, fetch, locate, read)
               == GeneralCsvRecords(read, FilesDir + "comercializacao.csv", year, "Produto", ";")
            && CommercializationData(year, fetch, locate', read) == CommercializationData(year, fetch, locate, read))
  {
  }

  /**
   * Processing needs a category it knows, and raises `KeyError` otherwise;
   * with one it reads `processamento-{category}.csv` with the `cultivar`
   * column when the page has no text, split at `;` exactly for `viniferas`
   * and at a tab for every other category.
   */
  lemma ProcessingFallback(year: int, metadata: Metadata, fetch: Fetch, locate: Locate, read: CsvReader)
    ensures "category" !in metadata ==> ProcessingData(year, metadata, fetch, locate, read) == Err(KeyError("category"))
    ensures "category" in metadata && metadata["category"] !in ProcessingCategories ==>
      ProcessingData(year, metadata, fetch, locate, read) == Err(KeyError(metadata["category"]))
    ensures CategoryPage("processamento", year, metadata).Some? ==>
      var category, content := metadata["category"], fetch(CategoryPage("processamento", year, metadata).value);
      && (HasText(content) ==> ProcessingData(year, metadata, fetch, locate, read) == HtmlTableRecords(year, content, map[], locate))
      && (!HasText(content) ==>
            ProcessingData(year, metadata, fetch, locate, read)
            == GeneralCsvRecords(read, FilesDir + "processamento-" + category + ".csv", year, "cultivar",
                                 if category == "viniferas" then ";" else "\t"))
    ensures ProcessingDelimiter("viniferas") == ";"
    ensures forall category :: category != "viniferas" ==> ProcessingDelimiter(category) == "\t"
  {
    ProcessingCategoriesAreTargets();
  }

  /**
   * Import and export need a category they know, and raise `KeyError`
   * otherwise. Import reads `importacao-{category}.csv` when the page has
   * no text, split at `;` exactly for `suco-de-uva`; export reads
   * `exportacao-{category}.csv`, always split at a tab.
   */
  lemma ImportExportFallback(year: int, metadata: Metadata, fetch: Fetch, locate: Locate, read: CsvReader)
    ensures "category" !in metadata ==>
      ImportData(year, metadata, fetch, locate, read) == Err(KeyError("category"))
      && ExportData(year, metadata, fetch, locate, read) == Err(KeyError("category"))
    ensures "category" in metadata && metadata["category"] !in ImportCategories ==>
      ImportData(year, metadata, fetch, locate, read) == Err(KeyError(metadata["category"]))
    ensures "category" in metadata && metadata["category"] !in ExportCategories ==>
      ExportData(year, metadata, fetch, locate, read) == Err(KeyError(metadata["category"]))
    ensures CategoryPage("importacao", year, metadata).Some? ==>
      var category, content := metadata["category"], fetch(CategoryPage("importacao", year, metadata).value);
      && (HasText(content) ==> ImportData(year, metadata, fetch, locate, read) == ImportExportTableRecords(year, content, metadata, locate))
      && (!HasText(content) ==>
            ImportData(year, metadata, fetch, locate, read)
            == ImportExportCsvRecords(read, FilesDir + "importacao-" + category + ".csv", year,
                                      if category == "suco-de-uva" then ";" else "\t"))
    ensures CategoryPage("exportacao", year, metadata).Some? ==>
      var category, content := metadata["category"], fetch(CategoryPage("exportacao", year, metadata).value);
      && (HasText(content) ==> ExportData(year, metadata, fetch, locate, read) == ImportExportTableRecords(year, content, metadata, locate))
      && (!HasText(content) ==>
            ExportData(year, metadata, fetch, locate, read)
            == ImportExportCsvRecords(read, FilesDir + "exportacao-" + category + ".csv", year, "\t"))
  {
    ImportCategoriesAreTargets();
    ExportCategoriesAreTargets();
  }

  /** A service looks at the fetch only at its own page: fetches that agree there give the same result. */
  lemma FetchOnlyAtPage(year: int, metadata: Metadata, fetch: Fetch, fetch': Fetch, locate: Locate, read: CsvReader)
    requires CategoryPage("processamento", year, metadata).Some?
    requires fetch(CategoryPage("processamento", year, metadata).value)
          == fetch'(CategoryPage("processamento", year, metadata).value)
    ensures ProcessingData(year, metadata, fetch, locate, read) == ProcessingData(year, metadata, fetch', locate, read)
  {
  }

  /** The categories the processing endpoint accepts. */
  const ProcessingCategories: set<string> := {"viniferas", "americanas-e-hibridas", "uva-de-mesa", "sem-classificacao"}

  /** The categories the import endpoint accepts. */
  const ImportCategories: set<string> := {"vinhos-de-mesa", "espumantes", "uvas-frescas", "uvas-passas", "suco-de-uva"}

  /** The categories the export endpoint accepts. */
  const ExportCategories: set<string> := {"vinhos-de-mesa", "espumantes", "uvas-frescas", "suco-de-uva"}

  /** Every category the processing endpoint accepts has a page, and no other does. */
  lemma ProcessingCategoriesAreTargets()
    ensures forall c :: CategoryUrl("processamento", c).Ok? <==> c in ProcessingCategories
  {
  }

  /** Every category the import endpoint accepts has a page, and no other does. */
  lemma ImportCategoriesAreTargets()
    ensures forall c :: CategoryUrl("importacao", c).Ok? <==> c in ImportCategories
  {
  }

  /** Every category the export endpoint accepts has a page, and no other does. */
  lemma ExportCategoriesAreTargets()
    ensures forall c :: CategoryUrl("exportacao", c).Ok? <==> c in ExportCategories
  {
  }

  /**
   * Processing records never carry the category, whichever way they were
   * obtained: as served they have exactly the item fields.
   */
  lemma ProcessingWithoutCategory(year: int, metadata: Metadata, fetch: Fetch, locate: Locate, read: CsvReader)
    requires ProcessingData(year, metadata, fetch, locate, read).Ok?
    ensures forall rec :: rec in ProcessingData(year, metadata, fetch, locate, read).value ==>
              AsObject(rec).Keys == ItemKeys && "category" !in AsObject(rec)
  {
    var category := metadata["category"];
    var content := fetch(CategoryPage("processamento", year, metadata).value);
    if HasText(content) {
      HtmlTableMetadata(year, content, map[], locate);
    } else {
      GeneralCsvNoMetadata(read, FilesDir + "processamento-" + category + ".csv", year, "cultivar", ProcessingDelimiter(category));
    }
  }

  /**
   * Import records read from the page carry the metadata, so each has its
   * `category`; those read from the file carry none.
   */
  lemma ImportCategoryOnPageOnly(year: int, metadata: Metadata, fetch: Fetch, locate: Locate, read: CsvReader)
    requires ImportData(year, metadata, fetch, locate, read).Ok?
    ensures var records, content := ImportData(year, metadata, fetch, locate, read).value, fetch(CategoryPage("importacao", year, metadata).value);
      && (HasText(content) ==>
            forall rec :: rec in records ==>
              AsObject(rec).Keys == BilateralKeys + metadata.Keys && AsObject(rec)["category"] == Str(metadata["category"]))
      && (!HasText(content) ==> forall rec :: rec in records ==> AsObject(rec).Keys == BilateralKeys)
  {
    var category := metadata["category"];
    var content := fetch(CategoryPage("importacao", year, metadata).value);
    if HasText(content) {
      ImportExportTableMetadata(year, content, metadata, locate);
    } else {
      ImportExportCsvNoMetadata(read, FilesDir + "importacao-" + category + ".csv", year, ImportDelimiter(category));
    }
  }

  /** As `ImportCategoryOnPageOnly`, for export. */
  lemma ExportCategoryOnPageOnly(year: int, metadata: Metadata, fetch: Fetch, locate: Locate, read: CsvReader)
    requires ExportData(year, metadata, fetch, locate, read).Ok?
    ensures var records, content := ExportData(year, metadata, fetch, locate, read).value, fetch(CategoryPage("exportacao", year, metadata).value);
      && (HasText(content) ==>
            forall rec :: rec in records ==>
              AsObject(rec).Keys == BilateralKeys + metadata.Keys && AsObject(rec)["category"] == Str(metadata["category"]))
      && (!HasText(content) ==> forall rec :: rec in records ==> AsObject(rec).Keys == BilateralKeys)
  {
    var category := metadata["category"];
    var content := fetch(CategoryPage("exportacao", year, metadata).value);
    if HasText(content) {
      ImportExportTableMetadata(year, content, metadata, locate);
    } else {
      ImportExportCsvNoMetadata(read, FilesDir + "exportacao-" + category + ".csv", year, "\t");
    }
  }
}
