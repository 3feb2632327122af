/**
 * The records both parsers return, the JSON objects the API serves for
 * them, and the Python exceptions a parser can raise.
 *
 * A parser builds each record as a dictionary of its own fields and then
 * calls `record.update(metadata)`. The model keeps a record as its fields
 * and its metadata side by side (`Record`), and `AsObject` is the
 * dictionary Python holds: the fields with the metadata laid over them, so
 * a metadata entry named like a field replaces that field.
 */
module Records {
  import opened Wrappers

  /** An entry of an item record's `sub_items` list: `{"name": ..., "quantity": ...}`. */
  datatype SubItem = SubItem(name: string, quantity: int)

  /** Extra fields merged into every record, such as `{"category": "espumantes"}`. */
  type Metadata = map<string, string>

  /**
   * An item record `{item, quantity, year, sub_items}` of the production,
   * commercialization and processing tables, or a per-country record
   * `{country, quantity, amount, year}` of the import and export tables;
   * each with the metadata merged into it.
   */
  datatype Record =
    | Item(name: string, quantity: int, year: int, subItems: seq<SubItem>, metadata: Metadata)
    | Bilateral(country: string, quantity: int, amount: int, year: int, metadata: Metadata)

  /** A value of a JSON object's field. */
  datatype Value = Str(s: string) | Int(i: int) | SubItems(items: seq<SubItem>)

  type Object = map<string, Value>

  /** The Python exceptions that escape a parser. */
  datatype Error =
    | IndexError            // a missing cell, row or list element
    | TypeError             // indexing the class list of a cell that has none
    | AttributeError        // a method called on `None` or on a string
    | KeyError(key: string) // a missing dictionary key or CSV column
    | ValueError(literal: string) // `int()` of text that is not an integer
    | FileNotFoundError(path: string) // no CSV file at the path
    | StopIteration         // `next(reader)` on an empty CSV file

  const ItemKeys: set<string> := {"item", "quantity", "year", "sub_items"}
  const BilateralKeys: set<string> := {"country", "quantity", "amount", "year"}

  /** The record's own fields, before the metadata is merged in. */
  function Fields(r: Record): (o: Object)
    ensures o.Keys == if r.Item? then ItemKeys else BilateralKeys
  {
    match r
    case Item(name, quantity, year, subItems, _) =>
      map["item" := Str(name), "quantity" := Int(quantity), "year" := Int(year), "sub_items" := SubItems(subItems)]
    case Bilateral(country, quantity, amount, year, _) =>
      map["country" := Str(country), "quantity" := Int(quantity), "amount" := Int(amount), "year" := Int(year)]
  }

  /** `base.update(metadata)`: metadata entries are added and replace fields of the same name. */
  function Overlay(base: Object, metadata: Metadata): (o: Object)
    ensures o.Keys == base.Keys + metadata.Keys
    ensures forall k :: k in metadata ==> o[k] == Str(metadata[k])
    ensures forall k :: k in base && k !in metadata ==> o[k] == base[k]
  {
    base + map k | k in metadata :: Str(metadata[k])
  }

  /** Updating a field the metadata does not name commutes with the merge. */
  lemma OverlayUpdate(base: Object, metadata: Metadata, k: string, v: Value)
    requires k !in metadata
    ensures Overlay(base[k := v], metadata) == Overlay(base, metadata)[k := v]
  {
  }

  /** The dictionary the parser holds for `r`, as served in the JSON response. */
  function AsObject(r: Record): Object
  {
    Overlay(Fields(r), r.metadata)
  }

  /**
   * The served object of a record: its own fields and the metadata keys;
   * every metadata entry as a string; every field the metadata does not
   * name as the record holds it.
   */
  lemma ObjectOf(r: Record)
    ensures AsObject(r).Keys == (if r.Item? then ItemKeys else BilateralKeys) + r.metadata.Keys
    ensures forall k :: k in r.metadata ==> AsObject(r)[k] == Str(r.metadata[k])
    ensures "quantity" !in r.metadata ==> AsObject(r)["quantity"] == Int(r.quantity)
    ensures "year" !in r.metadata ==> AsObject(r)["year"] == Int(r.year)
    ensures r.Item? && "item" !in r.metadata ==> AsObject(r)["item"] == Str(r.name)
    ensures r.Item? && "sub_items" !in r.metadata ==> AsObject(r)["sub_items"] == SubItems(r.subItems)
    ensures r.Bilateral? && "country" !in r.metadata ==> AsObject(r)["country"] == Str(r.country)
    ensures r.Bilateral? && "amount" !in r.metadata ==> AsObject(r)["amount"] == Int(r.amount)
  {
  }

  /** The sub-items an item record holds. */
  function SubsOf(r: Record): seq<SubItem>
  {
    if r.Item? then r.subItems else []
  }

  /** The sub-items of all records, record by record. */
  function AllSubItems(records: seq<Record>): seq<SubItem>
  {
    if records == [] then [] else AllSubItems(records[..|records| - 1]) + SubsOf(records[|records| - 1])
  }

  /**
   * `results[-1]["sub_items"].append(sub)`: only the last record changes,
   * and only by one more sub-item at the end of its list. The lookup raises
   * `KeyError` on a record without the field, and the call raises
   * `AttributeError` when the metadata replaced the list by a string.
   */
  function AppendSubItem(results: seq<Record>, sub: SubItem): (r: Result<seq<Record>, Error>)
    ensures |results| == 0 ==> r == Err(IndexError)
    ensures r.Ok? <==> |results| > 0 && results[|results| - 1].Item? && "sub_items" !in results[|results| - 1].metadata
    ensures r.Ok? ==> |r.value| == |results| && r.value[..|results| - 1] == results[..|results| - 1]
    ensures r.Ok? ==> var last := results[|results| - 1];
      r.value[|results| - 1] == last.(subItems := last.subItems + [sub])
    ensures r.Ok? ==> AllSubItems(r.value) == AllSubItems(results) + [sub]
  {
    if |results| == 0 then Err(IndexError)
    else
      var last := results[|results| - 1];
      if "sub_items" in last.metadata then Err(AttributeError)
      else match last
        case Item(_, _, _, items, _) =>
          var r := results[..|results| - 1] + [last.(subItems := items + [sub])];
          assert r[..|r| - 1] == results[..|results| - 1];
          Ok(r)
        case Bilateral(_, _, _, _, _) => Err(KeyError("sub_items"))
  }

  /**
   * In terms of the served objects: the append succeeds exactly when the
   * last object has a `sub_items` field holding a list, and then that list,
   * and nothing else of the object, gains `sub` at its end.
   */
  lemma AppendSubItemObject(results: seq<Record>, sub: SubItem)
    ensures var r := AppendSubItem(results, sub);
      && (r.Ok? <==> |results| > 0 && "sub_items" in AsObject(results[|results| - 1])
                     && AsObject(results[|results| - 1])["sub_items"].SubItems?)
      && (r.Ok? ==> var last, last' := results[|results| - 1], r.value[|results| - 1];
            AsObject(last') == AsObject(last)["sub_items" := SubItems(SubsOf(last) + [sub])])
  {
    if |results| > 0 {
      var last := results[|results| - 1];
      if AppendSubItem(results, sub).Ok? {
        var last' := last.(subItems := last.subItems + [sub]);
        var list := SubItems(SubsOf(last) + [sub]);
        assert Fields(last') == Fields(last)["sub_items" := list];
        OverlayUpdate(Fields(last), last.metadata, "sub_items", list);
      }
    }
  }

  /** Appending to an item record whose metadata leaves its list alone extends that list. */
  lemma AppendSubItemToItem(results: seq<Record>, sub: SubItem)
    requires |results| > 0 && results[|results| - 1].Item? && "sub_items" !in results[|results| - 1].metadata
    ensures var last := results[|results| - 1];
      AppendSubItem(results, sub) == Ok(results[..|results| - 1] + [last.(subItems := last.subItems + [sub])])
  {
  }

  /** Every record is an item record carrying exactly `metadata`. */
  predicate AllItemsWith(records: seq<Record>, metadata: Metadata)
  {
    forall j :: 0 <= j < |records| ==> records[j].Item? && records[j].metadata == metadata
  }

  /** Appending an item record with the same metadata keeps every record one. */
  lemma AllItemsWithAppend(records: seq<Record>, rec: Record, metadata: Metadata)
    requires AllItemsWith(records, metadata) && rec.Item? && rec.metadata == metadata
    ensures AllItemsWith(records + [rec], metadata)
  {
    assert forall j :: 0 <= j < |records| ==> (records + [rec])[j] == records[j];
  }

  /** Appending a sub-item keeps every record an item record with the same metadata. */
  lemma AppendSubItemKeepsItems(results: seq<Record>, sub: SubItem, metadata: Metadata)
    requires AllItemsWith(results, metadata) && AppendSubItem(results, sub).Ok?
    ensures AllItemsWith(AppendSubItem(results, sub).value, metadata)
  {
    var r := AppendSubItem(results, sub).value;
    forall j | 0 <= j < |r| - 1 ensures r[j] == results[j] {
      assert r[j] == r[..|results| - 1][j];
    }
  }

  /** Every record is a per-country record carrying exactly `metadata`. */
  predicate AllBilateralWith(records: seq<Record>, metadata: Metadata)
  {
    forall j :: 0 <= j < |records| ==> records[j].Bilateral? && records[j].metadata == metadata
  }

  /** Appending a per-country record with the same metadata keeps every record one. */
  lemma AllBilateralWithAppend(records: seq<Record>, rec: Record, metadata: Metadata)
    requires AllBilateralWith(records, metadata) && rec.Bilateral? && rec.metadata == metadata
    ensures AllBilateralWith(records + [rec], metadata)
  {
    assert forall j :: 0 <= j < |records| ==> (records + [rec])[j] == records[j];
  }

  /**
   * As served, item records carrying `metadata` have exactly the item
   * fields and the metadata keys, and every metadata entry with its value.
   */
  lemma ItemObjects(records: seq<Record>, metadata: Metadata)
    requires AllItemsWith(records, metadata)
    ensures forall rec :: rec in records ==>
      AsObject(rec).Keys == ItemKeys + metadata.Keys && forall k :: k in metadata ==> AsObject(rec)[k] == Str(metadata[k])
  {
    forall rec | rec in records
      ensures AsObject(rec).Keys == ItemKeys + metadata.Keys && forall k :: k in metadata ==> AsObject(rec)[k] == Str(metadata[k])
    {
      var j :| 0 <= j < |records| && records[j] == rec;
      ObjectOf(rec);
    }
  }

  /**
   * As served, per-country records carrying `metadata` have exactly the
   * per-country fields and the metadata keys, and every metadata entry with
   * its value.
   */
  lemma BilateralObjects(records: seq<Record>, metadata: Metadata)
    requires AllBilateralWith(records, metadata)
    ensures forall rec :: rec in records ==>
      AsObject(rec).Keys == BilateralKeys + metadata.Keys && forall k :: k in metadata ==> AsObject(rec)[k] == Str(metadata[k])
  {
    forall rec | rec in records
      ensures AsObject(rec).Keys == BilateralKeys + metadata.Keys && forall k :: k in metadata ==> AsObject(rec)[k] == Str(metadata[k])
    {
      var j :| 0 <= j < |records| && records[j] == rec;
      ObjectOf(rec);
    }
  }
}
