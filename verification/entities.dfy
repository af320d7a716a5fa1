/** The records the target compiler reads and produces. */
module Entities {

  /** One categorical dimension of a report: its display name, its query key and its raw options. */
  datatype Filter = Filter(name: string, xpathId: string, options: seq<string>)

  /**
   * One catalog dataset, with its download link already split into the request url
   * (the link without its query string) and the parsed base query, in which every
   * key maps to the list of values the query string gave it.
   */
  datatype Dataset = Dataset(filters: seq<Filter>, requestUrl: string, baseQuery: map<string, seq<string>>)

  /** The catalog is a dictionary from dataset name to dataset; its entries keep their order. */
  datatype CatalogEntry = CatalogEntry(name: string, dataset: Dataset)

  /** The query parameters of one report request. */
  type ParamSet = map<string, string>

  /** One report to download: request url, query parameters, and the absolute path to save it to. */
  datatype Target = Target(url: string, param: ParamSet, filename: string)

  /** A dataset together with the geography filters (District, School) it offers. */
  datatype GeoEntry = GeoEntry(dataset: string, geos: seq<string>)

  /** Every list value of a parsed query string holds at least one element. */
  predicate QueryWellFormed(q: map<string, seq<string>>) {
    forall k :: k in q ==> |q[k]| > 0
  }

  /**
   * The catalog is a JSON object, so no two entries share a name; `parse_qs` never
   * produces an empty value list, so every base query is well formed.
   */
  predicate CatalogWellFormed(catalog: seq<CatalogEntry>) {
    && (forall i, j :: 0 <= i < j < |catalog| ==> catalog[i].name != catalog[j].name)
    && (forall i :: 0 <= i < |catalog| ==> QueryWellFormed(catalog[i].dataset.baseQuery))
  }
}
